/**
  The converters' pages are JavaScript template literals: fixed text with
  `${version}`, `${code}` or `${escapeHtml(code)}` holes. A page is modelled
  as a sequence of pieces, so its shape (which holes, in what order,
  escaped or not) is data the lemmas can talk about.
 */
module Templates {
  import opened HtmlEscape

  datatype Piece =
    | Text(text: string)
    | VersionHole
    | ContentHole
    | EscapedContentHole

  type Template = seq<Piece>

  datatype Option<T> = None | Some(value: T)

  /** The text every page opens with, up to its title. */
  const DocumentHead: string := "\n" + DocumentMeta + "    <title>"

  const DocumentMeta: string :=
    "<!DOCTYPE html>\n<html lang=\"en\">\n<head>\n    <meta charset=\"UTF-8\">\n"
    + "    <meta name=\"viewport\" content=\"width=device-width, initial-scale=1.0\">\n"

  /** What one piece contributes to the page. */
  function PieceValue(p: Piece, version: string, content: string): string {
    match p
    case Text(s) => s
    case VersionHole => version
    case ContentHole => content
    case EscapedContentHole => EscapeHtml(content)
  }

  /** The evaluated template literal. */
  function Fill(t: Template, version: string, content: string): string {
    if t == [] then [] else PieceValue(t[0], version, content) + Fill(t[1..], version, content)
  }

  /** The template has no content hole of either kind. */
  predicate ContentFree(t: Template) {
    forall i :: 0 <= i < |t| ==> t[i].Text? || t[i].VersionHole?
  }

  /** Position `i` of `Fill(t, version, content)` lies inside the text a
      version hole produced. */
  predicate InVersionSpan(t: Template, version: string, content: string, i: int)
    decreases |t|
  {
    && t != []
    && 0 <= i
    && var w := |PieceValue(t[0], version, content)|;
       if i < w then t[0].VersionHole? else InVersionSpan(t[1..], version, content, i - w)
  }

  /** The middle of `doc` between a prefix `pre` and a suffix `post`, if it
      has both. */
  function Between(doc: string, pre: string, post: string): (r: Option<string>)
    ensures r.Some? ==> doc == pre + r.value + post
  {
    if |pre| + |post| <= |doc| && doc[..|pre|] == pre && doc[|doc| - |post|..] == post then
      var m := doc[|pre|..|doc| - |post|];
      assert doc == doc[..|pre|] + m + doc[|doc| - |post|..];
      Some(m)
    else None
  }

  lemma BetweenConcat(pre: string, m: string, post: string)
    ensures Between(pre + m + post, pre, post) == Some(m)
  {
    var doc := pre + m + post;
    assert doc[..|pre|] == pre;
    assert doc[|doc| - |post|..] == post;
    assert doc[|pre|..|doc| - |post|] == m;
  }

  lemma {:induction false} FillAppend(t1: Template, t2: Template, version: string, content: string)
    ensures Fill(t1 + t2, version, content) == Fill(t1, version, content) + Fill(t2, version, content)
    decreases |t1|
  {
    if t1 == [] {
      assert t1 + t2 == t2;
    } else {
      assert (t1 + t2)[0] == t1[0];
      assert (t1 + t2)[1..] == t1[1..] + t2;
      FillAppend(t1[1..], t2, version, content);
    }
  }

  /** A template without content holes does not depend on the content. */
  lemma {:induction false} FillContentFree(t: Template, version: string, c1: string, c2: string)
    requires ContentFree(t)
    ensures Fill(t, version, c1) == Fill(t, version, c2)
    decreases |t|
  {
    if t != [] {
      assert t[0].Text? || t[0].VersionHole?;
      FillContentFree(t[1..], version, c1, c2);
    }
  }

  /** A page with a single content hole is its content-free head, that
      hole's text, and its content-free tail. */
  lemma FillAroundHole(head: Template, hole: Piece, tail: Template, version: string, content: string)
    requires ContentFree(head) && ContentFree(tail)
    ensures Fill(head + [hole] + tail, version, content)
         == Fill(head, version, "") + PieceValue(hole, version, content) + Fill(tail, version, "")
  {
    FillAppend(head + [hole], tail, version, content);
    FillAppend(head, [hole], version, content);
    assert Fill([hole], version, content) == PieceValue(hole, version, content);
    FillContentFree(head, version, content, "");
    FillContentFree(tail, version, content, "");
  }

  /** A page that opens with fixed text begins with that text. */
  lemma FillStartsWithText(t: Template, version: string, content: string)
    requires t != [] && t[0].Text?
    ensures |t[0].text| <= |Fill(t, version, content)|
    ensures Fill(t, version, content)[..|t[0].text|] == t[0].text
  {
  }

  /** A page with one hole between a content-free head and tail: the text
      between the filled head and tail is that hole's text, and the page
      begins with the head's first code point. */
  lemma PageLayout(head: Template, hole: Piece, tail: Template, version: string, content: string)
    requires ContentFree(head) && ContentFree(tail)
    requires head != [] && head[0].Text? && head[0].text != []
    ensures Between(Fill(head + [hole] + tail, version, content), Fill(head, version, ""), Fill(tail, version, ""))
         == Some(PieceValue(hole, version, content))
    ensures Fill(head + [hole] + tail, version, content)[0] == head[0].text[0]
  {
    FillAroundHole(head, hole, tail, version, content);
    BetweenConcat(Fill(head, version, ""), PieceValue(hole, version, content), Fill(tail, version, ""));
    FillStartsWithText(head, version, "");
  }

  /** Changing the version for another of the same length changes the page
      only inside the version holes' text: every other position keeps its
      code point. */
  lemma {:induction false} VersionChangesStayInSpans(t: Template, v1: string, v2: string, content: string)
    requires |v1| == |v2|
    ensures |Fill(t, v1, content)| == |Fill(t, v2, content)|
    ensures forall i ::
              0 <= i < |Fill(t, v1, content)| && Fill(t, v1, content)[i] != Fill(t, v2, content)[i] ==>
                InVersionSpan(t, v1, content, i)
    decreases |t|
  {
    if t != [] {
      VersionChangesStayInSpans(t[1..], v1, v2, content);
      var p1, p2 := PieceValue(t[0], v1, content), PieceValue(t[0], v2, content);
      var r1, r2 := Fill(t[1..], v1, content), Fill(t[1..], v2, content);
      assert Fill(t, v1, content) == p1 + r1 && Fill(t, v2, content) == p2 + r2;
      forall i | 0 <= i < |p1 + r1| && (p1 + r1)[i] != (p2 + r2)[i]
        ensures InVersionSpan(t, v1, content, i)
      {
        if i >= |p1| {
          assert (p1 + r1)[i] == r1[i - |p1|] && (p2 + r2)[i] == r2[i - |p1|];
        }
      }
    }
  }
}
