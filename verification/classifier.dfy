/**
  The content classifier of the artifact converter: it decides whether the
  submitted artifact is SVG markup (embedded as is) or code (embedded in the
  chart page).
 */
module Classifier {
  import opened JsText

  /** The root tag prefix the trimmed content must start with. */
  const SvgOpen: string := "<svg"

  /** The opening tag with attributes searched for anywhere in the content. */
  const SvgOpenWithAttributes: string := "<svg "

  /** The content's first non-whitespace code points are `<svg`. */
  ghost predicate LeadsWithSvgTag(content: string) {
    StartsAfterWs(content, SvgOpen)
  }

  /** `<svg ` (with its space) occurs somewhere in the untrimmed content. */
  ghost predicate HasSvgTagWithAttributes(content: string) {
    exists i :: OccursAt(content, SvgOpenWithAttributes, i)
  }

  /** `isSvgContent`: the trimmed content starts with `<svg`, or the raw
      content includes `<svg `. */
  function IsSvgContent(content: string): (svg: bool)
    ensures svg <==> LeadsWithSvgTag(content) || HasSvgTagWithAttributes(content)
  {
    TrimStartsWith(content, SvgOpen);
    IncludesIff(content, SvgOpenWithAttributes);
    StartsWith(Trim(content), SvgOpen) || Includes(content, SvgOpenWithAttributes)
  }

  /** `<svg ` anywhere makes the content SVG, whatever precedes it. */
  lemma SvgTagAnywhere(before: string, after: string)
    ensures IsSvgContent(before + SvgOpenWithAttributes + after)
  {
    var content := before + SvgOpenWithAttributes + after;
    assert content[|before|..|before| + |SvgOpenWithAttributes|] == SvgOpenWithAttributes;
    assert OccursAt(content, SvgOpenWithAttributes, |before|);
  }

  /** After leading whitespace, `<svg` alone is enough: no space needs to
      follow it, so `<svg>` and `<svgx` both count as SVG. */
  lemma LeadingSvgTag(ws: string, rest: string)
    requires AllWs(ws)
    ensures IsSvgContent(ws + SvgOpen + rest)
  {
    var content := ws + SvgOpen + rest;
    assert content[|ws|..|ws| + |SvgOpen|] == SvgOpen;
    assert WsBefore(content, |ws|) && OccursAt(content, SvgOpen, |ws|);
  }

  /** Prepending whitespace never changes the classification. */
  lemma PrependWsPreserves(ws: string, content: string)
    requires AllWs(ws)
    ensures IsSvgContent(ws + content) == IsSvgContent(content)
  {
    assert SvgOpen[0] == SvgOpenWithAttributes[0] == '<';
    StartsAfterWsSkipsWs(ws, content, SvgOpen);
    OccursSkipsWs(ws, content, SvgOpenWithAttributes);
  }

  /** Appending whitespace can change the classification: `a<svg` is not
      SVG, but the trailing space in `a<svg ` completes `<svg `. */
  lemma AppendWsMayChange()
    ensures !IsSvgContent("a<svg")
    ensures IsSvgContent("a<svg ")
  {
    NotSvgWithoutSpace();
    SvgTagAnywhere("a", "");
    assert "a" + SvgOpenWithAttributes + "" == "a<svg ";
  }

  lemma NotSvgWithoutSpace()
    ensures !IsSvgContent("a<svg")
  {
    var plain := "a<svg";
    assert !LeadsWithSvgTag(plain) by {
      assert !IsWs(plain[0]);
      forall k | WsBefore(plain, k)
        ensures !OccursAt(plain, SvgOpen, k)
      {
        assert k <= 0;
        assert plain[0..4][0] == 'a';
      }
    }
    assert !HasSvgTagWithAttributes(plain) by {
      assert !OccursAt(plain, SvgOpenWithAttributes, 0) by {
        assert plain[0..5][0] == 'a';
      }
    }
  }
}
