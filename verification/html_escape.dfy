/**
  `escapeHtml`: five global single-character replacements applied one after
  the other, `&` first. The model keeps that sequential shape and proves it
  equal to a one-pass, per-character entity encoding, which then carries
  the properties: no raw specials, every `&` opens an entity, an inverse,
  the exact length.
 */
module HtmlEscape {
  import opened JsText

  const AmpEntity: string := "&amp;"
  const LtEntity: string := "&lt;"
  const GtEntity: string := "&gt;"
  const QuotEntity: string := "&quot;"
  const AposEntity: string := "&#039;"

  /** The characters `escapeHtml` rewrites. */
  predicate IsSpecial(c: char) {
    c == '&' || c == '<' || c == '>' || c == '"' || c == '\''
  }

  /** `s.replace(/c/g, with)`: every occurrence of `c` becomes `with`. */
  function ReplaceAll(s: string, c: char, with: string): (r: string)
    ensures c !in with ==> c !in r
  {
    if s == [] then []
    else (if s[0] == c then with else [s[0]]) + ReplaceAll(s[1..], c, with)
  }

  /** `escapeHtml` as written: `&`, then `<`, `>`, `"` and `'`. */
  function EscapeHtml(unsafe: string): string {
    var amp := ReplaceAll(unsafe, '&', AmpEntity);
    var lt := ReplaceAll(amp, '<', LtEntity);
    var gt := ReplaceAll(lt, '>', GtEntity);
    var quot := ReplaceAll(gt, '"', QuotEntity);
    ReplaceAll(quot, '\'', AposEntity)
  }

  /** The entity one character is encoded as (itself if not special). */
  function EscapeChar(c: char): string {
    match c
    case '&' => AmpEntity
    case '<' => LtEntity
    case '>' => GtEntity
    case '"' => QuotEntity
    case '\'' => AposEntity
    case _ => [c]
  }

  /** Reference encoding: each character replaced by its entity in one pass. */
  function EscapeEach(s: string): string {
    if s == [] then [] else EscapeChar(s[0]) + EscapeEach(s[1..])
  }

  /** The text at the start of `t` is one of the five entities. */
  predicate BeginsEntity(t: string) {
    || StartsWith(t, AmpEntity) || StartsWith(t, LtEntity) || StartsWith(t, GtEntity)
    || StartsWith(t, QuotEntity) || StartsWith(t, AposEntity)
  }

  /** The shape of an escaped text: none of `< > " '`, and every `&` opens
      an entity (checked code point by code point). */
  predicate IsEscaped(t: string)
    decreases |t|
  {
    t == [] || ((!IsSpecial(t[0]) || (t[0] == '&' && BeginsEntity(t))) && IsEscaped(t[1..]))
  }

  /** The first character `t` decodes to and how many code points it
      takes: one of the five entities, or else the first code point alone. */
  function DecodeFirst(t: string): (d: (char, nat))
    requires t != []
    ensures 1 <= d.1 <= |t|
  {
    if StartsWith(t, AmpEntity) then ('&', |AmpEntity|)
    else if StartsWith(t, LtEntity) then ('<', |LtEntity|)
    else if StartsWith(t, GtEntity) then ('>', |GtEntity|)
    else if StartsWith(t, QuotEntity) then ('"', |QuotEntity|)
    else if StartsWith(t, AposEntity) then ('\'', |AposEntity|)
    else (t[0], 1)
  }

  /** Decodes the five entities (any other text is kept). */
  function Unescape(t: string): string
    decreases |t|
  {
    if t == [] then []
    else
      var d := DecodeFirst(t);
      [d.0] + Unescape(t[d.1..])
  }

  lemma {:induction false} ReplaceAllAppend(a: string, b: string, c: char, with: string)
    ensures ReplaceAll(a + b, c, with) == ReplaceAll(a, c, with) + ReplaceAll(b, c, with)
    decreases |a|
  {
    if a == [] {
      assert a + b == b;
    } else {
      assert (a + b)[0] == a[0];
      assert (a + b)[1..] == a[1..] + b;
      ReplaceAllAppend(a[1..], b, c, with);
    }
  }

  lemma ReplaceAllAbsent(s: string, c: char, with: string)
    requires c !in s
    ensures ReplaceAll(s, c, with) == s
  {
  }

  /** `escapeHtml` distributes over concatenation. */
  lemma EscapeHtmlAppend(a: string, b: string)
    ensures EscapeHtml(a + b) == EscapeHtml(a) + EscapeHtml(b)
  {
    var a1, b1 := ReplaceAll(a, '&', AmpEntity), ReplaceAll(b, '&', AmpEntity);
    ReplaceAllAppend(a, b, '&', AmpEntity);
    var a2, b2 := ReplaceAll(a1, '<', LtEntity), ReplaceAll(b1, '<', LtEntity);
    ReplaceAllAppend(a1, b1, '<', LtEntity);
    var a3, b3 := ReplaceAll(a2, '>', GtEntity), ReplaceAll(b2, '>', GtEntity);
    ReplaceAllAppend(a2, b2, '>', GtEntity);
    var a4, b4 := ReplaceAll(a3, '"', QuotEntity), ReplaceAll(b3, '"', QuotEntity);
    ReplaceAllAppend(a3, b3, '"', QuotEntity);
    ReplaceAllAppend(a4, b4, '\'', AposEntity);
  }

  lemma ReplaceAllOne(c: char, x: char, with: string)
    ensures ReplaceAll([c], x, with) == if c == x then with else [c]
  {
    assert [c][1..] == [];
  }

  /** The passes after the first leave alone a text holding none of the
      characters they rewrite. */
  lemma LaterPassesKeep(e: string)
    requires '<' !in e && '>' !in e && '"' !in e && '\'' !in e
    ensures ReplaceAll(ReplaceAll(ReplaceAll(ReplaceAll(e, '<', LtEntity), '>', GtEntity), '"', QuotEntity), '\'', AposEntity) == e
  {
    ReplaceAllAbsent(e, '<', LtEntity);
    ReplaceAllAbsent(e, '>', GtEntity);
    ReplaceAllAbsent(e, '"', QuotEntity);
    ReplaceAllAbsent(e, '\'', AposEntity);
  }

  lemma LastThreePassesKeep(e: string)
    requires '>' !in e && '"' !in e && '\'' !in e
    ensures ReplaceAll(ReplaceAll(ReplaceAll(e, '>', GtEntity), '"', QuotEntity), '\'', AposEntity) == e
  {
    ReplaceAllAbsent(e, '>', GtEntity);
    ReplaceAllAbsent(e, '"', QuotEntity);
    ReplaceAllAbsent(e, '\'', AposEntity);
  }

  lemma LastTwoPassesKeep(e: string)
    requires '"' !in e && '\'' !in e
    ensures ReplaceAll(ReplaceAll(e, '"', QuotEntity), '\'', AposEntity) == e
  {
    ReplaceAllAbsent(e, '"', QuotEntity);
    ReplaceAllAbsent(e, '\'', AposEntity);
  }

  /** On one character, the five passes yield that character's entity:
      the entities written by earlier passes hold no character a later pass
      rewrites, which is why `&` has to go first. */
  lemma EscapeHtmlChar(c: char)
    ensures EscapeHtml([c]) == EscapeChar(c)
  {
    var amp := ReplaceAll([c], '&', AmpEntity);
    ReplaceAllOne(c, '&', AmpEntity);
    if c == '&' {
      LaterPassesKeep(amp);
      return;
    }
    var lt := ReplaceAll(amp, '<', LtEntity);
    ReplaceAllOne(c, '<', LtEntity);
    if c == '<' {
      LastThreePassesKeep(lt);
      return;
    }
    var gt := ReplaceAll(lt, '>', GtEntity);
    ReplaceAllOne(c, '>', GtEntity);
    if c == '>' {
      LastTwoPassesKeep(gt);
      return;
    }
    var quot := ReplaceAll(gt, '"', QuotEntity);
    ReplaceAllOne(c, '"', QuotEntity);
    if c == '"' {
      ReplaceAllAbsent(quot, '\'', AposEntity);
      return;
    }
    ReplaceAllOne(c, '\'', AposEntity);
  }

  /** The sequential replacements and the one-pass encoding agree. */
  lemma {:induction false} EscapeHtmlIsEscapeEach(s: string)
    ensures EscapeHtml(s) == EscapeEach(s)
    decreases |s|
  {
    if s == [] {
    } else {
      assert s == [s[0]] + s[1..];
      EscapeHtmlAppend([s[0]], s[1..]);
      EscapeHtmlChar(s[0]);
      EscapeHtmlIsEscapeEach(s[1..]);
    }
  }

  lemma EscapeEachCons(c: char, u: string)
    ensures EscapeEach([c] + u) == EscapeChar(c) + EscapeEach(u)
  {
    assert ([c] + u)[0] == c;
    assert ([c] + u)[1..] == u;
  }

  /** `IsEscaped` holds exactly when every position passes the test. */
  lemma {:induction false} IsEscapedAt(t: string, i: int)
    requires IsEscaped(t) && 0 <= i < |t|
    ensures !IsSpecial(t[i]) || (t[i] == '&' && BeginsEntity(t[i..]))
    decreases i
  {
    if i == 0 {
      assert t[0..] == t;
    } else {
      IsEscapedAt(t[1..], i - 1);
      assert t[1..][i - 1..] == t[i..];
    }
  }

  lemma {:induction false} IsEscapedFromAll(t: string)
    requires forall i :: 0 <= i < |t| ==> !IsSpecial(t[i]) || (t[i] == '&' && BeginsEntity(t[i..]))
    ensures IsEscaped(t)
    decreases |t|
  {
    if t != [] {
      assert t[0..] == t;
      forall i | 0 <= i < |t[1..]|
        ensures !IsSpecial(t[1..][i]) || (t[1..][i] == '&' && BeginsEntity(t[1..][i..]))
      {
        assert t[1..][i] == t[i + 1] && t[1..][i..] == t[i + 1..];
      }
      IsEscapedFromAll(t[1..]);
    }
  }

  lemma {:induction false} IsEscapedAppend(a: string, b: string)
    requires IsEscaped(a) && IsEscaped(b)
    ensures IsEscaped(a + b)
    decreases |a|
  {
    if a == [] {
      assert a + b == b;
    } else {
      var t := a + b;
      assert t[0] == a[0] && t[1..] == a[1..] + b;
      forall p | StartsWith(a, p) ensures StartsWith(t, p) {
        assert t[..|p|] == a[..|p|];
      }
      IsEscapedAppend(a[1..], b);
    }
  }

  lemma {:induction false} IsEscapedSuffix(t: string, k: nat)
    requires IsEscaped(t) && k <= |t|
    ensures IsEscaped(t[k..])
    decreases k
  {
    if k == 0 {
      assert t[0..] == t;
    } else {
      IsEscapedSuffix(t[1..], k - 1);
      assert t[1..][k - 1..] == t[k..];
    }
  }

  lemma {:induction false} PlainIsEscaped(t: string)
    requires forall i :: 0 <= i < |t| ==> !IsSpecial(t[i])
    ensures IsEscaped(t)
    decreases |t|
  {
    if t != [] {
      assert forall i :: 0 <= i < |t[1..]| ==> t[1..][i] == t[i + 1];
      PlainIsEscaped(t[1..]);
    }
  }

  lemma EscapeCharEscaped(c: char)
    ensures IsEscaped(EscapeChar(c))
  {
    var e := EscapeChar(c);
    if IsSpecial(c) {
      assert e[0] == '&' && e[..|e|] == e;
      assert BeginsEntity(e);
      assert forall i :: 0 <= i < |e[1..]| ==> !IsSpecial(e[1..][i]);
      PlainIsEscaped(e[1..]);
    } else {
      assert e[1..] == [];
    }
  }

  lemma {:induction false} EscapeEachEscaped(s: string)
    ensures IsEscaped(EscapeEach(s))
    decreases |s|
  {
    if s != [] {
      EscapeCharEscaped(s[0]);
      EscapeEachEscaped(s[1..]);
      IsEscapedAppend(EscapeChar(s[0]), EscapeEach(s[1..]));
    }
  }

  /** Decoding stops at the end of each entity, so an encoded character
      comes back as itself whatever follows it. */
  lemma DecodeEscapeChar(c: char, t: string)
    ensures DecodeFirst(EscapeChar(c) + t) == (c, |EscapeChar(c)|)
  {
    var e := EscapeChar(c);
    var u := e + t;
    assert u[..|e|] == e;
    assert u[0] == e[0];
    if c == '&' {
    } else if c == '<' {
      assert u[1] == 'l';
    } else if c == '>' {
      assert u[1] == 'g';
    } else if c == '"' {
      assert u[1] == 'q';
    } else if c == '\'' {
      assert u[1] == '#';
    } else {
      assert u[0] == c;
      assert !StartsWith(u, AmpEntity) && !StartsWith(u, LtEntity) && !StartsWith(u, GtEntity);
      assert !StartsWith(u, QuotEntity) && !StartsWith(u, AposEntity);
    }
  }

  lemma UnescapeEscapeChar(c: char, t: string)
    ensures Unescape(EscapeChar(c) + t) == [c] + Unescape(t)
  {
    var e := EscapeChar(c);
    DecodeEscapeChar(c, t);
    assert (e + t)[|e|..] == t;
  }

  lemma {:induction false} UnescapeEscapeEach(s: string)
    ensures Unescape(EscapeEach(s)) == s
    decreases |s|
  {
    if s != [] {
      UnescapeEscapeChar(s[0], EscapeEach(s[1..]));
      UnescapeEscapeEach(s[1..]);
      assert s == [s[0]] + s[1..];
    }
  }

  /** In escaped text the first decoded character re-encodes to exactly
      the code points it was decoded from. */
  lemma DecodeFirstEscaped(t: string)
    requires t != [] && IsEscaped(t)
    ensures EscapeChar(DecodeFirst(t).0) == t[..DecodeFirst(t).1]
  {
    if !StartsWith(t, AmpEntity) && !StartsWith(t, LtEntity) && !StartsWith(t, GtEntity)
      && !StartsWith(t, QuotEntity) && !StartsWith(t, AposEntity)
    {
      assert !IsSpecial(t[0]);
    }
  }

  /** Decoding peels off one character: the first decoded one, followed by
      the decoding of the rest. */
  lemma UnescapeStep(t: string)
    requires t != []
    ensures Unescape(t) == [DecodeFirst(t).0] + Unescape(t[DecodeFirst(t).1..])
  {
  }

  /** Re-encoding after one decoding step: if `c` was decoded from the
      first `n` code points and the rest re-encodes to itself, so does the
      whole text. */
  lemma ReencodeStep(t: string, c: char, n: nat)
    requires n <= |t| && EscapeChar(c) == t[..n]
    requires Unescape(t) == [c] + Unescape(t[n..])
    requires EscapeEach(Unescape(t[n..])) == t[n..]
    ensures EscapeEach(Unescape(t)) == t
  {
    EscapeEachCons(c, Unescape(t[n..]));
    assert t == t[..n] + t[n..];
  }

  lemma {:induction false} EscapeEachUnescape(t: string)
    requires IsEscaped(t)
    ensures EscapeEach(Unescape(t)) == t
    decreases |t|
  {
    if t != [] {
      var d := DecodeFirst(t);
      DecodeFirstEscaped(t);
      IsEscapedSuffix(t, d.1);
      EscapeEachUnescape(t[d.1..]);
      UnescapeStep(t);
      ReencodeStep(t, d.0, d.1);
    }
  }

  /** How much escaping one character adds to the length. */
  function Growth(c: char): nat {
    match c
    case '&' => 4
    case '<' => 3
    case '>' => 3
    case '"' => 5
    case '\'' => 5
    case _ => 0
  }

  lemma EscapeCharLength(c: char)
    ensures |EscapeChar(c)| == 1 + Growth(c)
  {
  }

  /** The total growth of a text, character by character. */
  function TotalGrowth(s: string): nat {
    if s == [] then 0 else Growth(s[0]) + TotalGrowth(s[1..])
  }

  lemma {:induction false} EscapeEachGrowth(s: string)
    ensures |EscapeEach(s)| == |s| + TotalGrowth(s)
    decreases |s|
  {
    if s != [] {
      EscapeCharLength(s[0]);
      EscapeEachGrowth(s[1..]);
    }
  }

  /** The total growth counts 4 per `&`, 3 per `<` and `>`, 5 per `"` and `'`. */
  lemma {:induction false} TotalGrowthCounts(s: string)
    ensures TotalGrowth(s) == 4 * multiset(s)['&'] + 3 * multiset(s)['<']
      + 3 * multiset(s)['>'] + 5 * multiset(s)['"'] + 5 * multiset(s)['\'']
    decreases |s|
  {
    if s != [] {
      var c := s[0];
      TotalGrowthCounts(s[1..]);
      assert s == [c] + s[1..];
      var m, m' := multiset(s), multiset(s[1..]);
      assert m == multiset{c} + m';
      assert 4 * m['&'] + 3 * m['<'] + 3 * m['>'] + 5 * m['"'] + 5 * m['\'']
          == Growth(c) + 4 * m'['&'] + 3 * m'['<'] + 3 * m'['>'] + 5 * m'['"'] + 5 * m'['\''];
    }
  }

  /** No `<`, `>`, `"` or `'` survives escaping, and every `&` in the output
      opens one of the five entities (later passes never re-escape the `&`
      of an earlier entity). */
  lemma EscapeHtmlEscapes(s: string)
    ensures forall i :: 0 <= i < |EscapeHtml(s)| ==> !(EscapeHtml(s)[i] in "<>\"'")
    ensures forall i :: 0 <= i < |EscapeHtml(s)| && EscapeHtml(s)[i] == '&' ==> BeginsEntity(EscapeHtml(s)[i..])
  {
    EscapeHtmlIsEscapeEach(s);
    EscapeEachEscaped(s);
    forall i | 0 <= i < |EscapeHtml(s)|
      ensures !IsSpecial(EscapeHtml(s)[i]) || (EscapeHtml(s)[i] == '&' && BeginsEntity(EscapeHtml(s)[i..]))
    {
      IsEscapedAt(EscapeHtml(s), i);
    }
  }

  /** Text without special characters is left unchanged. */
  lemma {:induction false} EscapeHtmlIdentity(s: string)
    requires forall i :: 0 <= i < |s| ==> !IsSpecial(s[i])
    ensures EscapeHtml(s) == s
    decreases |s|
  {
    EscapeHtmlIsEscapeEach(s);
    if s != [] {
      EscapeHtmlIdentity(s[1..]);
      EscapeHtmlIsEscapeEach(s[1..]);
    }
  }

  /** Decoding the entities recovers the original text. */
  lemma EscapeHtmlRoundTrip(s: string)
    ensures Unescape(EscapeHtml(s)) == s
  {
    EscapeHtmlIsEscapeEach(s);
    UnescapeEscapeEach(s);
  }

  /** Distinct texts escape to distinct texts. */
  lemma EscapeHtmlInjective(a: string, b: string)
    requires EscapeHtml(a) == EscapeHtml(b)
    ensures a == b
  {
    EscapeHtmlRoundTrip(a);
    EscapeHtmlRoundTrip(b);
  }

  /** Every escaped-shaped text is the escaping of its decoding, so the
      outputs of `escapeHtml` are exactly the escaped-shaped texts. */
  lemma EscapeHtmlOnto(t: string)
    requires IsEscaped(t)
    ensures EscapeHtml(Unescape(t)) == t
  {
    EscapeEachUnescape(t);
    EscapeHtmlIsEscapeEach(Unescape(t));
  }

  /** Each `&` grows by 4, each `<` and `>` by 3, each `"` and `'` by 5. */
  lemma EscapeHtmlLength(s: string)
    ensures |EscapeHtml(s)| == |s| + 4 * multiset(s)['&'] + 3 * multiset(s)['<']
      + 3 * multiset(s)['>'] + 5 * multiset(s)['"'] + 5 * multiset(s)['\'']
  {
    EscapeHtmlIsEscapeEach(s);
    EscapeEachGrowth(s);
    TotalGrowthCounts(s);
  }
}
