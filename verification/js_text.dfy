/**
  The few pieces of JavaScript's string library the converters rely on:
  `trim`, `startsWith` and `includes`, on strings seen as sequences of
  code points.
 */
module JsText {

  /** The code points `String.prototype.trim` removes: ECMAScript WhiteSpace
      (TAB, VT, FF, SPACE, NBSP, ZWNBSP and the other space separators)
      and LineTerminator (LF, CR, LS, PS). */
  predicate IsWs(c: char) {
    || c == '\t' || c == '\n' || c == '\U{000B}' || c == '\U{000C}' || c == '\r'
    || c == ' ' || c == '\U{00A0}' || c == '\U{1680}'
    || ('\U{2000}' <= c <= '\U{200A}')
    || c == '\U{2028}' || c == '\U{2029}' || c == '\U{202F}' || c == '\U{205F}'
    || c == '\U{3000}' || c == '\U{FEFF}'
  }

  predicate AllWs(s: string) {
    forall i :: 0 <= i < |s| ==> IsWs(s[i])
  }

  /** The code points of `s` before index `k` are all whitespace. */
  predicate WsBefore(s: string, k: int) {
    forall m :: 0 <= m < k && m < |s| ==> IsWs(s[m])
  }

  /** The index of the first non-whitespace code point at or after `i`
      (or `|s|`): where `trim` starts keeping code points. */
  function SkipWsForward(s: string, i: nat): (n: nat)
    requires i <= |s|
    ensures i <= n <= |s|
    ensures forall m :: i <= m < n ==> IsWs(s[m])
    ensures n == |s| || !IsWs(s[n])
    decreases |s| - i
  {
    if i < |s| && IsWs(s[i]) then SkipWsForward(s, i + 1) else i
  }

  /** The index just past the last non-whitespace code point in
      `s[lo..j]` (or `lo`): where `trim` stops keeping code points. */
  function SkipWsBackward(s: string, lo: nat, j: nat): (n: nat)
    requires lo <= j <= |s|
    ensures lo <= n <= j
    ensures forall m :: n <= m < j ==> IsWs(s[m])
    ensures n == lo || !IsWs(s[n - 1])
    decreases j
  {
    if lo < j && IsWs(s[j - 1]) then SkipWsBackward(s, lo, j - 1) else j
  }

  /** `String.prototype.trim`: the slice of `s` between its leading and its
      trailing whitespace. */
  function Trim(s: string): (r: string)
    ensures |r| <= |s|
    ensures r == [] <==> AllWs(s)
    ensures r == [] || (!IsWs(r[0]) && !IsWs(r[|r| - 1]))
  {
    var a := SkipWsForward(s, 0);
    var b := SkipWsBackward(s, a, |s|);
    assert a < |s| ==> a < b;
    s[a..b]
  }

  /** `trim` removes only whitespace, from both ends. */
  lemma TrimIsSlice(s: string)
    ensures exists a, b :: 0 <= a <= b <= |s| && Trim(s) == s[a..b] && WsBefore(s, a) && AllWs(s[b..])
  {
    var a := SkipWsForward(s, 0);
    var b := SkipWsBackward(s, a, |s|);
    assert AllWs(s[b..]) by {
      forall m | 0 <= m < |s[b..]| ensures IsWs(s[b..][m]) {
        assert s[b..][m] == s[b + m];
      }
    }
    assert Trim(s) == s[a..b] && WsBefore(s, a);
  }

  /** The converters' guard `s.trim() === ""`. */
  predicate IsBlank(s: string) {
    Trim(s) == []
  }

  /** `s.startsWith(p)`. */
  predicate StartsWith(s: string, p: string) {
    |p| <= |s| && s[..|p|] == p
  }

  /** `p` occurs in `s` at index `i`. */
  predicate OccursAt(s: string, p: string, i: int) {
    0 <= i && i + |p| <= |s| && s[i..i + |p|] == p
  }

  /** `s.includes(p)`, as a left-to-right scan. */
  function Includes(s: string, p: string): bool
    decreases |s|
  {
    StartsWith(s, p) || (s != [] && Includes(s[1..], p))
  }

  /** The scan finds `p` exactly when `p` occurs somewhere in `s`. */
  lemma {:induction false} IncludesIff(s: string, p: string)
    ensures Includes(s, p) <==> exists i :: OccursAt(s, p, i)
    decreases |s|
  {
    if s != [] {
      IncludesIff(s[1..], p);
    }
    if StartsWith(s, p) {
      assert OccursAt(s, p, 0);
    } else if s != [] && Includes(s[1..], p) {
      var i :| OccursAt(s[1..], p, i);
      assert s[i + 1..i + 1 + |p|] == s[1..][i..i + |p|];
      assert OccursAt(s, p, i + 1);
    }
    forall i | OccursAt(s, p, i)
      ensures Includes(s, p)
    {
      if i == 0 {
        assert StartsWith(s, p);
      } else {
        assert s[1..][i - 1..i - 1 + |p|] == s[i..i + |p|];
        assert OccursAt(s[1..], p, i - 1);
      }
    }
  }

  /** `p` follows a run of leading whitespace in `s`. */
  ghost predicate StartsAfterWs(s: string, p: string) {
    exists k :: WsBefore(s, k) && OccursAt(s, p, k)
  }

  /** A prefix of the trimmed string follows the leading whitespace. */
  lemma TrimPrefixAfterWs(s: string, p: string)
    requires StartsWith(Trim(s), p)
    ensures StartsAfterWs(s, p)
  {
    var a := SkipWsForward(s, 0);
    var b := SkipWsBackward(s, a, |s|);
    assert Trim(s) == s[a..b];
    assert s[a..a + |p|] == s[a..b][..|p|];
    assert WsBefore(s, a) && OccursAt(s, p, a);
  }

  /** A pattern without whitespace at either end that follows the leading
      whitespace is where `trim` starts, and `trim` keeps all of it. */
  lemma AfterWsSurvivesTrim(s: string, p: string, k: int)
    requires p != [] && !IsWs(p[0]) && !IsWs(p[|p| - 1])
    requires WsBefore(s, k) && OccursAt(s, p, k)
    ensures StartsWith(Trim(s), p)
  {
    var a := SkipWsForward(s, 0);
    var b := SkipWsBackward(s, a, |s|);
    assert Trim(s) == s[a..b];
    assert s[k] == s[k..k + |p|][0] == p[0];
    assert k == a;
    assert s[a + |p| - 1] == s[k..k + |p|][|p| - 1] == p[|p| - 1];
    assert a + |p| <= b;
    assert s[a..b][..|p|] == s[a..a + |p|];
  }

  /** For `p` without whitespace at either end, the trimmed string starts
      with `p` exactly when `p` follows the leading whitespace of `s`. */
  lemma TrimStartsWith(s: string, p: string)
    requires p != [] && !IsWs(p[0]) && !IsWs(p[|p| - 1])
    ensures StartsWith(Trim(s), p) <==> StartsAfterWs(s, p)
  {
    if StartsWith(Trim(s), p) {
      TrimPrefixAfterWs(s, p);
    }
    if StartsAfterWs(s, p) {
      var k :| WsBefore(s, k) && OccursAt(s, p, k);
      AfterWsSurvivesTrim(s, p, k);
    }
  }

  /** Occurrences in `s` are the occurrences in `ws + s`, moved by `|ws|`. */
  lemma OccursShift(ws: string, s: string, p: string, i: int)
    requires 0 <= i
    ensures OccursAt(s, p, i) <==> OccursAt(ws + s, p, i + |ws|)
  {
    if i + |p| <= |s| {
      assert (ws + s)[i + |ws|..i + |ws| + |p|] == s[i..i + |p|];
    }
  }

  /** A pattern that begins with a non-whitespace code point cannot start
      inside all-whitespace text. */
  lemma OccursPastWs(ws: string, s: string, p: string, i: int)
    requires AllWs(ws) && p != [] && !IsWs(p[0])
    requires OccursAt(ws + s, p, i)
    ensures i >= |ws|
  {
    assert (ws + s)[i] == (ws + s)[i..i + |p|][0] == p[0];
  }

  lemma WsBeforeShift(ws: string, s: string, k: int)
    requires AllWs(ws) && 0 <= k
    ensures WsBefore(ws + s, k + |ws|) <==> WsBefore(s, k)
  {
    var c := ws + s;
    if WsBefore(s, k) {
      forall m | 0 <= m < k + |ws| && m < |c| ensures IsWs(c[m]) {
        if m >= |ws| { assert c[m] == s[m - |ws|]; }
      }
    }
    if WsBefore(c, k + |ws|) {
      forall m | 0 <= m < k && m < |s| ensures IsWs(s[m]) {
        assert s[m] == c[m + |ws|];
      }
    }
  }

  /** Prepending whitespace does not change whether `p` (whose first code
      point is not whitespace) follows the leading whitespace. */
  lemma StartsAfterWsSkipsWs(ws: string, s: string, p: string)
    requires AllWs(ws)
    requires p != [] && !IsWs(p[0])
    ensures StartsAfterWs(ws + s, p) <==> StartsAfterWs(s, p)
  {
    var c := ws + s;
    if StartsAfterWs(s, p) {
      var k :| WsBefore(s, k) && OccursAt(s, p, k);
      WsBeforeShift(ws, s, k);
      OccursShift(ws, s, p, k);
      assert WsBefore(c, k + |ws|) && OccursAt(c, p, k + |ws|);
    }
    if StartsAfterWs(c, p) {
      var k :| WsBefore(c, k) && OccursAt(c, p, k);
      OccursPastWs(ws, s, p, k);
      WsBeforeShift(ws, s, k - |ws|);
      OccursShift(ws, s, p, k - |ws|);
      assert WsBefore(s, k - |ws|) && OccursAt(s, p, k - |ws|);
    }
  }

  /** A pattern that begins with a non-whitespace code point occurs in
      `ws + s` exactly when it occurs in `s`: prepending whitespace neither
      adds nor removes occurrences. */
  lemma OccursSkipsWs(ws: string, s: string, p: string)
    requires AllWs(ws)
    requires p != [] && !IsWs(p[0])
    ensures (exists i :: OccursAt(ws + s, p, i)) <==> (exists i :: OccursAt(s, p, i))
  {
    var c := ws + s;
    if exists i :: OccursAt(s, p, i) {
      var i :| OccursAt(s, p, i);
      OccursShift(ws, s, p, i);
      assert OccursAt(c, p, i + |ws|);
    }
    if exists i :: OccursAt(c, p, i) {
      var i :| OccursAt(c, p, i);
      OccursPastWs(ws, s, p, i);
      OccursShift(ws, s, p, i - |ws|);
      assert OccursAt(s, p, i - |ws|);
    }
  }
}
