/**
 The ASCII subset of the JavaScript string primitives the service relies on:
 the white-space class (shared by `String.prototype.trim` and the regular
 expression escape `\s`), `trim`, `toUpperCase` and `startsWith`.

 JavaScript's white-space class also holds the Unicode space separators, the
 no-break space, the byte-order mark and the line and paragraph separators,
 and `toUpperCase` maps every cased Unicode letter; this module keeps only the
 six ASCII white-space characters and the letters a-z.

 Trimming is stated through positions: `SpaceEnd` and `SpaceStart` find the
 two ends of a run of white space, and `Trim` is the slice between the
 leading run and the trailing run.
 */
module Ascii {

  /** Space, horizontal tab, line feed, carriage return, vertical tab, form feed. */
  predicate IsSpace(c: char) {
    c == ' ' || c == '\t' || c == '\n' || c == '\r' || c == '\U{0B}' || c == '\U{0C}'
  }

  predicate AllSpace(s: string) {
    forall i :: 0 <= i < |s| ==> IsSpace(s[i])
  }

  /** Neither the first nor the last character is white space. */
  predicate IsTrimmed(s: string) {
    s == [] || (!IsSpace(s[0]) && !IsSpace(s[|s| - 1]))
  }

  /** The end of the run of white space that starts at `from` (the regular expression `\s*`). */
  function SpaceEnd(s: string, from: nat): (r: nat)
    requires from <= |s|
    ensures from <= r <= |s|
    ensures forall i :: from <= i < r ==> IsSpace(s[i])
    ensures r < |s| ==> !IsSpace(s[r])
    decreases |s| - from
  {
    if from < |s| && IsSpace(s[from]) then SpaceEnd(s, from + 1) else from
  }

  /** The start of the run of white space that ends at `hi`, going no lower than `lo`. */
  function SpaceStart(s: string, lo: nat, hi: nat): (r: nat)
    requires lo <= hi <= |s|
    ensures lo <= r <= hi
    ensures forall i :: r <= i < hi ==> IsSpace(s[i])
    ensures lo < r ==> !IsSpace(s[r - 1])
    decreases hi
  {
    if lo < hi && IsSpace(s[hi - 1]) then SpaceStart(s, lo, hi - 1) else hi
  }

  /** The end of a run of white space is the one position that closes the run. */
  lemma SpaceEndIs(s: string, from: nat, r: nat)
    requires from <= r <= |s|
    requires forall i :: from <= i < r ==> IsSpace(s[i])
    requires r < |s| ==> !IsSpace(s[r])
    ensures SpaceEnd(s, from) == r
  {
  }

  /** The start of a run of white space is the one position that opens the run. */
  lemma SpaceStartIs(s: string, lo: nat, hi: nat, r: nat)
    requires lo <= r <= hi <= |s|
    requires forall i :: r <= i < hi ==> IsSpace(s[i])
    requires lo < r ==> !IsSpace(s[r - 1])
    ensures SpaceStart(s, lo, hi) == r
  {
  }

  /** `String.prototype.trim`: the text between the leading and the trailing white space. */
  function Trim(s: string): (r: string)
    ensures IsTrimmed(r)
    ensures |r| <= |s|
  {
    var a := SpaceEnd(s, 0);
    s[a..SpaceStart(s, a, |s|)]
  }

  /** Any split of `s` into white space, a trimmed middle and white space has `Trim(s)` as its middle. */
  lemma TrimUnique(a: string, m: string, b: string)
    requires AllSpace(a) && AllSpace(b) && IsTrimmed(m)
    ensures Trim(a + m + b) == m
  {
    var s := a + m + b;
    assert forall i :: 0 <= i < |a| ==> s[i] == a[i];
    assert forall i :: 0 <= i < |m| ==> s[|a| + i] == m[i];
    assert forall i :: 0 <= i < |b| ==> s[|a| + |m| + i] == b[i];
    if m == [] {
      SpaceEndIs(s, 0, |s|);
    } else {
      SpaceEndIs(s, 0, |a|);
      SpaceStartIs(s, |a|, |s|, |a| + |m|);
      assert s[|a|..|a| + |m|] == m;
    }
  }

  /** Stated by positions: with only white space in `s[i..j]` and `s[k..l]`, and a trimmed `s[j..k]`, trimming `s[i..l]` gives `s[j..k]`. */
  lemma TrimBetween(s: string, i: nat, j: nat, k: nat, l: nat)
    requires i <= j <= k <= l <= |s|
    requires forall p :: i <= p < j ==> IsSpace(s[p])
    requires forall p :: k <= p < l ==> IsSpace(s[p])
    requires j < k ==> !IsSpace(s[j]) && !IsSpace(s[k - 1])
    ensures Trim(s[i..l]) == s[j..k]
  {
    var a, m, b := s[i..j], s[j..k], s[k..l];
    assert s[i..l] == a + m + b;
    forall q | 0 <= q < |a| ensures IsSpace(a[q]) {
      assert a[q] == s[i + q];
    }
    forall q | 0 <= q < |b| ensures IsSpace(b[q]) {
      assert b[q] == s[k + q];
    }
    TrimUnique(a, m, b);
  }

  /** Trimming leaves trimmed text alone. */
  lemma TrimKeeps(s: string)
    requires IsTrimmed(s)
    ensures Trim(s) == s
  {
    TrimBetween(s, 0, 0, |s|, |s|);
    assert s[0..|s|] == s;
  }

  /** Trimming twice is trimming once. */
  lemma TrimIdempotent(s: string)
    ensures Trim(Trim(s)) == Trim(s)
  {
    TrimUnique([], Trim(s), []);
    assert [] + Trim(s) + [] == Trim(s);
  }

  /** `toUpperCase` on one character: a-z becomes A-Z, everything else is kept. */
  function Upper(c: char): (u: char)
    ensures 'a' <= c <= 'z' ==> 'A' <= u <= 'Z' && u as int - 'A' as int == c as int - 'a' as int
    ensures !('a' <= c <= 'z') ==> u == c
  {
    if 'a' <= c <= 'z' then (c as int - 32) as char else c
  }

  /** `String.prototype.toUpperCase`, character by character. */
  function UpperStr(s: string): (r: string)
    ensures |r| == |s|
    ensures forall i :: 0 <= i < |s| ==> r[i] == Upper(s[i])
  {
    seq(|s|, i requires 0 <= i < |s| => Upper(s[i]))
  }

  /** `String.prototype.startsWith`. */
  predicate StartsWith(s: string, prefix: string) {
    |prefix| <= |s| && s[..|prefix|] == prefix
  }
}
