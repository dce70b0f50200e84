/** UTF-16 text as the renderer sees it, and the ordinal searches it relies on. */
module Texts {

  /** One UTF-16 storage unit: a .NET `char`, which may be half of a surrogate pair. */
  newtype CodeUnit = x: int | 0 <= x < 0x1_0000

  /** A .NET string or span of chars. Offsets into it count storage units, not code points. */
  type Text = seq<CodeUnit>

  const LF: CodeUnit := 0x0A
  const CR: CodeUnit := 0x0D
  /** The two-unit newline spelling "\r\n". */
  const CrLf: Text := [CR, LF]

  /** The UTF-16 form of a string of Basic Multilingual Plane characters: one unit per character. */
  function Units(s: string): Text
    requires forall i :: 0 <= i < |s| ==> s[i] as int < 0x1_0000
  {
    seq(|s|, i requires 0 <= i < |s| => s[i] as int as CodeUnit)
  }

  /** `s` occurs in `t` at offset `i`, without running past the end of `t` (an ordinal comparison). */
  predicate OccursAt(t: Text, i: int, s: Text)
  {
    0 <= i && i + |s| <= |t| && t[i..i + |s|] == s
  }

  /** `s` occurs nowhere in `t` at or after offset `i`. */
  ghost predicate AbsentFrom(t: Text, i: int, s: Text)
  {
    forall j :: i <= j <= |t| ==> !OccursAt(t, j, s)
  }

  /**
   * Searching `t` for `s` from offset `i`, exactly `n` units are skipped: they lie before the
   * first occurrence of `s`, or `n` is 0 when `s` does not occur at all. (So `n` is 0 both
   * when `s` is absent and when it occurs right at `i`.)
   */
  ghost predicate SkipsTo(t: Text, i: int, s: Text, n: int)
  {
    0 <= i && 0 <= n && i + n <= |t| &&
    (forall j :: i <= j < i + n ==> !OccursAt(t, j, s)) &&
    (OccursAt(t, i + n, s) || (n == 0 && AbsentFrom(t, i, s)))
  }

  /**
   * Ordinal `IndexOf` on the part of `t` from offset `from` on: the distance from `from` to the
   * first occurrence of `s`, or -1 when there is none. An empty `s` is found at distance 0.
   */
  function IndexOf(t: Text, from: nat, s: Text): (r: int)
    requires from <= |t|
    ensures r == -1 || 0 <= r <= |t| - from - |s|
    decreases |t| - from
  {
    if OccursAt(t, from, s) then 0
    else if from == |t| then -1
    else
      var k := IndexOf(t, from + 1, s);
      if k < 0 then -1 else k + 1
  }

  /** `IndexOf` finds the first occurrence, and answers -1 only when there is none. */
  lemma {:induction false} IndexOfFirst(t: Text, from: nat, s: Text)
    requires from <= |t|
    ensures var r := IndexOf(t, from, s);
      (r >= 0 ==> OccursAt(t, from + r, s) && forall j :: from <= j < from + r ==> !OccursAt(t, j, s)) &&
      (r < 0 ==> AbsentFrom(t, from, s))
    decreases |t| - from
  {
    if !OccursAt(t, from, s) && from < |t| {
      IndexOfFirst(t, from + 1, s);
    }
  }

  /** Only one span length meets `SkipsTo`. */
  lemma SkipsToUnique(t: Text, i: int, s: Text, n: int, m: int)
    requires SkipsTo(t, i, s, n) && SkipsTo(t, i, s, m)
    ensures n == m
  {
  }

  /**
   * How many units a search for `s` from offset `i` skips: the distance to the first
   * occurrence, or 0 when there is none.
   */
  ghost function Skipped(t: Text, i: nat, s: Text): (n: nat)
    requires i <= |t|
    ensures SkipsTo(t, i, s, n)
  {
    IndexOfFirst(t, i, s);
    assert SkipsTo(t, i, s, if IndexOf(t, i, s) < 0 then 0 else IndexOf(t, i, s));
    var n :| SkipsTo(t, i, s, n); n
  }

  /** How many units the newline at offset `i` spans: 2 for "\r\n", 1 for a lone "\n" or "\r", else 0. */
  function NewLineLength(t: Text, i: nat): (n: nat)
    requires i <= |t|
    ensures i + n <= |t|
  {
    if OccursAt(t, i, CrLf) then 2
    else if i < |t| && (t[i] == LF || t[i] == CR) then 1
    else 0
  }
}
