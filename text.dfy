/** The few Python string operations the graph core relies on:
    `str.lower()`, the substring test `p in s`, and `str(n)` on a
    non-negative integer. */
module Text {

  /** Lower-casing of one character. Python's `str.lower()` is Unicode-aware;
      this model lower-cases the ASCII letters and leaves every other
      character alone. */
  function LowerChar(c: char): char
  {
    if 'A' <= c <= 'Z' then (c as int + 32) as char else c
  }

  /** `s.lower()`, character by character. */
  function Lower(s: string): (r: string)
    ensures |r| == |s|
    ensures forall i :: 0 <= i < |s| ==> r[i] == LowerChar(s[i])
  {
    if |s| == 0 then [] else [LowerChar(s[0])] + Lower(s[1..])
  }

  /** `p` occurs in `s` starting at position `i`. */
  predicate OccursAt(p: string, s: string, i: nat)
  {
    i + |p| <= |s| && s[i..i + |p|] == p
  }

  /** Python's `p in s` on strings: some position of `s` starts a copy of
      `p`. The empty string occurs in every string. */
  function Contains(p: string, s: string): (b: bool)
    ensures b <==> exists i: nat :: OccursAt(p, s, i)
    decreases |s|
  {
    if |p| > |s| then
      false
    else if s[..|p|] == p then
      assert OccursAt(p, s, 0);
      true
    else
      var b := Contains(p, s[1..]);
      if b then
        var i: nat :| OccursAt(p, s[1..], i);
        OccursShift(p, s, i);
        b
      else
        assert !OccursAt(p, s, 0);
        forall i: nat | i > 0 ensures !OccursAt(p, s, i) {
          OccursShift(p, s, i - 1);
        }
        b
  }

  /** An occurrence one position into `s` is an occurrence in `s[1..]`. */
  lemma OccursShift(p: string, s: string, j: nat)
    requires |s| > 0
    ensures OccursAt(p, s, j + 1) <==> OccursAt(p, s[1..], j)
  {
    if j + 1 + |p| <= |s| {
      assert s[1..][j..j + |p|] == s[j + 1..j + 1 + |p|];
    }
  }

  /** The empty string is `in` every string. */
  lemma EmptyIsContained(s: string)
    ensures Contains("", s)
  {
    assert OccursAt("", s, 0);
  }

  /** The decimal digit for `d`. */
  function DigitChar(d: nat): char
    requires d < 10
  {
    ('0' as int + d) as char
  }

  /** Python's `str(n)` for a non-negative integer: its decimal digits,
      most significant first, with no leading zero. */
  function NatToString(n: nat): (s: string)
    ensures 1 <= |s|
    ensures |s| == 1 <==> n < 10
    ensures forall i :: 0 <= i < |s| ==> '0' <= s[i] <= '9'
    decreases n
  {
    if n < 10 then [DigitChar(n)] else NatToString(n / 10) + [DigitChar(n % 10)]
  }

  /** Distinct numbers print as distinct strings, so comparing the printed
      ids of nodes is the same as comparing the ids. */
  lemma {:induction false} NatToStringInjective(a: nat, b: nat)
    requires NatToString(a) == NatToString(b)
    ensures a == b
    decreases a
  {
    var s := NatToString(a);
    if a < 10 {
      assert |NatToString(b)| == 1;
    } else {
      assert b >= 10;
      assert DigitChar(a % 10) == s[|s| - 1] == DigitChar(b % 10);
      assert NatToString(a / 10) == s[..|s| - 1] == NatToString(b / 10);
      NatToStringInjective(a / 10, b / 10);
    }
  }
}
