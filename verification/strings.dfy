/**
 * The few string operations the router needs: lower-casing (Go's strings.ToLower,
 * restricted to ASCII letters), suffix tests and trimming (strings.TrimSuffix), and
 * substring search (strings.Contains).
 */
module Strings {

  predicate IsUpper(c: char) {
    'A' <= c <= 'Z'
  }

  function LowerChar(c: char): (d: char)
    ensures !IsUpper(d)
    ensures !IsUpper(c) ==> d == c
  {
    if IsUpper(c) then (c as int + 32) as char else c
  }

  /** True when `s` has no upper-case ASCII letter. */
  predicate IsLower(s: string) {
    forall i :: 0 <= i < |s| ==> !IsUpper(s[i])
  }

  /** strings.ToLower, for ASCII letters. */
  function Lower(s: string): (r: string)
    ensures |r| == |s|
    ensures forall i :: 0 <= i < |s| ==> r[i] == LowerChar(s[i])
  {
    seq(|s|, i requires 0 <= i < |s| => LowerChar(s[i]))
  }

  /** Lower-casing yields a lower-case string and changes nothing already lower-case. */
  lemma LowerFacts(s: string)
    ensures IsLower(Lower(s))
    ensures Lower(Lower(s)) == Lower(s)
    ensures IsLower(s) <==> Lower(s) == s
  {
    if Lower(s) == s {
      forall i | 0 <= i < |s| ensures !IsUpper(s[i]) {
        assert s[i] == LowerChar(s[i]);
      }
    }
  }

  /** `s` ends with `t`. */
  predicate HasSuffix(s: string, t: string) {
    |t| <= |s| && s[|s| - |t|..] == t
  }

  /** strings.TrimSuffix: `s` without the trailing `t`, or `s` itself when it does not end with `t`. */
  function TrimSuffix(s: string, t: string): (r: string)
    ensures HasSuffix(s, t) ==> r + t == s
    ensures !HasSuffix(s, t) ==> r == s
  {
    if HasSuffix(s, t) then s[..|s| - |t|] else s
  }

  /** `t` occurs inside `s` starting at position `i`. */
  predicate OccursAt(s: string, t: string, i: int) {
    0 <= i <= |s| - |t| && s[i..i + |t|] == t
  }

  /** strings.Contains: `t` occurs somewhere inside `s`. */
  predicate Contains(s: string, t: string) {
    exists i :: 0 <= i <= |s| - |t| && OccursAt(s, t, i)
  }

  /** A witness position proves containment. */
  lemma ContainsAt(s: string, t: string, i: int)
    requires OccursAt(s, t, i)
    ensures Contains(s, t)
  {
  }

  /** Every string contains each of its suffixes. */
  lemma ContainsSuffix(s: string, t: string)
    requires HasSuffix(s, t)
    ensures Contains(s, t)
  {
    ContainsAt(s, t, |s| - |t|);
  }

  /** A string occurs in any concatenation that has it in the middle. */
  lemma OccursInMiddle(a: string, b: string, c: string)
    ensures OccursAt(a + b + c, b, |a|)
  {
    assert (a + b + c)[|a|..|a| + |b|] == b;
  }
}
