/** ASCII character classes shared by the normaliser, the e-mail scanner and the URL splitter. */
module Chars {

  /** Python's `\s` restricted to the ASCII range: tab, newline, vertical tab, form feed,
      carriage return, the four information separators 0x1C-0x1F, and space. */
  predicate IsSpace(c: char) {
    var n := c as int;
    n == 32 || 9 <= n <= 13 || 28 <= n <= 31
  }

  predicate IsUpper(c: char) { 'A' <= c <= 'Z' }

  predicate IsLowerLetter(c: char) { 'a' <= c <= 'z' }

  predicate IsLetter(c: char) { IsUpper(c) || IsLowerLetter(c) }

  predicate IsDigit(c: char) { '0' <= c <= '9' }

  /** `str.lower()` on one ASCII character; every other character is left as it is. */
  function LowerChar(c: char): (d: char)
    ensures !IsUpper(d)
    ensures IsUpper(c) ==> d as int == c as int + 32
    ensures !IsUpper(c) ==> d == c
  {
    if IsUpper(c) then (c as int + 32) as char else c
  }

  predicate NoUpper(s: string) {
    forall i :: 0 <= i < |s| ==> !IsUpper(s[i])
  }

  /** `str.lower()` over a whole string (ASCII case folding only). */
  function Lower(s: string): (t: string)
    ensures |t| == |s|
    ensures NoUpper(t)
    ensures forall i :: 0 <= i < |s| ==> t[i] == LowerChar(s[i])
  {
    if s == [] then [] else [LowerChar(s[0])] + Lower(s[1..])
  }

  /** Lower-casing text that has no upper-case letter changes nothing. */
  lemma {:induction false} LowerOfLower(s: string)
    requires NoUpper(s)
    ensures Lower(s) == s
  {
    if s != [] {
      LowerOfLower(s[1..]);
    }
  }

  predicate AllSpace(s: string) {
    forall i :: 0 <= i < |s| ==> IsSpace(s[i])
  }

  /** Length of the longest whitespace prefix of `s` (what a greedy `\s*` consumes). */
  function SpaceRun(s: string): (n: nat)
    ensures n <= |s|
    ensures AllSpace(s[..n])
    ensures n < |s| ==> !IsSpace(s[n])
  {
    if s != [] && IsSpace(s[0]) then 1 + SpaceRun(s[1..]) else 0
  }

  /** The greedy whitespace run of `w + z` is exactly `w` when `w` is all whitespace
      and `z` does not start with whitespace. */
  lemma {:induction false} SpaceRunOf(w: string, z: string)
    requires AllSpace(w)
    requires z == [] || !IsSpace(z[0])
    ensures SpaceRun(w + z) == |w|
  {
    if w != [] {
      assert (w + z)[1..] == w[1..] + z;
      SpaceRunOf(w[1..], z);
    } else {
      assert w + z == z;
    }
  }
}
