/**
  Character classes and the string primitives the bot relies on
  (`toLowerCase`, `trim`, the regex classes `\d`, `\s`, `[a-z0-9]`).
  Case conversion is restricted to ASCII; whitespace is the set that
  JavaScript's `trim` and `\s` share.
*/
module Ascii {

  predicate IsUpper(c: char) { 'A' <= c <= 'Z' }

  predicate IsLowerLetter(c: char) { 'a' <= c <= 'z' }

  predicate IsDigit(c: char) { '0' <= c <= '9' }

  /** The regex class `[a-z0-9]`. */
  predicate IsAlnum(c: char) { IsLowerLetter(c) || IsDigit(c) }

  /** JavaScript WhiteSpace and LineTerminator code points (`trim`, `\s`). */
  predicate IsSpace(c: char) {
    var n := c as int;
    n == 0x09 || n == 0x0A || n == 0x0B || n == 0x0C || n == 0x0D || n == 0x20
    || n == 0xA0 || n == 0x1680 || (0x2000 <= n <= 0x200A)
    || n == 0x2028 || n == 0x2029 || n == 0x202F || n == 0x205F
    || n == 0x3000 || n == 0xFEFF
  }

  function LowerChar(c: char): (r: char)
    ensures !IsUpper(r)
    ensures IsSpace(r) <==> IsSpace(c)
    ensures !IsUpper(c) ==> r == c
  {
    if IsUpper(c) then (c as int + 32) as char else c
  }

  /** `toLowerCase`, ASCII letters only. */
  function Lower(s: string): (r: string)
    ensures |r| == |s|
    ensures forall i :: 0 <= i < |s| ==> r[i] == LowerChar(s[i])
  {
    seq(|s|, i requires 0 <= i < |s| => LowerChar(s[i]))
  }

  predicate NoUpper(s: string) {
    forall i :: 0 <= i < |s| ==> !IsUpper(s[i])
  }

  lemma LowerIdempotent(s: string)
    ensures NoUpper(Lower(s))
    ensures Lower(Lower(s)) == Lower(s)
  {
  }

  lemma LowerOfLowercase(s: string)
    requires NoUpper(s)
    ensures Lower(s) == s
  {
  }

  /** Neither end of `s` is whitespace. */
  predicate IsTrimmed(s: string) {
    |s| == 0 || (!IsSpace(s[0]) && !IsSpace(s[|s| - 1]))
  }

  predicate AllSpace(s: string) {
    forall i :: 0 <= i < |s| ==> IsSpace(s[i])
  }

  /** The index of the first non-whitespace character of `s` at or after `i`, or `|s|`. */
  function SkipSpace(s: string, i: nat): (n: nat)
    requires i <= |s|
    ensures i <= n <= |s|
    ensures n < |s| ==> !IsSpace(s[n])
    ensures forall k :: i <= k < n ==> IsSpace(s[k])
    decreases |s| - i
  {
    if i < |s| && IsSpace(s[i]) then SkipSpace(s, i + 1) else i
  }

  /** The end of `s[..j]` once trailing whitespace is dropped, never below `lo`. */
  function SkipSpaceBack(s: string, lo: nat, j: nat): (n: nat)
    requires lo <= j <= |s|
    ensures lo <= n <= j
    ensures lo < n ==> !IsSpace(s[n - 1])
    ensures forall k :: n <= k < j ==> IsSpace(s[k])
    decreases j
  {
    if lo < j && IsSpace(s[j - 1]) then SkipSpaceBack(s, lo, j - 1) else j
  }

  /** `String.prototype.trim`: drops whitespace at both ends and nothing else. */
  function Trim(s: string): (r: string)
    ensures IsTrimmed(r)
    ensures |r| <= |s|
    ensures IsTrimmed(s) ==> r == s
  {
    var a := SkipSpace(s, 0);
    var b := SkipSpaceBack(s, a, |s|);
    s[a..b]
  }

  /** What `Trim` drops is whitespace only: `s` is `Trim(s)` framed by two runs of whitespace. */
  lemma TrimDropsOnlySpace(s: string)
    ensures exists p, q :: s == p + Trim(s) + q && AllSpace(p) && AllSpace(q)
  {
    var a := SkipSpace(s, 0);
    var b := SkipSpaceBack(s, a, |s|);
    assert s == s[..a] + s[a..b] + s[b..];
    assert AllSpace(s[..a]) && AllSpace(s[b..]);
  }

  lemma LowerKeepsTrimmed(s: string)
    requires IsTrimmed(s)
    ensures IsTrimmed(Lower(s))
  {
  }

  /** Trimming then lowercasing, the canonical form of commands' text arguments. */
  function TrimLower(s: string): (r: string)
    ensures IsTrimmed(r) && NoUpper(r)
  {
    var t := Trim(s);
    LowerKeepsTrimmed(t);
    Lower(t)
  }

  /** Text that is already trimmed and lowercase is its own canonical form. */
  lemma TrimLowerOfCanonical(t: string)
    requires IsTrimmed(t) && NoUpper(t)
    ensures TrimLower(t) == t
  {
    assert Trim(t) == t;
    LowerOfLowercase(t);
  }

  lemma {:induction false} TrimLowerIdempotent(s: string)
    ensures TrimLower(TrimLower(s)) == TrimLower(s)
  {
    var r := TrimLower(s);
    assert Trim(r) == r;
    LowerOfLowercase(r);
  }
}
