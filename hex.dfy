/** The Base16 digit alphabet: which characters are hexadecimal digits, what
    each one is worth, and the lowercase digit written for each value. */
module Hex {

  /** A digit that `parseInt(_, 16)` accepts: 0-9, a-f or A-F. */
  predicate IsHexDigit(c: char) {
    '0' <= c <= '9' || 'a' <= c <= 'f' || 'A' <= c <= 'F'
  }

  /** A digit as `Number.prototype.toString(16)` writes it: 0-9 or a-f. */
  predicate IsLowerHexDigit(c: char) {
    '0' <= c <= '9' || 'a' <= c <= 'f'
  }

  predicate IsHexString(s: string) {
    forall i :: 0 <= i < |s| ==> IsHexDigit(s[i])
  }

  predicate IsLowerHexString(s: string) {
    forall i :: 0 <= i < |s| ==> IsLowerHexDigit(s[i])
  }

  /** The value of one hexadecimal digit; both cases of a letter are worth the same. */
  function DigitValue(c: char): (v: nat)
    requires IsHexDigit(c)
    ensures v < 16
    ensures 'a' <= c <= 'f' || 'A' <= c <= 'F' <==> 10 <= v
  {
    if '0' <= c <= '9' then c as int - '0' as int
    else if 'a' <= c <= 'f' then c as int - 'a' as int + 10
    else c as int - 'A' as int + 10
  }

  /** The lowercase digit for a value below 16. */
  function HexDigit(d: nat): (c: char)
    requires d < 16
    ensures IsLowerHexDigit(c) && DigitValue(c) == d
  {
    if d < 10 then ('0' as int + d) as char else ('a' as int + d - 10) as char
  }

  /** An upper-case digit letter moved to lower case; every other character unchanged. */
  function ToLower(c: char): (r: char)
    ensures IsHexDigit(c) ==> IsLowerHexDigit(r) && DigitValue(r) == DigitValue(c)
    ensures IsLowerHexDigit(c) ==> r == c
  {
    if 'A' <= c <= 'F' then (c as int - 'A' as int + 'a' as int) as char else c
  }

  function Lowercase(s: string): (r: string)
    ensures |r| == |s|
    ensures forall i :: 0 <= i < |s| ==> r[i] == ToLower(s[i])
  {
    seq(|s|, i requires 0 <= i < |s| => ToLower(s[i]))
  }

  /** Digits and values are in one-to-one correspondence, up to the case of a letter. */
  lemma DigitOfValue(c: char)
    requires IsHexDigit(c)
    ensures HexDigit(DigitValue(c)) == ToLower(c)
  {
  }

  /** A lowercase hexadecimal string is its own lowercase form. */
  lemma LowercaseOfLower(s: string)
    requires IsLowerHexString(s)
    ensures Lowercase(s) == s
  {
  }
}
