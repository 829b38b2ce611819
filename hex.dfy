/**
 * Hexadecimal text as JavaScript produces and reads it: `Number.prototype.toString(16)`
 * writes lower-case digits with no leading zeros, and the hexadecimal escapes of a
 * regular expression accept digits of either case.
 */
module Hex {

  predicate IsHexDigit(c: char) {
    ('0' <= c <= '9') || ('a' <= c <= 'f') || ('A' <= c <= 'F')
  }

  /** The digits that `toString(16)` writes. */
  predicate IsLowerHexDigit(c: char) {
    ('0' <= c <= '9') || ('a' <= c <= 'f')
  }

  predicate AllHexDigits(s: string) {
    forall i :: 0 <= i < |s| ==> IsHexDigit(s[i])
  }

  predicate AllLowerHexDigits(s: string) {
    forall i :: 0 <= i < |s| ==> IsLowerHexDigit(s[i])
  }

  function DigitValue(c: char): (v: nat)
    requires IsHexDigit(c)
    ensures v < 16
  {
    if '0' <= c <= '9' then c as int - '0' as int
    else if 'a' <= c <= 'f' then c as int - 'a' as int + 10
    else c as int - 'A' as int + 10
  }

  /** The lower-case digit of value `d`. */
  function DigitChar(d: nat): (c: char)
    requires d < 16
    ensures IsLowerHexDigit(c) && DigitValue(c) == d
  {
    if d < 10 then ('0' as int + d) as char else ('a' as int + d - 10) as char
  }

  /** The value of a string of hexadecimal digits, most significant first. */
  function ParseHex(s: string): nat
    requires AllHexDigits(s)
  {
    if s == [] then 0 else ParseHex(s[..|s| - 1]) * 16 + DigitValue(s[|s| - 1])
  }

  /** `n.toString(16)`: lower-case digits, no leading zero, read back as `n`. */
  function ToHex(n: nat): (r: string)
    ensures |r| >= 1
    ensures AllLowerHexDigits(r) && AllHexDigits(r)
    ensures ParseHex(r) == n
    ensures |r| > 1 ==> r[0] != '0'
  {
    if n < 16 then [DigitChar(n)]
    else
      var prefix := ToHex(n / 16);
      var r := prefix + [DigitChar(n % 16)];
      assert r[..|r| - 1] == prefix;
      r
  }

  function Pow16(k: nat): (p: nat)
    ensures p >= 1
  {
    if k == 0 then 1 else 16 * Pow16(k - 1)
  }

  /** `toString(16)` needs more than `k` digits exactly when `n` reaches `16^k`. */
  lemma {:induction false} ToHexLength(n: nat, k: nat)
    requires k >= 1
    ensures |ToHex(n)| <= k <==> n < Pow16(k)
  {
    if n < 16 {
      PowAtLeast16(k);
    } else if k == 1 {
      assert |ToHex(n)| == |ToHex(n / 16)| + 1;
    } else {
      ToHexLength(n / 16, k - 1);
      assert |ToHex(n)| == |ToHex(n / 16)| + 1;
      assert n / 16 < Pow16(k - 1) <==> n < 16 * Pow16(k - 1);
    }
  }

  lemma {:induction false} PowAtLeast16(k: nat)
    requires k >= 1
    ensures Pow16(k) >= 16
  {
    if k > 1 {
      PowAtLeast16(k - 1);
    }
  }

  /** The hex form of a code point has more than four digits exactly from U+10000 on. */
  lemma HexAboveFourDigits(n: nat)
    ensures |ToHex(n)| > 4 <==> n >= 0x10000
  {
    ToHexLength(n, 4);
    assert Pow16(4) == 0x10000;
  }

  /** Left-pads with zeros to at least four digits. */
  function Pad4(s: string): (r: string)
    requires AllHexDigits(s)
    ensures |r| == if |s| >= 4 then |s| else 4
    ensures |s| >= 4 ==> r == s
    ensures AllHexDigits(r) && ParseHex(r) == ParseHex(s)
    ensures AllLowerHexDigits(s) ==> AllLowerHexDigits(r)
    decreases 4 - |s|
  {
    if |s| >= 4 then s
    else
      LeadingZero(s);
      Pad4(['0'] + s)
  }

  /** A leading zero does not change the value of a hex string. */
  lemma {:induction false} LeadingZero(s: string)
    requires AllHexDigits(s)
    ensures AllHexDigits(['0'] + s) && ParseHex(['0'] + s) == ParseHex(s)
  {
    var t := ['0'] + s;
    if s != [] {
      assert t[..|t| - 1] == ['0'] + s[..|s| - 1];
      LeadingZero(s[..|s| - 1]);
    } else {
      assert t[..|t| - 1] == [];
    }
  }
}
