/** Decimal rendering of integers as Python's `f"{n:03d}"` does it: the
    digits of |n| without leading zeros, zero-padded so that the whole text,
    sign included, is at least three characters wide; a negative number keeps
    its `-` in front of the padding. */
module DecimalFormat {

  predicate IsDigit(c: char)
  {
    '0' <= c <= '9'
  }

  /** The character of a decimal digit. */
  function Digit(d: nat): (c: char)
    requires d < 10
    ensures IsDigit(c)
  {
    ('0' as int + d) as char
  }

  /** The value of a digit character. */
  function DigitValue(c: char): nat
    requires IsDigit(c)
  {
    c as int - '0' as int
  }

  /** The decimal digits of `n`, most significant first. */
  function NatDigits(n: nat): (s: string)
    ensures 1 <= |s|
    ensures forall i :: 0 <= i < |s| ==> IsDigit(s[i])
    ensures n < 10 ==> |s| == 1
    ensures n >= 10 ==> |s| == |NatDigits(n / 10)| + 1
    ensures n > 0 ==> s[0] != '0'
    decreases n
  {
    if n < 10 then [Digit(n)] else NatDigits(n / 10) + [Digit(n % 10)]
  }

  /** The number a string of digits denotes. */
  function DigitsValue(s: string): nat
    requires forall i :: 0 <= i < |s| ==> IsDigit(s[i])
  {
    if s == [] then 0 else DigitsValue(s[..|s| - 1]) * 10 + DigitValue(s[|s| - 1])
  }

  /** `k` zero characters. */
  function Zeros(k: nat): (z: string)
    ensures |z| == k
    ensures forall i :: 0 <= i < k ==> z[i] == '0'
  {
    if k == 0 then "" else "0" + Zeros(k - 1)
  }

  /** Left-pads `s` with zeros up to `width` characters. */
  function ZeroPad(s: string, width: nat): (p: string)
  {
    if |s| >= width then s else Zeros(width - |s|) + s
  }

  /** `f"{n:03d}"`. */
  function Format03(n: int): (s: string)
  {
    if n >= 0 then ZeroPad(NatDigits(n), 3) else "-" + ZeroPad(NatDigits(-n), 2)
  }

  /** Reads back a (possibly signed) decimal integer; the inverse of `Format03`. */
  function ParseInt(s: string): int
  {
    if |s| > 0 && s[0] == '-' then
      if forall i :: 1 <= i < |s| ==> IsDigit(s[i]) then -(DigitsValue(s[1..]) as int) else 0
    else if forall i :: 0 <= i < |s| ==> IsDigit(s[i]) then DigitsValue(s) else 0
  }

  /** The digits of `n` denote `n`. */
  lemma {:induction false} NatDigitsValue(n: nat)
    ensures DigitsValue(NatDigits(n)) == n
    decreases n
  {
    if n >= 10 {
      NatDigitsValue(n / 10);
      var s := NatDigits(n);
      assert s[..|s| - 1] == NatDigits(n / 10);
    }
  }

  /** Leading zeros do not change the value. */
  lemma {:induction false} LeadingZeros(k: nat, s: string)
    requires forall i :: 0 <= i < |s| ==> IsDigit(s[i])
    ensures forall i :: 0 <= i < |Zeros(k) + s| ==> IsDigit((Zeros(k) + s)[i])
    ensures DigitsValue(Zeros(k) + s) == DigitsValue(s)
    decreases |s|
  {
    var t := Zeros(k) + s;
    if s == [] {
      assert t == Zeros(k);
      ZerosValue(k);
    } else {
      LeadingZeros(k, s[..|s| - 1]);
      assert t[..|t| - 1] == Zeros(k) + s[..|s| - 1];
    }
  }

  /** A run of zeros denotes 0. */
  lemma {:induction false} ZerosValue(k: nat)
    ensures DigitsValue(Zeros(k)) == 0
  {
    if k > 0 {
      ZerosValue(k - 1);
      assert Zeros(k)[..k - 1] == Zeros(k - 1);
    }
  }

  /** Padding keeps the digits and their value. */
  lemma PadValue(s: string, width: nat)
    requires forall i :: 0 <= i < |s| ==> IsDigit(s[i])
    ensures |ZeroPad(s, width)| >= width && |ZeroPad(s, width)| >= |s|
    ensures forall i :: 0 <= i < |ZeroPad(s, width)| ==> IsDigit(ZeroPad(s, width)[i])
    ensures DigitsValue(ZeroPad(s, width)) == DigitsValue(s)
  {
    if |s| < width {
      LeadingZeros(width - |s|, s);
    }
  }

  /** The formatted number reads back as itself. */
  lemma FormatRoundTrip(n: int)
    ensures ParseInt(Format03(n)) == n
  {
    var m: nat := if n >= 0 then n else -n;
    NatDigitsValue(m);
    PadValue(NatDigits(m), if n >= 0 then 3 else 2);
    if n < 0 {
      var s := Format03(n);
      assert s[1..] == ZeroPad(NatDigits(m), 2);
    }
  }

  /** At least three characters, all digits except a leading `-` exactly when
      `n` is negative; exactly three for the values that fit in three figures. */
  lemma FormatShape(n: int)
    ensures |Format03(n)| >= 3
    ensures Format03(n)[0] == '-' <==> n < 0
    ensures forall i :: (if n < 0 then 1 else 0) <= i < |Format03(n)| ==> IsDigit(Format03(n)[i])
    ensures -99 <= n <= 999 ==> |Format03(n)| == 3
  {
    var m: nat := if n >= 0 then n else -n;
    PadValue(NatDigits(m), if n >= 0 then 3 else 2);
  }
}
