/** Hexadecimal rendering as printf's `%0<w>x` (lower case) and `%0<w>X` (upper case) produce it
    for an unsigned value, with the parser that inverts it. */
module HexFormat {

  function HexDigit(d: nat, upper: bool): (c: char)
    requires d < 16
    ensures IsHexDigit(c) && DigitValue(c) == d
    ensures d >= 10 ==> (if upper then 'A' <= c <= 'F' else 'a' <= c <= 'f')
  {
    if d < 10 then '0' + d as char
    else if upper then 'A' + (d - 10) as char
    else 'a' + (d - 10) as char
  }

  predicate IsHexDigit(c: char)
  {
    '0' <= c <= '9' || 'a' <= c <= 'f' || 'A' <= c <= 'F'
  }

  function DigitValue(c: char): (d: nat)
    requires IsHexDigit(c)
    ensures d < 16
  {
    if '0' <= c <= '9' then (c - '0') as nat
    else if 'a' <= c <= 'f' then (c - 'a') as nat + 10
    else (c - 'A') as nat + 10
  }

  predicate AllHex(s: string)
  {
    forall i :: 0 <= i < |s| ==> IsHexDigit(s[i])
  }

  /** True when every letter digit of `s` is in the requested case. */
  predicate InCase(s: string, upper: bool)
  {
    forall i :: 0 <= i < |s| ==> IsHexDigit(s[i]) && (if upper then !('a' <= s[i] <= 'f') else !('A' <= s[i] <= 'F'))
  }

  /** The shortest hexadecimal numeral of `n` (at least one digit). */
  function Digits(n: nat, upper: bool): (r: string)
    ensures |r| >= 1 && InCase(r, upper)
    decreases n
  {
    if n < 16 then [HexDigit(n, upper)] else Digits(n / 16, upper) + [HexDigit(n % 16, upper)]
  }

  function Zeros(k: nat): (r: string)
    ensures |r| == k && forall i :: 0 <= i < k ==> r[i] == '0'
  {
    if k == 0 then [] else Zeros(k - 1) + ['0']
  }

  /** printf's `%0<width>x` / `%0<width>X` of the unsigned value `n`. */
  function Hex(n: nat, width: nat, upper: bool): (r: string)
    ensures InCase(r, upper)
    ensures |r| == if |Digits(n, upper)| < width then width else |Digits(n, upper)|
  {
    var d := Digits(n, upper);
    if |d| < width then Zeros(width - |d|) + d else d
  }

  /** The value of a hexadecimal numeral, most significant digit first. */
  function ParseHex(s: string): (v: nat)
    requires AllHex(s)
  {
    if s == [] then 0 else ParseHex(s[..|s| - 1]) * 16 + DigitValue(s[|s| - 1])
  }

  function Pow16(k: nat): (r: nat)
    ensures r >= 1
  {
    if k == 0 then 1 else 16 * Pow16(k - 1)
  }

  lemma {:induction false} ParseDigits(n: nat, upper: bool)
    ensures ParseHex(Digits(n, upper)) == n
    decreases n
  {
    if n >= 16 {
      var d := Digits(n, upper);
      assert d[..|d| - 1] == Digits(n / 16, upper);
      ParseDigits(n / 16, upper);
    }
  }

  lemma {:induction false} ParseLeadingZeros(k: nat, s: string)
    requires AllHex(s)
    ensures ParseHex(Zeros(k) + s) == ParseHex(s)
    decreases |s|
  {
    if s == [] {
      assert Zeros(k) + s == Zeros(k);
      ZerosParseToZero(k);
    } else {
      assert (Zeros(k) + s)[..|Zeros(k) + s| - 1] == Zeros(k) + s[..|s| - 1];
      ParseLeadingZeros(k, s[..|s| - 1]);
    }
  }

  lemma {:induction false} ZerosParseToZero(k: nat)
    ensures ParseHex(Zeros(k)) == 0
  {
    if k > 0 {
      assert Zeros(k)[..k - 1] == Zeros(k - 1);
      ZerosParseToZero(k - 1);
    }
  }

  /** Parsing undoes rendering, whatever the width and case. */
  lemma ParseHexOfHex(n: nat, width: nat, upper: bool)
    ensures ParseHex(Hex(n, width, upper)) == n
  {
    var d := Digits(n, upper);
    ParseDigits(n, upper);
    if |d| < width {
      ParseLeadingZeros(width - |d|, d);
    }
  }

  /** Two values render alike only if they are equal. */
  lemma HexInjective(m: nat, n: nat, width: nat, upper: bool)
    requires Hex(m, width, upper) == Hex(n, width, upper)
    ensures m == n
  {
    ParseHexOfHex(m, width, upper);
    ParseHexOfHex(n, width, upper);
  }

  lemma {:induction false} DigitsLength(n: nat, k: nat, upper: bool)
    requires 1 <= k && n < Pow16(k)
    ensures |Digits(n, upper)| <= k
    decreases k
  {
    if n >= 16 {
      assert k > 1;
      assert n / 16 < Pow16(k - 1);
      DigitsLength(n / 16, k - 1, upper);
    }
  }

  /** A value below 16^w renders as exactly w digits: `%06x` of a 24-bit address is six digits,
      `%04x` of a byte is four. */
  lemma HexExactWidth(n: nat, width: nat, upper: bool)
    requires 1 <= width && n < Pow16(width)
    ensures |Hex(n, width, upper)| == width
  {
    DigitsLength(n, width, upper);
  }

  function ToUpper(c: char): (u: char)
  {
    if 'a' <= c <= 'z' then c - 'a' + 'A' else c
  }

  function UpperAll(s: string): (r: string)
    ensures |r| == |s|
    ensures forall i :: 0 <= i < |s| ==> r[i] == ToUpper(s[i])
  {
    if s == [] then [] else UpperAll(s[..|s| - 1]) + [ToUpper(s[|s| - 1])]
  }

  lemma {:induction false} UpperDigits(n: nat)
    ensures UpperAll(Digits(n, false)) == Digits(n, true)
    decreases n
  {
    if n >= 16 {
      UpperDigits(n / 16);
    }
  }

  /** `%0<w>X` is `%0<w>x` with its letter digits upper-cased. */
  lemma UpperOfLowerHex(n: nat, width: nat)
    ensures UpperAll(Hex(n, width, false)) == Hex(n, width, true)
  {
    UpperDigits(n);
  }
}
