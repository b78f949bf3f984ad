/** Reference meanings of the two text formats of minimal.js: the decimal rendering that
    intToString produces and the hexadecimal digits that stringToInt reads. */
module Numerals {
  import opened Arith

  function Pow10(k: nat): (r: nat)
    ensures r >= 1
  {
    if k == 0 then 1 else 10 * Pow10(k - 1)
  }

  function DigitChar(d: int): char
    requires 0 <= d < 10
  {
    (48 + d) as char
  }

  predicate IsDecimalDigit(c: char)
  {
    '0' <= c <= '9'
  }

  /** The decimal digits of n without leading zeros; empty for 0. */
  function Digits(n: nat): (s: string)
    ensures forall i :: 0 <= i < |s| ==> IsDecimalDigit(s[i])
    ensures n > 0 ==> |s| >= 1 && s[0] != '0'
  {
    if n == 0 then "" else
      var d := Digits(n / 10);
      assert n / 10 == 0 ==> d == "";
      d + [DigitChar(n % 10)]
  }

  /** The shortest decimal numeral of n: "0" for zero. */
  function NatString(n: nat): string
  {
    if n == 0 then "0" else Digits(n)
  }

  /** The decimal rendering of an integer, with a leading '-' when it is negative. */
  function DecimalString(n: int): string
  {
    if n < 0 then "-" + NatString(-n) else NatString(n)
  }

  /** The low k decimal digits of m, padded with leading zeros to exactly k characters. */
  function Fixed(m: nat, k: nat): (s: string)
    ensures |s| == k
  {
    if k == 0 then "" else Fixed(m / 10, k - 1) + [DigitChar(m % 10)]
  }

  /** Reading decimal digits back. */
  function DigitsValue(s: string): nat
  {
    if s == [] then 0
    else
      var c := s[|s| - 1] as int - 48;
      DigitsValue(s[..|s| - 1]) * 10 + (if 0 <= c < 10 then c else 0)
  }

  function ParseDecimal(s: string): int
  {
    if |s| > 0 && s[0] == '-' then -(DigitsValue(s[1..]) as int) else DigitsValue(s)
  }

  /** Reading back the decimal rendering gives the number. */
  lemma {:induction false} DigitsRoundTrip(n: nat)
    ensures DigitsValue(Digits(n)) == n
  {
    if n > 0 {
      DigitsRoundTrip(n / 10);
      var s := Digits(n);
      assert s[..|s| - 1] == Digits(n / 10);
    }
  }

  lemma DecimalRoundTrip(n: int)
    ensures ParseDecimal(DecimalString(n)) == n
  {
    DigitsRoundTrip(Abs(n));
    if n < 0 {
      assert DecimalString(n)[1..] == Digits(-n);
    } else if n == 0 {
      assert DigitsValue("0") == DigitsValue("") * 10 + 0;
    }
  }

  /** Splitting off the low k digits: the digits of n are those of n / 10^k followed by
      exactly k more. */
  lemma {:induction false} DigitsSplit(n: nat, k: nat)
    requires n / Pow10(k) > 0
    ensures Digits(n) == Digits(n / Pow10(k)) + Fixed(n, k)
  {
    if k > 0 {
      DivDiv(n, 10, Pow10(k - 1));
      DigitsSplit(n / 10, k - 1);
    }
  }

  /** Only the low k digits of m matter to Fixed(m, k). */
  lemma {:induction false} FixedLow(m: nat, k: nat)
    ensures Fixed(m, k) == Fixed(m % Pow10(k), k)
  {
    if k > 0 {
      FixedLow(m / 10, k - 1);
      LowDigits(m, Pow10(k - 1));
    }
  }

  lemma LowDigits(m: nat, p: nat)
    requires p >= 1
    ensures (m % (10 * p)) / 10 == (m / 10) % p && (m % (10 * p)) % 10 == m % 10
  {
    var q, r := (m / 10) / p, (m / 10) % p;
    assert m / 10 == q * p + r;
    assert m == (10 * p) * q + (10 * r + m % 10);
    DivUnique(m, 10 * p, q, 10 * r + m % 10);
  }

  /** A number below 10^k written with k digits is its shortest numeral padded with
      zeros on the left. */
  lemma {:induction false} FixedPadded(m: nat, k: nat)
    requires k >= 1 && m < Pow10(k)
    ensures |NatString(m)| <= k
    ensures Fixed(m, k) == seq(k - |NatString(m)|, _ => '0') + NatString(m)
  {
    if m < 10 {
      ZerosFixed(k - 1);
      assert Fixed(m, k) == Fixed(0, k - 1) + [DigitChar(m)];
    } else {
      FixedPadded(m / 10, k - 1);
      assert Digits(m) == Digits(m / 10) + [DigitChar(m % 10)];
    }
  }

  lemma {:induction false} ZerosFixed(k: nat)
    ensures Fixed(0, k) == seq(k, _ => '0')
  {
    if k > 0 {
      ZerosFixed(k - 1);
    }
  }

  /** A hexadecimal digit of either case. */
  predicate IsHexDigit(c: char)
  {
    '0' <= c <= '9' || 'a' <= c <= 'f' || 'A' <= c <= 'F'
  }

  /** The digit value stringToInt assigns to a character: its code less 48, less 39 more
      for 'a'..'f' and 7 more for 'A'..'F'. */
  function HexDigit(c: char): (d: int)
    ensures IsHexDigit(c) ==> 0 <= d < 16
  {
    var v := c as int - 48;
    if 49 <= v <= 54 then v - 39
    else if 17 <= v <= 22 then v - 7
    else v
  }

  /** The number written by a string of hexadecimal digits, most significant first. */
  function HexValue(s: string): int
  {
    if s == [] then 0 else HexValue(s[..|s| - 1]) * 16 + HexDigit(s[|s| - 1])
  }

  predicate IsHexDigits(s: string)
  {
    forall i :: 0 <= i < |s| ==> IsHexDigit(s[i])
  }

  /** The number a hexadecimal numeral with an optional leading '-' stands for. */
  function HexNumeral(s: string): int
    requires |s| >= 1
  {
    if s[0] == '-' then -HexValue(s[1..]) else HexValue(s)
  }

  /** Upper- and lower-case digits have the same value. */
  lemma HexCase(c: char)
    requires 'a' <= c <= 'f'
    ensures HexDigit(c) == HexDigit((c as int - 32) as char) == c as int - 87
  {
  }

  lemma {:induction false} HexBound(s: string)
    requires IsHexDigits(s)
    ensures 0 <= HexValue(s) < Pow2(4 * |s|)
  {
    if s != [] {
      var t := s[..|s| - 1];
      HexBound(t);
      Pow2Add(4 * |t|, 4);
      assert Pow2(4) == 16;
    }
  }

  /** Concatenated digit strings: the left part is worth 16^|v| times its own value. */
  lemma {:induction false} HexConcat(u: string, v: string)
    ensures HexValue(u + v) == HexValue(u) * Pow2(4 * |v|) + HexValue(v)
  {
    if v != [] {
      var v0 := v[..|v| - 1];
      var d := HexDigit(v[|v| - 1]);
      assert (u + v)[..|u + v| - 1] == u + v0;
      assert HexValue(u + v) == HexValue(u + v0) * 16 + d;
      HexConcat(u, v0);
      Pow2Add(4 * |v0|, 4);
      assert Pow2(4) == 16;
      ConcatArith(HexValue(u), Pow2(4 * |v0|), HexValue(v0), d);
    } else {
      assert u + v == u;
    }
  }

  lemma ConcatArith(a: int, p: int, x: int, d: int)
    ensures (a * p + x) * 16 + d == a * (p * 16) + (x * 16 + d)
  {
  }

}
