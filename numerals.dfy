/**
 * Numerals in base 10 and base 16 as Python writes and reads them:
 * `format(n, 'x')` and `str(n)` (lowercase digits, no leading zeros, `"0"`
 * for zero), `int(s, 16)` on hex digits of either case, and `int(s)` on an
 * optionally signed run of ASCII decimal digits.
 */
module Numerals {
  import opened Wrappers
  import opened Text

  /** The two bases the station uses. */
  datatype Radix = Decimal | Hexadecimal {
    function Base(): nat
    {
      if Decimal? then 10 else 16
    }

    /** `v * Base()`, written per radix so that the arithmetic stays linear. */
    function Shift(v: nat): nat
    {
      if Decimal? then v * 10 else v * 16
    }

    function Quot(n: nat): nat
    {
      if Decimal? then n / 10 else n / 16
    }

    function Rem(n: nat): (r: nat)
      ensures r < 16
    {
      if Decimal? then n % 10 else n % 16
    }
  }

  /** The digit Python prints for `d`: `0`-`9`, then lowercase `a`-`f`. */
  function DigitChar(d: nat): char
    requires d < 16
  {
    if d < 10 then ('0' as int + d) as char else ('a' as int + d - 10) as char
  }

  /** The value of a digit character, case-insensitive for `a`-`f`; 16 for anything else. */
  function DigitValue(c: char): nat
  {
    if '0' <= c <= '9' then c as int - '0' as int
    else if 'a' <= c <= 'f' then c as int - 'a' as int + 10
    else if 'A' <= c <= 'F' then c as int - 'A' as int + 10
    else 16
  }

  predicate IsDigitOf(c: char, radix: Radix)
  {
    DigitValue(c) < radix.Base()
  }

  predicate AllDigitsOf(s: string, radix: Radix)
  {
    forall i :: 0 <= i < |s| ==> IsDigitOf(s[i], radix)
  }

  /** The characters Python's `format(_, 'x')` and `str` produce. */
  predicate IsLowerHexDigit(c: char)
  {
    '0' <= c <= '9' || 'a' <= c <= 'f'
  }

  lemma DigitRoundTrip(d: nat)
    requires d < 16
    ensures DigitValue(DigitChar(d)) == d && IsLowerHexDigit(DigitChar(d))
  {
  }

  /** The number a string of digits denotes, most significant digit first. */
  function Value(s: string, radix: Radix): nat
  {
    if |s| == 0 then 0 else radix.Shift(Value(s[..|s| - 1], radix)) + DigitValue(s[|s| - 1])
  }

  /** Python's `format(n, 'x')` (hexadecimal) and `str(n)` (decimal) for `n >= 0`. */
  function ToBase(n: nat, radix: Radix): (r: string)
    ensures 1 <= |r|
    decreases n
  {
    if n < radix.Base() then [DigitChar(n)]
    else ToBase(radix.Quot(n), radix) + [DigitChar(radix.Rem(n))]
  }

  /** Reading back what `ToBase` writes gives the number back. */
  lemma {:induction false} ValueOfToBase(n: nat, radix: Radix)
    ensures Value(ToBase(n, radix), radix) == n
    decreases n
  {
    var b := radix.Base();
    if n >= b {
      var q, d := n / b, n % b;
      ValueOfToBase(q, radix);
      DigitRoundTrip(d);
      var r := ToBase(n, radix);
      assert r[..|r| - 1] == ToBase(q, radix);
      if radix.Decimal? {
        assert Value(r, radix) == q * 10 + d;
      } else {
        assert Value(r, radix) == q * 16 + d;
      }
    }
  }

  /** Every character `ToBase` writes is a lowercase digit of its radix. */
  lemma {:induction false} ToBaseDigits(n: nat, radix: Radix)
    ensures AllDigitsOf(ToBase(n, radix), radix)
    ensures forall i :: 0 <= i < |ToBase(n, radix)| ==> IsLowerHexDigit(ToBase(n, radix)[i])
    decreases n
  {
    var b := radix.Base();
    DigitRoundTrip(n % b);
    if n < b {
      DigitRoundTrip(n);
    } else {
      ToBaseDigits(n / b, radix);
    }
  }

  /** `ToBase` never writes a superfluous leading zero. */
  lemma {:induction false} ToBaseNoLeadingZero(n: nat, radix: Radix)
    ensures |ToBase(n, radix)| > 1 ==> ToBase(n, radix)[0] != '0'
    decreases n
  {
    var b := radix.Base();
    if n >= b {
      var q := n / b;
      ToBaseNoLeadingZero(q, radix);
      assert ToBase(n, radix)[0] == ToBase(q, radix)[0];
      if q < b {
        DigitRoundTrip(q);
      }
    }
  }

  /** Leading zeros do not change the value. */
  lemma {:induction false} ValueZeros(k: nat, s: string, radix: Radix)
    ensures Value(Zeros(k) + s, radix) == Value(s, radix)
    decreases |s|
  {
    if |s| == 0 {
      ValueOfZeros(k, radix);
      assert Zeros(k) + s == Zeros(k);
    } else {
      var t := Zeros(k) + s;
      assert t[..|t| - 1] == Zeros(k) + s[..|s| - 1];
      ValueZeros(k, s[..|s| - 1], radix);
    }
  }

  lemma {:induction false} ValueOfZeros(k: nat, radix: Radix)
    ensures Value(Zeros(k), radix) == 0
  {
    if k > 0 {
      var z := Zeros(k);
      assert z[..k - 1] == Zeros(k - 1);
      ValueOfZeros(k - 1, radix);
    }
  }

  /** A two-character hexadecimal string is high digit times 16 plus low digit. */
  lemma ValueOfPair(s: string)
    requires |s| == 2
    ensures Value(s, Hexadecimal) == DigitValue(s[0]) * 16 + DigitValue(s[1])
  {
    var h := s[..1];
    assert h[..0] == [];
    assert Value(h, Hexadecimal) == DigitValue(s[0]);
    assert Value(s, Hexadecimal) == Value(h, Hexadecimal) * 16 + DigitValue(s[1]);
  }

  /**
   * A number below `base * base`, zero-filled to width 2, is exactly its two
   * digits: high digit, then low digit.
   */
  lemma PadTwo(n: nat, radix: Radix)
    requires n < radix.Base() * radix.Base()
    ensures ZFill(ToBase(n, radix), 2) == [DigitChar(n / radix.Base()), DigitChar(n % radix.Base())]
  {
    var b := radix.Base();
    if n < b {
      assert n / b == 0 && n % b == n;
      assert Zeros(1) == "0";
    } else if radix.Decimal? {
      assert n / 10 < 10;
      assert ToBase(n / b, radix) == [DigitChar(n / b)];
    } else {
      assert n / 16 < 16;
      assert ToBase(n / b, radix) == [DigitChar(n / b)];
    }
  }

  /** Python's `str(n)` for any integer: a minus sign, then the digits of `|n|`. */
  function IntToString(n: int): string
  {
    if n < 0 then "-" + ToBase(-n, Decimal) else ToBase(n, Decimal)
  }

  predicate IsAsciiDigit(c: char)
  {
    '0' <= c <= '9'
  }

  predicate AllAsciiDigits(s: string)
  {
    forall i :: 0 <= i < |s| ==> IsAsciiDigit(s[i])
  }

  /**
   * Python's `int(t)` on the forms this program meets: an optional `+` or
   * `-`, then one or more ASCII digits. Anything else raises, here `None`.
   */
  function ParseInt(t: string): Option<int>
  {
    if |t| > 0 && (t[0] == '+' || t[0] == '-') then
      if |t| > 1 && AllAsciiDigits(t[1..]) then
        Some(if t[0] == '-' then -(Value(t[1..], Decimal) as int) else Value(t[1..], Decimal))
      else None
    else if |t| > 0 && AllAsciiDigits(t) then Some(Value(t, Decimal))
    else None
  }

  /** `int(str(n)) == n` for every integer. */
  lemma ParseIntToString(n: int)
    ensures ParseInt(IntToString(n)) == Some(n)
  {
    var m := if n < 0 then -n else n;
    ValueOfToBase(m, Decimal);
    ToBaseDigits(m, Decimal);
    var d := ToBase(m, Decimal);
    assert AllAsciiDigits(d) by {
      forall i | 0 <= i < |d| ensures IsAsciiDigit(d[i]) {
        assert IsDigitOf(d[i], Decimal) && IsLowerHexDigit(d[i]);
      }
    }
    if n < 0 {
      assert IntToString(n)[1..] == d;
    }
  }
  /** An ASCII digit is a decimal digit, and `ToBase` in decimal writes only ASCII digits. */
  lemma DecimalDigits(n: nat)
    ensures AllAsciiDigits(ToBase(n, Decimal))
  {
    ToBaseDigits(n, Decimal);
    var d := ToBase(n, Decimal);
    forall i | 0 <= i < |d| ensures IsAsciiDigit(d[i]) {
      assert IsDigitOf(d[i], Decimal) && IsLowerHexDigit(d[i]);
    }
  }

  function Pow10(k: nat): (r: nat)
    ensures r >= 1
  {
    if k == 0 then 1 else 10 * Pow10(k - 1)
  }

  /** `k` decimal digits denote a number below `10^k`. */
  lemma {:induction false} ValueBelowPow10(s: string)
    requires AllAsciiDigits(s)
    ensures Value(s, Decimal) < Pow10(|s|)
    decreases |s|
  {
    if |s| > 0 {
      var p := s[..|s| - 1];
      assert AllAsciiDigits(p) by {
        assert forall i :: 0 <= i < |p| ==> p[i] == s[i];
      }
      ValueBelowPow10(p);
      assert DigitValue(s[|s| - 1]) <= 9;
    }
  }

  /** A number below `10^k` takes at most `k` decimal digits. */
  lemma {:induction false} ToBaseDecimalShort(m: nat, k: nat)
    requires k >= 1 && m < Pow10(k)
    ensures |ToBase(m, Decimal)| <= k
    decreases k
  {
    if m >= 10 && k > 1 {
      assert m / 10 < Pow10(k - 1);
      ToBaseDecimalShort(m / 10, k - 1);
    }
  }

  lemma TenThousand()
    ensures ToBase(10000, Decimal) == "10000"
  {
    assert ToBase(10, Decimal) == "10";
    assert ToBase(100, Decimal) == ToBase(10, Decimal) + "0";
    assert ToBase(1000, Decimal) == ToBase(100, Decimal) + "0";
    assert ToBase(10000, Decimal) == ToBase(1000, Decimal) + "0";
  }

  /** A two-character decimal string is ten times the first digit plus the second. */
  lemma ValueOfDecimalPair(s: string)
    requires |s| == 2
    ensures Value(s, Decimal) == DigitValue(s[0]) * 10 + DigitValue(s[1])
  {
    var h := s[..1];
    assert h[..0] == [];
    assert Value(h, Decimal) == DigitValue(s[0]);
    assert Value(s, Decimal) == Value(h, Decimal) * 10 + DigitValue(s[1]);
  }

  /** Reading an unsigned run of ASCII digits. */
  lemma ParseUnsigned(t: string)
    requires |t| > 0 && AllAsciiDigits(t)
    ensures ParseInt(t) == Some(Value(t, Decimal))
  {
    assert IsAsciiDigit(t[0]);
  }
}
