/** Integer widths, decimal digits and the small string vocabulary shared by the
    fixed-point formatters of Streaming.h. */
module Decimal {

  /** The 32-bit `long` and `int32_t` of the Arduino toolchain. */
  newtype int32 = x: int | -0x8000_0000 <= x < 0x8000_0000

  /** `uint8_t`. */
  newtype uint8 = x: int | 0 <= x < 0x100

  const LongMin: int := -0x8000_0000
  const LongMax: int := 0x7FFF_FFFF

  /** A scaled integer: the rational number `val / 10^digits`. */
  datatype ScaledValue = ScaledValue(val: int, digits: nat)

  function Abs(x: int): nat { if x < 0 then -x else x }

  function Pow10(e: nat): (r: nat)
    ensures r >= 1
  {
    if e == 0 then 1 else 10 * Pow10(e - 1)
  }

  lemma {:induction false} Pow10Monotone(e: nat, f: nat)
    requires e <= f
    ensures Pow10(e) <= Pow10(f)
  {
    if e < f { Pow10Monotone(e, f - 1); }
  }

  /** Every power of ten up to 10^9 fits in a 32-bit `long`. */
  lemma Pow10Fits(e: nat)
    requires e <= 9
    ensures Pow10(e) <= 1_000_000_000 < LongMax
  {
    Pow10Monotone(e, 9);
    assert Pow10(9) == 1_000_000_000;
  }

  /** C's `/` on a signed dividend and a positive divisor: the quotient is
      truncated toward zero, where Dafny's own `/` is Euclidean. */
  function TruncDiv(a: int, b: int): (q: int)
    requires b > 0
    ensures Abs(q) == Abs(a) / b
    ensures q != 0 ==> (q < 0 <==> a < 0)
  {
    if a >= 0 then a / b else -((-a) / b)
  }

  /** Arduino's `abs` on a `long`: `x > 0 ? x : -x`, computed in 32 bits, so
      it is undefined for LONG_MIN. */
  function AbsLong(x: int32): (r: int32)
    requires x as int != LongMin
    ensures r as int == Abs(x as int)
  {
    if x > 0 then x else -x
  }

  predicate IsDigit(c: char) { '0' <= c <= '9' }

  predicate AllDigits(s: string) { forall i :: 0 <= i < |s| ==> IsDigit(s[i]) }

  /** The value of a decimal digit character; 0 for anything else. */
  function CharValue(c: char): nat { if IsDigit(c) then c as int - '0' as int else 0 }

  /** `c + '0'` for a digit value c. */
  function DigitChar(x: nat): (c: char)
    requires x < 10
    ensures IsDigit(c) && CharValue(c) == x
  {
    ('0' as int + x) as char
  }

  /** The decimal digits of n, most significant first, without leading zeros;
      0 is written "0". */
  function Digits(n: nat): (s: string)
    ensures |s| >= 1
  {
    if n < 10 then [DigitChar(n)] else Digits(n / 10) + [DigitChar(n % 10)]
  }

  /** How many decimal digits n has (0 counts as one digit). */
  function NumDigits(n: nat): nat { |Digits(n)| }

  /** The value a string of decimal digits denotes. */
  function ValueOf(s: string): nat
  {
    if s == [] then 0 else 10 * ValueOf(s[..|s| - 1]) + CharValue(s[|s| - 1])
  }

  function Sign(v: int): string { if v < 0 then "-" else "" }

  /** What Print::print(long) writes: '-' for a negative value, then the digits
      of its magnitude. */
  function PlainDecimal(v: int): string { Sign(v) + Digits(Abs(v)) }

  function Zeros(m: nat): (s: string)
    ensures |s| == m && forall i :: 0 <= i < m ==> s[i] == '0'
  {
    seq(m, _ => '0')
  }

  /** The characters of a rendered number other than its sign and decimal points. */
  function Strip(s: string): string
  {
    if s == [] then [] else (if s[0] == '-' || s[0] == '.' then [] else [s[0]]) + Strip(s[1..])
  }

  /** Digits(n) is a well-formed numeral for n: only digit characters, no leading
      zero, and reading it back gives n. */
  lemma {:induction false} DigitsWellFormed(n: nat)
    ensures AllDigits(Digits(n))
    ensures n > 0 ==> Digits(n)[0] != '0'
    ensures ValueOf(Digits(n)) == n
  {
    if n >= 10 {
      DigitsWellFormed(n / 10);
      var p := Digits(n / 10);
      assert (p + [DigitChar(n % 10)])[..|p|] == p;
    }
  }

  lemma DigitsAreDigits(n: nat)
    ensures AllDigits(Digits(n))
  {
    DigitsWellFormed(n);
  }

  lemma DigitsHaveNoMarks(n: nat)
    ensures '.' !in Digits(n) && '-' !in Digits(n) && '\0' !in Digits(n)
  {
    DigitsWellFormed(n);
  }

  /** n lies below 10^e exactly when it has at most e digits (the one exception,
      0 against 10^0, is excluded). */
  lemma {:induction false} NumDigitsBound(n: nat, e: nat)
    requires n > 0 || e > 0
    ensures n < Pow10(e) <==> NumDigits(n) <= e
  {
    if n >= 10 && e > 0 {
      NumDigitsBound(n / 10, e - 1);
    }
  }

  /** A 32-bit magnitude has at most ten digits. */
  lemma LongDigits(n: nat)
    requires n <= LongMax
    ensures NumDigits(n) <= 10
  {
    NumDigitsBound(n, 10);
  }

  /** Leading zeros do not change the value of a numeral. */
  lemma {:induction false} ValueOfZerosPrefix(m: nat, s: string)
    ensures ValueOf(Zeros(m) + s) == ValueOf(s)
    decreases |s|, m
  {
    if s == [] {
      assert Zeros(m) + s == Zeros(m);
      if m > 0 {
        assert Zeros(m)[..m - 1] == Zeros(m - 1);
        ValueOfZerosPrefix(m - 1, []);
        assert Zeros(m - 1) + [] == Zeros(m - 1);
      }
    } else {
      var t := Zeros(m) + s;
      assert t[..|t| - 1] == Zeros(m) + s[..|s| - 1];
      ValueOfZerosPrefix(m, s[..|s| - 1]);
    }
  }

  lemma {:induction false} StripAppend(a: string, b: string)
    ensures Strip(a + b) == Strip(a) + Strip(b)
  {
    if a == [] {
      assert a + b == b;
    } else {
      assert (a + b)[0] == a[0];
      assert (a + b)[1..] == a[1..] + b;
      StripAppend(a[1..], b);
    }
  }

  /** Strip keeps a string of digits as it is. */
  lemma {:induction false} StripDigits(s: string)
    requires AllDigits(s)
    ensures Strip(s) == s
  {
    if s != [] { StripDigits(s[1..]); }
  }

  /** Cutting a string of digits in two and stripping both halves gives it back. */
  lemma StripSplit(D: string, j: nat)
    requires AllDigits(D) && j <= |D|
    ensures Strip(D[..j]) + Strip(D[j..]) == D
  {
    var a := D[..j];
    var b := D[j..];
    assert AllDigits(a) by {
      forall i | 0 <= i < |a| ensures IsDigit(a[i]) { assert a[i] == D[i]; }
    }
    assert AllDigits(b) by {
      forall i | 0 <= i < |b| ensures IsDigit(b[i]) { assert b[i] == D[j + i]; }
    }
    StripDigits(a);
    StripDigits(b);
    assert a + b == D;
  }

  lemma ZerosSnoc(m: nat)
    ensures Zeros(m) + "0" == Zeros(m + 1)
  {
  }

  lemma ZerosCons(m: nat)
    ensures "0" + Zeros(m) == Zeros(m + 1)
  {
  }

  /** Zeros in front of a string of digits survive Strip. */
  lemma StripZerosDigits(m: nat, D: string)
    requires AllDigits(D)
    ensures Strip(Zeros(m) + D) == Zeros(m) + D
  {
    var zs := Zeros(m);
    StripAppend(zs, D);
    assert AllDigits(zs);
    StripDigits(zs);
    StripDigits(D);
  }

  /** A '0', then m more zeros and a string of digits, loses nothing to Strip. */
  lemma StripPadded(m: nat, D: string)
    requires AllDigits(D)
    ensures Strip("0") + Strip(Zeros(m) + D) == Zeros(m + 1) + D
  {
    StripZerosDigits(m, D);
    ZerosCons(m);
    assert Strip("0") == "0";
    assert "0" + (Zeros(m) + D) == ("0" + Zeros(m)) + D;
  }

  lemma Regroup(a: string, b: string, c: string, d: string)
    ensures a + b + c + d == a + (b + c + d)
  {
  }

  /** How many times c occurs in s. */
  function Count(s: string, c: char): nat
  {
    if s == [] then 0 else (if s[0] == c then 1 else 0) + Count(s[1..], c)
  }

  lemma {:induction false} CountAppend(a: string, b: string, c: char)
    ensures Count(a + b, c) == Count(a, c) + Count(b, c)
  {
    if a == [] {
      assert a + b == b;
    } else {
      assert (a + b)[0] == a[0];
      assert (a + b)[1..] == a[1..] + b;
      CountAppend(a[1..], b, c);
    }
  }

  lemma {:induction false} CountAbsent(s: string, c: char)
    requires c !in s
    ensures Count(s, c) == 0
  {
    if s != [] {
      assert s[0] != c;
      assert forall x :: x in s[1..] ==> x in s;
      CountAbsent(s[1..], c);
    }
  }

  /** The middle piece of a + b + c sits at |a|, and c is the tail after it. */
  lemma Pieces(a: string, b: string, c: string)
    ensures (a + b + c)[|a|..|a| + |b|] == b
    ensures (a + b + c)[|a| + |b|..] == c
  {
  }
}
