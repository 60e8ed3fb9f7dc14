/** `_FIXED(val, digits)`: print the scaled integer `val / 10^digits`. */
module Fixed {
  import opened Decimal
  import opened Output

  /** The struct `_FIXED`. */
  datatype Fixed = Fixed(val: int32, digits: int)

  /** `char buf[12]`: eleven characters and the terminating NUL. */
  const BufSize: nat := 12

  /** The text after the sign when digits > 0, with D the digits of n and k
      their number: the digits with a '.' before the last `digits` of them when
      k > digits, "0.." then D when k == digits (the '.' is written twice), and
      "0." then digits - k zeros then D when k < digits. */
  function FixedBody(n: nat, digits: nat): string
  {
    var D := Digits(n);
    var k := |D|;
    if k > digits then D[..k - digits] + "." + D[k - digits..]
    else if k == digits then "0.." + D
    else "0." + Zeros(digits - k) + D
  }

  /** The text `Serial << _FIXED(val, digits)` writes. */
  function FixedText(val: int, digits: int): string
  {
    if digits <= 0 then PlainDecimal(val) else Sign(val) + FixedBody(Abs(val), digits)
  }

  /** The inputs on which the source's code is defined: the magnitude can be
      negated, and the text fits in `buf` beside the terminator. */
  predicate FixedDefined(val: int, digits: int)
  {
    digits <= 0 || (val != LongMin && |FixedText(val, digits)| < BufSize)
  }

  /** The digits written so far by the extraction loop (`w`, most significant
      first) with the '.' in place once `digits` of them have been written. */
  ghost function Placed(w: string, digits: nat): (r: string)
    ensures |r| == |w| + (if |w| >= digits then 1 else 0)
  {
    if |w| >= digits then w[..|w| - digits] + "." + w[|w| - digits..] else w
  }

  lemma PlacedCons(c: char, w: string, digits: nat)
    ensures Placed([c] + w, digits) ==
      if |w| + 1 == digits then "." + ([c] + Placed(w, digits)) else [c] + Placed(w, digits)
  {
    var w' := [c] + w;
    if |w'| > digits {
      var j := |w| - digits;
      var front := w[..j];
      var back := w[j..];
      assert w'[..j + 1] == [c] + front;
      assert w'[j + 1..] == back;
      assert Placed(w, digits) == front + "." + back;
      assert Placed(w', digits) == ([c] + front) + "." + back;
      assert ([c] + front) + "." + back == [c] + (front + "." + back);
    } else if |w'| == digits {
      assert w'[..0] == [];
      assert w'[0..] == w';
      assert Placed(w', digits) == [] + "." + w';
      assert [] + "." + w' == "." + w';
    }
  }

  /** One pass of the extraction loop moves the last digit of m from the
      digits still to come to the front of the digits written. */
  lemma PeelDigit(D: string, m: nat, w: string)
    requires D == Digits(m) + w
    ensures m / 10 != 0 ==> D == Digits(m / 10) + ([DigitChar(m % 10)] + w)
    ensures m / 10 == 0 ==> D == [DigitChar(m % 10)] + w
  {
    if m >= 10 {
      assert Digits(m) + w == (Digits(m / 10) + [DigitChar(m % 10)]) + w;
    }
  }

  lemma PlacedGrows(w: string, D: string, digits: nat)
    requires |w| <= |D|
    ensures |Placed(w, digits)| <= |Placed(D, digits)|
  {
  }

  /** `*--str = c`: move `str` back one place and write c there. */
  method PutBefore(buf: array<char>, str: nat, end: nat, c: char) returns (str': nat)
    requires 0 < str <= end <= buf.Length
    modifies buf
    ensures str' == str - 1
    ensures buf[str'..end] == [c] + old(buf[str..end])
    ensures buf[end..] == old(buf[end..])
    ensures buf[..str'] == old(buf[..str'])
  {
    str' := str - 1;
    buf[str'] := c;
  }

  /** The do/while loop of the `else` branch: the digits of n are taken least
      significant first (`m - 10 * (m / 10)`) and written backwards through
      `str` into `buf`, ending just before `buf[end]`, with a '.' once
      `digits` of them are written. `i` counts down from `digits` once per digit. */
  method ExtractDigits(buf: array<char>, end: nat, n: nat, digits: nat) returns (str: nat, i: int)
    requires digits > 0
    requires end < buf.Length
    requires |Placed(Digits(n), digits)| <= end
    modifies buf
    ensures str + |Placed(Digits(n), digits)| == end
    ensures buf[str..end] == Placed(Digits(n), digits)
    ensures i == digits - NumDigits(n)
    ensures buf[end..] == old(buf[end..])
    ensures buf[..str] == old(buf[..str])
  {
    ghost var init := buf[..];
    ghost var D := Digits(n);
    ghost var w: string := [];
    ghost var out: string := [];
    var rest := n;
    var more := true;
    str := end;
    i := digits;
    while more
      invariant more ==> D == Digits(rest) + w
      invariant !more ==> D == w
      invariant i == digits - |w|
      invariant out == Placed(w, digits)
      invariant str + |out| == end
      invariant buf[str..end] == out
      invariant buf[end..] == old(buf[end..])
      invariant buf[..str] == init[..str]
      decreases if more then rest + 1 else 0
    {
      var m := rest;
      rest := rest / 10;
      var c := m - 10 * rest;
      ExtractStep(D, m, w, digits);
      var d := DigitChar(c);
      ghost var before := buf[..];
      ghost var str0 := str;
      str := PutBefore(buf, str, end, d);
      i := i - 1;
      if i == 0 {
        ghost var middle := buf[..];
        ghost var str1 := str;
        str := PutBefore(buf, str, end, '.');
        PrefixKept(buf[..], middle, before, str, str1);
      }
      PrefixKept(buf[..], before, init, str, str0);
      w := [d] + w;
      out := Placed(w, digits);
      more := rest != 0;
    }
  }

  /** Cells kept from b to a below p, and from c to b below q >= p, are kept
      from c to a below p. */
  lemma PrefixKept(a: seq<char>, b: seq<char>, c: seq<char>, p: nat, q: nat)
    requires p <= q <= |b| && q <= |c| && p <= |a|
    requires a[..p] == b[..p] && b[..q] == c[..q]
    ensures a[..p] == c[..p]
  {
    assert b[..p] == b[..q][..p];
    assert c[..p] == c[..q][..p];
  }

  /** One pass of the do/while loop: the last digit of m moves from the digits
      still to come to the front of those written, and the text written so far
      grows by that digit, with a '.' in front of it when it is the
      `digits`-th. */
  lemma ExtractStep(D: string, m: nat, w: string, digits: nat)
    requires D == Digits(m) + w
    ensures m - 10 * (m / 10) == m % 10
    ensures var c := DigitChar(m % 10);
      var p := Placed(w, digits);
      (m / 10 != 0 ==> D == Digits(m / 10) + ([c] + w)) &&
      (m / 10 == 0 ==> D == [c] + w) &&
      |Placed([c] + w, digits)| <= |Placed(D, digits)| &&
      Placed([c] + w, digits) == if |w| + 1 == digits then "." + ([c] + p) else [c] + p
  {
    var c := DigitChar(m % 10);
    assert m - 10 * (m / 10) == m % 10;
    PeelDigit(D, m, w);
    PlacedCons(c, w, digits);
    PlacedGrows([c] + w, D, digits);
  }

  /** The while loop of the `else` branch: `i + 1` more characters in front of
      what is already in `buf[str..end]`, namely `i` zeros below a "0." (nothing
      when i < 0). */
  method PadFraction(buf: array<char>, str0: nat, end: nat, i0: int) returns (str: nat)
    requires str0 <= end < buf.Length
    requires i0 >= 0 ==> i0 + 2 <= str0
    modifies buf
    ensures str + |Padding(i0)| == str0
    ensures buf[str..end] == Padding(i0) + old(buf[str0..end])
    ensures buf[end..] == old(buf[end..])
    ensures buf[..str] == old(buf[..str])
  {
    ghost var init := buf[..];
    ghost var base := buf[str0..end];
    ghost var pre: string := [];
    str := str0;
    var i := i0;
    while i >= 0
      invariant i0 >= 0 ==> -1 <= i <= i0
      invariant i0 < 0 ==> i == i0
      invariant pre == if i >= 0 then Zeros(i0 - i) else Padding(i0)
      invariant str + |pre| == str0
      invariant buf[str..end] == pre + base
      invariant buf[end..] == old(buf[end..])
      invariant buf[..str] == init[..str]
      decreases i + 1
    {
      ghost var before := buf[..];
      ghost var str1 := str;
      if i == 0 {
        str := PutPoint(buf, str, end);
        assert "0." + (pre + base) == ("0." + pre) + base;
        pre := "0." + pre;
      } else {
        str := PutBefore(buf, str, end, '0');
        assert buf[str..end] == "0" + (pre + base);
        assert "0" + (pre + base) == ("0" + pre) + base;
        assert Zeros(i0 - (i - 1)) == "0" + Zeros(i0 - i);
        pre := "0" + pre;
      }
      PrefixKept(buf[..], before, init, str, str1);
      i := i - 1;
    }
  }

  /** `*--str='.'; *--str='0';`: the "0." in front of the fraction. */
  method PutPoint(buf: array<char>, str: nat, end: nat) returns (str': nat)
    requires 2 <= str <= end <= buf.Length
    modifies buf
    ensures str' == str - 2
    ensures buf[str'..end] == "0." + old(buf[str..end])
    ensures buf[end..] == old(buf[end..])
    ensures buf[..str'] == old(buf[..str'])
  {
    str' := PutBefore(buf, str, end, '.');
    str' := PutBefore(buf, str', end, '0');
  }

  /** What the padding loop puts in front of the digits: "0." and `i` zeros
      when i >= 0, nothing otherwise. */
  function Padding(i: int): string
  {
    if i >= 0 then "0." + Zeros(i) else ""
  }

  /** The `else` branch of `operator<<(Print&, const _FIXED&)`: `buf[11]` takes
      the terminator, the digits, the '.' and the zero padding are written in
      front of it from right to left, then the sign; the text printed is what
      lies between `str` and the terminator. Every write stays inside
      `buf`. */
  method RenderFraction(val: int32, digits: int) returns (text: string)
    requires digits > 0
    requires FixedDefined(val as int, digits)
    ensures text == FixedText(val as int, digits)
  {
    var buf := new char[BufSize];
    var str: nat := BufSize - 1;
    var n: nat;
    if val < 0 {
      var m: int32 := -val;
      n := m as int;
    } else {
      n := val as int;
    }
    buf[str] := '\0';
    ghost var body := FixedBody(n, digits);
    assert FixedText(val as int, digits) == Sign(val as int) + body;
    str := FillBody(buf, n, digits, |Sign(val as int)|);
    if val < 0 {
      str := PutBefore(buf, str, BufSize - 1, '-');
    } else {
      assert Sign(val as int) + body == body;
    }
    text := buf[str..BufSize - 1];
  }

  /** The do/while loop and the padding loop together: FixedBody, written so
      that it ends just before `buf[11]` and leaves `room` places in front. */
  method FillBody(buf: array<char>, n: nat, digits: nat, room: nat) returns (str: nat)
    requires buf.Length == BufSize && digits > 0
    requires room + |FixedBody(n, digits)| < BufSize
    modifies buf
    ensures str == BufSize - 1 - |FixedBody(n, digits)| && str >= room
    ensures buf[str..BufSize - 1] == FixedBody(n, digits)
  {
    ghost var placed := Placed(Digits(n), digits);
    AssembledBody(n, digits);
    var i;
    str, i := ExtractDigits(buf, BufSize - 1, n, digits);
    str := PadFraction(buf, str, BufSize - 1, i);
  }

  /** The three phases of the `else` branch put together give FixedBody. */
  lemma AssembledBody(n: nat, digits: nat)
    requires digits > 0
    ensures Padding(digits - NumDigits(n)) + Placed(Digits(n), digits) == FixedBody(n, digits)
  {
    var D := Digits(n);
    var k := |D|;
    if k == digits {
      assert D[..0] == [] && D[0..] == D;
      assert Placed(D, digits) == "." + D;
    }
  }

  /** `operator<<(Print&, const _FIXED&)`: digits <= 0 goes to
      Print::print(long), any other count through the buffer. */
  method WriteFixed(sink: Sink, arg: Fixed)
    requires FixedDefined(arg.val as int, arg.digits)
    modifies sink
    ensures sink.text == old(sink.text) + FixedText(arg.val as int, arg.digits)
  {
    if arg.digits <= 0 {
      sink.PrintLong(arg.val);
    } else {
      var s := RenderFraction(arg.val, arg.digits);
      sink.Print(s);
    }
  }

  // Properties of the text

  /** The part of FixedBody in front of its last '.'. */
  function IntegerPart(n: nat, digits: nat): string
  {
    var D := Digits(n);
    var k := |D|;
    if k > digits then D[..k - digits] else if k == digits then "0." else "0"
  }

  /** The part of FixedBody after its last '.'. */
  function FractionPart(n: nat, digits: nat): string
  {
    var D := Digits(n);
    var k := |D|;
    if k > digits then D[k - digits..] else if k == digits then D else Zeros(digits - k) + D
  }

  lemma BodySplit(n: nat, digits: nat)
    requires digits > 0
    ensures FixedBody(n, digits) == IntegerPart(n, digits) + "." + FractionPart(n, digits)
    ensures |FractionPart(n, digits)| == digits
  {
    var D := Digits(n);
    var k := |D|;
    if k == digits {
      assert "0.." + D == "0." + "." + D;
    } else if k < digits {
      assert "0." + Zeros(digits - k) + D == "0" + "." + (Zeros(digits - k) + D);
    }
  }

  /** With digits <= 0 the text is Print::print(long)'s, with no '.'. */
  lemma FixedWithoutFraction(val: int, digits: int)
    requires digits <= 0
    ensures FixedText(val, digits) == PlainDecimal(val)
    ensures '.' !in FixedText(val, digits)
  {
    DigitsHaveNoMarks(Abs(val));
  }

  predicate NumeralChars(s: string) { forall j :: 0 <= j < |s| ==> IsDigit(s[j]) || s[j] == '.' }

  lemma BodyChars(n: nat, digits: nat)
    requires digits > 0
    ensures var b := FixedBody(n, digits); |b| > 0 && IsDigit(b[0]) && NumeralChars(b)
  {
    DigitsWellFormed(n);
    BodySplit(n, digits);
    var i := IntegerPart(n, digits);
    var f := FractionPart(n, digits);
    assert NumeralChars(i) && |i| > 0 && IsDigit(i[0]);
    assert NumeralChars(f);
  }

  /** The text starts with '-' exactly when val is negative, and has no other '-'. */
  lemma FixedSign(val: int, digits: int)
    ensures var t := FixedText(val, digits);
      |t| > 0 && (t[0] == '-' <==> val < 0) && forall j :: 0 < j < |t| ==> t[j] != '-'
  {
    var t := FixedText(val, digits);
    var rest := if digits <= 0 then Digits(Abs(val)) else FixedBody(Abs(val), digits);
    if digits <= 0 {
      DigitsWellFormed(Abs(val));
    } else {
      BodyChars(Abs(val), digits);
    }
    assert NumeralChars(rest) && IsDigit(rest[0]);
    assert t == Sign(val) + rest;
  }

  /** With digits > 0, dropping the sign and the '.'s leaves the digits of
      |val| left-padded with '0' to at least digits + 1 characters. */
  lemma FixedDigitsPadded(val: int, digits: int)
    requires digits > 0
    ensures var k := NumDigits(Abs(val));
      Strip(FixedText(val, digits)) == Zeros(if digits + 1 > k then digits + 1 - k else 0) + Digits(Abs(val))
  {
    var n := Abs(val);
    var k := NumDigits(n);
    var i := IntegerPart(n, digits);
    var f := FractionPart(n, digits);
    assert FixedText(val, digits) == Sign(val) + i + "." + f by {
      BodySplit(n, digits);
      assert Sign(val) + (i + "." + f) == Sign(val) + i + "." + f;
    }
    StripAroundPoint(Sign(val), i, f);
    if k > digits {
      StripWide(n, digits);
      assert Zeros(0) + Digits(n) == Digits(n);
    } else if k == digits {
      StripExact(n, digits);
    } else {
      StripNarrow(n, digits);
    }
  }

  lemma StripAroundPoint(sign: string, i: string, f: string)
    requires sign == "" || sign == "-"
    ensures Strip(sign + i + "." + f) == Strip(i) + Strip(f)
  {
    StripAppend(sign + i + ".", f);
    StripAppend(sign + i, ".");
    StripAppend(sign, i);
    assert Strip(sign) == [] && Strip(".") == [];
  }

  lemma StripWide(n: nat, digits: nat)
    requires 0 < digits < NumDigits(n)
    ensures Strip(IntegerPart(n, digits)) + Strip(FractionPart(n, digits)) == Digits(n)
  {
    var D := Digits(n);
    var j := |D| - digits;
    assert IntegerPart(n, digits) == D[..j];
    assert FractionPart(n, digits) == D[j..];
    DigitsAreDigits(n);
    StripSplit(D, j);
  }

  lemma StripExact(n: nat, digits: nat)
    requires 0 < digits == NumDigits(n)
    ensures Strip(IntegerPart(n, digits)) + Strip(FractionPart(n, digits)) == Zeros(1) + Digits(n)
  {
    DigitsWellFormed(n);
    StripDigits(Digits(n));
    assert Strip("0.") == "0";
    assert Zeros(1) == "0";
  }

  lemma StripNarrow(n: nat, digits: nat)
    requires NumDigits(n) < digits
    ensures Strip(IntegerPart(n, digits)) + Strip(FractionPart(n, digits)) == Zeros(digits + 1 - NumDigits(n)) + Digits(n)
  {
    var D := Digits(n);
    var m := digits - |D|;
    assert IntegerPart(n, digits) == "0";
    assert FractionPart(n, digits) == Zeros(m) + D;
    DigitsAreDigits(n);
    StripPadded(m, D);
  }

  /** With digits > 0 the text reads back as val / 10^digits: exactly `digits`
      characters follow the last '.', and the characters other than the sign
      and the '.'s spell |val|. */
  lemma FixedDenotes(val: int, digits: int)
    requires digits > 0
    ensures var t := FixedText(val, digits);
      |t| > digits && t[|t| - digits - 1] == '.' && '.' !in t[|t| - digits..] &&
      ValueOf(Strip(t)) == Abs(val)
  {
    var n := Abs(val);
    var k := NumDigits(n);
    var f := FractionPart(n, digits);
    var front := Sign(val) + IntegerPart(n, digits);
    var t := FixedText(val, digits);
    BodySplit(n, digits);
    FractionHasNoPoint(n, digits);
    assert t == front + "." + f;
    Pieces(front, ".", f);
    assert t[|t| - digits..] == f;
    FixedDigitsPadded(val, digits);
    DigitsWellFormed(n);
    ValueOfZerosPrefix(if digits + 1 > k then digits + 1 - k else 0, Digits(n));
  }

  lemma FractionHasNoPoint(n: nat, digits: nat)
    ensures '.' !in FractionPart(n, digits)
  {
    var D := Digits(n);
    var k := |D|;
    DigitsHaveNoMarks(n);
    if k > digits {
      assert forall c :: c in D[k - digits..] ==> c in D;
    } else if k < digits {
      var z := Zeros(digits - k);
      assert '.' !in z;
      assert FractionPart(n, digits) == z + D;
    }
  }

  /** The layout the text takes, by the number k of digits of |val|: one '.'
      when k > digits; "0." and one '.' when k < digits; "0.." and two '.'s
      when k == digits. Its length is the sign, max(k, digits + 1) digits and
      the '.'s, which is what has to fit in `buf` beside the terminator. */
  lemma FixedLayout(val: int, digits: int)
    requires digits > 0
    ensures var t := FixedText(val, digits);
      var k := NumDigits(Abs(val));
      var p := |Sign(val)|;
      var dots := Count(t, '.');
      |t| == p + (if k > digits then k else digits + 1) + dots &&
      (k > digits ==> dots == 1) &&
      (k < digits ==> dots == 1 && t[p..p + 2] == "0.") &&
      (k == digits ==> dots == 2 && t[p..p + 3] == "0..")
  {
    var n := Abs(val);
    var k := NumDigits(n);
    BodySplit(n, digits);
    PointCount(val, digits);
    if k > digits {
      LayoutWide(n, digits);
    } else if k == digits {
      LayoutExact(val, digits);
    } else {
      LayoutNarrow(val, digits);
    }
  }

  lemma LayoutWide(n: nat, digits: nat)
    requires digits < NumDigits(n)
    ensures |IntegerPart(n, digits)| == NumDigits(n) - digits
    ensures Count(IntegerPart(n, digits), '.') == 0
  {
    var D := Digits(n);
    DigitsHaveNoMarks(n);
    assert forall c :: c in D[..|D| - digits] ==> c in D;
    CountAbsent(IntegerPart(n, digits), '.');
  }

  lemma LayoutExact(val: int, digits: int)
    requires 0 < digits == NumDigits(Abs(val))
    ensures IntegerPart(Abs(val), digits) == "0."
    ensures Count("0.", '.') == 1
    ensures FixedText(val, digits)[|Sign(val)|..|Sign(val)| + 3] == "0.."
  {
    var f := FractionPart(Abs(val), digits);
    assert FixedText(val, digits) == Sign(val) + "0.." + f;
    Pieces(Sign(val), "0..", f);
    assert "0."[1..] == ".";
  }

  lemma LayoutNarrow(val: int, digits: int)
    requires NumDigits(Abs(val)) < digits
    ensures IntegerPart(Abs(val), digits) == "0"
    ensures Count("0", '.') == 0
    ensures FixedText(val, digits)[|Sign(val)|..|Sign(val)| + 2] == "0."
  {
    var f := FractionPart(Abs(val), digits);
    assert FixedText(val, digits) == Sign(val) + "0." + f by {
      assert "0." + f == "0." + Zeros(digits - NumDigits(Abs(val))) + Digits(Abs(val));
    }
    Pieces(Sign(val), "0.", f);
  }

  /** The text has one '.' more than the part in front of its last '.'. */
  lemma PointCount(val: int, digits: int)
    requires digits > 0
    ensures Count(FixedText(val, digits), '.') == Count(IntegerPart(Abs(val), digits), '.') + 1
  {
    var n := Abs(val);
    var sg := Sign(val);
    var i := IntegerPart(n, digits);
    var f := FractionPart(n, digits);
    assert FixedText(val, digits) == sg + i + "." + f by {
      BodySplit(n, digits);
      assert sg + (i + "." + f) == sg + i + "." + f;
    }
    FractionHasNoPoint(n, digits);
    CountAbsent(f, '.');
    CountAppend(sg + i + ".", f, '.');
    CountAppend(sg + i, ".", '.');
    CountAppend(sg, i, '.');
    assert Count(sg, '.') == 0 && Count(".", '.') == 1;
  }

  /** The values the header comment and the worked examples give. */
  lemma ExampleFourDigits()
    ensures FixedText(1234, 2) == "12.34"
  {
    assert Digits(1234) == "1234";
  }

  lemma ExampleNegative()
    ensures FixedText(-1234, 2) == "-12.34"
  {
    assert Digits(1234) == "1234";
  }

  lemma ExamplePadded()
    ensures FixedText(5, 3) == "0.005"
  {
    assert Digits(5) == "5";
    assert Zeros(2) == "00";
  }

  lemma ExampleWhole()
    ensures FixedText(0, 0) == "0"
  {
  }

  lemma ExampleDoublePoint()
    ensures FixedText(12, 2) == "0..12"
  {
    assert Digits(12) == "12";
  }

  /** `buf` is too small for some 32-bit values: with two decimals the most
      negative magnitude needs 12 characters besides the terminator. */
  lemma FixedOverrunExample()
    ensures |FixedText(-2147483647, 2)| == 12
    ensures !FixedDefined(-2147483647, 2)
  {
    FixedLayout(-2147483647, 2);
    assert NumDigits(2147483647) == 10 by {
      NumDigitsBound(2147483647, 10);
      NumDigitsBound(2147483647, 9);
      assert Pow10(9) == 1_000_000_000;
    }
  }
}
