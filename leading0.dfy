/** `_LEADING0(v, d, s)`: the scaled integer `v / 10^d` printed in at least `s`
    positions (not counting '.'), padded with leading zeros after the sign. */
module Leading0 {
  import opened Decimal
  import opened Output
  import opened Fixed

  /** The struct `_LEADING0`. */
  datatype Leading0 = Leading0(val: int32, digits: int, size: nat)

  /** The constructor: `digits` is kept when 0 <= d < s and becomes 0 otherwise
      (`d >= s` compares after the `d < 0` test, so the conversion of d to
      `size_t` is exact). */
  function NewLeading0(v: int32, d: int, s: nat): (r: Leading0)
    ensures 0 <= r.digits && (r.digits == 0 || r.digits < r.size)
    ensures r.val == v && r.size == s
    ensures 0 <= d < s ==> r.digits == d
    ensures d < 0 || d >= s ==> r.digits == 0
  {
    Leading0(v, if d < 0 || d >= s then 0 else d, s)
  }

  /** The decimals `_FIXED` will print (none when digits <= 0). */
  function Decimals(arg: Leading0): nat
  {
    if arg.digits < 0 then 0 else arg.digits
  }

  /** The number of digit positions `_FIXED(|val|, digits)` fills: the digits
      of |val|, or digits + 1 when they are fewer (a leading "0" before the
      '.'). Without decimals this is just the digits of |val|. */
  function Width(arg: Leading0): nat
  {
    var k := NumDigits(Abs(arg.val as int));
    if k > Decimals(arg) + 1 then k else Decimals(arg) + 1
  }

  /** The number of '0's written between the sign and the number:
      size - [val < 0] - Width, or none when that is not positive. */
  function PadCount(arg: Leading0): nat
  {
    var room := arg.size - |Sign(arg.val as int)|;
    if room > Width(arg) then room - Width(arg) else 0
  }

  /** The text `Serial << arg` writes. */
  function Leading0Text(arg: Leading0): string
  {
    Sign(arg.val as int) + Zeros(PadCount(arg)) + FixedText(Abs(arg.val as int), arg.digits)
  }

  /** The exponent of the threshold `b` once the position count has passed
      the decimals and, for a value below 1, the "0" before the '.'. */
  function StartExponent(arg: Leading0): nat
  {
    Decimals(arg) + (if Abs(arg.val as int) < Pow10(Decimals(arg)) then 1 else 0)
  }

  /** The inputs on which the source's code is defined: |val| exists in an
      `int32_t` and no power of ten that `b` takes exceeds it. */
  predicate Leading0Defined(arg: Leading0)
  {
    arg.val as int != LongMin && StartExponent(arg) <= 9 &&
    arg.size - |Sign(arg.val as int)| <= 9
  }

  /** Zeros written once the threshold has reached 10^e, for e at least
      StartExponent. */
  function Emitted(arg: Leading0, e: int): nat
  {
    if e > Width(arg) then e - Width(arg) else 0
  }

  /** The threshold starts past exactly the positions `_FIXED` fills. */
  lemma StartWidth(arg: Leading0)
    ensures var k := NumDigits(Abs(arg.val as int));
      (if k > StartExponent(arg) then k else StartExponent(arg)) == Width(arg)
  {
    var v := Abs(arg.val as int);
    var dd := Decimals(arg);
    if v > 0 || dd > 0 {
      NumDigitsBound(v, dd);
    }
  }

  /** The threshold 10^e against |val| tells whether position e is still
      before the first digit of |val|. */
  lemma PadStep(arg: Leading0, e: nat)
    requires e >= StartExponent(arg)
    ensures Abs(arg.val as int) < Pow10(e) ==> Emitted(arg, e + 1) == Emitted(arg, e) + 1
    ensures Abs(arg.val as int) >= Pow10(e) ==> Emitted(arg, e + 1) == Emitted(arg, e)
  {
    var v := Abs(arg.val as int);
    if v == 0 {
      assert e >= 1;
    }
    NumDigitsBound(v, e);
    StartWidth(arg);
  }

  /** Under Leading0Defined the `_FIXED` call at the end is defined too. */
  lemma Leading0FixedFits(arg: Leading0)
    requires Leading0Defined(arg)
    ensures FixedDefined(Abs(arg.val as int), arg.digits)
  {
    var v := Abs(arg.val as int);
    var d := arg.digits;
    if d > 0 {
      LongDigits(v);
      FixedLayout(v, d);
      NumDigitsBound(v, d);
    }
  }

  /** `operator<<` for `_LEADING0`: b runs through the powers of ten while s
      counts positions; a '0' is written for each position not yet reached by
      the digits of |val|. */
  method WriteLeading0(sink: Sink, arg: Leading0)
    requires Leading0Defined(arg)
    modifies sink
    ensures sink.text == old(sink.text) + Leading0Text(arg)
  {
    ghost var neg := |Sign(arg.val as int)|;
    ghost var dd := Decimals(arg);
    ghost var e0 := StartExponent(arg);
    Pow10Fits(e0);
    var v: int32;
    var b: int32 := 1;
    var s: uint8 := 0;
    while (s as int) < arg.digits
      invariant s as int <= dd
      invariant b as int == Pow10(s as nat)
      invariant sink.text == old(sink.text)
      decreases dd - s as int
    {
      Pow10Monotone(s as nat + 1, e0);
      b := b * 10;
      s := s + 1;
    }
    assert s as int == dd;
    v := arg.val;
    if v < 0 {
      v := -v;
      s := s + 1;
      sink.Print("-");
    }
    assert v as int == Abs(arg.val as int);
    assert s as int == dd + neg;
    ghost var signed := sink.text;
    assert signed == old(sink.text) + Sign(arg.val as int) by {
      if arg.val >= 0 {
        assert old(sink.text) + [] == old(sink.text);
      }
    }
    if v < b {
      Pow10Monotone(dd + 1, e0);
      s := s + 1;
      b := b * 10;
    }
    PadZeros(sink, arg, v, b, s);
    ghost var pad := Zeros(PadCount(arg));
    ghost var tail := FixedText(v as int, arg.digits);
    assert sink.text == signed + pad;
    Leading0FixedFits(arg);
    if arg.digits <= 0 {
      sink.PrintLong(v);
    } else {
      WriteFixed(sink, Fixed(v, arg.digits));
    }
    assert sink.text == old(sink.text) + Sign(arg.val as int) + pad + tail;
    Regroup(old(sink.text), Sign(arg.val as int), pad, tail);
  }

  /** The second loop of `operator<<`: from the position past the decimals
      and the sign on, a '0' for each position below `size` that 10^e shows
      to be still in front of |val|. */
  method PadZeros(sink: Sink, arg: Leading0, v: int32, b0: int32, s0: uint8)
    requires Leading0Defined(arg)
    requires v as int == Abs(arg.val as int)
    requires s0 as int - |Sign(arg.val as int)| == StartExponent(arg)
    requires b0 as int == Pow10(StartExponent(arg))
    modifies sink
    ensures sink.text == old(sink.text) + Zeros(PadCount(arg))
  {
    ghost var neg := |Sign(arg.val as int)|;
    ghost var e0 := StartExponent(arg);
    ghost var top := if e0 > arg.size - neg then e0 else arg.size - neg;
    ghost var e: nat := e0;
    ghost var count := 0;
    var s := s0;
    var b := b0;
    assert old(sink.text) + Zeros(0) == old(sink.text);
    while (s as nat) < arg.size
      invariant e == s as int - neg && e0 <= e <= top
      invariant b as int == Pow10(e)
      invariant count == Emitted(arg, e)
      invariant sink.text == old(sink.text) + Zeros(count)
      decreases arg.size - s as int
    {
      PadStep(arg, e);
      Pow10Fits(e + 1);
      if v < b {
        sink.Print("0");
        ZerosSnoc(count);
        assert old(sink.text) + Zeros(count) + "0" == old(sink.text) + Zeros(count + 1);
        count := count + 1;
      }
      s := s + 1;
      b := b * 10;
      e := e + 1;
    }
    StartWidth(arg);
  }

  /** The text starts with '-' exactly when val is negative and has no other
      '-': the padding and `_FIXED(|val|)` after the sign have none. */
  lemma Leading0Sign(arg: Leading0)
    ensures var t := Leading0Text(arg);
      |t| > 0 && (t[0] == '-' <==> arg.val < 0) && forall j :: 0 < j < |t| ==> t[j] != '-'
  {
    var f := FixedText(Abs(arg.val as int), arg.digits);
    var z := Zeros(PadCount(arg));
    FixedSign(Abs(arg.val as int), arg.digits);
    assert f[0] != '-';
    var t := Leading0Text(arg);
    var p := |Sign(arg.val as int)|;
    assert forall j :: p <= j < p + |z| ==> t[j] == z[j - p];
    assert forall j :: p + |z| <= j < |t| ==> t[j] == f[j - p - |z|];
  }

  /** Not counting '.', the text is as wide as `size`, or as wide as the sign
      and the number when those need more. */
  lemma Leading0Width(arg: Leading0)
    ensures var t := Leading0Text(arg);
      var wide := |Sign(arg.val as int)| + Width(arg);
      |t| - Count(t, '.') == if arg.size > wide then arg.size else wide
  {
    var v := Abs(arg.val as int);
    var sg := Sign(arg.val as int);
    var z := Zeros(PadCount(arg));
    var f := FixedText(v, arg.digits);
    CountAppend(sg + z, f, '.');
    CountAppend(sg, z, '.');
    assert '.' !in sg && '.' !in z;
    CountAbsent(sg, '.');
    CountAbsent(z, '.');
    if arg.digits > 0 {
      FixedLayout(v, arg.digits);
    } else {
      DigitsHaveNoMarks(v);
      CountAbsent(f, '.');
    }
  }

  /** The padding does not change the value: without the sign and the '.'s
      the text reads |val|, and `digits` characters follow the last '.'. */
  lemma Leading0Denotes(arg: Leading0)
    ensures var t := Leading0Text(arg);
      ValueOf(Strip(t)) == Abs(arg.val as int) &&
      (arg.digits > 0 ==>
        |t| > arg.digits && t[|t| - arg.digits - 1] == '.' && '.' !in t[|t| - arg.digits..])
  {
    var v := Abs(arg.val as int);
    var f := FixedText(v, arg.digits);
    var t := Leading0Text(arg);
    PaddingStrips(arg);
    ValueOfZerosPrefix(PadCount(arg), Strip(f));
    if arg.digits > 0 {
      FixedDenotes(v, arg.digits);
      SuffixOf(Sign(arg.val as int) + Zeros(PadCount(arg)), f, arg.digits + 1);
    } else {
      assert f == Digits(v) by {
        assert "" + Digits(v) == Digits(v);
      }
      DigitsWellFormed(v);
      StripDigits(Digits(v));
    }
  }

  lemma PaddingStrips(arg: Leading0)
    ensures Strip(Leading0Text(arg)) == Zeros(PadCount(arg)) + Strip(FixedText(Abs(arg.val as int), arg.digits))
  {
    var sg := Sign(arg.val as int);
    var z := Zeros(PadCount(arg));
    var f := FixedText(Abs(arg.val as int), arg.digits);
    StripAppend(sg + z, f);
    StripAppend(sg, z);
    StripDigits(z);
    assert Strip(sg) == [];
  }

  /** The last n characters of a + b are those of b when b has that many. */
  lemma SuffixOf(a: string, b: string, n: nat)
    requires n <= |b|
    ensures (a + b)[|a + b| - n..] == b[|b| - n..]
  {
  }

  /** The example of the header comment: 1234 with two decimals in five
      positions prints "012.34". */
  lemma Leading0Example()
    ensures Leading0Text(NewLeading0(1234, 2, 5)) == "012.34"
  {
    assert Digits(1234) == "1234";
  }

  /** The clamp: two decimals in two positions are dropped. */
  lemma Leading0ClampExample()
    ensures NewLeading0(1234, 2, 2).digits == 0
    ensures Leading0Text(NewLeading0(1234, 2, 2)) == "1234"
  {
    assert Digits(1234) == "1234";
  }
}
