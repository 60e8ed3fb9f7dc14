/** `_DYNAMIC(v, d, s)`: a scaled integer `v / 10^d` reduced, by rounding away
    trailing decimals, until its magnitude has at most `s` significant digits
    (one of them given up for the sign of a negative value). */
module Dynamic {
  import opened Decimal
  import opened Output
  import opened Fixed

  /** The struct `_DYNAMIC` as its constructor leaves it. */
  datatype Dynamic = Dynamic(val: int32, digits: int)

  /** One rounding step of the constructor, `(val + 5) / 10` with C's
      truncating division. For x + 5 >= 0 this is x / 10 rounded half up; for
      x + 5 < 0 the quotient is truncated toward zero, so a negative x is
      rounded by adding 0.5 and dropping the fraction toward zero. */
  function RoundStep(x: int): (r: int)
    ensures x + 5 >= 0 ==> 10 * r <= x + 5 < 10 * r + 10
    ensures x + 5 < 0 ==> 10 * r - 10 < x + 5 <= 10 * r
  {
    TruncDiv(x + 5, 10)
  }

  /** The exponent of the threshold `b = 10^e` the constructor builds from `s`
      (for s > 0): one position fewer for a negative value. */
  function SizeExponent(v: int, s: nat): nat
  {
    if v < 0 && s > 0 then s - 1 else s
  }

  /** The rounding loop: while decimals remain and |val| >= b, round one
      decimal away. */
  function Reduce(val: int, digits: nat, b: nat): (r: ScaledValue)
    ensures r.digits <= digits
    ensures r.digits == 0 || Abs(r.val) < b
    decreases digits
  {
    if digits > 0 && Abs(val) >= b then Reduce(RoundStep(val), digits - 1, b)
    else ScaledValue(val, digits)
  }

  /** What the constructor stores: `digits` starts at max(d, 0); with s == 0
      nothing is reduced; otherwise the rounding loop runs against 10^e. */
  function DynamicSpec(v: int, d: int, s: nat): (r: ScaledValue)
    ensures r.digits <= (if d < 0 then 0 else d)
    ensures s == 0 ==> r == ScaledValue(v, if d < 0 then 0 else d)
    ensures s > 0 ==> r.digits == 0 || Abs(r.val) < Pow10(SizeExponent(v, s))
  {
    var digits := if d < 0 then 0 else d;
    if s == 0 then ScaledValue(v, digits) else Reduce(v, digits, Pow10(SizeExponent(v, s)))
  }

  /** x after t rounding steps. */
  function Rounded(x: int, t: nat): int
  {
    if t == 0 then x else RoundStep(Rounded(x, t - 1))
  }

  /** The rounding loop performs exactly t steps, where t is the first count at
      which the value drops below b, or all the decimals when it never does:
      every value it rounded had |.| >= b, and it stopped at the first one
      below b or when no decimals were left. */
  lemma {:induction false} ReduceSteps(val: int, digits: nat, b: nat)
    ensures var r := Reduce(val, digits, b);
      var t := digits - r.digits;
      r.val == Rounded(val, t) &&
      (forall j :: 0 <= j < t ==> Abs(Rounded(val, j)) >= b) &&
      (r.digits == 0 || Abs(r.val) < b)
    decreases digits
  {
    if digits > 0 && Abs(val) >= b {
      ReduceSteps(RoundStep(val), digits - 1, b);
      var r := Reduce(val, digits, b);
      var t := digits - r.digits;
      forall j | 0 <= j <= t
        ensures Rounded(val, j) == (if j == 0 then val else Rounded(RoundStep(val), j - 1))
      {
        if j > 0 {
          RoundedShift(val, j);
        }
      }
    }
  }

  /** Rounding t + 1 times is rounding once, then t times. */
  lemma {:induction false} RoundedShift(x: int, t: nat)
    requires t > 0
    ensures Rounded(x, t) == Rounded(RoundStep(x), t - 1)
  {
    if t > 1 {
      RoundedShift(x, t - 1);
    }
  }

  /** Once reduced with decimals left, the magnitude has at most e significant
      digits; with e == 0 (a negative value and s == 1) it has been rounded
      to 0. */
  lemma DynamicSignificantDigits(v: int, d: int, s: nat)
    requires s > 0
    ensures var r := DynamicSpec(v, d, s);
      var e := SizeExponent(v, s);
      r.digits > 0 ==> if e == 0 then r.val == 0 else NumDigits(Abs(r.val)) <= e
  {
    var r := DynamicSpec(v, d, s);
    var e := SizeExponent(v, s);
    if r.digits > 0 && e > 0 {
      NumDigitsBound(Abs(r.val), e);
    }
  }

  /** The constructor. `s` is a `size_t`, so `s <= 0` means s == 0. Defined
      when 10^e fits in a `long` and, if the rounding loop may run, when |v|
      exists and v + 5 does not overflow. */
  method NewDynamic(v: int32, d: int, s: nat) returns (r: Dynamic)
    requires s == 0 || SizeExponent(v as int, s) <= 9
    requires d > 0 && s > 0 ==> LongMin < v as int <= LongMax - 5
    ensures r.val as int == DynamicSpec(v as int, d, s).val
    ensures r.digits == DynamicSpec(v as int, d, s).digits
  {
    var val := v;
    var digits: int;
    if d < 0 {
      digits := 0;
    } else {
      digits := d;
    }
    if s <= 0 {
      return Dynamic(val, digits);
    }
    var e := s;
    if v < 0 {
      e := e - 1;
    }
    var b := Threshold(e);
    val, digits := RoundAway(val, digits, b);
    r := Dynamic(val, digits);
  }

  /** The first loop of the constructor: `b` multiplied by ten `e` times. */
  method Threshold(e0: nat) returns (b: int32)
    requires e0 <= 9
    ensures b as int == Pow10(e0)
  {
    Pow10Fits(e0);
    b := 1;
    var e := e0;
    while e > 0
      invariant 0 <= e <= e0
      invariant b as int == Pow10(e0 - e)
      decreases e
    {
      Pow10Monotone(e0 - e + 1, e0);
      b := b * 10;
      e := e - 1;
    }
  }

  /** The rounding loop of the constructor: one decimal rounded away per pass
      while decimals remain and |val| >= b, all in `long` arithmetic. */
  method RoundAway(val0: int32, digits0: nat, b: int32) returns (val: int32, digits: nat)
    requires b >= 1
    requires digits0 > 0 ==> LongMin < val0 as int <= LongMax - 5
    ensures ScaledValue(val as int, digits) == Reduce(val0 as int, digits0, b as int)
  {
    val := val0;
    digits := digits0;
    while digits > 0 && AbsLong(val) >= b
      invariant digits <= digits0
      invariant Reduce(val as int, digits, b as int) == Reduce(val0 as int, digits0, b as int)
      invariant val == val0 || Abs(val as int) <= 214_748_365
      decreases digits
    {
      var t: int32 := val + 5;
      val := TruncDiv(t as int, 10) as int32;
      digits := digits - 1;
    }
  }

  /** `operator<<` for `_DYNAMIC`: the plain decimal form without decimals,
      `_FIXED` otherwise. */
  method WriteDynamic(sink: Sink, arg: Dynamic)
    requires FixedDefined(arg.val as int, arg.digits)
    modifies sink
    ensures sink.text == old(sink.text) + FixedText(arg.val as int, arg.digits)
  {
    if arg.digits <= 0 {
      sink.PrintLong(arg.val);
    } else {
      WriteFixed(sink, Fixed(arg.val, arg.digits));
    }
  }

  /** The example of the header comment: 12345 with two decimals in four
      positions is 1235 with one, printed "123.5". */
  lemma DynamicExample()
    ensures DynamicSpec(12345, 2, 4) == ScaledValue(1235, 1)
    ensures FixedText(1235, 1) == "123.5"
  {
    assert Pow10(4) == 10000;
    assert Digits(1235) == "1235";
  }

  /** A negative value: -12346 rounds to -1234. */
  lemma RoundStepNegativeExample()
    ensures RoundStep(-12346) == -1234
  {
  }

  /** Truncation toward zero makes rounding of negative values lopsided:
      -14 (that is -1.4 at one decimal) rounds to 0, where 14 rounds to 1. */
  lemma RoundStepAsymmetry()
    ensures RoundStep(14) == 1 && RoundStep(-14) == 0
    ensures RoundStep(15) == 2 && RoundStep(-15) == -1
  {
  }
}
