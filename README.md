# Fixed-point formatters of Streaming.h

Streaming.h lets an Arduino sketch write `Serial << x`. Three helper structs
in it print a scaled integer `val / 10^digits` in decimal:

- `_FIXED(val, digits)` prints the number with `digits` decimals. It fills a
  `char buf[12]` from right to left: the digits of `|val|`, a '.', zero
  padding, then an optional '-'.
- `_DYNAMIC(v, d, s)` rounds decimals away in its constructor, one
  `(val + 5) / 10` at a time. It stops when `|val|` is below `10^s` (one
  position fewer for a negative value) or no decimals remain. It then prints
  through `_FIXED`.
- `_LEADING0(v, d, s)` clamps `digits` in its constructor. Its `operator<<`
  writes the sign and then leading '0's until `size` positions are taken. It
  finds them by counting positions against a threshold `b` that runs through
  the powers of ten. Then it prints `|val|` through `_FIXED`.

The project models these three in Dafny. Each module follows one struct.

- `Decimal` holds:
  - the 32-bit `long`/`int32_t` and the `uint8_t` of the toolchain;
  - C's truncating division;
  - decimal digits, leading zeros, and reading a numeral back.
- `Output` is the `Print&` sink: an object whose text only grows.
  `Print::print(long)` is modelled as appending the plain decimal form.
- `Fixed` is `_FIXED`:
  - the spec function `FixedText` gives the text;
  - the method `RenderFraction` fills a real `array<char>` of 12 cells backwards, as the source does, and is proved to produce exactly `FixedText`;
  - lemmas state what that text is.
- `Dynamic` is `_DYNAMIC`:
  - the constructor's first loop, `Threshold`, is proved to build `b == 10^e`;
  - its rounding loop, `RoundAway`, runs in 32-bit arithmetic and is proved equal to the recursive `Reduce`;
  - lemmas characterise `Reduce` by the number of rounding steps it takes.
- `Leading0` is `_LEADING0`:
  - the loops of `operator<<` are methods proved to write `Leading0Text`;
  - lemmas give its sign, width and value.

Behaviour kept exactly as written:

- When `|val|` has exactly `digits` digits, `_FIXED` writes two '.'s: one at
  line 138 and one at line 142. For example, `(12, 2)` prints `"0..12"`. The
  model reproduces this. `Fixed.FixedLayout` and `Fixed.ExampleDoublePoint`
  state it.
- `_DYNAMIC` rounds with C's `/`, which truncates toward zero. So a negative
  value is rounded by adding 0.5 and then truncating toward zero. For
  example, -14 (that is -1.4) becomes 0, while 14 becomes 1.
  `Dynamic.RoundStep` and `Dynamic.RoundStepAsymmetry` state this.
- The doc comment of `_LEADING0` (Streaming.h:214) writes its example as
  `_DYNAMIC(n, 2,5)`. The output it gives, `012.34`, is that of
  `_LEADING0(1234, 2, 5)`; `_DYNAMIC(1234, 2, 5)` prints `12.34`. The model
  follows the code, and `Leading0.Leading0Example` proves the `_LEADING0`
  reading.

The code has undefined behaviour on some inputs. Preconditions name those
inputs instead of modelling them:

- negating `LONG_MIN`;
- a power of ten in `b` that does not fit in 32 bits;
- `val + 5` overflowing;
- a text longer than the 11 characters `buf` holds besides the terminator.

Each precondition is written as a predicate: `FixedDefined` and
`Leading0Defined`, and the requires of `Dynamic.NewDynamic`.
`Fixed.FixedOverrunExample` shows that the buffer limit is real: a 32-bit
value can need 12 characters.

## Model

| member | source | states |
|---|---|---|
| `Decimal.TruncDiv` | Streaming.h:190 | C's `/` for a positive divisor: the magnitude of the quotient is `|a| / b`, and a non-zero quotient has the sign of `a` |
| `Decimal.AbsLong` | Streaming.h:189 | Arduino's `abs` on a 32-bit `long`: it returns the magnitude, and it is defined only when `x != LONG_MIN` |
| `Output.Sink.PrintLong` | Streaming.h:117 | `obj.print(long)` appends `'-'` for a negative value, then the digits of the magnitude |
| `Output.Sink.Print` | Streaming.h:151 | `obj.print(str)` appends exactly the given characters |
| `Fixed.PutBefore` | Streaming.h:136 | `*--str = c` moves `str` back one cell and writes `c` there. The cells from `str` up to the end are `c` followed by what they held, and no other cell changes |
| `Fixed.ExtractDigits` | Streaming.h:132-139 | the do/while writes the digits of `n`, least significant first, ending just before the terminator, with a '.' before the last `digits` of them. It leaves `i == digits - k`, and the cells before `str` and from the terminator on unchanged |
| `Fixed.PutPoint` | Streaming.h:142-143 | `*--str='.'; *--str='0';` moves `str` back two cells and puts `"0."` in front of what they held. No other cell changes |
| `Fixed.ExtractStep` | Streaming.h:133-138 | one pass moves the last digit `m - 10*(m/10)` of `m` to the front of the digits written, and adds a '.' when it is the `digits`-th |
| `Fixed.PadFraction` | Streaming.h:140-149 | for `i >= 0` the padding loop puts `"0."` and `i` zeros in front of what is written; for `i < 0` it writes nothing. No other cell changes |
| `Fixed.AssembledBody` | Streaming.h:132-149 | the digits with their '.' and the padding in front of them together are `FixedBody` in each of its three cases |
| `Fixed.FillBody` | Streaming.h:132-149 | both loops together leave exactly `FixedBody(n, digits)` just before `buf[11]`, with room for the sign in front |
| `Fixed.RenderFraction` | Streaming.h:119-152 | the `else` branch: with the terminator in `buf[11]` and the sign written last, the string printed equals `FixedText(val, digits)`. Every write stays inside the 12-cell buffer, and `-arg.val` is negated in 32 bits without overflow, whenever `FixedDefined` holds |
| `Fixed.WriteFixed` | Streaming.h:113-154 | `operator<<(Print&, const _FIXED&)` appends exactly `FixedText(val, digits)` to the sink, whatever `digits` is |
| `Fixed.FixedWithoutFraction` | Streaming.h:116-118 | with `digits <= 0` the text is the plain decimal form of `val` and contains no '.' |
| `Fixed.FixedSign` | Streaming.h:124-150 | the first character is '-' exactly when `val < 0`, and no other character is '-' |
| `Fixed.FixedDigitsPadded` | Streaming.h:132-149 | with `digits > 0` and the sign and all '.'s removed, the text is the digits of `|val|` left-padded with '0' to `digits + 1` characters (0 counts as one digit) |
| `Fixed.FixedDenotes` | Streaming.h:132-149 | with `digits > 0` the character `digits + 1` from the end is '.', none of the last `digits` is '.', and the remaining digits read back as `|val|` |
| `Fixed.FixedLayout` | Streaming.h:132-149 | the length is sign + max(k, digits+1) + number of '.'s. For k > digits there is one '.'. For k < digits there is one '.' and the text after the sign starts "0.". For k == digits there are two '.'s and it starts "0.." |
| `Fixed.ExampleFourDigits` | Streaming.h:101-103 | `_FIXED(1234, 2)` prints `"12.34"` |
| `Fixed.ExampleNegative` | Streaming.h:150 | `_FIXED(-1234, 2)` prints `"-12.34"` |
| `Fixed.ExamplePadded` | Streaming.h:140-149 | `_FIXED(5, 3)` prints `"0.005"` |
| `Fixed.ExampleWhole` | Streaming.h:116-118 | `_FIXED(0, 0)` prints `"0"` |
| `Fixed.ExampleDoublePoint` | Streaming.h:138-143 | `_FIXED(12, 2)` prints `"0..12"` |
| `Fixed.FixedOverrunExample` | Streaming.h:120-121 | `_FIXED(-2147483647, 2)` would need 12 characters beside the terminator, so it is outside `FixedDefined` |
| `Dynamic.RoundStep` | Streaming.h:190 | `(val + 5) / 10` in C. When `val + 5 >= 0` it is `val / 10` rounded half up. Otherwise the quotient is truncated toward zero |
| `Dynamic.Reduce` | Streaming.h:189-192 | the rounding loop never increases `digits`, and it ends with no decimals left or `|val| < b` |
| `Dynamic.DynamicSpec` | Streaming.h:168-193 | digits start at max(d, 0) and never increase. `s == 0` leaves `val` and `digits` unchanged. Otherwise the result has no decimals or `|val| < 10^e`, with one position less in `e` for a negative `v` |
| `Dynamic.ReduceSteps` | Streaming.h:189-192 | the loop performs exactly t rounding steps: the result is `val` rounded t times, every value it rounded had `|.| >= b`, and it stopped at the first value below `b` or when no decimals were left |
| `Dynamic.DynamicSignificantDigits` | Streaming.h:178-192 | a reduced value that keeps decimals has at most `e` significant digits; when `e == 0` it has been rounded to 0 |
| `Dynamic.Threshold` | Streaming.h:184-187 | the loop `b *= 10; s--` leaves `b == 10^e` without overflowing a `long` |
| `Dynamic.RoundAway` | Streaming.h:189-192 | the rounding loop computes `Reduce`. It takes `abs(val)` and `val + 5` in 32-bit `long` arithmetic, and the verifier checks that neither overflows |
| `Dynamic.NewDynamic` | Streaming.h:168-193 | the constructor stores exactly `DynamicSpec(v, d, s)` |
| `Dynamic.WriteDynamic` | Streaming.h:196-206 | `operator<<` for `_DYNAMIC` appends `FixedText(val, digits)`: the plain decimal form when `digits <= 0`, else the `_FIXED` text |
| `Dynamic.DynamicExample` | Streaming.h:158-162 | `_DYNAMIC(12345, 2, 4)` holds 1235 with one decimal and prints `"123.5"` |
| `Dynamic.RoundStepNegativeExample` | Streaming.h:190 | -12346 rounds to -1234 |
| `Dynamic.RoundStepAsymmetry` | Streaming.h:190 | 14 rounds to 1 but -14 rounds to 0; 15 rounds to 2 and -15 to -1 |
| `Leading0.NewLeading0` | Streaming.h:221-226 | the constructor keeps `val` and `size`. It keeps `d` when `0 <= d < s` and sets `digits` to 0 otherwise, so `digits` is 0 or below `size` |
| `Leading0.StartWidth` | Streaming.h:235-245 | where the threshold starts after the decimals and the `v < b` step, together with the digit count of `|val|`, is max(k, digits+1): the positions `_FIXED(|val|)` fills |
| `Leading0.PadStep` | Streaming.h:246-252 | at each position past the start, `v < b` holds exactly when one more '0' belongs in the padding |
| `Leading0.PadZeros` | Streaming.h:246-252 | the padding loop appends exactly `PadCount` '0's, and `b` never overflows |
| `Leading0.Leading0FixedFits` | Streaming.h:253-258 | whenever `_LEADING0`'s own arithmetic is defined, the closing `_FIXED(|val|, digits)` fits in its buffer |
| `Leading0.WriteLeading0` | Streaming.h:229-260 | `operator<<` appends '-' if `val < 0`, then `max(0, size - [val<0] - max(k, digits+1))` '0's, then `_FIXED(|val|, digits)` |
| `Leading0.Leading0Sign` | Streaming.h:239-244 | the text starts with '-' exactly when `val < 0` and has no other '-' |
| `Leading0.Leading0Width` | Streaming.h:229-260 | not counting '.', the text has `size` characters, or sign + max(k, digits+1) when that is more |
| `Leading0.Leading0Denotes` | Streaming.h:253-258 | the padding keeps the value. Without the sign and '.'s the text reads back as `|val|`, and with decimals exactly `digits` characters follow the last '.' |
| `Leading0.Leading0Example` | Streaming.h:210-214 | `_LEADING0(1234, 2, 5)` prints `"012.34"` |
| `Leading0.Leading0ClampExample` | Streaming.h:222-226 | `_LEADING0(1234, 2, 2)` drops its decimals and prints `"1234"` |

## Left out

- The generic `operator<<` template (Streaming.h:35-37) and `endl` (Streaming.h:269-272) only forward a value to the sink.
- `_BASED`, `_HEX`, `_DEC`, `_OCT`, `_BIN` and `_BYTE` (Streaming.h:39-77) are left out. They pass a base to `Print::print`, whose conversion code is not part of this model.
- `_FLOAT` (Streaming.h:86-95) is floating point, handed to `Print::print(double, int)`.
- The Arduino headers and the `cout`/`tabl` macros (Streaming.h:23-32) are platform code.
- `Print::print` is not part of this model. `Output.Sink.Print` and `Output.Sink.PrintLong` stand in for it. They append the characters and the plain decimal form, and ignore the byte counts `print` returns.
- Undefined behaviour is not modelled. Preconditions exclude it:
  - negating `LONG_MIN` (Streaming.h:125, 241);
  - `b` overflowing, which happens once its exponent reaches 10. For `_DYNAMIC` that exponent is `s - [v<0]` (Streaming.h:181-187). For `_LEADING0` it is the larger of the start exponent and `size - [val<0]` (Streaming.h:235-252);
  - `val + 5` overflowing (Streaming.h:190);
  - a text that overruns `buf[12]` (Streaming.h:120-150).
- The C `int` fields `digits` are unbounded integers in the model. The 16-bit range of `int` on AVR boards is not modelled.
- `Leading0.NewLeading0` is a function on values, because the constructor has no loop. `_FIXED`'s constructor is just the datatype `Fixed.Fixed`.
- The `_DYNAMIC` constructor returns a `Dynamic` value. The model does not have a struct updated in place.
- `Dynamic.RoundAway`: its precondition asks for `LONG_MIN < val <= LONG_MAX - 5` whenever decimals remain. `abs(val)` is evaluated in that case. With `b <= 10^9`, any larger `val` enters the loop and overflows at `val + 5`.
