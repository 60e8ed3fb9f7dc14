/** The `Print&` sink the formatters write to (Serial on an Arduino board),
    reduced to the text it has received so far. */
module Output {
  import opened Decimal

  class Sink {
    /** Everything written to the sink, in order; it only ever grows. */
    var text: string

    constructor ()
      ensures text == []
    {
      text := [];
    }

    /** Print::print(const char*): appends the characters of a string. */
    method Print(s: string)
      modifies this
      ensures text == old(text) + s
    {
      text := text + s;
    }

    /** Print::print(long): appends the plain decimal form of v. */
    method PrintLong(v: int32)
      modifies this
      ensures text == old(text) + PlainDecimal(v as int)
    {
      text := text + PlainDecimal(v as int);
    }
  }
}
