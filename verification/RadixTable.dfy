/** The digit table and the resolution of a caller's radix argument. */
module RadixTable {
  import opened Common
  import opened Numerals
  import opened Whitespace

  /** Errors of `parse`; the argument error carries the input, the others the rejected number. */
  datatype ParseError =
    | Argument(subject: Bytes)
    | InvalidRadix(num: i64)
    | RadixTooBig(num: i64)
    | RadixTooSmall(num: i64)

  /** The least radix a byte is a digit of; `u32::MAX` for a byte that is never a digit. */
  function MinRadix(b: byte): u32 {
    match DigitValue(b)
    case Some(d) => d + 1
    case None => U32_MAX
  }

  /** Builds the lookup table indexed by byte value. */
  method BuildRadixTable() returns (table: array<u32>)
    ensures fresh(table) && table.Length == 256
    ensures forall b: byte :: table[b] == MinRadix(b)
  {
    table := new u32[256](_ => U32_MAX);
    var b: byte := 0;
    while true
      invariant forall c: byte :: table[c] == if c < b then MinRadix(c) else U32_MAX
      decreases 256 - b
    {
      if 48 <= b <= 57 {
        table[b] := b - 48 + 1;
      } else if 65 <= b <= 90 {
        table[b] := b - 65 + 11;
      } else if 97 <= b <= 122 {
        table[b] := b - 97 + 11;
      }
      if b == 255 {
        return;
      }
      b := b + 1;
    }
  }

  /** The table test of the digit loop accepts exactly the digits of the radix. */
  lemma TableTestIsDigitTest(b: byte, radix: Radix)
    ensures MinRadix(b) <= radix <==> IsDigit(b, radix)
  {
  }

  function NewRadix(radix: u32): Option<Radix> {
    if 2 <= radix <= 36 then Some(radix) else None
  }

  predicate LeadsWithZero(subject: Bytes) {
    var t := TrimLeading(subject);
    t != [] && t[0] == ZERO
  }

  /**
   * Turns the radix argument into a base, or into no base when the text alone decides.
   * Both negations are computed at the width the original uses.
   */
  function TryBaseFromStrAndI64(subject: Bytes, num: i64): Result<Option<Radix>, ParseError> {
    if I32_MIN <= num <= I32_MAX then
      if num == 0 || num == -1 then Ok(None)
      else if num == 1 then Err(InvalidRadix(num))
      else if num < 0 && LeadsWithZero(subject) then Ok(None)
      else if num == I32_MIN then Err(InvalidRadix(num))
      else if num < 0 && !(-36 <= num <= -2) then
        var negated: i64 := -num;
        Err(InvalidRadix(negated))
      else
        var magnitude: i32 := if num < 0 then -num else num;
        match NewRadix(magnitude)
        case Some(radix) => Ok(Some(radix))
        case None => Err(InvalidRadix(num))
    else if num > I32_MAX then Err(RadixTooBig(num))
    else if num < I32_MIN then Err(RadixTooSmall(num))
    else assert false; Ok(None)
  }

  /** The radix argument as a whole: absent, or resolved against the text. */
  function RadixArgument(subject: Bytes, radix: Option<i64>): Result<Option<Radix>, ParseError> {
    match radix
    case None => Ok(None)
    case Some(num) => TryBaseFromStrAndI64(subject, num)
  }

  function Abs(x: int): nat { if x < 0 then -x else x }

  /** Which arguments leave the base to the text, which fix it, and which are refused. */
  lemma RadixArgumentExact(subject: Bytes, num: i64, base: Radix)
    ensures RadixArgument(subject, Some(num)) == Ok(None) <==>
              num in {0, -1} || (-2147483648 <= num < 0 && LeadsWithZero(subject))
    ensures RadixArgument(subject, Some(num)) == Ok(Some(base)) <==>
              Abs(num) == base && (num < 0 ==> !LeadsWithZero(subject))
    ensures RadixArgument(subject, Some(num)) == Err(RadixTooBig(num)) <==> num > 2147483647
    ensures RadixArgument(subject, Some(num)) == Err(RadixTooSmall(num)) <==> num < -2147483648
    ensures RadixArgument(subject, Some(num)).Err? && -2147483648 <= num <= 2147483647 ==>
              RadixArgument(subject, Some(num)).error == InvalidRadix(if -2147483648 < num < 0 then Abs(num) else num)
  {
  }
}
