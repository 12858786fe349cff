/** Value types shared by the whole model. */
module Common {
  datatype Option<+T> = None | Some(value: T)

  datatype Result<+T, +E> = Ok(value: T) | Err(error: E)

  /** `u8` */
  type byte = b: int | 0 <= b < 256

  type Bytes = seq<byte>

  const I32_MIN := -0x8000_0000
  const I32_MAX := 0x7FFF_FFFF
  const I64_MIN := -0x8000_0000_0000_0000
  const I64_MAX := 0x7FFF_FFFF_FFFF_FFFF
  const U32_MAX := 0xFFFF_FFFF
  const USIZE_MAX := 0xFFFF_FFFF_FFFF_FFFF

  type i32 = x: int | I32_MIN <= x <= I32_MAX
  type i64 = x: int | I64_MIN <= x <= I64_MAX
  type u32 = x: int | 0 <= x <= U32_MAX
  type usize = x: int | 0 <= x <= USIZE_MAX

  function Flatten(parts: seq<Bytes>): Bytes {
    if parts == [] then [] else parts[0] + Flatten(parts[1..])
  }

  lemma ConcatIsAssociative<T>(a: seq<T>, b: seq<T>, c: seq<T>)
    ensures (a + b) + c == a + (b + c)
  {
  }

  lemma HeadOfConcat<T>(a: seq<T>, b: seq<T>)
    ensures a != [] ==> (a + b)[0] == a[0] && (a + b)[1..] == a[1..] + b
    ensures a == [] ==> a + b == b
  {
  }

  /** Moving the head of a sequence to the end of another keeps their concatenation. */
  lemma MoveHead<T>(done: seq<T>, head: T, before: seq<T>, after: seq<T>)
    requires before != [] && head == before[0] && after == before[1..]
    ensures (done + [head]) + after == done + before
  {
    assert before == [head] + after;
  }

  predicate FitsI64(x: int) { I64_MIN <= x <= I64_MAX }
}
