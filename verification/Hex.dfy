/** Hexadecimal encoding of bytes, one character at a time, and UUID text. */
module Hex {
  import opened Common

  /** `EscapedByte::hex_escape`: two lower-case digits. */
  function HexDigit(d: nat): char
    requires d < 16
  {
    "0123456789abcdef"[d]
  }

  function HexEscape(b: byte): string { [HexDigit(b / 16), HexDigit(b % 16)] }

  /** The encoding of a byte string (section 8 of RFC 4648, lower-case alphabet). */
  function HexText(data: Bytes): string {
    if data == [] then "" else HexEscape(data[0]) + HexText(data[1..])
  }

  function Saturated(n: nat): usize { if n > USIZE_MAX then USIZE_MAX else n }

  function SaturatingAdd(a: usize, b: usize): usize { Saturated(a + b) }

  /** The iterator; the digits of the current byte wait in `escapedByte`. */
  class HexIterator {
    var bytes: Bytes
    var escapedByte: Option<string>

    ghost predicate Valid()
      reads this
    {
      |bytes| <= USIZE_MAX && |Pending()| <= 2
    }

    ghost function Pending(): string
      reads this
    {
      if escapedByte.Some? then escapedByte.value else ""
    }

    /** The characters still to come. */
    ghost function Remaining(): string
      reads this
    {
      Pending() + HexText(bytes)
    }

    constructor (data: Bytes)
      requires |data| <= USIZE_MAX
      ensures Valid() && Remaining() == HexText(data)
    {
      bytes := data;
      escapedByte := None;
    }

    /** The number of characters still to come, as long as that number is a `usize`. */
    method Len() returns (len: usize)
      requires Valid()
      ensures len == if |Remaining()| <= USIZE_MAX then |Remaining()| else USIZE_MAX
    {
      HexTextLength(bytes);
      var encoded := Saturated(|bytes| * 2);
      len := if escapedByte.Some? then SaturatingAdd(encoded, |escapedByte.value|) else encoded;
    }

    method IsEmpty() returns (empty: bool)
      requires Valid()
      ensures empty <==> Remaining() == ""
    {
      HexTextLength(bytes);
      empty := if escapedByte.Some? then bytes == [] && escapedByte.value == "" else bytes == [];
    }

    method Next() returns (next: Option<char>)
      requires Valid()
      modifies this
      ensures Valid()
      ensures if old(Remaining()) == "" then next == None && Remaining() == ""
              else next == Some(old(Remaining())[0]) && Remaining() == old(Remaining())[1..]
    {
      HeadOfConcat(Pending(), HexText(bytes));
      if escapedByte.Some? && escapedByte.value != "" {
        next := Some(escapedByte.value[0]);
        escapedByte := Some(escapedByte.value[1..]);
        return;
      }
      if bytes == [] {
        return None;
      }
      var escaped := HexEscape(bytes[0]);
      HeadOfConcat(escaped, HexText(bytes[1..]));
      bytes := bytes[1..];
      next := Some(escaped[0]);
      escapedByte := Some(escaped[1..]);
    }
  }

  lemma {:induction false} HexTextLength(data: Bytes)
    ensures |HexText(data)| == 2 * |data|
  {
    if data != [] {
      HexTextLength(data[1..]);
    }
  }

  datatype TryReserveError = TryReserveError

  /**
   * `try_encode_into`: appends the encoding to a buffer, character by character, once room
   * for all of it has been reserved.
   */
  method TryEncodeInto(data: Bytes, buf: string, canReserve: usize -> bool) returns (r: Result<string, TryReserveError>)
    requires |data| <= USIZE_MAX
    ensures r == if canReserve(Saturated(2 * |data|)) then Ok(buf + HexText(data)) else Err(TryReserveError)
  {
    var iter := new HexIterator(data);
    HexTextLength(data);
    var len := iter.Len();
    if !canReserve(len) {
      return Err(TryReserveError);
    }
    var text := Drain(iter, buf);
    return Ok(text);
  }

  /** Appends everything the iterator still yields. */
  method Drain(iter: HexIterator, buf: string) returns (text: string)
    requires iter.Valid()
    modifies iter
    ensures text == buf + old(iter.Remaining())
  {
    text := buf;
    ghost var all := buf + iter.Remaining();
    while true
      invariant iter.Valid() && text + iter.Remaining() == all
      decreases |iter.Remaining()|
    {
      ghost var rest := iter.Remaining();
      var ch := iter.Next();
      if ch.None? {
        return;
      }
      MoveHead(text, ch.value, rest, iter.Remaining());
      text := text + [ch.value];
    }
  }

  // ---- Decoding ----

  function DigitOf(c: char): (d: Option<nat>)
    ensures d.Some? ==> d.value < 16
  {
    if '0' <= c <= '9' then Some(c as int - '0' as int)
    else if 'a' <= c <= 'f' then Some(c as int - 'a' as int + 10)
    else None
  }

  /** Decodes lower-case hexadecimal text; `None` for odd length or another character. */
  function Decode(t: string): Option<Bytes> {
    if t == "" then Some([])
    else if |t| == 1 || DigitOf(t[0]).None? || DigitOf(t[1]).None? then None
    else
      match Decode(t[2..])
      case None => None
      case Some(rest) => Some([DigitOf(t[0]).value * 16 + DigitOf(t[1]).value] + rest)
  }

  lemma DigitRoundTrip(d: nat)
    requires d < 16
    ensures DigitOf(HexDigit(d)) == Some(d)
  {
  }

  lemma EscapeOfDigits(c: char, d: char)
    requires DigitOf(c).Some? && DigitOf(d).Some?
    ensures HexEscape(DigitOf(c).value * 16 + DigitOf(d).value) == [c, d]
  {
    DigitBack(c);
    DigitBack(d);
    Halves(DigitOf(c).value, DigitOf(d).value);
  }

  lemma Halves(h: nat, l: nat)
    requires h < 16 && l < 16
    ensures h * 16 + l < 256 && (h * 16 + l) / 16 == h && (h * 16 + l) % 16 == l
  {
  }

  lemma DigitBack(c: char)
    requires DigitOf(c).Some?
    ensures HexDigit(DigitOf(c).value) == c
  {
  }

  lemma DecodeStep(b: byte, t: string)
    ensures Decode(HexEscape(b) + t) == match Decode(t) case None => None case Some(rest) => Some([b] + rest)
  {
    DigitRoundTrip(b / 16);
    DigitRoundTrip(b % 16);
    assert (HexEscape(b) + t)[2..] == t;
  }

  lemma {:induction false} DecodeHexText(data: Bytes)
    ensures Decode(HexText(data)) == Some(data)
  {
    if data != [] {
      DecodeHexText(data[1..]);
      DecodeStep(data[0], HexText(data[1..]));
      assert [data[0]] + data[1..] == data;
    }
  }

  lemma HexTextCons(b: byte, data: Bytes)
    ensures HexText([b] + data) == HexEscape(b) + HexText(data)
  {
    assert ([b] + data)[1..] == data;
  }

  lemma {:induction false} HexTextOfDecoded(t: string)
    requires Decode(t).Some?
    ensures HexText(Decode(t).value) == t
  {
    if t != "" {
      HexTextOfDecoded(t[2..]);
      EscapeOfDigits(t[0], t[1]);
      HexTextCons(DigitOf(t[0]).value * 16 + DigitOf(t[1]).value, Decode(t[2..]).value);
      assert [t[0], t[1]] + t[2..] == t;
    }
  }

  /** Decoding inverts encoding, and accepts nothing but encodings. */
  lemma DecodeExact(t: string, data: Bytes)
    ensures Decode(t) == Some(data) <==> t == HexText(data)
  {
    DecodeHexText(data);
    if Decode(t).Some? {
      HexTextOfDecoded(t);
    }
  }

  lemma {:induction false} HexTextConcat(a: Bytes, b: Bytes)
    ensures HexText(a + b) == HexText(a) + HexText(b)
  {
    if a == [] {
      assert a + b == b;
    } else {
      HexTextConcat(a[1..], b);
      assert (a + b)[1..] == a[1..] + b;
      ConcatIsAssociative(HexEscape(a[0]), HexText(a[1..]), HexText(b));
    }
  }
}
