/** Ruby debug escaping of byte strings, and the unescaper that undoes it. */
module StringEscape {
  import opened Common
  import opened Utf8
  import opened Chars

  const QUOTE: byte := 34
  const BACKSLASH: byte := 92
  const LOWER_X: byte := 120

  function UpperHexDigit(d: nat): byte
    requires d < 16
  {
    if d < 10 then 48 + d else 55 + d
  }

  /** The letter of the C-style escape of a byte, when it has one. */
  function ShortEscape(b: byte): Option<byte> {
    if b == 7 then Some(97)        // a
    else if b == 8 then Some(98)   // b
    else if b == 9 then Some(116)  // t
    else if b == 10 then Some(110) // n
    else if b == 11 then Some(118) // v
    else if b == 12 then Some(102) // f
    else if b == 13 then Some(114) // r
    else if b == 27 then Some(101) // e
    else if b == QUOTE || b == BACKSLASH then Some(b)
    else None
  }

  /** `Literal::debug_escape`: short escape, printable ASCII as is, upper-case hex otherwise. */
  function DebugEscape(b: byte): (e: Bytes)
    ensures 1 <= |e| <= 4
    ensures |e| == 1 <==> e == [b]
    ensures b >= 0x80 ==> |e| == 4
  {
    match ShortEscape(b)
    case Some(letter) => [BACKSLASH, letter]
    case None =>
      if 32 <= b < 127 then [b] else [BACKSLASH, LOWER_X, UpperHexDigit(b / 16), UpperHexDigit(b % 16)]
  }

  /** Printable ASCII other than the quote and the backslash stays as it is. */
  predicate IsPlainByte(b: byte) { 32 <= b < 127 && b != 34 && b != 92 }

  /** Which form the escape of each byte takes; the letters and digits in it are those that unescaping reads back. */
  lemma EscapeForm(b: byte)
    ensures DebugEscape(b) == [b] <==> IsPlainByte(b)
    ensures |DebugEscape(b)| == 2 <==> 7 <= b <= 13 || b == 27 || b == 34 || b == 92
    ensures |DebugEscape(b)| == 4 <==> b <= 6 || 14 <= b <= 26 || 28 <= b <= 31 || b >= 127
    ensures |DebugEscape(b)| == 2 ==> DebugEscape(b)[0] == 92
    ensures |DebugEscape(b)| == 4 ==> DebugEscape(b)[..2] == [92, 120]
  {
  }

  /** The escape of an ASCII character, when it is more than the character itself. */
  function AsciiCharWithEscape(c: Scalar): Option<Bytes> {
    if c >= 128 then None
    else
      var escape := DebugEscape(c);
      if |escape| > 1 then Some(escape) else None
  }

  /** A single byte is escaped, a longer character is kept. */
  function EscapeSlice(part: Bytes): Bytes {
    if |part| == 1 then DebugEscape(part[0]) else part
  }

  function EscapeSlices(parts: seq<Bytes>): Bytes {
    if parts == [] then [] else EscapeSlice(parts[0]) + EscapeSlices(parts[1..])
  }

  /** The escaped form: slice the text into characters and escape slice by slice. */
  function Escaped(s: Bytes): Bytes { EscapeSlices(Segments(s)) }

  // ---- Writing ----

  /** A destination that can fail at any write, having taken only a part of it. */
  class Writer {
    var written: Bytes
    /** How much of a piece the destination takes, given what it holds. */
    const takes: (Bytes, Bytes) -> nat

    constructor (takes: (Bytes, Bytes) -> nat)
      ensures written == [] && this.takes == takes
    {
      written := [];
      this.takes := takes;
    }

    method WriteStr(s: Bytes) returns (ok: bool)
      modifies this
      ensures (written, ok) == WriteAll(takes, old(written), [s])
    {
      var n := Taken(takes, written, s);
      ok := n == |s|;
      written := written + s[..n];
      assert s[..|s|] == s;
    }
  }

  function Taken(takes: (Bytes, Bytes) -> nat, held: Bytes, piece: Bytes): (n: nat)
    ensures n <= |piece|
  {
    if takes(held, piece) < |piece| then takes(held, piece) else |piece|
  }

  /** Writes pieces in order until one is not taken whole. */
  function WriteAll(takes: (Bytes, Bytes) -> nat, held: Bytes, pieces: seq<Bytes>): (Bytes, bool)
    decreases |pieces|
  {
    if pieces == [] then (held, true)
    else
      var n := Taken(takes, held, pieces[0]);
      if n == |pieces[0]| then WriteAll(takes, held + pieces[0], pieces[1..]) else (held + pieces[0][..n], false)
  }

  lemma {:induction false} WriteAllConcat(takes: (Bytes, Bytes) -> nat, held: Bytes, a: seq<Bytes>, b: seq<Bytes>)
    ensures WriteAll(takes, held, a + b) ==
            if WriteAll(takes, held, a).1 then WriteAll(takes, WriteAll(takes, held, a).0, b)
            else WriteAll(takes, held, a)
    decreases |a|
  {
    if a == [] {
      assert a + b == b;
    } else {
      assert (a + b)[1..] == a[1..] + b;
      WriteAllConcat(takes, held + a[0], a[1..], b);
    }
  }

  /** Success writes everything, failure a prefix; success means that every piece is taken whole. */
  lemma {:induction false} WriteAllExact(takes: (Bytes, Bytes) -> nat, held: Bytes, pieces: seq<Bytes>)
    ensures held <= WriteAll(takes, held, pieces).0 <= held + Flatten(pieces)
    ensures WriteAll(takes, held, pieces).1 ==> WriteAll(takes, held, pieces).0 == held + Flatten(pieces)
    ensures WriteAll(takes, held, pieces).1 <==>
              forall k :: 0 <= k < |pieces| ==> takes(held + Flatten(pieces[..k]), pieces[k]) >= |pieces[k]|
    decreases |pieces|
  {
    if pieces != [] {
      var first, rest := pieces[0], pieces[1..];
      ConcatIsAssociative(held, first, Flatten(rest));
      WriteAllExact(takes, held + first, rest);
      assert held + Flatten(pieces[..0]) == held;
      forall k | 0 <= k < |rest|
        ensures held + Flatten(pieces[..k + 1]) == (held + first) + Flatten(rest[..k])
      {
        assert pieces[..k + 1][1..] == rest[..k];
        ConcatIsAssociative(held, first, Flatten(rest[..k]));
      }
      assert forall k :: 0 < k < |pieces| ==> pieces[k] == rest[k - 1];
    }
  }

  /** The escapes of slices, one piece each. */
  function Pieces(parts: seq<Bytes>): seq<Bytes> {
    seq(|parts|, i requires 0 <= i < |parts| => EscapeSlice(parts[i]))
  }

  lemma {:induction false} FlattenPieces(parts: seq<Bytes>)
    ensures Flatten(Pieces(parts)) == EscapeSlices(parts)
  {
    if parts != [] {
      FlattenPieces(parts[1..]);
      assert Pieces(parts)[1..] == Pieces(parts[1..]);
    }
  }

  lemma PiecesConcat(a: seq<Bytes>, b: seq<Bytes>)
    ensures Pieces(a + b) == Pieces(a) + Pieces(b)
  {
  }

  /** Writes the escaped form of one whole character. */
  method WriteCharacter(dest: Writer, ch: Scalar) returns (ok: bool)
    modifies dest
    ensures (dest.written, ok) == WriteAll(dest.takes, old(dest.written), Pieces([Encode(ch)]))
  {
    assert Pieces([Encode(ch)]) == [EscapeSlice(Encode(ch))];
    match AsciiCharWithEscape(ch) {
      case Some(escaped) => ok := dest.WriteStr(escaped);
      case None => ok := dest.WriteStr(Encode(ch));
    }
  }

  lemma SinglesStepEscaped(bytes: Bytes)
    requires bytes != []
    ensures EscapeSlices(Singles(bytes)) == DebugEscape(bytes[0]) + EscapeSlices(Singles(bytes[1..]))
  {
    SinglesStep(bytes);
    assert bytes[..1] == [bytes[0]];
  }

  lemma PiecesOfByte(bytes: Bytes, i: nat)
    requires i < |bytes|
    ensures Pieces(Singles(bytes[i..])) == [DebugEscape(bytes[i])] + Pieces(Singles(bytes[i + 1..]))
  {
    SinglesStep(bytes[i..]);
    assert bytes[i..][1..] == bytes[i + 1..] && bytes[i..][..1] == [bytes[i]];
    PiecesConcat([[bytes[i]]], Singles(bytes[i + 1..]));
    assert Pieces([[bytes[i]]]) == [DebugEscape(bytes[i])];
  }

  /** Writes the escapes of invalid bytes one by one. */
  method WriteInvalid(dest: Writer, bytes: Bytes) returns (ok: bool)
    modifies dest
    ensures (dest.written, ok) == WriteAll(dest.takes, old(dest.written), Pieces(Singles(bytes)))
  {
    var i := 0;
    ghost var outcome := WriteAll(dest.takes, dest.written, Pieces(Singles(bytes)));
    assert bytes[0..] == bytes;
    while i < |bytes|
      invariant 0 <= i <= |bytes|
      invariant WriteAll(dest.takes, dest.written, Pieces(Singles(bytes[i..]))) == outcome
    {
      var escaped := DebugEscape(bytes[i]);
      PiecesOfByte(bytes, i);
      WriteAllConcat(dest.takes, dest.written, [escaped], Pieces(Singles(bytes[i + 1..])));
      ok := dest.WriteStr(escaped);
      if !ok {
        return;
      }
      i := i + 1;
    }
    return true;
  }

  /** Writes what the next decoding step yields. */
  method WriteNext(dest: Writer, message: Bytes) returns (ok: bool, size: nat)
    modifies dest
    ensures size == Decode(message).1
    ensures (dest.written, ok) == WriteAll(dest.takes, old(dest.written), Pieces(FirstSlices(message)))
  {
    var (ch, n) := Decode(message);
    size := n;
    if ch.Some? {
      EncodeDecoded(message);
      ok := WriteCharacter(dest, ch.value);
    } else {
      ok := WriteInvalid(dest, message[..size]);
    }
  }

  lemma PiecesStep(s: Bytes)
    requires s != []
    ensures Pieces(Segments(s)) == Pieces(FirstSlices(s)) + Pieces(Segments(s[Decode(s).1..]))
  {
    PiecesConcat(FirstSlices(s), Segments(s[Decode(s).1..]));
  }

  /**
   * Writes the escaped message piece by piece, one piece for each character or undecodable
   * byte, and stops at the first piece the destination does not take whole.
   */
  method FormatDebugEscapeInto(dest: Writer, text: Bytes) returns (ok: bool)
    modifies dest
    ensures (dest.written, ok) == WriteAll(dest.takes, old(dest.written), Pieces(Segments(text)))
    ensures ok ==> dest.written == old(dest.written) + Escaped(text)
    ensures old(dest.written) <= dest.written <= old(dest.written) + Escaped(text)
  {
    var message := text;
    ghost var outcome := WriteAll(dest.takes, dest.written, Pieces(Segments(text)));
    WriteAllExact(dest.takes, dest.written, Pieces(Segments(text)));
    FlattenPieces(Segments(text));
    while message != []
      invariant WriteAll(dest.takes, dest.written, Pieces(Segments(message))) == outcome
      decreases |message|
    {
      PiecesStep(message);
      WriteAllConcat(
        dest.takes, dest.written, Pieces(FirstSlices(message)), Pieces(Segments(message[Decode(message).1..])));
      var size;
      ok, size := WriteNext(dest, message);
      if !ok {
        return;
      }
      message := message[size..];
    }
    return true;
  }

  // ---- Unescaping ----

  function HexValue(b: byte): nat {
    if 48 <= b <= 57 then b - 48
    else if 65 <= b <= 70 then b - 55
    else 0
  }

  /** The byte a short escape letter stands for. */
  function ShortUnescape(letter: byte): byte {
    if letter == 97 then 7
    else if letter == 98 then 8
    else if letter == 116 then 9
    else if letter == 110 then 10
    else if letter == 118 then 11
    else if letter == 102 then 12
    else if letter == 114 then 13
    else if letter == 101 then 27
    else letter
  }

  function Unescape(t: Bytes): Bytes {
    if t == [] then []
    else if t[0] != BACKSLASH then [t[0]] + Unescape(t[1..])
    else if |t| >= 4 && t[1] == LOWER_X then [(HexValue(t[2]) * 16 + HexValue(t[3])) % 256] + Unescape(t[4..])
    else if |t| >= 2 then [ShortUnescape(t[1])] + Unescape(t[2..])
    else []
  }

  lemma HexValues(b: byte)
    ensures HexValue(UpperHexDigit(b / 16)) * 16 + HexValue(UpperHexDigit(b % 16)) == b
  {
  }

  lemma UnescapePlain(b: byte, t: Bytes)
    requires b != BACKSLASH
    ensures Unescape([b] + t) == [b] + Unescape(t)
  {
    assert ([b] + t)[1..] == t;
  }

  lemma UnescapeShort(letter: byte, t: Bytes)
    requires letter != LOWER_X
    ensures Unescape([BACKSLASH, letter] + t) == [ShortUnescape(letter)] + Unescape(t)
  {
    var u := [BACKSLASH, letter] + t;
    assert u[1] == letter && u[2..] == t;
  }

  lemma UnescapeHex(h: byte, l: byte, t: Bytes)
    ensures Unescape([BACKSLASH, LOWER_X, h, l] + t) == [(HexValue(h) * 16 + HexValue(l)) % 256] + Unescape(t)
  {
    var u := [BACKSLASH, LOWER_X, h, l] + t;
    assert u[1] == LOWER_X && u[2] == h && u[3] == l && u[4..] == t;
  }

  lemma ShortEscapeReadsBack(b: byte)
    requires ShortEscape(b).Some?
    ensures ShortEscape(b).value != LOWER_X && ShortUnescape(ShortEscape(b).value) == b
  {
  }

  lemma UnescapeByte(b: byte, t: Bytes)
    ensures Unescape(DebugEscape(b) + t) == [b] + Unescape(t)
  {
    if ShortEscape(b).Some? {
      ShortEscapeReadsBack(b);
      UnescapeShort(ShortEscape(b).value, t);
    } else if 32 <= b < 127 {
      UnescapePlain(b, t);
    } else {
      HexValues(b);
      UnescapeHex(UpperHexDigit(b / 16), UpperHexDigit(b % 16), t);
    }
  }

  lemma {:induction false} UnescapeHigh(s: Bytes, t: Bytes)
    requires forall i :: 0 <= i < |s| ==> s[i] >= 0x80
    ensures Unescape(s + t) == s + Unescape(t)
  {
    if s == [] {
      assert s + t == t;
    } else {
      UnescapeHigh(s[1..], t);
      assert (s + t)[1..] == s[1..] + t;
      ConcatIsAssociative([s[0]], s[1..], Unescape(t));
      assert [s[0]] + s[1..] == s;
    }
  }

  /** Slices as the character iterator yields them. */
  ghost predicate AreSlices(parts: seq<Bytes>) {
    forall k :: 0 <= k < |parts| ==> IsCharacter(parts[k]) || IsInvalidByte(parts[k])
  }

  lemma SegmentsAreSlices(s: Bytes)
    ensures AreSlices(Segments(s))
  {
    CharsPartition(Utf8Text, s);
    assert CharsOf(Utf8Text, s) == Segments(s);
  }

  lemma UnescapeSlice(part: Bytes, t: Bytes)
    requires IsCharacter(part) || IsInvalidByte(part)
    ensures Unescape(EscapeSlice(part) + t) == part + Unescape(t)
  {
    if |part| == 1 {
      UnescapeByte(part[0], t);
      assert part == [part[0]];
    } else {
      UnescapeHigh(part, t);
    }
  }

  lemma {:induction false} UnescapeSlices(parts: seq<Bytes>)
    requires AreSlices(parts)
    ensures Unescape(EscapeSlices(parts)) == Flatten(parts)
  {
    if parts != [] {
      UnescapeSlice(parts[0], EscapeSlices(parts[1..]));
      UnescapeSlices(parts[1..]);
    }
  }

  /** Unescaping recovers every byte string from its escaped form. */
  lemma UnescapeEscaped(s: Bytes)
    ensures Unescape(Escaped(s)) == s
  {
    SegmentsAreSlices(s);
    UnescapeSlices(Segments(s));
    SegmentsFlatten(s);
  }

  lemma EscapedIsInjective(s: Bytes, t: Bytes)
    requires Escaped(s) == Escaped(t)
    ensures s == t
  {
    UnescapeEscaped(s);
    UnescapeEscaped(t);
  }

  // ---- What is left alone ----

  predicate IsPlainSlice(part: Bytes) { |part| > 1 || (|part| == 1 && IsPlainByte(part[0])) }

  lemma {:induction false} SlicesLeftAlone(parts: seq<Bytes>)
    requires AreSlices(parts)
    ensures |EscapeSlices(parts)| >= |Flatten(parts)|
    ensures EscapeSlices(parts) == Flatten(parts) <==> forall k :: 0 <= k < |parts| ==> IsPlainSlice(parts[k])
    ensures EscapeSlices(parts) != Flatten(parts) ==> |EscapeSlices(parts)| > |Flatten(parts)|
  {
    if parts != [] {
      var first, rest := parts[0], parts[1..];
      SliceLeftAlone(first);
      SlicesLeftAlone(rest);
      assert forall k :: 0 < k < |parts| ==> parts[k] == rest[k - 1];
    }
  }

  lemma SliceLeftAlone(part: Bytes)
    requires IsCharacter(part) || IsInvalidByte(part)
    ensures part != []
    ensures if IsPlainSlice(part) then EscapeSlice(part) == part else |EscapeSlice(part)| > |part|
  {
    if |part| == 1 {
      EscapeForm(part[0]);
    }
  }

  /** A text is its own escaped form exactly when it consists of characters of several bytes and plain bytes. */
  lemma EscapedLeavesAlone(s: Bytes)
    ensures Escaped(s) == s <==> forall k :: 0 <= k < |Segments(s)| ==> IsPlainSlice(Segments(s)[k])
  {
    SegmentsAreSlices(s);
    SegmentsFlatten(s);
    SlicesLeftAlone(Segments(s));
  }

  // ---- Shape of the output ----

  /** No byte of the text is an ASCII control byte. */
  predicate NoControlBytes(t: Bytes) {
    forall i :: 0 <= i < |t| ==> 32 <= t[i] && t[i] != 127
  }

  /** Every quote is preceded by a backslash that is not itself escaped. */
  predicate NoBareQuote(t: Bytes) {
    if t == [] then true
    else if t[0] == BACKSLASH then |t| >= 2 && NoBareQuote(t[2..])
    else t[0] != QUOTE && NoBareQuote(t[1..])
  }

  lemma {:induction false} PlainThenNoBareQuote(s: Bytes, t: Bytes)
    requires forall i :: 0 <= i < |s| ==> s[i] != QUOTE && s[i] != BACKSLASH
    ensures NoBareQuote(s + t) == NoBareQuote(t)
  {
    if s == [] {
      assert s + t == t;
    } else {
      PlainThenNoBareQuote(s[1..], t);
      assert (s + t)[1..] == s[1..] + t;
    }
  }

  lemma SliceThenNoBareQuote(part: Bytes, t: Bytes)
    requires IsCharacter(part) || IsInvalidByte(part)
    ensures NoBareQuote(EscapeSlice(part) + t) == NoBareQuote(t)
  {
    var e := EscapeSlice(part);
    var u := e + t;
    if |part| > 1 || |e| == 1 {
      PlainThenNoBareQuote(e, t);
    } else {
      assert u[0] == BACKSLASH && u[2..] == e[2..] + t;
      PlainThenNoBareQuote(e[2..], t);
    }
  }

  function AsScalars(s: Bytes): seq<Scalar>
    requires forall i :: 0 <= i < |s| ==> s[i] < 128
  {
    seq(|s|, i requires 0 <= i < |s| => s[i])
  }

  lemma {:induction false} AsciiIsWellFormed(s: Bytes)
    requires forall i :: 0 <= i < |s| ==> s[i] < 128
    ensures EncodeAll(AsScalars(s)) == s && WellFormed(s)
  {
    if s != [] {
      AsciiIsWellFormed(s[1..]);
      assert AsScalars(s) == [s[0]] + AsScalars(s[1..]);
      EncodeAllCons(s[0], AsScalars(s[1..]));
    }
  }

  lemma CharacterIsWellFormed(part: Bytes)
    requires IsCharacter(part)
    ensures WellFormed(part)
  {
    var c: Scalar :| Encode(c) == part;
    EncodeAllCons(c, []);
    assert EncodeAll([c] + []) == part;
  }

  lemma EscapeIsPrintable(b: byte)
    ensures forall i :: 0 <= i < |DebugEscape(b)| ==> 32 <= DebugEscape(b)[i] < 127
  {
  }

  lemma EscapedSliceShape(part: Bytes)
    requires IsCharacter(part) || IsInvalidByte(part)
    ensures WellFormed(EscapeSlice(part)) && NoControlBytes(EscapeSlice(part))
  {
    if |part| == 1 {
      EscapeIsPrintable(part[0]);
      AsciiIsWellFormed(DebugEscape(part[0]));
    } else {
      CharacterIsWellFormed(part);
      var c: Scalar :| Encode(c) == part;
      assert forall i :: 0 <= i < |part| ==> part[i] >= 0x80;
    }
  }

  lemma {:induction false} EscapedSlicesShape(parts: seq<Bytes>)
    requires AreSlices(parts)
    ensures WellFormed(EscapeSlices(parts)) && NoControlBytes(EscapeSlices(parts)) && NoBareQuote(EscapeSlices(parts))
  {
    if parts == [] {
      AsciiIsWellFormed([]);
    } else {
      EscapedSliceShape(parts[0]);
      EscapedSlicesShape(parts[1..]);
      WellFormedConcat(EscapeSlice(parts[0]), EscapeSlices(parts[1..]));
      SliceThenNoBareQuote(parts[0], EscapeSlices(parts[1..]));
    }
  }

  /** The output is well-formed UTF-8 without control bytes or unescaped quotes, whatever the input. */
  lemma EscapedShape(s: Bytes)
    ensures WellFormed(Escaped(s)) && NoControlBytes(Escaped(s)) && NoBareQuote(Escaped(s))
  {
    SegmentsAreSlices(s);
    EscapedSlicesShape(Segments(s));
  }
}
