/** Encoding-aware iteration over the characters and the codepoints of a byte string. */
module Chars {
  import opened Common
  import opened Utf8

  datatype Encoding = Utf8Text | Ascii | Binary

  /** One slice per byte. */
  function Singles(s: Bytes): seq<Bytes> {
    seq(|s|, i requires 0 <= i < |s| => [s[i]])
  }

  /** What the next decoding step yields: a whole character, or invalid bytes one by one. */
  function FirstSlices(s: Bytes): seq<Bytes> {
    var (ch, size) := Decode(s);
    if ch.Some? then [s[..size]] else Singles(s[..size])
  }

  /** The slices of a conventionally UTF-8 string. */
  function Segments(s: Bytes): seq<Bytes> {
    if s == [] then [] else FirstSlices(s) + Segments(s[Decode(s).1..])
  }

  function CharsOf(encoding: Encoding, s: Bytes): seq<Bytes> {
    if encoding.Utf8Text? then Segments(s) else Singles(s)
  }

  /** The iterator; invalid bytes wait in `invalidBytes` until they have been yielded. */
  class CharIterator {
    const encoding: Encoding
    var bytes: Bytes
    var invalidBytes: Bytes

    /** The slices still to come. */
    ghost function Remaining(): seq<Bytes>
      reads this
    {
      if encoding.Utf8Text? then Singles(invalidBytes) + Segments(bytes) else Singles(bytes)
    }

    constructor (encoding: Encoding, s: Bytes)
      ensures this.encoding == encoding && Remaining() == CharsOf(encoding, s)
    {
      this.encoding := encoding;
      bytes := s;
      invalidBytes := [];
    }

    method NextInvalid() returns (next: Option<Bytes>)
      modifies this`invalidBytes
      ensures old(invalidBytes) == [] ==> next == None && invalidBytes == []
      ensures old(invalidBytes) != [] ==>
                next == Some(old(invalidBytes)[..1]) && invalidBytes == old(invalidBytes)[1..]
    {
      if invalidBytes == [] {
        return None;
      }
      next := Some(invalidBytes[..1]);
      invalidBytes := invalidBytes[1..];
    }

    /** Yields the first remaining slice, or `None` forever once nothing remains. */
    method Next() returns (next: Option<Bytes>)
      modifies this
      ensures if old(Remaining()) == [] then next == None && Remaining() == []
              else next == Some(old(Remaining())[0]) && Remaining() == old(Remaining())[1..]
    {
      if !encoding.Utf8Text? {
        if bytes == [] {
          return None;
        }
        SinglesStep(bytes);
        next := Some(bytes[..1]);
        bytes := bytes[1..];
        return;
      }
      if invalidBytes != [] {
        SinglesStep(invalidBytes);
        ConcatIsAssociative([invalidBytes[..1]], Singles(invalidBytes[1..]), Segments(bytes));
        next := NextInvalid();
        return;
      }
      assert Remaining() == Segments(bytes);
      ghost var later := SplitFirst(bytes);
      next := Decoded();
      assert Remaining() == later;
    }

    /** One decoding step; invalid bytes after the first are kept for later calls. */
    method Decoded() returns (next: Option<Bytes>)
      requires invalidBytes == []
      modifies this
      ensures var (ch, size) := Decode(old(bytes));
              && bytes == old(bytes)[size..]
              && (old(bytes) == [] ==> next == None && invalidBytes == [])
              && (ch.Some? ==> next == Some(old(bytes)[..size]) && invalidBytes == [])
              && (old(bytes) != [] && ch.None? ==>
                    next == Some(old(bytes)[..1]) && invalidBytes == old(bytes)[1..size])
    {
      var (ch, size) := Decode(bytes);
      if ch.Some? {
        next := Some(bytes[..size]);
        bytes := bytes[size..];
      } else {
        invalidBytes := bytes[..size];
        assert size > 0 ==> invalidBytes[..1] == bytes[..1] && invalidBytes[1..] == bytes[1..size];
        bytes := bytes[size..];
        next := NextInvalid();
      }
    }
  }

  /** What remains after the first slice of a text without pending invalid bytes. */
  lemma SplitFirst(s: Bytes) returns (later: seq<Bytes>)
    ensures s == [] ==> later == []
    ensures s != [] && Decode(s).0.Some? ==>
              later == Segments(s[Decode(s).1..]) && Segments(s) == [s[..Decode(s).1]] + later
    ensures s != [] && Decode(s).0.None? ==>
              later == Singles(s[1..Decode(s).1]) + Segments(s[Decode(s).1..]) && Segments(s) == [s[..1]] + later
  {
    later := [];
    if s != [] {
      var (ch, size) := Decode(s);
      var rest := Segments(s[size..]);
      if ch.Some? {
        later := rest;
      } else {
        var bad := s[..size];
        SinglesStep(bad);
        assert bad[..1] == s[..1] && bad[1..] == s[1..size];
        later := Singles(s[1..size]) + rest;
        ConcatIsAssociative([s[..1]], Singles(s[1..size]), rest);
      }
    }
  }

  lemma SinglesStep(s: Bytes)
    requires s != []
    ensures Singles(s) == [s[..1]] + Singles(s[1..])
  {
    assert s[..1] == [s[0]];
    assert |Singles(s)| == |[s[..1]] + Singles(s[1..])|;
    assert forall i :: 0 <= i < |s| ==> Singles(s)[i] == ([s[..1]] + Singles(s[1..]))[i];
  }

  // ---- The slices partition the text ----

  ghost predicate IsCharacter(part: Bytes) {
    exists c: Scalar :: Encode(c) == part
  }

  ghost predicate IsInvalidByte(part: Bytes) {
    |part| == 1 && part[0] >= 0x80
  }

  lemma {:induction false} FlattenConcat(a: seq<Bytes>, b: seq<Bytes>)
    ensures Flatten(a + b) == Flatten(a) + Flatten(b)
  {
    if a == [] {
      assert a + b == b;
    } else {
      FlattenConcat(a[1..], b);
      assert (a + b)[1..] == a[1..] + b;
      ConcatIsAssociative(a[0], Flatten(a[1..]), Flatten(b));
    }
  }

  lemma {:induction false} FlattenSingles(s: Bytes)
    ensures Flatten(Singles(s)) == s
  {
    if s != [] {
      SinglesStep(s);
      FlattenSingles(s[1..]);
    }
  }

  /** An invalid prefix holds no ASCII byte. */
  lemma InvalidBytesAreHigh(s: Bytes, i: nat)
    requires Decode(s).0.None? && i < Decode(s).1
    ensures s[i] >= 0x80
  {
  }

  lemma FlattenFirst(s: Bytes)
    ensures Flatten(FirstSlices(s)) == s[..Decode(s).1]
  {
    var first := s[..Decode(s).1];
    FlattenSingles(first);
    assert Flatten([first]) == first + Flatten([]);
  }

  lemma {:induction false} SegmentsFlatten(s: Bytes)
    ensures Flatten(Segments(s)) == s
  {
    if s != [] {
      var size := Decode(s).1;
      FlattenFirst(s);
      SegmentsFlatten(s[size..]);
      FlattenConcat(FirstSlices(s), Segments(s[size..]));
    }
  }

  lemma {:induction false} SegmentsClassified(s: Bytes, k: nat)
    requires k < |Segments(s)|
    ensures IsCharacter(Segments(s)[k]) || IsInvalidByte(Segments(s)[k])
  {
    var (ch, size) := Decode(s);
    if k >= |FirstSlices(s)| {
      SegmentsClassified(s[size..], k - |FirstSlices(s)|);
    } else if ch.Some? {
      EncodeDecoded(s);
    } else {
      InvalidBytesAreHigh(s, k);
    }
  }

  /**
   * Whatever the encoding, the slices are non-empty and concatenate to the text. In UTF-8
   * each is one well-formed character or one undecodable byte; otherwise each is one byte.
   */
  lemma CharsPartition(encoding: Encoding, s: Bytes)
    ensures Flatten(CharsOf(encoding, s)) == s
    ensures forall k :: 0 <= k < |CharsOf(encoding, s)| ==> CharsOf(encoding, s)[k] != []
    ensures forall k :: 0 <= k < |CharsOf(encoding, s)| ==>
              if encoding.Utf8Text? then IsCharacter(CharsOf(encoding, s)[k]) || IsInvalidByte(CharsOf(encoding, s)[k])
              else |CharsOf(encoding, s)[k]| == 1
  {
    SegmentsFlatten(s);
    FlattenSingles(s);
    if encoding.Utf8Text? {
      forall k | 0 <= k < |Segments(s)|
        ensures IsCharacter(Segments(s)[k]) || IsInvalidByte(Segments(s)[k])
      {
        SegmentsClassified(s, k);
      }
    }
  }

  // ---- Well-formed texts ----

  function EncodeEach(cs: seq<Scalar>): seq<Bytes> {
    seq(|cs|, i requires 0 <= i < |cs| => Encode(cs[i]))
  }

  lemma SegmentsCons(c: Scalar, rest: Bytes)
    ensures Segments(Encode(c) + rest) == [Encode(c)] + Segments(rest)
  {
    var e := Encode(c);
    DecodeEncoded(c, rest);
    assert (e + rest)[..|e|] == e && (e + rest)[|e|..] == rest;
  }

  lemma EncodeEachStep(cs: seq<Scalar>)
    requires cs != []
    ensures EncodeEach(cs) == [Encode(cs[0])] + EncodeEach(cs[1..])
  {
  }

  /** The slices of encoded characters, followed by anything, start with those characters. */
  lemma {:induction false} SegmentsOfEncoded(cs: seq<Scalar>, rest: Bytes)
    ensures Segments(EncodeAll(cs) + rest) == EncodeEach(cs) + Segments(rest)
  {
    if cs == [] {
      assert EncodeAll(cs) + rest == rest;
    } else {
      var tail := EncodeAll(cs[1..]) + rest;
      ConcatIsAssociative(Encode(cs[0]), EncodeAll(cs[1..]), rest);
      SegmentsCons(cs[0], tail);
      SegmentsOfEncoded(cs[1..], rest);
      EncodeEachStep(cs);
      ConcatIsAssociative([Encode(cs[0])], EncodeEach(cs[1..]), Segments(rest));
    }
  }

  lemma SegmentsOfWellFormed(s: Bytes) returns (cs: seq<Scalar>)
    requires WellFormed(s)
    ensures EncodeAll(cs) == s && Segments(s) == EncodeEach(cs)
  {
    cs :| EncodeAll(cs) == s;
    SegmentsOfEncoded(cs, []);
    assert s + [] == s;
  }

  lemma {:induction false} AllCharactersEncode(parts: seq<Bytes>) returns (cs: seq<Scalar>)
    requires AllCharacters(parts)
    ensures EncodeAll(cs) == Flatten(parts)
  {
    cs := [];
    if parts != [] {
      var c: Scalar :| Encode(c) == parts[0];
      var rest := AllCharactersEncode(parts[1..]);
      EncodeAllCons(c, rest);
      cs := [c] + rest;
    }
  }

  ghost predicate AllCharacters(parts: seq<Bytes>) {
    forall k :: 0 <= k < |parts| ==> IsCharacter(parts[k])
  }

  /** A text is well-formed exactly when slicing it meets no undecodable byte. */
  lemma WellFormedIffAllCharacters(s: Bytes)
    ensures WellFormed(s) <==> AllCharacters(Segments(s))
  {
    if WellFormed(s) {
      var cs := SegmentsOfWellFormed(s);
      forall k | 0 <= k < |Segments(s)|
        ensures IsCharacter(Segments(s)[k])
      {
        assert Encode(cs[k]) == Segments(s)[k];
      }
    }
    if AllCharacters(Segments(s)) {
      var cs := AllCharactersEncode(Segments(s));
      SegmentsFlatten(s);
      assert EncodeAll(cs) == s;
    }
  }

  // ---- Codepoints ----

  datatype CodepointsError = InvalidUtf8Codepoint

  /** The codepoints of a string; a UTF-8 string must be valid throughout. */
  function CodepointsOf(encoding: Encoding, s: Bytes): Result<seq<int>, CodepointsError> {
    if encoding.Utf8Text? then
      match DecodeAll(s)
      case Some(cs) => Ok(seq(|cs|, i requires 0 <= i < |cs| => cs[i]))
      case None => Err(InvalidUtf8Codepoint)
    else Ok(seq(|s|, i requires 0 <= i < |s| => s[i]))
  }

  /** In the other encodings every byte is its own codepoint. */
  lemma CodepointsAreBytes(encoding: Encoding, s: Bytes)
    requires !encoding.Utf8Text?
    ensures CodepointsOf(encoding, s).Ok? && |CodepointsOf(encoding, s).value| == |s|
    ensures forall k :: 0 <= k < |s| ==> CodepointsOf(encoding, s).value[k] == s[k]
  {
  }

  /**
   * Codepoints exist exactly when the character iterator meets no undecodable byte, and then
   * they re-encode, one for one, to its slices.
   */
  lemma CodepointsMatchChars(s: Bytes)
    ensures CodepointsOf(Utf8Text, s).Ok? <==> AllCharacters(Segments(s))
    ensures CodepointsOf(Utf8Text, s).Ok? ==>
              var cps := CodepointsOf(Utf8Text, s).value;
              && |cps| == |Segments(s)|
              && forall k :: 0 <= k < |cps| ==>
                   && 0 <= cps[k] <= 0x10FFFF && !(0xD800 <= cps[k] <= 0xDFFF)
                   && Encode(cps[k]) == Segments(s)[k]
  {
    WellFormedIffAllCharacters(s);
    DecodeAllExact(s, []);
    if DecodeAll(s).Some? {
      var cs := SegmentsOfWellFormed(s);
      DecodeAllExact(s, cs);
    }
  }

  class CodepointIterator {
    const encoding: Encoding
    var rest: Bytes

    ghost predicate Valid()
      reads this
    {
      CodepointsOf(encoding, rest).Ok?
    }

    /** The codepoints still to come. */
    ghost function Remaining(): seq<int>
      requires Valid()
      reads this
    {
      CodepointsOf(encoding, rest).value
    }

    constructor (encoding: Encoding, s: Bytes)
      requires CodepointsOf(encoding, s).Ok?
      ensures this.encoding == encoding && rest == s
    {
      this.encoding := encoding;
      rest := s;
    }

    static method TryFrom(encoding: Encoding, s: Bytes) returns (r: Result<CodepointIterator, CodepointsError>)
      ensures r.Ok? <==> CodepointsOf(encoding, s).Ok?
      ensures r.Ok? ==> fresh(r.value) && r.value.Valid() && Ok(r.value.Remaining()) == CodepointsOf(encoding, s)
      ensures r.Err? ==> r.error == InvalidUtf8Codepoint
    {
      if encoding.Utf8Text? && DecodeAll(s).None? {
        return Err(InvalidUtf8Codepoint);
      }
      var iter := new CodepointIterator(encoding, s);
      return Ok(iter);
    }

    method Next() returns (next: Option<int>)
      requires Valid()
      modifies this
      ensures Valid()
      ensures if old(Remaining()) == [] then next == None && Remaining() == []
              else next == Some(old(Remaining())[0]) && Remaining() == old(Remaining())[1..]
    {
      if rest == [] {
        return None;
      }
      if encoding.Utf8Text? {
        var (ch, size) := Decode(rest);
        ghost var tail := DecodeAll(rest[size..]).value;
        next := Some(ch.value);
        rest := rest[size..];
      } else {
        next := Some(rest[0]);
        rest := rest[1..];
      }
    }
  }
}
