/** The debug form of a `Regexp`, produced one character at a time. */
module RegexpDebug {
  import opened Common
  import opened Utf8
  import opened Chars
  import opened StringEscape

  const SLASH: byte := 47

  datatype ByteSequenceTooLongError = ByteSequenceTooLongError

  /** Up to three pending escapes, yielded in order. */
  class InvalidUtf8ByteSequence {
    var one: Option<Bytes>
    var two: Option<Bytes>
    var three: Option<Bytes>

    /** The characters still to come. */
    ghost function Contents(): Bytes
      reads this
    {
      Pending(one) + (Pending(two) + Pending(three))
    }

    constructor (one: Option<Bytes>, two: Option<Bytes>, three: Option<Bytes>)
      ensures this.one == one && this.two == two && this.three == three
    {
      this.one, this.two, this.three := one, two, three;
    }

    static method TryFrom(bytes: Bytes) returns (r: Result<InvalidUtf8ByteSequence, ByteSequenceTooLongError>)
      ensures r.Ok? <==> |bytes| <= 3
      ensures r.Ok? ==> fresh(r.value) && r.value.Contents() == EscapeSlices(Singles(bytes))
    {
      if |bytes| > 3 {
        return Err(ByteSequenceTooLongError);
      }
      var one := if |bytes| > 0 then Some(DebugEscape(bytes[0])) else None;
      var two := if |bytes| > 1 then Some(DebugEscape(bytes[1])) else None;
      var three := if |bytes| > 2 then Some(DebugEscape(bytes[2])) else None;
      var literal := new InvalidUtf8ByteSequence(one, two, three);
      EscapesOfAtMostThree(bytes);
      return Ok(literal);
    }

    method Next() returns (next: Option<byte>)
      modifies this
      ensures if old(Contents()) == [] then next == None && Contents() == []
              else next == Some(old(Contents())[0]) && Contents() == old(Contents())[1..]
    {
      HeadOfConcat(Pending(one), Pending(two) + Pending(three));
      HeadOfConcat(Pending(two), Pending(three));
      if one.Some? && one.value != [] {
        next := Some(one.value[0]);
        one := Some(one.value[1..]);
      } else if two.Some? && two.value != [] {
        next := Some(two.value[0]);
        two := Some(two.value[1..]);
      } else if three.Some? && three.value != [] {
        next := Some(three.value[0]);
        three := Some(three.value[1..]);
      } else {
        next := None;
      }
    }
  }

  function Pending(escape: Option<Bytes>): Bytes {
    if escape.Some? then escape.value else []
  }

  lemma EscapesOfAtMostThree(bytes: Bytes)
    requires |bytes| <= 3
    ensures EscapeSlices(Singles(bytes)) ==
            (if |bytes| > 0 then DebugEscape(bytes[0]) else [])
            + ((if |bytes| > 1 then DebugEscape(bytes[1]) else [])
               + (if |bytes| > 2 then DebugEscape(bytes[2]) else []))
  {
    if |bytes| > 0 {
      SinglesStepEscaped(bytes);
    }
    if |bytes| > 1 {
      SinglesStepEscaped(bytes[1..]);
    }
    if |bytes| > 2 {
      SinglesStepEscaped(bytes[2..]);
    }
  }

  /** How one slice of the pattern is shown: the delimiter escaped, an invalid byte in hex, else as is. */
  function DebugSlice(part: Bytes): seq<int> {
    if part == [SLASH] then [BACKSLASH, SLASH]
    else if |part| == 1 && part[0] >= 0x80 then DebugEscape(part[0])
    else
      match Decode(part).0
      case Some(c) => [c]
      case None => []
  }

  function DebugSlices(parts: seq<Bytes>): seq<int> {
    if parts == [] then [] else DebugSlice(parts[0]) + DebugSlices(parts[1..])
  }

  /** A character is shown as itself, except a slash; an undecodable byte in hexadecimal. */
  lemma DebugSliceForm(part: Bytes, c: Scalar)
    ensures Encode(c) == part ==> DebugSlice(part) == if c == 47 then [92, 47] else [c]
    ensures IsInvalidByte(part) ==>
              |DebugSlice(part)| == 4 && DebugSlice(part)[..2] == [92, 120] && DebugSlice(part) == DebugEscape(part[0])
  {
    if Encode(c) == part {
      DecodeEncoded(c, []);
      assert part + [] == part;
    }
    if IsInvalidByte(part) {
      EscapeForm(part[0]);
    }
  }

  /** The characters of a text with a backslash before every slash. */
  function Shown(cs: seq<Scalar>): seq<int> {
    if cs == [] then [] else (if cs[0] == 47 then [92, 47] else [cs[0]]) + Shown(cs[1..])
  }

  /** The body of a well-formed pattern is its characters with the slashes escaped. */
  lemma {:induction false} BodyOfText(cs: seq<Scalar>)
    ensures DebugBody(EncodeAll(cs)) == Shown(cs)
  {
    if cs != [] {
      var rest := EncodeAll(cs[1..]);
      SegmentsCons(cs[0], rest);
      DebugSliceForm(Encode(cs[0]), cs[0]);
      BodyOfText(cs[1..]);
      assert ([Encode(cs[0])] + Segments(rest))[1..] == Segments(rest);
    }
  }

  /** The escaped body of a pattern, slice by slice. */
  function DebugBody(source: Bytes): seq<int> { DebugSlices(Segments(source)) }

  lemma {:induction false} DebugSlicesOfInvalid(bytes: Bytes, rest: seq<Bytes>)
    requires forall i :: 0 <= i < |bytes| ==> bytes[i] >= 0x80
    ensures DebugSlices(Singles(bytes) + rest) == EscapeSlices(Singles(bytes)) + DebugSlices(rest)
  {
    if bytes == [] {
      assert Singles(bytes) + rest == rest;
    } else {
      var tail := Singles(bytes[1..]);
      SinglesStep(bytes);
      SinglesStepEscaped(bytes);
      DebugSlicesOfInvalid(bytes[1..], rest);
      ConcatIsAssociative([bytes[..1]], tail, rest);
      assert bytes[..1] == [bytes[0]];
      assert DebugSlices([bytes[..1]] + (tail + rest)) == DebugSlice(bytes[..1]) + DebugSlices(tail + rest) by {
        assert ([bytes[..1]] + (tail + rest))[1..] == tail + rest;
      }
      ConcatIsAssociative<int>(DebugEscape(bytes[0]), EscapeSlices(tail), DebugSlices(rest));
    }
  }

  /** What one decoding step adds to the body. */
  function BodyStep(source: Bytes): seq<int> {
    var (ch, size) := Decode(source);
    match ch
    case Some(c) => if c == SLASH as int then [BACKSLASH, SLASH] else [c]
    case None => EscapeSlices(Singles(source[..size]))
  }

  lemma DebugBodyStep(source: Bytes)
    requires source != []
    ensures DebugBody(source) == BodyStep(source) + DebugBody(source[Decode(source).1..])
    ensures BodyStep(source) != []
  {
    var (ch, size) := Decode(source);
    var rest := Segments(source[size..]);
    if ch.Some? {
      var part := source[..size];
      EncodeDecoded(source);
      assert Segments(source) == [part] + rest;
      DecodeEncoded(ch.value, []);
      assert part + [] == part;
      assert DebugSlices([part] + rest) == DebugSlice(part) + DebugSlices(rest);
    } else {
      SinglesStepEscaped(source[..size]);
      forall i | 0 <= i < size
        ensures source[..size][i] >= 0x80
      {
        InvalidBytesAreHigh(source, i);
      }
      DebugSlicesOfInvalid(source[..size], rest);
    }
  }

  /** The characters of a valid string. */
  function StrChars(s: Bytes): seq<int> {
    if DecodeAll(s).Some? then DecodeAll(s).value else []
  }

  lemma StrCharsExact(cs: seq<Scalar>)
    ensures StrChars(EncodeAll(cs)) == cs
  {
    DecodeAllEncoded(cs);
  }

  lemma StrCharsStep(s: Bytes)
    requires WellFormed(s) && s != []
    ensures Decode(s).0.Some? && WellFormed(s[Decode(s).1..])
    ensures StrChars(s) == [Decode(s).0.value] + StrChars(s[Decode(s).1..])
  {
    DecodeAllExact(s, []);
    DecodeAllExact(s[Decode(s).1..], []);
  }

  /** The two bits that say which delimiters are still to be emitted. */
  datatype Delimiters = Delimiters(left: bool, right: bool)

  lemma FirstOfStep(c: int, pending: seq<int>, rest: seq<int>, suffix: seq<int>)
    ensures (([c] + pending) + rest) + suffix == [c] + (pending + (rest + suffix))
  {
  }

  class DebugIterator {
    var delimiters: Delimiters
    var source: Bytes
    var literal: InvalidUtf8ByteSequence
    var options: Bytes
    var encoding: Bytes

    ghost predicate Valid()
      reads this
    {
      WellFormed(options) && WellFormed(encoding)
    }

    /** The characters still to come. */
    ghost function Contents(): seq<int>
      reads this, literal
    {
      if delimiters.left then [SLASH] + AfterLeft() else AfterLeft()
    }

    ghost function AfterLeft(): seq<int>
      reads this, literal
    {
      literal.Contents() + Body()
    }

    ghost function Body(): seq<int>
      reads this
    {
      DebugBody(source) + Suffix()
    }

    ghost function Suffix(): seq<int>
      reads this
    {
      var modifiers := StrChars(options) + StrChars(encoding);
      if delimiters.right then [SLASH] + modifiers else modifiers
    }

    constructor (source: Bytes, options: Bytes, encoding: Bytes)
      requires WellFormed(options) && WellFormed(encoding)
      ensures Valid() && fresh(literal)
      ensures Contents() == [SLASH as int] + (DebugBody(source) + ([SLASH] + (StrChars(options) + StrChars(encoding))))
    {
      delimiters := Delimiters(true, true);
      this.source := source;
      literal := new InvalidUtf8ByteSequence(None, None, None);
      this.options, this.encoding := options, encoding;
      new;
      assert literal.Contents() == [];
      assert AfterLeft() == Body() == DebugBody(source) + Suffix();
    }

    /** Consumes one decoding step of the pattern; what it does not yield becomes pending. */
    method NextBody() returns (next: int)
      requires source != [] && literal.Contents() == []
      modifies this`source, this`literal
      ensures literal == old(literal) || fresh(literal)
      ensures source == old(source)[Decode(old(source)).1..]
      ensures [next] + literal.Contents() == BodyStep(old(source))
    {
      var (ch, size) := Decode(source);
      DebugBodyStep(source);
      match ch {
        case Some(c) =>
          if c == SLASH as int {
            literal := new InvalidUtf8ByteSequence(Some(DebugEscape(SLASH)), None, None);
            next := BACKSLASH;
          } else {
            next := c;
          }
        case None =>
          var sequence := InvalidUtf8ByteSequence.TryFrom(source[..size]);
          literal := sequence.value;
          var first := literal.Next();
          next := first.value;
      }
      source := source[size..];
    }

    /** The same step with what follows the pattern. */
    method NextFromSource() returns (next: int)
      requires source != [] && literal.Contents() == []
      modifies this`source, this`literal
      ensures literal == old(literal) || fresh(literal)
      ensures [next] + AfterLeft() == old(Body())
    {
      DebugBodyStep(source);
      ghost var rest := DebugBody(source[Decode(source).1..]);
      next := NextBody();
      FirstOfStep(next, literal.Contents(), rest, Suffix());
    }

    /** The pattern, then what follows it; nothing is pending before. */
    method NextFromBody() returns (next: Option<int>)
      requires Valid() && literal.Contents() == []
      modifies this`source, this`literal, this`delimiters, this`options, this`encoding
      ensures Valid() && (literal == old(literal) || fresh(literal))
      ensures delimiters.left == old(delimiters.left)
      ensures if old(Body()) == [] then next == None && AfterLeft() == []
              else next == Some(old(Body())[0]) && AfterLeft() == old(Body())[1..]
    {
      if source != [] {
        var c := NextFromSource();
        HeadOfConcat([c], AfterLeft());
        assert ([c] + AfterLeft())[1..] == AfterLeft();
        return Some(c);
      }
      assert DebugBody(source) == [];
      next := NextSuffix();
      assert AfterLeft() == Suffix();
    }

    /** Pending escapes first, then the pattern, then what follows it. */
    method NextAfterLeft() returns (next: Option<int>)
      requires Valid()
      modifies this`source, this`literal, literal, this`delimiters, this`options, this`encoding
      ensures Valid() && (literal == old(literal) || fresh(literal))
      ensures delimiters.left == old(delimiters.left)
      ensures if old(AfterLeft()) == [] then next == None && AfterLeft() == []
              else next == Some(old(AfterLeft())[0]) && AfterLeft() == old(AfterLeft())[1..]
    {
      HeadOfConcat<int>(literal.Contents(), Body());
      var pending := literal.Next();
      if pending.Some? {
        return Some(pending.value);
      }
      next := NextFromBody();
    }

    /** Yields the next character, or `None` for ever once nothing remains. */
    method Next() returns (next: Option<int>)
      requires Valid()
      modifies this, literal
      ensures Valid() && (literal == old(literal) || fresh(literal))
      ensures if old(Contents()) == [] then next == None && Contents() == []
              else next == Some(old(Contents())[0]) && Contents() == old(Contents())[1..]
    {
      if delimiters.left {
        delimiters := delimiters.(left := false);
        return Some(SLASH);
      }
      next := NextAfterLeft();
    }

    /** The right delimiter, then the options, then the encoding. */
    method NextSuffix() returns (next: Option<int>)
      requires Valid()
      modifies this`delimiters, this`options, this`encoding
      ensures Valid() && delimiters.left == old(delimiters.left)
      ensures if old(Suffix()) == [] then next == None && Suffix() == []
              else next == Some(old(Suffix())[0]) && Suffix() == old(Suffix())[1..]
    {
      if delimiters.right {
        delimiters := delimiters.(right := false);
        return Some(SLASH);
      }
      HeadOfConcat(StrChars(options), StrChars(encoding));
      var (ch, size) := Decode(options);
      if ch.Some? {
        StrCharsStep(options);
        options := options[size..];
        return Some(ch.value);
      }
      assert options == [] by {
        if options != [] {
          StrCharsStep(options);
        }
      }
      var (ch', size') := Decode(encoding);
      if ch'.Some? {
        StrCharsStep(encoding);
        encoding := encoding[size'..];
        return Some(ch'.value);
      }
      assert encoding == [] by {
        if encoding != [] {
          StrCharsStep(encoding);
        }
      }
      return None;
    }

    /** Moves one character from what remains to the end of `chars`. */
    method MoveNext(chars: seq<int>) returns (more: seq<int>)
      requires Valid()
      modifies this, literal
      ensures Valid() && (literal == old(literal) || fresh(literal))
      ensures more + Contents() == chars + old(Contents())
      ensures if old(Contents()) == [] then more == chars && Contents() == []
              else |more| == |chars| + 1 && |Contents()| == old(|Contents()|) - 1
    {
      ghost var before := Contents();
      var c := Next();
      if c.None? {
        return chars;
      }
      MoveHead(chars, c.value, before, Contents());
      more := chars + [c.value];
    }

    /** Collects everything that remains. */
    method Collect() returns (chars: seq<int>)
      requires Valid()
      modifies this, literal
      ensures Valid() && Contents() == []
      ensures chars == old(Contents())
    {
      chars := [];
      ghost var all := Contents();
      while true
        invariant Valid() && (literal == old(literal) || fresh(literal))
        invariant chars + Contents() == all
        decreases |Contents()|
      {
        var more := MoveNext(chars);
        if |more| == |chars| {
          return;
        }
        chars := more;
      }
    }
  }

  /** Draining a new iterator gives slash, escaped body, slash, options and encoding. */
  method DebugRegexp(source: Bytes, options: Bytes, encoding: Bytes) returns (chars: seq<int>)
    requires WellFormed(options) && WellFormed(encoding)
    ensures chars == [47] + (DebugBody(source) + ([47] + (StrChars(options) + StrChars(encoding))))
  {
    var debug := new DebugIterator(source, options, encoding);
    chars := debug.Collect();
  }

  /** No slash of the body can be taken for the closing delimiter: each follows a backslash the body adds. */
  lemma {:induction false} SlashesAreEscaped(parts: seq<Bytes>, i: nat)
    requires AreSlices(parts) && i < |DebugSlices(parts)| && DebugSlices(parts)[i] == SLASH as int
    ensures i > 0 && DebugSlices(parts)[i - 1] == BACKSLASH as int
  {
    var first := DebugSlice(parts[0]);
    if i >= |first| {
      SlashesAreEscaped(parts[1..], i - |first|);
    } else {
      SlashInSlice(parts[0], i);
    }
  }

  lemma SlashInSlice(part: Bytes, i: nat)
    requires IsCharacter(part) || IsInvalidByte(part)
    requires i < |DebugSlice(part)| && DebugSlice(part)[i] == SLASH as int
    ensures i == 1 && DebugSlice(part)[0] == BACKSLASH as int
  {
    if IsCharacter(part) {
      var c: Scalar :| Encode(c) == part;
      DecodeEncoded(c, []);
      assert part + [] == part;
      assert c != SLASH as int ==> DebugSlice(part) == [c] || |part| == 1;
    }
  }
}
