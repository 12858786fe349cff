/** Centering a string between repeated padding, byte by byte. */
module Center {
  import opened Common
  import opened Utf8
  import opened Chars
  import opened CharIndex
  import opened CharConcat

  /** Byte `i` of `padding` repeated for ever. */
  function CycleAt(padding: Bytes, i: nat): byte
    requires padding != []
  {
    padding[i % |padding|]
  }

  /** `n` bytes of `padding` repeated for ever, starting at offset `at`. */
  function CycleBytes(padding: Bytes, at: nat, n: nat): Bytes {
    if padding == [] then [] else seq<byte>(n, i requires 0 <= i < n => CycleAt(padding, at + i))
  }

  /** A bounded, endlessly restarted iterator over the padding. */
  datatype CycleTake = CycleTake(padding: Bytes, at: nat, left: nat) {
    ghost predicate Valid() { at <= |padding| }

    /** The bytes still to come. */
    ghost function Contents(): Bytes { CycleBytes(padding, at, left) }

    function Next(): (r: (Option<byte>, CycleTake))
      requires Valid()
      ensures r.1.Valid()
      ensures if Contents() == [] then r.0 == None && r.1.Contents() == []
              else r.0 == Some(Contents()[0]) && r.1.Contents() == Contents()[1..]
    {
      if left == 0 then (None, this)
      else if at < |padding| then
        assert CycleAt(padding, at) == padding[at];
        (Some(padding[at]), CycleTake(padding, at + 1, left - 1))
      else if padding == [] then (None, CycleTake(padding, at, left - 1))
      else
        WrapAround(padding, left);
        (Some(padding[0]), CycleTake(padding, 1, left - 1))
    }
  }

  lemma QuotientIsUnique(n: nat, q: int, r: nat, q': int, r': nat)
    requires r < n && r' < n && n * q + r == n * q' + r'
    ensures q == q' && r == r'
  {
    assert q < q' ==> n * q' >= n * (q + 1);
    assert q > q' ==> n * q >= n * (q' + 1);
  }

  lemma ModWraps(i: nat, n: nat)
    requires n > 0
    ensures (n + i) % n == i % n
  {
    assert n * (i / n + 1) == n * (i / n) + n;
    QuotientIsUnique(n, (n + i) / n, (n + i) % n, i / n + 1, i % n);
  }

  /** Running off the end of the padding restarts it. */
  lemma WrapAround(padding: Bytes, n: nat)
    requires padding != [] && n > 0
    ensures CycleBytes(padding, |padding|, n) == [padding[0]] + CycleBytes(padding, 1, n - 1)
  {
    var a, b := CycleBytes(padding, |padding|, n), [padding[0]] + CycleBytes(padding, 1, n - 1);
    forall i | 0 <= i < n
      ensures a[i] == b[i]
    {
      ModWraps(i, |padding|);
      assert a[i] == CycleAt(padding, i);
      assert b[i] == if i == 0 then padding[0] else CycleAt(padding, 1 + (i - 1));
    }
  }

  /** Half the padding width, rounded down. */
  function PrePad(paddingWidth: usize): nat { paddingWidth / 2 }

  /** Half the padding width, rounded up; the sum under the division wraps around at the largest `usize`. */
  function PostPad(paddingWidth: usize): nat { (paddingWidth + 1) % (USIZE_MAX + 1) / 2 }

  class CenterIterator {
    var left: CycleTake
    var next: Option<Bytes>
    const s: CharIterator
    var right: CycleTake

    ghost predicate Valid()
      reads this, s
    {
      && left.Valid() && right.Valid()
      && forall k :: 0 <= k < |s.Remaining()| ==> s.Remaining()[k] != []
    }

    /** The bytes still to come. */
    ghost function Contents(): Bytes
      reads this, s
    {
      left.Contents() + (Middle() + right.Contents())
    }

    ghost function Middle(): Bytes
      reads this, s
    {
      (if next.Some? then next.value else []) + Flatten(s.Remaining())
    }

    constructor (s: CharIterator, paddingWidth: usize, padding: Bytes)
      requires forall k :: 0 <= k < |s.Remaining()| ==> s.Remaining()[k] != []
      ensures Valid() && this.s == s
      ensures Contents() ==
              CycleBytes(padding, 0, PrePad(paddingWidth))
              + (Flatten(s.Remaining()) + CycleBytes(padding, 0, PostPad(paddingWidth)))
    {
      left := CycleTake(padding, 0, PrePad(paddingWidth));
      next := None;
      this.s := s;
      right := CycleTake(padding, 0, PostPad(paddingWidth));
    }

    /** Takes one byte off the pending slice or the next character. */
    method NextMiddle() returns (b: Option<byte>)
      requires Valid()
      modifies this`next, s
      ensures Valid()
      ensures if old(Middle()) == [] then b == None && Middle() == []
              else b == Some(old(Middle())[0]) && Middle() == old(Middle())[1..]
    {
      if next.Some? {
        var pending := next.value;
        HeadOfConcat(pending, Flatten(s.Remaining()));
        next := None;
        if pending != [] {
          next := Some(pending[1..]);
          return Some(pending[0]);
        }
      }
      assert Middle() == Flatten(s.Remaining());
      b := NextPart();
    }

    /** Starts on the next character. */
    method NextPart() returns (b: Option<byte>)
      requires Valid() && next.None?
      modifies this`next, s
      ensures Valid()
      ensures var before := Flatten(old(s.Remaining()));
              if before == [] then b == None && Middle() == []
              else b == Some(before[0]) && Middle() == before[1..]
    {
      ghost var parts := s.Remaining();
      var part := s.Next();
      if part.Some? && part.value != [] {
        HeadOfConcat(part.value, Flatten(parts[1..]));
        if |part.value| > 1 {
          next := Some(part.value[1..]);
        }
        return Some(part.value[0]);
      }
      return None;
    }

    method Next() returns (b: Option<byte>)
      requires Valid()
      modifies this, s
      ensures Valid()
      ensures if old(Contents()) == [] then b == None && Contents() == []
              else b == Some(old(Contents())[0]) && Contents() == old(Contents())[1..]
    {
      HeadOfConcat(left.Contents(), Middle() + right.Contents());
      HeadOfConcat(Middle(), right.Contents());
      var (fromLeft, left') := left.Next();
      left := left';
      if fromLeft.Some? {
        return fromLeft;
      }
      b := NextMiddle();
      if b.Some? {
        return;
      }
      var (fromRight, right') := right.Next();
      right := right';
      return fromRight;
    }

    /** Moves one byte from what remains to the end of `bytes`. */
    method MoveNext(bytes: Bytes) returns (more: Bytes)
      requires Valid()
      modifies this, s
      ensures Valid() && more + Contents() == bytes + old(Contents())
      ensures if old(Contents()) == [] then more == bytes && Contents() == []
              else |more| == |bytes| + 1 && |Contents()| == old(|Contents()|) - 1
    {
      ghost var before := Contents();
      var b := Next();
      if b.None? {
        return bytes;
      }
      MoveHead(bytes, b.value, before, Contents());
      more := bytes + [b.value];
    }

    /** Collects everything that remains. */
    method Collect() returns (bytes: Bytes)
      requires Valid()
      modifies this, s
      ensures Valid() && Contents() == []
      ensures bytes == old(Contents())
    {
      bytes := [];
      ghost var all := Contents();
      while true
        invariant Valid() && bytes + Contents() == all
        decreases |Contents()|
      {
        var more := MoveNext(bytes);
        if |more| == |bytes| {
          return;
        }
        bytes := more;
      }
    }
  }

  /** The centred form of a text in any encoding. */
  function Centred(text: Bytes, paddingWidth: usize, padding: Bytes): Bytes {
    CycleBytes(padding, 0, PrePad(paddingWidth)) + (text + CycleBytes(padding, 0, PostPad(paddingWidth)))
  }

  /** Centers a text: half the padding, rounded down, before it and the rest after it. */
  method CenterText(encoding: Encoding, text: Bytes, paddingWidth: usize, padding: Bytes) returns (bytes: Bytes)
    ensures bytes == Centred(text, paddingWidth, padding)
  {
    var chars := new CharIterator(encoding, text);
    CharsPartition(encoding, text);
    var center := new CenterIterator(chars, paddingWidth, padding);
    bytes := center.Collect();
  }

  lemma PadsAddUp(paddingWidth: usize)
    ensures PrePad(paddingWidth) + PostPad(paddingWidth) <= paddingWidth
    ensures PrePad(paddingWidth) + PostPad(paddingWidth) == paddingWidth <==> paddingWidth < USIZE_MAX
    ensures paddingWidth < USIZE_MAX ==> PostPad(paddingWidth) == PrePad(paddingWidth) + paddingWidth % 2
    ensures paddingWidth == USIZE_MAX ==> PostPad(paddingWidth) == 0 && 2 * PrePad(paddingWidth) == paddingWidth - 1
  {
  }

  /**
   * With non-empty padding, exactly `paddingWidth` bytes are added unless that is the largest
   * `usize`, and each side repeats the padding from its start.
   */
  lemma CentredLength(text: Bytes, paddingWidth: usize, padding: Bytes, i: nat)
    requires padding != []
    ensures |Centred(text, paddingWidth, padding)| == |text| + paddingWidth <==> paddingWidth < USIZE_MAX
    ensures PrePad(paddingWidth) + |text| <= |Centred(text, paddingWidth, padding)|
    ensures Centred(text, paddingWidth, padding)[PrePad(paddingWidth)..PrePad(paddingWidth) + |text|] == text
    ensures i < PrePad(paddingWidth) ==> Centred(text, paddingWidth, padding)[i] == padding[i % |padding|]
    ensures i < PostPad(paddingWidth) ==>
              Centred(text, paddingWidth, padding)[PrePad(paddingWidth) + |text| + i] == padding[i % |padding|]
  {
    PadsAddUp(paddingWidth);
  }

  // ---- Centering to a width ----

  datatype CenterError = ZeroWidthPadding

  const SPACE: byte := 32

  /** `width.saturating_sub(n)` */
  function SaturatingSub(width: usize, n: nat): usize { if width < n then 0 else width - n }

  /** `String::center`: pads by as many bytes as the text has characters too few. */
  method CenterString(encoding: Encoding, text: Bytes, width: usize, padding: Option<Bytes>)
    returns (r: Result<Bytes, CenterError>)
    ensures padding == Some([]) ==> r == Err(ZeroWidthPadding)
    ensures padding == None ==> r == Ok(Centred(text, SaturatingSub(width, |CharsOf(encoding, text)|), [32]))
    ensures padding.Some? && padding.value != [] ==>
              r == Ok(Centred(text, SaturatingSub(width, |CharsOf(encoding, text)|), padding.value))
  {
    var used := [SPACE];
    match padding {
      case None =>
      case Some(p) =>
        if p == [] {
          return Err(ZeroWidthPadding);
        }
        used := p;
    }
    var charLen := StringCharLen(encoding, text);
    var bytes := CenterText(encoding, text, SaturatingSub(width, charLen), used);
    return Ok(bytes);
  }

  /** Every character of the text is one byte long. */
  predicate OneByteEach(s: Bytes) {
    forall k :: 0 <= k < |Segments(s)| ==> |Segments(s)[k]| == 1
  }

  lemma OneByteEachCounts(s: Bytes)
    ensures |Segments(s)| <= |s|
    ensures |Segments(s)| == |s| <==> OneByteEach(s)
  {
    CharsPartition(Utf8Text, s);
    assert CharsOf(Utf8Text, s) == Segments(s);
    FlattenLength(Segments(s));
  }

  /** The parts a centred text is made of keep their characters apart. */
  predicate StayApart(l: Bytes, text: Bytes, r: Bytes) {
    !Completes(text, r) && !Completes(l, text + r)
  }

  /** A text between two runs has as many characters as it and the bytes of the runs together exactly then. */
  lemma CountBetween(l: Bytes, text: Bytes, r: Bytes)
    ensures |Segments(l + (text + r))| <= |l| + |Segments(text)| + |r|
    ensures |Segments(l + (text + r))| == |l| + |Segments(text)| + |r| <==>
              OneByteEach(l) && OneByteEach(r) && StayApart(l, text, r)
  {
    CountConcatExact(l, text + r);
    CountConcatExact(text, r);
    OneByteEachCounts(l);
    OneByteEachCounts(r);
  }

  /**
   * The centred text is `width` characters long, or as long as the text when that is more,
   * exactly when the width still to fill is not the largest `usize` and, in UTF-8, the padding
   * written on either side consists of one-byte characters and no character forms across its
   * borders with the text.
   */
  lemma CentredWidthExact(encoding: Encoding, text: Bytes, width: usize, padding: Bytes)
    requires padding != []
    ensures var n := |CharsOf(encoding, text)|;
            var w := SaturatingSub(width, n);
            var l, r := CycleBytes(padding, 0, PrePad(w)), CycleBytes(padding, 0, PostPad(w));
            && |CharsOf(encoding, Centred(text, w, padding))| <= Max(n, width)
            && (|CharsOf(encoding, Centred(text, w, padding))| == Max(n, width) <==>
                  && w < USIZE_MAX
                  && (encoding.Utf8Text? ==> OneByteEach(l) && OneByteEach(r) && StayApart(l, text, r)))
  {
    var w := SaturatingSub(width, |CharsOf(encoding, text)|);
    PadsAddUp(w);
    CountBetween(CycleBytes(padding, 0, PrePad(w)), text, CycleBytes(padding, 0, PostPad(w)));
  }

  function Max(a: nat, b: nat): nat { if a < b then b else a }

  lemma CycleIsAscii(padding: Bytes, n: nat)
    requires AllAscii(padding)
    ensures AllAscii(CycleBytes(padding, 0, n)) && OneByteEach(CycleBytes(padding, 0, n))
  {
    var run := CycleBytes(padding, 0, n);
    forall i | 0 <= i < |run|
      ensures run[i] < 0x80
    {
      assert run[i] == CycleAt(padding, i) == padding[i % |padding|];
    }
    AsciiText(run);
  }

  /** ASCII padding always reaches the width, even next to undecodable bytes of the text. */
  lemma CentredToWidth(encoding: Encoding, text: Bytes, width: usize, padding: Bytes)
    requires padding != [] && AllAscii(padding)
    ensures var n := |CharsOf(encoding, text)|;
            var w := SaturatingSub(width, n);
            |CharsOf(encoding, Centred(text, w, padding))| == Max(n, width) <==> w < USIZE_MAX
  {
    var w := SaturatingSub(width, |CharsOf(encoding, text)|);
    var l, r := CycleBytes(padding, 0, PrePad(w)), CycleBytes(padding, 0, PostPad(w));
    CycleIsAscii(padding, PrePad(w));
    CycleIsAscii(padding, PostPad(w));
    AsciiCompletesNothing(l, text + r);
    CompletedOnlyByContinuation(text, r);
    CentredWidthExact(encoding, text, width, padding);
  }

  /** Longer characters as padding can miss the width, since padding is counted in bytes. */
  lemma WidePaddingMissesWidth()
    ensures |CharsOf(Utf8Text, Centred([], 4, [0xC3, 0xA9]))| == 2
  {
    var s: Bytes := [0xC3, 0xA9, 0xC3, 0xA9];
    assert Centred([], 4, [0xC3, 0xA9]) == s;
    assert Decode(s).1 == 2 && s[2..] == [0xC3, 0xA9];
    assert Decode(s[2..]).1 == 2 && s[2..][2..] == [];
  }

  lemma {:induction false} FlattenLength(parts: seq<Bytes>)
    requires forall k :: 0 <= k < |parts| ==> parts[k] != []
    ensures |Flatten(parts)| >= |parts|
    ensures |Flatten(parts)| == |parts| <==> forall k :: 0 <= k < |parts| ==> |parts[k]| == 1
  {
    if parts != [] {
      FlattenLength(parts[1..]);
      assert forall k :: 0 < k < |parts| ==> parts[k] == parts[1..][k - 1];
    }
  }

  /**
   * The byte length of the result is the requested width exactly when every character of the
   * text is one byte long and the width still to fill is not the largest `usize`.
   */
  lemma CentredByteLength(encoding: Encoding, text: Bytes, width: usize, padding: Bytes)
    requires padding != [] && width >= |CharsOf(encoding, text)|
    ensures var parts := CharsOf(encoding, text);
            var w := SaturatingSub(width, |parts|);
            && (w < USIZE_MAX ==> |Centred(text, w, padding)| >= width)
            && (|Centred(text, w, padding)| == width <==>
                  w < USIZE_MAX && forall k :: 0 <= k < |parts| ==> |parts[k]| == 1)
  {
    var parts := CharsOf(encoding, text);
    var w := SaturatingSub(width, |parts|);
    CharsPartition(encoding, text);
    FlattenLength(parts);
    PadsAddUp(w);
  }

  /** One two-byte character centred to width three takes four bytes. */
  lemma TwoByteCharacterExceedsWidth()
    ensures var text: Bytes := [0xC3, 0xA9];
            && |CharsOf(Utf8Text, text)| == 1
            && Centred(text, SaturatingSub(3, 1), [SPACE]) == [SPACE, 0xC3, 0xA9, SPACE]
  {
    var text: Bytes := [0xC3, 0xA9];
    assert Decode(text).1 == 2 && text[2..] == [];
  }
}
