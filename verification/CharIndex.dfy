/**
 * Counting and indexing characters without building them. Each fast form is proved to agree
 * with the slices the character iterator yields.
 */
module CharIndex {
  import opened Common
  import opened Utf8
  import opened Chars

  /** The most bytes a Rust slice can hold. */
  const ISIZE_MAX := 0x7FFF_FFFF_FFFF_FFFF

  predicate AllAscii(s: Bytes) {
    forall i :: 0 <= i < |s| ==> s[i] < 0x80
  }

  /** `find_non_ascii_byte` */
  function FirstNonAscii(s: Bytes): (at: Option<nat>)
    ensures at.None? ==> AllAscii(s)
    ensures at.Some? ==> at.value < |s| && s[at.value] >= 0x80 && AllAscii(s[..at.value])
  {
    if s == [] then None
    else if s[0] >= 0x80 then Some(0)
    else
      match FirstNonAscii(s[1..])
      case None => None
      case Some(k) => Some(k + 1)
  }

  // ---- Slices of a text, seen from an offset ----

  /** Every byte of an ASCII prefix is a character of its own. */
  lemma {:induction false} AsciiPrefix(s: Bytes, k: nat)
    requires k <= |s| && AllAscii(s[..k])
    ensures Segments(s) == Singles(s[..k]) + Segments(s[k..])
  {
    if k > 0 {
      assert s[..k][0] == s[0] && s[..k][1..] == s[1..][..k - 1] && s[1..][k - 1..] == s[k..];
      AsciiPrefix(s[1..], k - 1);
      SinglesStep(s[..k]);
      assert s[..k][..1] == s[..1];
      ConcatIsAssociative([s[..1]], Singles(s[1..][..k - 1]), Segments(s[k..]));
    }
  }

  lemma AsciiText(s: Bytes)
    requires AllAscii(s)
    ensures Segments(s) == Singles(s)
  {
    assert s[..|s|] == s && s[|s|..] == [];
    AsciiPrefix(s, |s|);
  }

  /** The tail of an invalid prefix is made of continuation bytes, which start no character. */
  lemma InvalidTail(s: Bytes, i: nat)
    requires Decode(s).0.None? && 1 <= i < Decode(s).1
    ensures IsContinuation(s[i]) && Decode(s[i..]) == (None, 1)
  {
  }

  lemma ByteOfSlice(s: Bytes, i: nat, size: nat)
    requires i < size <= |s|
    ensures s[i..][1..] == s[i + 1..] && s[i..][..1] == s[i..size][..1] && s[i..size][1..] == s[i + 1..size]
  {
  }

  /** A byte that starts no character is a slice of its own before slices that are bytes. */
  lemma LoneByteThen(s: Bytes, i: nat, size: nat)
    requires i < size <= |s| && Decode(s[i..]) == (None, 1)
    requires Segments(s[i + 1..]) == Singles(s[i + 1..size]) + Segments(s[size..])
    ensures Segments(s[i..]) == Singles(s[i..size]) + Segments(s[size..])
  {
    ByteOfSlice(s, i, size);
    SinglesStep(s[i..size]);
    SinglesOfOne(s[i..][..1]);
    ConcatIsAssociative([s[i..][..1]], Singles(s[i + 1..size]), Segments(s[size..]));
  }

  /** Slicing can resume inside an invalid prefix: what remains of it is still yielded byte by byte. */
  lemma {:induction false} ResumeInsideInvalid(s: Bytes, i: nat)
    requires Decode(s).0.None? && i <= Decode(s).1
    ensures Segments(s[i..]) == Singles(s[i..Decode(s).1]) + Segments(s[Decode(s).1..])
    decreases Decode(s).1 - i
  {
    var size := Decode(s).1;
    if i == size {
      assert s[i..size] == [];
    } else if i == 0 {
      assert s[0..] == s && s[0..size] == s[..size];
    } else {
      InvalidTail(s, i);
      ResumeInsideInvalid(s, i + 1);
      LoneByteThen(s, i, size);
    }
  }

  lemma SinglesOfOne(part: Bytes)
    requires |part| == 1
    ensures Singles(part) == [part]
  {
    assert [part[0]] == part;
  }

  lemma {:induction false} FlattenSinglesPrefix(s: Bytes, k: nat)
    requires k <= |s|
    ensures Flatten(Singles(s)[..k]) == s[..k]
  {
    assert Singles(s)[..k] == Singles(s[..k]);
    FlattenSingles(s[..k]);
  }

  /** Where slice `k` starts. */
  function Offset(s: Bytes, k: nat): nat
    requires k <= |Segments(s)|
  {
    |Flatten(Segments(s)[..k])|
  }

  lemma OffsetInFirst(s: Bytes, k: nat)
    requires s != [] && k < |FirstSlices(s)|
    ensures Offset(s, k) == k && Segments(s)[k] == FirstSlices(s)[k]
  {
    assert Segments(s)[..k] == FirstSlices(s)[..k];
    if Decode(s).0.None? {
      FlattenSinglesPrefix(s[..Decode(s).1], k);
    }
  }

  lemma OffsetAfterFirst(s: Bytes, k: nat)
    requires s != [] && |FirstSlices(s)| <= k <= |Segments(s)|
    ensures Offset(s, k) == Decode(s).1 + Offset(s[Decode(s).1..], k - |FirstSlices(s)|)
    ensures k < |Segments(s)| ==> Segments(s)[k] == Segments(s[Decode(s).1..])[k - |FirstSlices(s)|]
  {
    var first, rest := FirstSlices(s), Segments(s[Decode(s).1..]);
    assert (first + rest)[..k] == first + rest[..k - |first|];
    FlattenFirst(s);
    FlattenConcat(first, rest[..k - |first|]);
  }

  /** The slice that starts a text. */
  function FirstPart(s: Bytes): Bytes
    requires s != []
  {
    if Decode(s).0.Some? then s[..Decode(s).1] else s[..1]
  }

  lemma DropTwice(s: Bytes, i: nat, j: nat)
    requires i <= |s| && j <= |s| - i
    ensures s[i..][j..] == s[i + j..]
  {
  }

  /** The text from slice `k` on. */
  function Tail(s: Bytes, k: nat): (tail: Bytes)
    requires k < |Segments(s)|
    decreases |s|
  {
    if k < |FirstSlices(s)| then s[k..] else Tail(s[Decode(s).1..], k - |FirstSlices(s)|)
  }

  lemma {:induction false} TailStartsAtOffset(s: Bytes, k: nat)
    requires k < |Segments(s)|
    ensures Offset(s, k) <= |s| && Tail(s, k) == s[Offset(s, k)..]
    decreases |s|
  {
    if k >= |FirstSlices(s)| {
      var rest, j := s[Decode(s).1..], k - |FirstSlices(s)|;
      OffsetAfterFirst(s, k);
      TailStartsAtOffset(rest, j);
      DropTwice(s, Decode(s).1, Offset(rest, j));
    } else {
      OffsetInFirst(s, k);
    }
  }

  lemma {:induction false} SlicesAreFirstParts(s: Bytes, k: nat)
    requires k < |Segments(s)|
    ensures Tail(s, k) != [] && Segments(s)[k] == FirstPart(Tail(s, k))
    decreases |s|
  {
    if k >= |FirstSlices(s)| {
      OffsetAfterFirst(s, k);
      SlicesAreFirstParts(s[Decode(s).1..], k - |FirstSlices(s)|);
    } else {
      OffsetInFirst(s, k);
      FirstSliceIsFirstPart(s, k);
    }
  }

  lemma FirstSliceIsFirstPart(s: Bytes, k: nat)
    requires s != [] && k < |FirstSlices(s)|
    ensures k < |s| && FirstSlices(s)[k] == FirstPart(s[k..])
  {
    assert s[0..] == s;
    if Decode(s).0.None? {
      assert s[k..][..1] == [s[k]];
      if k > 0 {
        InvalidTail(s, k);
      }
    }
  }

  /** `part` is the character the text starts with, or its first byte when it starts with none. */
  ghost predicate IsFirstSlice(part: Bytes, s: Bytes) {
    && part <= s
    && (forall c: Scalar :: Encode(c) <= s ==> part == Encode(c))
    && ((forall c: Scalar :: !(Encode(c) <= s)) ==> |part| == 1)
  }

  lemma FirstPartIsFirstSlice(s: Bytes)
    requires s != []
    ensures IsFirstSlice(FirstPart(s), s)
  {
    if Decode(s).0.Some? {
      EncodeDecoded(s);
    }
    forall c: Scalar | Encode(c) <= s
      ensures FirstPart(s) == Encode(c)
    {
      DecodeExact(s, c);
    }
  }

  /**
   * At the offset of every slice: if a character starts there the slice is that character,
   * otherwise it is one byte. With the slices joining up to the text, nothing else is left open.
   */
  lemma SlicesExact(s: Bytes, k: nat)
    requires k < |Segments(s)|
    ensures Offset(s, k) <= |s| && IsFirstSlice(Segments(s)[k], s[Offset(s, k)..])
  {
    TailStartsAtOffset(s, k);
    SlicesAreFirstParts(s, k);
    FirstPartIsFirstSlice(Tail(s, k));
  }

  // ---- Counting ----

  /** `bytecount::num_chars`: the bytes that do not continue a character. */
  function NumChars(s: Bytes): nat {
    if s == [] then 0 else (if IsContinuation(s[0]) then 0 else 1) + NumChars(s[1..])
  }

  lemma {:induction false} NumCharsConcat(a: Bytes, b: Bytes)
    ensures NumChars(a + b) == NumChars(a) + NumChars(b)
  {
    if a == [] {
      assert a + b == b;
    } else {
      assert (a + b)[1..] == a[1..] + b;
      NumCharsConcat(a[1..], b);
    }
  }

  lemma {:induction false} ContinuationsCountNothing(s: Bytes)
    requires forall i :: 0 <= i < |s| ==> IsContinuation(s[i])
    ensures NumChars(s) == 0
  {
    if s != [] {
      ContinuationsCountNothing(s[1..]);
    }
  }

  lemma CharacterCountsOnce(c: Scalar)
    ensures NumChars(Encode(c)) == 1
  {
    ContinuationsCountNothing(Encode(c)[1..]);
  }

  /** Counting leading bytes counts the characters of a well-formed text. */
  lemma {:induction false} NumCharsEncoded(cs: seq<Scalar>)
    ensures NumChars(EncodeAll(cs)) == |cs|
  {
    if cs != [] {
      CharacterCountsOnce(cs[0]);
      NumCharsEncoded(cs[1..]);
      NumCharsConcat(Encode(cs[0]), EncodeAll(cs[1..]));
    }
  }

  /** The longest prefix made of whole characters, which is the valid part of a chunk, and the rest. */
  function SplitValid(s: Bytes): (Bytes, Bytes) {
    var (ch, size) := Decode(s);
    if ch.None? then ([], s)
    else
      var (valid, rest) := SplitValid(s[size..]);
      (Encode(ch.value) + valid, rest)
  }

  /** The rest is empty or starts with an invalid prefix. */
  lemma {:induction false} SplitValidEnds(s: Bytes)
    ensures Decode(SplitValid(s).1).0.None?
  {
    var (ch, size) := Decode(s);
    if ch.Some? {
      SplitValidEnds(s[size..]);
    }
  }

  lemma SplitValidStep(s: Bytes) returns (c: Scalar, tail: Bytes)
    requires Decode(s).0.Some?
    ensures |tail| < |s| && s == Encode(c) + tail
    ensures SplitValid(s) == (Encode(c) + SplitValid(tail).0, SplitValid(tail).1)
  {
    EncodeDecoded(s);
    c, tail := Decode(s).0.value, s[Decode(s).1..];
  }

  lemma {:induction false} SplitValidEncodes(s: Bytes) returns (cs: seq<Scalar>)
    ensures SplitValid(s).0 + SplitValid(s).1 == s
    ensures EncodeAll(cs) == SplitValid(s).0
    decreases |s|
  {
    cs := [];
    if Decode(s).0.Some? {
      var c, tail := SplitValidStep(s);
      var more := SplitValidEncodes(tail);
      EncodeAllCons(c, more);
      ConcatIsAssociative(Encode(c), SplitValid(tail).0, SplitValid(tail).1);
      cs := [c] + more;
    }
  }

  /** A valid part counts by leading bytes. */
  lemma ValidPartCounts(s: Bytes)
    ensures var (valid, rest) := SplitValid(s);
            |Segments(s)| == NumChars(valid) + |Segments(rest)| && |valid| + |rest| == |s|
    ensures Decode(SplitValid(s).1).0.None?
  {
    var cs := SplitValidEncodes(s);
    SplitValidEnds(s);
    SegmentsOfEncoded(cs, SplitValid(s).1);
    NumCharsEncoded(cs);
  }

  /** All of a valid text counts by leading bytes. */
  lemma ValidTextCounts(s: Bytes)
    requires DecodeAll(s).Some?
    ensures |Segments(s)| == NumChars(s)
  {
    DecodeAllExact(s, DecodeAll(s).value);
    NumCharsEncoded(DecodeAll(s).value);
    var cs := SegmentsOfWellFormed(s);
    NumCharsEncoded(cs);
  }

  /** An invalid part counts by bytes. */
  lemma InvalidCounts(s: Bytes)
    requires Decode(s).0.None?
    ensures |Segments(s)| == Decode(s).1 + |Segments(s[Decode(s).1..])|
  {
  }

  /** `char_len` of a conventionally UTF-8 string: the number of slices the iterator yields. */
  method CharLen(s: Bytes) returns (charLen: nat)
    ensures charLen == |Segments(s)|
  {
    var tail := FirstNonAscii(s);
    if tail.None? {
      AsciiText(s);
      return |s|;
    }
    AsciiPrefix(s, tail.value);
    var bytes := s[tail.value..];
    if DecodeAll(bytes).Some? {
      ValidTextCounts(bytes);
      return tail.value + NumChars(bytes);
    }
    charLen := tail.value;
    while bytes != []
      invariant charLen + |Segments(bytes)| == |Segments(s)|
      decreases |bytes|
    {
      var (valid, rest) := SplitValid(bytes);
      var invalid := rest[..Decode(rest).1];
      ValidPartCounts(bytes);
      InvalidCounts(rest);
      charLen := charLen + NumChars(valid);
      charLen := charLen + |invalid|;
      bytes := rest[|invalid|..];
    }
  }

  // ---- One character ----

  function At<T>(parts: seq<T>, index: nat): Option<T> {
    if index < |parts| then Some(parts[index]) else None
  }

  /** `get(index..=index)` */
  function ByteAt(s: Bytes, index: nat): Option<Bytes> {
    if index < |s| then Some([s[index]]) else None
  }

  lemma AsciiByteAt(s: Bytes, k: nat, index: nat)
    requires k <= |s| && AllAscii(s[..k])
    ensures index < k ==> At(Segments(s), index) == ByteAt(s, index)
    ensures index >= k ==> At(Segments(s), index) == At(Segments(s[k..]), index - k)
    ensures |Segments(s)| == k + |Segments(s[k..])|
  {
    AsciiPrefix(s, k);
    var first, rest := Singles(s[..k]), Segments(s[k..]);
    assert index < k ==> (first + rest)[index] == first[index];
  }

  /** `get_char` of a conventionally UTF-8 string: the slice the iterator yields at that index. */
  method GetChar(s: Bytes, index: nat) returns (ch: Option<Bytes>)
    ensures ch == At(Segments(s), index)
  {
    if index >= |s| {
      SegmentsAreFew(s);
      return None;
    }
    var consumed := FirstNonAscii(s);
    if consumed.None? || consumed.value > index {
      if consumed.None? {
        AsciiText(s);
      } else {
        AsciiByteAt(s, consumed.value, index);
      }
      return ByteAt(s, index);
    }
    AsciiByteAt(s, consumed.value, index);
    ch := ScanForChar(s[consumed.value..], index - consumed.value);
  }

  lemma InvalidAt(s: Bytes, index: nat)
    requires Decode(s).0.None? && index < Decode(s).1
    ensures At(Segments(s), index) == Some(s[index..index + 1])
  {
    assert s[index..index + 1] == [s[index]] == Singles(s[..Decode(s).1])[index];
  }

  lemma AtCharacter(s: Bytes)
    requires Decode(s).0.Some?
    ensures At(Segments(s), 0) == Some(s[..Decode(s).1])
  {
  }

  lemma AtStep(s: Bytes, index: nat)
    requires s != [] && index >= |FirstSlices(s)|
    ensures At(Segments(s), index) == At(Segments(s[Decode(s).1..]), index - |FirstSlices(s)|)
  {
  }

  /** The scanning loop of `get_char`. */
  method ScanForChar(s: Bytes, index: nat) returns (ch: Option<Bytes>)
    ensures ch == At(Segments(s), index)
  {
    var slice: Bytes, remaining: nat := s, index;
    while true
      invariant At(Segments(slice), remaining) == At(Segments(s), index)
      decreases |slice|
    {
      var (c, size) := Decode(slice);
      if size == 0 {
        return None;
      } else if c.Some? && remaining == 0 {
        AtCharacter(slice);
        return Some(slice[..size]);
      } else if c.None? && remaining == 0 {
        InvalidAt(slice, 0);
        return Some(slice[..1]);
      } else if c.Some? {
        AtStep(slice, remaining);
        slice := slice[size..];
        remaining := remaining - 1;
      } else if remaining < size {
        InvalidAt(slice, remaining);
        return Some(slice[remaining..remaining + 1]);
      } else {
        AtStep(slice, remaining);
        slice := slice[size..];
        remaining := remaining - size;
      }
    }
  }

  lemma {:induction false} SegmentsAreFew(s: Bytes)
    ensures |Segments(s)| <= |s|
  {
    if s != [] {
      SegmentsAreFew(s[Decode(s).1..]);
    }
  }

  // ---- Substrings ----

  function Min(a: nat, b: nat): nat { if a < b then a else b }

  /** The bytes of the first `n` characters, or of all of them when there are fewer. */
  function Leading(s: Bytes, n: nat): Bytes {
    Flatten(Segments(s)[..Min(n, |Segments(s)|)])
  }

  /** The characters from `start` up to `end`; none when `start` is past the end. */
  function Substring(parts: seq<Bytes>, start: nat, end: nat): Option<Bytes> {
    if start > |parts| then None
    else if end <= start then Some([])
    else Some(Flatten(parts[start..Min(end, |parts|)]))
  }

  /** What follows the first `start` characters. */
  function After(s: Bytes, start: nat): Option<seq<Bytes>> {
    if start > |Segments(s)| then None else Some(Segments(s)[start..])
  }

  lemma AfterStep(s: Bytes, start: nat)
    requires s != [] && start >= |FirstSlices(s)|
    ensures After(s, start) == After(s[Decode(s).1..], start - |FirstSlices(s)|)
  {
    var first, rest := FirstSlices(s), Segments(s[Decode(s).1..]);
    assert start <= |first + rest| ==> (first + rest)[start..] == rest[start - |first|..];
  }

  lemma SinglesDrop(s: Bytes, k: nat)
    requires k <= |s|
    ensures Singles(s)[k..] == Singles(s[k..])
  {
  }

  lemma DropOfConcat(a: seq<Bytes>, b: seq<Bytes>, k: nat)
    requires k <= |a|
    ensures (a + b)[k..] == a[k..] + b
  {
  }

  lemma AfterInsideInvalid(s: Bytes, start: nat)
    requires s != [] && Decode(s).0.None? && start <= Decode(s).1
    ensures After(s, start) == Some(Segments(s[start..]))
  {
    var size := Decode(s).1;
    ResumeInsideInvalid(s, start);
    SinglesDrop(s[..size], start);
    assert s[..size][start..] == s[start..size];
    DropOfConcat(Singles(s[..size]), Segments(s[size..]), start);
  }

  /** First half of `get_char_slice`: finds where the `start`th character begins. */
  method ScanForStart(s: Bytes, start: nat) returns (slice: Option<Bytes>)
    requires start > 0
    ensures slice.None? <==> After(s, start).None?
    ensures slice.Some? ==> After(s, start) == Some(Segments(slice.value))
  {
    var rest: Bytes, remaining: nat := s, start;
    while true
      invariant remaining > 0 && After(rest, remaining) == After(s, start)
      decreases |rest|
    {
      var (c, size) := Decode(rest);
      if size == 0 {
        return None;
      }
      if c.Some? {
        AfterStep(rest, remaining);
        if remaining == 1 {
          return Some(rest[size..]);
        }
        rest := rest[size..];
        remaining := remaining - 1;
      } else if remaining <= size {
        AfterInsideInvalid(rest, remaining);
        return Some(rest[remaining..]);
      } else {
        AfterStep(rest, remaining);
        rest := rest[size..];
        remaining := remaining - size;
      }
    }
  }

  lemma LeadingStep(s: Bytes, n: nat)
    requires s != [] && n >= |FirstSlices(s)|
    ensures Leading(s, n) == s[..Decode(s).1] + Leading(s[Decode(s).1..], n - |FirstSlices(s)|)
  {
    var first, rest := FirstSlices(s), Segments(s[Decode(s).1..]);
    var k := Min(n - |first|, |rest|);
    assert (first + rest)[..|first| + k] == first + rest[..k];
    FlattenFirst(s);
    FlattenConcat(first, rest[..k]);
  }

  lemma LeadingInsideInvalid(s: Bytes, n: nat)
    requires s != [] && Decode(s).0.None? && n <= Decode(s).1
    ensures Leading(s, n) == s[..n]
  {
    var size := Decode(s).1;
    assert Segments(s)[..n] == Singles(s[..n]);
    FlattenSingles(s[..n]);
  }

  lemma FrontOf(front: Bytes, s: Bytes, n: nat)
    requires n <= |s|
    ensures (front + s)[..|front| + n] == front + s[..n]
    ensures front + s == (front + s[..n]) + s[n..]
  {
  }

  lemma LeadingNone(s: Bytes)
    ensures Leading(s, 0) == []
  {
  }

  /** How many bytes the next decoding step adds to a substring, and for how many characters they count. */
  method NextSpan(slice: Bytes, remaining: nat) returns (size: nat, count: nat)
    requires slice != [] && remaining > 0
    ensures 0 < size <= |slice| && 0 < count <= remaining
    ensures Leading(slice, remaining) == slice[..size] + Leading(slice[size..], remaining - count)
  {
    var (c, n) := Decode(slice);
    if c.Some? {
      LeadingStep(slice, remaining);
      return n, 1;
    } else if remaining <= n {
      LeadingInsideInvalid(slice, remaining);
      LeadingNone(slice[remaining..]);
      return remaining, remaining;
    } else {
      LeadingStep(slice, remaining);
      return n, n;
    }
  }

  /** Second half of `get_char_slice`: takes up to `count` characters from the front. */
  method ScanForEnd(substr: Bytes, count: nat) returns (taken: Bytes)
    requires count > 0
    ensures taken == Leading(substr, count)
  {
    var slice: Bytes, remaining: nat := substr, count;
    ghost var front: Bytes := [];
    while slice != []
      invariant remaining > 0 && substr == front + slice
      invariant front + Leading(slice, remaining) == Leading(substr, count)
      decreases |slice|
    {
      var size, passed := NextSpan(slice, remaining);
      FrontOf(front, slice, size);
      ConcatIsAssociative(front, slice[..size], Leading(slice[size..], remaining - passed));
      if passed == remaining {
        LeadingNone(slice[size..]);
        return substr[..|substr| - |slice| + size];
      }
      front, slice := front + slice[..size], slice[size..];
      remaining := remaining - passed;
    }
    LeadingOfNothing(remaining);
    return substr;
  }

  lemma LeadingOfNothing(n: nat)
    ensures Leading([], n) == []
  {
  }

  /** `get(start..end).or_else(|| get(start..))` */
  function ByteRange(s: Bytes, start: nat, end: nat): Option<Bytes>
    requires start <= end
  {
    if end <= |s| then Some(s[start..end])
    else if start <= |s| then Some(s[start..])
    else None
  }

  lemma SinglesSubstring(s: Bytes, start: nat, end: nat)
    requires start < end
    ensures Substring(Singles(s), start, end) == ByteRange(s, start, end)
  {
    if start <= |s| {
      var stop := Min(end, |s|);
      assert Singles(s)[start..stop] == Singles(s[start..stop]);
      FlattenSingles(s[start..stop]);
      assert s[start..|s|] == s[start..];
    }
  }

  lemma RangeOfConcat(a: seq<Bytes>, b: seq<Bytes>, start: nat, end: nat)
    requires start < end <= |a|
    ensures Substring(a + b, start, end) == Substring(a, start, end)
  {
    assert (a + b)[start..end] == a[start..end];
  }

  /** A range inside an ASCII prefix can be taken by byte. */
  lemma AsciiSubstring(s: Bytes, k: nat, start: nat, end: nat)
    requires start < end <= k <= |s| && AllAscii(s[..k])
    ensures Substring(Segments(s), start, end) == Some(s[start..end])
  {
    var a := s[..k];
    AsciiPrefix(s, k);
    RangeOfConcat(Singles(a), Segments(s[k..]), start, end);
    SinglesSubstring(a, start, end);
    assert a[start..end] == s[start..end];
  }

  lemma RangeFrom<T>(parts: seq<T>, start: nat, stop: nat)
    requires start <= stop <= |parts|
    ensures parts[start..][..stop - start] == parts[start..stop]
  {
  }

  /** A range of a sequence, seen from its start. */
  lemma RangeOfRest(parts: seq<Bytes>, start: nat, end: nat)
    requires start <= |parts| && start < end
    ensures var rest := parts[start..];
            Substring(parts, start, end) == Some(Flatten(rest[..Min(end - start, |rest|)]))
  {
    RangeFrom(parts, start, Min(end, |parts|));
  }

  lemma SubstringAfter(s: Bytes, start: nat, end: nat, slice: Bytes)
    requires start < end && After(s, start) == Some(Segments(slice))
    ensures Substring(Segments(s), start, end) == Some(Leading(slice, end - start))
  {
    RangeOfRest(Segments(s), start, end);
  }

  lemma AsciiAfter(s: Bytes, k: nat, start: nat)
    requires k <= |s| && AllAscii(s[..k]) && k <= start
    ensures After(s, start) == After(s[k..], start - k)
  {
    AsciiPrefix(s, k);
    var rest := Segments(s[k..]);
    assert start - k <= |rest| ==> (Singles(s[..k]) + rest)[start..] == rest[start - k..];
  }

  /** `get_char_slice` of a conventionally UTF-8 string, for a non-empty range. */
  method GetCharSliceUtf8(s: Bytes, start: nat, end: nat) returns (taken: Option<Bytes>)
    requires start < end
    ensures taken == Substring(Segments(s), start, end)
  {
    var ascii := FirstNonAscii(s);
    if ascii.None? {
      AsciiText(s);
      SinglesSubstring(s, start, end);
      return ByteRange(s, start, end);
    }
    if ascii.value > end {
      AsciiSubstring(s, ascii.value, start, end);
      return Some(s[start..end]);
    }
    var consumed := if ascii.value <= start then ascii.value else start;
    AsciiShorter(s, ascii.value, consumed);
    taken := ScanSlice(s, consumed, start, end);
  }

  lemma AsciiShorter(s: Bytes, k: nat, j: nat)
    requires j <= k <= |s| && AllAscii(s[..k])
    ensures AllAscii(s[..j])
  {
    assert forall i :: 0 <= i < j ==> s[i] == s[..k][i];
  }

  /** The scanning part of `get_char_slice`, after an ASCII prefix known to end by `start`. */
  method ScanSlice(s: Bytes, consumed: nat, start: nat, end: nat) returns (taken: Option<Bytes>)
    requires consumed <= start < end && consumed <= |s| && AllAscii(s[..consumed])
    ensures taken == Substring(Segments(s), start, end)
  {
    var slice := SkipToStart(s, consumed, start);
    if slice.None? {
      return None;
    }
    SubstringAfter(s, start, end, slice.value);
    var substr := ScanForEnd(slice.value, end - start);
    return Some(substr);
  }

  /** Skips an ASCII prefix by byte and the rest of the way by character. */
  method SkipToStart(s: Bytes, consumed: nat, start: nat) returns (slice: Option<Bytes>)
    requires consumed <= start && consumed <= |s| && AllAscii(s[..consumed])
    ensures slice.None? <==> After(s, start).None?
    ensures slice.Some? ==> After(s, start) == Some(Segments(slice.value))
  {
    AsciiAfter(s, consumed, start);
    if start - consumed > 0 {
      slice := ScanForStart(s[consumed..], start - consumed);
    } else {
      return Some(s[consumed..]);
    }
  }

  lemma RangeToEnd(parts: seq<Bytes>, start: nat, end: nat)
    ensures start <= |parts| < end ==> Substring(parts, start, end) == Some(Flatten(parts[start..]))
  {
    assert start <= |parts| ==> parts[start..|parts|] == parts[start..];
  }

  // ---- All encodings ----

  method StringCharLen(encoding: Encoding, s: Bytes) returns (charLen: nat)
    ensures charLen == |CharsOf(encoding, s)|
  {
    if encoding.Utf8Text? {
      charLen := CharLen(s);
    } else {
      return |s|;
    }
  }

  /** `String::get_char`. The largest `usize` can index no string. */
  method StringGetChar(encoding: Encoding, s: Bytes, index: usize) returns (ch: Option<Bytes>)
    requires |s| <= ISIZE_MAX
    ensures ch == if index < |CharsOf(encoding, s)| then Some(CharsOf(encoding, s)[index]) else None
  {
    if index == USIZE_MAX {
      SegmentsAreFew(s);
      return None;
    }
    if encoding.Utf8Text? {
      ch := GetChar(s, index);
    } else {
      return ByteAt(s, index);
    }
  }

  lemma SubstringOfOne(parts: seq<Bytes>, start: nat)
    requires start < |parts|
    ensures Substring(parts, start, start + 1) == Some(parts[start])
  {
    assert parts[start..start + 1] == [parts[start]];
    assert Flatten([parts[start]]) == parts[start] + [] == parts[start];
  }

  /**
   * `String::get_char_slice`: the characters the range selects, cut off at the end of the
   * string; an inverted range is empty, and a start past the end selects nothing at all.
   */
  method StringGetCharSlice(encoding: Encoding, s: Bytes, start: usize, end: usize) returns (taken: Option<Bytes>)
    requires |s| <= ISIZE_MAX
    ensures taken == Substring(CharsOf(encoding, s), start, end)
    ensures start > |CharsOf(encoding, s)| ==> taken == None
    ensures start <= |CharsOf(encoding, s)| && end <= start ==> taken == Some([])
    ensures start < end <= |CharsOf(encoding, s)| ==> taken == Some(Flatten(CharsOf(encoding, s)[start..end]))
    ensures start <= |CharsOf(encoding, s)| < end ==> taken == Some(Flatten(CharsOf(encoding, s)[start..]))
  {
    RangeToEnd(CharsOf(encoding, s), start, end);
    SegmentsAreFew(s);
    var parts := CharsOf(encoding, s);
    if end < start {
      if start > |s| {
        return None;
      }
      var charLen := StringCharLen(encoding, s);
      if start > charLen {
        return None;
      }
      return Some([]);
    }
    if start > |s| {
      return None;
    }
    var charLen := StringCharLen(encoding, s);
    if start > charLen {
      return None;
    }
    if start == charLen {
      assert end > start ==> parts[start..Min(end, |parts|)] == [];
      return Some([]);
    }
    if end - start == 0 {
      return Some([]);
    }
    if end - start == 1 {
      taken := StringGetChar(encoding, s, start);
      SubstringOfOne(parts, start);
      return;
    }
    if encoding.Utf8Text? {
      taken := GetCharSliceUtf8(s, start, end);
    } else {
      SinglesSubstring(s, start, end);
      return ByteRange(s, start, end);
    }
  }

  /** Adjacent ranges join. */
  lemma AdjacentRangesJoin(parts: seq<Bytes>, i: nat, j: nat, k: nat)
    requires i <= j <= k && j <= |parts|
    ensures Substring(parts, i, k) == Some(Substring(parts, i, j).value + Substring(parts, j, k).value)
  {
    var stop := Min(k, |parts|);
    RangeIsFlattened(parts, i, j);
    RangeIsFlattened(parts, j, k);
    RangeIsFlattened(parts, i, k);
    RangesConcat(parts, i, j, stop);
    FlattenConcat(parts[i..j], parts[j..stop]);
  }

  lemma RangesConcat<T>(parts: seq<T>, i: nat, j: nat, k: nat)
    requires i <= j <= k <= |parts|
    ensures parts[i..j] + parts[j..k] == parts[i..k]
  {
  }

  lemma RangeIsFlattened(parts: seq<Bytes>, i: nat, k: nat)
    requires i <= k && i <= |parts|
    ensures Substring(parts, i, k) == Some(Flatten(parts[i..Min(k, |parts|)]))
  {
    assert i == k ==> parts[i..i] == [];
  }

  /** The range of all characters is the string. */
  lemma WholeRange(encoding: Encoding, s: Bytes)
    ensures Substring(CharsOf(encoding, s), 0, |CharsOf(encoding, s)|) == Some(s)
  {
    var parts := CharsOf(encoding, s);
    CharsPartition(encoding, s);
    assert parts[0..|parts|] == parts;
  }
}
