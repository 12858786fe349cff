/**
 * When slicing distributes over concatenation: always, unless the right part completes the
 * invalid sequence the left part ends with.
 */
module CharConcat {
  import opened Common
  import opened Utf8
  import opened Chars
  import opened CharIndex

  /** The offset of the last decoding step of a text. */
  function LastStep(a: Bytes): (at: nat)
    requires a != []
    ensures at < |a|
  {
    var size := Decode(a).1;
    if size == |a| then 0 else size + LastStep(a[size..])
  }

  /** `a` ends with an invalid sequence that becomes a character when `b` follows. */
  predicate Completes(a: Bytes, b: Bytes) {
    a != [] && Decode(a[LastStep(a)..]).0.None? && Decode(a[LastStep(a)..] + b).0.Some?
  }

  // ---- The first decoding step ----

  /** A step that ends before the text does has seen all it needs. */
  lemma DecodeIsSettled(a: Bytes, b: Bytes)
    requires a != [] && (Decode(a).1 < |a| || Decode(a).0.Some?)
    ensures Decode(a + b) == Decode(a)
  {
    assert forall i :: 0 <= i < |a| ==> (a + b)[i] == a[i];
  }

  /** A text that is one invalid sequence is contained in the first step of anything it starts. */
  lemma InvalidGrows(a: Bytes, b: Bytes)
    requires a != [] && Decode(a) == (None, |a|)
    ensures Decode(a + b).1 >= |a|
    ensures Decode(a + b).0.Some? ==> Decode(a + b).1 > |a|
  {
    assert forall i :: 0 <= i < |a| ==> (a + b)[i] == a[i];
  }

  /** The tail of a character starts none. */
  lemma CharacterTail(s: Bytes, i: nat)
    requires Decode(s).0.Some? && 1 <= i < Decode(s).1
    ensures Decode(s[i..]) == (None, 1)
  {
  }

  /** Slicing from inside a character yields its remaining bytes one by one. */
  lemma {:induction false} ResumeInsideCharacter(s: Bytes, i: nat)
    requires Decode(s).0.Some? && 1 <= i <= Decode(s).1
    ensures Segments(s[i..]) == Singles(s[i..Decode(s).1]) + Segments(s[Decode(s).1..])
    decreases Decode(s).1 - i
  {
    var size := Decode(s).1;
    if i == size {
      assert s[i..size] == [];
    } else {
      CharacterTail(s, i);
      ResumeInsideCharacter(s, i + 1);
      LoneByteThen(s, i, size);
    }
  }

  lemma SinglesConcat(a: Bytes, b: Bytes)
    ensures Singles(a + b) == Singles(a) + Singles(b)
  {
  }

  lemma OnlyInvalid(a: Bytes)
    requires a != [] && Decode(a) == (None, |a|)
    ensures Segments(a) == Singles(a) && LastStep(a) == 0 && a[0..] == a
  {
    assert a[..|a|] == a && a[|a|..] == [];
  }

  /** The two parts of a joined text, seen from the end of its first step. */
  lemma Joint(a: Bytes, b: Bytes, size: nat)
    requires |a| <= size <= |a + b|
    ensures var k := size - |a|;
            && (a + b)[|a|..] == b && (a + b)[|a|..size] == b[..k]
            && (a + b)[size..] == b[k..] && (a + b)[..size] == a + b[..k]
  {
  }

  /** An invalid sequence that stays invalid is extended byte by byte. */
  lemma StaysInvalid(a: Bytes, b: Bytes)
    requires a != [] && Decode(a) == (None, |a|) && Decode(a + b).0.None?
    ensures Segments(a + b) == Segments(a) + Segments(b)
  {
    var size := Decode(a + b).1;
    InvalidGrows(a, b);
    OnlyInvalid(a);
    Joint(a, b, size);
    ResumeInsideInvalid(a + b, |a|);
    SinglesConcat(a, b[..size - |a|]);
    ConcatIsAssociative(Singles(a), Singles(b[..size - |a|]), Segments(b[size - |a|..]));
  }

  /** A completed character is one slice where its parts were two or more. */
  lemma BecomesCharacter(a: Bytes, b: Bytes)
    requires a != [] && Decode(a) == (None, |a|) && Decode(a + b).0.Some?
    ensures |Segments(a + b)| < |Segments(a)| + |Segments(b)|
  {
    var size := Decode(a + b).1;
    InvalidGrows(a, b);
    OnlyInvalid(a);
    Joint(a, b, size);
    ResumeInsideCharacter(a + b, |a|);
    CharacterIsOneSlice(a + b);
  }

  lemma CharacterIsOneSlice(s: Bytes)
    requires Decode(s).0.Some?
    ensures |Segments(s)| == 1 + |Segments(s[Decode(s).1..])|
  {
    assert Segments(s) == FirstSlices(s) + Segments(s[Decode(s).1..]);
  }

  // ---- Distribution ----

  /** A settled first step leaves the question to what follows it. */
  lemma SettledStep(a: Bytes, b: Bytes)
    requires a != [] && Decode(a).1 < |a|
    ensures var rest := a[Decode(a).1..];
            && Completes(a, b) == Completes(rest, b)
            && Segments(a) == FirstSlices(a) + Segments(rest)
            && Segments(a + b) == FirstSlices(a) + Segments(rest + b)
  {
    var size := Decode(a).1;
    DecodeIsSettled(a, b);
    assert (a + b)[..size] == a[..size] && (a + b)[size..] == a[size..] + b;
    assert a[size..][LastStep(a[size..])..] == a[LastStep(a)..];
  }

  /** A text that is one character leaves the right part alone. */
  lemma WholeCharacter(a: Bytes, b: Bytes)
    requires Decode(a) == (Decode(a).0, |a|) && Decode(a).0.Some?
    ensures !Completes(a, b) && Segments(a + b) == Segments(a) + Segments(b)
  {
    DecodeIsSettled(a, b);
    assert (a + b)[..|a|] == a && (a + b)[|a|..] == b;
    assert a[..|a|] == a && a[|a|..] == [] && a[0..] == a;
    assert Segments(a) == [a];
  }

  lemma {:induction false} SlicesOfConcat(a: Bytes, b: Bytes)
    ensures !Completes(a, b) ==> Segments(a + b) == Segments(a) + Segments(b)
    ensures Completes(a, b) ==> |Segments(a + b)| < |Segments(a)| + |Segments(b)|
  {
    if a == [] {
      assert a + b == b;
    } else if Decode(a).1 < |a| {
      var rest := a[Decode(a).1..];
      SettledStep(a, b);
      SlicesOfConcat(rest, b);
      ConcatIsAssociative(FirstSlices(a), Segments(rest), Segments(b));
    } else if Decode(a).0.Some? {
      WholeCharacter(a, b);
    } else {
      OnlyInvalid(a);
      if Decode(a + b).0.Some? {
        BecomesCharacter(a, b);
      } else {
        StaysInvalid(a, b);
      }
    }
  }

  /**
   * The slices of two texts are those of their concatenation exactly when the right text does
   * not complete the last invalid sequence of the left one.
   */
  lemma SegmentsConcatExact(a: Bytes, b: Bytes)
    ensures Segments(a + b) == Segments(a) + Segments(b) <==> !Completes(a, b)
  {
    SlicesOfConcat(a, b);
  }

  /** By count: concatenation never adds characters, and loses some exactly when one is completed. */
  lemma CountConcatExact(a: Bytes, b: Bytes)
    ensures |Segments(a + b)| <= |Segments(a)| + |Segments(b)|
    ensures |Segments(a + b)| == |Segments(a)| + |Segments(b)| <==> !Completes(a, b)
  {
    SlicesOfConcat(a, b);
  }

  // ---- Sufficient conditions ----

  lemma {:induction false} ValidTextEndsWithCharacter(a: Bytes)
    requires a != [] && DecodeAll(a).Some?
    ensures Decode(a[LastStep(a)..]).0.Some?
  {
    var size := Decode(a).1;
    if size == |a| {
      assert a[0..] == a;
    } else {
      ValidTextEndsWithCharacter(a[size..]);
      assert a[size..][LastStep(a[size..])..] == a[LastStep(a)..];
    }
  }

  /** Slicing distributes after a well-formed text. */
  lemma SegmentsConcat(a: Bytes, b: Bytes)
    requires WellFormed(a)
    ensures Segments(a + b) == Segments(a) + Segments(b)
  {
    if a != [] {
      DecodeAllExact(a, []);
      ValidTextEndsWithCharacter(a);
    }
    SegmentsConcatExact(a, b);
  }

  lemma AsciiCompletesNothing(a: Bytes, b: Bytes)
    requires AllAscii(a)
    ensures !Completes(a, b)
  {
    if a != [] {
      assert a[LastStep(a)..][0] == a[LastStep(a)];
    }
  }

  lemma CompletedOnlyByContinuation(a: Bytes, b: Bytes)
    requires b == [] || !IsContinuation(b[0])
    ensures !Completes(a, b)
  {
    if a != [] && Decode(a[LastStep(a)..]).0.None? {
      NoCharacterAcross(a[LastStep(a)..], b);
    }
  }

  lemma NoCharacterAcross(s: Bytes, b: Bytes)
    requires s != [] && Decode(s).0.None? && (b == [] || !IsContinuation(b[0]))
    ensures Decode(s + b).0.None?
  {
    var u := s + b;
    assert forall i :: 0 <= i < |s| ==> u[i] == s[i];
    assert b != [] ==> u[|s|] == b[0];
  }

  /** Slicing distributes before a text that does not start with a continuation byte, as ASCII never does. */
  lemma SegmentsBeforeLead(a: Bytes, b: Bytes)
    requires b == [] || !IsContinuation(b[0])
    ensures Segments(a + b) == Segments(a) + Segments(b)
  {
    CompletedOnlyByContinuation(a, b);
    SegmentsConcatExact(a, b);
  }

  /** It does not distribute over the euro sign split after its first byte. */
  lemma SegmentsConcatNeedNotHold()
    ensures Segments([0xE2] + [0x82, 0xAC]) != Segments([0xE2]) + Segments([0x82, 0xAC])
  {
    var s: Bytes := [0xE2];
    assert s[0..] == s && Decode(s) == (None, 1);
    assert Decode(s + [0x82, 0xAC]).0.Some?;
    SegmentsConcatExact(s, [0x82, 0xAC]);
  }
}
