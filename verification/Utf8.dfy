/**
 * UTF-8 as section 3.9 of the Unicode Standard defines it: the bit distribution of Table 3-6,
 * the byte ranges of Table 3-7, and decoding that consumes maximal subparts.
 */
module Utf8 {
  import opened Common

  /** A Unicode scalar value, which is what a Rust `char` holds. */
  type Scalar = c: int | 0 <= c <= 0x10FFFF && !(0xD800 <= c <= 0xDFFF)

  /** The well-formed byte sequence of a scalar value (Table 3-6). */
  function Encode(c: Scalar): (s: Bytes)
    ensures 1 <= |s| <= 4
    ensures |s| == 1 <==> c < 0x80
    ensures |s| == 1 ==> s[0] == c
    ensures |s| > 1 ==> forall i :: 0 <= i < |s| ==> s[i] >= 0x80
  {
    if c < 0x80 then [c]
    else if c < 0x800 then [0xC0 + c / 64, 0x80 + c % 64]
    else if c < 0x10000 then [0xE0 + c / 64 / 64, 0x80 + c / 64 % 64, 0x80 + c % 64]
    else [0xF0 + c / 64 / 64 / 64, 0x80 + c / 64 / 64 % 64, 0x80 + c / 64 % 64, 0x80 + c % 64]
  }

  /** Six more bits. */
  function Place(bits: int, b: byte): int { bits * 64 + b % 64 }

  /** Table 3-6 read backwards: the marker bits of each byte, and the scalar value from the other bits. */
  lemma EncodeBits(c: Scalar)
    ensures var s := Encode(c);
            && |s| == (if c <= 0x7F then 1 else if c <= 0x7FF then 2 else if c <= 0xFFFF then 3 else 4)
            && (|s| == 1 ==> s[0] == c)
            && (|s| == 2 ==> s[0] / 32 == 6 && s[1] / 64 == 2 && c == Place(s[0] % 32, s[1]))
            && (|s| == 3 ==> s[0] / 16 == 14 && s[1] / 64 == 2 && s[2] / 64 == 2
                             && c == Place(Place(s[0] % 16, s[1]), s[2]))
            && (|s| == 4 ==> s[0] / 8 == 30 && s[1] / 64 == 2 && s[2] / 64 == 2 && s[3] / 64 == 2
                             && c == Place(Place(Place(s[0] % 8, s[1]), s[2]), s[3]))
  {
  }

  /** Length of the sequences a lead byte starts; zero for a byte that starts none. */
  function SequenceLength(lead: byte): nat {
    if lead < 0x80 then 1
    else if 0xC2 <= lead < 0xE0 then 2
    else if 0xE0 <= lead < 0xF0 then 3
    else if 0xF0 <= lead < 0xF5 then 4
    else 0
  }

  predicate IsContinuation(b: byte) { 0x80 <= b < 0xC0 }

  /** The second-byte column of Table 3-7. */
  predicate SecondFits(lead: byte, b: byte) {
    if lead == 0xE0 then 0xA0 <= b < 0xC0
    else if lead == 0xED then 0x80 <= b < 0xA0
    else if lead == 0xF0 then 0x90 <= b < 0xC0
    else if lead == 0xF4 then 0x80 <= b < 0x90
    else IsContinuation(b)
  }

  /** The bits of a continuation byte appended to the bits read so far. */
  function Extend(bits: int, b: byte): int { bits * 64 + (b as int - 0x80) }

  function TwoBytes(s: Bytes): Scalar
    requires |s| >= 2 && SequenceLength(s[0]) == 2 && SecondFits(s[0], s[1])
  {
    Extend(s[0] as int - 0xC0, s[1])
  }

  function ThreeBytes(s: Bytes): Scalar
    requires |s| >= 3 && SequenceLength(s[0]) == 3 && SecondFits(s[0], s[1]) && IsContinuation(s[2])
  {
    Extend(Extend(s[0] as int - 0xE0, s[1]), s[2])
  }

  function FourBytes(s: Bytes): Scalar
    requires |s| >= 4 && SequenceLength(s[0]) == 4 && SecondFits(s[0], s[1])
    requires IsContinuation(s[2]) && IsContinuation(s[3])
  {
    Extend(Extend(Extend(s[0] as int - 0xF0, s[1]), s[2]), s[3])
  }

  /**
   * `bstr::decode_utf8`: the first character and its length, or no character and the length
   * of the maximal invalid subpart. Empty input gives no character and length zero.
   */
  function Decode(s: Bytes): (r: (Option<Scalar>, nat))
    ensures s == [] ==> r == (None, 0)
    ensures s != [] ==> 1 <= r.1 <= |s|
    ensures r.0.None? ==> r.1 <= 3
  {
    if s == [] then (None, 0)
    else
      var n := SequenceLength(s[0]);
      if n == 0 then (None, 1)
      else if n == 1 then (Some(s[0]), 1)
      else if |s| < 2 || !SecondFits(s[0], s[1]) then (None, 1)
      else if n == 2 then (Some(TwoBytes(s)), 2)
      else if |s| < 3 || !IsContinuation(s[2]) then (None, 2)
      else if n == 3 then (Some(ThreeBytes(s)), 3)
      else if |s| < 4 || !IsContinuation(s[3]) then (None, 3)
      else (Some(FourBytes(s)), 4)
  }

  lemma ExtendSplits(bits: nat, b: byte)
    requires IsContinuation(b)
    ensures Extend(bits, b) / 64 == bits && Extend(bits, b) % 64 == b - 0x80
  {
  }

  lemma ExtendJoins(c: nat)
    ensures 0x80 + c % 64 < 256 && Extend(c / 64, 0x80 + c % 64) == c
  {
  }

  /** Decoding reads back every encoded character, whatever follows it. */
  lemma DecodeEncoded(c: Scalar, rest: Bytes)
    ensures Decode(Encode(c) + rest) == (Some(c), |Encode(c)|)
  {
    var e := Encode(c);
    var s := e + rest;
    ExtendJoins(c);
    ExtendJoins(c / 64);
    ExtendJoins(c / 64 / 64);
    if |e| == 1 {
      assert s[0] == e[0];
    } else if |e| == 2 {
      assert s[0] == e[0] && s[1] == e[1];
    } else if |e| == 3 {
      assert s[0] == e[0] && s[1] == e[1] && s[2] == e[2];
    } else {
      assert s[0] == e[0] && s[1] == e[1] && s[2] == e[2] && s[3] == e[3];
    }
  }

  /** A decoded character is the encoding of what it stands for. */
  lemma EncodeDecoded(s: Bytes)
    requires Decode(s).0.Some?
    ensures s[..Decode(s).1] == Encode(Decode(s).0.value)
  {
    var n := Decode(s).1;
    if n == 2 {
      ExtendSplits(s[0] as int - 0xC0, s[1]);
    } else if n == 3 {
      ExtendSplits(s[0] as int - 0xE0, s[1]);
      ExtendSplits(Extend(s[0] as int - 0xE0, s[1]), s[2]);
    } else if n == 4 {
      ExtendSplits(s[0] as int - 0xF0, s[1]);
      ExtendSplits(Extend(s[0] as int - 0xF0, s[1]), s[2]);
      ExtendSplits(Extend(Extend(s[0] as int - 0xF0, s[1]), s[2]), s[3]);
    }
  }

  /** A character is found exactly when the text starts with an encoded one. */
  lemma DecodeExact(s: Bytes, c: Scalar)
    ensures Decode(s).0 == Some(c) <==> Encode(c) <= s
  {
    if Encode(c) <= s {
      assert s == Encode(c) + s[|Encode(c)|..];
      DecodeEncoded(c, s[|Encode(c)|..]);
    }
    if Decode(s).0 == Some(c) {
      EncodeDecoded(s);
    }
  }

  /** `s` starts some well-formed sequence without completing it. */
  ghost predicate StartsCharacter(s: Bytes) {
    exists c: Scalar :: s <= Encode(c)
  }

  /**
   * An invalid prefix is a maximal subpart: a single byte, or the start of a character that
   * no longer prefix of the text also starts.
   */
  lemma InvalidPrefixIsMaximal(s: Bytes, k: nat)
    requires s != [] && Decode(s).0.None?
    ensures Decode(s).1 > 1 ==> StartsCharacter(s[..Decode(s).1])
    ensures Decode(s).1 < k <= |s| ==> !StartsCharacter(s[..k])
  {
    var n := Decode(s).1;
    if n == 2 {
      var t := [s[0], s[1], 0x80, 0x80];
      EncodeDecoded(t);
      assert s[..2] <= Encode(Decode(t).0.value);
    } else if n == 3 {
      var t := [s[0], s[1], s[2], 0x80];
      EncodeDecoded(t);
      assert s[..3] <= Encode(Decode(t).0.value);
    }
    forall c: Scalar | n < k <= |s|
      ensures !(s[..k] <= Encode(c))
    {
      BeyondInvalidPrefix(s, k, c);
    }
  }

  lemma BeyondInvalidPrefix(s: Bytes, k: nat, c: Scalar)
    requires s != [] && Decode(s).0.None? && Decode(s).1 < k <= |s|
    ensures !(s[..k] <= Encode(c))
  {
    var e := Encode(c);
    DecodeEncoded(c, []);
    assert e + [] == e;
    DecodeExact(s, c);
    PrefixAgrees(s, k, e);
  }

  lemma PrefixAgrees(s: Bytes, k: nat, e: Bytes)
    requires k <= |s|
    ensures s[..k] <= e ==> k <= |e| && forall i :: 0 <= i < k ==> s[i] == e[i]
  {
    if s[..k] <= e {
      assert forall i :: 0 <= i < k ==> s[i] == s[..k][i];
    }
  }

  /** The encoding of a sequence of characters. */
  function EncodeAll(cs: seq<Scalar>): Bytes {
    if cs == [] then [] else Encode(cs[0]) + EncodeAll(cs[1..])
  }

  /** Section 3.9, D84 to D86: a well-formed text is the encoding of some characters. */
  ghost predicate WellFormed(s: Bytes) {
    exists cs: seq<Scalar> :: EncodeAll(cs) == s
  }

  /** All characters of a text, when every byte belongs to one. */
  function DecodeAll(s: Bytes): Option<seq<Scalar>> {
    if s == [] then Some([])
    else
      var (c, n) := Decode(s);
      if c.None? then None
      else
        match DecodeAll(s[n..])
        case None => None
        case Some(rest) => Some([c.value] + rest)
  }

  lemma {:induction false} DecodeAllEncoded(cs: seq<Scalar>)
    ensures DecodeAll(EncodeAll(cs)) == Some(cs)
  {
    if cs != [] {
      var rest := EncodeAll(cs[1..]);
      DecodeEncoded(cs[0], rest);
      assert (Encode(cs[0]) + rest)[|Encode(cs[0])|..] == rest;
      DecodeAllEncoded(cs[1..]);
      assert [cs[0]] + cs[1..] == cs;
    }
  }

  lemma EncodeAllCons(c: Scalar, cs: seq<Scalar>)
    ensures EncodeAll([c] + cs) == Encode(c) + EncodeAll(cs)
  {
    assert ([c] + cs)[1..] == cs;
  }

  lemma DecodeAllStep(s: Bytes)
    requires s != [] && DecodeAll(s).Some?
    ensures var (c, n) := Decode(s);
            && c.Some? && s == Encode(c.value) + s[n..]
            && DecodeAll(s[n..]).Some? && DecodeAll(s).value == [c.value] + DecodeAll(s[n..]).value
  {
    EncodeDecoded(s);
  }

  lemma {:induction false} EncodeAllDecoded(s: Bytes)
    requires DecodeAll(s).Some?
    ensures EncodeAll(DecodeAll(s).value) == s
  {
    if s != [] {
      var (c, n) := Decode(s);
      DecodeAllStep(s);
      EncodeAllDecoded(s[n..]);
      EncodeAllCons(c.value, DecodeAll(s[n..]).value);
    }
  }

  /** Decoding succeeds exactly on well-formed texts and inverts encoding on them. */
  lemma DecodeAllExact(s: Bytes, cs: seq<Scalar>)
    ensures DecodeAll(s) == Some(cs) <==> EncodeAll(cs) == s
    ensures DecodeAll(s).Some? <==> WellFormed(s)
  {
    DecodeAllEncoded(cs);
    if DecodeAll(s).Some? {
      EncodeAllDecoded(s);
    }
    if WellFormed(s) {
      var ds :| EncodeAll(ds) == s;
      DecodeAllEncoded(ds);
    }
  }

  lemma {:induction false} EncodeAllConcat(a: seq<Scalar>, b: seq<Scalar>)
    ensures EncodeAll(a + b) == EncodeAll(a) + EncodeAll(b)
  {
    if a == [] {
      assert a + b == b;
    } else {
      EncodeAllConcat(a[1..], b);
      assert (a + b)[1..] == a[1..] + b;
      ConcatIsAssociative(Encode(a[0]), EncodeAll(a[1..]), EncodeAll(b));
    }
  }

  lemma WellFormedConcat(s: Bytes, t: Bytes)
    requires WellFormed(s) && WellFormed(t)
    ensures WellFormed(s + t)
  {
    var a :| EncodeAll(a) == s;
    var b :| EncodeAll(b) == t;
    EncodeAllConcat(a, b);
  }
}
