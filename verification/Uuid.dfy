/** Version 4 UUIDs from sixteen random octets (section 4.4 of RFC 4122). */
module Uuid {
  import opened Common
  import opened Hex

  const OCTETS: nat := 16

  /** `(b & 0x0f) | 0x40` */
  function SetVersion(b: byte): byte { b % 16 + 0x40 }

  /** `(b & 0x3f) | 0x80` */
  function SetVariant(b: byte): byte { b % 64 + 0x80 }

  /** The octets as they are printed. */
  function Stamped(octets: Bytes): Bytes
    requires |octets| == OCTETS
  {
    octets[6 := SetVersion(octets[6])][8 := SetVariant(octets[8])]
  }

  /** Appends the encoding of a range of octets. */
  method PushOctets(buf: string, bytes: array<byte>, from: nat, to: nat) returns (r: string)
    requires from <= to <= bytes.Length
    ensures r == buf + HexText(bytes[from..to])
  {
    r := buf;
    for i := from to to
      invariant r == buf + HexText(bytes[from..i])
    {
      assert bytes[from..i + 1] == bytes[from..i] + [bytes[i]];
      HexTextConcat(bytes[from..i], [bytes[i]]);
      assert HexText([bytes[i]]) == HexEscape(bytes[i]) + HexText([]);
      ConcatIsAssociative(buf, HexText(bytes[from..i]), HexEscape(bytes[i]));
      r := r + HexEscape(bytes[i]);
    }
  }

  /** Five groups with a hyphen between them. */
  function Hyphenated(a: string, b: string, c: string, d: string, e: string): string {
    a + "-" + b + "-" + c + "-" + d + "-" + e
  }

  /** The printed form: groups of 4, 2, 2, 2 and 6 octets. */
  function Grouped(octets: Bytes): string
    requires |octets| == OCTETS
  {
    Hyphenated(HexText(octets[0..4]), HexText(octets[4..6]), HexText(octets[6..8]), HexText(octets[8..10]),
               HexText(octets[10..16]))
  }

  /** Masks the version and variant octets in place. */
  method Stamp(bytes: array<byte>)
    requires bytes.Length == OCTETS
    modifies bytes
    ensures bytes[..] == Stamped(old(bytes[..]))
  {
    bytes[6] := SetVersion(bytes[6]);
    bytes[8] := SetVariant(bytes[8]);
  }

  const ENCODED_LENGTH: usize := 36

  datatype UuidError = RandomBytesError | MemoryError

  /** `v4`; `None` is a random source that fails. */
  method V4(random: Option<Bytes>, canReserve: usize -> bool) returns (r: Result<string, UuidError>)
    requires random.Some? ==> |random.value| == OCTETS
    ensures r == match random
                 case None => Err(RandomBytesError)
                 case Some(octets) =>
                   if canReserve(36) then Ok(Grouped(Stamped(octets))) else Err(MemoryError)
  {
    if random.None? {
      return Err(RandomBytesError);
    }
    var bytes := new byte[OCTETS](i requires 0 <= i < OCTETS => random.value[i]);
    assert bytes[..] == random.value;
    Stamp(bytes);
    if !canReserve(ENCODED_LENGTH) {
      return Err(MemoryError);
    }
    var text := Format(bytes);
    return Ok(text);
  }

  method Format(bytes: array<byte>) returns (text: string)
    requires bytes.Length == OCTETS
    ensures text == Grouped(bytes[..])
  {
    assert bytes[..][0..4] == bytes[0..4] && bytes[..][4..6] == bytes[4..6] && bytes[..][6..8] == bytes[6..8];
    assert bytes[..][8..10] == bytes[8..10] && bytes[..][10..16] == bytes[10..16];
    text := PushOctets("", bytes, 0, 4);
    assert text == HexText(bytes[0..4]);
    text := text + "-";
    text := PushOctets(text, bytes, 4, 6);
    text := text + "-";
    text := PushOctets(text, bytes, 6, 8);
    text := text + "-";
    text := PushOctets(text, bytes, 8, 10);
    text := text + "-";
    text := PushOctets(text, bytes, 10, 16);
  }

  /** The text without the characters at the hyphen positions. */
  function WithoutHyphens(text: string): string
    requires |text| == 36
  {
    text[..8] + (text[9..13] + (text[14..18] + (text[19..23] + text[24..])))
  }

  lemma HyphenatedShape(a: string, b: string, c: string, d: string, e: string)
    requires |a| == 8 && |b| == 4 && |c| == 4 && |d| == 4 && |e| == 12
    ensures var t := Hyphenated(a, b, c, d, e);
            && |t| == 36 && t[8] == t[13] == t[18] == t[23] == '-'
            && WithoutHyphens(t) == a + (b + (c + (d + e)))
  {
    var t := Hyphenated(a, b, c, d, e);
    assert t[..8] == a;
    assert t[9..13] == b;
    assert t[14..18] == c;
    assert t[19..23] == d;
    assert t[24..] == e;
  }

  lemma HexTextOfFive(a: Bytes, b: Bytes, c: Bytes, d: Bytes, e: Bytes)
    ensures HexText(a + (b + (c + (d + e)))) == HexText(a) + (HexText(b) + (HexText(c) + (HexText(d) + HexText(e))))
  {
    HexTextConcat(d, e);
    HexTextConcat(c, d + e);
    HexTextConcat(b, c + (d + e));
    HexTextConcat(a, b + (c + (d + e)));
  }

  /** Five consecutive slices put a sequence together again. */
  lemma FiveSlices<T>(s: seq<T>, i: nat, j: nat, k: nat, l: nat)
    requires i <= j <= k <= l <= |s|
    ensures s[0..i] + (s[i..j] + (s[j..k] + (s[k..l] + s[l..|s|]))) == s
  {
    assert s[k..l] + s[l..|s|] == s[k..];
    assert s[j..k] + s[k..] == s[j..];
    assert s[i..j] + s[j..] == s[i..];
    assert s[0..i] + s[i..] == s;
  }

  lemma GroupedShape(octets: Bytes)
    requires |octets| == OCTETS
    ensures |Grouped(octets)| == 36
    ensures Grouped(octets)[8] == Grouped(octets)[13] == Grouped(octets)[18] == Grouped(octets)[23] == '-'
    ensures WithoutHyphens(Grouped(octets)) == HexText(octets)
  {
    GroupLengths(octets);
    HyphenatedShape(HexText(octets[0..4]), HexText(octets[4..6]), HexText(octets[6..8]), HexText(octets[8..10]),
                    HexText(octets[10..16]));
    HexTextOfFive(octets[0..4], octets[4..6], octets[6..8], octets[8..10], octets[10..16]);
    FiveSlices(octets, 4, 6, 8, 10);
  }

  lemma GroupLengths(octets: Bytes)
    requires |octets| == OCTETS
    ensures |HexText(octets[0..4])| == 8 && |HexText(octets[4..6])| == 4 && |HexText(octets[6..8])| == 4
    ensures |HexText(octets[8..10])| == 4 && |HexText(octets[10..16])| == 12
  {
    HexTextLength(octets[0..4]);
    HexTextLength(octets[4..6]);
    HexTextLength(octets[6..8]);
    HexTextLength(octets[8..10]);
    HexTextLength(octets[10..16]);
  }

  /**
   * Removing the hyphens and decoding gives back the random octets, except that the top four
   * bits of octet 6 are the version 4 and the top two bits of octet 8 are the variant.
   */
  lemma V4DecodesToItsOctets(random: Bytes)
    requires |random| == OCTETS
    ensures var text := Grouped(Stamped(random));
            |text| == 36 && text[8] == text[13] == text[18] == text[23] == '-'
    ensures var decoded := Decode(WithoutHyphens(Grouped(Stamped(random))));
            && decoded.Some? && |decoded.value| == OCTETS
            && (forall i :: 0 <= i < OCTETS && i != 6 && i != 8 ==> decoded.value[i] == random[i])
            && decoded.value[6] / 16 == 4 && decoded.value[6] % 16 == random[6] % 16
            && decoded.value[8] / 64 == 2 && decoded.value[8] % 64 == random[8] % 64
  {
    GroupedShape(Stamped(random));
    DecodeHexText(Stamped(random));
  }
}
