/** The grammar of integer literals, and the theorem that `parse` accepts exactly its texts. */
module IntGrammar {
  import opened Common
  import opened Numerals
  import opened RadixTable
  import opened Whitespace
  import opened IntParse

  /** No prefix, a single zero, or a zero and a radix letter. */
  datatype Prefix = Bare | Octal | Marked(letter: byte)

  datatype Body = LoneZero | Numeral(prefix: Prefix, digits: Bytes)

  /** The syntax tree of an integer literal. */
  datatype Literal = Literal(lead: Bytes, sign: Option<Sign>, body: Body, trail: Bytes)

  function PrefixText(p: Prefix): Bytes {
    match p
    case Bare => []
    case Octal => [ZERO]
    case Marked(letter) => [ZERO, letter]
  }

  function BodyText(b: Body): Bytes {
    match b
    case LoneZero => [ZERO]
    case Numeral(p, digits) => PrefixText(p) + digits
  }

  function SignText(sign: Option<Sign>): Bytes {
    match sign
    case None => []
    case Some(Positive) => [PLUS]
    case Some(Negative) => [MINUS]
  }

  function Text(lit: Literal): Bytes {
    lit.lead + (SignText(lit.sign) + BodyText(lit.body)) + lit.trail
  }

  /** The radix a prefix puts in force, given the caller's base. */
  function PrefixRadix(p: Prefix, base: Option<Radix>): Radix {
    match p
    case Bare => if base.Some? then base.value else 10
    case Octal => if base.Some? then base.value else 8
    case Marked(letter) => if MarkerRadix(letter).Some? then MarkerRadix(letter).value else 10
  }

  /** A letter must agree with the caller's base; without one the next byte must not be a letter. */
  predicate PrefixFits(p: Prefix, next: byte, base: Option<Radix>) {
    match p
    case Bare => next != ZERO
    case Octal => MarkerRadix(next).None?
    case Marked(letter) => MarkerRadix(letter).Some? && (base.None? || base == MarkerRadix(letter))
  }

  predicate BodyWellFormed(b: Body, base: Option<Radix>) {
    b.Numeral? ==> DigitGroup(b.digits, PrefixRadix(b.prefix, base)) && PrefixFits(b.prefix, b.digits[0], base)
  }

  function BodyValue(b: Body, base: Option<Radix>): nat
    requires BodyWellFormed(b, base)
  {
    if b.LoneZero? then 0 else GroupValue(b.digits, PrefixRadix(b.prefix, base))
  }

  predicate WellFormed(lit: Literal, base: Option<Radix>) {
    AllSpace(lit.lead) && AllSpace(lit.trail) && BodyWellFormed(lit.body, base)
  }

  function Value(lit: Literal, base: Option<Radix>): int
    requires WellFormed(lit, base)
  {
    Signed(lit.sign != Some(Negative), BodyValue(lit.body, base))
  }

  /** `subject` is the text of a literal worth `v` under the given radix argument. */
  ghost predicate Denotes(subject: Bytes, radix: Option<i64>, v: int) {
    var base := RadixArgument(subject, radix);
    base.Ok? && exists lit :: WellFormed(lit, base.value) && Text(lit) == subject && Value(lit, base.value) == v
  }

  lemma MagnitudeOfBody(b: Body, base: Option<Radix>)
    requires BodyWellFormed(b, base)
    ensures Magnitude(BodyText(b), base) == Some(BodyValue(b, base))
  {
    match b {
      case LoneZero =>
      case Numeral(p, digits) =>
        PrefixReadsBack(p, digits, base);
    }
  }

  lemma PrefixReadsBack(p: Prefix, digits: Bytes, base: Option<Radix>)
    requires digits != [] && PrefixFits(p, digits[0], base)
    ensures PrefixText(p) + digits != [ZERO]
    ensures AfterPrefix(PrefixText(p) + digits, base) == Some((PrefixRadix(p, base), digits))
  {
    var text := PrefixText(p) + digits;
    match p {
      case Bare => assert text == digits;
      case Octal => assert text[1..] == digits && text[1] == digits[0];
      case Marked(letter) => assert text[2..] == digits && text[1] == letter;
    }
  }

  /** A body is made of alphanumeric bytes and underscores. */
  predicate IsPlain(s: Bytes) {
    forall i :: 0 <= i < |s| ==> DigitValue(s[i]).Some? || s[i] == UNDERSCORE
  }

  lemma BodyIsPlain(b: Body, base: Option<Radix>)
    requires BodyWellFormed(b, base)
    ensures BodyText(b) != [] && IsPlain(BodyText(b))
  {
    if b.Numeral? {
      assert IsPlain(PrefixText(b.prefix));
      assert IsPlain(b.digits);
    }
  }

  lemma BodyOfMagnitude(text: Bytes, base: Option<Radix>) returns (b: Body)
    requires Magnitude(text, base).Some?
    ensures BodyWellFormed(b, base) && BodyText(b) == text
    ensures Magnitude(text, base) == Some(BodyValue(b, base))
  {
    if text == [ZERO] {
      b := LoneZero;
    } else if text[0] != ZERO {
      b := Numeral(Bare, text);
      assert BodyText(b) == text;
    } else if MarkerRadix(text[1]).Some? {
      b := Numeral(Marked(text[1]), text[2..]);
      assert BodyText(b) == text;
    } else {
      b := Numeral(Octal, text[1..]);
      assert BodyText(b) == text;
    }
  }

  lemma PlainCore(sign: Option<Sign>, body: Bytes)
    requires body != [] && IsPlain(body)
    ensures IsCore(SignText(sign) + body) && IsIntegerString(SignText(sign) + body)
  {
    var core := SignText(sign) + body;
    assert core[|core| - 1] == body[|body| - 1];
  }

  lemma SignReadsBack(sign: Option<Sign>, body: Bytes, base: Option<Radix>, m: nat)
    requires body != [] && IsPlain(body) && Magnitude(body, base) == Some(m)
    ensures SignedMagnitude(SignText(sign) + body, base) == Some(Signed(sign != Some(Negative), m))
  {
    var core := SignText(sign) + body;
    assert if sign.Some? then core[1..] == body else core == body;
  }

  /** Every literal is ASCII, trims to its signed body and parses to its value. */
  lemma SignedMagnitudeOfLiteral(lit: Literal, base: Option<Radix>)
    requires WellFormed(lit, base)
    ensures IsIntegerString(Text(lit))
    ensures Trim(Text(lit)) == SignText(lit.sign) + BodyText(lit.body)
    ensures FirstNonSpace(Text(lit)) == Some(|lit.lead|)
    ensures SignedMagnitude(Trim(Text(lit)), base) == Some(Value(lit, base))
  {
    BodyIsPlain(lit.body, base);
    MagnitudeOfBody(lit.body, base);
    PlainCore(lit.sign, BodyText(lit.body));
    SignReadsBack(lit.sign, BodyText(lit.body), base, BodyValue(lit.body, base));
    TrimRecovers(lit.lead, SignText(lit.sign) + BodyText(lit.body), lit.trail);
  }

  /** A literal parses to its value, unless the value does not fit. */
  lemma ParseOfLiteral(lit: Literal, radix: Option<i64>, base: Option<Radix>)
    requires WellFormed(lit, base) && RadixArgument(Text(lit), radix) == Ok(base)
    ensures Parse(Text(lit), radix) ==
            if FitsI64(Value(lit, base)) then Ok(Value(lit, base)) else Err(Argument(Text(lit)))
  {
    SignedMagnitudeOfLiteral(lit, base);
  }

  /** What the parser accepts is the text of a literal of the same value. */
  lemma LiteralOfSignedMagnitude(subject: Bytes, base: Option<Radix>) returns (lit: Literal)
    requires SignedMagnitude(Trim(subject), base).Some?
    ensures WellFormed(lit, base) && Text(lit) == subject
    ensures SignedMagnitude(Trim(subject), base) == Some(Value(lit, base))
  {
    var lead, trail := TrimSplits(subject);
    if AllSpace(subject) {
      SpaceHasNoMagnitude(subject, base);
      assert false;
    }
    var sign, body := SplitCore(Trim(subject), base);
    lit := Literal(lead, sign, body, trail);
  }

  lemma SplitCore(core: Bytes, base: Option<Radix>) returns (sign: Option<Sign>, body: Body)
    requires SignedMagnitude(core, base).Some?
    ensures BodyWellFormed(body, base) && SignText(sign) + BodyText(body) == core
    ensures SignedMagnitude(core, base) == Some(Signed(sign != Some(Negative), BodyValue(body, base)))
  {
    if core != [] && (core[0] == PLUS || core[0] == MINUS) {
      body := BodyOfMagnitude(core[1..], base);
      sign := Some(if core[0] == PLUS then Positive else Negative);
      assert SignText(sign) == core[..1];
    } else {
      body := BodyOfMagnitude(core, base);
      sign := None;
      assert SignText(sign) + core == core;
    }
  }

  lemma SpaceHasNoMagnitude(s: Bytes, base: Option<Radix>)
    requires AllSpace(s)
    ensures SignedMagnitude(s, base).None?
  {
    if s != [] {
      assert IsSpace(s[0]);
    }
  }

  /**
   * `parse` returns `Ok(v)` exactly when the input is the text of a literal worth `v` and
   * `v` fits an `i64`.
   */
  lemma ParseExact(subject: Bytes, radix: Option<i64>, v: int)
    ensures (Parse(subject, radix).Ok? && Parse(subject, radix).value == v)
       <==> (Denotes(subject, radix, v) && -9223372036854775808 <= v <= 9223372036854775807)
  {
    var base := RadixArgument(subject, radix);
    if base.Ok? {
      if Denotes(subject, radix, v) {
        var lit :| WellFormed(lit, base.value) && Text(lit) == subject && Value(lit, base.value) == v;
        ParseOfLiteral(lit, radix, base.value);
      }
      if Parse(subject, radix).Ok? {
        var lit := LiteralOfSignedMagnitude(subject, base.value);
      }
    }
  }

  /**
   * Once the grammar accepts, the only remaining failure is a value outside `i64`; every
   * other input is refused, and the refusal names the input unless the radix is at fault.
   */
  lemma ParseFailsExact(subject: Bytes, radix: Option<i64>)
    ensures Parse(subject, radix).Err? <==> forall v :: Denotes(subject, radix, v) ==> !FitsI64(v)
    ensures Parse(subject, radix).Err? && Parse(subject, radix).error != Argument(subject)
       <==> (forall i :: 0 <= i < |subject| ==> 1 <= subject[i] <= 127) && RadixArgument(subject, radix).Err?
  {
    forall v
      ensures (Parse(subject, radix).Ok? && Parse(subject, radix).value == v)
         <==> (Denotes(subject, radix, v) && FitsI64(v))
    {
      ParseExact(subject, radix, v);
    }
    if Parse(subject, radix).Ok? {
      ParseExact(subject, radix, Parse(subject, radix).value);
    }
  }

  /** A text has at most one value. */
  lemma DenotesOnce(subject: Bytes, radix: Option<i64>, v: int, w: int)
    requires Denotes(subject, radix, v) && Denotes(subject, radix, w)
    ensures v == w
  {
    var base := RadixArgument(subject, radix).value;
    var a :| WellFormed(a, base) && Text(a) == subject && Value(a, base) == v;
    var b :| WellFormed(b, base) && Text(b) == subject && Value(b, base) == w;
    SignedMagnitudeOfLiteral(a, base);
    SignedMagnitudeOfLiteral(b, base);
  }

  // ---- No ambiguity ----

  lemma PrefixTextIsInjective(p: Prefix, q: Prefix, digits: Bytes)
    requires PrefixText(p) + digits == PrefixText(q) + digits
    ensures p == q
  {
    assert |PrefixText(p)| == |PrefixText(q)|;
    assert p.Marked? ==> (PrefixText(p) + digits)[1] == p.letter;
    assert q.Marked? ==> (PrefixText(q) + digits)[1] == q.letter;
  }

  lemma BodyTextIsInjective(a: Body, b: Body, base: Option<Radix>)
    requires BodyWellFormed(a, base) && BodyWellFormed(b, base) && BodyText(a) == BodyText(b)
    ensures a == b
  {
    if a.Numeral? {
      PrefixReadsBack(a.prefix, a.digits, base);
    }
    if b.Numeral? {
      PrefixReadsBack(b.prefix, b.digits, base);
    }
    if a.Numeral? && b.Numeral? {
      assert a.digits == b.digits;
      PrefixTextIsInjective(a.prefix, b.prefix, a.digits);
    }
  }

  lemma SignedTextIsInjective(s: Option<Sign>, x: Bytes, t: Option<Sign>, y: Bytes)
    requires x != [] && y != [] && IsPlain(x) && IsPlain(y)
    requires SignText(s) + x == SignText(t) + y
    ensures s == t && x == y
  {
    var u := SignText(s) + x;
    assert u[0] == (SignText(t) + y)[0];
    assert x == u[|SignText(s)|..] && y == u[|SignText(t)|..];
  }

  /** Under a given base a text has at most one syntax tree. */
  lemma LiteralsAreUnambiguous(a: Literal, b: Literal, base: Option<Radix>)
    requires WellFormed(a, base) && WellFormed(b, base) && Text(a) == Text(b)
    ensures a == b
  {
    SignedMagnitudeOfLiteral(a, base);
    SignedMagnitudeOfLiteral(b, base);
    BodyIsPlain(a.body, base);
    BodyIsPlain(b.body, base);
    SignedTextIsInjective(a.sign, BodyText(a.body), b.sign, BodyText(b.body));
    BodyTextIsInjective(a.body, b.body, base);
    SurroundingsAreEqual(a.lead, b.lead, SignText(a.sign) + BodyText(a.body), a.trail, b.trail);
  }

  lemma SurroundingsAreEqual(a: Bytes, b: Bytes, core: Bytes, x: Bytes, y: Bytes)
    requires |a| == |b| && a + core + x == b + core + y
    ensures a == b && x == y
  {
    assert a == (a + core + x)[..|a|] && b == (b + core + y)[..|b|];
    assert x == (a + core + x)[|a + core|..] && y == (b + core + y)[|b + core|..];
  }
}
