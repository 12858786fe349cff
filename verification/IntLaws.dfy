/** Laws of `parse`: printing is undone, and spelling choices do not change the outcome. */
module IntLaws {
  import opened Common
  import opened Numerals
  import opened RadixTable
  import opened Whitespace
  import opened IntParse
  import opened IntGrammar

  // ---- Printing and parsing ----

  function DigitByte(d: nat): byte
    requires d < 36
  {
    if d < 10 then 48 + d else 87 + d
  }

  lemma DivShrinks(m: nat, radix: Radix)
    ensures 0 <= m / radix && m % radix < radix
    ensures m >= radix ==> 0 < m / radix < m
    ensures m == m / radix * radix + m % radix
  {
  }

  /** Canonical text of a natural number: lower-case digits, no leading zero. */
  function PrintNat(m: nat, radix: Radix): Bytes
    decreases m
  {
    if m < radix then [DigitByte(m)]
    else
      DivShrinks(m, radix);
      PrintNat(m / radix, radix) + [DigitByte(m % radix)]
  }

  function Print(n: int, radix: Radix): Bytes {
    if n < 0 then [MINUS] + PrintNat(-n, radix) else PrintNat(n, radix)
  }

  lemma {:induction false} PrintNatValue(m: nat, radix: Radix)
    ensures PrintNat(m, radix) != [] && AllDigits(PrintNat(m, radix), radix)
    ensures Horner(PrintNat(m, radix), radix) == m
    ensures m > 0 ==> PrintNat(m, radix)[0] != ZERO
    decreases m
  {
    if m < radix {
      assert Horner([DigitByte(m)][..0], radix) == 0;
    } else {
      DivShrinks(m, radix);
      var init, last := PrintNat(m / radix, radix), DigitByte(m % radix);
      PrintNatValue(m / radix, radix);
      assert (init + [last])[..|init|] == init;
    }
  }

  lemma {:induction false} NothingToCollect(ds: Bytes)
    requires forall i :: 0 <= i < |ds| ==> ds[i] != UNDERSCORE
    ensures Collected(ds) == ds
  {
    if ds != [] {
      NothingToCollect(ds[..|ds| - 1]);
    }
  }

  lemma DigitsAreAGroup(ds: Bytes, radix: Radix)
    requires ds != [] && AllDigits(ds, radix) && ds[0] != ZERO
    ensures DigitGroup(ds, radix) && GroupValue(ds, radix) == Horner(ds, radix)
  {
    forall i | 0 <= i < |ds|
      ensures ds[i] != UNDERSCORE
    {
      assert IsDigit(ds[i], radix);
    }
    NothingToCollect(ds);
  }

  lemma PrintedGroup(m: nat, radix: Radix)
    requires m > 0
    ensures DigitGroup(PrintNat(m, radix), radix) && GroupValue(PrintNat(m, radix), radix) == m
    ensures PrintNat(m, radix)[0] != ZERO
  {
    PrintNatValue(m, radix);
    DigitsAreAGroup(PrintNat(m, radix), radix);
  }

  lemma PrintedBody(m: nat, base: Option<Radix>, radix: Radix) returns (b: Body)
    requires base == Some(radix) || (base.None? && (m == 0 || radix == 10))
    ensures BodyWellFormed(b, base) && BodyText(b) == PrintNat(m, radix) && BodyValue(b, base) == m
  {
    if m == 0 {
      b := LoneZero;
    } else {
      PrintedGroup(m, radix);
      b := Numeral(Bare, PrintNat(m, radix));
      assert PrefixRadix(Bare, base) == radix;
    }
  }

  lemma PrintedLiteral(n: int, radix: Radix, base: Option<Radix>) returns (lit: Literal)
    requires base == Some(radix) || (base.None? && (n == 0 || radix == 10))
    ensures WellFormed(lit, base) && Text(lit) == Print(n, radix) && Value(lit, base) == n
  {
    var body := PrintedBody(Abs(n), base, radix);
    var sign := if n < 0 then Some(Negative) else None;
    lit := Literal([], sign, body, []);
    var core := SignText(sign) + BodyText(body);
    assert core == Print(n, radix);
    assert Text(lit) == [] + core + [];
  }

  lemma PrintLeadsWithZero(n: int, radix: Radix)
    ensures LeadsWithZero(Print(n, radix)) <==> n == 0
  {
    var text := Print(n, radix);
    PrintNatValue(Abs(n), radix);
    assert text[0] == if n < 0 then MINUS else PrintNat(Abs(n), radix)[0];
    assert IsDigit(PrintNat(Abs(n), radix)[0], radix);
    FirstIs(text, 0);
  }

  lemma PrintedParses(n: i64, radix: Radix, argument: Option<i64>, base: Option<Radix>)
    requires RadixArgument(Print(n, radix), argument) == Ok(base)
    requires base == Some(radix) || (base.None? && (n == 0 || radix == 10))
    ensures Parse(Print(n, radix), argument) == Ok(n)
  {
    var lit := PrintedLiteral(n, radix, base);
    ParseOfLiteral(lit, argument, base);
  }

  /**
   * Every `i64`, in every radix from 2 to 36, parses back from its canonical text, whether
   * the radix is given as itself or negated; base 10 needs no radix argument.
   */
  lemma PrintParseRoundTrip(n: i64, radix: Radix)
    ensures Parse(Print(n, radix), Some(radix)) == Ok(n)
    ensures Parse(Print(n, radix), Some(-(radix as int))) == Ok(n)
    ensures Parse(Print(n, 10), None) == Ok(n)
  {
    var text := Print(n, radix);
    PrintLeadsWithZero(n, radix);
    RadixArgumentExact(text, radix, radix);
    RadixArgumentExact(text, -(radix as int), radix);
    PrintedParses(n, radix, Some(radix), Some(radix));
    PrintedParses(n, radix, Some(-(radix as int)), if n == 0 then None else Some(radix));
    PrintedParses(n, 10, None, None);
  }

  // ---- Surrounding whitespace ----

  /** Same value, or the same failure up to the input an argument error carries. */
  predicate SameOutcome(a: Result<i64, ParseError>, b: Result<i64, ParseError>) {
    a == b || (a.Err? && b.Err? && a.error.Argument? && b.error.Argument?)
  }

  /** The outcome depends only on ASCII-ness, the trimmed text and the first byte. */
  lemma OutcomeDependsOnTrimmed(s: Bytes, t: Bytes, radix: Option<i64>)
    requires IsIntegerString(s) == IsIntegerString(t)
    requires LeadsWithZero(s) == LeadsWithZero(t)
    requires forall base :: SignedMagnitude(Trim(s), base) == SignedMagnitude(Trim(t), base)
    ensures SameOutcome(Parse(s, radix), Parse(t, radix))
  {
    var base := RadixArgument(s, radix);
    assert base == RadixArgument(t, radix);
    if base.Ok? {
      assert SignedMagnitude(Trim(s), base.value) == SignedMagnitude(Trim(t), base.value);
    }
  }

  lemma CoreLeads(lead: Bytes, core: Bytes, trail: Bytes)
    requires AllSpace(lead) && IsCore(core) && AllSpace(trail)
    ensures Trim(lead + core + trail) == core
    ensures LeadsWithZero(lead + core + trail) <==> core[0] == ZERO
  {
    TrimRecovers(lead, core, trail);
    assert (lead + core + trail)[|lead|] == core[0];
  }

  lemma SurroundedCore(lead: Bytes, s: Bytes, trail: Bytes)
    requires AllSpace(lead) && AllSpace(trail) && !AllSpace(s)
    ensures Trim(lead + s + trail) == Trim(s)
    ensures LeadsWithZero(lead + s + trail) == LeadsWithZero(s)
  {
    var l, r := TrimSplits(s);
    var core := Trim(s);
    ConcatIsAssociative(lead, l, core);
    ConcatIsAssociative(lead, l + core, r);
    ConcatIsAssociative(lead + l + core, r, trail);
    assert lead + s + trail == (lead + l) + core + (r + trail);
    CoreLeads(lead + l, core, r + trail);
    CoreLeads(l, core, r);
  }

  lemma SurroundedBlank(lead: Bytes, s: Bytes, trail: Bytes)
    requires AllSpace(lead) && AllSpace(trail) && AllSpace(s)
    ensures AllSpace(lead + s + trail)
  {
  }

  lemma SurroundedAscii(lead: Bytes, s: Bytes, trail: Bytes)
    requires AllSpace(lead) && AllSpace(trail)
    ensures IsIntegerString(lead + s + trail) == IsIntegerString(s)
  {
    assert forall i :: 0 <= i < |s| ==> (lead + s + trail)[|lead| + i] == s[i];
  }

  lemma BlankIsRefused(s: Bytes, radix: Option<i64>)
    requires AllSpace(s)
    ensures !LeadsWithZero(s)
    ensures RadixArgument(s, radix).Ok? ==> Parse(s, radix) == Err(Argument(s))
  {
    if RadixArgument(s, radix).Ok? {
      SpaceHasNoMagnitude(s, RadixArgument(s, radix).value);
    }
  }

  /** Whitespace around the text changes nothing. */
  lemma WhitespaceIsIrrelevant(lead: Bytes, s: Bytes, trail: Bytes, radix: Option<i64>)
    requires AllSpace(lead) && AllSpace(trail)
    ensures SameOutcome(Parse(lead + s + trail, radix), Parse(s, radix))
  {
    SurroundedAscii(lead, s, trail);
    if AllSpace(s) {
      SurroundedBlank(lead, s, trail);
      BlankIsRefused(s, radix);
      BlankIsRefused(lead + s + trail, radix);
    } else {
      SurroundedCore(lead, s, trail);
      OutcomeDependsOnTrimmed(lead + s + trail, s, radix);
    }
  }

  // ---- Letter case ----

  function Lower(b: byte): byte { if 65 <= b <= 90 then b + 32 else b }

  predicate SameLetters(s: Bytes, t: Bytes) {
    |s| == |t| && forall i :: 0 <= i < |s| ==> Lower(s[i]) == Lower(t[i])
  }

  lemma {:induction false} SameLettersSameValue(s: Bytes, t: Bytes, radix: Radix)
    requires SameLetters(s, t)
    ensures DigitsOrUnderscores(s, radix) == DigitsOrUnderscores(t, radix)
    ensures DigitsOrUnderscores(s, radix) ==> GroupValue(s, radix) == GroupValue(t, radix)
  {
    assert forall i :: 0 <= i < |s| ==>
        (s[i] == UNDERSCORE <==> t[i] == UNDERSCORE) && DigitValue(s[i]) == DigitValue(t[i]);
    if s != [] && DigitsOrUnderscores(s, radix) {
      var k := |s| - 1;
      assert s == s[..k] + [s[k]] && t == t[..k] + [t[k]];
      SameLettersSameValue(s[..k], t[..k], radix);
      GroupAppend(s[..k], s[k], radix);
      GroupAppend(t[..k], t[k], radix);
    }
  }

  lemma SameLettersSameGroup(s: Bytes, t: Bytes, radix: Radix)
    requires SameLetters(s, t)
    ensures DigitGroup(s, radix) == DigitGroup(t, radix)
    ensures DigitGroup(s, radix) ==> GroupValue(s, radix) == GroupValue(t, radix)
  {
    SameLettersSameValue(s, t, radix);
    assert forall i :: 0 <= i < |s| ==>
        (s[i] == UNDERSCORE <==> t[i] == UNDERSCORE) && (s[i] == ZERO <==> t[i] == ZERO);
  }

  /** Case does not change which prefix is read. */
  lemma SameLettersSamePrefix(s: Bytes, t: Bytes, base: Option<Radix>)
    requires SameLetters(s, t)
    ensures AfterPrefix(s, base).Some? == AfterPrefix(t, base).Some?
    ensures AfterPrefix(s, base).Some? ==>
              && AfterPrefix(s, base).value.0 == AfterPrefix(t, base).value.0
              && SameLetters(AfterPrefix(s, base).value.1, AfterPrefix(t, base).value.1)
  {
    assert |s| > 0 ==> (s[0] == ZERO <==> t[0] == ZERO);
    assert |s| > 1 ==> MarkerRadix(s[1]) == MarkerRadix(t[1]);
  }

  lemma SameLettersSameMagnitude(s: Bytes, t: Bytes, base: Option<Radix>)
    requires SameLetters(s, t)
    ensures Magnitude(s, base) == Magnitude(t, base)
  {
    var a, b := AfterPrefix(s, base), AfterPrefix(t, base);
    SameLettersSamePrefix(s, t, base);
    assert s == [ZERO] <==> t == [ZERO];
    if a.Some? {
      SameLettersSameGroup(a.value.1, b.value.1, a.value.0);
    }
  }

  lemma SameLettersSameTrim(s: Bytes, t: Bytes)
    requires SameLetters(s, t)
    ensures SameLetters(Trim(s), Trim(t)) && SameLetters(TrimLeading(s), TrimLeading(t))
  {
    SameSpacesSameEnds(s, t);
    SameSpacesSameEnds(TrimLeading(s), TrimLeading(t));
  }

  lemma SameSpacesSameEnds(s: Bytes, t: Bytes)
    requires |s| == |t| && forall i :: 0 <= i < |s| ==> IsSpace(s[i]) == IsSpace(t[i])
    ensures FirstNonSpace(s) == FirstNonSpace(t) && LastNonSpace(s) == LastNonSpace(t)
  {
    if !AllSpace(s) {
      FirstIs(t, FirstNonSpace(s).value);
      LastIs(t, LastNonSpace(s).value);
    }
  }

  lemma SameLettersSameSigned(a: Bytes, b: Bytes, base: Option<Radix>)
    requires SameLetters(a, b)
    ensures SignedMagnitude(a, base) == SignedMagnitude(b, base)
  {
    if a != [] && (a[0] == PLUS || a[0] == MINUS) {
      SameLettersSameMagnitude(a[1..], b[1..], base);
    } else {
      SameLettersSameMagnitude(a, b, base);
    }
  }

  lemma SameLettersSameStart(s: Bytes, t: Bytes)
    requires SameLetters(s, t) && SameLetters(TrimLeading(s), TrimLeading(t))
    ensures IsIntegerString(s) == IsIntegerString(t) && LeadsWithZero(s) == LeadsWithZero(t)
  {
    assert forall i :: 0 <= i < |s| ==> (0 < s[i] < 128 <==> 0 < t[i] < 128);
  }

  /** Texts that differ only in the case of letters have the same outcome. */
  lemma CaseIsIrrelevant(s: Bytes, t: Bytes, radix: Option<i64>)
    requires SameLetters(s, t)
    ensures SameOutcome(Parse(s, radix), Parse(t, radix))
  {
    SameLettersSameTrim(s, t);
    SameLettersSameStart(s, t);
    forall base
      ensures SignedMagnitude(Trim(s), base) == SignedMagnitude(Trim(t), base)
    {
      SameLettersSameSigned(Trim(s), Trim(t), base);
    }
    OutcomeDependsOnTrimmed(s, t, radix);
  }

  // ---- Underscores and leading zeros ----

  /** The radix argument sees only the first byte after the whitespace. */
  lemma SameFirstByteSameRadix(s: Bytes, t: Bytes, radix: Option<i64>)
    requires FirstNonSpace(s).Some? && FirstNonSpace(t).Some?
    requires s[FirstNonSpace(s).value] == t[FirstNonSpace(t).value]
    ensures RadixArgument(s, radix) == RadixArgument(t, radix)
  {
  }

  function WithDigits(lit: Literal, digits: Bytes): Literal
    requires lit.body.Numeral?
  {
    lit.(body := Numeral(lit.body.prefix, digits))
  }

  /** A literal that parses keeps its outcome when its digits are respelled to the same value. */
  lemma Respelled(lit: Literal, digits: Bytes, radix: Option<i64>, base: Option<Radix>)
    requires RadixArgument(Text(lit), radix) == Ok(base)
    requires WellFormed(lit, base) && lit.body.Numeral?
    requires digits != [] && (lit.body.prefix.Marked? || digits[0] == lit.body.digits[0])
    requires DigitGroup(digits, PrefixRadix(lit.body.prefix, base))
    requires GroupValue(digits, PrefixRadix(lit.body.prefix, base)) == BodyValue(lit.body, base)
    ensures SameOutcome(Parse(Text(lit), radix), Parse(Text(WithDigits(lit, digits)), radix))
  {
    var lit' := WithDigits(lit, digits);
    RespelledRadix(lit, digits, radix, base);
    ParseOfLiteral(lit, radix, base);
    ParseOfLiteral(lit', radix, base);
  }

  lemma RespelledRadix(lit: Literal, digits: Bytes, radix: Option<i64>, base: Option<Radix>)
    requires WellFormed(lit, base) && lit.body.Numeral?
    requires digits != [] && (lit.body.prefix.Marked? || digits[0] == lit.body.digits[0])
    requires WellFormed(WithDigits(lit, digits), base)
    ensures RadixArgument(Text(lit), radix) == RadixArgument(Text(WithDigits(lit, digits)), radix)
  {
    var lit' := WithDigits(lit, digits);
    SignedMagnitudeOfLiteral(lit, base);
    SignedMagnitudeOfLiteral(lit', base);
    var core, core' := SignText(lit.sign) + BodyText(lit.body), SignText(lit.sign) + BodyText(lit'.body);
    assert core[0] == core'[0];
    assert Text(lit)[|lit.lead|] == core[0] && Text(lit')[|lit.lead|] == core'[0];
    SameFirstByteSameRadix(Text(lit), Text(lit'), radix);
  }

  lemma {:induction false} UnderscoreKeepsValue(a: Bytes, b: Bytes, radix: Radix)
    requires DigitsOrUnderscores(a + b, radix)
    ensures DigitsOrUnderscores(a + [UNDERSCORE] + b, radix)
    ensures GroupValue(a + [UNDERSCORE] + b, radix) == GroupValue(a + b, radix)
  {
    assert forall i :: 0 <= i < |a| ==> a[i] == (a + b)[i];
    assert forall i :: 0 <= i < |b| ==> b[i] == (a + b)[|a| + i];
    if b == [] {
      assert a + b == a && a + [UNDERSCORE] + b == a + [UNDERSCORE];
      GroupAppend(a, UNDERSCORE, radix);
    } else {
      var init, last := b[..|b| - 1], b[|b| - 1];
      assert a + b == (a + init) + [last];
      assert a + [UNDERSCORE] + b == (a + [UNDERSCORE] + init) + [last];
      assert forall i :: 0 <= i < |a + init| ==> (a + init)[i] == (a + b)[i];
      UnderscoreKeepsValue(a, init, radix);
      GroupAppend(a + init, last, radix);
      GroupAppend(a + [UNDERSCORE] + init, last, radix);
    }
  }

  lemma UnderscoreKeepsGroup(a: Bytes, b: Bytes, radix: Radix)
    requires DigitGroup(a + b, radix)
    requires a != [] && b != [] && a[|a| - 1] != UNDERSCORE && b[0] != UNDERSCORE
    ensures DigitGroup(a + [UNDERSCORE] + b, radix)
  {
    var plain, spaced := a + b, a + [UNDERSCORE] + b;
    UnderscoreKeepsValue(a, b, radix);
    forall i | 0 <= i < |spaced| && spaced[i] == UNDERSCORE
      ensures 0 < i < |spaced| - 1 && spaced[i + 1] != UNDERSCORE
    {
      if i < |a| {
        assert plain[i] == UNDERSCORE && (i + 1 < |a| ==> plain[i + 1] == spaced[i + 1]);
      } else if i > |a| {
        assert plain[i - 1] == UNDERSCORE && plain[i] == spaced[i + 1];
      }
    }
    var k :| 0 <= k < |plain| && plain[k] != UNDERSCORE && plain[k] != ZERO;
    assert spaced[if k < |a| then k else k + 1] == plain[k];
  }

  /** One underscore between two digits of an accepted literal changes nothing. */
  lemma UnderscoreIsIrrelevant(lit: Literal, a: Bytes, b: Bytes, radix: Option<i64>, base: Option<Radix>)
    requires RadixArgument(Text(lit), radix) == Ok(base)
    requires WellFormed(lit, base) && lit.body.Numeral? && lit.body.digits == a + b
    requires a != [] && b != [] && a[|a| - 1] != UNDERSCORE && b[0] != UNDERSCORE
    ensures SameOutcome(Parse(Text(lit), radix), Parse(Text(WithDigits(lit, a + [UNDERSCORE] + b)), radix))
  {
    var r := PrefixRadix(lit.body.prefix, base);
    UnderscoreKeepsGroup(a, b, r);
    UnderscoreKeepsValue(a, b, r);
    Respelled(lit, a + [UNDERSCORE] + b, radix, base);
  }

  /** Zeros right after an explicit radix letter change nothing. */
  lemma ZerosAfterPrefixAreIrrelevant(lit: Literal, zeros: Bytes, radix: Option<i64>, base: Option<Radix>)
    requires RadixArgument(Text(lit), radix) == Ok(base)
    requires WellFormed(lit, base) && lit.body.Numeral? && lit.body.prefix.Marked?
    requires forall i :: 0 <= i < |zeros| ==> zeros[i] == ZERO
    ensures SameOutcome(Parse(Text(lit), radix), Parse(Text(WithDigits(lit, zeros + lit.body.digits)), radix))
  {
    var r, digits := PrefixRadix(lit.body.prefix, base), lit.body.digits;
    var padded := zeros + digits;
    LeadingZerosAreWorthNothing(zeros, digits, r);
    assert forall i :: 0 <= i < |digits| ==> padded[|zeros| + i] == digits[i];
    assert forall i :: |zeros| <= i < |padded| ==> padded[i] == digits[i - |zeros|];
    Respelled(lit, padded, radix, base);
  }

  // ---- Zero ----

  lemma {:induction false} NonZeroGroupIsPositive(ds: Bytes, radix: Radix)
    requires DigitsOrUnderscores(ds, radix) && !ZerosOrUnderscores(ds)
    ensures GroupValue(ds, radix) > 0
  {
    var k := |ds| - 1;
    assert ds == ds[..k] + [ds[k]];
    GroupAppend(ds[..k], ds[k], radix);
    MulGrows(GroupValue(ds[..k], radix), radix);
    if ds[k] == UNDERSCORE || ds[k] == ZERO {
      NonZeroGroupIsPositive(ds[..k], radix);
    }
  }

  /** The texts that parse to zero: one `0`, with at most a sign and whitespace around it. */
  predicate IsLoneZero(s: Bytes) {
    var core := Trim(s);
    core == [ZERO] || core == [PLUS, ZERO] || core == [MINUS, ZERO]
  }

  /**
   * Zero has no other spelling: `00`, `0x0` and `0_0` are refused although their digits are
   * in order, because squeezing leaves nothing to convert.
   */
  lemma ZeroHasOneSpelling(s: Bytes, radix: Option<i64>)
    ensures Parse(s, radix) == Ok(0) <==> IsLoneZero(s) && IsIntegerString(s) && RadixArgument(s, radix).Ok?
  {
    var core := Trim(s);
    if RadixArgument(s, radix).Ok? {
      var base := RadixArgument(s, radix).value;
      var signed := core != [] && (core[0] == PLUS || core[0] == MINUS);
      var body := if signed then core[1..] else core;
      if body != [ZERO] && Magnitude(body, base).Some? {
        var (r, digits) := AfterPrefix(body, base).value;
        NonZeroGroupIsPositive(digits, r);
      }
      assert IsLoneZero(s) <==> body == [ZERO];
    }
  }

  lemma DoubledZeroIsRefused()
    ensures Parse([ZERO, ZERO], None) == Err(Argument([ZERO, ZERO]))
  {
    var s: Bytes := [ZERO, ZERO];
    FirstIs(s, 0);
    LastIs(s, 1);
    assert Trim(s) == s;
    assert AfterPrefix(s, None) == Some((8, s[1..]));
    assert ZerosOrUnderscores(s[1..]);
  }
}
