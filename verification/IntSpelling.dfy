/**
 * The spellings `parse` accepts, in bytes: which bytes are digits, how underscores may group
 * them, and which radix each prefix selects.
 */
module IntSpelling {
  import opened Common
  import opened Numerals
  import opened RadixTable
  import opened Whitespace
  import opened IntParse
  import opened IntGrammar
  import opened IntLaws

  /** `0` to `9`, then `a` to `z` in either case. */
  lemma DigitValueExact(b: byte, d: nat)
    ensures DigitValue(b) == Some(d) <==> d < 36 && (if d < 10 then b == 48 + d else b == 55 + d || b == 87 + d)
  {
  }

  // ---- Prefixes ----

  /** `0b`, `0o`, `0d` and `0x`, in either case. */
  predicate LetterFor(letter: byte, radix: Radix) {
    || (radix == 2 && (letter == 66 || letter == 98))
    || (radix == 8 && (letter == 79 || letter == 111))
    || (radix == 10 && (letter == 68 || letter == 100))
    || (radix == 16 && (letter == 88 || letter == 120))
  }

  /** The signs a number other than zero can be written with. */
  predicate SignFor(sign: Bytes, n: int) {
    if n < 0 then sign == [45] else sign == [] || sign == [43]
  }

  function SignOf(sign: Bytes): Option<Sign> {
    if sign == [43] then Some(Positive) else if sign == [45] then Some(Negative) else None
  }

  function Prefixed(sign: Bytes, prefix: Prefix, digits: Bytes): Literal {
    Literal([], SignOf(sign), Numeral(prefix, digits), [])
  }

  lemma PrefixedText(sign: Bytes, prefix: Prefix, digits: Bytes, n: int)
    requires SignFor(sign, n)
    ensures Text(Prefixed(sign, prefix, digits)) == sign + (PrefixText(prefix) + digits)
  {
    var body := PrefixText(prefix) + digits;
    assert SignText(SignOf(sign)) == sign;
    assert [] + (sign + body) + [] == sign + body;
  }

  /** The digits of a number in radix `r` behind a prefix that puts `r` in force. */
  lemma PrefixedParses(
    n: i64, sign: Bytes, prefix: Prefix, r: Radix, text: Bytes, argument: Option<i64>, base: Option<Radix>)
    requires n != 0 && SignFor(sign, n) && PrefixRadix(prefix, base) == r
    requires PrefixFits(prefix, PrintNat(Abs(n), r)[0], base)
    requires text == sign + (PrefixText(prefix) + PrintNat(Abs(n), r))
    requires RadixArgument(text, argument) == Ok(base)
    ensures Parse(text, argument) == Ok(n)
  {
    var lit := Prefixed(sign, prefix, PrintNat(Abs(n), r));
    PrefixedValue(n, sign, prefix, r, base);
    PrefixedText(sign, prefix, PrintNat(Abs(n), r), n);
    ParseOfLiteral(lit, argument, base);
  }

  lemma PrefixedValue(n: i64, sign: Bytes, prefix: Prefix, r: Radix, base: Option<Radix>)
    requires n != 0 && SignFor(sign, n) && PrefixRadix(prefix, base) == r
    requires PrefixFits(prefix, PrintNat(Abs(n), r)[0], base)
    ensures WellFormed(Prefixed(sign, prefix, PrintNat(Abs(n), r)), base)
    ensures Value(Prefixed(sign, prefix, PrintNat(Abs(n), r)), base) == n
  {
    PrintedGroup(Abs(n), r);
  }

  lemma PrintedIsPlain(m: nat, r: Radix)
    ensures PrintNat(m, r) != [] && IsPlain(PrintNat(m, r)) && IsDigit(PrintNat(m, r)[0], r)
  {
    var digits := PrintNat(m, r);
    PrintNatValue(m, r);
    assert forall i :: 0 <= i < |digits| ==> IsDigit(digits[i], r);
  }

  lemma TrimOfCore(core: Bytes)
    requires IsCore(core)
    ensures Trim(core) == core
  {
    TrimRecovers([], core, []);
    assert [] + core + [] == core;
  }

  lemma SignKeepsRefusal(sign: Option<Sign>, body: Bytes, base: Option<Radix>)
    requires body != [] && IsPlain(body) && Magnitude(body, base).None?
    ensures SignedMagnitude(SignText(sign) + body, base).None?
  {
    var core := SignText(sign) + body;
    assert if sign.Some? then core[1..] == body else core == body;
  }

  lemma OtherRadixHasNoMagnitude(body: Bytes, q: Radix)
    requires |body| >= 2 && body[0] == 48
    requires MarkerRadix(body[1]).Some? && MarkerRadix(body[1]).value != q
    ensures Magnitude(body, Some(q)).None?
  {
    assert AfterPrefix(body, Some(q)) == None;
  }

  /** A letter for another radix than the caller's is refused. */
  lemma OtherRadixRefused(sign: Bytes, body: Bytes, n: int, q: Radix)
    requires SignFor(sign, n) && |body| >= 2 && body[0] == 48 && IsPlain(body)
    requires MarkerRadix(body[1]).Some? && MarkerRadix(body[1]).value != q
    ensures Parse(sign + body, Some(q)) == Err(Argument(sign + body))
  {
    var text := sign + body;
    assert SignText(SignOf(sign)) == sign;
    PlainCore(SignOf(sign), body);
    TrimOfCore(text);
    OtherRadixHasNoMagnitude(body, q);
    SignKeepsRefusal(SignOf(sign), body, Some(q));
    PositiveArgument(text, q);
  }

  lemma PositiveArgument(text: Bytes, q: Radix)
    ensures RadixArgument(text, Some(q)) == Ok(Some(q))
  {
    RadixArgumentExact(text, q, q);
  }

  /**
   * Each prefix letter selects its radix, by itself or together with the same radix argument,
   * and is refused under every other radix.
   */
  lemma LetterRoundTrip(n: i64, sign: Bytes, letter: byte, r: Radix, q: Radix)
    requires n != 0 && SignFor(sign, n) && LetterFor(letter, r)
    ensures var text := sign + ([48, letter] + PrintNat(Abs(n), r));
            && Parse(text, None) == Ok(n)
            && Parse(text, Some(q)) == if q == r then Ok(n) else Err(Argument(text))
  {
    var text := sign + ([48, letter] + PrintNat(Abs(n), r));
    LetterMarks(letter, r);
    PrefixedParses(n, sign, Marked(letter), r, text, None, None);
    if q == r {
      PositiveArgument(text, r);
      PrefixedParses(n, sign, Marked(letter), r, text, Some(r), Some(r));
    } else {
      LetterRefused(n, sign, letter, r, q);
    }
  }

  lemma LetterMarks(letter: byte, r: Radix)
    requires LetterFor(letter, r)
    ensures MarkerRadix(letter) == Some(r) && PrefixText(Marked(letter)) == [48, letter]
    ensures IsPlain([48, letter])
  {
  }

  lemma LetterRefused(n: i64, sign: Bytes, letter: byte, r: Radix, q: Radix)
    requires SignFor(sign, n) && LetterFor(letter, r) && q != r
    ensures var text := sign + ([48, letter] + PrintNat(Abs(n), r));
            Parse(text, Some(q)) == Err(Argument(text))
  {
    LetterMarks(letter, r);
    PrintedIsPlain(Abs(n), r);
    PlainConcat([48, letter], PrintNat(Abs(n), r));
    OtherRadixRefused(sign, [48, letter] + PrintNat(Abs(n), r), n, q);
  }

  lemma PlainConcat(a: Bytes, b: Bytes)
    requires IsPlain(a) && IsPlain(b)
    ensures IsPlain(a + b)
  {
  }

  /** A zero alone selects octal. */
  lemma OctalRoundTrip(n: i64, sign: Bytes)
    requires n != 0 && SignFor(sign, n)
    ensures Parse(sign + ([48] + PrintNat(Abs(n), 8)), None) == Ok(n)
  {
    PrintedIsPlain(Abs(n), 8);
    PrefixedParses(n, sign, Octal, 8, sign + ([48] + PrintNat(Abs(n), 8)), None, None);
  }

  /** Under a radix argument a leading zero changes nothing, unless the first digit reads as a prefix letter. */
  lemma ZeroPrefixRoundTrip(n: i64, sign: Bytes, r: Radix)
    requires n != 0 && SignFor(sign, n)
    ensures var text := sign + ([48] + PrintNat(Abs(n), r));
            Parse(text, Some(r)) ==
            if PrintNat(Abs(n), r)[0] in [98, 100, 111, 120] then Err(Argument(text)) else Ok(n)
  {
    var digits := PrintNat(Abs(n), r);
    var text := sign + ([48] + digits);
    PrintedIsPlain(Abs(n), r);
    PrintsLowerCase(Abs(n), r);
    PositiveArgument(text, r);
    DigitNeverMarksItsRadix(digits[0], r);
    if digits[0] in [98, 100, 111, 120] {
      PlainConcat([48], digits);
      OtherRadixRefused(sign, [48] + digits, n, r);
    } else {
      PrefixedParses(n, sign, Octal, r, text, Some(r), Some(r));
    }
  }

  lemma DigitNeverMarksItsRadix(b: byte, r: Radix)
    requires IsDigit(b, r) && !(65 <= b <= 90)
    ensures MarkerRadix(b) != Some(r) && (MarkerRadix(b).Some? <==> b in [98, 100, 111, 120])
  {
  }

  lemma {:induction false} PrintsLowerCase(m: nat, radix: Radix)
    ensures !(65 <= PrintNat(m, radix)[0] <= 90)
    decreases m
  {
    if m >= radix {
      DivShrinks(m, radix);
      PrintNatValue(m / radix, radix);
      PrintsLowerCase(m / radix, radix);
    }
  }

  // ---- Digit groups ----

  /** Runs with one underscore between each two. */
  function Joined(runs: seq<Bytes>): Bytes {
    if runs == [] then []
    else if |runs| == 1 then runs[0]
    else runs[0] + [95] + Joined(runs[1..])
  }

  /** Non-empty runs of digits. */
  ghost predicate AreRuns(runs: seq<Bytes>, radix: Radix) {
    runs != [] && forall k :: 0 <= k < |runs| ==> runs[k] != [] && AllDigits(runs[k], radix)
  }

  lemma NoUnderscore(ds: Bytes, radix: Radix)
    requires AllDigits(ds, radix)
    ensures forall i :: 0 <= i < |ds| ==> ds[i] != 95
  {
    forall i | 0 <= i < |ds|
      ensures ds[i] != 95
    {
      assert IsDigit(ds[i], radix);
    }
  }

  lemma {:induction false} CollectedConcat(a: Bytes, b: Bytes)
    ensures Collected(a + b) == Collected(a) + Collected(b)
  {
    if b == [] {
      assert a + b == a;
    } else {
      LastOfConcat(a, b);
      CollectedConcat(a, b[..|b| - 1]);
      CollectedAppend(a + b[..|b| - 1], b[|b| - 1]);
      CollectedAppend(b[..|b| - 1], b[|b| - 1]);
    }
  }

  /** One more run in front of a well-placed group. */
  lemma RunInFront(run: Bytes, group: Bytes, radix: Radix)
    requires run != [] && AllDigits(run, radix)
    requires group != [] && group[0] != 95 && DigitsOrUnderscores(group, radix) && SingleInterior(group, |group|)
    ensures var ds := run + [95] + group;
            && ds[0] != 95 && DigitsOrUnderscores(ds, radix) && SingleInterior(ds, |ds|)
            && Collected(ds) == run + Collected(group)
  {
    var ds := run + [95] + group;
    NoUnderscore(run, radix);
    UnderscoreBetween(run, group);
    CollectedConcat(run + [95], group);
    CollectedAppend(run, 95);
    NothingToCollect(run);
  }

  lemma UnderscoreBetween(run: Bytes, group: Bytes)
    requires run != [] && group != [] && group[0] != 95 && SingleInterior(group, |group|)
    requires forall i :: 0 <= i < |run| ==> run[i] != 95
    ensures SingleInterior(run + [95] + group, |run + [95] + group|)
  {
    var ds := run + [95] + group;
    forall i | 0 <= i < |ds| && ds[i] == 95
      ensures 0 < i < |ds| - 1 && ds[i + 1] != 95
    {
      if i > |run| {
        assert group[i - |run| - 1] == 95;
        assert ds[i + 1] == group[i - |run|];
      }
    }
  }

  lemma {:induction false} RunsAreAGroup(runs: seq<Bytes>, radix: Radix)
    requires AreRuns(runs, radix)
    ensures var ds := Joined(runs);
            && ds != [] && ds[0] != 95 && DigitsOrUnderscores(ds, radix) && SingleInterior(ds, |ds|)
            && Collected(ds) == Flatten(runs)
  {
    NoUnderscore(runs[0], radix);
    if |runs| == 1 {
      NothingToCollect(runs[0]);
      assert Flatten(runs) == runs[0] + Flatten([]);
    } else {
      RunsAreAGroup(runs[1..], radix);
      RunInFront(runs[0], Joined(runs[1..]), radix);
    }
  }

  function FirstUnderscore(ds: Bytes): (at: nat)
    ensures at <= |ds| && (at < |ds| ==> ds[at] == 95)
    ensures forall i :: 0 <= i < at ==> ds[i] != 95
  {
    if ds == [] || ds[0] == 95 then 0 else 1 + FirstUnderscore(ds[1..])
  }

  lemma RestOfGroup(ds: Bytes, at: nat, radix: Radix)
    requires at < |ds| && ds[at] == 95 && DigitsOrUnderscores(ds, radix) && SingleInterior(ds, |ds|)
    ensures at > 0 && at + 1 < |ds|
    ensures var rest := ds[at + 1..];
            rest != [] && DigitsOrUnderscores(rest, radix) && SingleInterior(rest, |rest|)
  {
    var rest := ds[at + 1..];
    assert rest[0] == ds[at + 1];
    assert forall i :: 0 <= i < |rest| ==> rest[i] == ds[at + 1 + i];
    forall i | 0 <= i < |rest| && rest[i] == 95
      ensures 0 < i < |rest| - 1 && rest[i + 1] != 95
    {
      assert ds[at + 1 + i] == 95;
    }
  }

  lemma {:induction false} GroupIsRuns(ds: Bytes, radix: Radix) returns (runs: seq<Bytes>)
    requires ds != [] && DigitsOrUnderscores(ds, radix) && SingleInterior(ds, |ds|)
    ensures AreRuns(runs, radix) && Joined(runs) == ds
  {
    var at := FirstUnderscore(ds);
    var run := ds[..at];
    if at == |ds| {
      assert run == ds;
      runs := [ds];
    } else {
      var rest := ds[at + 1..];
      RestOfGroup(ds, at, radix);
      var more := GroupIsRuns(rest, radix);
      assert ([run] + more)[1..] == more;
      assert ds == run + [95] + rest;
      runs := [run] + more;
    }
  }

  /**
   * The digit groups are the non-empty runs of digits joined by single underscores, other
   * than those of zeros alone, and their value is that of the runs put together.
   */
  lemma DigitGroupExact(ds: Bytes, radix: Radix)
    ensures DigitGroup(ds, radix) <==>
              && (exists runs :: AreRuns(runs, radix) && Joined(runs) == ds)
              && (exists i :: 0 <= i < |ds| && ds[i] != 48 && ds[i] != 95)
    ensures forall runs :: AreRuns(runs, radix) && Joined(runs) == ds ==>
              AllDigits(Flatten(runs), radix) && GroupValueIs(ds, radix, Horner(Flatten(runs), radix))
  {
    if DigitGroup(ds, radix) {
      var runs := GroupIsRuns(ds, radix);
    }
    forall runs | AreRuns(runs, radix) && Joined(runs) == ds
      ensures DigitsOrUnderscores(ds, radix) && SingleInterior(ds, |ds|)
      ensures AllDigits(Flatten(runs), radix) && GroupValueIs(ds, radix, Horner(Flatten(runs), radix))
    {
      RunsAreAGroup(runs, radix);
      CollectedDigits(ds, radix);
    }
  }

  predicate GroupValueIs(ds: Bytes, radix: Radix, v: nat) {
    DigitsOrUnderscores(ds, radix) && GroupValue(ds, radix) == v
  }
}
