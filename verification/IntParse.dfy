/** `Kernel#Integer`: the eight-phase parser and the function it computes. */
module IntParse {
  import opened Common
  import opened Numerals
  import opened RadixTable
  import opened Whitespace

  datatype Sign = Positive | Negative

  /** ASCII without NUL bytes. */
  predicate IsIntegerString(subject: Bytes) {
    forall i :: 0 <= i < |subject| ==> 0 < subject[i] < 128
  }

  /** What the parser has accumulated so far. */
  datatype ParseState =
    | Initial(subject: Bytes)
    | SignSet(subject: Bytes, sign: Sign)
    | Accumulate(subject: Bytes, digits: Bytes)
  {
    function SetSign(sign: Sign): Result<ParseState, ParseError> {
      match this
      case SignSet(_, _) => Err(Argument(subject))
      case Accumulate(_, _) => Err(Argument(subject))
      case Initial(_) => Ok(SignSet(subject, sign))
    }

    function CollectDigit(digit: byte): ParseState {
      match this
      case Initial(_) => Accumulate(subject, [digit])
      case SignSet(_, Negative) => Accumulate(subject, [MINUS, digit])
      case SignSet(_, Positive) => Accumulate(subject, [digit])
      case Accumulate(_, digits) => Accumulate(subject, digits + [digit])
    }

    function IntoNumericString(): Result<Bytes, ParseError> {
      match this
      case Accumulate(_, digits) => Ok(digits)
      case Initial(_) => Err(Argument(subject))
      case SignSet(_, _) => Err(Argument(subject))
    }
  }

  /** The radix a letter after a leading zero selects. */
  function MarkerRadix(letter: byte): Option<Radix> {
    if letter == 66 || letter == 98 then Some(2)
    else if letter == 79 || letter == 111 then Some(8)
    else if letter == 68 || letter == 100 then Some(10)
    else if letter == 88 || letter == 120 then Some(16)
    else None
  }

  /** Every underscore before `to` stands between two other bytes of `ds` and is not doubled. */
  predicate SingleInterior(ds: Bytes, to: nat)
    requires to <= |ds|
  {
    forall i :: 0 <= i < to && ds[i] == UNDERSCORE ==> 0 < i < |ds| - 1 && ds[i + 1] != UNDERSCORE
  }

  predicate DigitsOrUnderscores(ds: Bytes, radix: Radix) {
    forall i :: 0 <= i < |ds| ==> ds[i] == UNDERSCORE || IsDigit(ds[i], radix)
  }

  predicate ZerosOrUnderscores(ds: Bytes) {
    forall i :: 0 <= i < |ds| ==> ds[i] == UNDERSCORE || ds[i] == ZERO
  }

  /** Digits of the radix with single interior underscores, not all of them zero. */
  predicate DigitGroup(ds: Bytes, radix: Radix) {
    DigitsOrUnderscores(ds, radix) && SingleInterior(ds, |ds|) && !ZerosOrUnderscores(ds)
  }

  /** The text without its underscores. */
  function Collected(ds: Bytes): Bytes {
    if ds == [] then []
    else
      var k := |ds| - 1;
      Collected(ds[..k]) + if ds[k] == UNDERSCORE then [] else [ds[k]]
  }

  lemma {:induction false} CollectedDigits(ds: Bytes, radix: Radix)
    requires DigitsOrUnderscores(ds, radix)
    ensures AllDigits(Collected(ds), radix)
  {
    if ds != [] {
      CollectedDigits(ds[..|ds| - 1], radix);
    }
  }

  function GroupValue(ds: Bytes, radix: Radix): nat
    requires DigitsOrUnderscores(ds, radix)
  {
    CollectedDigits(ds, radix);
    Horner(Collected(ds), radix)
  }

  /** The radix in force and the text left once a prefix has been read; `None` is a refusal. */
  function AfterPrefix(body: Bytes, base: Option<Radix>): Option<(Radix, Bytes)> {
    if body == [] then None
    else if body[0] != ZERO then Some((if base.Some? then base.value else 10, body))
    else if |body| == 1 then None
    else
      match MarkerRadix(body[1])
      case Some(marked) =>
        if base.None? || base.value == marked then Some((marked, body[2..])) else None
      case None => Some((if base.Some? then base.value else 8, body[1..]))
  }

  /** The value of an unsigned literal. */
  function Magnitude(body: Bytes, base: Option<Radix>): Option<nat> {
    if body == [ZERO] then Some(0)
    else
      match AfterPrefix(body, base)
      case None => None
      case Some((radix, digits)) =>
        if DigitGroup(digits, radix) then Some(GroupValue(digits, radix)) else None
  }

  /** The value of a trimmed literal with at most one sign. */
  function SignedMagnitude(text: Bytes, base: Option<Radix>): Option<int> {
    var signed := text != [] && (text[0] == PLUS || text[0] == MINUS);
    match Magnitude(if signed then text[1..] else text, base)
    case None => None
    case Some(m) => Some(Signed(!signed || text[0] == PLUS, m))
  }

  /** The function `parse` computes. */
  function Parse(subject: Bytes, radix: Option<i64>): Result<i64, ParseError> {
    if !IsIntegerString(subject) then Err(Argument(subject))
    else
      match RadixArgument(subject, radix)
      case Err(e) => Err(e)
      case Ok(base) =>
        match SignedMagnitude(Trim(subject), base)
        case Some(v) => if FitsI64(v) then Ok(v) else Err(Argument(subject))
        case None => Err(Argument(subject))
  }

  /**
   * Phase 6: squeeze leading zeros and the underscores between them. `None` is a refusal,
   * otherwise the result is the index of the first byte that is kept.
   */
  method SqueezeZeros(ds: Bytes) returns (kept: Option<nat>)
    ensures kept.None? ==> !SingleInterior(ds, |ds|)
    ensures kept.Some? ==>
              && kept.value <= |ds|
              && ZerosOrUnderscores(ds[..kept.value])
              && SingleInterior(ds, kept.value)
              && (kept.value < |ds| ==> ds[kept.value] != ZERO && ds[kept.value] != UNDERSCORE)
  {
    var i := 0;
    while true
      invariant i <= |ds| && ZerosOrUnderscores(ds[..i]) && SingleInterior(ds, i)
      invariant i < |ds| && ds[i] == UNDERSCORE ==> i == 0
      decreases |ds| - i
    {
      if i < |ds| && ds[i] == ZERO {
        i := i + 1;
        if i < |ds| && ds[i] == UNDERSCORE {
          i := i + 1;
          if i == |ds| || ds[i] == UNDERSCORE {
            assert ds[i - 1] == UNDERSCORE;
            return None;
          }
        }
      } else if i < |ds| && ds[i] == UNDERSCORE {
        return None;
      } else {
        return Some(i);
      }
    }
  }

  /** The state after collecting digits from the state the sign left. */
  function Collecting(state: ParseState, digits: Bytes): ParseState
    requires !state.Accumulate?
  {
    if digits == [] then state
    else Accumulate(state.subject, (if state.SignSet? && state.sign.Negative? then [MINUS] else []) + digits)
  }

  lemma CollectedAppend(ds: Bytes, b: byte)
    ensures Collected(ds + [b]) == if b == UNDERSCORE then Collected(ds) else Collected(ds) + [b]
  {
    assert (ds + [b])[..|ds|] == ds;
  }

  lemma CollectingAppend(state: ParseState, digits: Bytes, b: byte)
    requires !state.Accumulate?
    ensures Collecting(state, digits + [b]) == Collecting(state, digits).CollectDigit(b)
  {
    ConcatIsAssociative([MINUS], digits, [b]);
    if digits == [] {
      assert digits + [b] == [b];
    }
  }

  /** Phase 7: collect digits, dropping single interior underscores. */
  method CollectDigits(ds: Bytes, start: nat, radix: Radix, table: array<u32>, initial: ParseState)
    returns (collected: Option<ParseState>)
    requires table.Length == 256 && forall b: byte :: table[b] == MinRadix(b)
    requires start <= |ds| && SingleInterior(ds, start)
    requires start < |ds| ==> ds[start] != UNDERSCORE
    requires !initial.Accumulate?
    ensures collected.None? ==> !SingleInterior(ds, |ds|) || !DigitsOrUnderscores(ds[start..], radix)
    ensures collected.Some? ==>
              && SingleInterior(ds, |ds|)
              && DigitsOrUnderscores(ds[start..], radix)
              && collected.value == Collecting(initial, Collected(ds[start..]))
  {
    var state := initial;
    var i := start;
    while i < |ds|
      invariant start <= i <= |ds| && SingleInterior(ds, i)
      invariant DigitsOrUnderscores(ds[start..i], radix)
      invariant state == Collecting(initial, Collected(ds[start..i]))
      invariant i == start < |ds| ==> ds[start] != UNDERSCORE
    {
      var b := ds[i];
      TableTestIsDigitTest(b, radix);
      if b == UNDERSCORE {
        if i + 1 == |ds| || ds[i + 1] == UNDERSCORE {
          return None;
        }
      } else if table[b] <= radix {
        state := state.CollectDigit(b);
      } else {
        NotADigit(ds, start, i, radix);
        return None;
      }
      ByteCollected(ds, start, i, radix, initial);
      i := i + 1;
    }
    assert ds[start..i] == ds[start..];
    return Some(state);
  }

  lemma NotADigit(ds: Bytes, start: nat, i: nat, radix: Radix)
    requires start <= i < |ds| && ds[i] != UNDERSCORE && !IsDigit(ds[i], radix)
    ensures !DigitsOrUnderscores(ds[start..], radix)
  {
    assert ds[start..][i - start] == ds[i];
  }

  lemma ByteCollected(ds: Bytes, start: nat, i: nat, radix: Radix, initial: ParseState)
    requires start <= i < |ds| && (ds[i] == UNDERSCORE || IsDigit(ds[i], radix)) && !initial.Accumulate?
    requires DigitsOrUnderscores(ds[start..i], radix)
    ensures DigitsOrUnderscores(ds[start..i + 1], radix)
    ensures Collecting(initial, Collected(ds[start..i + 1])) ==
            if ds[i] == UNDERSCORE then Collecting(initial, Collected(ds[start..i]))
            else Collecting(initial, Collected(ds[start..i])).CollectDigit(ds[i])
  {
    assert ds[start..i + 1] == ds[start..i] + [ds[i]];
    CollectedAppend(ds[start..i], ds[i]);
    CollectingAppend(initial, Collected(ds[start..i]), ds[i]);
  }

  /** Reading one more byte shifts the value by one place, unless the byte is an underscore. */
  lemma GroupAppend(ds: Bytes, b: byte, radix: Radix)
    requires DigitsOrUnderscores(ds, radix) && (b == UNDERSCORE || IsDigit(b, radix))
    ensures DigitsOrUnderscores(ds + [b], radix)
    ensures GroupValue(ds + [b], radix) ==
            if b == UNDERSCORE then GroupValue(ds, radix)
            else GroupValue(ds, radix) * radix + DigitValue(b).value
  {
    CollectedDigits(ds, radix);
    CollectedAppend(ds, b);
    var digits := Collected(ds);
    assert (digits + [b])[..|digits|] == digits;
  }

  lemma {:induction false} ZerosAreWorthNothing(zeros: Bytes, radix: Radix)
    requires ZerosOrUnderscores(zeros)
    ensures GroupValue(zeros, radix) == 0
  {
    if zeros != [] {
      var init, last := zeros[..|zeros| - 1], zeros[|zeros| - 1];
      assert zeros == init + [last];
      ZerosAreWorthNothing(init, radix);
      GroupAppend(init, last, radix);
    }
  }

  lemma DigitsConcat(a: Bytes, b: Bytes, radix: Radix)
    requires ZerosOrUnderscores(a) && DigitsOrUnderscores(b, radix)
    ensures DigitsOrUnderscores(a + b, radix)
  {
  }

  /** Splitting the last byte off the right part. */
  lemma LastOfConcat(a: Bytes, b: Bytes)
    requires b != []
    ensures var k := |b| - 1;
            b == b[..k] + [b[k]] && a + b == (a + b[..k]) + [b[k]]
  {
    ConcatIsAssociative(a, b[..|b| - 1], [b[|b| - 1]]);
  }

  lemma {:induction false} LeadingZerosAreWorthNothing(zeros: Bytes, ds: Bytes, radix: Radix)
    requires ZerosOrUnderscores(zeros) && DigitsOrUnderscores(ds, radix)
    ensures DigitsOrUnderscores(zeros + ds, radix)
    ensures GroupValue(zeros + ds, radix) == GroupValue(ds, radix)
  {
    DigitsConcat(zeros, ds, radix);
    if ds == [] {
      assert zeros + ds == zeros;
      ZerosAreWorthNothing(zeros, radix);
    } else {
      var init, last := ds[..|ds| - 1], ds[|ds| - 1];
      LastOfConcat(zeros, ds);
      LeadingZerosAreWorthNothing(zeros, init, radix);
      GroupAppend(init, last, radix);
      GroupAppend(zeros + init, last, radix);
    }
  }

  /** Phases 6 to 8: from the digits after the prefix to the bounded value. */
  method ParseDigits(ds: Bytes, radix: Radix, table: array<u32>, initial: ParseState)
    returns (r: Result<i64, ParseError>)
    requires table.Length == 256 && forall b: byte :: table[b] == MinRadix(b)
    requires !initial.Accumulate?
    ensures r ==
            var positive := initial.Initial? || initial.sign.Positive?;
            if DigitGroup(ds, radix) && FitsI64(Signed(positive, GroupValue(ds, radix)))
            then Ok(Signed(positive, GroupValue(ds, radix)))
            else Err(Argument(initial.subject))
  {
    var kept := SqueezeZeros(ds);
    if kept.None? {
      return Err(Argument(initial.subject));
    }
    var start := kept.value;
    var collected := CollectDigits(ds, start, radix, table, initial);
    if collected.None? {
      TailOfDigits(ds, start, radix);
      return Err(Argument(initial.subject));
    }
    SqueezedGroup(ds, start, radix);
    r := ConvertCollected(ds[start..], radix, initial, collected.value);
  }

  lemma TailOfDigits(ds: Bytes, start: nat, radix: Radix)
    requires start <= |ds|
    ensures DigitsOrUnderscores(ds, radix) ==> DigitsOrUnderscores(ds[start..], radix)
  {
  }

  /** What squeezing and collecting say of the whole group. */
  lemma SqueezedGroup(ds: Bytes, start: nat, radix: Radix)
    requires start <= |ds| && ZerosOrUnderscores(ds[..start]) && DigitsOrUnderscores(ds[start..], radix)
    requires start < |ds| ==> ds[start] != ZERO && ds[start] != UNDERSCORE
    ensures DigitsOrUnderscores(ds, radix) && GroupValue(ds, radix) == GroupValue(ds[start..], radix)
    ensures ds[start..] == [] <==> ZerosOrUnderscores(ds)
  {
    assert ds == ds[..start] + ds[start..];
    LeadingZerosAreWorthNothing(ds[..start], ds[start..], radix);
    assert start == |ds| ==> ds[..start] == ds;
  }

  /** Phase 8: converts what has been collected, if anything has. */
  method ConvertCollected(ds: Bytes, radix: Radix, initial: ParseState, collected: ParseState)
    returns (r: Result<i64, ParseError>)
    requires !initial.Accumulate? && DigitsOrUnderscores(ds, radix) && (ds != [] ==> ds[0] != UNDERSCORE)
    requires collected == Collecting(initial, Collected(ds))
    ensures r ==
            var v := Signed(initial.Initial? || initial.sign.Positive?, GroupValue(ds, radix));
            if ds != [] && FitsI64(v) then Ok(v) else Err(Argument(initial.subject))
  {
    CollectedDigits(ds, radix);
    SqueezedStartsNonZero(ds);
    match collected.IntoNumericString() {
      case Err(e) => return Err(e);
      case Ok(text) =>
        NumericStringValue(Collected(ds), radix, text);
        var converted := FromStrRadix(text, radix);
        match converted {
          case Some(v) => return Ok(v);
          case None => return Err(Argument(initial.subject));
        }
    }
  }

  lemma SqueezedStartsNonZero(ds: Bytes)
    requires ds != [] ==> ds[0] != UNDERSCORE
    ensures Collected(ds) == [] <==> ds == []
  {
    if ds != [] {
      CollectedKeeps(ds, 0);
    }
  }

  lemma {:induction false} CollectedKeeps(ds: Bytes, i: nat)
    requires i < |ds| && ds[i] != UNDERSCORE
    ensures ds[i] in Collected(ds)
  {
    if i < |ds| - 1 {
      CollectedKeeps(ds[..|ds| - 1], i);
    }
  }

  lemma NumericStringValue(digits: Bytes, radix: Radix, text: Bytes)
    requires digits != [] && AllDigits(digits, radix)
    requires text == digits || text == [MINUS] + digits
    ensures SignedValue(text, radix) ==
            var v := Signed(text == digits, Horner(digits, radix));
            if FitsI64(v) then Some(v) else None
  {
    assert IsDigit(digits[0], radix);
    assert ([MINUS] + digits)[1..] == digits;
    assert ([MINUS] + digits)[0] == MINUS;
    assert text == digits ==> text[0] != MINUS;
  }

  /** Phases 5 to 8: everything after the sign. */
  method ParseUnsigned(body: Bytes, base: Option<Radix>, table: array<u32>, initial: ParseState)
    returns (r: Result<i64, ParseError>)
    requires table.Length == 256 && forall b: byte :: table[b] == MinRadix(b)
    requires !initial.Accumulate?
    ensures r ==
            match Magnitude(body, base)
            case None => Err(Argument(initial.subject))
            case Some(m) =>
              var v := Signed(initial.Initial? || initial.sign.Positive?, m);
              if FitsI64(v) then Ok(v) else Err(Argument(initial.subject))
  {
    if body == [] {
      return Err(Argument(initial.subject));
    }
    var effective: Radix;
    var chars := body;
    if chars[0] == ZERO {
      chars := chars[1..];
      if chars == [] {
        return Ok(0);
      }
      match MarkerRadix(chars[0]) {
        case Some(marked) =>
          if base.Some? && base.value != marked {
            return Err(Argument(initial.subject));
          }
          chars := chars[1..];
          effective := marked;
        case None =>
          effective := if base.Some? then base.value else 8;
      }
    } else {
      effective := if base.Some? then base.value else 10;
    }
    assert AfterPrefix(body, base) == Some((effective, chars));
    r := ParseDigits(chars, effective, table, initial);
  }

  /** The whole parser, phase by phase. */
  method ParseInner(subject: Bytes, radix: Option<i64>) returns (r: Result<i64, ParseError>)
    ensures r == Parse(subject, radix)
  {
    var table := BuildRadixTable();
    // Phase 1: ASCII, no NUL bytes.
    if !IsIntegerString(subject) {
      return Err(Argument(subject));
    }
    // Phase 2: radix argument.
    var base: Option<Radix> := None;
    if radix.Some? {
      match TryBaseFromStrAndI64(subject, radix.value) {
        case Err(e) => return Err(e);
        case Ok(b) => base := b;
      }
    }
    assert RadixArgument(subject, radix) == Ok(base);
    var state := Initial(subject);
    // Phase 3: surrounding whitespace.
    var chars := Trim(subject);
    // Phase 4: sign.
    if chars == [] {
      return Err(Argument(subject));
    }
    if chars[0] == PLUS || chars[0] == MINUS {
      match state.SetSign(if chars[0] == PLUS then Positive else Negative) {
        case Err(e) => return Err(e);
        case Ok(signed) => state := signed;
      }
      chars := chars[1..];
    }
    r := ParseUnsigned(chars, base, table, state);
  }
}
