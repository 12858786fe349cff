/** Digits, positional value, and the bounded conversion `i64::from_str_radix`. */
module Numerals {
  import opened Common

  const PLUS: byte := 43
  const MINUS: byte := 45
  const ZERO: byte := 48
  const UNDERSCORE: byte := 95

  /** The radixes `i64::from_str_radix` accepts. */
  type Radix = r: int | 2 <= r <= 36 witness 10

  /** The numeric value of an ASCII alphanumeric byte. */
  function DigitValue(b: byte): Option<nat> {
    if 48 <= b <= 57 then Some(b - 48)
    else if 65 <= b <= 90 then Some(b - 55)
    else if 97 <= b <= 122 then Some(b - 87)
    else None
  }

  predicate IsDigit(b: byte, radix: Radix) {
    DigitValue(b).Some? && DigitValue(b).value < radix
  }

  predicate AllDigits(ds: Bytes, radix: Radix) {
    forall i :: 0 <= i < |ds| ==> IsDigit(ds[i], radix)
  }

  /** Positional value, most significant digit first. */
  function Horner(ds: Bytes, radix: Radix): nat
    requires AllDigits(ds, radix)
  {
    if ds == [] then 0
    else
      var k := |ds| - 1;
      Horner(ds[..k], radix) * radix + DigitValue(ds[k]).value
  }

  function Signed(positive: bool, magnitude: int): int {
    if positive then magnitude else -magnitude
  }

  /** What the text of a signed number stands for, when it is one and fits an `i64`. */
  function SignedValue(src: Bytes, radix: Radix): Option<i64> {
    var signed := src != [] && (src[0] == PLUS || src[0] == MINUS);
    var digits := if signed then src[1..] else src;
    if digits == [] || !AllDigits(digits, radix) then None
    else
      var v := Signed(src[0] != MINUS, Horner(digits, radix));
      if FitsI64(v) then Some(v) else None
  }

  lemma {:induction false} HornerPrefix(ds: Bytes, k: nat, radix: Radix)
    requires k <= |ds| && AllDigits(ds, radix)
    ensures Horner(ds[..k], radix) <= Horner(ds, radix)
  {
    if k == |ds| {
      assert ds[..k] == ds;
    } else {
      var init := ds[..|ds| - 1];
      HornerPrefix(init, k, radix);
      assert init[..k] == ds[..k];
      MulGrows(Horner(init, radix), radix);
    }
  }

  lemma HornerNext(ds: Bytes, i: nat, radix: Radix)
    requires i < |ds| && AllDigits(ds[..i], radix) && IsDigit(ds[i], radix)
    ensures AllDigits(ds[..i + 1], radix)
    ensures Horner(ds[..i + 1], radix) == Horner(ds[..i], radix) * radix + DigitValue(ds[i]).value
  {
    assert ds[..i + 1][..i] == ds[..i];
  }

  lemma MulGrows(x: nat, radix: Radix)
    ensures x <= x * radix
  {
  }

  /**
   * The conversion as the Rust standard library performs it: a checked multiplication
   * and a checked addition (subtraction after a minus sign) for every digit.
   */
  method FromStrRadix(src: Bytes, radix: Radix) returns (r: Option<i64>)
    ensures r == SignedValue(src, radix)
  {
    if src == [] {
      return None;
    }
    var digits, positive := src, true;
    if src[0] == PLUS || src[0] == MINUS {
      if |src| == 1 {
        return None;
      }
      digits, positive := src[1..], src[0] == PLUS;
    }
    assert positive <==> src[0] != MINUS;
    var result: i64 := 0;
    var i := 0;
    while i < |digits|
      invariant 0 <= i <= |digits|
      invariant AllDigits(digits[..i], radix)
      invariant result == Signed(positive, Horner(digits[..i], radix))
    {
      if !IsDigit(digits[i], radix) {
        return None;
      }
      HornerNext(digits, i, radix);
      var scaled := result * radix;
      var sum := if positive then scaled + DigitValue(digits[i]).value else scaled - DigitValue(digits[i]).value;
      assert sum == Signed(positive, Horner(digits[..i + 1], radix)) by {
        NegationScales(Horner(digits[..i], radix), radix);
      }
      if !FitsI64(scaled) || !FitsI64(sum) {
        if AllDigits(digits, radix) {
          HornerPrefix(digits, i + 1, radix);
        }
        return None;
      }
      result := sum;
      i := i + 1;
    }
    assert digits[..i] == digits;
    return Some(result);
  }

  lemma NegationScales(x: int, radix: Radix)
    ensures -x * radix == -(x * radix)
  {
  }
}
