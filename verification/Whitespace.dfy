/** Trimming of POSIX whitespace around an integer literal. */
module Whitespace {
  import opened Common

  /** Horizontal tab, line feed, vertical tab, form feed, carriage return and space. */
  predicate IsSpace(b: byte) { 9 <= b <= 13 || b == 32 }

  lemma SpacesExact(b: byte)
    ensures IsSpace(b) <==> b in [9, 10, 11, 12, 13, 32]
  {
  }

  predicate AllSpace(s: Bytes) {
    forall i :: 0 <= i < |s| ==> IsSpace(s[i])
  }

  /** Index of the first byte that is not whitespace. */
  function FirstNonSpace(s: Bytes): (at: Option<nat>)
    ensures at.None? <==> AllSpace(s)
    ensures at.Some? ==> at.value < |s| && !IsSpace(s[at.value])
    ensures at.Some? ==> forall i :: 0 <= i < at.value ==> IsSpace(s[i])
  {
    if s == [] then None
    else if !IsSpace(s[0]) then Some(0)
    else
      match FirstNonSpace(s[1..])
      case None => None
      case Some(k) => Some(k + 1)
  }

  /** Index of the last byte that is not whitespace. */
  function LastNonSpace(s: Bytes): (at: Option<nat>)
    ensures at.None? <==> AllSpace(s)
    ensures at.Some? ==> at.value < |s| && !IsSpace(s[at.value])
    ensures at.Some? ==> forall i :: at.value < i < |s| ==> IsSpace(s[i])
  {
    if s == [] then None
    else if !IsSpace(s[|s| - 1]) then Some(|s| - 1)
    else
      match LastNonSpace(s[..|s| - 1])
      case None => None
      case Some(k) => Some(k)
  }

  function TrimLeading(s: Bytes): Bytes {
    match FirstNonSpace(s)
    case Some(k) => s[k..]
    case None => s
  }

  function TrimTrailing(s: Bytes): Bytes {
    match LastNonSpace(s)
    case Some(k) => s[..k + 1]
    case None => s
  }

  function Trim(s: Bytes): Bytes { TrimTrailing(TrimLeading(s)) }

  /** A text that neither starts nor ends with whitespace. */
  predicate IsCore(s: Bytes) {
    s != [] && !IsSpace(s[0]) && !IsSpace(s[|s| - 1])
  }

  lemma FirstIs(s: Bytes, k: nat)
    requires k < |s| && !IsSpace(s[k]) && forall i :: 0 <= i < k ==> IsSpace(s[i])
    ensures FirstNonSpace(s) == Some(k)
  {
  }

  lemma LastIs(s: Bytes, k: nat)
    requires k < |s| && !IsSpace(s[k]) && forall i :: k < i < |s| ==> IsSpace(s[i])
    ensures LastNonSpace(s) == Some(k)
  {
  }

  lemma TrimLeadingRecovers(lead: Bytes, t: Bytes)
    requires AllSpace(lead) && t != [] && !IsSpace(t[0])
    ensures TrimLeading(lead + t) == t && FirstNonSpace(lead + t) == Some(|lead|)
  {
    FirstIs(lead + t, |lead|);
    assert (lead + t)[|lead|..] == t;
  }

  lemma TrimTrailingRecovers(t: Bytes, trail: Bytes)
    requires AllSpace(trail) && t != [] && !IsSpace(t[|t| - 1])
    ensures TrimTrailing(t + trail) == t
  {
    LastIs(t + trail, |t| - 1);
    assert (t + trail)[..|t|] == t;
  }

  /** Trimming recovers the core from any whitespace around it. */
  lemma TrimRecovers(lead: Bytes, core: Bytes, trail: Bytes)
    requires AllSpace(lead) && IsCore(core) && AllSpace(trail)
    ensures Trim(lead + core + trail) == core
    ensures FirstNonSpace(lead + core + trail) == Some(|lead|)
  {
    ConcatIsAssociative(lead, core, trail);
    TrimLeadingRecovers(lead, core + trail);
    TrimTrailingRecovers(core, trail);
  }

  /** Every text is either all whitespace or whitespace around its trimmed core. */
  lemma TrimSplits(s: Bytes) returns (lead: Bytes, trail: Bytes)
    ensures AllSpace(lead) && AllSpace(trail)
    ensures AllSpace(s) ==> Trim(s) == s
    ensures !AllSpace(s) ==> IsCore(Trim(s)) && s == lead + Trim(s) + trail
  {
    if AllSpace(s) {
      lead, trail := [], [];
    } else {
      lead := TrimLeadingSplits(s);
      var t := TrimLeading(s);
      trail := TrimTrailingSplits(t);
      ConcatIsAssociative(lead, TrimTrailing(t), trail);
    }
  }

  lemma TrimLeadingSplits(s: Bytes) returns (lead: Bytes)
    requires !AllSpace(s)
    ensures AllSpace(lead) && s == lead + TrimLeading(s)
    ensures TrimLeading(s) != [] && !IsSpace(TrimLeading(s)[0])
  {
    lead := s[..FirstNonSpace(s).value];
  }

  lemma TrimTrailingSplits(t: Bytes) returns (trail: Bytes)
    requires t != [] && !IsSpace(t[0])
    ensures AllSpace(trail) && IsCore(TrimTrailing(t)) && t == TrimTrailing(t) + trail
  {
    trail := t[LastNonSpace(t).value + 1..];
  }
}
