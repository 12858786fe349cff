/**
 * Who owns the interpreter `State` as calls cross between Rust and C. The C side is an
 * arbitrary finite tree of calls back into Rust, with raises and the protected calls that
 * catch them.
 */
module Ownership {
  import opened Common

  // ---- Call trees ----

  /** C code: calls of Rust trampolines, some under a landing pad for raises, and raises of C's own. */
  datatype CCode = Idle | Throw | Call(callee: Trampoline, next: CCode) | Protect(body: CCode, next: CCode)

  /** A Rust entry point: crossings back into C, then a return or a raise. */
  datatype Trampoline = Trampoline(body: RustCode, exit: Exit)

  /** A raise first builds the exception value, which may cross into C as well, and may fail. */
  datatype Exit = Return | Raise(convert: RustCode, converted: bool)

  datatype RustCode = Nop | Cross(c: CCode, next: RustCode)

  function Size(c: CCode): nat {
    match c
    case Idle => 1
    case Throw => 1
    case Call(t, next) => 1 + TrampolineSize(t) + Size(next)
    case Protect(body, next) => 1 + Size(body) + Size(next)
  }

  function TrampolineSize(t: Trampoline): nat { 1 + BodySize(t.body) + ExitSize(t.exit) }

  function ExitSize(e: Exit): nat { if e.Return? then 1 else 1 + BodySize(e.convert) }

  function BodySize(b: RustCode): nat {
    match b
    case Nop => 1
    case Cross(c, next) => 1 + Size(c) + BodySize(next)
  }

  /** Whether a raise leaves the code without being caught inside it. */
  predicate Escapes(c: CCode) {
    match c
    case Idle => false
    case Throw => true
    case Call(t, next) => TrampolineEscapes(t) || Escapes(next)
    case Protect(_, next) => Escapes(next)
  }

  predicate TrampolineEscapes(t: Trampoline) { BodyEscapes(t.body) || t.exit.Raise? }

  predicate BodyEscapes(b: RustCode) {
    match b
    case Nop => false
    case Cross(c, next) => Escapes(c) || BodyEscapes(next)
  }

  // ---- Where raises end ----

  /** The protection depth of every raise in the code, raises never reached included; `d` is that of the code itself. */
  function Raises(c: CCode, d: nat): seq<nat>
    decreases c
  {
    match c
    case Idle => []
    case Throw => [d]
    case Call(t, next) => RaisesIn(t, d) + Raises(next, d)
    case Protect(body, next) => Raises(body, d + 1) + Raises(next, d)
  }

  /** A trampoline protects nothing: its own raise and those of its crossings are as deep as the call of it. */
  function RaisesIn(t: Trampoline, d: nat): seq<nat>
    decreases t
  {
    RaisesAcross(t.body, d) + match t.exit case Return => [] case Raise(convert, _) => RaisesAcross(convert, d) + [d]
  }

  function RaisesAcross(b: RustCode, d: nat): seq<nat>
    decreases b
  {
    match b
    case Nop => []
    case Cross(c, next) => Raises(c, d) + RaisesAcross(next, d)
  }

  /** Code is left by a raise exactly when one of its raises is under no protected call. */
  lemma {:induction false} EscapesExactly(c: CCode, d: nat)
    ensures Escapes(c) <==> d in Raises(c, d)
    ensures forall r :: r in Raises(c, d) ==> r >= d
    decreases c
  {
    match c {
      case Idle =>
      case Throw =>
      case Call(t, next) =>
        TrampolineEscapesExactly(t, d);
        EscapesExactly(next, d);
      case Protect(body, next) =>
        EscapesExactly(body, d + 1);
        EscapesExactly(next, d);
    }
  }

  lemma {:induction false} TrampolineEscapesExactly(t: Trampoline, d: nat)
    ensures TrampolineEscapes(t) <==> d in RaisesIn(t, d)
    ensures forall r :: r in RaisesIn(t, d) ==> r >= d
    decreases t
  {
    BodyEscapesExactly(t.body, d);
    if t.exit.Raise? {
      BodyEscapesExactly(t.exit.convert, d);
    }
  }

  lemma {:induction false} BodyEscapesExactly(b: RustCode, d: nat)
    ensures BodyEscapes(b) <==> d in RaisesAcross(b, d)
    ensures forall r :: r in RaisesAcross(b, d) ==> r >= d
    decreases b
  {
    if b.Cross? {
      EscapesExactly(b.c, d);
      BodyEscapesExactly(b.next, d);
    }
  }

  /** A place that can own the `State`; frames are counted from the outermost. */
  datatype Place = InUserData | InAllocUserData | InFrame(depth: nat)

  /** The owners, one per hand-off, while C code runs under `n` Rust frames. */
  function Owners(c: CCode, n: nat): seq<Place>
    decreases c
  {
    match c
    case Idle => []
    case Throw => []
    case Call(t, next) =>
      TrampolineOwners(t, n) + if TrampolineEscapes(t) then [] else Owners(next, n)
    case Protect(body, next) => Owners(body, n) + Owners(next, n)
  }

  /** Out of `ud` into a new frame, to C and back for the arena savepoint, the body, and back to `ud`. */
  function TrampolineOwners(t: Trampoline, n: nat): seq<Place>
    decreases t
  {
    [InFrame(n), InUserData, InFrame(n)] + (BodyOwners(t.body, n) + if BodyEscapes(t.body) then [] else ExitOwners(t.exit, n))
  }

  function ExitOwners(e: Exit, n: nat): seq<Place>
    decreases e
  {
    match e
    case Return => [InUserData]
    case Raise(convert, _) => BodyOwners(convert, n) + if BodyEscapes(convert) then [] else [InUserData]
  }

  /** Each crossing hands the `State` to `ud` and, unless it is unwound, takes it back. */
  function BodyOwners(b: RustCode, frame: nat): seq<Place>
    decreases b
  {
    match b
    case Nop => []
    case Cross(c, next) =>
      [InUserData] + (Owners(c, frame + 1) + if Escapes(c) then [] else [InFrame(frame)] + BodyOwners(next, frame))
  }

  // ---- The same, from a flat trace ----

  /** Everything the code says in order, as if nothing were ever skipped. */
  datatype Event = HandOff(place: Place) | Raised | Begin | End

  function Flat(c: CCode, n: nat): seq<Event>
    decreases c
  {
    match c
    case Idle => []
    case Throw => [Raised]
    case Call(t, next) => FlatCall(t, n) + Flat(next, n)
    case Protect(body, next) => ([Begin] + (Flat(body, n) + [End])) + Flat(next, n)
  }

  function FlatCall(t: Trampoline, n: nat): seq<Event>
    decreases t
  {
    [HandOff(InFrame(n))] + ([HandOff(InUserData)] + ([HandOff(InFrame(n))]
      + (FlatAcross(t.body, n) + FlatExit(t.exit, n))))
  }

  function FlatExit(e: Exit, n: nat): seq<Event>
    decreases e
  {
    match e
    case Return => [HandOff(InUserData)]
    case Raise(convert, _) => FlatAcross(convert, n) + ([HandOff(InUserData)] + [Raised])
  }

  function FlatAcross(b: RustCode, n: nat): seq<Event>
    decreases b
  {
    match b
    case Nop => []
    case Cross(c, next) =>
      [HandOff(InUserData)] + (Flat(c, n + 1) + ([HandOff(InFrame(n))] + FlatAcross(next, n)))
  }

  /**
   * How many protected calls are still to be left before anything runs again: a raise skips
   * everything up to the end of the protected call around it.
   */
  function SkipAfter(events: seq<Event>, skip: nat): nat {
    if events == [] then skip
    else SkipAfter(events[1..], SkipNext(events[0], skip))
  }

  function SkipNext(e: Event, skip: nat): nat {
    match e
    case HandOff(_) => skip
    case Raised => if skip == 0 then 1 else skip
    case Begin => if skip == 0 then 0 else skip + 1
    case End => if skip == 0 then 0 else skip - 1
  }

  /** The hand-offs that are not skipped. */
  function Played(events: seq<Event>, skip: nat): seq<Place> {
    if events == [] then []
    else
      (if events[0].HandOff? && skip == 0 then [events[0].place] else [])
      + Played(events[1..], SkipNext(events[0], skip))
  }

  lemma {:induction false} PlayConcat(a: seq<Event>, b: seq<Event>, skip: nat)
    ensures SkipAfter(a + b, skip) == SkipAfter(b, SkipAfter(a, skip))
    ensures Played(a + b, skip) == Played(a, skip) + Played(b, SkipAfter(a, skip))
  {
    if a == [] {
      assert a + b == b;
    } else {
      assert (a + b)[1..] == a[1..] + b;
      PlayConcat(a[1..], b, SkipNext(a[0], skip));
    }
  }

  /** The trace hands off to `owners` and ends skipping exactly when `escapes`; while skipped it changes nothing. */
  ghost predicate Plays(events: seq<Event>, owners: seq<Place>, escapes: bool) {
    && Played(events, 0) == owners && SkipAfter(events, 0) == (if escapes then 1 else 0)
    && forall k :: k > 0 ==> Played(events, k) == [] && SkipAfter(events, k) == k
  }

  lemma PlayOne(e: Event, skip: nat)
    ensures SkipAfter([e], skip) == SkipNext(e, skip)
    ensures Played([e], skip) == if e.HandOff? && skip == 0 then [e.place] else []
  {
    assert [e][1..] == [];
  }

  lemma PlaysHandOff(place: Place)
    ensures Plays([HandOff(place)], [place], false)
  {
    forall k: nat
      ensures SkipAfter([HandOff(place)], k) == k && Played([HandOff(place)], k) == if k == 0 then [place] else []
    {
      PlayOne(HandOff(place), k);
    }
  }

  lemma PlaysRaised()
    ensures Plays([Raised], [], true)
  {
    forall k: nat
      ensures SkipAfter([Raised], k) == (if k == 0 then 1 else k) && Played([Raised], k) == []
    {
      PlayOne(Raised, k);
    }
  }

  lemma PlaysInTurn(a: seq<Event>, oa: seq<Place>, ea: bool, b: seq<Event>, ob: seq<Place>, eb: bool)
    requires Plays(a, oa, ea) && Plays(b, ob, eb)
    ensures Plays(a + b, oa + if ea then [] else ob, ea || eb)
  {
    forall k: nat
      ensures SkipAfter(a + b, k) == SkipAfter(b, SkipAfter(a, k))
      ensures Played(a + b, k) == Played(a, k) + Played(b, SkipAfter(a, k))
    {
      PlayConcat(a, b, k);
    }
  }

  lemma PlaysProtected(body: seq<Event>, owners: seq<Place>, escapes: bool)
    requires Plays(body, owners, escapes)
    ensures Plays([Begin] + (body + [End]), owners, false)
  {
    var events := [Begin] + (body + [End]);
    assert events[1..] == body + [End];
    forall k: nat
      ensures SkipAfter(events, k) == k && Played(events, k) == if k == 0 then owners else []
    {
      PlayConcat(body, [End], SkipNext(Begin, k));
      PlayOne(End, SkipAfter(body, SkipNext(Begin, k)));
    }
  }

  /**
   * The owners of the code are the hand-offs of its flat trace that no raise skips, and a raise
   * leaves the code exactly when the trace ends while skipping.
   */
  lemma {:induction false} OwnersFromTrace(c: CCode, n: nat)
    ensures Plays(Flat(c, n), Owners(c, n), Escapes(c))
    decreases c
  {
    match c {
      case Idle =>
      case Throw => PlaysRaised();
      case Call(t, next) =>
        CallFromTrace(t, n);
        OwnersFromTrace(next, n);
        PlaysInTurn(FlatCall(t, n), TrampolineOwners(t, n), TrampolineEscapes(t),
                    Flat(next, n), Owners(next, n), Escapes(next));
      case Protect(body, next) =>
        OwnersFromTrace(body, n);
        PlaysProtected(Flat(body, n), Owners(body, n), Escapes(body));
        OwnersFromTrace(next, n);
        PlaysInTurn([Begin] + (Flat(body, n) + [End]), Owners(body, n), false,
                    Flat(next, n), Owners(next, n), Escapes(next));
    }
  }

  lemma PlaysAfterHandOff(place: Place, rest: seq<Event>, owners: seq<Place>, escapes: bool)
    requires Plays(rest, owners, escapes)
    ensures Plays([HandOff(place)] + rest, [place] + owners, escapes)
  {
    PlaysHandOff(place);
    PlaysInTurn([HandOff(place)], [place], false, rest, owners, escapes);
  }

  lemma {:induction false} CallFromTrace(t: Trampoline, n: nat)
    ensures Plays(FlatCall(t, n), TrampolineOwners(t, n), TrampolineEscapes(t))
    decreases t
  {
    var inside := FlatAcross(t.body, n) + FlatExit(t.exit, n);
    var owners := BodyOwners(t.body, n) + if BodyEscapes(t.body) then [] else ExitOwners(t.exit, n);
    AcrossFromTrace(t.body, n);
    ExitFromTrace(t.exit, n);
    PlaysInTurn(FlatAcross(t.body, n), BodyOwners(t.body, n), BodyEscapes(t.body),
                FlatExit(t.exit, n), ExitOwners(t.exit, n), t.exit.Raise?);
    PlaysEntering(inside, owners, TrampolineEscapes(t), n);
  }

  lemma PlaysEntering(inside: seq<Event>, owners: seq<Place>, escapes: bool, n: nat)
    requires Plays(inside, owners, escapes)
    ensures Plays([HandOff(InFrame(n))] + ([HandOff(InUserData)] + ([HandOff(InFrame(n))] + inside)),
                  [InFrame(n), InUserData, InFrame(n)] + owners, escapes)
  {
    var frame := [HandOff(InFrame(n))] + inside;
    PlaysAfterHandOff(InFrame(n), inside, owners, escapes);
    PlaysAfterHandOff(InUserData, frame, [InFrame(n)] + owners, escapes);
    PlaysAfterHandOff(InFrame(n), [HandOff(InUserData)] + frame, [InUserData] + ([InFrame(n)] + owners), escapes);
    assert [InFrame(n)] + ([InUserData] + ([InFrame(n)] + owners)) == [InFrame(n), InUserData, InFrame(n)] + owners;
  }

  lemma {:induction false} ExitFromTrace(e: Exit, n: nat)
    ensures Plays(FlatExit(e, n), ExitOwners(e, n), e.Raise?)
    decreases e
  {
    PlaysHandOff(InUserData);
    if e.Raise? {
      PlaysRaised();
      PlaysInTurn([HandOff(InUserData)], [InUserData], false, [Raised], [], true);
      assert [InUserData] + [] == [InUserData];
      AcrossFromTrace(e.convert, n);
      PlaysInTurn(FlatAcross(e.convert, n), BodyOwners(e.convert, n), BodyEscapes(e.convert),
                  [HandOff(InUserData)] + [Raised], [InUserData], true);
    }
  }

  lemma {:induction false} AcrossFromTrace(b: RustCode, n: nat)
    ensures Plays(FlatAcross(b, n), BodyOwners(b, n), BodyEscapes(b))
    decreases b
  {
    if b.Cross? {
      var back, owners := [HandOff(InFrame(n))] + FlatAcross(b.next, n), [InFrame(n)] + BodyOwners(b.next, n);
      OwnersFromTrace(b.c, n + 1);
      AcrossFromTrace(b.next, n);
      PlaysAfterHandOff(InFrame(n), FlatAcross(b.next, n), BodyOwners(b.next, n), BodyEscapes(b.next));
      PlaysInTurn(Flat(b.c, n + 1), Owners(b.c, n + 1), Escapes(b.c), back, owners, BodyEscapes(b.next));
      PlaysAfterHandOff(InUserData, Flat(b.c, n + 1) + back,
                        Owners(b.c, n + 1) + (if Escapes(b.c) then [] else owners), BodyEscapes(b));
    }
  }

  // ---- Objects ----

  /** The boxed interpreter state; what matters here is its identity and whether it has a parser. */
  class State {
    const hasParser: bool

    constructor (hasParser: bool)
      ensures this.hasParser == hasParser
    {
      this.hasParser := hasParser;
    }
  }

  /** The C interpreter, with its two user data pointers. */
  class MrbState {
    var ud: State?
    var allocfUd: State?
    var closed: bool
    /** The live Rust interpreters over this C interpreter, outermost first. */
    ghost var frames: seq<Artichoke>
    /** The owner after every hand-off so far. */
    ghost var owners: seq<Place>
    /** How often C was asked to restore a savepoint of its arena. */
    ghost var arenaRestores: nat

    constructor (state: State)
      ensures ud == null && allocfUd == state && !closed && frames == [] && owners == [] && arenaRestores == 0
    {
      ud, allocfUd, closed := null, state, false;
      frames, owners, arenaRestores := [], [], 0;
    }

    /** `place` holds `s`, and every other place holds nothing. */
    ghost predicate OwnedOnlyAt(s: State, place: Place)
      reads this, frames
    {
      && ud == (if place == InUserData then s else null)
      && allocfUd == (if place == InAllocUserData then s else null)
      && (forall i :: 0 <= i < |frames| ==> frames[i].state == if place == InFrame(i) then s else null)
      && (place.InFrame? ==> place.depth < |frames|)
      && forall i, j :: 0 <= i < j < |frames| ==> frames[i] != frames[j]
    }

    ghost predicate Empty()
      reads this
    {
      ud == null && allocfUd == null
    }

    /** Notes a hand-off; only a place that is the sole owner can be noted. */
    ghost method Record(s: State, place: Place)
      requires OwnedOnlyAt(s, place)
      modifies this`owners
      ensures owners == old(owners) + [place]
    {
      owners := owners + [place];
    }
  }

  /** The Rust interpreter: a C interpreter and, while Rust runs, the `State`. */
  class Artichoke {
    const mrb: MrbState
    var state: State?

    constructor (mrb: MrbState, state: State?)
      ensures this.mrb == mrb && this.state == state
    {
      this.mrb := mrb;
      this.state := state;
    }

    ghost predicate IsInnermost()
      reads this, mrb
    {
      mrb.frames != [] && mrb.frames[|mrb.frames| - 1] == this
    }
  }

  datatype ExtractError = InterpreterExtractError

  /** `ffi::from_user_data`: moves the `State` out of whichever pointer holds it. */
  method FromUserData(mrb: MrbState?) returns (r: Result<Artichoke, ExtractError>)
    modifies if mrb == null then {} else {mrb}
    ensures r.Ok? <==> mrb != null && !old(mrb.Empty())
    ensures r.Ok? ==>
              && fresh(r.value) && r.value.mrb == mrb && mrb.ud == null
              && r.value.state == old(if mrb.ud != null then mrb.ud else mrb.allocfUd)
              && mrb.allocfUd == old(if mrb.ud != null then mrb.allocfUd else null)
    ensures mrb != null ==>
              && (r.Err? ==> mrb.ud == old(mrb.ud) && mrb.allocfUd == old(mrb.allocfUd))
              && mrb.frames == old(mrb.frames) && mrb.owners == old(mrb.owners)
              && mrb.arenaRestores == old(mrb.arenaRestores) && mrb.closed == old(mrb.closed)
  {
    if mrb == null {
      return Err(InterpreterExtractError);
    }
    var state := mrb.ud;
    mrb.ud := null;
    if state == null {
      state := mrb.allocfUd;
      mrb.allocfUd := null;
      if state == null {
        return Err(InterpreterExtractError);
      }
    }
    var interp := new Artichoke(mrb, state);
    return Ok(interp);
  }

  /** What a boundary runs on the C side. */
  datatype Closure = Code(c: CCode) | ArenaSave | ArenaRestore

  function ClosureOwners(f: Closure, n: nat): seq<Place> {
    if f.Code? then Owners(f.c, n) else []
  }

  predicate ClosureEscapes(f: Closure) { f.Code? && Escapes(f.c) }

  /** A boundary returns, fails to extract, or is skipped by a raise. */
  datatype Crossing = Crossed | ExtractFailed | Unwound

  /**
   * `with_ffi_boundary`. With the `State` present it comes back with that same `State` and an
   * empty `ud`, unless a raise skips the rest of the call; then `ud` keeps the `State`.
   * Without the `State` it fails and changes nothing.
   */
  method WithFfiBoundary(interp: Artichoke, f: Closure) returns (r: Crossing)
    requires interp.IsInnermost()
    requires interp.state != null ==> interp.mrb.OwnedOnlyAt(interp.state, InFrame(|interp.mrb.frames| - 1))
    modifies interp, interp.mrb
    ensures interp.mrb.frames == old(interp.mrb.frames) && interp.mrb.closed == old(interp.mrb.closed)
    ensures old(interp.state) == null ==>
              && r == ExtractFailed && interp.state == null
              && interp.mrb.ud == old(interp.mrb.ud) && interp.mrb.allocfUd == old(interp.mrb.allocfUd)
              && interp.mrb.owners == old(interp.mrb.owners)
              && interp.mrb.arenaRestores == old(interp.mrb.arenaRestores)
    ensures old(interp.state) != null ==>
              var n := |interp.mrb.frames|;
              && r == (if ClosureEscapes(f) then Unwound else Crossed)
              && interp.mrb.OwnedOnlyAt(old(interp.state), if ClosureEscapes(f) then InUserData else InFrame(n - 1))
              && interp.mrb.owners == old(interp.mrb.owners) + [InUserData] + ClosureOwners(f, n)
                                      + (if ClosureEscapes(f) then [] else [InFrame(n - 1)])
              && interp.mrb.arenaRestores == old(interp.mrb.arenaRestores) + (if f.ArenaRestore? then 1 else 0)
    decreases if f.Code? then Size(f.c) else 0, 2
  {
    var mrb := interp.mrb;
    if interp.state == null {
      return ExtractFailed;
    }
    ghost var s, n := interp.state, |mrb.frames|;
    mrb.ud, interp.state := interp.state, null;
    mrb.Record(s, InUserData);
    var escaped := RunClosure(mrb, f, s);
    if escaped {
      return Unwound;
    }
    var extracted := FromUserData(mrb);
    if extracted.Err? {
      return ExtractFailed;
    }
    interp.state, extracted.value.state := extracted.value.state, null;
    mrb.Record(s, InFrame(n - 1));
    return Crossed;
  }

  /**
   * A boundary around one protected call, as `eval`, `funcall` and `block_yield` make it: no
   * raise in the protected code keeps the `State` from coming back to its frame.
   */
  method ProtectedBoundary(interp: Artichoke, body: CCode) returns (r: Crossing)
    requires interp.IsInnermost()
    requires interp.state != null && interp.mrb.OwnedOnlyAt(interp.state, InFrame(|interp.mrb.frames| - 1))
    modifies interp, interp.mrb
    ensures r == Crossed && interp.state == old(interp.state)
    ensures interp.mrb.frames == old(interp.mrb.frames)
    ensures interp.mrb.OwnedOnlyAt(old(interp.state), InFrame(|interp.mrb.frames| - 1))
  {
    ghost var f := Code(Protect(body, Idle));
    assert Escapes(Protect(body, Idle)) == Escapes(Idle) == false;
    assert !ClosureEscapes(f);
    r := WithFfiBoundary(interp, Code(Protect(body, Idle)));
    assert interp.mrb.frames[|interp.mrb.frames| - 1] == interp;
  }

  /** The C side of a boundary; the `State` waits in `ud`. */
  method RunClosure(mrb: MrbState, f: Closure, ghost s: State) returns (escaped: bool)
    requires mrb.OwnedOnlyAt(s, InUserData)
    modifies mrb
    ensures escaped == ClosureEscapes(f) && mrb.OwnedOnlyAt(s, InUserData)
    ensures mrb.frames == old(mrb.frames) && mrb.closed == old(mrb.closed)
    ensures mrb.owners == old(mrb.owners) + ClosureOwners(f, |mrb.frames|)
    ensures mrb.arenaRestores == old(mrb.arenaRestores) + (if f.ArenaRestore? then 1 else 0)
    decreases if f.Code? then Size(f.c) else 0, 1
  {
    escaped := false;
    if f.Code? {
      escaped := RunC(mrb, f.c, s, InUserData);
    } else if f.ArenaRestore? {
      mrb.arenaRestores := mrb.arenaRestores + 1;
    }
  }

  /** `Guard::drop`: puts the `State` back into `ud`; false is the panic on a missing `State`. */
  method DropGuard(interp: Artichoke) returns (ok: bool)
    modifies interp`state, interp.mrb`ud
    ensures ok <==> old(interp.state) != null
    ensures interp.state == null
    ensures interp.mrb.ud == if ok then old(interp.state) else old(interp.mrb.ud)
  {
    var state := interp.state;
    interp.state := null;
    if state == null {
      return false;
    }
    interp.mrb.ud := state;
    return true;
  }

  /** Runs C code; the `State` waits in `ud`, or in `allocf_ud` before its first extraction. */
  method RunC(mrb: MrbState, c: CCode, ghost s: State, ghost from: Place) returns (escaped: bool)
    requires !from.InFrame? && mrb.OwnedOnlyAt(s, from)
    modifies mrb
    ensures escaped == Escapes(c)
    ensures mrb.frames == old(mrb.frames) && mrb.closed == old(mrb.closed)
    ensures mrb.owners == old(mrb.owners) + Owners(c, |mrb.frames|)
    ensures mrb.OwnedOnlyAt(s, if Owners(c, |mrb.frames|) == [] then from else InUserData)
    ensures mrb.arenaRestores == old(mrb.arenaRestores)
    decreases Size(c), 0
  {
    match c {
      case Idle => return false;
      case Throw => return true;
      case Call(t, next) =>
        ConcatIsAssociative(mrb.owners, TrampolineOwners(t, |mrb.frames|), Owners(next, |mrb.frames|));
        var exit := RunTrampoline(mrb, t, s, from);
        if exit == Escaped {
          return true;
        }
        escaped := RunC(mrb, next, s, InUserData);
      case Protect(body, next) =>
        ConcatIsAssociative(mrb.owners, Owners(body, |mrb.frames|), Owners(next, |mrb.frames|));
        var _ := RunC(mrb, body, s, from);
        escaped := RunC(mrb, next, s, if Owners(body, |mrb.frames|) == [] then from else InUserData);
    }
  }

  /** How a trampoline ends. */
  datatype Ending = Returned | NotEntered | Escaped | Panicked

  /**
   * `unwrap_interpreter!`: extracts an interpreter and saves the arena. It succeeds exactly
   * when C holds a `State`; the early return after a failed savepoint, which would drop the
   * `State`, is never taken.
   */
  method EnterTrampoline(mrb: MrbState, ghost s: State, ghost from: Place) returns (entered: Option<Artichoke>)
    requires !from.InFrame? && (mrb.OwnedOnlyAt(s, from) || mrb.Empty())
    modifies mrb
    ensures mrb.closed == old(mrb.closed) && mrb.arenaRestores == old(mrb.arenaRestores)
    ensures entered.None? <==> old(mrb.Empty())
    ensures entered.None? ==> mrb.Empty() && mrb.owners == old(mrb.owners) && mrb.frames == old(mrb.frames)
    ensures entered.Some? ==>
              var n := old(|mrb.frames|);
              && fresh(entered.value) && entered.value.mrb == mrb
              && mrb.frames == old(mrb.frames) + [entered.value]
              && mrb.OwnedOnlyAt(s, InFrame(n))
              && mrb.owners == old(mrb.owners) + [InFrame(n), InUserData, InFrame(n)]
    decreases 0, 3
  {
    var extracted := FromUserData(mrb);
    if extracted.Err? {
      return None;
    }
    var interp := extracted.value;
    ghost var n := |mrb.frames|;
    mrb.frames := mrb.frames + [interp];
    mrb.Record(s, InFrame(n));
    var saved := WithFfiBoundary(interp, ArenaSave);
    if saved == ExtractFailed {
      // Returning here drops `interp` together with its `State`.
      return None;
    }
    return Some(interp);
  }

  /**
   * A trampoline. Called while C holds the `State` it always enters, never panics, and leaves
   * the `State` in `ud` whether it returns or raises; called without a `State` it gives up
   * and changes nothing. Its arena savepoint is never restored: the guard is dropped first,
   * so the restore finds no `State` and is skipped.
   */
  method RunTrampoline(mrb: MrbState, t: Trampoline, ghost s: State, ghost from: Place) returns (ending: Ending)
    requires !from.InFrame? && (mrb.OwnedOnlyAt(s, from) || mrb.Empty())
    modifies mrb
    ensures mrb.frames == old(mrb.frames) && mrb.closed == old(mrb.closed)
    ensures old(mrb.Empty()) ==>
              ending == NotEntered && mrb.Empty() && mrb.owners == old(mrb.owners)
    ensures !old(mrb.Empty()) ==>
              && ending == (if TrampolineEscapes(t) then Escaped else Returned)
              && mrb.OwnedOnlyAt(s, InUserData)
              && mrb.owners == old(mrb.owners) + TrampolineOwners(t, |mrb.frames|)
    ensures mrb.arenaRestores == old(mrb.arenaRestores)
    decreases TrampolineSize(t), 2
  {
    ghost var n, before := |mrb.frames|, mrb.owners;
    ghost var enter := [InFrame(n), InUserData, InFrame(n)];
    ghost var inside := BodyOwners(t.body, n) + if BodyEscapes(t.body) then [] else ExitOwners(t.exit, n);
    var entered := EnterTrampoline(mrb, s, from);
    if entered.None? {
      return NotEntered;
    }
    ending := InsideTrampoline(entered.value, t, s);
    ConcatIsAssociative(before, enter, inside);
    mrb.frames := mrb.frames[..n];
  }

  /** A trampoline once entered: its body, then the way out unless a raise has gone past it. */
  method InsideTrampoline(interp: Artichoke, t: Trampoline, ghost s: State) returns (ending: Ending)
    requires interp.IsInnermost() && interp.mrb.OwnedOnlyAt(s, InFrame(|interp.mrb.frames| - 1))
    modifies interp, interp.mrb
    ensures interp.mrb.frames == old(interp.mrb.frames) && interp.mrb.closed == old(interp.mrb.closed)
    ensures ending == if TrampolineEscapes(t) then Escaped else Returned
    ensures interp.mrb.OwnedOnlyAt(s, InUserData)
    ensures var n := |interp.mrb.frames| - 1;
            interp.mrb.owners == old(interp.mrb.owners)
                                 + (BodyOwners(t.body, n) + if BodyEscapes(t.body) then [] else ExitOwners(t.exit, n))
    ensures interp.mrb.arenaRestores == old(interp.mrb.arenaRestores)
    decreases TrampolineSize(t), 1
  {
    ghost var n, before := |interp.mrb.frames| - 1, interp.mrb.owners;
    var escaped := RunBody(interp, t.body, s);
    if escaped {
      return Escaped;
    }
    ending := LeaveTrampoline(interp, t.exit, s);
    ConcatIsAssociative(before, BodyOwners(t.body, n), ExitOwners(t.exit, n));
  }

  /** How a raise leaves: passed by a raise from building its value, or by one of C's two long jumps. */
  datatype Jump = Overtaken | ExcRaise | SysRaise

  /** The way out: guard first, then the arena savepoint, or the raise that skips the latter. */
  method LeaveTrampoline(interp: Artichoke, exit: Exit, ghost s: State) returns (ending: Ending)
    requires interp.IsInnermost() && interp.mrb.OwnedOnlyAt(s, InFrame(|interp.mrb.frames| - 1))
    modifies interp, interp.mrb
    ensures interp.mrb.frames == old(interp.mrb.frames) && interp.mrb.closed == old(interp.mrb.closed)
    ensures ending == if exit.Raise? then Escaped else Returned
    ensures interp.mrb.OwnedOnlyAt(s, InUserData)
    ensures interp.mrb.owners == old(interp.mrb.owners) + ExitOwners(exit, |interp.mrb.frames| - 1)
    ensures interp.mrb.arenaRestores == old(interp.mrb.arenaRestores)
    decreases ExitSize(exit), 2
  {
    if exit.Raise? {
      var _ := RaiseException(interp, exit.convert, exit.converted, s);
      return Escaped;
    }
    var ok := DropGuard(interp);
    if !ok {
      return Panicked;
    }
    interp.mrb.Record(s, InUserData);
    var _ := WithFfiBoundary(interp, ArenaRestore);
    return Returned;
  }

  /**
   * `error::raise`: builds the value, drops the guard, and leaves by `mrb_exc_raise`, or by
   * `mrb_sys_raise` when there is no value. `None` is the guard's panic, which never happens.
   */
  method RaiseException(interp: Artichoke, convert: RustCode, converted: bool, ghost s: State) returns (jump: Option<Jump>)
    requires interp.IsInnermost() && interp.mrb.OwnedOnlyAt(s, InFrame(|interp.mrb.frames| - 1))
    modifies interp, interp.mrb
    ensures interp.mrb.frames == old(interp.mrb.frames) && interp.mrb.closed == old(interp.mrb.closed)
    ensures jump == Some(if BodyEscapes(convert) then Overtaken else if converted then ExcRaise else SysRaise)
    ensures interp.mrb.OwnedOnlyAt(s, InUserData)
    ensures interp.mrb.owners == old(interp.mrb.owners) + ExitOwners(Raise(convert, converted), |interp.mrb.frames| - 1)
    ensures interp.mrb.arenaRestores == old(interp.mrb.arenaRestores)
    decreases BodySize(convert), 3
  {
    var unwound := RunBody(interp, convert, s);
    if unwound {
      return Some(Overtaken);
    }
    var ok := DropGuard(interp);
    if !ok {
      return None;
    }
    interp.mrb.Record(s, InUserData);
    return Some(if converted then ExcRaise else SysRaise);
  }

  /** A run of boundaries from one Rust frame; true when a raise skips the rest of the frame. */
  method RunBody(interp: Artichoke, b: RustCode, ghost s: State) returns (escaped: bool)
    requires interp.IsInnermost() && interp.mrb.OwnedOnlyAt(s, InFrame(|interp.mrb.frames| - 1))
    modifies interp, interp.mrb
    ensures escaped == BodyEscapes(b)
    ensures interp.mrb.frames == old(interp.mrb.frames) && interp.mrb.closed == old(interp.mrb.closed)
    ensures interp.mrb.OwnedOnlyAt(s, if escaped then InUserData else InFrame(|interp.mrb.frames| - 1))
    ensures interp.mrb.owners == old(interp.mrb.owners) + BodyOwners(b, |interp.mrb.frames| - 1)
    ensures interp.mrb.arenaRestores == old(interp.mrb.arenaRestores)
    decreases BodySize(b), 2
  {
    match b {
      case Nop => return false;
      case Cross(c, next) =>
        var crossing := WithFfiBoundary(interp, Code(c));
        if crossing != Crossed {
          return true;
        }
        escaped := RunBody(interp, next, s);
    }
  }

  // ---- Handing the interpreter over as a raw pointer, and closing it ----

  /** `Artichoke::into_raw`; `None` is the guard's panic. */
  method IntoRaw(interp: Artichoke) returns (r: Option<MrbState>)
    modifies interp`state, interp.mrb`ud
    ensures r == if old(interp.state) != null then Some(interp.mrb) else None
    ensures interp.state == null
    ensures interp.mrb.ud == if r.Some? then old(interp.state) else old(interp.mrb.ud)
  {
    var ok := DropGuard(interp);
    return if ok then Some(interp.mrb) else None;
  }

  /** Going through a raw pointer and back yields an interpreter over the same `State`. */
  method ThroughRawPointer(interp: Artichoke) returns (again: Result<Artichoke, ExtractError>)
    requires interp.state != null
    modifies interp, interp.mrb
    ensures interp.state == null && interp.mrb.ud == null
    ensures again.Ok? && again.value.mrb == interp.mrb && again.value.state == old(interp.state)
  {
    var raw := IntoRaw(interp);
    again := FromUserData(raw.value);
  }

  datatype Resource = Parser | Interpreter | ClassSpecs | ModuleSpecs

  /**
   * `Artichoke::close`: frees the C interpreter only when the `State` is here to be freed with
   * it, the parser before it and the registries it still consults after it.
   */
  method Close(interp: Artichoke) returns (freed: seq<Resource>)
    modifies interp`state, interp.mrb`closed
    ensures interp.state == null
    ensures interp.mrb.closed == (old(interp.mrb.closed) || old(interp.state) != null)
    ensures old(interp.state) == null ==> freed == []
    ensures old(interp.state) != null ==>
              freed == (if old(interp.state).hasParser then [Parser] else []) + [Interpreter, ClassSpecs, ModuleSpecs]
  {
    freed := [];
    if interp.state != null {
      var state := interp.state;
      interp.state := null;
      if state.hasParser {
        freed := freed + [Parser];
      }
      interp.mrb.closed := true;
      freed := freed + [Interpreter];
      freed := freed + [ClassSpecs];
      freed := freed + [ModuleSpecs];
    }
  }

  // ---- The sequence of owners ----

  /**
   * Owners alternate between `ud` and Rust frames, none of them among the outermost `n`;
   * `inRust` says whether Rust holds the `State` before the first of them, `endsInRust` after
   * the last.
   */
  predicate Alternates(owners: seq<Place>, inRust: bool, endsInRust: bool, n: nat) {
    if owners == [] then inRust == endsInRust
    else
      && (if inRust then owners[0] == InUserData else owners[0].InFrame? && owners[0].depth >= n)
      && Alternates(owners[1..], !inRust, endsInRust, n)
  }

  lemma {:induction false} AlternatesConcat(a: seq<Place>, b: seq<Place>, x: bool, y: bool, z: bool, n: nat)
    requires Alternates(a, x, y, n) && Alternates(b, y, z, n)
    ensures Alternates(a + b, x, z, n)
  {
    if a == [] {
      assert a + b == b;
    } else {
      AlternatesConcat(a[1..], b, !x, y, z, n);
      assert (a + b)[1..] == a[1..] + b;
    }
  }

  lemma AlternatesCons(p: Place, rest: seq<Place>, inRust: bool, endsInRust: bool, n: nat)
    requires if inRust then p == InUserData else p.InFrame? && p.depth >= n
    requires Alternates(rest, !inRust, endsInRust, n)
    ensures Alternates([p] + rest, inRust, endsInRust, n)
  {
    assert ([p] + rest)[1..] == rest;
  }

  /**
   * While C runs under `n` frames, the `State` goes from `ud` to a frame above those and back,
   * time after time, and is back in `ud` at the end, raises included.
   */
  lemma {:induction false} OwnersAlternate(c: CCode, n: nat, low: nat)
    requires low <= n
    ensures Alternates(Owners(c, n), false, false, low)
    decreases c
  {
    match c {
      case Idle =>
      case Throw =>
      case Call(t, next) =>
        TrampolineOwnersAlternate(t, n, low);
        OwnersAlternate(next, n, low);
        AlternatesConcat(
          TrampolineOwners(t, n), if TrampolineEscapes(t) then [] else Owners(next, n), false, false, false, low);
      case Protect(body, next) =>
        OwnersAlternate(body, n, low);
        OwnersAlternate(next, n, low);
        AlternatesConcat(Owners(body, n), Owners(next, n), false, false, false, low);
    }
  }

  lemma {:induction false} TrampolineOwnersAlternate(t: Trampoline, n: nat, low: nat)
    requires low <= n
    ensures Alternates(TrampolineOwners(t, n), false, false, low)
    decreases t
  {
    var body := BodyOwners(t.body, n);
    var exit := if BodyEscapes(t.body) then [] else ExitOwners(t.exit, n);
    BodyOwnersAlternate(t.body, n, low);
    ExitOwnersAlternate(t.exit, n, low);
    AlternatesConcat(body, exit, true, !BodyEscapes(t.body), false, low);
    AlternatesCons(InFrame(n), body + exit, false, false, low);
    AlternatesCons(InUserData, [InFrame(n)] + (body + exit), true, false, low);
    AlternatesCons(InFrame(n), [InUserData] + ([InFrame(n)] + (body + exit)), false, false, low);
    assert TrampolineOwners(t, n) == [InFrame(n)] + ([InUserData] + ([InFrame(n)] + (body + exit)));
  }

  lemma {:induction false} ExitOwnersAlternate(e: Exit, n: nat, low: nat)
    requires low <= n
    ensures Alternates(ExitOwners(e, n), true, false, low)
    decreases e
  {
    if e.Raise? {
      BodyOwnersAlternate(e.convert, n, low);
      AlternatesConcat(BodyOwners(e.convert, n), if BodyEscapes(e.convert) then [] else [InUserData],
                       true, !BodyEscapes(e.convert), false, low);
    }
  }

  lemma {:induction false} BodyOwnersAlternate(b: RustCode, frame: nat, low: nat)
    requires low <= frame
    ensures Alternates(BodyOwners(b, frame), true, !BodyEscapes(b), low)
    decreases b
  {
    if b.Cross? {
      var inner := Owners(b.c, frame + 1);
      OwnersAlternate(b.c, frame + 1, low);
      if Escapes(b.c) {
        assert inner + [] == inner;
        AlternatesCons(InUserData, inner, true, false, low);
      } else {
        var back := BodyOwners(b.next, frame);
        BodyOwnersAlternate(b.next, frame, low);
        AlternatesCons(InFrame(frame), back, false, !BodyEscapes(b), low);
        AlternatesConcat(inner, [InFrame(frame)] + back, false, false, !BodyEscapes(b), low);
        AlternatesCons(InUserData, inner + ([InFrame(frame)] + back), true, !BodyEscapes(b), low);
      }
    }
  }
}
