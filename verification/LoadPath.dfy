/** Paths as component lists, and their resolution against a working directory. */
module LoadPath {
  import opened Common

  datatype Component = RootDir | CurDir | ParentDir | Normal(name: Bytes)

  /** What `Path::components` yields: a root directory can only come first. */
  type Path = p: seq<Component> | forall i :: 0 < i < |p| ==> p[i] != RootDir

  predicate IsAbsolute(p: Path) { p != [] && p[0] == RootDir }

  predicate AllNormal(p: seq<Component>) {
    forall i :: 0 <= i < |p| ==> p[i].Normal?
  }

  predicate NoRoot(p: seq<Component>) {
    forall i :: 0 <= i < |p| ==> p[i] != RootDir
  }

  /** One component applied to the stack; only below a root does popping stop at the root. */
  function Step(stack: seq<Component>, c: Component, cwdIsRelative: bool): seq<Component> {
    match c
    case CurDir => stack
    case ParentDir =>
      var popped := if stack == [] then [] else stack[..|stack| - 1];
      if !cwdIsRelative && popped == [] then [RootDir] else popped
    case _ => stack + [c]
  }

  /** A root comes from the path itself, or from the directory the stack started with. */
  predicate CanWalk(stack: Path, path: Path, cwdIsRelative: bool) {
    if IsAbsolute(path) then stack == [] && !cwdIsRelative else cwdIsRelative == !IsAbsolute(stack)
  }

  function Walk(stack: Path, path: Path, cwdIsRelative: bool): (walked: Path)
    requires CanWalk(stack, path, cwdIsRelative)
    ensures IsAbsolute(walked) <==> !cwdIsRelative
    decreases |path|
  {
    if path == [] then stack
    else Walk(Step(stack, path[0], cwdIsRelative), path[1..], cwdIsRelative)
  }

  /** The function `absolutize_relative_to` computes. */
  function Absolutize(path: Path, cwd: Path): (r: Path)
    ensures IsAbsolute(r) <==> IsAbsolute(path) || IsAbsolute(cwd)
  {
    if IsAbsolute(path) then Walk([], path, false) else Walk(cwd, path, !IsAbsolute(cwd))
  }

  method AbsolutizeRelativeTo(path: Path, cwd: Path) returns (components: Path)
    ensures components == Absolutize(path, cwd)
  {
    var cwdIsRelative := false;
    if IsAbsolute(path) {
      components := [];
    } else {
      components := cwd;
      cwdIsRelative := !IsAbsolute(cwd);
    }
    for i := 0 to |path|
      invariant CanWalk(components, path[i..], cwdIsRelative)
      invariant Walk(components, path[i..], cwdIsRelative) == Absolutize(path, cwd)
    {
      assert path[i..][1..] == path[i + 1..] && path[i..][0] == path[i];
      match path[i] {
        case CurDir =>
        case ParentDir =>
          if components != [] {
            components := components[..|components| - 1];
          }
          if !cwdIsRelative && components == [] {
            components := [RootDir];
          }
        case c => components := components + [c];
      }
    }
  }

  // ---- Closed form ----

  /** How many more parent steps than names a path takes. */
  function Excess(path: seq<Component>): int {
    if path == [] then 0
    else
      (match path[0]
       case ParentDir => 1
       case Normal(_) => -1
       case _ => 0) + Excess(path[1..])
  }

  /** `k` is the largest excess over the prefixes of the path. */
  ghost predicate IsLargestExcess(k: nat, path: seq<Component>) {
    && (forall i :: 0 <= i <= |path| ==> Excess(path[..i]) <= k)
    && exists i :: 0 <= i <= |path| && Excess(path[..i]) == k
  }

  /**
   * Reading the path from its end: a name survives unless a parent step behind it is still
   * looking for one. Yields the unmatched parent steps and the surviving names.
   */
  function Scan(path: seq<Component>): (nat, seq<Component>) {
    if path == [] then (0, [])
    else
      var (ups, kept) := Scan(path[1..]);
      match path[0]
      case ParentDir => (ups + 1, kept)
      case Normal(_) => if ups > 0 then (ups - 1, kept) else (0, [path[0]] + kept)
      case _ => (ups, kept)
  }

  function Clamp(n: int): nat { if n < 0 then 0 else n }

  function Root(cwdIsRelative: bool): seq<Component> { if cwdIsRelative then [] else [RootDir] }

  /** The stack after a scan: the directory names left, then the names the path keeps. */
  function Survivors(names: seq<Component>, path: Path): seq<Component> {
    names[..Clamp(|names| - Scan(path).0)] + Scan(path).1
  }

  /** The directory names one component leaves for the rest of the path. */
  function StepNames(names: seq<Component>, c: Component): seq<Component> {
    match c
    case ParentDir => if names == [] then [] else names[..|names| - 1]
    case Normal(_) => names + [c]
    case _ => names
  }

  lemma SurvivorsStep(names: seq<Component>, path: Path)
    requires path != [] && !IsAbsolute(path)
    ensures Survivors(names, path) == Survivors(StepNames(names, path[0]), path[1..])
  {
    var (ups, kept) := Scan(path[1..]);
    var stepped := StepNames(names, path[0]);
    match path[0] {
      case CurDir =>
      case ParentDir =>
        assert stepped[..Clamp(|stepped| - ups)] == names[..Clamp(|names| - (ups + 1))];
      case Normal(_) =>
        if ups > 0 {
          assert stepped[..Clamp(|stepped| - ups)] == names[..Clamp(|names| - (ups - 1))];
        } else {
          assert stepped[..|stepped|] == stepped && names[..|names|] == names;
          ConcatIsAssociative(names, [path[0]], kept);
        }
    }
  }

  /** The stack walk agrees with the scan from the end. */
  lemma {:induction false} WalkClosedForm(names: seq<Component>, path: Path, cwdIsRelative: bool)
    requires NoRoot(names) && !IsAbsolute(path)
    ensures Walk(Root(cwdIsRelative) + names, path, cwdIsRelative) == Root(cwdIsRelative) + Survivors(names, path)
    decreases |path|
  {
    if path == [] {
      assert Survivors(names, path) == names;
    } else {
      var stepped := StepNames(names, path[0]);
      assert Step(Root(cwdIsRelative) + names, path[0], cwdIsRelative) == Root(cwdIsRelative) + stepped;
      WalkClosedForm(stepped, path[1..], cwdIsRelative);
      SurvivorsStep(names, path);
    }
  }

  lemma {:induction false} ScanCounts(path: seq<Component>, i: nat)
    requires i <= |path| && NoRoot(path)
    ensures Excess(path[..i]) <= Scan(path).0
    ensures AllNormal(Scan(path).1)
    ensures |Scan(path).1| == Scan(path).0 - Excess(path)
  {
    if path != [] {
      ScanCounts(path[1..], Clamp(i - 1));
      if i > 0 {
        assert path[..i][1..] == path[1..][..i - 1];
      }
    }
  }

  lemma {:induction false} ScanIsReached(path: seq<Component>) returns (i: nat)
    requires NoRoot(path)
    ensures i <= |path| && Excess(path[..i]) == Scan(path).0
  {
    i := 0;
    if path != [] && Scan(path).0 > 0 {
      var j := ScanIsReached(path[1..]);
      i := j + 1;
      assert path[..i][1..] == path[1..][..j];
    }
  }

  /** The unmatched parent steps are the largest excess of any prefix. */
  lemma ScanIsLargestExcess(path: seq<Component>)
    requires NoRoot(path)
    ensures IsLargestExcess(Scan(path).0, path)
  {
    forall i | 0 <= i <= |path|
      ensures Excess(path[..i]) <= Scan(path).0
    {
      ScanCounts(path, i);
    }
    var i := ScanIsReached(path);
  }

  /** A path without `.` or `..`. */
  predicate IsDotFree(p: Path) {
    if IsAbsolute(p) then AllNormal(p[1..]) else AllNormal(p)
  }

  function Names(p: Path): seq<Component> { if IsAbsolute(p) then p[1..] else p }

  /**
   * For a relative path, exactly the first `max(0, n - k)` of the `n` components of the
   * directory below its root survive, where `k` is the largest excess of the path, followed by
   * the path's own surviving names. Dots in the directory are components like any other.
   */
  lemma AbsolutizeRelative(path: Path, cwd: Path, k: nat)
    requires !IsAbsolute(path) && IsLargestExcess(k, path)
    ensures Absolutize(path, cwd) ==
            Root(!IsAbsolute(cwd)) + (Names(cwd)[..Clamp(|Names(cwd)| - k)] + Scan(path).1)
    ensures AllNormal(Scan(path).1) && |Scan(path).1| == k - Excess(path)
  {
    ScanIsLargestExcess(path);
    LargestExcessIsUnique(path, k, Scan(path).0);
    WalkFromDirectory(path, cwd);
    ScanCounts(path, 0);
  }

  lemma WalkFromDirectory(path: Path, cwd: Path)
    requires !IsAbsolute(path)
    ensures Absolutize(path, cwd) == Root(!IsAbsolute(cwd)) + Survivors(Names(cwd), path)
  {
    assert cwd == Root(!IsAbsolute(cwd)) + Names(cwd);
    WalkClosedForm(Names(cwd), path, !IsAbsolute(cwd));
  }

  lemma LargestExcessIsUnique(path: seq<Component>, k: nat, l: nat)
    requires IsLargestExcess(k, path) && IsLargestExcess(l, path)
    ensures k == l
  {
    var i :| 0 <= i <= |path| && Excess(path[..i]) == k;
    var j :| 0 <= j <= |path| && Excess(path[..j]) == l;
  }

  /** An absolute path keeps its surviving names, whatever the directory. */
  lemma AbsolutizeAbsolute(path: Path, cwd: Path)
    requires IsAbsolute(path)
    ensures Absolutize(path, cwd) == [RootDir] + Scan(path[1..]).1
    ensures AllNormal(Scan(path[1..]).1)
  {
    assert Step([], RootDir, false) == Root(false) + [];
    WalkClosedForm([], path[1..], false);
    assert Survivors([], path[1..]) == Scan(path[1..]).1;
    ScanCounts(path[1..], 0);
  }

  /** Absolute input, or a dot-free absolute directory, always gives a rooted dot-free path. */
  lemma AbsolutizeIsRooted(path: Path, cwd: Path)
    requires IsAbsolute(path) || (IsAbsolute(cwd) && IsDotFree(cwd))
    ensures IsAbsolute(Absolutize(path, cwd)) && IsDotFree(Absolutize(path, cwd))
  {
    if IsAbsolute(path) {
      AbsolutizeAbsolute(path, cwd);
    } else {
      WalkFromDirectory(path, cwd);
      ScanCounts(path, 0);
    }
  }

  lemma {:induction false} ScanOfNames(names: seq<Component>)
    requires AllNormal(names)
    ensures Scan(names) == (0, names)
  {
    if names != [] {
      ScanOfNames(names[1..]);
      assert [names[0]] + names[1..] == names;
    }
  }

  /** Normalising again changes nothing, from any directory. */
  lemma AbsolutizeIsIdempotent(path: Path, cwd: Path, other: Path)
    requires IsAbsolute(path) || (IsAbsolute(cwd) && IsDotFree(cwd))
    ensures Absolutize(Absolutize(path, cwd), other) == Absolutize(path, cwd)
  {
    AbsolutizeIsRooted(path, cwd);
    var once := Absolutize(path, cwd);
    AbsolutizeAbsolute(once, other);
    ScanOfNames(once[1..]);
  }

  lemma {:induction false} WalkConcat(stack: Path, p: Path, q: Path, rel: bool)
    requires CanWalk(stack, p, rel) && !IsAbsolute(q)
    ensures CanWalk(stack, p + q, rel)
    ensures Walk(stack, p + q, rel) == Walk(Walk(stack, p, rel), q, rel)
    decreases |p|
  {
    if p == [] {
      assert p + q == q;
    } else {
      WalkConcat(Step(stack, p[0], rel), p[1..], q, rel);
      assert (p + q)[1..] == p[1..] + q;
    }
  }

  /**
   * A path can be resolved in two steps: its start, then the rest against the result. This
   * holds for every directory, dotted or relative ones included.
   */
  lemma AbsolutizeInTwoSteps(p: Path, q: Path, cwd: Path)
    requires !IsAbsolute(q)
    ensures Absolutize(p + q, cwd) == Absolutize(q, Absolutize(p, cwd))
  {
    if IsAbsolute(p) {
      WalkConcat([], p, q, false);
    } else {
      WalkConcat(cwd, p, q, !IsAbsolute(cwd));
    }
  }
}
