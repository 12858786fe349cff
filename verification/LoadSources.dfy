/**
 * Loading and requiring Ruby sources from the in-memory file system. The Ruby code behind a
 * hook or an evaluated source is an arbitrary finite tree of further calls.
 */
module LoadSources {
  import opened Common
  import opened LoadPath

  const RB: Bytes := [114, 98]
  const DOT: byte := 46

  /** `/artichoke/virtual_root/src/lib` */
  const RUBY_LOAD_PATH: Path := [
    RootDir,
    Normal([97, 114, 116, 105, 99, 104, 111, 107, 101]),
    Normal([118, 105, 114, 116, 117, 97, 108, 95, 114, 111, 111, 116]),
    Normal([115, 114, 99]),
    Normal([108, 105, 98])
  ]

  // ---- File names ----

  function LastDot(name: Bytes): Option<nat> {
    if name == [] then None
    else if name[|name| - 1] == DOT then Some(|name| - 1)
    else LastDot(name[..|name| - 1])
  }

  function FileName(path: Path): Option<Bytes> {
    if path != [] && path[|path| - 1].Normal? then Some(path[|path| - 1].name) else None
  }

  /** The part of a file name before its last dot; a leading dot starts no extension. */
  function Stem(name: Bytes): (stem: Bytes)
    ensures |stem| <= |name|
  {
    match LastDot(name)
    case Some(k) => if 0 < k < |name| then name[..k] else name
    case None => name
  }

  function Extension(path: Path): Option<Bytes> {
    match FileName(path)
    case None => None
    case Some(name) => if |Stem(name)| < |name| then Some(name[|Stem(name)| + 1..]) else None
  }

  /** Replaces the extension of the file name, or adds one; a path without file name is unchanged. */
  function SetExtension(path: Path, extension: Bytes): Path {
    match FileName(path)
    case None => path
    case Some(name) => path[..|path| - 1] + [Normal(Stem(name) + [DOT] + extension)]
  }

  predicate IsRb(path: Path) { Extension(path) == Some(RB) }

  // ---- The virtual file system ----

  /** A source, an extension hook, or both. */
  datatype Entry = Entry(code: Option<Bytes>, hook: bool)

  datatype Vfs = Vfs(fs: map<Path, Entry>, loaded: set<Path>, cwd: Path) {
    /** The absolute path a path names, when it lies below the load path. */
    function Key(path: Path): Option<Path> {
      var absolute := Absolutize(path, cwd);
      if RUBY_LOAD_PATH <= absolute then Some(absolute) else None
    }

    function IsFile(path: Path): bool { Key(path).Some? && Key(path).value in fs }

    function IsRequired(path: Path): Option<bool> {
      match Key(path)
      case Some(key) => Some(key in loaded)
      case None => None
    }

    predicate HasExtension(path: Path) { IsFile(path) && fs[Key(path).value].hook }

    function WriteFile(path: Path, contents: Bytes): (Vfs, bool) {
      match Key(path)
      case None => (this, false)
      case Some(key) =>
        var hook := key in fs && fs[key].hook;
        (this.(fs := fs[key := Entry(Some(contents), hook)]), true)
    }

    function RegisterExtension(path: Path): (Vfs, bool) {
      match Key(path)
      case None => (this, false)
      case Some(key) =>
        var code := if key in fs then fs[key].code else None;
        (this.(fs := fs[key := Entry(code, true)]), true)
    }

    function MarkRequired(path: Path): (Vfs, bool) {
      match Key(path)
      case None => (this, false)
      case Some(key) => (this.(loaded := loaded + {key}), true)
    }
  }

  /** The source a path resolves to: the path itself, or its `.rb` alternate. */
  function Resolved(v: Vfs, path: Path): Option<Path> {
    if v.IsFile(path) then v.Key(path)
    else if !IsRb(path) && v.IsFile(SetExtension(path, RB)) then v.Key(SetExtension(path, RB))
    else None
  }

  // ---- Laws of names ----

  function Ascii(s: string): Bytes
    requires forall i :: 0 <= i < |s| ==> s[i] < 128 as char
  {
    seq(|s|, i requires 0 <= i < |s| => s[i] as int)
  }

  lemma RubyLoadPathSpelled()
    ensures RUBY_LOAD_PATH ==
            [RootDir, Normal(Ascii("artichoke")), Normal(Ascii("virtual_root")), Normal(Ascii("src")), Normal(Ascii("lib"))]
  {
    assert Ascii("artichoke") == [97, 114, 116, 105, 99, 104, 111, 107, 101];
    assert Ascii("virtual_root") == [118, 105, 114, 116, 117, 97, 108, 95, 114, 111, 111, 116];
    assert Ascii("src") == [115, 114, 99];
    assert Ascii("lib") == [108, 105, 98];
  }

  lemma {:induction false} LastDotIs(stem: Bytes, extension: Bytes)
    requires 46 !in extension
    ensures LastDot(stem + [46] + extension) == Some(|stem|)
  {
    var name := stem + [46] + extension;
    if extension != [] {
      assert name[..|name| - 1] == stem + [46] + extension[..|extension| - 1];
      LastDotIs(stem, extension[..|extension| - 1]);
    }
  }

  lemma {:induction false} NoDot(name: Bytes)
    requires 46 !in name
    ensures LastDot(name) == None
  {
    if name != [] {
      NoDot(name[..|name| - 1]);
    }
  }

  /** What follows the last dot is the extension, and setting another replaces it. */
  lemma ExtensionIsReplaced(directory: Path, stem: Bytes, extension: Bytes, other: Bytes)
    requires stem != [] && 46 !in extension
    ensures var path := directory + [Normal(stem + [46] + extension)];
            && Extension(path) == Some(extension)
            && SetExtension(path, other) == directory + [Normal(stem + [46] + other)]
            && (IsRb(path) <==> extension == [114, 98])
  {
    var name := stem + [46] + extension;
    var path := directory + [Normal(name)];
    LastDotIs(stem, extension);
    assert Stem(name) == stem && name[|stem| + 1..] == extension;
    assert path[..|path| - 1] == directory;
  }

  /** A name without a dot, or with one at its start alone, has no extension, and setting one appends it. */
  lemma ExtensionIsAppended(directory: Path, name: Bytes, other: Bytes)
    requires name != [] && 46 !in name[1..]
    ensures var path := directory + [Normal(name)];
            && Extension(path) == None && !IsRb(path)
            && SetExtension(path, other) == directory + [Normal(name + [46] + other)]
  {
    var path := directory + [Normal(name)];
    if name[0] == 46 {
      assert name == [] + [46] + name[1..];
      LastDotIs([], name[1..]);
    } else {
      assert name == [name[0]] + name[1..];
      NoDot(name);
    }
    assert Stem(name) == name && path[..|path| - 1] == directory;
  }

  /** A path that does not end in a name has no extension to replace. */
  lemma NoNameNoExtension(path: Path, other: Bytes)
    requires path == [] || !path[|path| - 1].Normal?
    ensures Extension(path) == None && !IsRb(path) && SetExtension(path, other) == path
  {
  }

  // ---- Laws of the file system ----

  /** Only what normalises to a path below the load path exists, and then under that path. */
  lemma KeyExact(v: Vfs, path: Path)
    ensures v.Key(path).Some? <==>
              && |Absolutize(path, v.cwd)| >= 5
              && Absolutize(path, v.cwd)[..5] ==
                 [RootDir, Normal(Ascii("artichoke")), Normal(Ascii("virtual_root")), Normal(Ascii("src")), Normal(Ascii("lib"))]
    ensures v.Key(path).Some? ==> v.Key(path).value == Absolutize(path, v.cwd)
    ensures v.Key(path).None? ==> !v.IsFile(path) && !v.HasExtension(path) && v.IsRequired(path) == None
  {
    RubyLoadPathSpelled();
  }

  /** Everything but the entry at `key` is as before. */
  ghost predicate OnlyEntryChanged(v: Vfs, v': Vfs, key: Path) {
    && v'.loaded == v.loaded && v'.cwd == v.cwd && v'.fs.Keys == v.fs.Keys + {key}
    && forall other :: other in v.fs && other != key ==> v'.fs[other] == v.fs[other]
  }

  /** A source written is there, with the hook its path had before and nothing else changed. */
  lemma WriteThenRead(v: Vfs, path: Path, contents: Bytes)
    ensures var (v', ok) := v.WriteFile(path, contents);
            && (ok <==> v.Key(path).Some?)
            && (!ok ==> v' == v)
            && (ok ==> var key := v.Key(path).value;
                       && OnlyEntryChanged(v, v', key)
                       && v'.IsFile(path) && v'.fs[key].code == Some(contents)
                       && v'.HasExtension(path) == v.HasExtension(path))
  {
  }

  /** A hook registered is there, with the source its path had before and nothing else changed. */
  lemma RegisterThenHook(v: Vfs, path: Path)
    ensures var (v', ok) := v.RegisterExtension(path);
            && (ok <==> v.Key(path).Some?)
            && (!ok ==> v' == v)
            && (ok ==> var key := v.Key(path).value;
                       && OnlyEntryChanged(v, v', key)
                       && v'.IsFile(path) && v'.HasExtension(path)
                       && v'.fs[key].code == if key in v.fs then v.fs[key].code else None)
  {
  }

  /** A feature marked is required under every path that normalises to it, and no other is. */
  lemma MarkThenRequired(v: Vfs, path: Path, other: Path)
    ensures var (v', ok) := v.MarkRequired(path);
            && (ok <==> v.Key(path).Some?)
            && (!ok ==> v' == v)
            && (ok ==> v'.fs == v.fs && v'.cwd == v.cwd)
            && (ok ==> (v'.IsRequired(other) == Some(true) <==>
                          v.IsRequired(other) == Some(true) || Absolutize(other, v.cwd) == Absolutize(path, v.cwd)))
  {
  }

  // ---- Candidates ----

  /** The paths a name can stand for, in order. */
  function Candidates(path: Path): seq<Path> {
    if IsRb(path) then [path] else [path, SetExtension(path, RB)]
  }

  lemma TheCandidates(path: Path)
    ensures Candidates(path)[0] == path && |Candidates(path)| == (if IsRb(path) then 1 else 2)
    ensures !IsRb(path) ==> Candidates(path)[1] == SetExtension(path, RB)
  {
  }

  /** A source resolves to the first candidate that is a file. */
  lemma ResolvedIsFirstFile(v: Vfs, path: Path, k: nat)
    requires k < |Candidates(path)|
    requires forall i :: 0 <= i < k ==> !v.IsFile(Candidates(path)[i])
    ensures v.IsFile(Candidates(path)[k]) ==> Resolved(v, path) == v.Key(Candidates(path)[k])
    ensures k == |Candidates(path)| - 1 && !v.IsFile(Candidates(path)[k]) ==> Resolved(v, path) == None
  {
    TheCandidates(path);
    assert k == 0 || k == 1;
  }

  // ---- Calls, and the code they run ----

  datatype Required = Success | AlreadyRequired

  datatype Failure = NoSuchFile | HookFailed | EvalFailed | NotMarkable

  /** A call Ruby code can make back into the loader. */
  datatype Call =
    | RequireCall(path: Path, code: Behaviour)
    | LoadCall(path: Path, code: Behaviour)
    | DefSourceCall(path: Path, contents: Bytes)
    | DefFileCall(path: Path)

  /** Calls in order, then success or an exception. */
  datatype Program = Finish(ok: bool) | Then(call: Call, rest: Program)

  /** What the hook and the source reached by one call do when they run. */
  datatype Behaviour = Behaviour(hook: Program, source: Program)

  /** The file system and the features `require` has returned success for, in order. */
  datatype World = World(vfs: Vfs, successes: seq<Path>)

  function Run(w: World, p: Program): (World, bool)
    decreases p, 0
  {
    match p
    case Finish(ok) => (w, ok)
    case Then(call, rest) => Run(RunCall(w, call), rest)
  }

  function RunCall(w: World, call: Call): World
    decreases call
  {
    match call
    case RequireCall(path, code) => Require(w, path, code).0
    case LoadCall(path, code) => Load(w, path, code).0
    case DefSourceCall(path, contents) => w.(vfs := w.vfs.WriteFile(path, contents).0)
    case DefFileCall(path) => w.(vfs := w.vfs.RegisterExtension(path).0)
  }

  /** `load_source`: hook, then source, with no memory. */
  function Load(w: World, path: Path, code: Behaviour): (World, Result<(), Failure>)
    decreases code
  {
    var (w1, hooked) := if w.vfs.HasExtension(path) then Run(w, code.hook) else (w, true);
    if !hooked then (w1, Err(HookFailed))
    else if !w1.vfs.IsFile(path) then (w1, Err(NoSuchFile))
    else
      var (w2, ok) := Run(w1, code.source);
      if ok then (w2, Ok(())) else (w2, Err(EvalFailed))
  }

  /** The feature a `require` settles on before running any code, and whether it has a hook. */
  datatype Target = Done | Feature(path: Path, hooked: bool)

  function TargetOf(v: Vfs, path: Path): Target {
    if v.IsRequired(path) == Some(true) then Done
    else if v.HasExtension(path) then Feature(path, true)
    else if IsRb(path) then Feature(path, false)
    else
      var alternate := SetExtension(path, RB);
      if v.IsRequired(alternate) == Some(true) then Done
      else if v.HasExtension(alternate) then Feature(alternate, true)
      else if v.IsFile(path) then Feature(path, false)
      else Feature(alternate, false)
  }

  /** A candidate that ends the search before files are looked at. */
  predicate Settles(v: Vfs, path: Path) { v.IsRequired(path) == Some(true) || v.HasExtension(path) }

  /** The first candidate that is required or hooked decides a `require`. */
  lemma TargetIsFirstSettled(v: Vfs, path: Path, k: nat)
    requires k < |Candidates(path)| && Settles(v, Candidates(path)[k])
    requires forall i :: 0 <= i < k ==> !Settles(v, Candidates(path)[i])
    ensures TargetOf(v, path) ==
            if v.IsRequired(Candidates(path)[k]) == Some(true) then Done else Feature(Candidates(path)[k], true)
  {
    TheCandidates(path);
    assert k == 0 || k == 1;
  }

  /** Without one, the first candidate that is a file, or else the last. */
  lemma TargetIsFirstFile(v: Vfs, path: Path, k: nat)
    requires forall i :: 0 <= i < |Candidates(path)| ==> !Settles(v, Candidates(path)[i])
    requires k < |Candidates(path)| && (v.IsFile(Candidates(path)[k]) || k == |Candidates(path)| - 1)
    requires forall i :: 0 <= i < k ==> !v.IsFile(Candidates(path)[i])
    ensures TargetOf(v, path) == Feature(Candidates(path)[k], false)
  {
    TheCandidates(path);
    assert k == 0 || k == 1;
  }

  /** Evaluates the source of a feature and marks it. */
  function EvalAndMark(w: World, path: Path, source: Program): (World, Result<Required, Failure>)
    decreases source, 1
  {
    if !w.vfs.IsFile(path) then (w, Err(NoSuchFile))
    else
      var (w1, ok) := Run(w, source);
      if !ok then (w1, Err(EvalFailed))
      else
        var (vfs, marked) := w1.vfs.MarkRequired(path);
        if marked then (World(vfs, w1.successes + [vfs.Key(path).value]), Ok(Success))
        else (w1, Err(NotMarkable))
  }

  /** `require_source`. */
  function Require(w: World, path: Path, code: Behaviour): (World, Result<Required, Failure>)
    decreases code
  {
    match TargetOf(w.vfs, path)
    case Done => (w, Ok(AlreadyRequired))
    case Feature(target, hooked) =>
      var (w1, ok) := if hooked then Run(w, code.hook) else (w, true);
      if !ok then (w1, Err(HookFailed)) else EvalAndMark(w1, target, code.source)
  }

  // ---- The loader as it updates its file system ----

  class Loader {
    var fs: map<Path, Entry>
    var loadedFeatures: set<Path>
    const cwd: Path
    ghost var successes: seq<Path>

    ghost function State(): World
      reads this
    {
      World(Vfs(fs, loadedFeatures, cwd), successes)
    }

    constructor (cwd: Path)
      ensures State() == World(Vfs(map[], {}, cwd), [])
    {
      fs, loadedFeatures, successes := map[], {}, [];
      this.cwd := cwd;
    }

    method DefRbSourceFile(path: Path, contents: Bytes) returns (ok: bool)
      modifies this
      ensures State() == old(State()).(vfs := old(State()).vfs.WriteFile(path, contents).0)
      ensures ok == old(State()).vfs.WriteFile(path, contents).1
    {
      var absolute := AbsolutizeRelativeTo(path, cwd);
      if !(RUBY_LOAD_PATH <= absolute) {
        return false;
      }
      if absolute in fs {
        fs := fs[absolute := fs[absolute].(code := Some(contents))];
      } else {
        fs := fs[absolute := Entry(Some(contents), false)];
      }
      return true;
    }

    method DefFileForType(path: Path) returns (ok: bool)
      modifies this
      ensures State() == old(State()).(vfs := old(State()).vfs.RegisterExtension(path).0)
      ensures ok == old(State()).vfs.RegisterExtension(path).1
    {
      var absolute := AbsolutizeRelativeTo(path, cwd);
      if !(RUBY_LOAD_PATH <= absolute) {
        return false;
      }
      if absolute in fs {
        fs := fs[absolute := fs[absolute].(hook := true)];
      } else {
        fs := fs[absolute := Entry(None, true)];
      }
      return true;
    }

    method ResolveSourcePath(path: Path) returns (r: Option<Path>)
      ensures r == Resolved(State().vfs, path)
    {
      var absolute := AbsolutizeRelativeTo(path, cwd);
      if RUBY_LOAD_PATH <= absolute && absolute in fs {
        return Some(absolute);
      }
      if !IsRb(path) {
        absolute := AbsolutizeRelativeTo(SetExtension(path, RB), cwd);
        if RUBY_LOAD_PATH <= absolute && absolute in fs {
          return Some(absolute);
        }
      }
      return None;
    }

    method SourceIsFile(path: Path) returns (r: bool)
      ensures r <==> Resolved(State().vfs, path).Some?
    {
      r := CanReadFile(path);
      if !r && !IsRb(path) {
        r := CanReadFile(SetExtension(path, RB));
      }
    }

    method IsRequired(path: Path) returns (r: Option<bool>)
      ensures r == State().vfs.IsRequired(path)
    {
      var absolute := AbsolutizeRelativeTo(path, cwd);
      r := if RUBY_LOAD_PATH <= absolute then Some(absolute in loadedFeatures) else None;
    }

    method HasExtension(path: Path) returns (r: bool)
      ensures r == State().vfs.HasExtension(path)
    {
      var absolute := AbsolutizeRelativeTo(path, cwd);
      r := RUBY_LOAD_PATH <= absolute && absolute in fs && fs[absolute].hook;
    }

    method CanReadFile(path: Path) returns (r: bool)
      ensures r == State().vfs.IsFile(path)
    {
      var absolute := AbsolutizeRelativeTo(path, cwd);
      r := RUBY_LOAD_PATH <= absolute && absolute in fs;
    }

    method MarkRequired(path: Path) returns (ok: bool)
      modifies this`loadedFeatures, this`successes
      ensures ok == old(State()).vfs.MarkRequired(path).1
      ensures State() ==
              if ok then World(old(State()).vfs.MarkRequired(path).0, old(successes) + [old(State()).vfs.Key(path).value])
              else old(State())
    {
      var absolute := AbsolutizeRelativeTo(path, cwd);
      if !(RUBY_LOAD_PATH <= absolute) {
        return false;
      }
      loadedFeatures := loadedFeatures + {absolute};
      successes := successes + [absolute];
      return true;
    }

    method RunProgram(p: Program) returns (ok: bool)
      modifies this
      ensures (State(), ok) == Run(old(State()), p)
      decreases p, 0
    {
      match p {
        case Finish(result) => return result;
        case Then(call, rest) =>
          match call {
            case RequireCall(path, code) => var _ := RequireSource(path, code);
            case LoadCall(path, code) => var _ := LoadSource(path, code);
            case DefSourceCall(path, contents) => var _ := DefRbSourceFile(path, contents);
            case DefFileCall(path) => var _ := DefFileForType(path);
          }
          ok := RunProgram(rest);
      }
    }

    method LoadSource(path: Path, code: Behaviour) returns (r: Result<(), Failure>)
      modifies this
      ensures (State(), r) == Load(old(State()), path, code)
      decreases code
    {
      var hook := HasExtension(path);
      if hook {
        var ok := RunProgram(code.hook);
        if !ok {
          return Err(HookFailed);
        }
      }
      var readable := CanReadFile(path);
      if !readable {
        return Err(NoSuchFile);
      }
      var ok := RunProgram(code.source);
      r := if ok then Ok(()) else Err(EvalFailed);
    }

    method RequireSource(path: Path, code: Behaviour) returns (r: Result<Required, Failure>)
      modifies this
      ensures (State(), r) == Require(old(State()), path, code)
      decreases code
    {
      var required := IsRequired(path);
      if required == Some(true) {
        return Ok(AlreadyRequired);
      }
      var target := path;
      var hook := HasExtension(path);
      if hook {
        var ok := RunProgram(code.hook);
        if !ok {
          return Err(HookFailed);
        }
      } else if !IsRb(path) {
        var alternate := SetExtension(path, RB);
        required := IsRequired(alternate);
        if required == Some(true) {
          return Ok(AlreadyRequired);
        }
        hook := HasExtension(alternate);
        if hook {
          var ok := RunProgram(code.hook);
          if !ok {
            return Err(HookFailed);
          }
          target := alternate;
        } else {
          var readable := CanReadFile(path);
          if !readable {
            target := alternate;
          }
        }
      }
      r := EvalSource(target, code.source);
    }

    /** Reads, evaluates and marks the feature settled on. */
    method EvalSource(path: Path, source: Program) returns (r: Result<Required, Failure>)
      modifies this
      ensures (State(), r) == EvalAndMark(old(State()), path, source)
      decreases source, 1
    {
      var readable := CanReadFile(path);
      if !readable {
        return Err(NoSuchFile);
      }
      var ok := RunProgram(source);
      if !ok {
        return Err(EvalFailed);
      }
      var marked := MarkRequired(path);
      r := if marked then Ok(Success) else Err(NotMarkable);
    }
  }

  // ---- Every run ----

  ghost predicate NoRepeats(s: seq<Path>) {
    forall i, j :: 0 <= i < j < |s| ==> s[i] != s[j]
  }

  /** Every loaded feature was loaded at the start or by a success of `require`, and never by both. */
  ghost predicate Ledger(initial: set<Path>, w: World) {
    forall key ::
      && (key in w.vfs.loaded <==> key in initial || key in w.successes)
      && !(key in initial && key in w.successes)
  }

  /** What a run never undoes: loaded features, the directory, and the record of successes. */
  ghost predicate Extends(w: World, w': World) {
    w.vfs.loaded <= w'.vfs.loaded && w.vfs.cwd == w'.vfs.cwd && w.successes <= w'.successes
  }

  // ---- The code behind one call ----

  function AfterHook(w: World, hooked: bool, code: Behaviour): (World, bool) {
    if hooked then Run(w, code.hook) else (w, true)
  }

  /** Whether the source behind a call is reached: its hook succeeds and its file is there. */
  predicate Evaluates(w: World, hooked: bool, path: Path, code: Behaviour) {
    var (w1, ok) := AfterHook(w, hooked, code);
    ok && w1.vfs.IsFile(path)
  }

  function AfterCode(w: World, hooked: bool, path: Path, code: Behaviour): World {
    var w1 := AfterHook(w, hooked, code).0;
    if Evaluates(w, hooked, path, code) then Run(w1, code.source).0 else w1
  }

  /** Whether the call gets as far as marking its feature. */
  predicate Completes(w: World, hooked: bool, path: Path, code: Behaviour) {
    Evaluates(w, hooked, path, code) && Run(AfterHook(w, hooked, code).0, code.source).1
  }

  lemma LoadRunsCode(w: World, path: Path, code: Behaviour)
    ensures Load(w, path, code).0 == AfterCode(w, w.vfs.HasExtension(path), path, code)
  {
  }

  /** A `require` runs its code, and marks its feature when that completes. */
  lemma RequireRunsCode(w: World, path: Path, code: Behaviour)
    requires TargetOf(w.vfs, path).Feature?
    ensures var target := TargetOf(w.vfs, path);
            var w2 := AfterCode(w, target.hooked, target.path, code);
            var key := w.vfs.Key(target.path);
            && Extends(w, w2)
            && (Completes(w, target.hooked, target.path, code) ==>
                  && key.Some? && Require(w, path, code).1 == Ok(Success)
                  && Require(w, path, code).0
                     == World(w2.vfs.(loaded := w2.vfs.loaded + {key.value}), w2.successes + [key.value]))
            && (!Completes(w, target.hooked, target.path, code) ==>
                  Require(w, path, code).0 == w2 && Require(w, path, code).1 != Ok(Success))
  {
    var target := TargetOf(w.vfs, path);
    var w1 := AfterHook(w, target.hooked, code).0;
    RunExtends(w, code.hook);
    RunExtends(w1, code.source);
  }

  lemma {:induction false} RunExtends(w: World, p: Program)
    ensures Extends(w, Run(w, p).0)
    decreases p
  {
    if p.Then? {
      CallExtends(w, p.call);
      RunExtends(RunCall(w, p.call), p.rest);
    }
  }

  lemma {:induction false} CallExtends(w: World, call: Call)
    ensures Extends(w, RunCall(w, call))
    decreases call
  {
    match call {
      case RequireCall(path, code) => RequireExtends(w, path, code);
      case LoadCall(path, code) =>
        var w1 := if w.vfs.HasExtension(path) then Run(w, code.hook).0 else w;
        RunExtends(w, code.hook);
        RunExtends(w1, code.source);
      case _ =>
    }
  }

  lemma {:induction false} RequireExtends(w: World, path: Path, code: Behaviour)
    ensures Extends(w, Require(w, path, code).0)
    decreases code
  {
    var target := TargetOf(w.vfs, path);
    if target.Feature? {
      var w1 := if target.hooked then Run(w, code.hook).0 else w;
      RunExtends(w, code.hook);
      RunExtends(w1, code.source);
    }
  }

  lemma TargetIsNotLoaded(v: Vfs, path: Path)
    requires TargetOf(v, path).Feature? && v.Key(TargetOf(v, path).path).Some?
    ensures v.Key(TargetOf(v, path).path).value !in v.loaded
  {
  }

  // ---- When a feature succeeds twice ----

  /**
   * Some `require` reached in the run finds its own feature loaded already when it comes to
   * mark it: inserting it into the loaded set adds nothing.
   */
  predicate Doubles(w: World, p: Program)
    decreases p
  {
    p.Then? && (CallDoubles(w, p.call) || Doubles(RunCall(w, p.call), p.rest))
  }

  predicate CallDoubles(w: World, call: Call)
    decreases call
  {
    match call
    case RequireCall(path, code) => RequireDoubles(w, path, code)
    case LoadCall(path, code) => CodeDoubles(w, w.vfs.HasExtension(path), path, code)
    case _ => false
  }

  predicate RequireDoubles(w: World, path: Path, code: Behaviour)
    decreases code, 1
  {
    match TargetOf(w.vfs, path)
    case Done => false
    case Feature(target, hooked) =>
      || CodeDoubles(w, hooked, target, code)
      || (Completes(w, hooked, target, code)
          && AfterCode(w, hooked, target, code).vfs.IsRequired(target) == Some(true))
  }

  predicate CodeDoubles(w: World, hooked: bool, path: Path, code: Behaviour)
    decreases code, 0
  {
    || (hooked && Doubles(w, code.hook))
    || (Evaluates(w, hooked, path, code) && Doubles(AfterHook(w, hooked, code).0, code.source))
  }

  lemma {:induction false} RunCounts(initial: set<Path>, w: World, p: Program)
    requires Ledger(initial, w)
    ensures Ledger(initial, Run(w, p).0)
    ensures NoRepeats(Run(w, p).0.successes) <==> NoRepeats(w.successes) && !Doubles(w, p)
    decreases p
  {
    if p.Then? {
      CallCounts(initial, w, p.call);
      RunCounts(initial, RunCall(w, p.call), p.rest);
    }
  }

  lemma {:induction false} CallCounts(initial: set<Path>, w: World, call: Call)
    requires Ledger(initial, w)
    ensures Ledger(initial, RunCall(w, call))
    ensures NoRepeats(RunCall(w, call).successes) <==> NoRepeats(w.successes) && !CallDoubles(w, call)
    decreases call
  {
    match call {
      case RequireCall(path, code) => RequireCounts(initial, w, path, code);
      case LoadCall(path, code) =>
        LoadRunsCode(w, path, code);
        CodeCounts(initial, w, w.vfs.HasExtension(path), path, code);
      case _ =>
    }
  }

  lemma {:induction false} CodeCounts(initial: set<Path>, w: World, hooked: bool, path: Path, code: Behaviour)
    requires Ledger(initial, w)
    ensures Ledger(initial, AfterCode(w, hooked, path, code))
    ensures NoRepeats(AfterCode(w, hooked, path, code).successes) <==>
              NoRepeats(w.successes) && !CodeDoubles(w, hooked, path, code)
    decreases code, 0
  {
    if hooked {
      RunCounts(initial, w, code.hook);
    }
    RunCounts(initial, AfterHook(w, hooked, code).0, code.source);
  }

  lemma NoRepeatsAppend(s: seq<Path>, key: Path)
    ensures NoRepeats(s + [key]) <==> NoRepeats(s) && key !in s
  {
    var t := s + [key];
    if NoRepeats(t) {
      assert forall i :: 0 <= i < |s| ==> t[i] == s[i] && t[i] != t[|s|];
    }
  }

  /** One `require` adds a repetition exactly when it doubles a feature or runs code that does. */
  lemma {:induction false} RequireCounts(initial: set<Path>, w: World, path: Path, code: Behaviour)
    requires Ledger(initial, w)
    ensures Ledger(initial, Require(w, path, code).0)
    ensures NoRepeats(Require(w, path, code).0.successes) <==>
              NoRepeats(w.successes) && !RequireDoubles(w, path, code)
    decreases code, 1
  {
    var target := TargetOf(w.vfs, path);
    if target.Feature? {
      RequireRunsCode(w, path, code);
      CodeCounts(initial, w, target.hooked, target.path, code);
      if Completes(w, target.hooked, target.path, code) {
        var key := w.vfs.Key(target.path).value;
        TargetIsNotLoaded(w.vfs, path);
        NoRepeatsAppend(AfterCode(w, target.hooked, target.path, code).successes, key);
      }
    }
  }

  /**
   * Over any run, `require` returns success at most once per feature exactly when no `require`
   * of the run finds its feature already loaded as it marks it. The loaded features are always
   * those from the start and those of the successes.
   */
  lemma SucceedsOnceExactly(vfs: Vfs, p: Program)
    ensures NoRepeats(Run(World(vfs, []), p).0.successes) <==> !Doubles(World(vfs, []), p)
    ensures Ledger(vfs.loaded, Run(World(vfs, []), p).0)
  {
    RunCounts(vfs.loaded, World(vfs, []), p);
  }

  // ---- Re-entry ----

  /** Some `require` reached in the run settles on a feature that is still being loaded around it. */
  predicate Reenters(w: World, p: Program, active: set<Path>)
    decreases p
  {
    p.Then? && (CallReenters(w, p.call, active) || Reenters(RunCall(w, p.call), p.rest, active))
  }

  predicate CallReenters(w: World, call: Call, active: set<Path>)
    decreases call
  {
    match call
    case RequireCall(path, code) => RequireReenters(w, path, code, active)
    case LoadCall(path, code) => CodeReenters(w, w.vfs.HasExtension(path), path, code, active)
    case _ => false
  }

  predicate RequireReenters(w: World, path: Path, code: Behaviour, active: set<Path>)
    decreases code, 1
  {
    match TargetOf(w.vfs, path)
    case Done => false
    case Feature(target, hooked) =>
      var key := w.vfs.Key(target);
      || (key.Some? && key.value in active)
      || CodeReenters(w, hooked, target, code, if key.Some? then active + {key.value} else active)
  }

  predicate CodeReenters(w: World, hooked: bool, path: Path, code: Behaviour, active: set<Path>)
    decreases code, 0
  {
    || (hooked && Reenters(w, code.hook, active))
    || (Evaluates(w, hooked, path, code) && Reenters(AfterHook(w, hooked, code).0, code.source, active))
  }

  lemma {:induction false} RunAvoids(w: World, p: Program, active: set<Path>)
    requires !Reenters(w, p, active) && w.vfs.loaded !! active
    ensures Run(w, p).0.vfs.loaded !! active && !Doubles(w, p)
    decreases p
  {
    if p.Then? {
      CallAvoids(w, p.call, active);
      RunAvoids(RunCall(w, p.call), p.rest, active);
    }
  }

  lemma {:induction false} CallAvoids(w: World, call: Call, active: set<Path>)
    requires !CallReenters(w, call, active) && w.vfs.loaded !! active
    ensures RunCall(w, call).vfs.loaded !! active && !CallDoubles(w, call)
    decreases call
  {
    match call {
      case RequireCall(path, code) => RequireAvoids(w, path, code, active);
      case LoadCall(path, code) =>
        LoadRunsCode(w, path, code);
        CodeAvoids(w, w.vfs.HasExtension(path), path, code, active);
      case _ =>
    }
  }

  lemma {:induction false} CodeAvoids(w: World, hooked: bool, path: Path, code: Behaviour, active: set<Path>)
    requires !CodeReenters(w, hooked, path, code, active) && w.vfs.loaded !! active
    ensures AfterCode(w, hooked, path, code).vfs.loaded !! active && !CodeDoubles(w, hooked, path, code)
    decreases code, 0
  {
    if hooked {
      RunAvoids(w, code.hook, active);
    }
    if Evaluates(w, hooked, path, code) {
      RunAvoids(AfterHook(w, hooked, code).0, code.source, active);
    }
  }

  /** A `require` that re-enters nothing leaves the features still being loaded unmarked. */
  lemma {:induction false} RequireAvoids(w: World, path: Path, code: Behaviour, active: set<Path>)
    requires !RequireReenters(w, path, code, active) && w.vfs.loaded !! active
    ensures Require(w, path, code).0.vfs.loaded !! active && !RequireDoubles(w, path, code)
    decreases code, 1
  {
    var target := TargetOf(w.vfs, path);
    if target.Feature? {
      var key := w.vfs.Key(target.path);
      RequireRunsCode(w, path, code);
      if key.Some? {
        TargetIsNotLoaded(w.vfs, path);
      }
      CodeAvoids(w, target.hooked, target.path, code, if key.Some? then active + {key.value} else active);
    }
  }

  /** A run that never re-enters a feature still being loaded succeeds at most once per feature. */
  lemma SucceedsOncePerFeature(vfs: Vfs, p: Program)
    requires !Reenters(World(vfs, []), p, {})
    ensures NoRepeats(Run(World(vfs, []), p).0.successes)
  {
    RunAvoids(World(vfs, []), p, {});
    SucceedsOnceExactly(vfs, p);
  }

  /** A source that requires itself succeeds twice for one feature. */
  lemma CircularRequireSucceedsTwice(vfs: Vfs, path: Path)
    requires IsRb(path) && vfs.IsFile(path) && !vfs.HasExtension(path) && vfs.IsRequired(path) == Some(false)
    ensures var key := vfs.Key(path).value;
            var inner := Behaviour(Finish(true), Finish(true));
            var outer := Behaviour(Finish(true), Then(RequireCall(path, inner), Finish(true)));
            && Require(World(vfs, []), path, outer).1 == Ok(Success)
            && Require(World(vfs, []), path, outer).0.successes == [key, key]
            && RequireDoubles(World(vfs, []), path, outer)
  {
    var w, key := World(vfs, []), vfs.Key(path).value;
    var inner := Behaviour(Finish(true), Finish(true));
    var nested := Then(RequireCall(path, inner), Finish(true));
    var outer := Behaviour(Finish(true), nested);
    assert TargetOf(vfs, path) == Feature(path, false);
    var once := World(vfs.(loaded := vfs.loaded + {key}), [] + [key]);
    assert EvalAndMark(w, path, inner.source) == (once, Ok(Success));
    assert Require(w, path, inner) == (once, Ok(Success));
    assert RunCall(w, nested.call) == once;
    assert Run(w, nested) == (once, true);
    assert AfterCode(w, false, path, outer) == once;
  }

  /** When the inner evaluation fails it succeeds once, although it is as re-entrant. */
  lemma FailedReentryIsHarmless(vfs: Vfs, path: Path)
    requires IsRb(path) && vfs.IsFile(path) && !vfs.HasExtension(path) && vfs.IsRequired(path) == Some(false)
    ensures var inner := Behaviour(Finish(true), Finish(false));
            var outer := Behaviour(Finish(true), Then(RequireCall(path, inner), Finish(true)));
            && Require(World(vfs, []), path, outer).0.successes == [vfs.Key(path).value]
            && RequireReenters(World(vfs, []), path, outer, {})
            && !RequireDoubles(World(vfs, []), path, outer)
  {
    var w, key := World(vfs, []), vfs.Key(path).value;
    var inner := Behaviour(Finish(true), Finish(false));
    var nested := Then(RequireCall(path, inner), Finish(true));
    var outer := Behaviour(Finish(true), nested);
    assert TargetOf(vfs, path) == Feature(path, false);
    assert Require(w, path, inner) == (w, Err(EvalFailed));
    assert RunCall(w, nested.call) == w;
    assert Run(w, nested) == (w, true);
    assert AfterCode(w, false, path, outer) == w;
    RequireCounts(vfs.loaded, w, path, outer);
    assert CallReenters(w, nested.call, {key});
    assert Reenters(w, nested, {} + {key});
  }

  /**
   * A success marks the feature the call settled on, and a failure leaves it unmarked exactly
   * when the code that ran before has not marked it.
   */
  lemma RequireMarks(w: World, path: Path, code: Behaviour)
    requires TargetOf(w.vfs, path).Feature? && w.vfs.Key(TargetOf(w.vfs, path).path).Some?
    ensures var target := TargetOf(w.vfs, path);
            var (w', r) := Require(w, path, code);
            var byCode := AfterCode(w, target.hooked, target.path, code).vfs.IsRequired(target.path) == Some(true);
            w'.vfs.IsRequired(target.path) == Some(true) <==> r == Ok(Success) || byCode
  {
    RequireRunsCode(w, path, code);
  }

  /** Without re-entry, the feature is marked exactly on success. */
  lemma RequireMarksExactlyOnSuccess(w: World, path: Path, code: Behaviour)
    requires !RequireReenters(w, path, code, {})
    requires TargetOf(w.vfs, path).Feature? && w.vfs.Key(TargetOf(w.vfs, path).path).Some?
    ensures var (w', r) := Require(w, path, code);
            w'.vfs.IsRequired(TargetOf(w.vfs, path).path) == Some(true) <==> r == Ok(Success)
  {
    var target := TargetOf(w.vfs, path);
    RequireRunsCode(w, path, code);
    TargetIsNotLoaded(w.vfs, path);
    CodeAvoids(w, target.hooked, target.path, code, {} + {w.vfs.Key(target.path).value});
    RequireMarks(w, path, code);
  }

  /** A source that requires itself and then fails is marked, although the outer call failed. */
  lemma FailureCanLeaveMarked(vfs: Vfs, path: Path)
    requires IsRb(path) && vfs.IsFile(path) && !vfs.HasExtension(path) && vfs.IsRequired(path) == Some(false)
    ensures var inner := Behaviour(Finish(true), Finish(true));
            var outer := Behaviour(Finish(true), Then(RequireCall(path, inner), Finish(false)));
            && Require(World(vfs, []), path, outer).1 == Err(EvalFailed)
            && Require(World(vfs, []), path, outer).0.vfs.IsRequired(path) == Some(true)
  {
    var w, key := World(vfs, []), vfs.Key(path).value;
    var inner := Behaviour(Finish(true), Finish(true));
    var nested := Then(RequireCall(path, inner), Finish(false));
    assert TargetOf(vfs, path) == Feature(path, false);
    var once := World(vfs.(loaded := vfs.loaded + {key}), [] + [key]);
    assert EvalAndMark(w, path, inner.source) == (once, Ok(Success));
    assert Require(w, path, inner) == (once, Ok(Success));
    assert RunCall(w, nested.call) == once;
    assert Run(w, nested) == (once, false);
  }

  /**
   * Requiring the same path again later is answered without running code exactly when the
   * path itself is loaded or still has no hook: success under the `.rb` alternate is hidden
   * by a hook defined later at the bare path.
   */
  lemma RequireAgain(w: World, path: Path, code: Behaviour, later: World, again: Behaviour)
    requires Require(w, path, code).1 == Ok(Success) && Extends(Require(w, path, code).0, later)
    ensures Require(later, path, again).1 == Ok(AlreadyRequired) <==>
            later.vfs.IsRequired(path) == Some(true) || !later.vfs.HasExtension(path)
  {
    SuccessLoadsTarget(w, path, code, later);
    NotAlready(later, path, again);
  }

  lemma SuccessLoadsTarget(w: World, path: Path, code: Behaviour, later: World)
    requires Require(w, path, code).1 == Ok(Success) && Extends(Require(w, path, code).0, later)
    ensures TargetOf(w.vfs, path).Feature? && later.vfs.IsRequired(TargetOf(w.vfs, path).path) == Some(true)
  {
  }

  /**
   * Each outcome of a `require` that is not answered at once, exactly. Marking cannot fail:
   * no code moves the working directory, so a source that was read still lies below the load path.
   */
  lemma RequireOutcome(w: World, path: Path, code: Behaviour)
    requires TargetOf(w.vfs, path).Feature?
    ensures var target := TargetOf(w.vfs, path);
            var hookOk := target.hooked ==> Run(w, code.hook).1;
            var w1 := if target.hooked then Run(w, code.hook).0 else w;
            var readable := w1.vfs.IsFile(target.path);
            var r := Require(w, path, code).1;
            && (r == Err(HookFailed) <==> !hookOk)
            && (r == Err(NoSuchFile) <==> hookOk && !readable)
            && (r == Err(EvalFailed) <==> hookOk && readable && !Run(w1, code.source).1)
            && (r == Ok(Success) <==> hookOk && readable && Run(w1, code.source).1)
  {
    var target := TargetOf(w.vfs, path);
    var w1 := if target.hooked then Run(w, code.hook).0 else w;
    RunExtends(w1, code.source);
  }

  /**
   * Each outcome of a `load`, exactly: the hook runs first if there is one, then the file must
   * be there, then its source is evaluated.
   */
  lemma LoadOutcome(w: World, path: Path, code: Behaviour)
    ensures var hooked := w.vfs.HasExtension(path);
            var hookOk := hooked ==> Run(w, code.hook).1;
            var w1 := if hooked then Run(w, code.hook).0 else w;
            var readable := w1.vfs.IsFile(path);
            var (w', r) := Load(w, path, code);
            && (r == Err(HookFailed) <==> !hookOk)
            && (r == Err(NoSuchFile) <==> hookOk && !readable)
            && (r == Err(EvalFailed) <==> hookOk && readable && !Run(w1, code.source).1)
            && (r == Ok(()) <==> hookOk && readable && Run(w1, code.source).1)
            && w' == if hookOk && readable then Run(w1, code.source).0 else w1
  {
  }

  /** A source or a hook defined while code runs is there for the rest of it. */
  lemma DefinitionsTakeEffect(w: World, path: Path, contents: Bytes)
    requires w.vfs.Key(path).Some?
    ensures var w' := RunCall(w, DefSourceCall(path, contents));
            && w'.successes == w.successes && w'.vfs.IsFile(path)
            && w'.vfs.fs[w.vfs.Key(path).value].code == Some(contents)
            && OnlyEntryChanged(w.vfs, w'.vfs, w.vfs.Key(path).value)
    ensures var w' := RunCall(w, DefFileCall(path));
            && w'.successes == w.successes && w'.vfs.HasExtension(path)
            && OnlyEntryChanged(w.vfs, w'.vfs, w.vfs.Key(path).value)
  {
    WriteThenRead(w.vfs, path, contents);
    RegisterThenHook(w.vfs, path);
  }

  /** A path with nothing at it is never loaded, and nothing runs. */
  lemma MissingIsNotLoaded(w: World, path: Path, code: Behaviour)
    requires w.vfs.Key(path).None? || w.vfs.Key(path).value !in w.vfs.fs
    ensures Load(w, path, code) == (w, Err(NoSuchFile))
  {
  }

  const BARE: Path := [Normal([97])]

  const ALTERNATE: Path := [Normal([97, 46, 114, 98])]

  /** In the load path itself, `a` is looked up beside `a.rb`. */
  lemma BareAndAlternate(v: Vfs)
    requires v.cwd == RUBY_LOAD_PATH
    ensures !IsRb(BARE) && SetExtension(BARE, RB) == ALTERNATE
    ensures v.Key(BARE) == Some(RUBY_LOAD_PATH + BARE) && v.Key(ALTERNATE) == Some(RUBY_LOAD_PATH + ALTERNATE)
    ensures RUBY_LOAD_PATH + BARE != RUBY_LOAD_PATH + ALTERNATE
  {
    assert LastDot([97]) == LastDot([]) == None;
    assert Stem([97]) == [97] && [97] + [DOT] + RB == [97, 46, 114, 98];
    assert SetExtension(BARE, RB) == [] + [Normal([97] + [DOT] + RB)];
    WalkOne(BARE);
    WalkOne(ALTERNATE);
    assert (RUBY_LOAD_PATH + BARE)[5] != (RUBY_LOAD_PATH + ALTERNATE)[5];
  }

  lemma WalkOne(path: Path)
    requires |path| == 1 && path[0].Normal?
    ensures Absolutize(path, RUBY_LOAD_PATH) == RUBY_LOAD_PATH + path
  {
    assert path == [path[0]] && path[1..] == [];
    var walked := RUBY_LOAD_PATH + path;
    assert Step(RUBY_LOAD_PATH, path[0], false) == walked;
    assert Walk(RUBY_LOAD_PATH, path, false) == Walk(walked, [], false) == walked;
  }

  /** `a` loaded from `a.rb`, then given a hook: requiring `a` again runs code and succeeds again. */
  lemma LaterHookIsRequiredAgain()
    ensures var w := World(Vfs(map[RUBY_LOAD_PATH + ALTERNATE := Entry(Some([]), false)], {}, RUBY_LOAD_PATH), []);
            var code := Behaviour(Finish(true), Finish(true));
            var after := Require(w, BARE, code).0;
            var later := RunCall(after, DefFileCall(BARE));
            && Require(w, BARE, code).1 == Ok(Success) && Extends(after, later)
            && Require(later, BARE, code).1 == Ok(Success)
  {
    var alternate := RUBY_LOAD_PATH + ALTERNATE;
    var w := World(Vfs(map[alternate := Entry(Some([]), false)], {}, RUBY_LOAD_PATH), []);
    var code := Behaviour(Finish(true), Finish(true));
    BareAndAlternate(w.vfs);
    assert TargetOf(w.vfs, BARE) == Feature(ALTERNATE, false);
    var after := Require(w, BARE, code).0;
    assert after == World(w.vfs.(loaded := {} + {alternate}), [] + [alternate]);
    var later := RunCall(after, DefFileCall(BARE));
    BareAndAlternate(later.vfs);
    assert TargetOf(later.vfs, BARE) == Feature(BARE, true);
  }

  /** With a plain source at `a` and a hook at `a.rb`, `a` resolves to itself but `require` takes the hook. */
  lemma AlternateHookOutranksSource()
    ensures var v := Vfs(map[RUBY_LOAD_PATH + BARE := Entry(Some([]), false),
                             RUBY_LOAD_PATH + ALTERNATE := Entry(None, true)], {}, RUBY_LOAD_PATH);
            && Resolved(v, BARE) == Some(RUBY_LOAD_PATH + BARE)
            && TargetOf(v, BARE) == Feature(ALTERNATE, true)
            && v.Key(ALTERNATE) != Resolved(v, BARE)
  {
    var v := Vfs(map[RUBY_LOAD_PATH + BARE := Entry(Some([]), false),
                     RUBY_LOAD_PATH + ALTERNATE := Entry(None, true)], {}, RUBY_LOAD_PATH);
    BareAndAlternate(v);
  }

  lemma NotAlready(w: World, path: Path, code: Behaviour)
    ensures Require(w, path, code).1 == Ok(AlreadyRequired) <==> TargetOf(w.vfs, path) == Done
  {
  }

  /**
   * `require` settles on the source the path resolves to, except that a hook at the `.rb`
   * alternate takes precedence over a plain source at the bare path.
   */
  lemma RequireTargetsResolvedSource(v: Vfs, path: Path)
    requires TargetOf(v, path).Feature? && Resolved(v, path).Some?
    ensures v.Key(TargetOf(v, path).path) == Resolved(v, path) <==>
            !(!IsRb(path) && v.IsFile(path) && !v.HasExtension(path) && v.HasExtension(SetExtension(path, RB))
              && v.Key(path) != v.Key(SetExtension(path, RB)))
  {
  }

  /** A path that resolves to nothing is never required successfully before code runs for it. */
  lemma UnresolvedIsNotRequired(w: World, path: Path, code: Behaviour)
    requires Resolved(w.vfs, path).None? && TargetOf(w.vfs, path).Feature?
    ensures Require(w, path, code) == (w, Err(NoSuchFile))
  {
  }

  /** Loading does not touch the loaded set: only requires inside the code it runs can. */
  lemma LoadMarksNothing(w: World, path: Path, code: Behaviour)
    ensures var w1 := if w.vfs.HasExtension(path) then Run(w, code.hook).0 else w;
            var w' := Load(w, path, code).0;
            w' == w1 || w' == Run(w1, code.source).0
    ensures NoRequires(code.hook) && NoRequires(code.source) ==>
              Load(w, path, code).0.vfs.loaded == w.vfs.loaded
  {
    if NoRequires(code.hook) && NoRequires(code.source) {
      RunWithoutRequires(w, code.hook);
      RunWithoutRequires(if w.vfs.HasExtension(path) then Run(w, code.hook).0 else w, code.source);
    }
  }

  /** No `require` anywhere in the code, however deeply nested in loads. */
  predicate NoRequires(p: Program)
    decreases p
  {
    p.Then? ==>
      && !p.call.RequireCall?
      && (p.call.LoadCall? ==> NoRequires(p.call.code.hook) && NoRequires(p.call.code.source))
      && NoRequires(p.rest)
  }

  lemma {:induction false} RunWithoutRequires(w: World, p: Program)
    requires NoRequires(p)
    ensures Run(w, p).0.vfs.loaded == w.vfs.loaded
    decreases p
  {
    if p.Then? {
      match p.call {
        case LoadCall(path, code) =>
          var w1 := if w.vfs.HasExtension(path) then Run(w, code.hook).0 else w;
          assert NoRequires(code.hook) && NoRequires(code.source);
          RunWithoutRequires(w, code.hook);
          RunWithoutRequires(w1, code.source);
          assert RunCall(w, p.call) == Load(w, path, code).0;
        case _ =>
      }
      RunWithoutRequires(RunCall(w, p.call), p.rest);
    }
  }
}
