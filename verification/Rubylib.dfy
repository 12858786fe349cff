/** The `RUBYLIB` loader: first match in the search path, features told apart by file identity. */
module Rubylib {
  import opened Common
  import opened LoadPath

  /**
   * What opens at a path of the host file system; a path that is missing or may not be opened
   * has no node. Reading can still fail: on a directory, or with an error while reading.
   */
  datatype Node = Readable(identity: nat, contents: Bytes) | Unreadable(identity: nat)

  type HostFs = map<Path, Node>

  datatype IoError = NotFound | OnlyRelativePaths | AlreadyRequired

  /** `Path::join`: an absolute path replaces the one it is joined to. */
  function Join(base: Path, path: Path): Path {
    if IsAbsolute(path) then path else base + path
  }

  /** The first index from `from` at which the joined path can be opened. */
  function FirstOpen(fs: HostFs, loadPaths: seq<Path>, path: Path): (at: Option<nat>)
    ensures at.Some? ==>
              && at.value < |loadPaths| && Join(loadPaths[at.value], path) in fs
              && forall i :: 0 <= i < at.value ==> Join(loadPaths[i], path) !in fs
    ensures at.None? ==> forall i :: 0 <= i < |loadPaths| ==> Join(loadPaths[i], path) !in fs
  {
    if loadPaths == [] then None
    else if Join(loadPaths[0], path) in fs then Some(0)
    else
      match FirstOpen(fs, loadPaths[1..], path)
      case None => None
      case Some(k) => Some(k + 1)
  }

  /** Likewise for reading, which skips what cannot be read. */
  ghost predicate IsFirstReadable(fs: HostFs, loadPaths: seq<Path>, path: Path, k: nat)
    requires !IsAbsolute(path)
  {
    && k < |loadPaths|
    && CanRead(fs, loadPaths[k] + path)
    && forall i :: 0 <= i < k ==> !CanRead(fs, loadPaths[i] + path)
  }

  predicate CanRead(fs: HostFs, p: Path) { p in fs && fs[p].Readable? }

  /** The file the loader opens for a path, if any. */
  function Opened(fs: HostFs, loadPaths: seq<Path>, path: Path): Option<Path> {
    match FirstOpen(fs, loadPaths, path)
    case None => None
    case Some(k) => Some(Join(loadPaths[k], path))
  }

  /** For a relative path, `r` is the path under the first load path at which it opens, if there is one. */
  ghost predicate IsChoice(fs: HostFs, loadPaths: seq<Path>, path: Path, r: Option<Path>)
    requires !IsAbsolute(path)
  {
    match r
    case None => forall i :: 0 <= i < |loadPaths| ==> loadPaths[i] + path !in fs
    case Some(p) =>
      exists k :: 0 <= k < |loadPaths| && p == loadPaths[k] + path && p in fs
                  && forall i :: 0 <= i < k ==> loadPaths[i] + path !in fs
  }

  /** What every operation opens: below the load paths in order, or an absolute path itself. */
  lemma OpenedExactly(fs: HostFs, loadPaths: seq<Path>, path: Path, r: Option<Path>)
    ensures !IsAbsolute(path) ==> (Opened(fs, loadPaths, path) == r <==> IsChoice(fs, loadPaths, path, r))
    ensures IsAbsolute(path) ==>
              Opened(fs, loadPaths, path) == if path in fs && loadPaths != [] then Some(path) else None
  {
    if !IsAbsolute(path) {
      OpenedIsChoice(fs, loadPaths, path);
      if IsChoice(fs, loadPaths, path, r) {
        ChoiceIsUnique(fs, loadPaths, path, r, Opened(fs, loadPaths, path));
      }
    } else {
      AbsoluteIsItself(fs, loadPaths, path);
    }
  }

  lemma OpenedIsChoice(fs: HostFs, loadPaths: seq<Path>, path: Path)
    requires !IsAbsolute(path)
    ensures IsChoice(fs, loadPaths, path, Opened(fs, loadPaths, path))
  {
    var at := FirstOpen(fs, loadPaths, path);
    assert forall i :: 0 <= i < |loadPaths| ==> Join(loadPaths[i], path) == loadPaths[i] + path;
    if at.Some? {
      assert forall i :: 0 <= i < at.value ==> Join(loadPaths[i], path) !in fs;
    }
  }

  lemma AbsoluteIsItself(fs: HostFs, loadPaths: seq<Path>, path: Path)
    requires IsAbsolute(path)
    ensures Opened(fs, loadPaths, path) == if path in fs && loadPaths != [] then Some(path) else None
  {
    assert forall i :: 0 <= i < |loadPaths| ==> Join(loadPaths[i], path) == path;
    if loadPaths != [] {
      assert Join(loadPaths[0], path) == path;
    }
  }

  lemma ChoiceIsUnique(fs: HostFs, loadPaths: seq<Path>, path: Path, q: Option<Path>, r: Option<Path>)
    requires !IsAbsolute(path) && IsChoice(fs, loadPaths, path, q) && IsChoice(fs, loadPaths, path, r)
    ensures q == r
  {
    if q.Some? && r.Some? {
      var k :| 0 <= k < |loadPaths| && q.value == loadPaths[k] + path && q.value in fs
               && forall i :: 0 <= i < k ==> loadPaths[i] + path !in fs;
      var l :| 0 <= l < |loadPaths| && r.value == loadPaths[l] + path && r.value in fs
               && forall i :: 0 <= i < l ==> loadPaths[i] + path !in fs;
      assert k == l;
    }
  }

  lemma OpenedAt(fs: HostFs, loadPaths: seq<Path>, path: Path, i: nat)
    requires i < |loadPaths| && Join(loadPaths[i], path) in fs
    requires forall j :: 0 <= j < i ==> Join(loadPaths[j], path) !in fs
    ensures Opened(fs, loadPaths, path) == Some(Join(loadPaths[i], path))
  {
  }

  function IdentityOf(fs: HostFs, loadPaths: seq<Path>, path: Path): Option<nat> {
    match Opened(fs, loadPaths, path)
    case None => None
    case Some(p) => Some(fs[p].identity)
  }

  class Rubylib {
    const loadPaths: seq<Path>
    var loadedFeatures: map<nat, Path>

    constructor (loadPaths: seq<Path>)
      ensures this.loadPaths == loadPaths && loadedFeatures == map[]
    {
      this.loadPaths := loadPaths;
      loadedFeatures := map[];
    }

    method ResolveFile(fs: HostFs, path: Path) returns (r: Option<Path>)
      ensures IsAbsolute(path) ==> r == None
      ensures !IsAbsolute(path) ==> IsChoice(fs, loadPaths, path, r)
    {
      if IsAbsolute(path) {
        return None;
      }
      for i := 0 to |loadPaths|
        invariant forall j :: 0 <= j < i ==> loadPaths[j] + path !in fs
      {
        var joined := Join(loadPaths[i], path);
        if joined in fs {
          return Some(joined);
        }
      }
      return None;
    }

    method IsFile(fs: HostFs, path: Path) returns (r: bool)
      ensures r <==> !IsAbsolute(path) && exists k :: 0 <= k < |loadPaths| && loadPaths[k] + path in fs
    {
      if IsAbsolute(path) {
        return false;
      }
      for i := 0 to |loadPaths|
        invariant forall j :: 0 <= j < i ==> loadPaths[j] + path !in fs
      {
        if Join(loadPaths[i], path) in fs {
          return true;
        }
      }
      return false;
    }

    method ReadFile(fs: HostFs, path: Path) returns (r: Result<Bytes, IoError>)
      ensures IsAbsolute(path) ==> r == Err(OnlyRelativePaths)
      ensures !IsAbsolute(path) && r.Err? ==>
                r.error == NotFound && forall i :: 0 <= i < |loadPaths| ==> !CanRead(fs, loadPaths[i] + path)
      ensures r.Ok? ==> !IsAbsolute(path) && exists k: nat :: IsFirstReadable(fs, loadPaths, path, k) &&
                                                         fs[loadPaths[k] + path].contents == r.value
    {
      if IsAbsolute(path) {
        return Err(OnlyRelativePaths);
      }
      for i := 0 to |loadPaths|
        invariant forall j :: 0 <= j < i ==> !CanRead(fs, loadPaths[j] + path)
      {
        var joined := Join(loadPaths[i], path);
        if CanRead(fs, joined) {
          assert IsFirstReadable(fs, loadPaths, path, i);
          return Ok(fs[joined].contents);
        }
      }
      return Err(NotFound);
    }

    method IsRequired(fs: HostFs, path: Path) returns (r: Option<bool>)
      ensures r == IsRequiredIn(fs, loadPaths, loadedFeatures, path)
    {
      if IsAbsolute(path) {
        return None;
      }
      for i := 0 to |loadPaths|
        invariant forall j :: 0 <= j < i ==> Join(loadPaths[j], path) !in fs
      {
        var joined := Join(loadPaths[i], path);
        if joined in fs {
          OpenedAt(fs, loadPaths, path, i);
          return Some(fs[joined].identity in loadedFeatures);
        }
      }
      return None;
    }

    method MarkRequired(fs: HostFs, path: Path) returns (r: Result<(), IoError>)
      modifies this
      ensures (loadedFeatures, r) == Mark(fs, loadPaths, old(loadedFeatures), path)
    {
      for i := 0 to |loadPaths|
        invariant forall j :: 0 <= j < i ==> Join(loadPaths[j], path) !in fs
        invariant loadedFeatures == old(loadedFeatures)
      {
        var joined := Join(loadPaths[i], path);
        if joined in fs {
          var identity := fs[joined].identity;
          OpenedAt(fs, loadPaths, path, i);
          if identity in loadedFeatures {
            return Err(AlreadyRequired);
          }
          loadedFeatures := loadedFeatures[identity := joined];
          return Ok(());
        }
      }
      return Err(NotFound);
    }
  }

  /** Whether the file a path opens has been marked; `None` when it opens nothing. */
  function IsRequiredIn(fs: HostFs, loadPaths: seq<Path>, loaded: map<nat, Path>, path: Path): Option<bool> {
    if IsAbsolute(path) then None
    else
      match IdentityOf(fs, loadPaths, path)
      case None => None
      case Some(identity) => Some(identity in loaded)
  }

  /** Marks the file a path opens, unless its identity is marked already. */
  function Mark(fs: HostFs, loadPaths: seq<Path>, loaded: map<nat, Path>, path: Path)
    : (map<nat, Path>, Result<(), IoError>)
  {
    match Opened(fs, loadPaths, path)
    case None => (loaded, Err(NotFound))
    case Some(p) =>
      if fs[p].identity in loaded then (loaded, Err(AlreadyRequired))
      else (loaded[fs[p].identity := p], Ok(()))
  }

  // ---- Which file the operations choose ----

  /** Asking asks about the file chosen for the path. */
  lemma IsRequiredExactly(fs: HostFs, loadPaths: seq<Path>, loaded: map<nat, Path>, path: Path, p: Option<Path>)
    requires !IsAbsolute(path) && IsChoice(fs, loadPaths, path, p)
    ensures IsRequiredIn(fs, loadPaths, loaded, path) ==
            if p.Some? then Some(fs[p.value].identity in loaded) else None
  {
    OpenedExactly(fs, loadPaths, path, p);
  }

  /** Marking marks that file by its identity, once; an absolute path is marked as itself. */
  lemma MarkExactly(fs: HostFs, loadPaths: seq<Path>, loaded: map<nat, Path>, path: Path, p: Option<Path>)
    requires if IsAbsolute(path) then p == (if path in fs && loadPaths != [] then Some(path) else None)
             else IsChoice(fs, loadPaths, path, p)
    ensures var (loaded', r) := Mark(fs, loadPaths, loaded, path);
            match p
            case None => r == Err(NotFound) && loaded' == loaded
            case Some(file) =>
              var id := fs[file].identity;
              if id in loaded then r == Err(AlreadyRequired) && loaded' == loaded
              else r == Ok(()) && loaded' == loaded[id := file]
  {
    OpenedExactly(fs, loadPaths, path, p);
  }

  /**
   * Reading chooses the file that resolving and marking choose exactly when the first match
   * can be read; otherwise it goes on to a later one, or finds nothing.
   */
  lemma ReadAgreesWithResolve(fs: HostFs, loadPaths: seq<Path>, path: Path)
    requires !IsAbsolute(path)
    ensures match FirstOpen(fs, loadPaths, path)
            case None => forall j: nat :: !IsFirstReadable(fs, loadPaths, path, j)
            case Some(k) =>
              && (IsFirstReadable(fs, loadPaths, path, k) <==> fs[loadPaths[k] + path].Readable?)
              && forall j: nat :: IsFirstReadable(fs, loadPaths, path, j) ==> k <= j
  {
    assert forall i :: 0 <= i < |loadPaths| ==> Join(loadPaths[i], path) == loadPaths[i] + path;
  }

  lemma DirectoryIsResolvedButNotRead()
    ensures exists fs: HostFs, loadPaths, path ::
              !IsAbsolute(path) && Opened(fs, loadPaths, path).Some? && forall k: nat :: !IsFirstReadable(fs, loadPaths, path, k)
  {
    var path: Path := [Normal([97])];
    var fs: HostFs := map[path := Unreadable(0)];
    assert Join([], path) == path;
    assert Opened(fs, [[]], path) == Some(path);
    assert forall k: nat :: !IsFirstReadable(fs, [[]], path, k);
  }

  // ---- Runs of marking ----

  /** The identities a run of `mark_required` calls marks successfully, in order. */
  function Marked(fs: HostFs, loadPaths: seq<Path>, loaded: map<nat, Path>, paths: seq<Path>): seq<nat>
    decreases |paths|
  {
    if paths == [] then []
    else
      MarkedNow(fs, loadPaths, loaded, paths[0])
      + Marked(fs, loadPaths, Mark(fs, loadPaths, loaded, paths[0]).0, paths[1..])
  }

  function MarkedNow(fs: HostFs, loadPaths: seq<Path>, loaded: map<nat, Path>, path: Path): seq<nat> {
    if Mark(fs, loadPaths, loaded, path).1.Ok? then [IdentityOf(fs, loadPaths, path).value] else []
  }

  /** One call marks at most one identity, and only one that was not loaded. */
  lemma MarksOne(fs: HostFs, loadPaths: seq<Path>, loaded: map<nat, Path>, path: Path)
    ensures var now := MarkedNow(fs, loadPaths, loaded, path);
            && |now| <= 1 && (now != [] ==> now[0] !in loaded)
            && Mark(fs, loadPaths, loaded, path).0.Keys == loaded.Keys + (set id | id in now)
  {
  }

  function LoadedAfter(fs: HostFs, loadPaths: seq<Path>, loaded: map<nat, Path>, paths: seq<Path>): map<nat, Path>
    decreases |paths|
  {
    if paths == [] then loaded
    else LoadedAfter(fs, loadPaths, Mark(fs, loadPaths, loaded, paths[0]).0, paths[1..])
  }

  /** Distinct identities, none of them loaded. */
  ghost predicate AreNew(ids: seq<nat>, loaded: map<nat, Path>) {
    && (forall i, j :: 0 <= i < j < |ids| ==> ids[i] != ids[j])
    && forall i :: 0 <= i < |ids| ==> ids[i] !in loaded
  }

  lemma NewAfter(now: seq<nat>, rest: seq<nat>, loaded: map<nat, Path>, loaded': map<nat, Path>)
    requires |now| <= 1 && AreNew(now, loaded) && AreNew(rest, loaded')
    requires loaded'.Keys == loaded.Keys + (set id | id in now)
    ensures AreNew(now + rest, loaded)
  {
    forall i | 0 <= i < |rest|
      ensures rest[i] !in loaded && rest[i] !in now
    {
      assert rest[i] !in loaded';
      assert rest[i] !in loaded'.Keys;
    }
  }

  /** Over any run of calls, marking succeeds at most once per file identity and never for one marked before. */
  lemma {:induction false} MarkedOncePerIdentity(
    fs: HostFs, loadPaths: seq<Path>, loaded: map<nat, Path>, paths: seq<Path>)
    ensures AreNew(Marked(fs, loadPaths, loaded, paths), loaded)
    decreases |paths|
  {
    if paths != [] {
      var now, loaded' := MarkedNow(fs, loadPaths, loaded, paths[0]), Mark(fs, loadPaths, loaded, paths[0]).0;
      MarksOne(fs, loadPaths, loaded, paths[0]);
      MarkedOncePerIdentity(fs, loadPaths, loaded', paths[1..]);
      NewAfter(now, Marked(fs, loadPaths, loaded', paths[1..]), loaded, loaded');
    }
  }

  /** What is loaded after a run is what was loaded before or marked. */
  lemma {:induction false} LoadedAreMarked(
    fs: HostFs, loadPaths: seq<Path>, loaded: map<nat, Path>, paths: seq<Path>, id: nat)
    ensures id in LoadedAfter(fs, loadPaths, loaded, paths) <==>
              id in loaded || id in Marked(fs, loadPaths, loaded, paths)
    decreases |paths|
  {
    if paths != [] {
      var loaded' := Mark(fs, loadPaths, loaded, paths[0]).0;
      MarksOne(fs, loadPaths, loaded, paths[0]);
      assert id in loaded' <==> id in loaded'.Keys;
      LoadedAreMarked(fs, loadPaths, loaded', paths[1..], id);
    }
  }

  ghost predicate Opens(fs: HostFs, loadPaths: seq<Path>, paths: seq<Path>, id: nat) {
    exists i :: 0 <= i < |paths| && IdentityOf(fs, loadPaths, paths[i]) == Some(id)
  }

  lemma OpensStep(fs: HostFs, loadPaths: seq<Path>, paths: seq<Path>, id: nat)
    requires paths != []
    ensures Opens(fs, loadPaths, paths, id) <==>
              IdentityOf(fs, loadPaths, paths[0]) == Some(id) || Opens(fs, loadPaths, paths[1..], id)
  {
    var rest := paths[1..];
    if Opens(fs, loadPaths, paths, id) {
      var i :| 0 <= i < |paths| && IdentityOf(fs, loadPaths, paths[i]) == Some(id);
      assert i > 0 ==> paths[i] == rest[i - 1];
    }
    if Opens(fs, loadPaths, rest, id) {
      var i :| 0 <= i < |rest| && IdentityOf(fs, loadPaths, rest[i]) == Some(id);
      assert paths[i + 1] == rest[i];
    }
    assert IdentityOf(fs, loadPaths, paths[0]) == Some(id) ==> Opens(fs, loadPaths, paths, id);
  }

  /** After any run, exactly the identities loaded before and those of all opened files are loaded. */
  lemma {:induction false} LoadedAreOpened(
    fs: HostFs, loadPaths: seq<Path>, loaded: map<nat, Path>, paths: seq<Path>, id: nat)
    ensures id in LoadedAfter(fs, loadPaths, loaded, paths) <==> id in loaded || Opens(fs, loadPaths, paths, id)
    decreases |paths|
  {
    if paths != [] {
      OpensStep(fs, loadPaths, paths, id);
      LoadedAreOpened(fs, loadPaths, Mark(fs, loadPaths, loaded, paths[0]).0, paths[1..], id);
    }
  }

  /** After any run, `is_required` answers yes for exactly the identities marked before or during it. */
  lemma IsRequiredAfterRun(fs: HostFs, loadPaths: seq<Path>, loaded: map<nat, Path>, paths: seq<Path>, path: Path)
    requires !IsAbsolute(path)
    ensures var identity := IdentityOf(fs, loadPaths, path);
            IsRequiredIn(fs, loadPaths, LoadedAfter(fs, loadPaths, loaded, paths), path) == Some(true) <==>
            identity.Some? && (identity.value in loaded || identity.value in Marked(fs, loadPaths, loaded, paths))
  {
    var identity := IdentityOf(fs, loadPaths, path);
    if identity.Some? {
      LoadedAreMarked(fs, loadPaths, loaded, paths, identity.value);
    }
  }
}
