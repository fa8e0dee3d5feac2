/**
 * The local-cache lifecycle of the resource module: where a resource lives,
 * which versions are present, `cleanup`, the staged `deploy` (a random
 * `.temp` sibling is filled and renamed onto the version directory), and the
 * `provide` state machine over the `_available` flag.
 */
module Resources {

  import opened Common
  import opened Strings
  import opened FileSystem
  import opened TempNames
  import opened Archives

  /** The attributes that place a resource in the cache. */
  datatype Descriptor = Descriptor(localBase: Path, localPrefix: string, name: string, version: string)

  /** A path string that pathlib joins below the base instead of replacing it. */
  predicate Relative(s: string) {
    !(|s| > 0 && s[0] == '/')
  }

  /** `local_base / local_prefix / name / version`. */
  function PathOf(d: Descriptor): (p: Path)
    ensures Relative(d.localPrefix) && Relative(d.name) && Relative(d.version) ==>
      p == d.localBase + Components(d.localPrefix) + Components(d.name) + Components(d.version)
  {
    Join(Join(Join(d.localBase, d.localPrefix), d.name), d.version)
  }

  /** With a plain name and version the version directory sits directly below `base/prefix/name`. */
  lemma {:induction false} PathOfPlain(d: Descriptor)
    requires Relative(d.localPrefix) && IsComponent(d.name) && IsComponent(d.version)
    ensures PathOf(d) == d.localBase + Components(d.localPrefix) + [d.name, d.version]
    ensures Parent(PathOf(d)) == d.localBase + Components(d.localPrefix) + [d.name]
    ensures PathOf(d)[|PathOf(d)| - 1] == d.version
  {
    ComponentsSingle(d.name);
    ComponentsSingle(d.version);
  }

  /**
   * The `path` property: the first access computes it from the descriptor and
   * stores it in `_path`; later accesses return the stored value.
   */
  function CachedPath(cache: Option<Path>, d: Descriptor): (r: (Path, Option<Path>))
    ensures r.1 == Some(r.0)
    ensures cache.Some? ==> r.0 == cache.value
  {
    match cache
    case Some(p) => (p, cache)
    case None => (PathOf(d), Some(PathOf(d)))
  }

  /** Once computed, the path no longer follows later changes of name or version. */
  lemma {:induction false} CachedPathSticky(cache: Option<Path>, d1: Descriptor, d2: Descriptor)
    ensures CachedPath(CachedPath(cache, d1).1, d2).0 == CachedPath(cache, d1).0
    ensures cache.None? ==> CachedPath(CachedPath(cache, d1).1, d2).0 == PathOf(d1)
  {
  }

  /**
   * `LocalResource.get_available_versions`: nothing when the parent of `path`
   * is not a directory, otherwise the names of its entries without the
   * `.temp` suffix.
   */
  function AvailableVersions(fs: Fs, path: Path): (r: set<string>)
    ensures !IsDir(fs, Parent(path)) ==> r == {}
    ensures forall v :: v in r ==> !EndsWith(v, TempSuffix)
    ensures IsDir(fs, Parent(path)) ==>
      forall v :: !EndsWith(v, TempSuffix) ==> (v in r <==> Exists(fs, Parent(path) + [v]))
  {
    if !IsDir(fs, Parent(path)) then {}
    else set v | v in Children(fs, Parent(path)) && !EndsWith(v, TempSuffix)
  }

  /** A plain version that does not end in `.temp` is listed exactly when its directory (or a file) exists. */
  lemma {:induction false} ListedIffExists(fs: Fs, path: Path)
    requires path != [] && IsDir(fs, Parent(path))
    requires !EndsWith(path[|path| - 1], TempSuffix)
    ensures path[|path| - 1] in AvailableVersions(fs, path) <==> Exists(fs, path)
  {
    assert path == Parent(path) + [path[|path| - 1]];
  }

  /** No staging directory is ever reported as a version. */
  lemma {:induction false} StagingNeverListed(fs: Fs, path: Path, d: Draw)
    ensures TempName(d) !in AvailableVersions(fs, path)
  {
  }

  /** `LocalResource.cleanup`: remove the version directory if there is one. */
  function Cleanup(fs: Fs, path: Path): (r: Fs)
    ensures r.dirs <= fs.dirs
    ensures path != [] ==> !IsDir(r, path)
    ensures forall q :: !IsPrefix(path, q) ==> SameAt(fs, r, q)
    ensures !IsDir(fs, path) ==> r == fs
  {
    if IsDir(fs, path) then RmTree(fs, path) else fs
  }

  /** Every proper ancestor of an existing entry is a directory: the shape of a real directory tree. */
  ghost predicate Closed(fs: Fs) {
    forall q, k :: (q in fs.dirs || q in fs.files) && 0 < k < |q| ==> q[..k] in fs.dirs
  }

  lemma {:induction false} ClosedRmTree(fs: Fs, p: Path)
    requires Closed(fs)
    ensures Closed(RmTree(fs, p))
  {
    var r := RmTree(fs, p);
    forall q, k | (q in r.dirs || q in r.files) && 0 < k < |q|
      ensures q[..k] in r.dirs
    {
      assert IsPrefix(p, q[..k]) ==> IsPrefix(p, q);
    }
  }

  // ---------------------------------------------------------------------------
  // Finding a staging directory

  /** The staging directory a draw names: a sibling of the version directory. */
  function Candidate(parent: Path, d: Draw): (c: Path)
    ensures c == Join(parent, TempName(d))
  {
    JoinComponent(parent, TempName(d));
    parent + [TempName(d)]
  }

  /** How the `for _ in range(100)` search ended. */
  datatype TempSearch =
    | Created(index: nat, temp: Path, fs: Fs)
    | MkdirFailed(index: nat, temp: Path, error: Error)
    | Exhausted(last: Path)

  /**
   * The search for a staging directory from attempt `i` on: the position of
   * the first candidate that is not a directory, if any.
   */
  function FirstFree(fs: Fs, parent: Path, draws: seq<Draw>, i: nat): (r: Option<nat>)
    requires i <= |draws|
    ensures r.None? <==> forall j :: i <= j < |draws| ==> IsDir(fs, Candidate(parent, draws[j]))
    ensures r.Some? ==> i <= r.value < |draws| && !IsDir(fs, Candidate(parent, draws[r.value]))
    ensures r.Some? ==> forall j :: i <= j < r.value ==> IsDir(fs, Candidate(parent, draws[j]))
    decreases |draws| - i
  {
    if i == |draws| then None
    else if !IsDir(fs, Candidate(parent, draws[i])) then Some(i)
    else FirstFree(fs, parent, draws, i + 1)
  }

  /**
   * The whole `for _ in range(100)` loop: the first candidate that is not a
   * directory is created with `mkdir(parents=True)`; when every candidate is
   * already a directory the search is exhausted and `temp_path` is the last.
   */
  function FindTemp(fs: Fs, parent: Path, draws: seq<Draw>): (r: TempSearch)
    requires |draws| > 0
    ensures r.Exhausted? <==> forall j :: 0 <= j < |draws| ==> IsDir(fs, Candidate(parent, draws[j]))
    ensures r.Exhausted? ==> r.last == Candidate(parent, draws[|draws| - 1])
    ensures !r.Exhausted? ==> r.index < |draws| && r.temp == Candidate(parent, draws[r.index]) && !IsDir(fs, r.temp)
    ensures !r.Exhausted? ==> forall j :: 0 <= j < r.index ==> IsDir(fs, Candidate(parent, draws[j]))
    ensures r.Created? ==> MkdirP(fs, r.temp, false) == Success(r.fs)
    ensures r.MkdirFailed? ==> MkdirP(fs, r.temp, false) == Failure(r.error)
  {
    match FirstFree(fs, parent, draws, 0)
    case None => Exhausted(Candidate(parent, draws[|draws| - 1]))
    case Some(k) =>
      var temp := Candidate(parent, draws[k]);
      match MkdirP(fs, temp, false)
      case Success(fs1) => Created(k, temp, fs1)
      case Failure(e) => MkdirFailed(k, temp, e)
  }

  /** A newly created staging directory did not exist before and is the only new directory besides its ancestors. */
  lemma {:induction false} CreatedTemp(fs: Fs, parent: Path, draws: seq<Draw>)
    requires |draws| > 0 && FindTemp(fs, parent, draws).Created?
    ensures var r := FindTemp(fs, parent, draws);
      && !Exists(fs, r.temp)
      && IsDir(r.fs, r.temp) && r.fs.files == fs.files && fs.dirs <= r.fs.dirs
      && (forall q :: q in r.fs.dirs && q !in fs.dirs ==> IsPrefix(q, r.temp))
  {
  }

  // ---------------------------------------------------------------------------
  // deploy

  /** What the `except` clause removes: the last candidate as written, or only a directory this call made. */
  datatype Rollback = AsWritten | OwnOnly

  /** The `except` clause: remove `temp` when it is a directory, keep the failure. */
  function Unwind(run: Run, temp: Path): (r: Run)
    ensures r.outcome == run.outcome
    ensures r.fs.dirs <= run.fs.dirs
    ensures forall q :: !IsPrefix(temp, q) ==> SameAt(run.fs, r.fs, q)
    ensures run.outcome.Fail? && temp != [] ==> !IsDir(r.fs, temp)
  {
    if run.outcome.Fail? && IsDir(run.fs, temp) then Run(run.outcome, RmTree(run.fs, temp)) else run
  }

  /** Lines after the extraction: create the missing parent, then rename the staging directory onto `path`. */
  function Complete(fs: Fs, temp: Path, path: Path): (r: Run)
    ensures r.outcome.Ok? <==> EnsureParent(fs, path).Success? && Rename(EnsureParent(fs, path).value, temp, path).Success?
    ensures r.outcome.Ok? ==> r.fs == Rename(EnsureParent(fs, path).value, temp, path).value
    ensures r.outcome.Fail? ==> fs.dirs <= r.fs.dirs && r.fs.files == fs.files
    ensures r.outcome.Fail? ==> forall q :: q in r.fs.dirs && q !in fs.dirs ==> IsPrefix(q, Parent(path))
  {
    match EnsureParent(fs, path)
    case Failure(e) => Run(Fail(e), fs)
    case Success(fs1) =>
      match Rename(fs1, temp, path)
      case Failure(e) => Run(Fail(e), fs1)
      case Success(fs2) => Run(Ok, fs2)
  }

  /**
   * `LocalResource.deploy`, with the archive deployment of
   * `ArchivedResource._deploy_to` filling the staging directory; `draws` are
   * the hundred `random.randrange(16**20)` results.
   */
  function DeployWith(fs: Fs, path: Path, draws: seq<Draw>, src: Source, rollback: Rollback): (r: Run)
    requires |draws| == TempAttempts
  {
    var fs0 := Cleanup(fs, path);
    match FindTemp(fs0, Parent(path), draws)
    case Exhausted(last) =>
      var failed := Run(Fail(TempExhausted(last)), fs0);
      if rollback == AsWritten then Unwind(failed, last) else failed
    case MkdirFailed(_, temp, e) => Unwind(Run(Fail(e), fs0), temp)
    case Created(_, temp, fs1) =>
      var d := DeployTo(Current, fs1, temp, src);
      Unwind(if d.outcome.Fail? then d else Complete(d.fs, temp, path), temp)
  }

  /** The deploy as shipped. */
  function DeployAsWritten(fs: Fs, path: Path, draws: seq<Draw>, src: Source): Run
    requires |draws| == TempAttempts
  {
    DeployWith(fs, path, draws, src, AsWritten)
  }

  /** The deploy whose `except` clause only removes a staging directory this call created. */
  function Deploy(fs: Fs, path: Path, draws: seq<Draw>, src: Source): Run
    requires |draws| == TempAttempts
  {
    DeployWith(fs, path, draws, src, OwnOnly)
  }

  /** Two paths of the same length, one a prefix of the other, are equal. */
  lemma {:induction false} PrefixSameLength(a: Path, b: Path)
    requires IsPrefix(a, b) && |a| == |b|
    ensures a == b
  {
    assert b[..|b|] == b;
  }

  /** The steps of a successful deploy, named. */
  lemma {:induction false} DeployOkSteps(fs: Fs, path: Path, draws: seq<Draw>, src: Source, rollback: Rollback)
    requires |draws| == TempAttempts
    requires DeployWith(fs, path, draws, src, rollback).outcome.Ok?
    ensures var search := FindTemp(Cleanup(fs, path), Parent(path), draws);
      && search.Created?
      && var d := DeployTo(Current, search.fs, search.temp, src);
      && d.outcome.Ok?
      && EnsureParent(d.fs, path).Success?
      && Rename(EnsureParent(d.fs, path).value, search.temp, path).Success?
      && DeployWith(fs, path, draws, src, rollback).fs == Rename(EnsureParent(d.fs, path).value, search.temp, path).value
  {
  }

  /**
   * The frame argument behind a successful deploy: a `.temp` sibling present
   * at the end is not the staging directory (it was renamed away) and was not
   * created by any step, so it was present at the start.
   */
  lemma {:induction false} StagingSiblingsFrame(fs: Fs, fs0: Fs, fs1: Fs, fs2: Fs, fs3: Fs, out: Fs, temp: Path, path: Path, c: string)
    requires path != [] && !EndsWith(path[|path| - 1], TempSuffix)
    requires |temp| == |path| && Parent(temp) == Parent(path) && EndsWith(temp[|temp| - 1], TempSuffix)
    requires fs0.dirs <= fs.dirs
    requires forall q :: q in fs1.dirs && q !in fs0.dirs ==> IsPrefix(q, temp)
    requires Confined(fs1, fs2, temp)
    requires forall q :: q in fs3.dirs && q !in fs2.dirs ==> IsPrefix(q, Parent(path))
    requires Rename(fs3, temp, path).Success? && out == Rename(fs3, temp, path).value
    requires EndsWith(c, TempSuffix) && Parent(path) + [c] in out.dirs
    ensures Parent(path) + [c] in fs.dirs
  {
    var q := Parent(path) + [c];
    assert path == Parent(path) + [path[|path| - 1]];
    assert q != path;
    RenamedSibling(fs3, temp, path, q);
    assert q in fs2.dirs;
    NotNewSibling(fs0, fs1, fs2, temp, q);
  }

  /** A directory of the renamed tree, of the same depth as `src` and `dst` but neither, was there before. */
  lemma {:induction false} RenamedSibling(fs: Fs, src: Path, dst: Path, q: Path)
    requires Rename(fs, src, dst).Success? && q in Rename(fs, src, dst).value.dirs
    requires |q| == |src| == |dst| && q != dst
    ensures q in fs.dirs && q != src
  {
    RenameAt(fs, src, dst, q);
    if IsPrefix(src, q) { PrefixSameLength(src, q); }
    if IsPrefix(dst, q) { PrefixSameLength(dst, q); }
  }

  /** A directory of the staging depth other than the staging directory is older than the staging steps. */
  lemma {:induction false} NotNewSibling(fs0: Fs, fs1: Fs, fs2: Fs, temp: Path, q: Path)
    requires forall p :: p in fs1.dirs && p !in fs0.dirs ==> IsPrefix(p, temp)
    requires Confined(fs1, fs2, temp)
    requires q in fs2.dirs && |q| == |temp| && q != temp
    ensures q in fs0.dirs
  {
    if IsPrefix(q, temp) { PrefixSameLength(q, temp); }
    if IsPrefix(temp, q) { PrefixSameLength(temp, q); }
  }

  /**
   * A successful deploy leaves `path` a directory whose name is listed, and
   * every `.temp` sibling present afterwards was present before: the staging
   * directory of this call is gone.
   */
  lemma {:induction false} DeploySucceeds(fs: Fs, path: Path, draws: seq<Draw>, src: Source, rollback: Rollback)
    requires |draws| == TempAttempts && path != []
    requires DeployWith(fs, path, draws, src, rollback).outcome.Ok?
    requires !EndsWith(path[|path| - 1], TempSuffix) && SourceNoClimb(src)
    ensures var out := DeployWith(fs, path, draws, src, rollback).fs;
      && IsDir(out, path)
      && path[|path| - 1] in AvailableVersions(out, path)
      && forall c :: EndsWith(c, TempSuffix) && Parent(path) + [c] in out.dirs ==> Parent(path) + [c] in fs.dirs
  {
    var parent := Parent(path);
    var fs0 := Cleanup(fs, path);
    DeployOkSteps(fs, path, draws, src, rollback);
    var search := FindTemp(fs0, parent, draws);
    var temp, fs1 := search.temp, search.fs;
    CreatedTemp(fs0, parent, draws);
    var d := DeployTo(Current, fs1, temp, src);
    DeployToConfined(Current, fs1, temp, src);
    var fsE := EnsureParent(d.fs, path).value;
    var out := Rename(fsE, temp, path).value;
    assert temp[|temp| - 1] == TempName(draws[search.index]);
    RenameMovesRoot(fsE, temp, path);
    RenameAt(fsE, temp, path, parent);
    ListedIffExists(out, path);
    forall c | EndsWith(c, TempSuffix) && parent + [c] in out.dirs
      ensures parent + [c] in fs.dirs
    {
      StagingSiblingsFrame(fs, fs0, fs1, d.fs, fsE, out, temp, path, c);
    }
  }

  /**
   * A successful deploy publishes the staging directory as it was filled:
   * every file below it is afterwards at the same place below `path`, with
   * the same bytes.
   */
  lemma {:induction false} DeployPublishes(fs: Fs, path: Path, draws: seq<Draw>, src: Source, rollback: Rollback, rel: Path)
    requires |draws| == TempAttempts
    requires DeployWith(fs, path, draws, src, rollback).outcome.Ok?
    ensures var search := FindTemp(Cleanup(fs, path), Parent(path), draws);
      var d := DeployTo(Current, search.fs, search.temp, src);
      var out := DeployWith(fs, path, draws, src, rollback).fs;
      search.temp + rel in d.fs.files ==> path + rel in out.files && out.files[path + rel] == d.fs.files[search.temp + rel]
  {
    DeployOkSteps(fs, path, draws, src, rollback);
    var search := FindTemp(Cleanup(fs, path), Parent(path), draws);
    var d := DeployTo(Current, search.fs, search.temp, src);
    var fsE := EnsureParent(d.fs, path).value;
    RenameAt(fsE, search.temp, path, path + rel);
    assert (path + rel)[|path|..] == rel;
  }

  /**
   * After a successful deploy the version directory holds the archive's
   * contents: the file the extraction map sends the `i`-th listed member to,
   * below the staging directory, is at the same place below `path` and holds
   * the bytes of the last listed member sent there.
   */
  lemma {:induction false} DeployContents(fs: Fs, path: Path, draws: seq<Draw>, src: Source, rollback: Rollback,
                                          kind: Extractor, archive: Archive, files: seq<string>, i: nat, rel: Path)
    requires |draws| == TempAttempts
    requires DeployWith(fs, path, draws, src, rollback).outcome.Ok?
    requires src.archiveName.Success? && ChooseExtractor(CurrentPlugins, src.archiveName.value) == Some(kind)
    requires src.archive == Success(archive) && FileList(Current, kind, archive) == Success(files)
    requires i < |files|
    requires LastWriter(Current, FindTemp(Cleanup(fs, path), Parent(path), draws).temp, src.extraction, files, i,
                        FindTemp(Cleanup(fs, path), Parent(path), draws).temp + rel)
    ensures var out := DeployWith(fs, path, draws, src, rollback).fs;
      path + rel in out.files && ReadMember(kind, archive, files[i]) == Success(out.files[path + rel])
  {
    DeployOkSteps(fs, path, draws, src, rollback);
    var search := FindTemp(Cleanup(fs, path), Parent(path), draws);
    var d := DeployTo(Current, search.fs, search.temp, src);
    assert d == ExtractAll(Current, search.fs, search.temp, kind, archive, src.extraction, files);
    ExtractAllContents(Current, search.fs, search.temp, kind, archive, src.extraction, files, i, search.temp + rel);
    DeployPublishes(fs, path, draws, src, rollback, rel);
  }

  /** After a failed deploy, in either form, `path` is not a directory: `cleanup` ran first. */
  lemma {:induction false} DeployFailureLeavesNoVersion(fs: Fs, path: Path, draws: seq<Draw>, src: Source, rollback: Rollback)
    requires |draws| == TempAttempts && path != []
    requires DeployWith(fs, path, draws, src, rollback).outcome.Fail? && SourceNoClimb(src)
    ensures !IsDir(DeployWith(fs, path, draws, src, rollback).fs, path)
  {
    var parent := Parent(path);
    var fs0 := Cleanup(fs, path);
    match FindTemp(fs0, parent, draws)
    case Exhausted(last) =>
    case MkdirFailed(_, temp, e) =>
    case Created(k, temp, fs1) =>
      CreatedTemp(fs0, parent, draws);
      var d := DeployTo(Current, fs1, temp, src);
      DeployToConfined(Current, fs1, temp, src);
      assert |temp| == |path|;
      var run := if d.outcome.Fail? then d else Complete(d.fs, temp, path);
      if path in run.fs.dirs && path != temp {
        assert path !in fs0.dirs;
        if path !in fs1.dirs {
          PrefixSameLength(path, temp);
        }
        if path !in d.fs.dirs {
          if IsPrefix(temp, path) { PrefixSameLength(temp, path); }
          if IsPrefix(path, temp) { PrefixSameLength(path, temp); }
        }
        assert false;
      }
  }

  /**
   * The exception that stops a deploy is the one re-raised: the exhausted
   * search's, the `mkdir`'s, the extraction's, the parent `mkdir`'s or the
   * `rename`'s. Whatever was staged is removed and nothing else changes; on
   * an exhausted search the shipped clause removes the last candidate and
   * the corrected one removes nothing.
   */
  lemma {:induction false} DeployErrorPropagates(fs: Fs, path: Path, draws: seq<Draw>, src: Source, rollback: Rollback)
    requires |draws| == TempAttempts
    ensures var fs0 := Cleanup(fs, path);
      var r := DeployWith(fs, path, draws, src, rollback);
      match FindTemp(fs0, Parent(path), draws)
      case Exhausted(last) =>
        && r.outcome == Fail(TempExhausted(last))
        && (rollback == OwnOnly ==> r.fs == fs0)
        && (rollback == AsWritten ==> !IsDir(r.fs, last) && forall q :: !IsPrefix(last, q) ==> SameAt(fs0, r.fs, q))
      case MkdirFailed(_, _, e) => r == Run(Fail(e), fs0)
      case Created(_, temp, fs1) =>
        var d := DeployTo(Current, fs1, temp, src);
        && (d.outcome.Fail? ==>
              && r.outcome == d.outcome
              && !IsDir(r.fs, temp)
              && forall q :: !IsPrefix(temp, q) ==> SameAt(d.fs, r.fs, q))
        && (d.outcome.Ok? && EnsureParent(d.fs, path).Failure? ==>
              && r.outcome == Fail(EnsureParent(d.fs, path).error)
              && !IsDir(r.fs, temp)
              && forall q :: !IsPrefix(temp, q) ==> SameAt(d.fs, r.fs, q))
        && (d.outcome.Ok? && EnsureParent(d.fs, path).Success? ==>
              var fsE := EnsureParent(d.fs, path).value;
              Rename(fsE, temp, path).Failure? ==>
                && r.outcome == Fail(Rename(fsE, temp, path).error)
                && !IsDir(r.fs, temp)
                && forall q :: !IsPrefix(temp, q) ==> SameAt(fsE, r.fs, q))
  {
    var fs0 := Cleanup(fs, path);
    match FindTemp(fs0, Parent(path), draws)
    case Exhausted(last) =>
      assert last != [];
    case MkdirFailed(_, temp, e) =>
    case Created(_, temp, fs1) =>
      assert temp != [];
      var d := DeployTo(Current, fs1, temp, src);
      if d.outcome.Fail? {
        assert DeployWith(fs, path, draws, src, rollback) == Unwind(d, temp);
      } else {
        var c := Complete(d.fs, temp, path);
        assert DeployWith(fs, path, draws, src, rollback) == Unwind(c, temp);
        match EnsureParent(d.fs, path)
        case Failure(e) =>
          assert c == Run(Fail(e), d.fs);
        case Success(fsE) =>
          if Rename(fsE, temp, path).Failure? {
            assert c == Run(Fail(Rename(fsE, temp, path).error), fsE);
          }
      }
  }

  /**
   * With the corrected `except` clause a deploy never removes a directory
   * that existed before it, other than the version directory itself.
   */
  lemma {:induction false} OwnOnlyKeepsForeignDirs(fs: Fs, path: Path, draws: seq<Draw>, src: Source)
    requires |draws| == TempAttempts && Closed(fs)
    ensures forall q :: q in fs.dirs && !IsPrefix(path, q) ==> q in Deploy(fs, path, draws, src).fs.dirs
  {
    if IsDir(fs, path) {
      ClosedRmTree(fs, path);
    }
    forall q | q in fs.dirs && !IsPrefix(path, q)
      ensures q in Deploy(fs, path, draws, src).fs.dirs
    {
      ForeignDirKept(fs, path, draws, src, q);
    }
  }

  /** One directory of `OwnOnlyKeepsForeignDirs`. */
  lemma {:induction false} ForeignDirKept(fs: Fs, path: Path, draws: seq<Draw>, src: Source, q: Path)
    requires |draws| == TempAttempts && Closed(Cleanup(fs, path))
    requires q in fs.dirs && !IsPrefix(path, q)
    ensures q in Deploy(fs, path, draws, src).fs.dirs
  {
    var parent := Parent(path);
    var fs0 := Cleanup(fs, path);
    assert q in fs0.dirs;
    match FindTemp(fs0, parent, draws)
    case Exhausted(last) =>
    case MkdirFailed(_, temp, e) =>
    case Created(k, temp, fs1) =>
      CreatedTemp(fs0, parent, draws);
      var d := DeployTo(Current, fs1, temp, src);
      DeployToConfined(Current, fs1, temp, src);
      if IsPrefix(temp, q) && |q| == |temp| {
        PrefixSameLength(temp, q);
      }
      assert !IsPrefix(temp, q);
      assert q in d.fs.dirs;
      if d.outcome.Ok? {
        var c := Complete(d.fs, temp, path);
        if c.outcome.Ok? {
          var fsE := EnsureParent(d.fs, path).value;
          RenameAt(fsE, temp, path, q);
        }
      }
  }

  /**
   * The shipped `except` clause, when all hundred candidates exist, removes
   * the last one although another deploy made it: here every draw names the
   * same existing staging directory.
   */
  lemma {:induction false} AsWrittenRemovesForeignDir(version: string, d: Draw, src: Source)
    requires IsComponent(version) && version != TempName(d)
    ensures var fs := Fs({[TempName(d)]}, map[]);
      var draws := seq(TempAttempts, _ => d);
      && Closed(fs)
      && DeployAsWritten(fs, [version], draws, src) == Run(Fail(TempExhausted([TempName(d)])), Fs({}, map[]))
      && Deploy(fs, [version], draws, src) == Run(Fail(TempExhausted([TempName(d)])), fs)
  {
    var fs := Fs({[TempName(d)]}, map[]);
    var draws := seq(TempAttempts, _ => d);
    assert Cleanup(fs, [version]) == fs;
    assert Parent([version]) == [];
    assert forall j :: 0 <= j < |draws| ==> Candidate([], draws[j]) == [TempName(d)];
    assert FindTemp(fs, [], draws) == Exhausted([TempName(d)]);
    assert RmTree(fs, [TempName(d)]).dirs == {};
  }

  // ---------------------------------------------------------------------------
  // provide

  /** The per-object state `provide` reads and writes: `_available` and the cached `_path`. */
  datatype Flags = Flags(available: bool, cache: Option<Path>)

  datatype Provided = Provided(outcome: Outcome, flags: Flags, fs: Fs)

  /**
   * `Resource.provide` of a deployable resource: return at once when
   * available; assert a name and a version; when the version is listed mark
   * the resource available; otherwise deploy and mark it available only if
   * the deploy returns. `rollback` picks the `except` clause of the deploy:
   * `AsWritten` is the shipped `provide`, `OwnOnly` the corrected one.
   */
  function Provide(flags: Flags, d: Descriptor, fs: Fs, draws: seq<Draw>, src: Source, rollback: Rollback): (r: Provided)
    requires |draws| == TempAttempts
    ensures flags.available ==> r == Provided(Ok, flags, fs)
    ensures !flags.available && (d.name == "" || d.version == "") ==>
      r.outcome.Fail? && r.outcome.error.AssertionFailed? && r.fs == fs && r.flags == flags
    ensures r.flags.available <==> flags.available || r.outcome.Ok?
    ensures !flags.available && d.name != "" && d.version != "" ==>
      var p := CachedPath(flags.cache, d).0;
      && r.flags.cache == Some(p)
      && (d.version in AvailableVersions(fs, p) ==> r.outcome.Ok? && r.fs == fs)
      && (d.version !in AvailableVersions(fs, p) ==> Run(r.outcome, r.fs) == DeployWith(fs, p, draws, src, rollback))
  {
    if flags.available then Provided(Ok, flags, fs)
    else if d.name == "" then Provided(Fail(AssertionFailed("Resource should be named")), flags, fs)
    else if d.version == "" then Provided(Fail(AssertionFailed("Resource should be versioned")), flags, fs)
    else
      var (p, cache) := CachedPath(flags.cache, d);
      if d.version in AvailableVersions(fs, p) then Provided(Ok, Flags(true, cache), fs)
      else
        var run := DeployWith(fs, p, draws, src, rollback);
        Provided(run.outcome, Flags(run.outcome.Ok?, cache), run.fs)
  }

  /** A successful provide makes the next one a no-op, whatever the directory tree has become. */
  lemma {:induction false} ProvideIdempotent(flags: Flags, d: Descriptor, fs: Fs, draws: seq<Draw>, src: Source, rollback: Rollback,
                          fs': Fs, draws': seq<Draw>, src': Source, rollback': Rollback)
    requires |draws| == TempAttempts && |draws'| == TempAttempts
    requires Provide(flags, d, fs, draws, src, rollback).outcome.Ok?
    ensures var r := Provide(flags, d, fs, draws, src, rollback);
      Provide(r.flags, d, fs', draws', src', rollback') == Provided(Ok, r.flags, fs')
  {
  }

  /**
   * After a successful provide of a resource with a plain version, that
   * version is listed, unless the flag was already set beforehand.
   */
  lemma {:induction false} ProvideLists(flags: Flags, d: Descriptor, fs: Fs, draws: seq<Draw>, src: Source, rollback: Rollback)
    requires |draws| == TempAttempts && flags.cache.None?
    requires Relative(d.localPrefix) && IsComponent(d.name) && IsComponent(d.version) && !EndsWith(d.version, TempSuffix)
    requires SourceNoClimb(src)
    requires !flags.available && Provide(flags, d, fs, draws, src, rollback).outcome.Ok?
    ensures d.version in AvailableVersions(Provide(flags, d, fs, draws, src, rollback).fs, PathOf(d))
  {
    PathOfPlain(d);
    var p := PathOf(d);
    if d.version !in AvailableVersions(fs, p) {
      DeploySucceeds(fs, p, draws, src, rollback);
    }
  }

  /**
   * A `provide` that deploys publishes the archive: the version directory
   * holds, at each place the extraction map sends a listed member, the bytes
   * of the last member sent there.
   */
  lemma {:induction false} ProvideContents(flags: Flags, d: Descriptor, fs: Fs, draws: seq<Draw>, src: Source, rollback: Rollback,
                                           kind: Extractor, archive: Archive, files: seq<string>, i: nat, rel: Path)
    requires |draws| == TempAttempts && !flags.available && d.name != "" && d.version != ""
    requires d.version !in AvailableVersions(fs, CachedPath(flags.cache, d).0)
    requires Provide(flags, d, fs, draws, src, rollback).outcome.Ok?
    requires src.archiveName.Success? && ChooseExtractor(CurrentPlugins, src.archiveName.value) == Some(kind)
    requires src.archive == Success(archive) && FileList(Current, kind, archive) == Success(files)
    requires i < |files|
    requires var p := CachedPath(flags.cache, d).0;
      LastWriter(Current, FindTemp(Cleanup(fs, p), Parent(p), draws).temp, src.extraction, files, i,
                 FindTemp(Cleanup(fs, p), Parent(p), draws).temp + rel)
    ensures var p := CachedPath(flags.cache, d).0;
      var r := Provide(flags, d, fs, draws, src, rollback);
      p + rel in r.fs.files && ReadMember(kind, archive, files[i]) == Success(r.fs.files[p + rel])
  {
    var p := CachedPath(flags.cache, d).0;
    DeployContents(fs, p, draws, src, rollback, kind, archive, files, i, rel);
  }

  /**
   * `cleanup` leaves `_available` alone: after it, `provide` does nothing and
   * the version directory stays missing.
   */
  lemma {:induction false} CleanupKeepsAvailable(flags: Flags, d: Descriptor, fs: Fs, draws: seq<Draw>, src: Source, rollback: Rollback)
    requires |draws| == TempAttempts && flags.available && flags.cache.Some? && flags.cache.value != []
    ensures var cleaned := Cleanup(fs, flags.cache.value);
      && Provide(flags, d, cleaned, draws, src, rollback) == Provided(Ok, flags, cleaned)
      && !IsDir(Provide(flags, d, cleaned, draws, src, rollback).fs, flags.cache.value)
  {
  }
}
