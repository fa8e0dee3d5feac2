/**
 * The first generation of the package module: `LocalResource` with an
 * `initialized` flag set before deploying, a `deploy` that stages in a
 * `tempfile.mkdtemp()` directory and never rolls back, and
 * `PythonPackage.__call__`, which activates requirements first and takes its
 * entry off `sys.path` again when the import fails.
 */
module Legacy {

  import opened Common
  import opened FileSystem
  import opened Archives
  import opened Resources
  import opened Packages

  /** The per-object state of the resource: `initialized` and the cached `_path`. */
  datatype OldFlags = OldFlags(initialized: bool, cache: Option<Path>)

  const Fresh: OldFlags := OldFlags(false, None)

  /**
   * `LocalResource.deploy`: clean up, create the staging directory whose name
   * `mkdtemp` chose, run `_deploy_to` (the first form of the loop), create the
   * missing parent and rename. Nothing is undone when a step raises.
   */
  function OldDeploy(fs: Fs, path: Path, temp: Path, src: Source): (r: Run)
    ensures r.outcome.Ok? ==> IsDir(r.fs, path)
    ensures r.outcome.Ok? ==> MkdirP(Cleanup(fs, path), temp, false).Success?
    ensures MkdirP(Cleanup(fs, path), temp, false).Failure? ==> r == Run(Fail(MkdirP(Cleanup(fs, path), temp, false).error), Cleanup(fs, path))
  {
    var fs0 := Cleanup(fs, path);
    match MkdirP(fs0, temp, false)
    case Failure(e) => Run(Fail(e), fs0)
    case Success(fs1) =>
      var d := DeployTo(Initial, fs1, temp, src);
      if d.outcome.Fail? then d
      else match EnsureParent(d.fs, path)
        case Failure(e) => Run(Fail(e), d.fs)
        case Success(fs2) =>
          match Rename(fs2, temp, path)
          case Failure(e) => Run(Fail(e), fs2)
          case Success(fs3) =>
            RenameMovesRoot(fs2, temp, path);
            Run(Ok, fs3)
  }

  /**
   * A failed extraction leaves the staging directory behind, where the
   * current deploy removes the one it created.
   */
  lemma {:induction false} OldDeployLeavesStaging(fs: Fs, path: Path, temp: Path, src: Source)
    requires temp != []
    requires MkdirP(Cleanup(fs, path), temp, false).Success?
    requires DeployTo(Initial, MkdirP(Cleanup(fs, path), temp, false).value, temp, src).outcome.Fail?
    ensures OldDeploy(fs, path, temp, src).outcome.Fail?
    ensures IsDir(OldDeploy(fs, path, temp, src).fs, temp)
  {
  }

  /** What `_ensure_available` returns and leaves. */
  datatype Ensured = Ensured(outcome: Outcome, flags: OldFlags, fs: Fs)

  /**
   * `LocalResource._ensure_available`: nothing once initialized; assert a name
   * and a version; return (without marking anything) when the version
   * directory exists; otherwise set `initialized` and only then deploy.
   */
  function EnsureAvailable(flags: OldFlags, d: Descriptor, fs: Fs, temp: Path, src: Source): (r: Ensured)
    ensures flags.initialized ==> r == Ensured(Ok, flags, fs)
    ensures !flags.initialized && (d.name == "" || d.version == "") ==>
      r.outcome.Fail? && r.outcome.error.AssertionFailed? && r.flags == flags && r.fs == fs
    ensures !flags.initialized && d.name != "" && d.version != "" ==>
      var p := CachedPath(flags.cache, d).0;
      && r.flags.cache == Some(p)
      && (IsDir(fs, p) ==> r == Ensured(Ok, flags.(cache := Some(p)), fs))
      && (!IsDir(fs, p) ==> r.flags.initialized && Run(r.outcome, r.fs) == OldDeploy(fs, p, temp, src))
  {
    if flags.initialized then Ensured(Ok, flags, fs)
    else if d.name == "" then Ensured(Fail(AssertionFailed("Resource should be named")), flags, fs)
    else if d.version == "" then Ensured(Fail(AssertionFailed("Resource should be versioned")), flags, fs)
    else
      var (p, cache) := CachedPath(flags.cache, d);
      if IsDir(fs, p) then Ensured(Ok, flags.(cache := cache), fs)
      else
        var run := OldDeploy(fs, p, temp, src);
        Ensured(run.outcome, flags.(initialized := true, cache := cache), run.fs)
  }

  /**
   * A deploy whose download fails is never retried: `initialized` is already
   * set, so the next call reports success although the version directory is
   * missing. The current `provide` sets `_available` only after the deploy.
   */
  lemma {:induction false} FailedDeployNotRetried(flags: OldFlags, d: Descriptor, fs: Fs, temp: Path, src: Source,
                               temp': Path, src': Source)
    requires !flags.initialized && d.name != "" && d.version != ""
    requires src.archive.Failure? && !IsDir(fs, CachedPath(flags.cache, d).0)
    requires var p := CachedPath(flags.cache, d).0; p != [] && !IsPrefix(p, temp)
    ensures var r := EnsureAvailable(flags, d, fs, temp, src);
      && r.outcome.Fail?
      && !IsDir(r.fs, CachedPath(flags.cache, d).0)
      && EnsureAvailable(r.flags, d, r.fs, temp', src') == Ensured(Ok, r.flags, r.fs)
  {
    var p := CachedPath(flags.cache, d).0;
    var fs0 := Cleanup(fs, p);
    if !IsDir(fs, p) {
      match MkdirP(fs0, temp, false)
      case Failure(_) =>
      case Success(fs1) =>
        assert DeployTo(Initial, fs1, temp, src).fs == fs1;
        assert p !in fs1.dirs;
    }
  }

  /** The provide of the current module retries: a failed deploy leaves the resource unavailable. */
  lemma {:induction false} CurrentDeployRetried(flags: Flags, d: Descriptor, fs: Fs, draws: Attempts, src: Source, rollback: Rollback)
    requires !flags.available
    requires Provide(flags, d, fs, draws, src, rollback).outcome.Fail?
    ensures !Provide(flags, d, fs, draws, src, rollback).flags.available
  {
  }

  // ---------------------------------------------------------------------------
  // PythonPackage.__call__

  /** The position of the first occurrence of `x` in `s`. */
  function IndexOf(s: seq<Path>, x: Path): (k: nat)
    requires x in s
    ensures k < |s| && s[k] == x && x !in s[..k]
  {
    if s[0] == x then 0
    else
      assert s == [s[0]] + s[1..];
      var k' := IndexOf(s[1..], x);
      assert s[..k' + 1] == [s[0]] + s[1..][..k'];
      k' + 1
  }

  /**
   * `sys.path.remove(x)`: drop the first occurrence of `x`. The entry must be
   * present, since `list.remove` raises ValueError otherwise; `__call__` only
   * removes the entry it has just inserted.
   */
  function RemoveFirst(s: seq<Path>, x: Path): (r: seq<Path>)
    requires x in s
    ensures |r| == |s| - 1
    ensures multiset(r) == multiset(s) - multiset{x}
    ensures var k := IndexOf(s, x); r == s[..k] + s[k + 1..]
  {
    var k := IndexOf(s, x);
    var r := if s[0] == x then s[1..] else [s[0]] + RemoveFirst(s[1..], x);
    assert r == s[..k] + s[k + 1..] by {
      if s[0] == x {
        assert s[..0] + s[1..] == s[1..];
      } else {
        assert k == IndexOf(s[1..], x) + 1;
        RemovedAfterHead(s, k - 1);
      }
    }
    RemovedAt(s, k);
    r
  }

  lemma {:induction false} RemovedAfterHead(s: seq<Path>, k: nat)
    requires k + 1 < |s|
    ensures [s[0]] + (s[1..][..k] + s[1..][k + 1..]) == s[..k + 1] + s[k + 2..]
  {
    assert s[..k + 1] == [s[0]] + s[1..][..k];
    assert s[k + 2..] == s[1..][k + 1..];
  }

  lemma {:induction false} RemovedAt(s: seq<Path>, k: nat)
    requires k < |s|
    ensures multiset(s[..k] + s[k + 1..]) == multiset(s) - multiset{s[k]}
  {
    assert s == s[..k] + [s[k]] + s[k + 1..];
  }

  /** Inserting at the front and then removing the same entry gives `sys.path` back. */
  lemma {:induction false} InsertRemoveRestores(s: seq<Path>, x: Path)
    ensures RemoveFirst([x] + s, x) == s
  {
  }

  /** The environment of the first form: the `mkdtemp` result for each deploy target, and the importable names. */
  datatype OldEnv = OldEnv(temps: Path -> Path, importable: set<string>)

  /** Every object's flags, the objects whose `activated` is set, `sys.path`, the disk. */
  datatype OldState = OldState(flags: map<nat, OldFlags>, activated: set<nat>, sysPath: seq<Path>, fs: Fs)

  datatype OldStep = OldStep(outcome: Outcome, state: OldState)

  function OldFlagsOf(st: OldState, id: nat): OldFlags {
    if id in st.flags then st.flags[id] else Fresh
  }

  predicate Activated(st: OldState, id: nat) {
    id in st.activated
  }

  /** What `__call__` keeps: activation is never undone and `sys.path` only gains entries at the front. */
  ghost predicate Keeps(a: OldState, b: OldState) {
    && a.activated <= b.activated
    && IsSuffix(a.sysPath, b.sysPath)
  }

  lemma {:induction false} KeepsTrans(a: OldState, b: OldState, c: OldState)
    requires Keeps(a, b) && Keeps(b, c)
    ensures Keeps(a, c)
  {
    SuffixTrans(a.sysPath, b.sysPath, c.sysPath);
  }

  /** Objects newly activated from `a` to `b` all lie in `ids`. */
  predicate ActivatesWithin(a: OldState, b: OldState, ids: set<nat>) {
    b.activated <= a.activated + ids
  }

  /** `_ensure_available` of object `p`, its flags kept in the state. */
  function EnsureOwn(p: Package, st: OldState, env: OldEnv): (r: OldStep)
    ensures r.state.sysPath == st.sysPath
    ensures forall id :: id != p.id ==> OldFlagsOf(r.state, id) == OldFlagsOf(st, id)
    ensures r.state.activated == st.activated
    ensures Keeps(st, r.state)
  {
    var flags := OldFlagsOf(st, p.id);
    var e := EnsureAvailable(flags, p.desc, st.fs, env.temps(CachedPath(flags.cache, p.desc).0), p.source);
    var r := OldStep(e.outcome, st.(flags := st.flags[p.id := e.flags], fs := e.fs));
    assert r.state.sysPath[|r.state.sysPath| - |st.sysPath|..] == st.sysPath;
    r
  }

  /**
   * `PythonPackage.__call__`: nothing once activated; call every requirement;
   * ensure availability; insert the path at the front of `sys.path` (even if
   * it is already there); import, and on failure remove the entry again and
   * re-raise; mark activated. Any other resource raises NotImplementedError.
   */
  function Call(p: Package, st: OldState, env: OldEnv): (r: OldStep)
    ensures !p.python ==> r == OldStep(Fail(NotImplemented), st)
    ensures p.python && Activated(st, p.id) ==> r == OldStep(Ok, st)
    ensures Keeps(st, r.state)
    ensures ActivatesWithin(st, r.state, Ids(p))
    ensures r.outcome.Ok? ==> Activated(r.state, p.id)
    ensures r.outcome.Ok? && !Activated(st, p.id) ==>
      && (forall i :: 0 <= i < |p.requirements| ==> Activated(r.state, p.requirements[i].id))
      && OldFlagsOf(r.state, p.id).cache.Some?
      && r.state.sysPath != [] && r.state.sysPath[0] == OldFlagsOf(r.state, p.id).cache.value
    ensures p.python && !Activated(st, p.id) && NotSelfRequiring(p) && p.desc.name !in env.importable ==>
      r.outcome.Fail? && !Activated(r.state, p.id)
    decreases p, 1
  {
    if !p.python then OldStep(Fail(NotImplemented), st)
    else if Activated(st, p.id) then OldStep(Ok, st)
    else
      var reqs := CallRequirements(p, 0, st, env);
      if reqs.outcome.Fail? then reqs
      else
        var ensured := EnsureOwn(p, reqs.state, env);
        KeepsTrans(st, reqs.state, ensured.state);
        if ensured.outcome.Fail? then ensured
        else
          var s1 := ensured.state;
          var flags := OldFlagsOf(s1, p.id);
          var (path, cache) := CachedPath(flags.cache, p.desc);
          var s2 := s1.(flags := s1.flags[p.id := flags.(cache := cache)], sysPath := [path] + s1.sysPath);
          assert Keeps(s1, s2) by {
            assert s2.sysPath[|s2.sysPath| - |s1.sysPath|..] == s1.sysPath;
          }
          KeepsTrans(st, s1, s2);
          if p.desc.name !in env.importable then
            InsertRemoveRestores(s1.sysPath, path);
            var s3 := s2.(sysPath := RemoveFirst(s2.sysPath, path));
            assert s3.sysPath == s1.sysPath;
            KeepsTrans(st, s1, s3);
            OldStep(Fail(ImportFailed(p.desc.name)), s3)
          else
            var s3 := s2.(activated := s2.activated + {p.id});
            OldStep(Ok, s3)
  }

  /** The `[r() for r in self.requirements]` comprehension from position `i` on. */
  function CallRequirements(p: Package, i: nat, st: OldState, env: OldEnv): (r: OldStep)
    requires i <= |p.requirements|
    ensures Keeps(st, r.state)
    ensures ActivatesWithin(st, r.state, RequirementIds(p, i))
    ensures r.outcome.Ok? ==> forall j :: i <= j < |p.requirements| ==> Activated(r.state, p.requirements[j].id)
    decreases p, 0, |p.requirements| - i
  {
    if i == |p.requirements| then OldStep(Ok, st)
    else
      var first := CallRequirement(p.requirements[i], st, env);
      if first.outcome.Fail? then first
      else
        var rest := CallRequirements(p, i + 1, first.state, env);
        KeepsTrans(st, first.state, rest.state);
        assert RequirementIds(p, i) == Ids(p.requirements[i]) + RequirementIds(p, i + 1);
        assert Activated(first.state, p.requirements[i].id);
        assert Activated(rest.state, p.requirements[i].id);
        assert rest.outcome.Ok? ==> forall j :: i < j < |p.requirements| ==> Activated(rest.state, p.requirements[j].id);
        rest
  }

  /** One `r()` of the requirement comprehension. */
  function CallRequirement(q: Package, st: OldState, env: OldEnv): OldStep
    decreases q, 2
  {
    Call(q, st, env)
  }

  /**
   * A failed import leaves `sys.path` as the requirements left it: the entry
   * inserted for the package is removed again, and the package is not marked
   * activated. For a package without requirements that is `sys.path` exactly
   * as it was before the call.
   */
  lemma {:induction false} ImportFailureRestoresPath(p: Package, st: OldState, env: OldEnv)
    requires p.python && !Activated(st, p.id)
    requires p.desc.name !in env.importable
    ensures Call(p, st, env).outcome.Fail?
    ensures Call(p, st, env).state.sysPath == CallRequirements(p, 0, st, env).state.sysPath
    ensures p.requirements == [] ==> Call(p, st, env).state.sysPath == st.sysPath
    ensures NotSelfRequiring(p) ==> !Activated(Call(p, st, env).state, p.id)
  {
    if p.requirements == [] {
      assert NotSelfRequiring(p);
      assert CallRequirements(p, 0, st, env) == OldStep(Ok, st);
    }
  }

  /** Unlike `provide`, `__call__` inserts its path again even when it is already on `sys.path`. */
  lemma {:induction false} CallDuplicatesPath(p: Package, st: OldState, env: OldEnv)
    requires p.python && p.requirements == [] && !Activated(st, p.id)
    requires OldFlagsOf(st, p.id).initialized && OldFlagsOf(st, p.id).cache.Some?
    requires OldFlagsOf(st, p.id).cache.value in st.sysPath
    requires p.desc.name in env.importable
    ensures var r := Call(p, st, env);
      r.outcome.Ok? && r.state.sysPath == [OldFlagsOf(st, p.id).cache.value] + st.sysPath
      && !NoDuplicates(r.state.sysPath)
  {
    var x := OldFlagsOf(st, p.id).cache.value;
    assert CallRequirements(p, 0, st, env) == OldStep(Ok, st);
    assert p.id in st.flags && st.flags[p.id := st.flags[p.id]] == st.flags;
    assert EnsureOwn(p, st, env) == OldStep(Ok, st);
    var s := [x] + st.sysPath;
    assert s[0] == x && s[1..] == st.sysPath;
  }
}
