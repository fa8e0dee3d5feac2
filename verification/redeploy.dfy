/**
 * The redeploy prototype: versions listed straight from the cache directory,
 * `ensure_avaialble` marking the resource before extracting into the version
 * directory in place, and `WebPackage.activate` marking the package before
 * importing it.
 */
module Redeployment {

  import opened Common
  import opened Strings
  import opened FileSystem
  import opened TempNames
  import opened Archives
  import opened Resources

  /** A redeploy resource: its base directory (`.../redeploy/python` for a package), name, version, download and map. */
  datatype WebPackage = WebPackage(localBase: Path, name: string, version: string,
                                   archive: Result<Archive>, extraction: ExtractionMap)

  /** The class attributes `initialized` and `activated` once set on the instance. */
  datatype RFlags = RFlags(initialized: bool, activated: bool)

  /** `local_base / name`. */
  function NameDir(w: WebPackage): Path {
    Join(w.localBase, w.name)
  }

  /** `local_base / name / version`. */
  function VersionDir(w: WebPackage): (p: Path)
    ensures IsComponent(w.version) ==> p == NameDir(w) + [w.version]
  {
    if IsComponent(w.version) then
      JoinComponent(NameDir(w), w.version);
      Join(NameDir(w), w.version)
    else Join(NameDir(w), w.version)
  }

  /** `get_available_versions`: every entry of `local_base/name`, nothing when it is not a directory. */
  function GetAvailableVersions(fs: Fs, w: WebPackage): (r: set<string>)
    ensures !IsDir(fs, NameDir(w)) ==> r == {}
    ensures IsDir(fs, NameDir(w)) ==> forall v :: v in r <==> Exists(fs, NameDir(w) + [v])
  {
    if IsDir(fs, NameDir(w)) then Children(fs, NameDir(w)) else {}
  }

  /**
   * Without the `.temp` filter a staging directory in the name directory is
   * reported as a version, where the resource module ignores it.
   */
  lemma {:induction false} StagingListedHere(fs: Fs, w: WebPackage, d: Draw)
    requires IsDir(fs, NameDir(w)) && IsDir(fs, NameDir(w) + [TempName(d)])
    ensures TempName(d) in GetAvailableVersions(fs, w)
    ensures TempName(d) !in AvailableVersions(fs, NameDir(w) + [TempName(d)])
  {
    assert Parent(NameDir(w) + [TempName(d)]) == NameDir(w);
  }

  datatype Ensured = Ensured(outcome: Outcome, flags: RFlags, fs: Fs)

  /**
   * `ensure_avaialble`: nothing once initialized; assert a version; nothing
   * when the version is listed; otherwise set `initialized` and then run
   * `make_available`.
   */
  function EnsureAvailable(flags: RFlags, w: WebPackage, fs: Fs): (r: Ensured)
    ensures flags.initialized ==> r == Ensured(Ok, flags, fs)
    ensures !flags.initialized && w.version == "" ==> r == Ensured(Fail(AssertionFailed("Resource should be versioned")), flags, fs)
    ensures !flags.initialized && w.version != "" && w.version in GetAvailableVersions(fs, w) ==> r == Ensured(Ok, flags, fs)
    ensures !flags.initialized && w.version != "" && w.version !in GetAvailableVersions(fs, w) ==>
      r.flags == flags.(initialized := true)
      && Run(r.outcome, r.fs) == MakeAvailable(fs, VersionDir(w), w.archive, w.extraction)
  {
    if flags.initialized then Ensured(Ok, flags, fs)
    else if w.version == "" then Ensured(Fail(AssertionFailed("Resource should be versioned")), flags, fs)
    else if w.version in GetAvailableVersions(fs, w) then Ensured(Ok, flags, fs)
    else
      var run := MakeAvailable(fs, VersionDir(w), w.archive, w.extraction);
      Ensured(run.outcome, flags.(initialized := true), run.fs)
  }

  /** A failed `make_available` is never repeated: the next call returns at once. */
  lemma {:induction false} FailureNotRetried(flags: RFlags, w: WebPackage, fs: Fs, fs': Fs)
    requires EnsureAvailable(flags, w, fs).outcome.Fail? && w.version != ""
    ensures var r := EnsureAvailable(flags, w, fs);
      r.flags.initialized && EnsureAvailable(r.flags, w, fs') == Ensured(Ok, r.flags, fs')
  {
  }

  /**
   * After a successful `make_available` each file of the version directory
   * holds the last archive member mapped to it.
   */
  lemma {:induction false} EnsureAvailableContents(flags: RFlags, w: WebPackage, fs: Fs, a: Archive, i: nat, target: Path)
    requires !flags.initialized && w.version != "" && w.version !in GetAvailableVersions(fs, w)
    requires w.archive == Success(a) && EnsureAvailable(flags, w, fs).outcome.Ok?
    requires i < |a| && LastWriter(Redeploy, VersionDir(w), w.extraction, Names(a), i, target)
    ensures var out := EnsureAvailable(flags, w, fs).fs;
      target in out.files && out.files[target] == a[LastNamed(a, a[i].name).value].data
  {
    MakeAvailableContents(fs, VersionDir(w), a, w.extraction, i, target);
  }

  datatype Activation = Activation(outcome: Outcome, flags: RFlags, sysPath: seq<Path>, fs: Fs)

  /**
   * `WebPackage.activate`: nothing once activated; ensure availability; set
   * `activated`; put the version directory at the front of `sys.path`;
   * import.
   */
  function Activate(flags: RFlags, w: WebPackage, sysPath: seq<Path>, fs: Fs, importable: set<string>): (r: Activation)
    ensures flags.activated ==> r == Activation(Ok, flags, sysPath, fs)
    ensures !flags.activated ==>
      var e := EnsureAvailable(flags, w, fs);
      && (e.outcome.Fail? ==> r == Activation(e.outcome, e.flags, sysPath, e.fs))
      && (e.outcome.Ok? ==>
            && r.flags == e.flags.(activated := true)
            && r.sysPath == [VersionDir(w)] + sysPath
            && r.fs == e.fs
            && (r.outcome.Ok? <==> w.name in importable))
  {
    if flags.activated then Activation(Ok, flags, sysPath, fs)
    else
      var e := EnsureAvailable(flags, w, fs);
      if e.outcome.Fail? then Activation(e.outcome, e.flags, sysPath, e.fs)
      else
        var flags1 := e.flags.(activated := true);
        var path1 := [VersionDir(w)] + sysPath;
        if w.name in importable then Activation(Ok, flags1, path1, e.fs)
        else Activation(Fail(ImportFailed(w.name)), flags1, path1, e.fs)
  }

  /**
   * A failed import still leaves the package marked activated with its entry
   * on `sys.path`, so the next activation does nothing and reports success.
   */
  lemma {:induction false} ImportFailureSticks(flags: RFlags, w: WebPackage, sysPath: seq<Path>, fs: Fs, importable: set<string>,
                            importable': set<string>)
    requires !flags.activated && EnsureAvailable(flags, w, fs).outcome.Ok? && w.name !in importable
    ensures var r := Activate(flags, w, sysPath, fs, importable);
      && r.outcome == Fail(ImportFailed(w.name))
      && r.flags.activated
      && r.sysPath == [VersionDir(w)] + sysPath
      && Activate(r.flags, w, r.sysPath, r.fs, importable') == Activation(Ok, r.flags, r.sysPath, r.fs)
  {
  }
}
