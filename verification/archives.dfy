/**
 * Archive deployment: choosing an extractor by the archive's file name,
 * rewriting member names through the ordered extraction map, and writing the
 * selected members below a target directory. Three generations of this loop
 * are shipped and are modelled side by side as `Variant`s.
 */
module Archives {

  import opened Common
  import opened Strings
  import opened FileSystem
  import opened Extraction

  /** One archive member as the zip or tar library reports it. */
  datatype Member = Member(name: string, isDir: bool, data: Bytes)

  type Archive = seq<Member>

  datatype Extractor = ZipExtractor | TarExtractor

  /** The two patterns of `extractor_plugins`. */
  datatype Pattern =
    | ZipPattern   // r'.+\.(whl|zip)$'
    | TarPattern   // r'.+\.tar(.gz|.xz|.bz)?$'

  /** One entry of `archive_extraction`: a member-name prefix and its `path` value. */
  datatype Rule = Rule(key: string, path: string)

  /** `archive_extraction`, in dictionary order, placeholders already substituted. */
  type ExtractionMap = seq<Rule>

  /** The default `{'': {'path': ''}}`. */
  const DefaultMap: ExtractionMap := [Rule("", "")]

  /**
   * Which generation of the extraction loop runs:
   * `Current` is `ArchivedResource._deploy_to` of the resource module,
   * `Initial` the one of the package's first module,
   * `Redeploy` is `WebResource.make_available` of the redeploy package.
   * `Guarded` is `Current` with its destination assertion also rejecting a
   * `..` component: the corrected loop of the path-escape finding.
   */
  datatype Variant = Current | Initial | Redeploy | Guarded

  /** The loops that replace the matched key by the rule's path and assert on the result. */
  predicate Rewrites(variant: Variant) {
    variant == Current || variant == Guarded
  }

  // ---------------------------------------------------------------------------
  // Extractor choice

  /** What `$` sees: a single trailing newline may follow the match. */
  function RegexBody(s: string): (b: string)
    ensures StartsWith(s, b)
  {
    if |s| > 0 && s[|s| - 1] == '\n' then s[..|s| - 1] else s
  }

  /** `.+` matches a non-empty run without newlines. */
  predicate DotPlus(s: string) {
    |s| > 0 && '\n' !in s
  }

  /** `re.match(r'.+\.(whl|zip)$', s)`. */
  predicate MatchesZip(s: string) {
    var b := RegexBody(s);
    |b| >= 4 && (EndsWith(b, ".whl") || EndsWith(b, ".zip")) && DotPlus(b[..|b| - 4])
  }

  /** `re.match(r'.+\.tar(.gz|.xz|.bz)?$', s)`; the unescaped `.` matches any character but a newline. */
  predicate MatchesTar(s: string) {
    var b := RegexBody(s);
    || (|b| >= 4 && EndsWith(b, ".tar") && DotPlus(b[..|b| - 4]))
    || (&& |b| >= 7
        && (EndsWith(b, "gz") || EndsWith(b, "xz") || EndsWith(b, "bz"))
        && b[|b| - 3] != '\n'
        && EndsWith(b[..|b| - 3], ".tar")
        && DotPlus(b[..|b| - 7]))
  }

  predicate Matches(p: Pattern, s: string) {
    match p
    case ZipPattern => MatchesZip(s)
    case TarPattern => MatchesTar(s)
  }

  type Plugins = seq<(Pattern, Extractor)>

  /** `extractor_plugins` of the resource module. */
  const CurrentPlugins: Plugins := [(ZipPattern, ZipExtractor), (TarPattern, TarExtractor)]

  /** `extractor_plugins` of the package's first module: zip only. */
  const InitialPlugins: Plugins := [(ZipPattern, ZipExtractor)]

  /** The `for k, extractor_cls in extractor_plugins.items(): if re.match(k, name): break` search. */
  function ChooseExtractor(plugins: Plugins, name: string): (r: Option<Extractor>)
    ensures r.None? <==> forall i :: 0 <= i < |plugins| ==> !Matches(plugins[i].0, name)
    ensures r.Some? ==> exists i :: && 0 <= i < |plugins|
                                    && Matches(plugins[i].0, name) && plugins[i].1 == r.value
                                    && forall j :: 0 <= j < i ==> !Matches(plugins[j].0, name)
  {
    if plugins == [] then None
    else if Matches(plugins[0].0, name) then Some(plugins[0].1)
    else
      var r := ChooseExtractor(plugins[1..], name);
      assert forall i :: 0 < i < |plugins| ==> plugins[i] == plugins[1..][i - 1];
      r
  }

  /** Any name ending in `.zip` or `.whl` after at least one character selects the zip extractor. */
  lemma {:induction false} ZipNamesChooseZip(name: string)
    requires |name| > 4 && '\n' !in name
    requires EndsWith(name, ".zip") || EndsWith(name, ".whl")
    ensures ChooseExtractor(CurrentPlugins, name) == Some(ZipExtractor)
    ensures ChooseExtractor(InitialPlugins, name) == Some(ZipExtractor)
  {
    assert RegexBody(name) == name;
    assert name == name[..|name| - 4] + name[|name| - 4..];
  }

  /**
   * Any gzip-compressed tarball name, such as the `glue-0.13.tar.gz` source
   * releases, selects the tar extractor; the first module has none for it.
   */
  lemma {:induction false} TarGzChoosesTar(name: string)
    requires |name| > 7 && '\n' !in name && EndsWith(name, ".tar.gz")
    ensures ChooseExtractor(CurrentPlugins, name) == Some(TarExtractor)
    ensures ChooseExtractor(InitialPlugins, name) == None
  {
    var n := |name|;
    assert RegexBody(name) == name;
    assert name[n - 7..] == ".tar.gz";
    assert name[n - 1] == 'z' && name[n - 2] == 'g' && name[n - 3] == '.';
    assert !EndsWith(name, ".zip") && !EndsWith(name, ".whl") by {
      assert ".zip"[3] == 'p' && ".whl"[3] == 'l';
    }
    assert EndsWith(name, "gz") by {
      assert name[n - 2..] == "gz";
    }
    assert EndsWith(name[..n - 3], ".tar") by {
      assert name[..n - 3][n - 7..] == ".tar";
    }
    assert DotPlus(name[..n - 7]);
    assert MatchesTar(name);
  }

  /** `$` also matches before one final newline. */
  lemma {:induction false} TrailingNewlineChoosesZip()
    ensures ChooseExtractor(CurrentPlugins, "a.zip\n") == Some(ZipExtractor)
  {
    assert RegexBody("a.zip\n") == "a.zip";
    assert EndsWith("a.zip", ".zip");
    assert "a.zip"[..1] == "a";
  }

  /** `.bz` ends the optional group, so a `.tar.bz2` archive has no extractor. */
  lemma {:induction false} TarBz2HasNoExtractor()
    ensures ChooseExtractor(CurrentPlugins, "data.tar.bz2") == None
  {
    var b := "data.tar.bz2";
    assert RegexBody(b) == b;
    assert !EndsWith(b, ".zip") && !EndsWith(b, ".whl");
    assert !EndsWith(b, ".tar");
    assert !EndsWith(b, "bz") && !EndsWith(b, "gz") && !EndsWith(b, "xz");
  }

  // ---------------------------------------------------------------------------
  // Member listing and reading

  function Names(archive: Archive): (r: seq<string>)
    ensures |r| == |archive| && forall i :: 0 <= i < |r| ==> r[i] == archive[i].name
  {
    if archive == [] then [] else [archive[0].name] + Names(archive[1..])
  }

  /** `get_file_list` of the chosen extractor in the given generation. */
  function FileList(variant: Variant, kind: Extractor, archive: Archive): Result<seq<string>> {
    if !Rewrites(variant) then Success(Names(archive))
    else match kind
      case ZipExtractor => ZipFileList(Names(archive))
      case TarExtractor => Success(Pruned(Names(archive)))
  }

  /** Position of the last member called `name`: both libraries index members by name, later ones winning. */
  function LastNamed(archive: Archive, name: string): (r: Option<nat>)
    ensures r.Some? ==> r.value < |archive| && archive[r.value].name == name
    ensures r.Some? ==> forall j :: r.value < j < |archive| ==> archive[j].name != name
    ensures r.None? ==> forall j :: 0 <= j < |archive| ==> archive[j].name != name
  {
    if archive == [] then None
    else if archive[|archive| - 1].name == name then Some(|archive| - 1)
    else LastNamed(archive[..|archive| - 1], name)
  }

  /**
   * `get_bytes(name)`: `zipfile.read` returns the member's bytes (empty for a
   * folder entry); `tarfile.extractfile` returns None for a directory, so the
   * following `.read()` raises AttributeError.
   */
  function ReadMember(kind: Extractor, archive: Archive, name: string): (r: Result<Bytes>)
    ensures r.Failure? <==> LastNamed(archive, name).None? || (kind == TarExtractor && archive[LastNamed(archive, name).value].isDir)
    ensures r.Success? ==> r.value == archive[LastNamed(archive, name).value].data
  {
    match LastNamed(archive, name)
    case None => Failure(KeyError(name))
    case Some(i) =>
      if kind == TarExtractor && archive[i].isDir then Failure(AttributeError("'NoneType' object has no attribute 'read'"))
      else Success(archive[i].data)
  }

  // ---------------------------------------------------------------------------
  // The extraction map

  /** Index of the first rule, in map order, whose key the file name starts with. */
  function FirstMatch(m: ExtractionMap, filename: string): (r: Option<nat>)
    ensures r.Some? ==> r.value < |m| && StartsWith(filename, m[r.value].key)
    ensures r.Some? ==> forall j :: 0 <= j < r.value ==> !StartsWith(filename, m[j].key)
    ensures r.None? ==> forall j :: 0 <= j < |m| ==> !StartsWith(filename, m[j].key)
  {
    if m == [] then None
    else if StartsWith(filename, m[0].key) then Some(0)
    else match FirstMatch(m[1..], filename)
      case None => None
      case Some(i) => Some(i + 1)
  }

  /** The destination string of the current loop: the rule's `path` replaces the matched prefix. */
  function MapDestination(m: ExtractionMap, filename: string): Option<string> {
    match FirstMatch(m, filename)
    case None => None
    case Some(i) => Some(m[i].path + filename[|m[i].key|..])
  }

  /**
   * Where the member `filename` is written below `root`, if anywhere.
   * Current: `root / (v['path'] + filename[len(k):])` after asserting that the
   * destination is non-empty and does not start with `/`.
   * Guarded: the same, the assertion also rejecting a `..` component.
   * Initial and Redeploy: `root / v['path'] / filename`, the whole name kept.
   */
  function Destination(variant: Variant, root: Path, m: ExtractionMap, filename: string): (r: Result<Option<Path>>)
    ensures r.Success? && r.value.None? <==> FirstMatch(m, filename).None?
    ensures r.Failure? ==> Rewrites(variant) && r.error.AssertionFailed?
    ensures FirstMatch(m, filename).Some? ==>
      var i := FirstMatch(m, filename).value;
      var dest := m[i].path + filename[|m[i].key|..];
      && (Rewrites(variant) ==>
            (r.Failure? <==> dest == "" || dest[0] == '/' || (variant == Guarded && ".." in Components(dest))))
      && (Rewrites(variant) && r.Success? ==> r.value == Some(root + Components(dest)))
      && (!Rewrites(variant) ==> r == Success(Some(Join(Join(root, m[i].path), filename))))
    ensures variant == Guarded && r.Success? && r.value.Some? ==> Inside(root, r.value.value)
  {
    match FirstMatch(m, filename)
    case None => Success(None)
    case Some(i) =>
      if Rewrites(variant) then
        var dest := m[i].path + filename[|m[i].key|..];
        if dest == "" || dest[0] == '/' then Failure(AssertionFailed("dest_path and dest_path[0] != '/'"))
        else if variant == Guarded && ".." in Components(dest) then Failure(AssertionFailed("'..' not in dest_path"))
        else
          assert (root + Components(dest))[|root|..] == Components(dest);
          Success(Some(Join(root, dest)))
      else Success(Some(Join(Join(root, m[i].path), filename)))
  }

  /** The default map writes every member at its own name. */
  lemma {:induction false} DefaultMapIdentity(filename: string)
    ensures MapDestination(DefaultMap, filename) == Some(filename)
  {
    assert DefaultMap[0] == Rule("", "");
    assert StartsWith(filename, DefaultMap[0].key);
    assert FirstMatch(DefaultMap, filename) == Some(0);
    assert "" + filename[0..] == filename;
  }

  /** The catalogued ffmpeg map picks the `bin/` folder and flattens it; other members are skipped. */
  lemma {:induction false} FfmpegMapExample()
    ensures var m := [Rule("ffmpeg-5.1.2-essentials_build/bin/", "")];
      && MapDestination(m, "ffmpeg-5.1.2-essentials_build/bin/ffmpeg.exe") == Some("ffmpeg.exe")
      && MapDestination(m, "ffmpeg-5.1.2-essentials_build/README.txt") == None
  {
    var m := [Rule("ffmpeg-5.1.2-essentials_build/bin/", "")];
    var k := "ffmpeg-5.1.2-essentials_build/bin/";
    var f := "ffmpeg-5.1.2-essentials_build/bin/ffmpeg.exe";
    assert f[..|k|] == k;
    assert FirstMatch(m, f) == Some(0);
    assert f[|k|..] == "ffmpeg.exe";
    assert "" + "ffmpeg.exe" == "ffmpeg.exe";
    var g := "ffmpeg-5.1.2-essentials_build/README.txt";
    assert g[30] != k[30];
    assert !StartsWith(g, k);
    assert FirstMatch(m, g) == None;
  }

  /** Keys are matched at the start of the name only: `bin/` does not select `pkg/bin/tool.exe`. */
  lemma {:induction false} PrefixOnlyExample()
    ensures MapDestination([Rule("bin/", "")], "pkg/bin/tool.exe") == None
  {
    assert "pkg/bin/tool.exe"[0] != "bin/"[0];
  }

  /** The current assertion rejects only a leading `/`; a `..` component passes it, and the guarded one rejects it. */
  lemma {:induction false} DotDotPassesAssertion(root: Path)
    ensures Destination(Current, root, DefaultMap, "../x") == Success(Some(root + ["..", "x"]))
    ensures Destination(Guarded, root, DefaultMap, "../x").Failure?
  {
    var d := "../x";
    DefaultMapIdentity(d);
    assert FirstMatch(DefaultMap, d) == Some(0);
    assert DefaultMap[0].path + d[|DefaultMap[0].key|..] == d;
    assert d[0] != '/';
    assert d == ".." + "/" + "x";
    ComponentsCons("..", "x");
    ComponentsSingle("x");
    assert Components(d) == ["..", "x"];
    assert Join(root, d) == root + ["..", "x"];
  }

  /**
   * The generations disagree on where a selected member goes: for the rule
   * `{dir + '/': {'path': ''}}` the current loop drops the matched key, the
   * earlier ones keep the whole member name.
   */
  lemma {:induction false} LayoutDiffers(root: Path, dir: string, name: string)
    requires IsComponent(dir) && IsComponent(name)
    ensures Destination(Current, root, [Rule(dir + "/", "")], dir + "/" + name) == Success(Some(root + [name]))
    ensures Destination(Initial, root, [Rule(dir + "/", "")], dir + "/" + name) == Success(Some(root + [dir, name]))
    ensures Destination(Redeploy, root, [Rule(dir + "/", "")], dir + "/" + name) == Success(Some(root + [dir, name]))
  {
    var m := [Rule(dir + "/", "")];
    var f := dir + "/" + name;
    assert f[..|dir + "/"|] == dir + "/";
    assert FirstMatch(m, f) == Some(0);
    assert "" + f[|dir + "/"|..] == name;
    ComponentsSingle(name);
    JoinEmpty(root);
    ComponentsPair(dir, name);
  }

  // ---------------------------------------------------------------------------
  // Writing one member, and the loop over the listing

  /**
   * Writing one selected member at `target`, after creating its parent.
   * Current opens the file (truncating it) before reading the member;
   * Initial reads first and writes with `write_bytes`;
   * Redeploy unlinks an existing file, then reads and writes.
   */
  function WriteMember(variant: Variant, fs: Fs, target: Path, kind: Extractor, archive: Archive, name: string): (r: Run)
    ensures r.outcome.Ok? ==> ReadMember(kind, archive, name).Success?
    ensures r.outcome.Ok? ==> r.fs.files == fs.files[target := ReadMember(kind, archive, name).value]
    ensures fs.dirs <= r.fs.dirs
    ensures forall q :: q in r.fs.dirs && q !in fs.dirs ==> IsPrefix(q, Parent(target))
    ensures forall q :: q != target ==> (q in r.fs.files <==> q in fs.files)
    ensures forall q :: q != target && q in fs.files ==> r.fs.files[q] == fs.files[q]
  {
    match EnsureParent(fs, target)
    case Failure(e) => Run(Fail(e), fs)
    case Success(fs1) =>
      match variant
      case Current | Guarded =>
        (match WriteFile(fs1, target, [])
         case Failure(e) => Run(Fail(e), fs1)
         case Success(fs2) =>
           match ReadMember(kind, archive, name)
           case Failure(e) => Run(Fail(e), fs2)
           case Success(data) => Run(Ok, fs2.(files := fs2.files[target := data])))
      case Initial =>
        (match ReadMember(kind, archive, name)
         case Failure(e) => Run(Fail(e), fs1)
         case Success(data) =>
           match WriteFile(fs1, target, data)
           case Failure(e) => Run(Fail(e), fs1)
           case Success(fs2) => Run(Ok, fs2))
      case Redeploy =>
        var fs2 := if IsFile(fs1, target) then Unlink(fs1, target).value else fs1;
        assert fs2.dirs == fs1.dirs;
        (match ReadMember(kind, archive, name)
         case Failure(e) => Run(Fail(e), fs2)
         case Success(data) =>
           match WriteFile(fs2, target, data)
           case Failure(e) => Run(Fail(e), fs2)
           case Success(fs3) => Run(Ok, fs3))
  }

  /** The `for filename in get_file_list()` loop: skip unmatched members, write the others in order. */
  function ExtractAll(variant: Variant, fs: Fs, root: Path, kind: Extractor, archive: Archive,
                      m: ExtractionMap, files: seq<string>): (r: Run)
    ensures fs.dirs <= r.fs.dirs
    decreases |files|
  {
    if files == [] then Run(Ok, fs)
    else match Destination(variant, root, m, files[0])
      case Failure(e) => Run(Fail(e), fs)
      case Success(None) => ExtractAll(variant, fs, root, kind, archive, m, files[1..])
      case Success(Some(target)) =>
        var w := WriteMember(variant, fs, target, kind, archive, files[0]);
        if w.outcome.Fail? then w
        else ExtractAll(variant, w.fs, root, kind, archive, m, files[1..])
  }

  /** No listed member is mapped to a destination with a `..` component. */
  predicate NoClimb(m: ExtractionMap, names: seq<string>) {
    forall name :: name in names && MapDestination(m, name).Some? ==> ".." !in Components(MapDestination(m, name).value)
  }

  /** A destination the current loop accepts, free of `..`, lies inside `root`. */
  lemma {:induction false} AcceptedInside(variant: Variant, root: Path, m: ExtractionMap, filename: string, target: Path)
    requires Rewrites(variant) && Destination(variant, root, m, filename) == Success(Some(target))
    requires variant == Guarded || NoClimb(m, [filename])
    ensures Inside(root, target)
  {
    if variant == Current {
      var i := FirstMatch(m, filename).value;
      var dest := m[i].path + filename[|m[i].key|..];
      assert filename in [filename] && MapDestination(m, filename) == Some(dest);
      assert target[|root|..] == Components(dest);
    }
  }

  /**
   * The current loop adds directories only below `root` or on the way to it
   * and changes no file outside `root`, with `..` read as a plain name. When
   * no destination has a `..` component, as the guarded loop ensures, the
   * same holds of the paths the operating system resolves.
   */
  lemma {:induction false} ExtractAllConfined(variant: Variant, fs: Fs, root: Path, kind: Extractor, archive: Archive,
                                              m: ExtractionMap, files: seq<string>)
    requires Rewrites(variant)
    ensures Confined(fs, ExtractAll(variant, fs, root, kind, archive, m, files).fs, root)
    ensures variant == Guarded || NoClimb(m, files) ==>
      ConfinedInside(fs, ExtractAll(variant, fs, root, kind, archive, m, files).fs, root)
    decreases |files|
  {
    if files != [] {
      var inside := variant == Guarded || NoClimb(m, files);
      var rest := files[1..];
      assert forall x :: x in rest ==> x in files;
      assert NoClimb(m, files) ==> NoClimb(m, rest) && NoClimb(m, [files[0]]);
      match Destination(variant, root, m, files[0])
      case Failure(_) =>
      case Success(None) =>
        ExtractAllConfined(variant, fs, root, kind, archive, m, rest);
      case Success(Some(target)) =>
        var w := WriteMember(variant, fs, target, kind, archive, files[0]);
        assert IsPrefix(root, target);
        forall q | q in w.fs.dirs && q !in fs.dirs
          ensures IsPrefix(root, q) || IsPrefix(q, root)
        {
          PrefixOfBelow(root, target, q);
        }
        assert Confined(fs, w.fs, root);
        if inside {
          AcceptedInside(variant, root, m, files[0], target);
          forall q | q in w.fs.dirs && q !in fs.dirs
            ensures Inside(root, q) || IsPrefix(q, root)
          {
            PrefixOfInside(root, target, q);
          }
          assert ConfinedInside(fs, w.fs, root);
        }
        if w.outcome.Ok? {
          var out := ExtractAll(variant, w.fs, root, kind, archive, m, rest).fs;
          ExtractAllConfined(variant, w.fs, root, kind, archive, m, rest);
          ConfinedTrans(fs, w.fs, out, root);
          if inside {
            ConfinedInsideTrans(fs, w.fs, out, root);
          }
        }
    }
  }

  /** `root/../x` resolves to `x` beside `root`, outside it. */
  lemma {:induction false} ParentStepResolves(root: Path)
    requires root != [] && ".." !in root && root[|root| - 1] != "x"
    ensures Resolve(root) == root
    ensures Resolve(root + ["..", "x"]) == Parent(root) + ["x"]
    ensures !IsPrefix(root, Parent(root) + ["x"])
  {
    ResolveAppend([], root);
    assert [] + root == root;
    var target := root + ["..", "x"];
    assert target[..|target| - 1] == root + [".."];
    assert (root + [".."])[..|root|] == root;
    assert Resolve(root + [".."]) == Parent(root);
    assert (Parent(root) + ["x"])[|root| - 1] == "x";
  }

  /** The current loop writes the member `../x` at `root/../x`, creating `root/..` on the way. */
  lemma {:induction false} DotDotWritten(root: Path, data: Bytes)
    requires root != []
    ensures var a := [Member("../x", false, data)];
      ExtractAll(Current, Fs({root}, map[]), root, ZipExtractor, a, DefaultMap, ["../x"])
        == Run(Ok, Fs({root, root + [".."]}, map[root + ["..", "x"] := data]))
  {
    var a := [Member("../x", false, data)];
    var fs := Fs({root}, map[]);
    var target := root + ["..", "x"];
    DotDotPassesAssertion(root);
    assert Parent(target) == root + [".."] && Parent(root + [".."]) == root;
    assert root + [".."] != root && target != root + [".."];
    assert LastNamed(a, "../x") == Some(0);
    assert ["../x"][1..] == [];
  }

  /**
   * A member named `../x` under the default map passes the current assertion
   * and is written at `root/../x`, which the operating system resolves to a
   * sibling of `root`, outside it; the guarded loop refuses the member.
   */
  lemma {:induction false} DotDotEscapes(root: Path, data: Bytes)
    requires root != [] && ".." !in root && root[|root| - 1] != "x"
    ensures var a := [Member("../x", false, data)];
      var fs := Fs({root}, map[]);
      var target := root + ["..", "x"];
      var out := ExtractAll(Current, fs, root, ZipExtractor, a, DefaultMap, ["../x"]);
      && out.outcome.Ok? && target in out.fs.files && out.fs.files[target] == data
      && !IsPrefix(Resolve(root), Resolve(target))
      && ExtractAll(Guarded, fs, root, ZipExtractor, a, DefaultMap, ["../x"]).outcome.Fail?
  {
    DotDotWritten(root, data);
    ParentStepResolves(root);
    DotDotPassesAssertion(root);
  }

  /** `files[i]` is the last listed member written to `target`. */
  predicate LastWriter(variant: Variant, root: Path, m: ExtractionMap, files: seq<string>, i: nat, target: Path)
    requires i < |files|
  {
    && Destination(variant, root, m, files[i]) == Success(Some(target))
    && forall j :: i < j < |files| ==> Destination(variant, root, m, files[j]) != Success(Some(target))
  }

  /** Unfolding one step of the loop when the first listed member is written. */
  lemma {:induction false} ExtractAllWrites(variant: Variant, fs: Fs, root: Path, kind: Extractor, archive: Archive,
                         m: ExtractionMap, files: seq<string>, t0: Path)
    requires files != [] && Destination(variant, root, m, files[0]) == Success(Some(t0))
    requires ExtractAll(variant, fs, root, kind, archive, m, files).outcome.Ok?
    ensures var w := WriteMember(variant, fs, t0, kind, archive, files[0]);
      && w.outcome.Ok?
      && ExtractAll(variant, fs, root, kind, archive, m, files) == ExtractAll(variant, w.fs, root, kind, archive, m, files[1..])
  {
  }

  /** Dropping the first listed member keeps the last writer of `target`, one position earlier. */
  lemma {:induction false} LastWriterTail(variant: Variant, root: Path, m: ExtractionMap, files: seq<string>,
                                          i: nat, target: Path)
    requires 0 < i < |files| && LastWriter(variant, root, m, files, i, target)
    ensures LastWriter(variant, root, m, files[1..], i - 1, target)
  {
    var rest := files[1..];
    assert rest[i - 1] == files[i];
    forall j | i - 1 < j < |rest|
      ensures Destination(variant, root, m, rest[j]) != Success(Some(target))
    {
      assert rest[j] == files[j + 1];
    }
  }

  /** No member listed after the last writer is mapped to `target`. */
  lemma {:induction false} LastWriterFirst(variant: Variant, root: Path, m: ExtractionMap, files: seq<string>,
                                           target: Path)
    requires files != [] && LastWriter(variant, root, m, files, 0, target)
    ensures forall j :: 0 <= j < |files[1..]| ==> Destination(variant, root, m, files[1..][j]) != Success(Some(target))
  {
    forall j | 0 <= j < |files[1..]|
      ensures Destination(variant, root, m, files[1..][j]) != Success(Some(target))
    {
      assert files[1..][j] == files[j + 1];
    }
  }

  /**
   * After a complete extraction, each destination holds the bytes of the last
   * listed member mapped to it.
   */
  lemma {:induction false} ExtractAllContents(variant: Variant, fs: Fs, root: Path, kind: Extractor,
                                              archive: Archive, m: ExtractionMap, files: seq<string>,
                                              i: nat, target: Path)
    requires ExtractAll(variant, fs, root, kind, archive, m, files).outcome.Ok?
    requires i < |files| && LastWriter(variant, root, m, files, i, target)
    ensures var out := ExtractAll(variant, fs, root, kind, archive, m, files).fs;
      target in out.files && ReadMember(kind, archive, files[i]) == Success(out.files[target])
    decreases |files|
  {
    var rest := files[1..];
    match Destination(variant, root, m, files[0])
    case Success(None) =>
      assert ExtractAll(variant, fs, root, kind, archive, m, files) == ExtractAll(variant, fs, root, kind, archive, m, rest);
      LastWriterTail(variant, root, m, files, i, target);
      ExtractAllContents(variant, fs, root, kind, archive, m, rest, i - 1, target);
      assert rest[i - 1] == files[i];
    case Success(Some(t0)) =>
      var w := WriteMember(variant, fs, t0, kind, archive, files[0]);
      ExtractAllWrites(variant, fs, root, kind, archive, m, files, t0);
      if i > 0 {
        LastWriterTail(variant, root, m, files, i, target);
        ExtractAllContents(variant, w.fs, root, kind, archive, m, rest, i - 1, target);
        assert rest[i - 1] == files[i];
      } else {
        LastWriterFirst(variant, root, m, files, target);
        ExtractAllUntouched(variant, w.fs, root, kind, archive, m, rest, target);
      }
  }

  /** A file no listed member is mapped to keeps its presence and contents. */
  lemma {:induction false} ExtractAllUntouched(variant: Variant, fs: Fs, root: Path, kind: Extractor,
                                               archive: Archive, m: ExtractionMap, files: seq<string>, q: Path)
    requires forall i :: 0 <= i < |files| ==> Destination(variant, root, m, files[i]) != Success(Some(q))
    ensures var out := ExtractAll(variant, fs, root, kind, archive, m, files).fs;
      (q in out.files <==> q in fs.files) && (q in fs.files ==> out.files[q] == fs.files[q])
    decreases |files|
  {
    if files != [] {
      var rest := files[1..];
      assert forall j :: 0 <= j < |rest| ==> rest[j] == files[j + 1];
      match Destination(variant, root, m, files[0])
      case Failure(_) =>
      case Success(None) =>
        ExtractAllUntouched(variant, fs, root, kind, archive, m, rest, q);
      case Success(Some(t0)) =>
        var w := WriteMember(variant, fs, t0, kind, archive, files[0]);
        if w.outcome.Ok? {
          ExtractAllUntouched(variant, w.fs, root, kind, archive, m, rest, q);
        }
    }
  }

  /** Every file the loop creates is the destination of some listed member. */
  lemma {:induction false} ExtractAllNewFiles(variant: Variant, fs: Fs, root: Path, kind: Extractor,
                           archive: Archive, m: ExtractionMap, files: seq<string>, q: Path)
    requires q in ExtractAll(variant, fs, root, kind, archive, m, files).fs.files && q !in fs.files
    ensures exists i :: 0 <= i < |files| && Destination(variant, root, m, files[i]) == Success(Some(q))
  {
    if forall i :: 0 <= i < |files| ==> Destination(variant, root, m, files[i]) != Success(Some(q)) {
      ExtractAllUntouched(variant, fs, root, kind, archive, m, files, q);
      assert false;
    }
  }

  // ---------------------------------------------------------------------------
  // `_deploy_to` and `make_available`

  /** What the environment supplies for one deployment: the archive's name, its download, and the map. */
  datatype Source = Source(archiveName: Result<string>, archive: Result<Archive>, extraction: ExtractionMap)

  function PluginsOf(variant: Variant): Plugins {
    if Rewrites(variant) then CurrentPlugins else InitialPlugins
  }

  /** No member of the downloaded archive is mapped to a destination with a `..` component. */
  predicate SourceNoClimb(src: Source) {
    src.archive.Success? ==> NoClimb(src.extraction, Names(src.archive.value))
  }

  /**
   * `ArchivedResource._deploy_to(root)`: assert a non-empty archive name,
   * choose the extractor, download and open the archive, list its members and
   * extract them below `root`.
   */
  function DeployTo(variant: Variant, fs: Fs, root: Path, src: Source): (r: Run)
    ensures r.outcome.Ok? ==> src.archiveName.Success? && src.archiveName.value != ""
    ensures r.outcome.Ok? ==> ChooseExtractor(PluginsOf(variant), src.archiveName.value).Some?
    ensures r.outcome.Ok? ==> src.archive.Success?
    ensures fs.dirs <= r.fs.dirs
  {
    match src.archiveName
    case Failure(e) => Run(Fail(e), fs)
    case Success(name) =>
      if name == "" then Run(Fail(AssertionFailed("Property *archive_name* should be defined")), fs)
      else match ChooseExtractor(PluginsOf(variant), name)
        case None => Run(Fail(NoExtractor(name)), fs)
        case Some(kind) =>
          match src.archive
          case Failure(e) => Run(Fail(e), fs)
          case Success(archive) =>
            match FileList(variant, kind, archive)
            case Failure(e) => Run(Fail(e), fs)
            case Success(files) => ExtractAll(variant, fs, root, kind, archive, src.extraction, files)
  }

  /**
   * The current `_deploy_to` only writes inside its target directory and on
   * the way to it, with `..` read as a plain name; on the resolved paths too
   * when no member is mapped through `..`, as the guarded loop ensures.
   */
  lemma {:induction false} DeployToConfined(variant: Variant, fs: Fs, root: Path, src: Source)
    requires Rewrites(variant)
    ensures Confined(fs, DeployTo(variant, fs, root, src).fs, root)
    ensures variant == Guarded || SourceNoClimb(src) ==> ConfinedInside(fs, DeployTo(variant, fs, root, src).fs, root)
  {
    if src.archiveName.Success? && src.archiveName.value != "" {
      match ChooseExtractor(CurrentPlugins, src.archiveName.value)
      case None =>
      case Some(kind) =>
        if src.archive.Success? {
          var a := src.archive.value;
          var files := FileList(variant, kind, a);
          if files.Success? {
            if kind == TarExtractor {
              PrunedMembers(Names(a));
            }
            assert forall x :: x in files.value ==> x in Names(a);
            ExtractAllConfined(variant, fs, root, kind, a, src.extraction, files.value);
          }
        }
    }
  }

  /**
   * `WebResource.make_available` of the redeploy package: every zip member,
   * folders included, is written to `base/name/version/v['path']/filename`,
   * replacing an existing file; there is no staging directory.
   */
  function MakeAvailable(fs: Fs, versionDir: Path, archive: Result<Archive>, m: ExtractionMap): (r: Run)
    ensures archive.Failure? ==> r == Run(Fail(archive.error), fs)
  {
    match archive
    case Failure(e) => Run(Fail(e), fs)
    case Success(a) => ExtractAll(Redeploy, fs, versionDir, ZipExtractor, a, m, Names(a))
  }

  /** A completed `make_available` leaves each written file equal to the last archive member mapped to it. */
  lemma {:induction false} MakeAvailableContents(fs: Fs, versionDir: Path, a: Archive, m: ExtractionMap, i: nat, target: Path)
    requires MakeAvailable(fs, versionDir, Success(a), m).outcome.Ok?
    requires i < |a| && LastWriter(Redeploy, versionDir, m, Names(a), i, target)
    ensures var out := MakeAvailable(fs, versionDir, Success(a), m).fs;
      target in out.files && out.files[target] == a[LastNamed(a, a[i].name).value].data
  {
    var out := ExtractAll(Redeploy, fs, versionDir, ZipExtractor, a, m, Names(a));
    assert MakeAvailable(fs, versionDir, Success(a), m) == out;
    ExtractAllContents(Redeploy, fs, versionDir, ZipExtractor, a, m, Names(a), i, target);
    assert Names(a)[i] == a[i].name;
    var r := ReadMember(ZipExtractor, a, a[i].name);
    assert r == Success(out.fs.files[target]);
    assert r.value == a[LastNamed(a, a[i].name).value].data;
  }

  /** Under the default map the earlier loops write `dir/` at `root/dir` and `dir/name` below it. */
  lemma {:induction false} FolderEntryTarget(root: Path, dir: string, name: string)
    requires IsComponent(dir) && IsComponent(name)
    ensures Destination(Initial, root, DefaultMap, dir + "/") == Success(Some(root + [dir]))
    ensures Destination(Initial, root, DefaultMap, dir + "/" + name) == Success(Some(root + [dir, name]))
  {
    assert FirstMatch(DefaultMap, dir + "/") == Some(0);
    assert FirstMatch(DefaultMap, dir + "/" + name) == Some(0);
    JoinEmpty(root);
    assert dir + "/" == dir + "/" + "";
    ComponentsCons(dir, "");
    assert FirstIndexOf("", '/') == None;
    assert Components("") == [];
    assert Components(dir + "/") == [dir];
    assert (dir + "/")[0] == dir[0] != '/';
    assert Join(root, dir + "/") == root + [dir];
    ComponentsPair(dir, name);
  }

  /** The folder entry `dir/` is written as an empty file at `root/dir`. */
  lemma {:induction false} FolderEntryWritten(root: Path, dir: string, a: Archive)
    requires IsComponent(dir) && a != [] && a[0] == Member(dir + "/", true, [])
    requires forall j :: 0 < j < |a| ==> a[j].name != dir + "/"
    ensures WriteMember(Initial, Fs({root}, map[]), root + [dir], ZipExtractor, a, dir + "/")
      == Run(Ok, Fs({root}, map[root + [dir] := []]))
  {
    assert LastNamed(a, dir + "/") == Some(0);
    assert Parent(root + [dir]) == root;
    assert root + [dir] != root;
  }

  /** With `root/dir` a file, writing `dir/name` fails when its parent is created. */
  lemma {:induction false} NestedEntryFails(root: Path, dir: string, name: string, a: Archive)
    requires IsComponent(dir) && IsComponent(name)
    ensures ExtractAll(Initial, Fs({root}, map[root + [dir] := []]), root, ZipExtractor, a, DefaultMap, [dir + "/" + name]).outcome
      == Fail(FileExists(root + [dir]))
  {
    var fs := Fs({root}, map[root + [dir] := []]);
    FolderEntryTarget(root, dir, name);
    assert Parent(root + [dir, name]) == root + [dir];
    assert root + [dir] != root;
    assert IsFile(fs, root + [dir]) && !IsDir(fs, root + [dir]);
    assert EnsureParent(fs, root + [dir, name]) == Failure(FileExists(root + [dir]));
  }

  /**
   * Writing every entry, folders included, breaks on the first archive with an
   * explicit folder entry: `dir/` becomes an empty file, so the parent of
   * `dir/name` cannot be created.
   */
  lemma {:induction false} FolderEntryBreaksFullListing(root: Path, dir: string, name: string, data: Bytes)
    requires IsComponent(dir) && IsComponent(name)
    ensures var a := [Member(dir + "/", true, []), Member(dir + "/" + name, false, data)];
      ExtractAll(Initial, Fs({root}, map[]), root, ZipExtractor, a, DefaultMap, Names(a)).outcome
        == Fail(FileExists(root + [dir]))
  {
    var a := [Member(dir + "/", true, []), Member(dir + "/" + name, false, data)];
    var fs := Fs({root}, map[]);
    var files := Names(a);
    assert files == [dir + "/", dir + "/" + name];
    assert |dir + "/"| < |dir + "/" + name|;
    FolderEntryTarget(root, dir, name);
    FolderEntryWritten(root, dir, a);
    var w := WriteMember(Initial, fs, root + [dir], ZipExtractor, a, dir + "/");
    assert files[1..] == [dir + "/" + name];
    assert ExtractAll(Initial, fs, root, ZipExtractor, a, DefaultMap, files)
        == ExtractAll(Initial, w.fs, root, ZipExtractor, a, DefaultMap, [dir + "/" + name]);
    NestedEntryFails(root, dir, name, a);
  }
}
