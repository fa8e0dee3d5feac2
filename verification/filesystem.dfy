/**
 * An abstract directory tree standing for the operating system's filesystem,
 * with the `pathlib` and `shutil` operations the resource code calls:
 * `Path.__truediv__`, `is_dir`, `is_file`, `iterdir`, `mkdir(parents=True)`,
 * `open(..., 'wb')`, `unlink`, `rename` and `shutil.rmtree`.
 */
module FileSystem {

  import opened Common
  import opened Strings

  /** `p` is `q` or one of its ancestors. */
  predicate IsPrefix(p: Path, q: Path) {
    |p| <= |q| && q[..|p|] == p
  }

  /** `pathlib.Path.parent`: the root is its own parent. */
  function Parent(p: Path): (r: Path)
    ensures p != [] ==> |r| == |p| - 1 && IsPrefix(r, p)
  {
    if p == [] then [] else p[..|p| - 1]
  }

  /** A non-empty component that pathlib keeps as it is. */
  predicate IsComponent(c: string) {
    c != "" && c != "." && '/' !in c
  }

  function Piece(s: string): (r: seq<string>)
    ensures forall i :: 0 <= i < |r| ==> IsComponent(r[i])
  {
    if s == "" || s == "." || '/' in s then [] else [s]
  }

  /**
   * The components pathlib reads from a path string: separators collapse,
   * empty and `.` components vanish, `..` is kept literally.
   */
  function Components(s: string): (r: seq<string>)
    ensures forall i :: 0 <= i < |r| ==> IsComponent(r[i])
    decreases |s|
  {
    match FirstIndexOf(s, '/')
    case None => Piece(s)
    case Some(i) => Piece(s[..i]) + Components(s[i + 1..])
  }

  /** `base / s`: an absolute `s` replaces the base, a relative one extends it. */
  function Join(base: Path, s: string): (r: Path)
    ensures |s| > 0 && s[0] == '/' ==> r == Components(s)
    ensures !(|s| > 0 && s[0] == '/') ==> IsPrefix(base, r) && r[|base|..] == Components(s)
  {
    if |s| > 0 && s[0] == '/' then Components(s) else base + Components(s)
  }

  /** Joining a single plain component appends exactly that component. */
  lemma {:induction false} JoinComponent(base: Path, c: string)
    requires IsComponent(c)
    ensures Join(base, c) == base + [c]
  {
    assert FirstIndexOf(c, '/') == None;
  }

  /** A plain component followed by `/` contributes exactly itself. */
  lemma {:induction false} ComponentsCons(c: string, rest: string)
    requires IsComponent(c)
    ensures Components(c + "/" + rest) == [c] + Components(rest)
  {
    var s := c + "/" + rest;
    assert s[|c|] == '/';
    assert forall j :: 0 <= j < |c| ==> s[j] == c[j];
    assert FirstIndexOf(s, '/') == Some(|c|);
    assert s[..|c|] == c && s[|c| + 1..] == rest;
  }

  /** Two plain components separated by `/`. */
  lemma {:induction false} ComponentsPair(a: string, b: string)
    requires IsComponent(a) && IsComponent(b)
    ensures Components(a + "/" + b) == [a, b]
  {
    ComponentsCons(a, b);
    ComponentsSingle(b);
  }

  lemma {:induction false} ComponentsSingle(c: string)
    requires IsComponent(c)
    ensures Components(c) == [c]
  {
    assert FirstIndexOf(c, '/') == None;
  }

  /** Joining the empty string (an unset `local_prefix`) leaves the path alone. */
  lemma {:induction false} JoinEmpty(base: Path)
    ensures Join(base, "") == base
  {
  }

  /** The directory tree: the set of directories and the contents of each file. */
  datatype Fs = Fs(dirs: set<Path>, files: map<Path, Bytes>)

  /** `Path.is_dir()`; the root always exists. */
  predicate IsDir(fs: Fs, p: Path) {
    p == [] || p in fs.dirs
  }

  /** `Path.is_file()`. */
  predicate IsFile(fs: Fs, p: Path) {
    p in fs.files
  }

  predicate Exists(fs: Fs, p: Path) {
    IsDir(fs, p) || IsFile(fs, p)
  }

  /** The names `iterdir()` yields for `p`: the last component of each entry one level below. */
  function Children(fs: Fs, p: Path): (r: set<string>)
    ensures forall c :: c in r <==> (p + [c] in fs.dirs || p + [c] in fs.files)
  {
    var below := set q | q in fs.dirs + fs.files.Keys && |q| == |p| + 1 && q[..|p|] == p;
    var r := set q | q in below :: q[|p|];
    assert forall c :: p + [c] in fs.dirs || p + [c] in fs.files ==> p + [c] in below && (p + [c])[|p|] == c;
    assert forall q :: q in below ==> q == p + [q[|p|]];
    r
  }

  /** Everything about `q` is the same in `a` and `b`. */
  predicate SameAt(a: Fs, b: Fs, q: Path) {
    && (q in a.dirs <==> q in b.dirs)
    && (q in a.files <==> q in b.files)
    && (q in a.files && q in b.files ==> a.files[q] == b.files[q])
  }

  /**
   * Climbing from `p` through paths that are not directories, a file is met
   * (at `p` itself or at the parent of a missing path): `mkdir` cannot create
   * the chain below it.
   */
  predicate FileInTheWay(fs: Fs, p: Path)
    decreases |p|
  {
    p != [] && !IsDir(fs, p) && (IsFile(fs, p) || IsFile(fs, Parent(p)) || FileInTheWay(fs, Parent(p)))
  }

  /**
   * `Path.mkdir(parents=True, exist_ok=existOk)`: missing ancestors are created
   * first, an existing path is an error unless `existOk` and it is a directory,
   * and a file where a directory is needed stops the call before anything is created.
   */
  function MkdirP(fs: Fs, p: Path, existOk: bool): (r: Result<Fs>)
    ensures r.Success? ==> IsDir(r.value, p) && r.value.files == fs.files
    ensures r.Success? ==> fs.dirs <= r.value.dirs
    ensures r.Success? ==> forall q :: q in r.value.dirs && q !in fs.dirs ==> IsPrefix(q, p)
    ensures IsDir(fs, p) ==> (r.Success? <==> existOk) && (r.Success? ==> r.value == fs)
    ensures IsFile(fs, p) && !IsDir(fs, p) ==> r == Failure(FileExists(p))
    ensures r.Failure? <==> (IsDir(fs, p) && !existOk) || FileInTheWay(fs, p)
    ensures r.Failure? ==> r.error.FileExists? || r.error.NotADirectory?
    decreases |p|
  {
    if IsDir(fs, p) then (if existOk then Success(fs) else Failure(FileExists(p)))
    else if IsFile(fs, p) then Failure(FileExists(p))
    else if IsFile(fs, Parent(p)) then Failure(NotADirectory(p))
    else if IsDir(fs, Parent(p)) then Success(fs.(dirs := fs.dirs + {p}))
    else match MkdirP(fs, Parent(p), true)
      case Failure(e) => Failure(e)
      case Success(fs1) => Success(fs1.(dirs := fs1.dirs + {p}))
  }

  /** `open(p, 'wb').write(data)` (also `Path.write_bytes`). */
  function WriteFile(fs: Fs, p: Path, data: Bytes): (r: Result<Fs>)
    ensures r.Success? <==> !IsDir(fs, p) && IsDir(fs, Parent(p))
    ensures r.Success? ==> r.value.dirs == fs.dirs && IsFile(r.value, p) && r.value.files[p] == data
    ensures r.Success? ==> forall q :: q != p ==> SameAt(fs, r.value, q)
  {
    if IsDir(fs, p) then Failure(IsADirectory(p))
    else if IsDir(fs, Parent(p)) then Success(fs.(files := fs.files[p := data]))
    else if IsFile(fs, Parent(p)) then Failure(NotADirectory(p))
    else Failure(NotFound(p))
  }

  /** `Path.unlink()`. */
  function Unlink(fs: Fs, p: Path): (r: Result<Fs>)
    ensures r.Success? <==> IsFile(fs, p)
    ensures r.Success? ==> !IsFile(r.value, p) && r.value.dirs == fs.dirs
    ensures r.Success? ==> forall q :: q != p ==> SameAt(fs, r.value, q)
  {
    if IsFile(fs, p) then Success(fs.(files := fs.files - {p}))
    else if IsDir(fs, p) then Failure(IsADirectory(p))
    else Failure(NotFound(p))
  }

  /** `shutil.rmtree(p)`: `p` and everything below it disappear, nothing else changes. */
  function RmTree(fs: Fs, p: Path): (r: Fs)
    ensures forall q :: IsPrefix(p, q) ==> q !in r.dirs && q !in r.files
    ensures forall q :: !IsPrefix(p, q) ==> SameAt(fs, r, q)
  {
    Fs(set q | q in fs.dirs && !IsPrefix(p, q),
       map q | q in fs.files && !IsPrefix(p, q) :: fs.files[q])
  }

  /** Where `rename(src, dst)` puts a path below `src`. */
  function Moved(src: Path, dst: Path, q: Path): Path
    requires IsPrefix(src, q)
  {
    dst + q[|src|..]
  }

  lemma {:induction false} MovedInjective(src: Path, dst: Path)
    ensures forall q1, q2 :: IsPrefix(src, q1) && IsPrefix(src, q2) && Moved(src, dst, q1) == Moved(src, dst, q2) ==> q1 == q2
  {
    forall q1, q2 | IsPrefix(src, q1) && IsPrefix(src, q2) && Moved(src, dst, q1) == Moved(src, dst, q2)
      ensures q1 == q2
    {
      assert q1[|src|..] == Moved(src, dst, q1)[|dst|..];
      assert q2[|src|..] == Moved(src, dst, q2)[|dst|..];
      assert q1 == src + q1[|src|..];
      assert q2 == src + q2[|src|..];
    }
  }

  /**
   * `Path.rename(dst)` of the directory `src`, with the Windows rule that an
   * existing destination is an error; the subtree below `src` moves below `dst`.
   */
  function Rename(fs: Fs, src: Path, dst: Path): (r: Result<Fs>)
    ensures r.Success? <==>
      src != [] && IsDir(fs, src) && !Exists(fs, dst) && IsDir(fs, Parent(dst)) && !IsPrefix(src, dst)
    ensures r.Success? ==> forall q :: q in fs.files && IsPrefix(src, q) ==>
      Moved(src, dst, q) in r.value.files && r.value.files[Moved(src, dst, q)] == fs.files[q]
  {
    if src == [] || !IsDir(fs, src) then Failure(NotFound(src))
    else if Exists(fs, dst) then Failure(FileExists(dst))
    else if !IsDir(fs, Parent(dst)) then Failure(NotFound(dst))
    else if IsPrefix(src, dst) then Failure(InvalidMove(src, dst))
    else
      var stay := set q | q in fs.dirs && !IsPrefix(src, q);
      var moved := set q | q in fs.dirs && IsPrefix(src, q) :: Moved(src, dst, q);
      var stayFiles := map q | q in fs.files && !IsPrefix(src, q) :: fs.files[q];
      MovedInjective(src, dst);
      var movedFiles := map q | q in fs.files && IsPrefix(src, q) :: Moved(src, dst, q) := fs.files[q];
      assert forall q :: q in fs.files && IsPrefix(src, q) ==> Moved(src, dst, q) in movedFiles && movedFiles[Moved(src, dst, q)] == fs.files[q];
      Success(Fs(stay + moved, stayFiles + movedFiles))
  }

  /**
   * Pointwise view of a successful rename: what is at `q` afterwards. Below
   * `dst` are the directories and files that were below `src`, files with
   * their bytes.
   */
  lemma {:induction false} RenameAt(fs: Fs, src: Path, dst: Path, q: Path)
    requires Rename(fs, src, dst).Success?
    ensures var fs' := Rename(fs, src, dst).value;
      && (!IsPrefix(src, q) && !IsPrefix(dst, q) ==> SameAt(fs, fs', q))
      && (IsPrefix(src, q) && !IsPrefix(dst, q) ==> q !in fs'.dirs && q !in fs'.files)
      && (IsPrefix(dst, q) ==> (q in fs'.dirs <==> (src + q[|dst|..] in fs.dirs || (q in fs.dirs && !IsPrefix(src, q)))))
      && (IsPrefix(dst, q) ==> (q in fs'.files <==> (src + q[|dst|..] in fs.files || (q in fs.files && !IsPrefix(src, q)))))
      && (IsPrefix(dst, q) && src + q[|dst|..] in fs.files ==> q in fs'.files && fs'.files[q] == fs.files[src + q[|dst|..]])
  {
    var fs' := Rename(fs, src, dst).value;
    if IsPrefix(dst, q) {
      var q0 := src + q[|dst|..];
      assert IsPrefix(src, q0) && Moved(src, dst, q0) == q;
      if q in fs'.dirs && !(q in fs.dirs && !IsPrefix(src, q)) {
        var q1 :| q1 in fs.dirs && IsPrefix(src, q1) && Moved(src, dst, q1) == q;
        assert q1[|src|..] == q[|dst|..];
        assert q1 == src + q1[|src|..];
      }
      assert src + q[|dst|..] in fs.files ==> q in fs'.files && fs'.files[q] == fs.files[src + q[|dst|..]];
      if q in fs'.files && !(q in fs.files && !IsPrefix(src, q)) {
        var q1 :| q1 in fs.files && IsPrefix(src, q1) && Moved(src, dst, q1) == q;
        assert q1[|src|..] == q[|dst|..];
        assert q1 == src + q1[|src|..];
      }
    } else {
      forall q1 | IsPrefix(src, q1)
        ensures Moved(src, dst, q1) != q
      {
        assert Moved(src, dst, q1)[..|dst|] == dst;
      }
    }
  }

  /** After a successful rename the destination is a directory and the source is gone. */
  lemma {:induction false} RenameMovesRoot(fs: Fs, src: Path, dst: Path)
    requires Rename(fs, src, dst).Success?
    ensures IsDir(Rename(fs, src, dst).value, dst)
    ensures !IsPrefix(dst, src) ==> !Exists(Rename(fs, src, dst).value, src)
  {
    RenameAt(fs, src, dst, dst);
    assert src + dst[|dst|..] == src;
    RenameAt(fs, src, dst, src);
  }

  /** A filesystem step that may raise part-way: its completion and the tree it leaves. */
  datatype Run = Run(outcome: Outcome, fs: Fs)

  /** Create the missing parent of `p`, as `if not p.parent.is_dir(): p.parent.mkdir(parents=True)`. */
  function EnsureParent(fs: Fs, p: Path): (r: Result<Fs>)
    ensures r.Success? ==> IsDir(r.value, Parent(p)) && r.value.files == fs.files && fs.dirs <= r.value.dirs
    ensures r.Success? ==> forall q :: q in r.value.dirs && q !in fs.dirs ==> IsPrefix(q, Parent(p))
  {
    if IsDir(fs, Parent(p)) then Success(fs) else MkdirP(fs, Parent(p), false)
  }

  /**
   * `b` differs from `a` only inside the subtree of `root` and on the chain of
   * directories leading to it: no directory disappears, and no file outside
   * the subtree is created, removed or rewritten.
   */
  ghost predicate Confined(a: Fs, b: Fs, root: Path) {
    && a.dirs <= b.dirs
    && (forall q :: q in b.dirs && q !in a.dirs ==> IsPrefix(root, q) || IsPrefix(q, root))
    && (forall q :: !IsPrefix(root, q) ==> (q in a.files <==> q in b.files))
    && (forall q :: !IsPrefix(root, q) && q in a.files && q in b.files ==> a.files[q] == b.files[q])
  }

  lemma {:induction false} ConfinedTrans(a: Fs, b: Fs, c: Fs, root: Path)
    requires Confined(a, b, root) && Confined(b, c, root)
    ensures Confined(a, c, root)
  {
  }

  /**
   * The path the operating system reaches for `p`: each `..` component steps
   * back to the parent (the root is its own parent); symbolic links aside.
   */
  function Resolve(p: Path): (r: Path)
    ensures |r| <= |p|
    decreases |p|
  {
    if p == [] then []
    else
      var up := Resolve(p[..|p| - 1]);
      if p[|p| - 1] == ".." then Parent(up) else up + [p[|p| - 1]]
  }

  /** Appending components without `..` appends them to the resolved path too. */
  lemma {:induction false} ResolveAppend(base: Path, rest: Path)
    requires ".." !in rest
    ensures Resolve(base + rest) == Resolve(base) + rest
    decreases |rest|
  {
    if rest == [] {
      assert base + rest == base;
    } else {
      var init := rest[..|rest| - 1];
      assert (base + rest)[..|base + rest| - 1] == base + init;
      assert (base + rest)[|base + rest| - 1] == rest[|rest| - 1] != "..";
      assert ".." !in init by {
        assert forall k :: 0 <= k < |init| ==> init[k] == rest[k];
      }
      ResolveAppend(base, init);
      assert rest == init + [rest[|rest| - 1]];
    }
  }

  /** `q` lies in the subtree of `root` and is reached without a `..` component below `root`. */
  predicate Inside(root: Path, q: Path) {
    IsPrefix(root, q) && ".." !in q[|root|..]
  }

  /** What is inside `root` stays below it once the operating system resolves the path. */
  lemma {:induction false} InsideResolves(root: Path, q: Path)
    requires Inside(root, q)
    ensures IsPrefix(Resolve(root), Resolve(q))
  {
    assert q == root + q[|root|..];
    ResolveAppend(root, q[|root|..]);
  }

  /**
   * `Confined`, with the subtree of `root` entered only without `..`: on a
   * real filesystem too, `b` differs from `a` only below `root` and on the
   * chain of directories leading to it.
   */
  ghost predicate ConfinedInside(a: Fs, b: Fs, root: Path) {
    && a.dirs <= b.dirs
    && (forall q :: q in b.dirs && q !in a.dirs ==> Inside(root, q) || IsPrefix(q, root))
    && (forall q :: !Inside(root, q) ==> (q in a.files <==> q in b.files))
    && (forall q :: !Inside(root, q) && q in a.files && q in b.files ==> a.files[q] == b.files[q])
  }

  lemma {:induction false} ConfinedInsideTrans(a: Fs, b: Fs, c: Fs, root: Path)
    requires ConfinedInside(a, b, root) && ConfinedInside(b, c, root)
    ensures ConfinedInside(a, c, root)
  {
  }

  /** A prefix of a path inside `root` is inside `root` or on the way to it. */
  lemma {:induction false} PrefixOfInside(root: Path, target: Path, q: Path)
    requires Inside(root, target) && IsPrefix(q, target)
    ensures Inside(root, q) || IsPrefix(q, root)
  {
    PrefixOfBelow(root, target, q);
    if IsPrefix(root, q) {
      assert q[|root|..] == target[|root|..][..|q| - |root|];
    }
  }

  /** A prefix of a path below `root` is below `root` or on the way to it. */
  lemma {:induction false} PrefixOfBelow(root: Path, target: Path, q: Path)
    requires IsPrefix(root, target) && IsPrefix(q, target)
    ensures IsPrefix(root, q) || IsPrefix(q, root)
  {
    if |q| <= |root| {
      assert q == target[..|q|] == root[..|q|];
    } else {
      assert root == target[..|root|] == q[..|root|];
    }
  }
}
