/**
 * The "files only" member listings of the two archive extractors: the zip
 * listing drops folder entries, the tar listing prunes every member that has
 * another member below it.
 */
module Extraction {

  import opened Common
  import opened Strings

  /** A zip member name that denotes a folder: its last character is `/`. */
  predicate IsFolderName(name: string) {
    |name| > 0 && name[|name| - 1] == '/'
  }

  /** `a` is `b` with some members left out, the rest in their original order. */
  predicate IsSubsequence(a: seq<string>, b: seq<string>)
    decreases |b|
  {
    if a == [] then true
    else if b == [] then false
    else (a[0] == b[0] && IsSubsequence(a[1..], b[1..])) || IsSubsequence(a, b[1..])
  }

  lemma {:induction false} SubsequenceMembers(a: seq<string>, b: seq<string>)
    requires IsSubsequence(a, b)
    ensures forall x :: x in a ==> x in b
    decreases |b|
  {
    if a != [] && b != [] {
      assert a == [a[0]] + a[1..];
      assert b == [b[0]] + b[1..];
      if a[0] == b[0] && IsSubsequence(a[1..], b[1..]) {
        SubsequenceMembers(a[1..], b[1..]);
      } else {
        SubsequenceMembers(a, b[1..]);
      }
    }
  }

  function CountFolders(names: seq<string>): (n: nat)
    ensures n <= |names|
  {
    if names == [] then 0
    else (if IsFolderName(names[0]) then 1 else 0) + CountFolders(names[1..])
  }

  /**
   * `ZipExtractor.get_file_list`: the member names whose last character is not
   * `/`, in archive order; an empty name raises IndexError on `filename[-1]`.
   */
  function ZipFileList(names: seq<string>): (r: Result<seq<string>>)
    ensures r.Success? <==> forall i :: 0 <= i < |names| ==> names[i] != ""
    ensures r.Success? ==> IsSubsequence(r.value, names)
    ensures r.Success? ==> forall x :: x in r.value <==> x in names && !IsFolderName(x)
    ensures r.Success? ==> |r.value| + CountFolders(names) == |names|
  {
    if names == [] then Success([])
    else if names[0] == "" then Failure(IndexError)
    else match ZipFileList(names[1..])
      case Failure(e) => Failure(e)
      case Success(rest) =>
        assert names == [names[0]] + names[1..];
        if IsFolderName(names[0]) then Success(rest) else Success([names[0]] + rest)
  }

  /** Some member of `later` lies below `name` as a directory. */
  predicate Covered(name: string, later: seq<string>) {
    exists y :: y in later && StartsWith(y, name + "/")
  }

  /**
   * Reference definition of the tar listing: a member is dropped exactly when
   * some member at its own or a later position starts with its name plus `/`.
   */
  function Pruned(names: seq<string>): seq<string>
    decreases |names|
  {
    if names == [] then []
    else (if Covered(names[0], names[1..]) then [] else [names[0]]) + Pruned(names[1..])
  }

  /** Looking for a member below `x` among the pruned members finds one iff the full list has one. */
  lemma {:induction false} CoveredPruned(x: string, rest: seq<string>)
    ensures Covered(x, Pruned(rest)) <==> Covered(x, rest)
    decreases |rest|
  {
    if rest != [] {
      var h, t := rest[0], rest[1..];
      assert rest == [h] + t;
      CoveredPruned(x, t);
      PrunedMembers(t);
      if Covered(x, rest) && !Covered(x, t) {
        assert StartsWith(h, x + "/");
        if Covered(h, t) {
          var z :| z in t && StartsWith(z, h + "/");
          UnderTrans(z, h, x);
        }
      }
    }
  }

  /** Every pruned member comes from the original list. */
  lemma {:induction false} PrunedMembers(names: seq<string>)
    ensures forall x :: x in Pruned(names) ==> x in names
    decreases |names|
  {
    if names != [] {
      PrunedMembers(names[1..]);
    }
  }

  /** The tar listing keeps members in their original relative order. */
  lemma {:induction false} PrunedIsSubsequence(names: seq<string>)
    ensures IsSubsequence(Pruned(names), names)
    decreases |names|
  {
    if names != [] {
      var t := names[1..];
      PrunedIsSubsequence(t);
      if Covered(names[0], t) {
        assert Pruned(names) == Pruned(t);
        if Pruned(t) != [] {
          assert IsSubsequence(Pruned(names), names[1..]);
        }
      } else {
        var p := Pruned(names);
        assert p == [names[0]] + Pruned(t);
        assert p[0] == names[0] && p[1..] == Pruned(t);
      }
    }
  }

  /** Pruning a pruned list changes nothing. */
  lemma {:induction false} PrunedIdempotent(names: seq<string>)
    ensures Pruned(Pruned(names)) == Pruned(names)
    decreases |names|
  {
    if names != [] {
      var t := names[1..];
      PrunedIdempotent(t);
      if Covered(names[0], t) {
        assert Pruned(names) == Pruned(t);
      } else {
        CoveredPruned(names[0], t);
        var p := Pruned(names);
        assert p == [names[0]] + Pruned(t);
        assert p[0] == names[0] && p[1..] == Pruned(t);
        assert Pruned(p) == (if Covered(p[0], p[1..]) then [] else [p[0]]) + Pruned(p[1..]);
      }
    }
  }

  /** The last member is never pruned, since nothing follows it. */
  lemma {:induction false} PrunedKeepsLast(names: seq<string>)
    requires |names| > 0
    ensures |Pruned(names)| > 0 && Pruned(names)[|Pruned(names)| - 1] == names[|names| - 1]
    decreases |names|
  {
    if |names| == 1 {
      NotUnderItself(names[0]);
      assert !Covered(names[0], names[1..]);
    } else {
      PrunedKeepsLast(names[1..]);
    }
  }

  /** With no member below another, the tar listing is the member list itself. */
  lemma {:induction false} PrunedUnrelated(names: seq<string>)
    requires forall i, j :: 0 <= i < |names| && 0 <= j < |names| ==> !StartsWith(names[j], names[i] + "/")
    ensures Pruned(names) == names
    decreases |names|
  {
    if names != [] {
      PrunedUnrelated(names[1..]);
      assert !Covered(names[0], names[1..]);
    }
  }

  /** A directory listed after its contents survives: only later members are examined. */
  lemma {:induction false} DirectoryAfterContentsKept()
    ensures Pruned(["a/b", "a"]) == ["a/b", "a"]
    ensures Pruned(["a", "a/b"]) == ["a/b"]
  {
    assert !Covered("a/b", ["a"]);
    assert ["a/b", "a"][1..] == ["a"];
    assert Pruned(["a"]) == ["a"] by {
      assert !Covered("a", []);
    }
    assert StartsWith("a/b", "a" + "/");
    assert ["a", "a/b"][1..] == ["a/b"];
    assert Covered("a", ["a/b"]);
    assert Pruned(["a/b"]) == ["a/b"] by {
      assert !Covered("a/b", []);
    }
  }

  /** One step of the reference definition, at position `i` of the list. */
  lemma {:induction false} PrunedStep(names: seq<string>, i: nat)
    requires i < |names|
    ensures Pruned(names[i..]) ==
      (if Covered(names[i], names[i + 1..]) then [] else [names[i]]) + Pruned(names[i + 1..])
  {
    assert names[i..][0] == names[i] && names[i..][1..] == names[i + 1..];
  }

  /**
   * The inner `for ii in files[i:]` of `get_file_list`: the position of the
   * first member from `i` on that starts with `files[i] + '/'`, or `|files|`.
   */
  method FindBelow(files: seq<string>, i: nat) returns (k: nat)
    requires i < |files|
    ensures i <= k <= |files|
    ensures k < |files| ==> StartsWith(files[k], files[i] + "/")
    ensures k < |files| <==> Covered(files[i], files[i..])
  {
    k := i;
    while k < |files| && !StartsWith(files[k], files[i] + "/")
      invariant i <= k <= |files|
      invariant forall j :: i <= j < k ==> !StartsWith(files[j], files[i] + "/")
    {
      k := k + 1;
    }
    if k < |files| {
      assert files[k] in files[i..];
    } else {
      forall y | y in files[i..]
        ensures !StartsWith(y, files[i] + "/")
      {
        var j :| 0 <= j < |files[i..]| && files[i..][j] == y;
        assert files[i + j] == y;
      }
    }
  }

  /** One iteration of the `get_file_list` loop, against the reference definition. */
  lemma {:induction false} TarStep(names: seq<string>, i: nat, files: seq<string>)
    requires i < |names| && files == names[..i + 1] + Pruned(names[i + 1..])
    ensures i < |files|
    ensures Covered(files[i], files[i..]) ==> files[..i] + files[i + 1..] == names[..i] + Pruned(names[i..])
    ensures !Covered(files[i], files[i..]) ==> files == names[..i] + Pruned(names[i..])
  {
    ghost var rest := Pruned(names[i + 1..]);
    PrunedStep(names, i);
    assert names[..i + 1] == names[..i] + [names[i]];
    assert files == names[..i] + [names[i]] + rest;
    assert files[i] == names[i] && files[i..] == [names[i]] + rest;
    CoveredFromSelf(names[i], rest);
    CoveredPruned(names[i], names[i + 1..]);
    assert files[..i] == names[..i] && files[i + 1..] == rest;
  }

  /** A member is never below itself, so the search from its own position sees only later members. */
  lemma {:induction false} CoveredFromSelf(x: string, rest: seq<string>)
    ensures Covered(x, [x] + rest) <==> Covered(x, rest)
  {
    NotUnderItself(x);
    if Covered(x, [x] + rest) {
      var y :| y in [x] + rest && StartsWith(y, x + "/");
      assert y in rest;
    }
  }

  /**
   * `TarExtractor.get_file_list`: walks the member names from the last to the
   * first and deletes the current one when any member from its position on
   * starts with its name plus `/`.
   */
  method TarFileList(names: seq<string>) returns (files: seq<string>)
    ensures files == Pruned(names)
  {
    files := names;
    var i := |names|;
    while i > 0
      invariant 0 <= i <= |names|
      invariant files == names[..i] + Pruned(names[i..])
    {
      i := i - 1;
      TarStep(names, i, files);
      var k := FindBelow(files, i);
      if k < |files| {
        files := files[..i] + files[i + 1..];
      }
    }
    assert names[0..] == names;
  }
}
