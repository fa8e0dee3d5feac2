/**
 * `PythonPackage.provide` and `PythonPackage.activate` of the resource module:
 * a tree of resources with requirements, each with its own `_available`,
 * `_activated` and cached `_path`, sharing `sys.path` and the directory tree.
 */
module Packages {

  import opened Common
  import opened FileSystem
  import opened TempNames
  import opened Archives
  import opened Resources

  /** The hundred draws one deploy consumes. */
  type Attempts = s: seq<Draw> | |s| == TempAttempts witness seq(TempAttempts, _ => 0)

  /**
   * A resource object. `id` stands for object identity; `python` tells a
   * `PythonPackage` (which has requirements and `activate`) from a plain
   * archived resource.
   */
  datatype Package = Package(id: nat, desc: Descriptor, source: Source, python: bool, requirements: seq<Package>)

  /**
   * What the environment decides: the random draws of each deploy of the
   * resource at a path, and which module names `__import__` can load.
   * `rollback` picks the deploy's `except` clause: `AsWritten` is the shipped
   * code, `OwnOnly` the corrected one.
   */
  datatype Env = Env(draws: Path -> Attempts, importable: set<string>, rollback: Rollback)

  /** The interpreter state: every object's flags, the set of activated objects, `sys.path`, the disk. */
  datatype State = State(flags: map<nat, Flags>, activated: set<nat>, sysPath: seq<Path>, fs: Fs)

  datatype Step = Step(outcome: Outcome, state: State)

  /** The flags of object `id`; an untouched object has the class defaults. */
  function FlagsOf(st: State, id: nat): Flags {
    if id in st.flags then st.flags[id] else Flags(false, None)
  }

  predicate Available(st: State, id: nat) {
    FlagsOf(st, id).available
  }

  /** `a` is what remains of `b` after removing some leading entries. */
  predicate IsSuffix(a: seq<Path>, b: seq<Path>) {
    |a| <= |b| && b[|b| - |a|..] == a
  }

  lemma {:induction false} SuffixTrans(a: seq<Path>, b: seq<Path>, c: seq<Path>)
    requires IsSuffix(a, b) && IsSuffix(b, c)
    ensures IsSuffix(a, c)
  {
    assert c[|c| - |a|..] == c[|c| - |b|..][|b| - |a|..];
  }

  /** No entry occurs twice. */
  predicate NoDuplicates(s: seq<Path>) {
    s == [] || (s[0] !in s[1..] && NoDuplicates(s[1..]))
  }

  /**
   * What every provide and activate keeps: available objects stay available,
   * a cached `_path` is never replaced, `sys.path` only gains entries at the
   * front, and it gains no duplicate.
   */
  ghost predicate Grows(a: State, b: State) {
    && (forall id :: Available(a, id) ==> Available(b, id))
    && (forall id :: FlagsOf(a, id).cache.Some? ==> FlagsOf(b, id).cache == FlagsOf(a, id).cache)
    && IsSuffix(a.sysPath, b.sysPath)
    && (NoDuplicates(a.sysPath) ==> NoDuplicates(b.sysPath))
  }

  lemma {:induction false} GrowsTrans(a: State, b: State, c: State)
    requires Grows(a, b) && Grows(b, c)
    ensures Grows(a, c)
  {
    SuffixTrans(a.sysPath, b.sysPath, c.sysPath);
  }

  /** The identities of `p` and of everything it requires, directly or not. */
  function Ids(p: Package): (r: set<nat>)
    ensures p.id in r
    decreases p, 1
  {
    {p.id} + RequirementIds(p, 0)
  }

  function RequirementIds(p: Package, i: nat): (r: set<nat>)
    requires i <= |p.requirements|
    ensures forall j :: i <= j < |p.requirements| ==> p.requirements[j].id in r
    decreases p, 0, |p.requirements| - i
  {
    if i == |p.requirements| then {}
    else Ids(p.requirements[i]) + RequirementIds(p, i + 1)
  }

  /** `Resource.provide` on the object `p` itself, its flags kept in the state. */
  function ProvideOwn(p: Package, st: State, env: Env): (r: Step)
    ensures r.state.activated == st.activated && r.state.sysPath == st.sysPath
    ensures forall id :: id != p.id ==> FlagsOf(r.state, id) == FlagsOf(st, id)
    ensures Available(st, p.id) ==> r == Step(Ok, st)
    ensures Available(r.state, p.id) <==> Available(st, p.id) || r.outcome.Ok?
  {
    var flags := FlagsOf(st, p.id);
    var pr := Provide(flags, p.desc, st.fs, env.draws(CachedPath(flags.cache, p.desc).0), p.source, env.rollback);
    if flags.available then Step(Ok, st)
    else Step(pr.outcome, st.(flags := st.flags[p.id := pr.flags], fs := pr.fs))
  }

  /**
   * `PythonPackage.provide`: provide every requirement in order, then the
   * package itself, then put its path at the front of `sys.path` unless it is
   * already there. A plain resource only runs `Resource.provide`.
   */
  function ProvidePkg(p: Package, st: State, env: Env): (r: Step)
    ensures r.state.activated == st.activated
    ensures Grows(st, r.state)
    ensures r.outcome.Ok? ==> Available(r.state, p.id)
    ensures r.outcome.Ok? && p.python ==>
      && (forall i :: 0 <= i < |p.requirements| ==> Available(r.state, p.requirements[i].id))
      && FlagsOf(r.state, p.id).cache.Some?
      && FlagsOf(r.state, p.id).cache.value in r.state.sysPath
    decreases p, 2
  {
    if !p.python then ProvideOwn(p, st, env)
    else
      var reqs := ProvideRequirements(p, 0, st, env);
      if reqs.outcome.Fail? then reqs
      else
        var own := ProvideOwn(p, reqs.state, env);
        assert Grows(reqs.state, own.state) by {
          assert own.state.sysPath[|own.state.sysPath| - |reqs.state.sysPath|..] == reqs.state.sysPath;
        }
        GrowsTrans(st, reqs.state, own.state);
        if own.outcome.Fail? then own
        else
          var st1 := OnPath(p, own.state);
          GrowsTrans(st, own.state, st1);
          Step(Ok, st1)
  }

  /** `if str(self.path) not in sys.path: sys.path.insert(0, str(self.path))`, the path computed or read from `_path`. */
  function OnPath(p: Package, st: State): (r: State)
    ensures r.activated == st.activated && r.fs == st.fs
    ensures Grows(st, r)
    ensures forall id :: Available(r, id) == Available(st, id)
    ensures FlagsOf(r, p.id).cache.Some? && FlagsOf(r, p.id).cache.value in r.sysPath
    ensures |r.sysPath| <= |st.sysPath| + 1
    ensures |r.sysPath| == |st.sysPath| + 1 ==> r.sysPath == [FlagsOf(r, p.id).cache.value] + st.sysPath
    ensures FlagsOf(st, p.id).cache.Some? && FlagsOf(st, p.id).cache.value in st.sysPath ==> r == st
  {
    var flags := FlagsOf(st, p.id);
    var (path, cache) := CachedPath(flags.cache, p.desc);
    var st1 := st.(flags := st.flags[p.id := flags.(cache := cache)]);
    CacheGrows(st, p.id, flags.(cache := cache));
    if path in st1.sysPath then
      assert flags.cache.Some? ==> st1 == st;
      st1
    else
      PrependGrows(st1, path);
      GrowsTrans(st, st1, st1.(sysPath := [path] + st1.sysPath));
      st1.(sysPath := [path] + st1.sysPath)
  }

  /** Storing new flags for one object with the same `_available` keeps everything `Grows` speaks of. */
  lemma {:induction false} CacheGrows(st: State, id: nat, flags: Flags)
    requires flags.available == FlagsOf(st, id).available
    requires FlagsOf(st, id).cache.Some? ==> flags.cache == FlagsOf(st, id).cache
    ensures var st1 := st.(flags := st.flags[id := flags]);
      Grows(st, st1) && forall i :: Available(st1, i) == Available(st, i)
  {
    var st1 := st.(flags := st.flags[id := flags]);
    assert st1.sysPath[|st1.sysPath| - |st.sysPath|..] == st.sysPath;
  }

  /** Inserting an absent entry at the front of `sys.path` keeps it free of duplicates. */
  lemma {:induction false} PrependGrows(st: State, x: Path)
    requires x !in st.sysPath
    ensures Grows(st, st.(sysPath := [x] + st.sysPath))
  {
    var s := [x] + st.sysPath;
    assert s[|s| - |st.sysPath|..] == st.sysPath;
    assert s[0] == x && s[1..] == st.sysPath;
  }

  /** The `for r in self.requirements: r.provide()` loop from position `i` on. */
  function ProvideRequirements(p: Package, i: nat, st: State, env: Env): (r: Step)
    requires i <= |p.requirements|
    ensures r.state.activated == st.activated
    ensures Grows(st, r.state)
    ensures r.outcome.Ok? ==> forall j :: i <= j < |p.requirements| ==> Available(r.state, p.requirements[j].id)
    decreases p, 1, |p.requirements| - i
  {
    if i == |p.requirements| then Step(Ok, st)
    else
      var first := ProvideRequirement(p.requirements[i], st, env);
      if first.outcome.Fail? then first
      else
        var rest := ProvideRequirements(p, i + 1, first.state, env);
        GrowsTrans(st, first.state, rest.state);
        assert Available(first.state, p.requirements[i].id);
        assert Available(rest.state, p.requirements[i].id);
        assert rest.outcome.Ok? ==> forall j :: i < j < |p.requirements| ==> Available(rest.state, p.requirements[j].id);
        rest
  }

  /** One `r.provide()` of the requirement loop (a separate step so that the loop reasons from its contract). */
  function ProvideRequirement(q: Package, st: State, env: Env): Step
    decreases q, 3
  {
    ProvidePkg(q, st, env)
  }

  /** Object identities are unique within the tree of `p`: no object requires itself. */
  predicate NotSelfRequiring(p: Package) {
    p.id !in RequirementIds(p, 0)
  }

  /**
   * `PythonPackage.activate`: nothing once activated; otherwise provide,
   * activate the requirements in order, import the package, and only then
   * set `_activated`. A plain resource has no `activate` at all.
   */
  function ActivatePkg(p: Package, st: State, env: Env): (r: Step)
    ensures !p.python ==> r == Step(Fail(AttributeError("object has no attribute 'activate'")), st)
    ensures p.python && p.id in st.activated ==> r == Step(Ok, st)
    ensures st.activated <= r.state.activated <= st.activated + Ids(p)
    ensures Grows(st, r.state)
    ensures r.outcome.Ok? ==> p.id in r.state.activated
    ensures r.outcome.Ok? && p.id !in st.activated ==> Available(r.state, p.id)
    ensures r.outcome.Ok? && p.id !in st.activated ==> forall i :: 0 <= i < |p.requirements| ==> p.requirements[i].id in r.state.activated
    ensures p.python && p.id !in st.activated && NotSelfRequiring(p) && p.desc.name !in env.importable ==>
      r.outcome.Fail? && p.id !in r.state.activated
    decreases p, 1
  {
    if !p.python then Step(Fail(AttributeError("object has no attribute 'activate'")), st)
    else if p.id in st.activated then Step(Ok, st)
    else
      var provided := ProvidePkg(p, st, env);
      if provided.outcome.Fail? then provided
      else
        var reqs := ActivateRequirements(p, 0, provided.state, env);
        GrowsTrans(st, provided.state, reqs.state);
        if reqs.outcome.Fail? then reqs
        else if p.desc.name !in env.importable then Step(Fail(ImportFailed(p.desc.name)), reqs.state)
        else Step(Ok, reqs.state.(activated := reqs.state.activated + {p.id}))
  }

  /** The `[r.activate() for r in self.requirements]` comprehension from position `i` on. */
  function ActivateRequirements(p: Package, i: nat, st: State, env: Env): (r: Step)
    requires i <= |p.requirements|
    ensures st.activated <= r.state.activated <= st.activated + RequirementIds(p, i)
    ensures Grows(st, r.state)
    ensures r.outcome.Ok? ==> forall j :: i <= j < |p.requirements| ==> p.requirements[j].id in r.state.activated
    decreases p, 0, |p.requirements| - i
  {
    if i == |p.requirements| then Step(Ok, st)
    else
      var first := ActivateRequirement(p.requirements[i], st, env);
      if first.outcome.Fail? then first
      else
        var rest := ActivateRequirements(p, i + 1, first.state, env);
        GrowsTrans(st, first.state, rest.state);
        assert RequirementIds(p, i) == Ids(p.requirements[i]) + RequirementIds(p, i + 1);
        assert p.requirements[i].id in first.state.activated;
        assert p.requirements[i].id in rest.state.activated;
        rest
  }

  /** One `r.activate()` of the requirement comprehension. */
  function ActivateRequirement(q: Package, st: State, env: Env): Step
    decreases q, 2
  {
    ActivatePkg(q, st, env)
  }

  /** Activating twice is activating once. */
  lemma {:induction false} ActivateIdempotent(p: Package, st: State, env: Env)
    requires ActivatePkg(p, st, env).outcome.Ok?
    ensures var r := ActivatePkg(p, st, env);
      ActivatePkg(p, r.state, env) == Step(Ok, r.state)
  {
  }

  /** A package without requirements adds at most one entry, its own path, to `sys.path`. */
  lemma {:induction false} ProvideLeafPath(p: Package, st: State, env: Env)
    requires p.python && p.requirements == []
    ensures var r := ProvidePkg(p, st, env);
      && |r.state.sysPath| <= |st.sysPath| + 1
      && (|r.state.sysPath| == |st.sysPath| + 1 ==>
            FlagsOf(r.state, p.id).cache.Some? && r.state.sysPath == [FlagsOf(r.state, p.id).cache.value] + st.sysPath)
  {
    assert ProvideRequirements(p, 0, st, env) == Step(Ok, st);
  }

  /**
   * What a successful provide leaves behind for `p`: it is available and,
   * for a package, its cached path is on `sys.path` and every requirement is
   * fully provided in turn.
   */
  ghost predicate FullyProvided(p: Package, st: State)
    decreases p
  {
    && Available(st, p.id)
    && (p.python ==>
          && FlagsOf(st, p.id).cache.Some?
          && FlagsOf(st, p.id).cache.value in st.sysPath
          && forall i :: 0 <= i < |p.requirements| ==> FullyProvided(p.requirements[i], st))
  }

  /** Later provides and activates keep a fully provided package fully provided. */
  lemma {:induction false} FullyProvidedStays(p: Package, a: State, b: State)
    requires FullyProvided(p, a) && Grows(a, b)
    ensures FullyProvided(p, b)
    decreases p
  {
    if p.python {
      var x := FlagsOf(a, p.id).cache.value;
      assert b.sysPath[|b.sysPath| - |a.sysPath|..] == a.sysPath;
      assert x in b.sysPath[|b.sysPath| - |a.sysPath|..];
      forall i | 0 <= i < |p.requirements|
        ensures FullyProvided(p.requirements[i], b)
      {
        FullyProvidedStays(p.requirements[i], a, b);
      }
    }
  }

  /** A successful provide leaves the package fully provided. */
  lemma {:induction false} ProvideEstablishes(p: Package, st: State, env: Env)
    requires ProvidePkg(p, st, env).outcome.Ok?
    ensures FullyProvided(p, ProvidePkg(p, st, env).state)
    decreases p, 2
  {
    if p.python {
      var reqs := ProvideRequirements(p, 0, st, env);
      assert reqs.outcome.Ok?;
      ProvideRequirementsEstablish(p, 0, st, env);
      var own := ProvideOwn(p, reqs.state, env);
      assert own.outcome.Ok?;
      var st1 := OnPath(p, own.state);
      assert ProvidePkg(p, st, env) == Step(Ok, st1);
      assert Grows(reqs.state, own.state) by {
        assert own.state.sysPath[|own.state.sysPath| - |reqs.state.sysPath|..] == reqs.state.sysPath;
      }
      GrowsTrans(reqs.state, own.state, st1);
      RequirementsStay(p, reqs.state, st1);
    }
  }

  /** `FullyProvidedStays` for every requirement of `p`. */
  lemma {:induction false} RequirementsStay(p: Package, a: State, b: State)
    requires forall i :: 0 <= i < |p.requirements| ==> FullyProvided(p.requirements[i], a)
    requires Grows(a, b)
    ensures forall i :: 0 <= i < |p.requirements| ==> FullyProvided(p.requirements[i], b)
  {
    forall i | 0 <= i < |p.requirements|
      ensures FullyProvided(p.requirements[i], b)
    {
      FullyProvidedStays(p.requirements[i], a, b);
    }
  }

  /** A successful requirement loop from position `i` on leaves each of those requirements fully provided. */
  lemma {:induction false} ProvideRequirementsEstablish(p: Package, i: nat, st: State, env: Env)
    requires i <= |p.requirements|
    requires ProvideRequirements(p, i, st, env).outcome.Ok?
    ensures forall j :: i <= j < |p.requirements| ==> FullyProvided(p.requirements[j], ProvideRequirements(p, i, st, env).state)
    decreases p, 1, |p.requirements| - i
  {
    if i < |p.requirements| {
      var first := ProvideRequirement(p.requirements[i], st, env);
      assert first.outcome.Ok?;
      var rest := ProvideRequirements(p, i + 1, first.state, env);
      assert ProvideRequirements(p, i, st, env) == rest;
      ProvideEstablishes(p.requirements[i], st, env);
      FullyProvidedStays(p.requirements[i], first.state, rest.state);
      ProvideRequirementsEstablish(p, i + 1, first.state, env);
      forall j | i <= j < |p.requirements|
        ensures FullyProvided(p.requirements[j], rest.state)
      {
        if j == i {
        }
      }
    }
  }

  /** Providing a fully provided package changes nothing. */
  lemma {:induction false} ProvideNoop(p: Package, st: State, env: Env)
    requires FullyProvided(p, st)
    ensures ProvidePkg(p, st, env) == Step(Ok, st)
    decreases p, 2
  {
    if p.python {
      ProvideRequirementsNoop(p, 0, st, env);
    }
  }

  /** The requirement loop over fully provided requirements changes nothing. */
  lemma {:induction false} ProvideRequirementsNoop(p: Package, i: nat, st: State, env: Env)
    requires i <= |p.requirements|
    requires forall j :: i <= j < |p.requirements| ==> FullyProvided(p.requirements[j], st)
    ensures ProvideRequirements(p, i, st, env) == Step(Ok, st)
    decreases p, 1, |p.requirements| - i
  {
    if i < |p.requirements| {
      ProvideNoop(p.requirements[i], st, env);
      ProvideRequirementsNoop(p, i + 1, st, env);
    }
  }

  /** After a successful provide, providing again changes nothing: in particular `sys.path` stays as it is. */
  lemma {:induction false} ProvideTwiceSamePath(p: Package, st: State, env: Env)
    requires ProvidePkg(p, st, env).outcome.Ok?
    ensures var r := ProvidePkg(p, st, env);
      ProvidePkg(p, r.state, env) == Step(Ok, r.state)
  {
    ProvideEstablishes(p, st, env);
    ProvideNoop(p, ProvidePkg(p, st, env).state, env);
  }
}
