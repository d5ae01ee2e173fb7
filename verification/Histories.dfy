/** Whole runs of operations on one map and on a map beside its snapshot. */
module Histories {
  import opened Bytes
  import opened Tree
  import opened Codec
  import opened Storage
  import opened Shapes
  import opened Canonical
  import opened Walking
  import opened Merkle
  import opened ShaMap

  datatype Op = Find(key: Key) | Write(key: Key, data: bytes) | Remove(key: Key)

  /** An operation as a finite map sees it. */
  function After(m: Contents, op: Op): Contents {
    match op
    case Find(_) => m
    case Write(key, data) => if |data| >= MIN_ITEM then m[key := data] else m
    case Remove(key) => m - {key}
  }

  function Replayed(m: Contents, ops: seq<Op>): Contents {
    if ops == [] then m else After(Replayed(m, ops[..|ops| - 1]), ops[|ops| - 1])
  }

  /** What a map in the given state makes of the operations. */
  function Outcomes(state: State, m: Contents, ops: seq<Op>): Contents {
    if state == Modifying then Replayed(m, ops) else m
  }

  /** The steps that were carried out, of which a step may be missing only if a node could not be loaded. */
  function Taken<T>(xs: seq<T>, done: seq<bool>): seq<T>
    requires |done| == |xs|
  {
    if xs == [] then []
    else
      var n := |xs| - 1;
      Taken(xs[..n], done[..n]) + if done[n] then [xs[n]] else []
  }

  lemma {:induction false} AllTaken<T>(xs: seq<T>, done: seq<bool>)
    requires |done| == |xs| && forall i :: 0 <= i < |done| ==> done[i]
    ensures Taken(xs, done) == xs
  {
    if xs != [] {
      var n := |xs| - 1;
      AllTaken(xs[..n], done[..n]);
    }
  }

  lemma {:induction false} TakenStep<T>(xs: seq<T>, done: seq<bool>, ok: bool)
    requires |done| < |xs|
    ensures var n := |done|; Taken(xs[..n + 1], done + [ok]) == Taken(xs[..n], done) + if ok then [xs[n]] else []
  {
    var n := |done|;
    assert xs[..n + 1][..n] == xs[..n] && (done + [ok])[..n] == done;
  }

  /** A step fails only for a node that cannot be loaded, and then leaves the map as it was. */
  method Perform(sm: SHAMap, op: Op) returns (ok: bool)
    requires sm.Valid()
    modifies sm`root, sm`shape, sm`contents, Foot(sm.shape)
    ensures sm.Valid() && sm.state == old(sm.state) && sm.family == old(sm.family) && (!ok ==> MayFail(sm.family))
    ensures sm.contents == if ok && sm.state == Modifying then After(old(sm.contents), op) else old(sm.contents)
    ensures forall o :: o in Foot(sm.shape) ==> o in old(Foot(sm.shape)) || fresh(o)
  {
    hide SHAMap.Valid, SHAMap.Answering, Foot;
    match op {
      case Find(key) =>
        ValidAnswers(sm);
        var found;
        ok, found := sm.Get(key);
      case Write(key, data) =>
        var r := sm.Put(key, data);
        ok := r != ErrLoad;
      case Remove(key) =>
        var r := sm.Delete(key);
        ok := r != ErrLoad;
        assert r == ErrItemNotFound ==> sm.contents - {key} == sm.contents;
    }
  }

  /** Any run of operations: the contents are those of the steps taken, and the root hash is that of the contents. */
  method Run(sm: SHAMap, ops: seq<Op>) returns (done: seq<bool>)
    requires sm.Valid()
    modifies sm`root, sm`shape, sm`contents, Foot(sm.shape)
    ensures sm.Valid() && sm.state == old(sm.state) && sm.family == old(sm.family)
    ensures |done| == |ops| && sm.contents == Outcomes(sm.state, old(sm.contents), Taken(ops, done))
    ensures !MayFail(sm.family) ==> sm.contents == Outcomes(sm.state, old(sm.contents), ops)
    ensures forall i :: 0 <= i < |done| && !done[i] ==> MayFail(sm.family)
    ensures sm.root.hash == HashOf(CanonRoot(LeafKind(sm.mapType), sm.contents))
    ensures forall o :: o in Foot(sm.shape) ==> o in old(Foot(sm.shape)) || fresh(o)
  {
    hide SHAMap.Valid, Foot, Outcomes, Taken;
    done := [];
    OutcomesStep(sm.state, sm.contents, ops, [], true);
    for i := 0 to |ops|
      invariant sm.Valid() && sm.state == old(sm.state) && sm.family == old(sm.family)
      invariant |done| == i && sm.contents == Outcomes(sm.state, old(sm.contents), Taken(ops[..i], done))
      invariant forall j :: 0 <= j < |done| && !done[j] ==> MayFail(sm.family)
      invariant forall o :: o in Foot(sm.shape) ==> o in old(Foot(sm.shape)) || fresh(o)
    {
      var ok := Perform(sm, ops[i]);
      OutcomesStep(sm.state, old(sm.contents), ops, done, ok);
      done := done + [ok];
    }
    assert ops[..|ops|] == ops;
    if !MayFail(sm.family) { AllTaken(ops, done); }
    HashOfContents(sm);
  }

  lemma {:induction false} OutcomesStep(state: State, m: Contents, ops: seq<Op>, done: seq<bool>, ok: bool)
    requires |done| <= |ops|
    ensures done == [] ==> Outcomes(state, m, Taken(ops[..0], done)) == m
    ensures |done| < |ops| ==> var n := |done|; var before := Outcomes(state, m, Taken(ops[..n], done));
      Outcomes(state, m, Taken(ops[..n + 1], done + [ok])) == if ok && state == Modifying then After(before, ops[n]) else before
  {
    if |done| < |ops| {
      TakenStep(ops, done, ok);
      var before := Taken(ops[..|done|], done);
      OutcomesPlus(state, m, before, ops[|done|]);
      assert before + [] == before;
    }
  }

  lemma {:induction false} OutcomesPlus(state: State, m: Contents, ops: seq<Op>, op: Op)
    ensures Outcomes(state, m, ops + [op]) == if state == Modifying then After(Outcomes(state, m, ops), op) else Outcomes(state, m, ops)
  {
    assert (ops + [op])[..|ops|] == ops;
  }

  lemma {:induction false} HashOfContents(sm: SHAMap)
    requires sm.Valid()
    ensures sm.root.hash == HashOf(CanonRoot(LeafKind(sm.mapType), sm.contents))
  {
    RootHash(EnvOf(sm.family), sm.shape);
  }

  // ---------- history independence ----------

  /** Tree and root hash depend on the contents alone, however the two maps are backed and loaded. */
  lemma {:induction false} SameContentsSameHash(a: SHAMap, b: SHAMap)
    requires a.Valid() && b.Valid() && a.mapType == b.mapType && a.contents == b.contents
    ensures TreeOf(a.shape) == TreeOf(b.shape) && a.root.hash == b.root.hash
  {
  }

  lemma {:induction false} SameHashSameContents(a: SHAMap, b: SHAMap, ps: set<bytes>)
    requires a.Valid() && b.Valid() && a.mapType == b.mapType && a.root.hash == b.root.hash
    requires AllBound(LeafKind(a.mapType), a.contents) && AllBound(LeafKind(b.mapType), b.contents)
    requires CollisionFree(ps) && Preimages(TreeOf(a.shape)) <= ps && Preimages(TreeOf(b.shape)) <= ps
    ensures a.contents == b.contents
  {
    HashOfContents(a);
    HashOfContents(b);
    RootHashPinsContents(LeafKind(a.mapType), a.contents, b.contents, ps);
  }

  /** Two runs from empty maps, backed or not: equal results have equal root hashes. */
  method TwoHistories(mapType: MapType, f: MemoryFamily?, g: MemoryFamily?, xs: seq<Op>, ys: seq<Op>)
    returns (a: SHAMap, b: SHAMap)
    ensures a.Valid() && b.Valid() && (a.contents == b.contents ==> a.root.hash == b.root.hash)
    ensures !MayFail(f) ==> a.contents == Replayed(map[], xs)
    ensures !MayFail(g) ==> b.contents == Replayed(map[], ys)
  {
    hide SHAMap.Valid, Foot, HashOf, CanonRoot;
    a := new SHAMap.New(mapType, f);
    var _ := Run(a, xs);
    FootAllocated(a.shape);
    b := new SHAMap.New(mapType, g);
    var _ := Run(b, ys);
  }

  // ---------- two maps side by side ----------

  ghost predicate Separate(a: SHAMap, b: SHAMap)
    reads a, b
  {
    a != b && Foot(a.shape) !! Foot(b.shape)
  }

  /** An operation on one map leaves a separate one as it was. */
  method PerformBeside(a: SHAMap, b: SHAMap, op: Op) returns (ok: bool)
    requires a.Valid() && b.Valid() && Separate(a, b)
    modifies a`root, a`shape, a`contents, Foot(a.shape)
    ensures a.Valid() && a.state == old(a.state) && a.family == old(a.family) && (!ok ==> MayFail(a.family))
    ensures a.contents == if ok && a.state == Modifying then After(old(a.contents), op) else old(a.contents)
    ensures b.Valid() && b.contents == old(b.contents) && b.state == old(b.state) && b.family == old(b.family) && b.root.hash == old(b.root.hash)
    ensures b.shape == old(b.shape)
    ensures Separate(a, b) && forall o :: o in Foot(a.shape) ==> o in old(Foot(a.shape)) || fresh(o)
  {
    hide SHAMap.Valid, Foot, HashOf, CanonRoot;
    FootTypes(a.shape);
    FootTypes(b.shape);
    FootAllocated(b.shape);
    HashOfContents(b);
    ok := Perform(a, op);
    HashOfContents(b);
  }

  /** The operations of a schedule that go to one of the two maps. */
  function Share(schedule: seq<(bool, Op)>, first: bool): seq<Op> {
    if schedule == [] then []
    else
      var last := schedule[|schedule| - 1];
      Share(schedule[..|schedule| - 1], first) + if last.0 == first then [last.1] else []
  }

  lemma {:induction false} ShareStep(schedule: seq<(bool, Op)>, done: seq<bool>, ok: bool, first: bool, state: State, m: Contents)
    requires |done| < |schedule|
    ensures var n := |done|; var before := Outcomes(state, m, Share(Taken(schedule[..n], done), first));
      Outcomes(state, m, Share(Taken(schedule[..n + 1], done + [ok]), first)) ==
        if ok && schedule[n].0 == first && state == Modifying then After(before, schedule[n].1) else before
  {
    hide Taken, Share, Outcomes;
    var n := |done|;
    var taken := Taken(schedule[..n], done);
    TakenStep(schedule, done, ok);
    SharePlus(taken, schedule[n], first);
    OutcomesPlus(state, m, Share(taken, first), schedule[n].1);
    assert taken + [] == taken;
  }

  lemma {:induction false} SharePlus(schedule: seq<(bool, Op)>, step: (bool, Op), first: bool)
    ensures Share(schedule + [step], first) == if step.0 == first then Share(schedule, first) + [step.1] else Share(schedule, first)
  {
    assert (schedule + [step])[..|schedule|] == schedule;
  }

  /** Any interleaving of operations on two separate maps: each ends as if it had been alone. */
  method Interleave(a: SHAMap, b: SHAMap, schedule: seq<(bool, Op)>) returns (done: seq<bool>)
    requires a.Valid() && b.Valid() && Separate(a, b)
    modifies a`root, a`shape, a`contents, Foot(a.shape), b`root, b`shape, b`contents, Foot(b.shape)
    ensures a.Valid() && b.Valid() && Separate(a, b) && a.state == old(a.state) && a.family == old(a.family) && b.state == old(b.state) && b.family == old(b.family)
    ensures |done| == |schedule| && forall i :: 0 <= i < |done| && !done[i] ==> MayFail(if schedule[i].0 then a.family else b.family)
    ensures a.contents == Outcomes(a.state, old(a.contents), Share(Taken(schedule, done), true))
    ensures b.contents == Outcomes(b.state, old(b.contents), Share(Taken(schedule, done), false))
    ensures a.root.hash == HashOf(CanonRoot(LeafKind(a.mapType), a.contents))
    ensures b.root.hash == HashOf(CanonRoot(LeafKind(b.mapType), b.contents))
  {
    hide SHAMap.Valid, Foot, HashOf, CanonRoot, Outcomes, Share, Taken;
    done := [];
    OutcomesNone(a.state, a.contents, schedule[..0]);
    OutcomesNone(b.state, b.contents, schedule[..0]);
    for i := 0 to |schedule|
      invariant a.Valid() && b.Valid() && Separate(a, b) && a.state == old(a.state) && a.family == old(a.family) && b.state == old(b.state) && b.family == old(b.family)
      invariant |done| == i && forall j :: 0 <= j < i && !done[j] ==> MayFail(if schedule[j].0 then a.family else b.family)
      invariant a.contents == Outcomes(a.state, old(a.contents), Share(Taken(schedule[..i], done), true))
      invariant b.contents == Outcomes(b.state, old(b.contents), Share(Taken(schedule[..i], done), false))
      invariant forall o :: o in Foot(a.shape) ==> o in old(Foot(a.shape)) || fresh(o)
      invariant forall o :: o in Foot(b.shape) ==> o in old(Foot(b.shape)) || fresh(o)
    {
      var ok;
      if schedule[i].0 {
        ok := PerformBeside(a, b, schedule[i].1);
      } else {
        ok := PerformBeside(b, a, schedule[i].1);
      }
      ShareStep(schedule, done, ok, true, a.state, old(a.contents));
      ShareStep(schedule, done, ok, false, b.state, old(b.contents));
      done := done + [ok];
    }
    assert schedule[..|schedule|] == schedule;
    HashOfContents(a);
    HashOfContents(b);
  }

  lemma {:induction false} OutcomesNone(state: State, m: Contents, none: seq<(bool, Op)>)
    requires none == []
    ensures forall first :: Outcomes(state, m, Share(Taken(none, []), first)) == m
  {
  }

  /** A snapshot and its source never see each other's operations. */
  method SnapshotIsolation(sm: SHAMap, mutable: bool, schedule: seq<(bool, Op)>, ghost ps: set<bytes>)
    returns (r: Option<SHAMap>, done: seq<bool>)
    requires sm.Valid() && (sm.family != null ==> sm.CanSave(TrustOf(sm.family), ps))
    modifies sm`root, sm`shape, sm`contents, Foot(sm.shape), sm.family
    ensures r.Some? ==> sm.state != Invalid && (sm.family == null || old(sm.contents) != map[])
    ensures sm.state != Invalid && (sm.family == null || old(sm.contents) != map[]) && r.None? ==> MayFail(sm.family)
    ensures |done| == |schedule| && (!MayFail(sm.family) ==> Taken(schedule, done) == schedule)
    ensures r.Some? ==> r.value.Valid() && sm.Valid() && Separate(sm, r.value)
    ensures r.Some? ==> sm.contents == Outcomes(sm.state, old(sm.contents), Share(Taken(schedule, done), true))
    ensures r.Some? ==> r.value.contents == Outcomes(r.value.state, old(sm.contents), Share(Taken(schedule, done), false))
    ensures r.Some? ==> r.value.state == if mutable then Modifying else Immutable
    ensures r.Some? && !mutable ==> r.value.contents == old(sm.contents) && r.value.root.hash == old(sm.root.hash)
  {
    hide SHAMap.Valid, SHAMap.ValidIn, SHAMap.CanSave, Foot, HashOf, CanonRoot, Share, Taken, EnvAs;
    FootAllocated(sm.shape);
    HashOfContents(sm);
    AsSaid(sm, sm.family);
    r := sm.Snapshot(mutable, TrustOf(sm.family), ps);
    AsSaid(sm, sm.family);
    if r.Some? { AsSaid(r.value, sm.family); }
    if r.Some? {
      FootAllocated(sm.shape);
      FootAllocated(r.value.shape);
      done := Interleave(sm, r.value, schedule);
    } else {
      done := seq(|schedule|, i => true);
    }
    if !MayFail(sm.family) { AllTaken(schedule, done); }
  }

  /** Writing one map out keeps every map over the same store. */
  method SaveBeside(a: SHAMap, b: SHAMap, release: bool, ghost ps: set<bytes>) returns (ok: bool)
    requires a.Valid() && a.CanSave(TrustOf(a.family), ps) && b.Valid() && Separate(a, b) && a.family == b.family != null
    requires MayFail(b.family) ==> Preimages(TreeOf(b.shape)) <= ps
    modifies a`shape, Foot(a.shape), a.family
    ensures a.Valid() && a.contents == old(a.contents) && a.root.hash == old(a.root.hash) && (ok <==> a.contents != map[])
    ensures b.Valid() && b.contents == old(b.contents) && b.root.hash == old(b.root.hash)
    ensures Separate(a, b)
  {
    hide SHAMap.CanSave, Foot, HashOf, CanonRoot, Rep, Distinct, TreeOf;
    FootTypes(a.shape);
    FootTypes(b.shape);
    FootAllocated(b.shape);
    HashOfContents(b);
    ghost var env := EnvOf(b.family);
    ok := a.Save(release, TrustOf(a.family), ps);
    SavedGrows(a, env, TreeOf(b.shape), ps);
    RepGrows(env, EnvOf(b.family), b.shape, ps);
    HashOfContents(b);
  }

  lemma {:induction false} SavedGrows(a: SHAMap, env: Env, t: Tree, ps: set<bytes>)
    requires a.family != null && a.CanSave(TrustOf(a.family), ps) && env.backed && env.trust == TrustOf(a.family)
    requires Extends(env.store, a.family.store) && (MayFail(a.family) ==> Preimages(t) <= ps)
    ensures Grows(env, EnvOf(a.family), t, ps)
  {
  }

  /** A second flush finds nothing to write. */
  method FlushTwice(sm: SHAMap, release: bool, again: bool, ghost ps: set<bytes>) returns (ok: bool, second: Option<seq<FlushEntry>>)
    requires sm.family != null && sm.Valid() && sm.CanSave(TrustOf(sm.family), ps)
    modifies sm`shape, Foot(sm.shape), sm.family
    ensures ok <==> sm.contents != map[]
    ensures ok ==> second == Some([])
    ensures sm.contents == old(sm.contents) && sm.root.hash == old(sm.root.hash)
  {
    hide SHAMap.Valid, SHAMap.CanSave, Foot, HashOf, CanonRoot;
    AsSaid(sm, sm.family);
    ok := sm.Save(release, TrustOf(sm.family), ps);
    if ok {
      second := sm.FlushDirty(again, TrustOf(sm.family), ps);
    } else {
      second := None;
    }
  }
}
