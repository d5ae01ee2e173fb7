/** Whole synchronization runs: against arbitrary peers, and against an honest one. */
module SyncRuns {
  import opened Bytes
  import opened Tree
  import opened Codec
  import opened Shapes
  import opened Canonical
  import opened LeafOrder
  import opened Merkle
  import opened SyncTree
  import opened LevelOrder
  import opened ShaMap
  import opened Storage
  import opened Flushing
  import opened Sync
  import opened Unbacked

  /** What is hashed when the bytes are taken for a node. */
  ghost function Hashed(data: bytes): set<bytes> {
    if ParseWire(data).Some? then Preimages(ParseWire(data).value) else {}
  }

  // ---------- arbitrary peers ----------

  /** One answer of any kind: the root hash stays, and nothing is hashed that did not come in. */
  method Receive(sm: SHAMap, nodeHash: Hash, data: bytes, ghost ps: set<bytes>)
    requires sm.Syncable() && Preimages(TreeOf(sm.shape)) <= ps && Hashed(data) <= ps
    modifies sm`shape, Foot(sm.shape)
    ensures sm.Syncable() && sm.state == old(sm.state) && sm.family == old(sm.family) && sm.root == old(sm.root) && sm.root.hash == old(sm.root.hash)
    ensures Preimages(TreeOf(sm.shape)) <= ps && (old(AsReceived(sm.shape)) ==> AsReceived(sm.shape))
    ensures forall o :: o in Foot(sm.shape) ==> o in old(Foot(sm.shape)) || fresh(o)
  {
    hide SHAMap.Syncable, Foot, HashOf, Preimages, ParseWire, Filled, TreeOf, AsReceived;
    ghost var t := TreeOf(sm.shape);
    var r := sm.AddKnownNode(nodeHash, data);
    if r == SyncOk {
      ReceivedTree(data);
      FilledKeepsHash(t, nodeHash, ParseWire(data).value, 0);
    }
  }

  lemma {:induction false} ReceivedTree(data: bytes)
    requires ParseWire(data).Some?
    ensures !ParseWire(data).value.Nil?
  {
  }

  /** A root and then any answers in any order. If the run completes, the map holds exactly the items of the map with that root hash. */
  method Synchronize(sm: SHAMap, hash: Hash, rootData: bytes, feed: seq<(Hash, bytes)>, ghost m: Contents, ghost ps: set<bytes>)
    returns (started: bool, finished: bool)
    requires sm.Syncable() && HashOf(CanonRoot(LeafKind(sm.mapType), m)) == hash
    requires AllBound(LeafKind(sm.mapType), m) && forall k :: k in m ==> |m[k]| >= MIN_ITEM
    requires CollisionFree(ps) && Preimages(CanonRoot(LeafKind(sm.mapType), m)) <= ps
    requires Hashed(rootData) <= ps && forall i :: 0 <= i < |feed| ==> Hashed(feed[i].1) <= ps
    modifies sm`root, sm`shape, sm`state, sm`contents, Foot(sm.shape)
    ensures started ==> sm.Syncable() && AsReceived(sm.shape) && sm.root.hash == hash && sm.family == old(sm.family)
    ensures finished ==> started && sm.state == Modifying && sm.contents == m
    ensures finished ==> Leaves(TreeOf(sm.shape)) == Leaves(CanonRoot(LeafKind(sm.mapType), m))
    ensures finished ==> (sm.ValidIn(Detached()) <==> ZeroFree(TreeOf(sm.shape)))
  {
    hide SHAMap.Syncable, SHAMap.ValidIn, Foot, HashOf, Preimages, ParseWire, TreeOf, CanonRoot, Leaves, ZeroFree, Hashed, AsReceived;
    finished := false;
    var r := sm.AddRootNode(hash, rootData);
    started := r == SyncOk;
    if !started {
      return;
    }
    RootInputs(rootData);
    for i := 0 to |feed|
      invariant sm.Syncable() && sm.state == Syncing && sm.root.hash == hash && Preimages(TreeOf(sm.shape)) <= ps
      invariant AsReceived(sm.shape) && sm.family == old(sm.family)
      invariant fresh(Foot(sm.shape))
    {
      Receive(sm, feed[i].0, feed[i].1, ps);
    }
    r := sm.FinishSync(m, ps);
    finished := r == SyncOk;
  }

  lemma {:induction false} RootInputs(data: bytes)
    requires ParseWire(data).Some?
    ensures Preimages(ParseWire(data).value) <= Hashed(data)
  {
  }

  // ---------- an honest peer ----------

  /** The peer has the wire form of every node of s under its hash. */
  ghost predicate Serves(answers: map<Hash, bytes>, s: Tree) {
    match s
    case Leaf(kind, item) => Readable(kind, item) && HashOf(s) in answers && answers[HashOf(s)] == Wire(s).value
    case Inner(kids) =>
      && |kids| == BRANCH_FACTOR && !Bare(kids)
      && HashOf(s) in answers && answers[HashOf(s)] == Wire(s).value
      && forall i :: 0 <= i < |kids| ==> Serves(answers, kids[i])
    case _ => true
  }

  /** The node behind a hash, and what the peer answers for it. */
  lemma {:induction false} ServedNode(answers: map<Hash, bytes>, s: Tree, h: Hash, ps: set<bytes>) returns (x: Tree)
    requires Sound(s, ps) && CollisionFree(ps) && Serves(answers, s) && Has(s, h)
    ensures Sound(x, ps) && !x.Nil? && HashOf(x) == h && h in answers && ParseWire(answers[h]) == Some(Stubbed(x))
  {
    if HashOf(s) == h {
      x := s;
      ServedParses(s, ps);
    } else {
      var i :| 0 <= i < |s.kids| && Has(s.kids[i], h);
      SoundKid(s, i, ps);
      x := ServedNode(answers, s.kids[i], h, ps);
    }
  }

  lemma {:induction false} ServedParses(s: Tree, ps: set<bytes>)
    requires Sound(s, ps) && CollisionFree(ps) && !s.Nil?
    requires s.Leaf? ==> Readable(s.kind, s.item)
    ensures ParseWire(Wire(s).value) == Some(Stubbed(s))
  {
    hide ParseWire, Wire;
    if s.Leaf? {
      WireLeafRoundTrip(s.kind, s.item);
    } else {
      TidyZeroFree(s, ps);
      WireInnerRoundTrip(s.kids);
    }
  }

  /** The map to be fetched, held by a peer that answers for all its nodes. */
  ghost predicate Honest(kind: Kind, m: Contents, answers: map<Hash, bytes>, ps: set<bytes>) {
    && m != map[] && AllFit(Complete, kind, m) && CollisionFree(ps)
    && Preimages(CanonRoot(kind, m)) <= ps && Serves(answers, CanonRoot(kind, m))
  }

  lemma {:induction false} HonestRoot(kind: Kind, m: Contents, answers: map<Hash, bytes>, ps: set<bytes>)
    requires Honest(kind, m, answers, ps)
    ensures AllBound(kind, m) && Sound(CanonRoot(kind, m), ps)
  {
    hide CanonRoot;
    RootSound(kind, m);
  }

  /** The answer to a missing hash. */
  lemma {:induction false} Answered(kind: Kind, m: Contents, answers: map<Hash, bytes>, ps: set<bytes>, t: Tree, h: Hash)
    requires Honest(kind, m, answers, ps) && t.Inner? && Part(t, CanonRoot(kind, m)) && Lacks(t, h)
    ensures h in answers && ParseWire(answers[h]).Some? && HashOf(ParseWire(answers[h]).value) == h
    ensures var r := Filled(t, h, ParseWire(answers[h]).value, 0);
      && r.Some? && Part(r.value, CanonRoot(kind, m)) && Loaded(r.value) == Loaded(t) + 1
      && forall g :: g != h && Lacks(t, g) ==> Lacks(r.value, g)
  {
    hide CanonRoot, Part, Lacks, Filled, HashOf, ParseWire, Sound, Loaded, Has;
    HonestRoot(kind, m, answers, ps);
    LacksHas(t, CanonRoot(kind, m), h);
    var x := ServedNode(answers, CanonRoot(kind, m), h, ps);
    SoundWhole(x, ps);
    StubbedPart(x);
    HonestAnswer(kind, m, t, h, x, ps);
  }

  lemma {:induction false} SoundWhole(x: Tree, ps: set<bytes>)
    requires Sound(x, ps)
    ensures Whole(x)
  {
  }

  lemma {:induction false} CountTwice<T>(s: seq<T>, i: nat, j: nat)
    requires i < j < |s| && s[i] == s[j]
    ensures multiset(s)[s[i]] >= 2
  {
    assert s == s[..j] + [s[j]] + s[j + 1..];
    assert s[i] in s[..j];
  }

  /** No hash is reported twice. */
  lemma {:induction false} ReportedOnce(kind: Kind, m: Contents, answers: map<Hash, bytes>, ps: set<bytes>, t: Tree, missing: seq<MissingNode>)
    requires Honest(kind, m, answers, ps) && t.Inner? && Part(t, CanonRoot(kind, m)) && multiset(missing) == Sites(t, 0)
    ensures forall i :: 0 <= i < |missing| ==> Lacks(t, missing[i].hash)
    ensures forall i, j :: 0 <= i < j < |missing| ==> missing[i].hash != missing[j].hash
  {
    hide CanonRoot, Part, Lacks, HashOf, Sites, Sound, Has, Single;
    HonestRoot(kind, m, answers, ps);
    var root := CanonRoot(kind, m);
    forall i | 0 <= i < |missing| ensures missing[i] in Sites(t, 0) && Lacks(t, missing[i].hash) {
      assert missing[i] in multiset(missing);
      SiteLacks(t, 0, missing[i]);
    }
    forall i, j | 0 <= i < j < |missing| ensures missing[i].hash != missing[j].hash {
      if missing[i].hash == missing[j].hash {
        LacksHas(t, root, missing[i].hash);
        var x := ServedNode(answers, root, missing[i].hash, ps);
        RootSingle(kind, m, missing[i].hash, x, ps);
        SiteOnce(t, root, 0, x, missing[i], missing[j]);
        CountTwice(missing, i, j);
        assert false;
      }
    }
  }

  /** One round: every open place is reported, every answer is taken, and each loads one node. */
  method Round(sm: SHAMap, answers: map<Hash, bytes>, ghost m: Contents, ghost ps: set<bytes>) returns (missing: seq<MissingNode>)
    requires sm.Syncable() && sm.state == Syncing && Honest(LeafKind(sm.mapType), m, answers, ps)
    requires Part(TreeOf(sm.shape), CanonRoot(LeafKind(sm.mapType), m))
    modifies sm`shape, Foot(sm.shape)
    ensures sm.Syncable() && sm.state == Syncing && sm.root == old(sm.root) && sm.root.hash == old(sm.root.hash)
    ensures sm.family == old(sm.family) && (old(AsReceived(sm.shape)) ==> AsReceived(sm.shape))
    ensures Part(TreeOf(sm.shape), CanonRoot(LeafKind(sm.mapType), m))
    ensures Loaded(TreeOf(sm.shape)) == old(Loaded(TreeOf(sm.shape))) + |missing|
    ensures missing == [] <==> old(Loaded(TreeOf(sm.shape))) == Loaded(CanonRoot(LeafKind(sm.mapType), m))
    ensures forall o :: o in Foot(sm.shape) ==> o in old(Foot(sm.shape)) || fresh(o)
  {
    hide SHAMap.Syncable, Foot, HashOf, ParseWire, Filled, TreeOf, CanonRoot, Honest, Part, Sites, Lacks, Loaded, Report, AsReceived;
    ghost var kind := LeafKind(sm.mapType);
    IsInner(sm);
    FootAllocated(sm.shape);
    missing := sm.GetMissingNodes(0, None);
    ReportedAll(TreeOf(sm.shape), Fetching(None), 0);
    PartWhole(TreeOf(sm.shape), CanonRoot(kind, m));
    ReportedOnce(kind, m, answers, ps, TreeOf(sm.shape), missing);
    for i := 0 to |missing|
      invariant sm.Syncable() && sm.state == Syncing && sm.root == old(sm.root) && sm.root.hash == old(sm.root.hash)
      invariant sm.family == old(sm.family) && (old(AsReceived(sm.shape)) ==> AsReceived(sm.shape))
      invariant Part(TreeOf(sm.shape), CanonRoot(kind, m))
      invariant Loaded(TreeOf(sm.shape)) == old(Loaded(TreeOf(sm.shape))) + i
      invariant forall j :: i <= j < |missing| ==> Lacks(TreeOf(sm.shape), missing[j].hash)
      invariant forall o :: o in Foot(sm.shape) ==> o in old(Foot(sm.shape)) || fresh(o)
    {
      var h := missing[i].hash;
      IsInner(sm);
      Answered(kind, m, answers, ps, TreeOf(sm.shape), h);
      var r := sm.AddKnownNode(h, answers[h]);
      assert r == SyncOk;
    }
  }

  lemma {:induction false} IsInner(sm: SHAMap)
    requires sm.Syncable()
    ensures TreeOf(sm.shape).Inner?
  {
  }

  /** With an honest peer the run ends, and the map is the peer's map. */
  method FetchAll(sm: SHAMap, answers: map<Hash, bytes>, ghost m: Contents, ghost ps: set<bytes>, hash: Hash)
    requires sm.Syncable() && Bare(TreeOf(sm.shape).kids)
    requires Honest(LeafKind(sm.mapType), m, answers, ps) && hash == HashOf(CanonRoot(LeafKind(sm.mapType), m))
    modifies sm`root, sm`shape, sm`state, sm`contents, Foot(sm.shape)
    ensures sm.ValidIn(Detached()) && AsReceived(sm.shape) && sm.state == Modifying && sm.contents == m && sm.root.hash == hash
    ensures sm.family == old(sm.family) && fresh(Foot(sm.shape))
  {
    hide SHAMap.Syncable, SHAMap.ValidIn, Foot, HashOf, ParseWire, TreeOf, CanonRoot, Honest, Part, Loaded, Preimages, ZeroFree, Wire, AsReceived;
    ghost var kind := LeafKind(sm.mapType);
    ghost var root := CanonRoot(kind, m);
    RootAnswered(kind, m, answers, ps);
    var r := sm.AddRootNode(hash, answers[hash]);
    var missing := Round(sm, answers, m, ps);
    PartWhole(TreeOf(sm.shape), root);
    while missing != []
      invariant sm.Syncable() && AsReceived(sm.shape) && sm.state == Syncing && sm.root.hash == hash && Part(TreeOf(sm.shape), root)
      invariant sm.family == old(sm.family)
      invariant missing == [] ==> Whole(TreeOf(sm.shape))
      invariant fresh(Foot(sm.shape))
      invariant Loaded(TreeOf(sm.shape)) <= Loaded(root)
      decreases Loaded(root) - Loaded(TreeOf(sm.shape)), |missing|
    {
      missing := Round(sm, answers, m, ps);
      PartWhole(TreeOf(sm.shape), root);
    }
    PartWhole(TreeOf(sm.shape), root);
    r := sm.FinishSync(m, ps);
    FetchedWhole(kind, m, answers, ps);
  }

  lemma {:induction false} RootAnswered(kind: Kind, m: Contents, answers: map<Hash, bytes>, ps: set<bytes>)
    requires Honest(kind, m, answers, ps)
    ensures var root := CanonRoot(kind, m);
      && HashOf(root) in answers && ParseWire(answers[HashOf(root)]).Some?
      && var t := ParseWire(answers[HashOf(root)]).value; t.Inner? && HashOf(t) == HashOf(root) && Part(t, root)
  {
    hide ParseWire, Part;
    HonestRoot(kind, m, answers, ps);
    ServedParses(CanonRoot(kind, m), ps);
    StubbedPart(CanonRoot(kind, m));
  }

  lemma {:induction false} FetchedWhole(kind: Kind, m: Contents, answers: map<Hash, bytes>, ps: set<bytes>)
    requires Honest(kind, m, answers, ps)
    ensures ZeroFree(CanonRoot(kind, m)) && Preimages(CanonRoot(kind, m)) <= ps && AllBound(kind, m) && CollisionFree(ps)
    ensures forall k :: k in m ==> |m[k]| >= MIN_ITEM
  {
    HonestRoot(kind, m, answers, ps);
    TidyZeroFree(CanonRoot(kind, m), ps);
  }
}
