/** Wire bytes that bring a branch with a zero hash into a synchronized map. */
module Phantom {
  import opened Bytes
  import opened Tree
  import opened Codec
  import opened Shapes
  import opened Canonical
  import opened Merkle
  import opened SyncTree
  import opened SyncLookup
  import opened Unbacked
  import opened ShaMap

  /** The compressed form of a node with one more entry: a zero hash at position i. */
  function PhantomBytes(kids: seq<Tree>, i: nat): bytes
    requires |kids| == BRANCH_FACTOR && i < BRANCH_FACTOR
  {
    Entries(kids, 0) + (ZERO + [i]) + [WIRE_COMPRESSED]
  }

  lemma {:induction false} FillAppend(nd: bytes, more: bytes, kids: seq<Tree>)
    requires |kids| == BRANCH_FACTOR && |nd| % 33 == 0 && FillCompressed(nd, kids).Some?
    ensures FillCompressed(nd + more, kids) == FillCompressed(more, FillCompressed(nd, kids).value)
    decreases |nd|
  {
    if nd == [] {
      assert nd + more == more;
    } else {
      assert (nd + more)[..32] == nd[..32] && (nd + more)[32] == nd[32] && (nd + more)[33..] == nd[33..] + more;
      FillAppend(nd[33..], more, kids[nd[32] := Stub(nd[..32])]);
    }
  }

  lemma {:induction false} FreeBranch(kids: seq<Tree>, i: nat)
    requires i < |kids| && kids[i].Nil?
    ensures BranchCount(kids) < |kids|
  {
    if i == 0 {
      CountBound(kids[1..]);
    } else {
      FreeBranch(kids[1..], i - 1);
    }
  }

  lemma {:induction false} CountBound(kids: seq<Tree>)
    ensures BranchCount(kids) <= |kids|
  {
    if kids != [] { CountBound(kids[1..]); }
  }

  /** The root as those bytes bring it in. */
  ghost function PhantomRoot(kids: seq<Tree>, i: nat): Tree
    requires i < |kids|
  {
    Inner(Stubbed(Inner(kids)).kids[i := Stub(ZERO)])
  }

  /** The bytes parse, and the hash is that of the node without the extra branch. */
  lemma {:induction false} PhantomWire(kids: seq<Tree>, i: nat)
    requires |kids| == BRANCH_FACTOR && i < BRANCH_FACTOR && kids[i].Nil? && !Bare(kids)
    ensures ParseWire(PhantomBytes(kids, i)) == Some(PhantomRoot(kids, i))
    ensures PhantomRoot(kids, i).Inner? && HashOf(PhantomRoot(kids, i)) == HashOf(Inner(kids))
  {
    hide HashOf, Entries, FillCompressed;
    var es, one: bytes := Entries(kids, 0), ZERO + [i];
    assert kids[0..] == kids;
    EntriesSize(kids, 0);
    FreeBranch(kids, i);
    FillEntries(kids, 0);
    assert StubbedTo(kids, 0) == NoKids();
    FillAppend(es, one, NoKids());
    var ks := StubbedTo(kids, |kids|);
    assert Inner(ks) == Stubbed(Inner(kids));
    OneZero(ks, i);
    assert PhantomBytes(kids, i)[..|es| + 33] == es + one;
    PhantomHash(kids, i);
  }

  lemma {:induction false} OneZero(ks: seq<Tree>, i: nat)
    requires |ks| == BRANCH_FACTOR && i < BRANCH_FACTOR
    ensures FillCompressed(ZERO + [i], ks) == Some(ks[i := Stub(ZERO)])
  {
    var one: bytes := ZERO + [i];
    assert one[..32] == ZERO && one[33..] == [];
  }

  lemma {:induction false} PhantomHash(kids: seq<Tree>, i: nat)
    requires i < |kids| && kids[i].Nil? && !Bare(kids)
    ensures HashOf(PhantomRoot(kids, i)) == HashOf(Inner(kids))
  {
    var ks := PhantomRoot(kids, i).kids;
    assert Hashes(ks) == Hashes(kids);
    var j :| 0 <= j < |kids| && !kids[j].Nil?;
    assert !ks[j].Nil?;
  }

  /** The search for a place passes empty branches, leaves and other hashes. */
  lemma {:induction false} FilledAt(kids: seq<Tree>, i: nat, j: nat, h: Hash, node: Tree, d: nat)
    requires i <= j < |kids| && !kids[j].Nil? && HashOf(kids[j]) == h
    requires forall k :: i <= k < j ==> kids[k].Nil? || (HashOf(kids[k]) != h && !kids[k].Inner?)
    ensures FilledFrom(kids, i, h, node, d) == Some(kids[j := node])
    decreases j - i
  {
    if i < j { FilledAt(kids, i + 1, j, h, node, d); }
  }

  /** The root of a map with one entry. */
  function OneKid(kind: Kind, item: Item): seq<Tree> {
    NoKids()[SelectBranch(item.key, 0) := Leaf(kind, item)]
  }

  lemma {:induction false} OneRoot(kind: Kind, item: Item)
    ensures CanonRoot(kind, map[item.key := item.data]) == Inner(OneKid(kind, item))
    ensures !Bare(OneKid(kind, item)) && |OneKid(kind, item)| == BRANCH_FACTOR
    ensures forall j :: 0 <= j < BRANCH_FACTOR && j != SelectBranch(item.key, 0) ==> OneKid(kind, item)[j].Nil?
  {
    var m: Contents, b := map[item.key := item.data], SelectBranch(item.key, 0);
    var kids := CanonKids(kind, m, 0);
    forall j | 0 <= j < BRANCH_FACTOR ensures kids[j] == OneKid(kind, item)[j] {
      if j == b {
        assert Sub(m, 0, j) == m;
        CanonLeaf(kind, item.key, item.data, 1);
      } else {
        assert Sub(m, 0, j) == map[];
        CanonNil(kind, map[], 1);
      }
    }
    assert kids == OneKid(kind, item);
    assert !kids[b].Nil?;
  }

  /** The three trees of the run: the root as received, with the leaf, and with the empty node in the extra branch. */
  ghost function WithLeaf(kind: Kind, item: Item, i: nat): Tree
    requires i < BRANCH_FACTOR
  {
    Inner(OneKid(kind, item)[i := Stub(ZERO)])
  }

  ghost function WithPhantom(kind: Kind, item: Item, i: nat): Tree
    requires i < BRANCH_FACTOR
  {
    Inner(OneKid(kind, item)[i := Inner(NoKids())])
  }

  lemma {:induction false} Fills(kind: Kind, item: Item, i: nat)
    requires i < BRANCH_FACTOR && i != SelectBranch(item.key, 0) && HashOf(Leaf(kind, item)) != ZERO
    ensures Filled(PhantomRoot(OneKid(kind, item), i), HashOf(Leaf(kind, item)), Leaf(kind, item), 0) == Some(WithLeaf(kind, item, i))
    ensures Filled(WithLeaf(kind, item, i), ZERO, Inner(NoKids()), 0) == Some(WithPhantom(kind, item, i))
  {
    var kids, b, leaf := OneKid(kind, item), SelectBranch(item.key, 0), Leaf(kind, item);
    var root := PhantomRoot(kids, i).kids;
    FilledAt(root, 0, b, HashOf(leaf), leaf, 0);
    assert root[b := leaf] == WithLeaf(kind, item, i).kids;
    FilledAt(WithLeaf(kind, item, i).kids, 0, i, ZERO, Inner(NoKids()), 0);
    assert WithLeaf(kind, item, i).kids[i := Inner(NoKids())] == WithPhantom(kind, item, i).kids;
  }

  lemma {:induction false} PhantomFacts(kind: Kind, item: Item, i: nat, ps: set<bytes>)
    requires i < BRANCH_FACTOR && i != SelectBranch(item.key, 0) && Readable(kind, item)
    requires CollisionFree(ps) && Preimages(Inner(OneKid(kind, item))) <= ps
    ensures HashOf(Leaf(kind, item)) != ZERO && Wire(Leaf(kind, item)).Some? && ParseWire(Wire(Leaf(kind, item)).value) == Some(Leaf(kind, item))
    ensures var t := WithPhantom(kind, item, i); Whole(t) && !ZeroFree(t) && Preimages(t) <= ps
  {
    hide Preimages, HashOf, ParseWire, ZeroFree, CollisionFree, SelectBranch, Whole, CanonRoot;
    var kids, b := OneKid(kind, item), SelectBranch(item.key, 0);
    KidInputs(Inner(kids), b);
    LeafHash(Leaf(kind, item), ps);
    WireLeafRoundTrip(kind, item);
    OneRoot(kind, item);
    PhantomBranch(kids, i);
    PhantomInputs(kids, i);
    PhantomWhole(kind, item, i);
  }

  lemma {:induction false} PhantomWhole(kind: Kind, item: Item, i: nat)
    requires i < BRANCH_FACTOR
    ensures Whole(WithPhantom(kind, item, i))
  {
  }

  lemma {:induction false} PhantomInputs(kids: seq<Tree>, i: nat)
    requires i < |kids| == BRANCH_FACTOR && kids[i].Nil? && !Bare(kids)
    ensures Preimages(Inner(kids[i := Inner(NoKids())])) == Preimages(Inner(kids))
  {
    var e := Inner(NoKids());
    var ks := kids[i := e];
    assert Preimages(e) == {} by { assert Bare(NoKids()); }
    assert Hashes(ks) == Hashes(kids);
    var j :| 0 <= j < |kids| && !kids[j].Nil?;
    assert !ks[j].Nil?;
  }

  /**
   * Whatever the entry and the free branch, a peer can bring the zero branch in: every answer is accepted and
   * synchronization ends under the right root hash, with the right entry, in a tree that is not canonical.
   */
  method PhantomRun(item: Item, i: nat, ghost ps: set<bytes>) returns (sm: SHAMap)
    requires Readable(AccountState, item) && i < BRANCH_FACTOR && i != SelectBranch(item.key, 0)
    requires CollisionFree(ps) && Preimages(CanonRoot(AccountState, map[item.key := item.data])) <= ps
    ensures sm.state == Modifying && sm.contents == map[item.key := item.data] && sm.Answering()
    ensures sm.root.hash == HashOf(CanonRoot(AccountState, sm.contents))
    ensures !ZeroFree(TreeOf(sm.shape)) && !sm.Valid()
  {
    hide SHAMap.Syncable, SHAMap.Valid, SHAMap.ValidIn, SHAMap.HeapOk, SHAMap.Answering, SHAMap.SourceIs;
    hide Foot, ParseWire, Preimages, ZeroFree, TreeOf, CanonRoot, Filled, Whole, HashOf, Wire, Bare, CollisionFree, Readable;
    hide PhantomBytes, PhantomRoot, WithLeaf, WithPhantom, OneKid;
    var kids, leaf := OneKid(AccountState, item), Leaf(AccountState, item);
    ghost var m: Contents := map[item.key := item.data];
    OneRoot(AccountState, item);
    PhantomFacts(AccountState, item, i, ps);
    PhantomWire(kids, i);
    Fills(AccountState, item, i);
    BareWire();
    sm := new SHAMap.New(TypeState, null);
    EmptySyncable(sm);
    var r := sm.AddRootNode(HashOf(Inner(kids)), PhantomBytes(kids, i));
    r := sm.AddKnownNode(HashOf(leaf), Wire(leaf).value);
    r := sm.AddKnownNode(ZERO, [WIRE_COMPRESSED]);
    assert TreeOf(sm.shape) == WithPhantom(AccountState, item, i);
    r := sm.FinishSync(m, ps);
    PhantomSource(sm, item, ps);
    NotValid(sm);
  }

  lemma {:induction false} PhantomSource(sm: SHAMap, item: Item, ps: set<bytes>)
    requires sm.mapType == TypeState && Readable(AccountState, item) && CollisionFree(ps) && Preimages(TreeOf(sm.shape)) <= ps
    requires var t := CanonRoot(AccountState, map[item.key := item.data]); Preimages(t) <= ps && sm.root.hash == HashOf(t)
    ensures sm.SourceIs(map[item.key := item.data], ps)
  {
  }

  lemma {:induction false} NotValid(sm: SHAMap)
    requires sm.family == null
    ensures sm.Valid() <==> sm.ValidIn(Detached())
  {
  }

  lemma {:induction false} EmptySyncable(sm: SHAMap)
    requires sm.Valid() && sm.family == null && sm.contents == map[]
    ensures sm.Syncable() && TreeOf(sm.shape).Inner? && Bare(TreeOf(sm.shape).kids)
  {
    hide Rep, Distinct, Foot, TreeOf, CanonRoot, Wide;
    RootSound(LeafKind(sm.mapType), map[]);
    NothingThere(LeafKind(sm.mapType));
  }

  lemma {:induction false} NothingThere(kind: Kind)
    ensures CanonRoot(kind, map[]).Inner? && Bare(CanonRoot(kind, map[]).kids)
  {
    CanonNil(kind, map[], 1);
    assert forall i :: 0 <= i < BRANCH_FACTOR ==> Sub(map[], 0, i) == map[];
  }
}
