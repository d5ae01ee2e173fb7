/** What becomes of a map that was received from peers, put over a store and written out. */
module Durability {
  import opened Bytes
  import opened Tree
  import opened Codec
  import opened Storage
  import opened Nodes
  import opened Shapes
  import opened Canonical
  import opened LeafOrder
  import opened Merkle
  import opened Walking
  import opened Flushing
  import opened Unbacked
  import opened Sync
  import opened ShaMap
  import opened SyncRuns
  import opened SyncTree

  // ---------- what a flush writes ----------

  /** The entries of the inner nodes, children before parents. */
  ghost function InnerEntries(t: Tree): seq<FlushEntry>
    decreases t, 0
  {
    if t.Inner? then InnerEntriesOf(t.kids) + [EntryOf(t)] else []
  }

  ghost function InnerEntriesOf(kids: seq<Tree>): seq<FlushEntry>
    decreases kids, 1
  {
    if kids == [] then [] else InnerEntriesOf(kids[..|kids| - 1]) + InnerEntries(kids[|kids| - 1])
  }

  /** Of a map as it was received a flush writes the inner nodes and no leaf. */
  lemma {:induction false} ReceivedWrites(env: Env, s: Shape, mk: Marks)
    requires Rep(env, s) && AllLoaded(s) && AsReceived(s) && Marked(s, mk) && Storable(Unread, TreeOf(s))
    ensures Written(mk, TreeOf(s)) == InnerEntries(TreeOf(s))
    decreases s
  {
    hide EntryOf, Local;
    if s.SInner? {
      ReceivedDirty(env, s);
      forall i | 0 <= i < |s.kids| ensures Written(mk.kids[i], Trees(s.kids)[i]) == InnerEntries(Trees(s.kids)[i]) {
        assert Storable(Unread, Trees(s.kids)[i]);
        ReceivedWrites(env, s.kids[i], mk.kids[i]);
      }
      KidsListed(mk.kids, Trees(s.kids), |s.kids|);
    }
  }

  lemma {:induction false} ReceivedDirty(env: Env, s: Shape)
    requires s.SInner? && Rep(env, s) && AllLoaded(s) && AsReceived(s) && Storable(Unread, TreeOf(s))
    ensures s.node.dirty
  {
    var i :| 0 <= i < |s.kids| && !Trees(s.kids)[i].Nil?;
    assert AllLoaded(s.kids[i]) && RefOf(s.kids[i]) != NoNode;
  }

  lemma {:induction false} KidsListed(ms: seq<Marks>, ts: seq<Tree>, n: nat)
    requires n <= |ms| == |ts| && forall i :: 0 <= i < n ==> Written(ms[i], ts[i]) == InnerEntries(ts[i])
    ensures WrittenOf(ms, ts) == InnerEntriesOf(ts) || n < |ms|
    ensures WrittenOf(ms[..n], ts[..n]) == InnerEntriesOf(ts[..n])
  {
    hide Written, InnerEntries;
    assert ms[..|ms|] == ms && ts[..|ts|] == ts;
    if n > 0 {
      KidsListed(ms, ts, n - 1);
      assert ms[..n][..n - 1] == ms[..n - 1] && ts[..n][..n - 1] == ts[..n - 1];
    }
  }

  // ---------- what is in the store then ----------

  ghost predicate Names(batch: seq<FlushEntry>, h: Hash) {
    exists i :: 0 <= i < |batch| && batch[i].hash == h
  }

  lemma {:induction false} BatchHas(store: Store, batch: seq<FlushEntry>, h: Hash)
    ensures h in WithBatch(store, batch) <==> h in store || Names(batch, h)
  {
    if batch != [] {
      var n := |batch| - 1;
      BatchHas(store, batch[..n], h);
      if Names(batch[..n], h) {
        var i :| 0 <= i < n && batch[..n][i].hash == h;
        assert batch[i].hash == h;
      }
      if Names(batch, h) && batch[n].hash != h {
        var i :| 0 <= i < |batch| && batch[i].hash == h;
        assert batch[..n][i].hash == h;
      }
      assert batch[n].hash == h ==> Names(batch, h);
    }
  }

  lemma {:induction false} NamesEither(a: seq<FlushEntry>, b: seq<FlushEntry>, h: Hash)
    ensures Names(a + b, h) <==> Names(a, h) || Names(b, h)
  {
    if i :| 0 <= i < |a| && a[i].hash == h { assert (a + b)[i].hash == h; }
    if i :| 0 <= i < |b| && b[i].hash == h { assert (a + b)[|a| + i].hash == h; }
  }

  /** Some inner node of t has the hash. */
  ghost predicate HasInner(t: Tree, h: Hash) {
    t.Inner? && (HashOf(t) == h || exists i :: 0 <= i < |t.kids| && HasInner(t.kids[i], h))
  }

  lemma {:induction false} EntriesName(t: Tree, h: Hash)
    ensures Names(InnerEntries(t), h) <==> HasInner(t, h)
    decreases t, 0
  {
    hide HashOf;
    if t.Inner? {
      KidEntriesName(t.kids, h);
      NamesEither(InnerEntriesOf(t.kids), [EntryOf(t)], h);
      assert [EntryOf(t)][0].hash == HashOf(t);
      assert Names([EntryOf(t)], h) <==> HashOf(t) == h;
    }
  }

  lemma {:induction false} KidEntriesName(kids: seq<Tree>, h: Hash)
    ensures Names(InnerEntriesOf(kids), h) <==> exists i :: 0 <= i < |kids| && HasInner(kids[i], h)
    decreases kids, 1
  {
    hide HasInner, InnerEntries;
    if kids != [] {
      var n := |kids| - 1;
      KidEntriesName(kids[..n], h);
      EntriesName(kids[n], h);
      NamesEither(InnerEntriesOf(kids[..n]), InnerEntries(kids[n]), h);
      assert forall i :: 0 <= i < n ==> kids[..n][i] == kids[i];
    }
  }

  /** A leaf is never taken for an inner node. */
  lemma {:induction false} LeafNotInner(t: Tree, kind: Kind, item: Item, ps: set<bytes>)
    requires CollisionFree(ps) && Preimages(t) <= ps && LeafPreimage(kind, item) in ps && Storable(Unread, t)
    ensures !HasInner(t, HashOf(Leaf(kind, item)))
    decreases t
  {
    hide LeafPreimage, InnerPreimage;
    if t.Inner? {
      assert InnerPreimage(Hashes(t.kids)) in Preimages(t);
      LeafIsNotInner(kind, item, Hashes(t.kids));
      forall i | 0 <= i < |t.kids| ensures !HasInner(t.kids[i], HashOf(Leaf(kind, item))) {
        KidInputs(t, i);
        LeafNotInner(t.kids[i], kind, item, ps);
      }
    }
  }

  // ---------- what can be reached then ----------

  /** Every inner node of t can be loaded. */
  ghost predicate InnersLoad(env: Env, t: Tree) {
    t.Inner? ==> Loadable(env, t) && forall i :: 0 <= i < |t.kids| ==> InnersLoad(env, t.kids[i])
  }

  lemma {:induction false} WrittenLoad(env: Env, t: Tree)
    requires Stored(env, t) && forall h :: HasInner(t, h) ==> h in env.store
    ensures InnersLoad(env, t)
  {
    hide HashOf;
    if t.Inner? {
      StoredParses(env, t);
      assert HasInner(t, HashOf(t));
      forall i | 0 <= i < |t.kids| ensures InnersLoad(env, t.kids[i]) {
        assert forall h :: HasInner(t.kids[i], h) ==> HasInner(t, h);
        WrittenLoad(env, t.kids[i]);
      }
    }
  }

  /** With the inner nodes at hand an entry is out of reach exactly if its leaf is. */
  lemma {:induction false} ReachedByLeaf(env: Env, kind: Kind, u: Contents, d: nat, k: Key)
    requires d <= MAX_DEPTH && Shared(u, d) && k in u && InnersLoad(env, Canon(kind, u, d))
    ensures Lost(Visible(env, Canon(kind, u, d)), k, d) <==> !Loadable(env, Leaf(kind, Item(k, u[k])))
    decreases MAX_DEPTH - d
  {
    hide Canon, Sub, Shared, Loadable;
    SharedCases(kind, u, d);
    if Canon(kind, u, d).Inner? { ReachedBelow(env, kind, u, d, k); }
  }

  lemma {:induction false} ReachedBelow(env: Env, kind: Kind, u: Contents, d: nat, k: Key)
    requires d < MAX_DEPTH && Shared(u, d) && k in u && forall i :: 0 <= i < BRANCH_FACTOR ==> InnersLoad(env, CanonKids(kind, u, d)[i])
    ensures Lost(Inner(Visibles(env, CanonKids(kind, u, d))), k, d) <==> !Loadable(env, Leaf(kind, Item(k, u[k])))
    decreases MAX_DEPTH - d, 0
  {
    hide Canon, Sub, Shared, Loadable, Visible, InnersLoad;
    var b := SelectBranch(k, d);
    SharedStep(u, d, b);
    SubAt(u, d, b, k);
    assert InnersLoad(env, CanonKids(kind, u, d)[b]);
    ReachedByLeaf(env, kind, Sub(u, d, b), d + 1, k);
  }

  /** A leaf was in the store already, in a form that can be read. */
  ghost predicate Survives(store: Store, kind: Kind, item: Item) {
    HashOf(Leaf(kind, item)) in store && Readable(kind, item)
  }

  lemma {:induction false} LeafInput(kind: Kind, u: Contents, d: nat, k: Key)
    requires d <= MAX_DEPTH && Shared(u, d) && k in u
    ensures LeafPreimage(kind, Item(k, u[k])) in Preimages(Canon(kind, u, d))
    decreases MAX_DEPTH - d
  {
    hide Canon, Sub, Shared, LeafPreimage;
    SharedCases(kind, u, d);
    if Canon(kind, u, d).Inner? { LeafInputBelow(kind, u, d, k); }
  }

  lemma {:induction false} LeafInputBelow(kind: Kind, u: Contents, d: nat, k: Key)
    requires d < MAX_DEPTH && Shared(u, d) && k in u
    ensures LeafPreimage(kind, Item(k, u[k])) in Preimages(Inner(CanonKids(kind, u, d)))
    decreases MAX_DEPTH - d, 0
  {
    hide Canon, Sub, Shared, LeafPreimage, Preimages;
    var b := SelectBranch(k, d);
    SharedStep(u, d, b);
    SubAt(u, d, b, k);
    LeafInput(kind, Sub(u, d, b), d + 1, k);
    KidInputs(Inner(CanonKids(kind, u, d)), b);
  }

  lemma {:induction false} LeafLoads(env: Env, kind: Kind, item: Item, ps: set<bytes>)
    requires CollisionFree(ps) && Addressed(env.store, ps) && LeafPreimage(kind, item) in ps && Legible(kind, item)
    ensures Loadable(env, Leaf(kind, item)) <==> Survives(env.store, kind, item)
  {
    hide LeafPreimage, ParsePrefix, Readable;
    PrefixLeafRoundTrip(kind, item);
    if !Readable(kind, item) { PrefixLeafRefused(kind, item); }
  }

  /** Children that are not at hand are seen as far as the store has them. */
  lemma {:induction false} BaredView(env: Env, s: Shape)
    requires s.SInner? && Bared(s) && Rep(env, s)
    ensures View(env, s) == Inner(Visibles(env, TreeOf(s).kids))
  {
    forall i | 0 <= i < |s.kids| ensures View(env, s.kids[i]) == Visible(env, TreeOf(s.kids[i])) {
      assert RefOf(s.kids[i]) == NoNode;
    }
    assert Views(env, s.kids) == Visibles(env, Trees(s.kids));
  }

  /** After the inner nodes of a map have been written and its children released, an entry is out of reach exactly if its leaf was not in the store before. */
  lemma {:induction false} OutOfReach(env: Env, s: Shape, kind: Kind, m: Contents, store: Store, k: Key, ps: set<bytes>)
    requires s.SInner? && Bared(s) && Rep(env, s) && TreeOf(s) == CanonRoot(kind, m) && Stored(env, CanonRoot(kind, m)) && k in m
    requires env.store == WithBatch(store, InnerEntries(CanonRoot(kind, m))) && Addressed(env.store, ps) && CollisionFree(ps)
    requires Preimages(CanonRoot(kind, m)) <= ps && AllFit(Gapped, kind, m) && Storable(Unread, CanonRoot(kind, m))
    ensures Lost(View(env, s), k, 0) <==> !Survives(store, kind, Item(k, m[k]))
  {
    hide Canon, Rep, Stored, Storable, Preimages, Loadable, View, InnerEntries, LeafPreimage, HasInner, Lost, Names, Addressed, CollisionFree, HashOf;
    var root, item := CanonRoot(kind, m), Item(k, m[k]);
    BaredView(env, s);
    forall h ensures h in env.store <==> h in store || HasInner(root, h) {
      BatchHas(store, InnerEntries(root), h);
      EntriesName(root, h);
    }
    WrittenLoad(env, root);
    ReachedBelow(env, kind, m, 0, k);
    LeafInputBelow(kind, m, 0, k);
    LeafLoads(env, kind, item, ps);
    LeafNotInner(root, kind, item, ps);
  }

  // ---------- the whole run ----------

  /** What putting a map over the store takes: legible items, and no collision among everything hashed. */
  ghost predicate Attachable(store: Store, kind: Kind, m: Contents, ps: set<bytes>) {
    && m != map[] && AllFit(Gapped, kind, m) && CollisionFree(ps) && Addressed(store, ps) && Preimages(CanonRoot(kind, m)) <= ps
  }

  lemma {:induction false} Attached(sm: SHAMap, family: MemoryFamily, ps: set<bytes>)
    requires sm.ValidIn(Detached()) && !family.complete && Attachable(family.store, LeafKind(sm.mapType), sm.contents, ps)
    ensures Rep(EnvOf(family), sm.shape) && AllLoaded(sm.shape) && Storable(Unread, TreeOf(sm.shape)) && family !in Foot(sm.shape)
  {
    hide Rep, Distinct, Foot, Storable, AllLoaded, Preimages, Whole;
    var kind := LeafKind(sm.mapType);
    FootTypes(sm.shape);
    KidsWhole(kind, sm.contents, 0);
    WholeIsLoaded(sm.shape);
    RootStorable(Gapped, kind, sm.contents, ps);
    RootStorable(Unread, kind, sm.contents, ps);
    OverStore(EnvOf(family), sm.shape, ps);
  }

  /**
   * A map received from peers is put over a store and written out. The store gains the inner nodes only, and once the children
   * are released an entry can still be looked up exactly if the store had its leaf before.
   */
  method KeepReceived(sm: SHAMap, family: MemoryFamily, release: bool, ghost ps: set<bytes>) returns (ok: bool)
    requires sm.ValidIn(Detached()) && AsReceived(sm.shape)
    requires !family.complete && Attachable(family.store, LeafKind(sm.mapType), sm.contents, ps)
    modifies sm`family, sm`shape, Foot(sm.shape), family
    ensures ok && sm.Valid() && sm.family == family && sm.contents == old(sm.contents) && sm.root.hash == old(sm.root.hash) && !sm.root.dirty
    ensures Attachable(family.store, LeafKind(sm.mapType), sm.contents, ps)
    ensures family.store == WithBatch(old(family.store), InnerEntries(CanonRoot(LeafKind(sm.mapType), sm.contents)))
    ensures forall k :: k in sm.contents ==>
      (Stuck(family, sm.shape, k) <==> release && !Survives(old(family.store), LeafKind(sm.mapType), Item(k, sm.contents[k])))
  {
    hide Rep, Distinct, Foot, Storable, AllLoaded, Preimages, CanonRoot, AsReceived, TreeOf, InnerEntries, Written, Marked, Stuck, Survives, Addressed, CollisionFree;
    ghost var kind, m, store := LeafKind(sm.mapType), sm.contents, family.store;
    Attached(sm, family, ps);
    ReceivedDirty(EnvOf(family), sm.shape);
    FootAllocated(sm.shape);
    sm.SetFamily(family);
    forall mk | Marked(sm.shape, mk) ensures Written(mk, TreeOf(sm.shape)) == InnerEntries(TreeOf(sm.shape)) {
      ReceivedWrites(EnvOf(family), sm.shape, mk);
    }
    AsSaid(sm, family);
    ok := sm.Save(release, Gapped, ps);
    AsSaid(sm, family);
    if release {
      NotDirtyIsStored(EnvOf(family), sm.shape);
      ReleasedReach(sm, family, store, ps);
    } else {
      forall k ensures !Stuck(family, sm.shape, k) {
        NeverStuck(family, sm.shape, k);
      }
    }
  }

  lemma {:induction false} ReleasedReach(sm: SHAMap, family: MemoryFamily, store: Store, ps: set<bytes>)
    requires sm.Valid() && sm.family == family && Bared(sm.shape) && Stored(EnvOf(family), CanonRoot(LeafKind(sm.mapType), sm.contents))
    requires var kind := LeafKind(sm.mapType);
      Attachable(family.store, kind, sm.contents, ps) && family.store == WithBatch(store, InnerEntries(CanonRoot(kind, sm.contents)))
    ensures forall k :: k in sm.contents ==> (Stuck(family, sm.shape, k) <==> !Survives(store, LeafKind(sm.mapType), Item(k, sm.contents[k])))
  {
    hide Rep, Distinct, Foot, Storable, Preimages, InnerEntries, Survives, CanonRoot, TreeOf, Addressed, CollisionFree, View, Lost, Stored;
    var kind, m := LeafKind(sm.mapType), sm.contents;
    RootStorable(Unread, kind, m, ps);
    forall k | k in m ensures Lost(View(EnvOf(family), sm.shape), k, 0) <==> !Survives(store, kind, Item(k, m[k])) {
      OutOfReach(EnvOf(family), sm.shape, kind, m, store, k, ps);
    }
  }

  lemma {:induction false} AllThere(env: Env, s: Shape, k: Key, d: nat)
    requires AllLoaded(s)
    ensures !Lost(View(env, s), k, d)
    decreases s
  {
    if s.SInner? && |s.kids| == BRANCH_FACTOR { AllThere(env, s.kids[SelectBranch(k, d)], k, d + 1); }
  }

  lemma {:induction false} NeverStuck(family: MemoryFamily, s: Shape, k: Key)
    requires AllLoaded(s)
    ensures !Stuck(family, s, k)
  {
    hide View, Lost;
    AllThere(EnvOf(family), s, k, 0);
  }

  /** The root is in the store then. */
  lemma {:induction false} RootThere(env: Env, t: Tree, store: Store)
    requires t.Inner? && Stored(env, t) && env.store == WithBatch(store, InnerEntries(t))
    ensures HashOf(t) in env.store && ParsePrefix(env.store[HashOf(t)]) == Some(Stubbed(t))
  {
    hide HashOf, InnerEntries, ParsePrefix;
    BatchHas(store, InnerEntries(t), HashOf(t));
    EntriesName(t, HashOf(t));
    StoredParses(env, t);
  }

  /** The map opened again from its root hash: the same contents, and within reach the entries whose leaves the store had before. */
  method Reopen(sm: SHAMap, family: MemoryFamily, release: bool, ghost ps: set<bytes>) returns (again: Option<SHAMap>)
    requires sm.ValidIn(Detached()) && AsReceived(sm.shape)
    requires !family.complete && Attachable(family.store, LeafKind(sm.mapType), sm.contents, ps)
    modifies sm`family, sm`shape, Foot(sm.shape), family
    ensures again.Some? && again.value.Valid() && again.value.family == family
    ensures again.value.contents == old(sm.contents) && again.value.root.hash == old(sm.root.hash)
    ensures forall k :: k in again.value.contents ==>
      (Stuck(family, again.value.shape, k) <==> !Survives(old(family.store), LeafKind(sm.mapType), Item(k, again.value.contents[k])))
  {
    hide Rep, Distinct, Foot, CanonRoot, AsReceived, TreeOf, InnerEntries, Stuck, Survives, Attachable, Stored, HashOf, ParsePrefix;
    ghost var store := family.store;
    var ok := KeepReceived(sm, family, release, ps);
    NotDirtyIsStored(EnvOf(family), sm.shape);
    RootHash(EnvOf(family), sm.shape);
    RootIsInner(LeafKind(sm.mapType), sm.contents);
    RootThere(EnvOf(family), CanonRoot(LeafKind(sm.mapType), sm.contents), store);
    again := NewFromRootHash(sm.mapType, sm.root.hash, family, sm.state, sm.contents, Gapped);
    AsSaid(again.value, family);
    RootHash(EnvOf(family), again.value.shape);
    ReleasedReach(again.value, family, store, ps);
  }

  /** Fetching a map from an honest peer and writing it to an empty store with its children released leaves every entry out of reach. */
  method FetchAndKeep(sm: SHAMap, answers: map<Hash, bytes>, family: MemoryFamily, hash: Hash, ghost m: Contents, ghost ps: set<bytes>)
    requires sm.Syncable() && Bare(TreeOf(sm.shape).kids) && !family.complete && family.store == map[]
    requires Honest(LeafKind(sm.mapType), m, answers, ps) && hash == HashOf(CanonRoot(LeafKind(sm.mapType), m))
    modifies sm`root, sm`shape, sm`state, sm`contents, sm`family, Foot(sm.shape), family
    ensures sm.Valid() && sm.family == family && sm.contents == m && sm.root.hash == hash
    ensures forall k :: k in m ==> Stuck(family, sm.shape, k)
  {
    hide SHAMap.Syncable, SHAMap.ValidIn, Rep, Distinct, Foot, CanonRoot, AsReceived, TreeOf, InnerEntries, Stuck, Stored, HashOf, Honest, Preimages;
    FootTypes(sm.shape);
    FetchAll(sm, answers, m, ps, hash);
    HonestAttaches(LeafKind(sm.mapType), m, answers, ps);
    var ok := KeepReceived(sm, family, true, ps);
  }

  lemma {:induction false} HonestAttaches(kind: Kind, m: Contents, answers: map<Hash, bytes>, ps: set<bytes>)
    requires Honest(kind, m, answers, ps)
    ensures Attachable(map[], kind, m, ps)
  {
  }
}
