/** The SHAMap object. */
module ShaMap {
  import opened Bytes
  import opened Tree
  import opened Codec
  import opened Storage
  import opened Nodes
  import opened Shapes
  import opened Canonical
  import opened Walking
  import opened Insertion
  import opened Removal
  import opened Cloning
  import opened Flushing
  import opened Merkle
  import opened Proofs
  import opened ProofPaths
  import opened LeafOrder
  import opened SyncTree
  import opened LevelOrder
  import opened Sync
  import opened SyncLookup
  import opened Unbacked

  datatype MapType = TypeTransaction | TypeState
  datatype State = Modifying | Immutable | Syncing | Invalid
  datatype Outcome = Ok | ErrImmutable | ErrItemTooSmall | ErrItemNotFound | ErrLoad

  datatype SyncOutcome =
    | SyncOk | ErrSyncNotInProgress | ErrInvalidMap | ErrRootAlreadySet | ErrInvalidNodeData | ErrRootNotInner
    | ErrNodeHashMismatch | ErrUnexpectedNode | ErrIncomplete

  function LeafKind(t: MapType): Kind {
    match t
    case TypeTransaction => TransactionNoMeta
    case TypeState => AccountState
  }

  function ItemAt(m: Contents, key: Key): Option<Item> {
    if key in m then Some(Item(key, m[key])) else None
  }

  /** Every lookup in t, canonical or not, ends within the greatest depth with the entry of m. */
  ghost predicate Answers(t: Tree, m: Contents) {
    forall key :: Lookup(t, key, 0) == ItemAt(m, key) && !TooDeep(t, key, 0)
  }

  /** Without a filter every node is fetched. */
  function Fetching(filter: Option<Hash -> bool>): (fetch: Hash -> bool)
    ensures filter.None? ==> forall h :: fetch(h)
  {
    match filter
    case None => (h: Hash) => true
    case Some(fetch) => fetch
  }

  /** What a flush takes the nodes to lie over. */
  ghost function BaseOf(family: MemoryFamily?, trust: Trust): Env
    reads family
  {
    if family == null then Nowhere() else EnvAs(family, trust)
  }

  class SHAMap {
    const mapType: MapType
    var root: InnerNode
    var state: State
    var family: MemoryFamily?
    ghost var shape: Shape
    ghost var contents: Contents

    /** The node objects are sound, given what is in the store, and apart from the map object and the store. */
    ghost predicate HeapOk(env: Env)
      reads this, Foot(shape)
    {
      && shape.SInner? && shape.node == root
      && Rep(env, shape) && Distinct(shape)
      && this !in Foot(shape) && (family == null || family !in Foot(shape))
    }

    /** The nodes carry the canonical tree of the contents, hashes included. */
    ghost predicate ValidIn(env: Env)
      reads this, Foot(shape)
    {
      && HeapOk(env) && TreeOf(shape) == CanonRoot(LeafKind(mapType), contents)
      && forall k :: k in contents ==> |contents[k]| >= MIN_ITEM
    }

    ghost predicate Valid()
      reads this, family, Foot(shape)
    {
      ValidIn(EnvOf(family))
    }

    /** What writing the map out takes: items that meet what is expected of the store, and no collision among everything hashed. */
    ghost predicate CanSave(trust: Trust, ps: set<bytes>)
      reads this, family
    {
      && CollisionFree(ps) && (family != null ==> Addressed(family.store, ps))
      && (family != null ==> AllFit(trust, LeafKind(mapType), contents))
      && Preimages(CanonRoot(LeafKind(mapType), contents)) <= ps
    }

    /** Lookups answer from the contents, though the tree need not be canonical. */
    ghost predicate Answering()
      reads this, family, Foot(shape)
    {
      HeapOk(EnvOf(family)) && Answers(TreeOf(shape), contents)
    }

    constructor New(mapType: MapType, family: MemoryFamily?)
      ensures Valid() && contents == map[] && state == Modifying
      ensures this.mapType == mapType && this.family == family && fresh(Foot(shape))
    {
      this.mapType, this.family, state, contents := mapType, family, Modifying, map[];
      root := new InnerNode();
      shape := SInner(root, NilShapes());
      new;
      EmptyRep(EnvOf(family), root, LeafKind(mapType));
    }

    /** The entry under a key. */
    method Get(key: Key) returns (ok: bool, item: Option<Item>)
      requires Answering()
      modifies this`shape, Foot(shape)
      ensures Answering() && (old(Valid()) ==> Valid())
      ensures contents == old(contents) && state == old(state) && family == old(family) && root == old(root)
      ensures TreeOf(shape) == old(TreeOf(shape)) && root.hash == old(root.hash)
      ensures if ok then item == ItemAt(contents, key) else MayFail(family)
      ensures ok <==> !Stuck(family, old(shape), key)
      ensures forall o :: o in Foot(shape) ==> o in old(Foot(shape)) || fresh(o)
    {
      hide Rep, Distinct, TreeOf, CanonRoot, Foot, Lookup, TooDeep, Stuck;
      RootHash(EnvOf(family), shape);
      ghost var s;
      ok, item, s := FindItem(family, root, key, shape);
      FootAllocated(s);
      RootHash(EnvOf(family), s);
      shape := s;
    }

    /** Update of the map. A node that cannot be loaded ends the call with the map as it was. */
    method Put(key: Key, data: bytes) returns (r: Outcome)
      requires Valid()
      modifies this`root, this`shape, this`contents, Foot(shape)
      ensures Valid() && state == old(state) && family == old(family)
      ensures r == ErrLoad ==> MayFail(family)
      ensures r == ErrLoad <==> state == Modifying && old(Stuck(family, shape, key))
      ensures r != ErrLoad ==>
        r == if state != Modifying then ErrImmutable else if |data| < MIN_ITEM then ErrItemTooSmall else Ok
      ensures contents == if r == Ok then old(contents)[key := data] else old(contents)
      ensures r != Ok ==> root == old(root) && TreeOf(shape) == old(TreeOf(shape)) && root.hash == old(root.hash)
      ensures forall o :: o in Foot(shape) ==> o in old(Foot(shape)) || fresh(o)
    {
      hide Rep, Distinct, TreeOf, CanonRoot, Foot, Stuck;
      if state != Modifying {
        return ErrImmutable;
      }
      RootHash(EnvOf(family), shape);
      var c, newRoot;
      ghost var s;
      c, newRoot, s := PutItem(LeafKind(mapType), family, root, key, data, shape, contents);
      FootAllocated(s);
      RootHash(EnvOf(family), s);
      shape := s;
      if c != Done {
        return if c == LoadFailed then ErrLoad else ErrItemTooSmall;
      }
      root, contents := newRoot, contents[key := data];
      r := Ok;
    }

    /** Removal from the map. A node that cannot be loaded ends the call with the map as it was. */
    method Delete(key: Key) returns (r: Outcome)
      requires Valid()
      modifies this`root, this`shape, this`contents, Foot(shape)
      ensures Valid() && state == old(state) && family == old(family)
      ensures r == ErrLoad ==> MayFail(family) && state == Modifying
      ensures state == Modifying && old(Stuck(family, shape, key)) ==> r == ErrLoad
      ensures key !in old(contents) && r == ErrLoad ==> old(Stuck(family, shape, key))
      ensures r != ErrLoad ==>
        r == if state != Modifying then ErrImmutable else if key !in old(contents) then ErrItemNotFound else Ok
      ensures contents == if r == Ok then old(contents) - {key} else old(contents)
      ensures r != Ok ==> root == old(root) && TreeOf(shape) == old(TreeOf(shape)) && root.hash == old(root.hash)
      ensures forall o :: o in Foot(shape) ==> o in old(Foot(shape)) || fresh(o)
    {
      hide Rep, Distinct, TreeOf, CanonRoot, Foot, Stuck;
      if state != Modifying {
        return ErrImmutable;
      }
      RootHash(EnvOf(family), shape);
      var c, newRoot;
      ghost var s;
      c, newRoot, s := DeleteItem(LeafKind(mapType), family, root, key, shape, contents);
      FootAllocated(s);
      RootHash(EnvOf(family), s);
      shape := s;
      if c != Done {
        return if c == LoadFailed then ErrLoad else ErrItemNotFound;
      }
      root, contents := newRoot, contents - {key};
      r := Ok;
    }

    /** Walks to the key and serializes the nodes passed, leaf first. */
    method ProofPath(key: Key) returns (ok: bool, found: bool, path: seq<bytes>)
      requires Valid()
      modifies this`shape, Foot(shape)
      ensures Valid() && contents == old(contents) && state == old(state) && family == old(family) && root == old(root)
      ensures (!ok ==> MayFail(family)) && (ok <==> !Stuck(family, old(shape), key))
      ensures ok ==> found == (key in contents)
      ensures ok ==> path == if found then PathOf(CanonRoot(LeafKind(mapType), contents), key, 0) else []
      ensures forall o :: o in Foot(shape) ==> o in old(Foot(shape)) || fresh(o)
    {
      hide Rep, Distinct, TreeOf, CanonRoot, Foot, PathOf, Stuck;
      ghost var s;
      ok, found, path, s := GetProofPath(LeafKind(mapType), family, root, key, shape, contents);
      FootAllocated(s);
      shape := s;
    }

    /** A map around an existing root. */
    constructor Over(mapType: MapType, root: InnerNode, state: State, family: MemoryFamily?, ghost shape: Shape, ghost contents: Contents)
      ensures this.mapType == mapType && this.root == root && this.state == state && this.family == family
      ensures this.shape == shape && this.contents == contents
    {
      this.mapType, this.root, this.state, this.family := mapType, root, state, family;
      this.shape, this.contents := shape, contents;
    }

    /**
     * The prefix forms of the dirty nodes, children before parents; an empty map cannot be written.
     * A map without a store that is told to release its children keeps their hashes only.
     * Whatever was expected of the store is met again once the batch is in it; with no expectation any items are written.
     */
    method FlushDirty(release: bool, ghost trust: Trust, ghost ps: set<bytes>) returns (batch: Option<seq<FlushEntry>>)
      requires ValidIn(EnvAs(family, trust)) && CanSave(trust, ps)
      modifies this`shape, Foot(shape)
      ensures contents == old(contents) && state == old(state) && family == old(family) && root == old(root) && root.hash == old(root.hash)
      ensures batch.None? <==> contents == map[] && old(root.dirty)
      ensures batch.None? ==> ValidIn(EnvAs(family, trust)) && root.dirty
      ensures batch.Some? ==> !root.dirty && exists mk :: old(Marked(shape, mk)) && batch.value == Written(mk, old(TreeOf(shape)))
      ensures batch.Some? && !old(root.dirty) ==> batch.value == []
      ensures batch.Some? && family != null ==> ValidIn(Saved(EnvAs(family, trust), batch.value))
      ensures batch.Some? && family != null ==> BatchOk(EnvAs(family, trust), batch.value, ps) && Later(EnvAs(family, trust), [], batch.value)
      ensures batch.Some? && family == null && !(release && old(root.dirty)) ==> Valid()
      ensures batch.Some? && family == null && release && old(root.dirty) ==>
        HeapOk(EnvOf(family)) && TreeOf(shape) == Stubbed(old(TreeOf(shape)))
      ensures if release && batch.Some? && old(root.dirty) then Bared(shape) else shape == old(shape)
      ensures Foot(shape) <= old(Foot(shape))
    {
      hide Rep, Distinct, TreeOf, CanonRoot, Foot, BatchOk, Storable, Sources, Stored, Marked, Written, Flushed, Bared, CanSave;
      ghost var base := BaseOf(family, trust);
      ghost var mk := MarksOf(shape);
      RootHash(EnvAs(family, trust), shape);
      FlushReady(this, trust, ps);
      if !root.dirty {
        NothingMarked(shape, mk);
        return Some([]);
      }
      FootAllocated(shape);
      var ok, out;
      ghost var s;
      ok, out, s := FlushNode(InnerRef(root), release, [], base, shape, ps, mk);
      FlushedRoot(family == null, Saved(base, out), shape, s, ok, release);
      RootHash(Saved(base, out), s);
      if !ok {
        return None;
      }
      if family == null && release {
        shape := SInner(root, Forgotten(s.kids));
      } else {
        shape := s;
      }
      FootAllocated(shape);
      RootHash(if family == null then Detached() else Saved(base, out), shape);
      batch := Some(out);
    }

    /** Flushes and stores: the map is then valid over the larger store, and a further flush finds nothing. */
    method Save(release: bool, ghost trust: Trust, ghost ps: set<bytes>) returns (ok: bool)
      requires family != null && ValidIn(EnvAs(family, trust)) && CanSave(trust, ps)
      modifies this`shape, Foot(shape), family
      ensures ValidIn(EnvAs(family, trust)) && contents == old(contents) && state == old(state) && family == old(family) && root == old(root) && root.hash == old(root.hash)
      ensures ok <==> contents != map[]
      ensures CanSave(trust, ps) && Extends(old(family.store), family.store)
      ensures ok ==> !root.dirty && exists mk :: old(Marked(shape, mk)) && family.store == WithBatch(old(family.store), Written(mk, old(TreeOf(shape))))
      ensures !ok || !old(root.dirty) ==> family.store == old(family.store)
      ensures if release && ok && old(root.dirty) then Bared(shape) else shape == old(shape)
      ensures TreeOf(shape) == old(TreeOf(shape))
      ensures Foot(shape) <= old(Foot(shape))
    {
      hide Rep, Distinct, TreeOf, CanonRoot, Foot, Storable, Stored, Closed, Addressed;
      EmptyIsDirty(this, EnvAs(family, trust));
      var batch := FlushDirty(release, trust, ps);
      if batch.None? {
        return false;
      }
      FootAllocated(shape);
      if batch.value != [] {
        family.StoreBatch(batch.value);
      }
      ok := true;
    }

    /** A second map with the same contents that shares no node with this one. */
    method Snapshot(mutable: bool, ghost trust: Trust, ghost ps: set<bytes>) returns (r: Option<SHAMap>)
      requires ValidIn(EnvAs(family, trust)) && (family != null ==> CanSave(trust, ps))
      modifies this`shape, Foot(shape), family
      ensures ValidIn(EnvAs(family, trust)) && contents == old(contents) && state == old(state) && family == old(family) && root == old(root) && root.hash == old(root.hash)
      ensures r.Some? ==> state != Invalid && (family == null || contents != map[])
      ensures state != Invalid && (family == null || contents != map[]) && r.None? ==> family != null && trust != Complete
      ensures r.Some? ==> fresh(r.value) && r.value.ValidIn(EnvAs(family, trust)) && fresh(Foot(r.value.shape))
      ensures r.Some? ==> r.value.contents == contents && r.value.root.hash == root.hash
      ensures r.Some? ==> r.value.mapType == mapType && r.value.family == family
      ensures r.Some? ==> r.value.state == if mutable then Modifying else Immutable
      ensures family != null ==> CanSave(trust, ps) && Extends(old(family.store), family.store)
      ensures Foot(shape) <= old(Foot(shape))
    {
      hide Rep, Distinct, TreeOf, CanonRoot, Foot, Storable, Stored, CanSave;
      var newState := if mutable then Modifying else Immutable;
      if family != null {
        var ok := Save(false, trust, ps);
        if !ok || state == Invalid {
          return None;
        }
        NotDirtyIsStored(EnvAs(family, trust), shape);
        RootHash(EnvAs(family, trust), shape);
        FootAllocated(shape);
        r := NewFromRootHash(mapType, root.hash, family, newState, contents, trust);
        if r.Some? {
          RootHash(EnvAs(family, trust), r.value.shape);
        }
      } else {
        if state == Invalid {
          return None;
        }
        FootAllocated(shape);
        RootHash(EnvOf(family), shape);
        var copy;
        ghost var c;
        copy, c := CloneTree(root, EnvOf(family), shape);
        FootAllocated(c);
        RootHash(EnvOf(family), c);
        var sm := new SHAMap.Over(mapType, copy, newState, null, c, contents);
        r := Some(sm);
      }
    }

    /** Puts the map over a store, or takes it off. The nodes stay as they are. */
    method SetFamily(family: MemoryFamily?)
      modifies this`family
      ensures this.family == family && (old(ValidIn(Detached())) ==> ValidIn(Detached()))
    {
      hide Rep, Distinct, TreeOf, CanonRoot, Foot;
      FootAllocated(shape);
      FootTypes(shape);
      this.family := family;
    }

    method SetImmutable() returns (ok: bool)
      modifies this`state
      ensures ok == (old(state) != Invalid) && state == if ok then Immutable else Invalid
      ensures old(Valid()) ==> Valid()
    {
      hide Rep, Distinct, TreeOf, CanonRoot, Foot;
      FootAllocated(shape);
      if state == Invalid {
        return false;
      }
      state, ok := Immutable, true;
    }

    // ---------- synchronization ----------

    /** The nodes received so far are sound: every hash is that of the node's bytes, loaded or not. */
    ghost predicate Syncable()
      reads this, Foot(shape)
    {
      HeapOk(Detached()) && Wide(TreeOf(shape)) && Bound(TreeOf(shape))
    }

    method StartSync() returns (r: SyncOutcome)
      modifies this`state
      ensures r == if old(state) == Invalid then ErrInvalidMap else SyncOk
      ensures state == if r == SyncOk then Syncing else Invalid
      ensures old(Syncable()) ==> Syncable()
    {
      hide Rep, Distinct, TreeOf, Foot, Wide, Bound;
      FootAllocated(shape);
      if state == Invalid {
        return ErrInvalidMap;
      }
      state, r := Syncing, SyncOk;
    }

    method AddRootNode(hash: Hash, data: bytes) returns (r: SyncOutcome)
      requires Syncable()
      modifies this`root, this`shape, this`state
      ensures Syncable()
      ensures var t := ParseWire(data);
        r == if !Bare(old(TreeOf(shape)).kids) then ErrRootAlreadySet
             else if t.None? then ErrInvalidNodeData
             else if !t.value.Inner? then ErrRootNotInner
             else if HashOf(t.value) != hash then ErrNodeHashMismatch
             else SyncOk
      ensures r == SyncOk ==> state == Syncing && TreeOf(shape) == ParseWire(data).value && root.hash == hash && fresh(Foot(shape))
      ensures r == SyncOk ==> AsReceived(shape)
      ensures r != SyncOk ==> state == old(state) && shape == old(shape) && root == old(root)
    {
      hide Rep, Distinct, TreeOf, Foot, HashOf, ParseWire, Wide, Bound, AsReceived;
      FootAllocated(shape);
      RootBits(shape, root);
      if !AllClear(root.isBranch) {
        return ErrRootAlreadySet;
      }
      var node := DeserializeNodeFromWire(data);
      if node.NoNode? {
        return ErrInvalidNodeData;
      }
      if !node.InnerRef? {
        return ErrRootNotInner;
      }
      Received(node, data);
      if node.inner.hash != hash {
        return ErrNodeHashMismatch;
      }
      ghost var k := LoadedShape(node, ParseWire(data).value);
      FootAllocated(k);
      root, shape, state, r := node.inner, k, Syncing, SyncOk;
    }

    /** Takes a node from a peer if its bytes hash to the given hash and a place names that hash. */
    method AddKnownNode(nodeHash: Hash, data: bytes) returns (r: SyncOutcome)
      requires Syncable()
      modifies this`shape, Foot(shape)
      ensures Syncable() && state == old(state) && family == old(family) && root == old(root) && root.hash == old(root.hash)
      ensures var t := ParseWire(data);
        r == if state != Syncing then ErrSyncNotInProgress
             else if t.None? then ErrInvalidNodeData
             else if HashOf(t.value) != nodeHash then ErrNodeHashMismatch
             else if Filled(old(TreeOf(shape)), nodeHash, t.value, 0).None? then ErrUnexpectedNode
             else SyncOk
      ensures TreeOf(shape) ==
        if r == SyncOk then Filled(old(TreeOf(shape)), nodeHash, ParseWire(data).value, 0).value else old(TreeOf(shape))
      ensures old(AsReceived(shape)) ==> AsReceived(shape)
      ensures forall o :: o in Foot(shape) ==> o in old(Foot(shape)) || fresh(o)
    {
      hide Rep, Distinct, TreeOf, Foot, HashOf, ParseWire, Wide, Bound, Filled, Parsed, AsReceived;
      if state != Syncing {
        return ErrSyncNotInProgress;
      }
      FootAllocated(shape);
      var node := DeserializeNodeFromWire(data);
      if node.NoNode? {
        NotParsed(node, data);
        return ErrInvalidNodeData;
      }
      Received(node, data);
      if RefHash(node) != nodeHash {
        return ErrNodeHashMismatch;
      }
      ghost var t, k := ParseWire(data).value, LoadedShape(node, ParseWire(data).value);
      RootHash(Detached(), shape);
      var ok;
      ghost var s;
      ok, s := InsertNode(root, nodeHash, node, 0, shape, k, AsReceived(shape));
      RootHash(Detached(), s);
      if !ok {
        return ErrUnexpectedNode;
      }
      FilledKeepsHash(old(TreeOf(shape)), nodeHash, t, 0);
      FootAllocated(s);
      shape, r := s, SyncOk;
    }

    /** The open places while synchronizing, level by level; none otherwise. */
    method GetMissingNodes(maxNodes: int, filter: Option<Hash -> bool>) returns (missing: seq<MissingNode>)
      requires Syncable()
      ensures missing == if state == Syncing then Report(TreeOf(shape), Fetching(filter), maxNodes) else []
    {
      hide Rep, Distinct, TreeOf, Foot, Wide, Bound, Report;
      if state != Syncing {
        return [];
      }
      missing := FindMissing(root, maxNodes, Fetching(filter), shape);
    }

    /** The root hash is that of a map with contents m, and no collision stands between the two trees. */
    ghost predicate SourceIs(m: Contents, ps: set<bytes>)
      reads this, root, Foot(shape)
    {
      var kind := LeafKind(mapType);
      && AllBound(kind, m) && (forall k :: k in m ==> |m[k]| >= MIN_ITEM)
      && CollisionFree(ps) && Preimages(TreeOf(shape)) <= ps && Preimages(CanonRoot(kind, m)) <= ps
      && root.hash == HashOf(CanonRoot(kind, m))
    }

    /** Ends synchronization when nothing is missing. The map then holds the items of m, whatever was received on the way. */
    method FinishSync(ghost m: Contents, ghost ps: set<bytes>) returns (r: SyncOutcome)
      requires Syncable()
      modifies this`state, this`contents
      ensures Syncable()
      ensures r == if old(state) != Syncing then ErrSyncNotInProgress else if !Whole(TreeOf(shape)) then ErrIncomplete else SyncOk
      ensures state == if r == SyncOk then Modifying else old(state)
      ensures r == SyncOk && SourceIs(m, ps) ==>
        && Leaves(TreeOf(shape)) == Leaves(CanonRoot(LeafKind(mapType), m)) && contents == m
        && (ValidIn(Detached()) <==> ZeroFree(TreeOf(shape)))
        && (family == null ==> Answering())
      ensures r != SyncOk ==> contents == old(contents)
      ensures old(AsReceived(shape)) ==> AsReceived(shape)
    {
      hide Rep, Distinct, TreeOf, Foot, Wide, Bound, Report, CanonRoot, Leaves, ZeroFree, Whole, AsReceived;
      if state != Syncing {
        return ErrSyncNotInProgress;
      }
      FootAllocated(shape);
      var missing := FindMissing(root, 1, Fetching(None), shape);
      InnerTree(shape);
      ReportedAll(TreeOf(shape), Fetching(None), 1);
      if |missing| > 0 {
        return ErrIncomplete;
      }
      if SourceIs(m, ps) {
        RootHash(Detached(), shape);
        SyncedTree(LeafKind(mapType), m, TreeOf(shape), ps);
        SyncedAnswers(LeafKind(mapType), m, TreeOf(shape), ps);
      }
      state, contents, r := Modifying, m, SyncOk;
    }
  }

  /** A map over a root that is in the store, children by hash. */
  method NewFromRootHash(mapType: MapType, rootHash: Hash, family: MemoryFamily, state: State, ghost m: Contents, ghost trust: Trust)
    returns (r: Option<SHAMap>)
    ensures r.Some? <==> rootHash in family.store && var t := ParsePrefix(family.store[rootHash]); t.Some? && t.value.Inner?
    ensures r.Some? ==> fresh(r.value) && r.value.mapType == mapType && r.value.family == family && r.value.state == state
    ensures var t := CanonRoot(LeafKind(mapType), m);
      rootHash == HashOf(t) && Stored(EnvAs(family, trust), t) && (forall k :: k in m ==> |m[k]| >= MIN_ITEM) ==>
      if r.Some? then r.value.ValidIn(EnvAs(family, trust)) && r.value.contents == m && fresh(Foot(r.value.shape)) && Bared(r.value.shape) else trust != Complete
  {
    hide Rep, Distinct, TreeOf, CanonKids, Foot, Stored, HashOf, ParsePrefix;
    ghost var t := CanonRoot(LeafKind(mapType), m);
    if rootHash == HashOf(t) && Stored(EnvAs(family, trust), t) {
      StoredParses(EnvAs(family, trust), t);
    }
    var data := family.Fetch(rootHash);
    if data.None? {
      return None;
    }
    var node := DeserializeFromPrefix(data.value);
    if !node.InnerRef? {
      return None;
    }
    ghost var s := LoadedShape(node, t);
    if rootHash == HashOf(t) && Stored(EnvAs(family, trust), t) {
      LoadedRep(EnvAs(family, trust), node, t);
      FootAllocated(s);
    }
    var sm := new SHAMap.Over(mapType, node.inner, state, family, s, m);
    r := Some(sm);
  }

  /** Every valid map answers from its contents. */
  lemma {:induction false} ValidAnswers(sm: SHAMap)
    requires sm.Valid()
    ensures sm.Answering()
  {
    hide Lookup, TooDeep, CanonRoot, Rep, Distinct, TreeOf;
    var kind := LeafKind(sm.mapType);
    forall key ensures Lookup(TreeOf(sm.shape), key, 0) == ItemAt(sm.contents, key) && !TooDeep(TreeOf(sm.shape), key, 0) {
      NodeAtTop(kind, sm.contents, key);
      CanonLookup(kind, sm.contents, key, 0);
    }
  }

  /** So does a complete tree received under the hash of a map, canonical or not. */
  lemma {:induction false} SyncedAnswers(kind: Kind, m: Contents, t: Tree, ps: set<bytes>)
    requires AllBound(kind, m) && Whole(t) && Wide(t) && Bound(t) && HashOf(t) == HashOf(CanonRoot(kind, m))
    requires CollisionFree(ps) && Preimages(t) <= ps && Preimages(CanonRoot(kind, m)) <= ps
    ensures Answers(t, m)
  {
    hide Lookup, TooDeep, CanonRoot, Whole, Wide, Bound, HashOf, Preimages;
    forall key ensures Lookup(t, key, 0) == ItemAt(m, key) && !TooDeep(t, key, 0) {
      NodeAtTop(kind, m, key);
      LookupAgrees(kind, m, key, 0, t, ps);
    }
  }

  /** A dirty root may be flushed. */
  lemma {:induction false} FlushReady(sm: SHAMap, trust: Trust, ps: set<bytes>)
    requires sm.ValidIn(EnvAs(sm.family, trust)) && sm.CanSave(trust, ps)
    ensures var base := BaseOf(sm.family, trust); var t := TreeOf(sm.shape);
      && BatchOk(base, [], ps) && (sm.root.dirty ==> Rep(base, sm.shape)) && Sources(base.trust, t, ps)
      && (Storable(base.trust, t) <==> sm.contents != map[]) && (sm.family == null ==> AllLoaded(sm.shape))
  {
    hide Rep, Distinct, TreeOf, CanonRoot, Foot, Storable, Sources, Preimages, Stored, AllLoaded, BatchOk;
    var base, kind := BaseOf(sm.family, trust), LeafKind(sm.mapType);
    EmptyBatch(base, ps);
    RootStorable(base.trust, kind, sm.contents, ps);
    if sm.family == null {
      RootSound(kind, sm.contents);
      WholeIsLoaded(sm.shape);
      if sm.root.dirty { RootOverNowhere(sm.shape, ps); }
    }
  }

  /** What a flush leaves of a map without a store. */
  lemma {:induction false} FlushedRoot(detached: bool, env: Env, s: Shape, s': Shape, ok: bool, release: bool)
    requires s.SInner? && (if ok then Flushed(env, s, s') else s' == s && Rep(env, s) && Distinct(s))
    requires if release && ok then Bared(s') else s' == s
    requires detached ==> AllLoaded(s)
    ensures s'.SInner? && s'.node == s.node && Distinct(s') && Rep(env, s') && TreeOf(s') == TreeOf(s) && Foot(s') <= Foot(s)
    ensures detached && s' == s ==> Rep(Detached(), s)
    ensures release && ok ==> var f := SInner(s'.node, Forgotten(s'.kids));
      Rep(Detached(), f) && Distinct(f) && TreeOf(f) == Stubbed(TreeOf(s)) && Foot(f) == {s.node} && Bared(f)
  {
    hide Rep, Distinct, Stored, AllLoaded, Stubbed;
    if detached && s' == s { WithoutStore(env, s); }
    if release && ok { ForgottenRep(env, s'.node, s'.kids); }
  }

  /** A map is valid over its store with what its family says of the store, and with any weaker expectation. */
  lemma {:induction false} Relaxed(sm: SHAMap, trust: Trust)
    requires sm.Valid() && Weaker(trust, TrustOf(sm.family))
    ensures sm.ValidIn(EnvAs(sm.family, trust))
  {
    hide Rep, Distinct, CanonRoot;
    if sm.family != null { RepWeaker(EnvOf(sm.family), trust, sm.shape); }
  }

  lemma {:induction false} AsSaid(sm: SHAMap, family: MemoryFamily?)
    ensures EnvAs(family, TrustOf(family)) == EnvOf(family) && (sm.family == family ==> (sm.Valid() <==> sm.ValidIn(EnvOf(family))))
  {
    hide SHAMap.ValidIn;
  }

  lemma {:induction false} NothingMarked(s: Shape, mk: Marks)
    requires s.SInner? && !s.node.dirty && Marked(s, mk)
    ensures Written(mk, TreeOf(s)) == []
  {
  }

  /** Over a store the root of an empty map has never been written. */
  lemma {:induction false} EmptyIsDirty(sm: SHAMap, env: Env)
    requires env.backed && sm.ValidIn(env)
    ensures sm.contents == map[] ==> sm.root.dirty
  {
    RootSound(LeafKind(sm.mapType), sm.contents);
  }

  lemma {:induction false} RootBits(s: Shape, n: InnerNode)
    requires Placed(s, n)
    ensures TreeOf(s).Inner? && (AllClear(n.isBranch) <==> Bare(TreeOf(s).kids))
  {
    forall i | 0 <= i < BRANCH_FACTOR ensures n.isBranch[i] == !TreeOf(s).kids[i].Nil? {
      RepNil(Detached(), s.kids[i]);
    }
  }

  lemma {:induction false} NotParsed(r: NodeRef, data: bytes)
    requires r.NoNode? && (ParseWire(data).Some? ==> Parsed(r, ParseWire(data).value))
    ensures ParseWire(data).None?
  {
  }

  lemma {:induction false} RootHash(env: Env, s: Shape)
    requires s.SInner? && Rep(env, s)
    ensures s.node.hash == HashOf(TreeOf(s))
  {
  }

  lemma {:induction false} EmptyRep(env: Env, n: InnerNode, kind: Kind)
    requires n.Sized() && n.dirty && n.hash == ZERO
    requires forall i :: 0 <= i < BRANCH_FACTOR ==> n.children[i] == NoNode && n.hashes[i] == ZERO && !n.isBranch[i]
    ensures var s := SInner(n, NilShapes());
      Rep(env, s) && Distinct(s) && TreeOf(s) == CanonRoot(kind, map[]) && Foot(s) == {n}
  {
    var s := SInner(n, NilShapes());
    assert Trees(s.kids) == NoKids();
    assert CanonKids(kind, map[], 0) == NoKids() by {
      assert forall i :: 0 <= i < BRANCH_FACTOR ==> Sub(map[], 0, i) == map[];
    }
    assert Bare(NoKids());
    assert forall i :: 0 <= i < BRANCH_FACTOR ==> Foot(s.kids[i]) == {};
  }
}
