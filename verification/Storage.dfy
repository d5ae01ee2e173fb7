/** The content-addressed store behind a backed map. */
module Storage {
  import opened Bytes
  import opened Tree
  import opened Codec
  import opened Merkle

  type Store = map<Hash, bytes>

  /** A store that has every node asked for, one that may lack some, or one that nothing is ever read from. */
  datatype Trust = Complete | Gapped | Unread

  /** Whether a map is backed, by what store, and what it may expect of the store. */
  datatype Env = Env(backed: bool, trust: Trust, store: Store)

  /**
   * What the store gives for the nodes of t. A complete store has every node of t under its hash, in a form that
   * parses back. Another store may lack nodes and may hold leaves that are refused, but has nothing else under their hashes.
   */
  ghost predicate Stored(env: Env, t: Tree) {
    match t
    case Nil => true
    case Stub(_) => false
    case Leaf(kind, item) => Kept(env, t) && Fit(env.trust, kind, item)
    case Inner(kids) =>
      && |kids| == BRANCH_FACTOR && !Bare(kids)
      && Kept(env, t)
      && forall i :: 0 <= i < |kids| ==> Stored(env, kids[i])
  }

  /** The node's own entry. A node whose hash is all zero cannot be told from an empty branch. */
  ghost predicate Kept(env: Env, t: Tree)
    requires t.Leaf? || t.Inner?
  {
    && HashOf(t) != ZERO && (env.trust == Complete ==> HashOf(t) in env.store)
    && (HashOf(t) in env.store ==> env.store[HashOf(t)] == Preimage(t))
  }

  predicate Fit(trust: Trust, kind: Kind, item: Item) {
    match trust
    case Complete => Readable(kind, item)
    case Gapped => Legible(kind, item)
    case Unread => true
  }

  /** What is expected of a store may be relaxed. */
  predicate Weaker(a: Trust, b: Trust) {
    a == b || a == Unread || b == Complete
  }

  lemma {:induction false} StoredWeaker(env: Env, trust: Trust, t: Tree)
    requires Stored(env, t) && Weaker(trust, env.trust)
    ensures Stored(env.(trust := trust), t)
  {
    if t.Inner? {
      forall i | 0 <= i < |t.kids| ensures Stored(env.(trust := trust), t.kids[i]) {
        StoredWeaker(env, trust, t.kids[i]);
      }
    }
  }

  ghost predicate Extends(store: Store, bigger: Store) {
    forall h :: h in store ==> h in bigger && bigger[h] == store[h]
  }

  /** Every entry sits under the hash of its bytes, and all of them are among the inputs considered. */
  ghost predicate Addressed(store: Store, ps: set<bytes>) {
    forall h :: h in store ==> Sha512Half(store[h]) == h && store[h] in ps
  }

  /** The store grows. Where it may lack nodes, what is added must not collide with the nodes of t. */
  ghost predicate Grows(env: Env, env': Env, t: Tree, ps: set<bytes>) {
    && env.backed == env'.backed && env.trust == env'.trust && Extends(env.store, env'.store)
    && (env.trust != Complete ==> CollisionFree(ps) && Addressed(env'.store, ps) && Preimages(t) <= ps)
  }

  lemma {:induction false} StoredGrows(env: Env, env': Env, t: Tree, ps: set<bytes>)
    requires Stored(env, t) && Grows(env, env', t, ps)
    ensures Stored(env', t)
  {
    if t.Inner? {
      forall i | 0 <= i < |t.kids| ensures Stored(env', t.kids[i]) {
        KidInputs(t, i);
        StoredGrows(env, env', t.kids[i], ps);
      }
      assert InnerPreimage(Hashes(t.kids)) in Preimages(t);
    } else if t.Leaf? {
      assert LeafPreimage(t.kind, t.item) in Preimages(t);
    }
  }

  /** Fetching a stored node and parsing it gives the node with its children by hash; a store with gaps may have no answer. */
  lemma {:induction false} StoredParses(env: Env, t: Tree)
    requires Stored(env, t) && !t.Nil?
    ensures HashOf(t) != ZERO && (env.trust == Complete ==> HashOf(t) in env.store)
    ensures HashOf(t) in env.store ==>
      var r := ParsePrefix(env.store[HashOf(t)]);
      r == Some(Stubbed(t)) || (t.Leaf? && (if env.trust == Gapped then r == None && !Readable(t.kind, t.item) else env.trust == Unread))
  {
    match t
    case Leaf(kind, item) =>
      PrefixLeafRoundTrip(kind, item);
      if env.trust == Gapped && !Readable(kind, item) { PrefixLeafRefused(kind, item); }
    case Inner(kids) =>
      assert NoZeroBranch(kids) by {
        forall i | 0 <= i < |kids| && !kids[i].Nil? ensures HashOf(kids[i]) != ZERO {
          assert Stored(env, kids[i]);
        }
      }
      PrefixInnerRoundTrip(kids);
  }

  /** The store has the node and it parses. */
  ghost predicate Loadable(env: Env, t: Tree) {
    HashOf(t) in env.store && ParsePrefix(env.store[HashOf(t)]).Some?
  }

  /** What of t can be loaded: the subtrees whose hash the store lacks, or cannot parse, are known by hash only. */
  ghost function Visible(env: Env, t: Tree): Tree
    decreases t, 0
  {
    match t
    case Nil => Nil
    case Stub(h) => t
    case Leaf(_, _) => if Loadable(env, t) then t else Stub(HashOf(t))
    case Inner(kids) => if Loadable(env, t) then Inner(Visibles(env, kids)) else Stub(HashOf(t))
  }

  ghost function Visibles(env: Env, kids: seq<Tree>): (vs: seq<Tree>)
    ensures |vs| == |kids| && forall i :: 0 <= i < |kids| ==> vs[i] == Visible(env, kids[i])
    decreases kids, 1
  {
    seq(|kids|, i requires 0 <= i < |kids| => Visible(env, kids[i]))
  }

  /** A complete store shows everything. */
  lemma {:induction false} AllVisible(env: Env, t: Tree)
    requires Stored(env, t) && env.trust == Complete
    ensures Visible(env, t) == t
  {
    if !t.Nil? {
      StoredParses(env, t);
      if t.Inner? {
        forall i | 0 <= i < |t.kids| ensures Visible(env, t.kids[i]) == t.kids[i] {
          AllVisible(env, t.kids[i]);
        }
        assert Visibles(env, t.kids) == t.kids;
      }
    }
  }

  /** A batch entry: a node's hash and its prefix form. */
  datatype FlushEntry = FlushEntry(hash: Hash, data: bytes)

  function WithBatch(store: Store, batch: seq<FlushEntry>): Store {
    if batch == [] then store
    else WithBatch(store, batch[..|batch| - 1])[batch[|batch| - 1].hash := batch[|batch| - 1].data]
  }

  class MemoryFamily {
    var store: Store

    /** Whether the maps over this store rely on it for every node they do not have in memory. */
    ghost const complete: bool

    constructor (ghost complete: bool)
      ensures store == map[] && this.complete == complete
    {
      store := map[];
      this.complete := complete;
    }

    method Fetch(hash: Hash) returns (data: Option<bytes>)
      ensures data == if hash in store then Some(store[hash]) else None
    {
      if hash in store {
        data := Some(store[hash]);
      } else {
        data := None;
      }
    }

    method StoreBatch(entries: seq<FlushEntry>)
      modifies this
      ensures store == WithBatch(old(store), entries)
    {
      for i := 0 to |entries|
        invariant store == WithBatch(old(store), entries[..i])
      {
        assert entries[..i + 1][..i] == entries[..i];
        store := store[entries[i].hash := entries[i].data];
      }
      assert entries[..|entries|] == entries;
    }
  }
}
