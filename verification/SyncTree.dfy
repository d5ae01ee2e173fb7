/** What synchronization does to the tree: filling places known by hash, and what a filled tree must be. */
module SyncTree {
  import opened Bytes
  import opened Tree
  import opened Codec
  import opened Canonical
  import opened LeafOrder
  import opened Merkle

  // ---------- filling the first place that names a hash ----------

  /** The tree with node at the first branch, in pre-order, whose stored hash is h. */
  function Filled(t: Tree, h: Hash, node: Tree, d: nat): Option<Tree>
    decreases t, 0
  {
    if !t.Inner? || d > MAX_DEPTH then None
    else
      var ks := FilledFrom(t.kids, 0, h, node, d);
      if ks.Some? then Some(Inner(ks.value)) else None
  }

  function FilledFrom(kids: seq<Tree>, i: nat, h: Hash, node: Tree, d: nat): Option<seq<Tree>>
    requires i <= |kids|
    decreases kids, |kids| - i + 1
  {
    if i == |kids| then None
    else if kids[i].Nil? then FilledFrom(kids, i + 1, h, node, d)
    else if HashOf(kids[i]) == h then Some(kids[i := node])
    else
      var x := Filled(kids[i], h, node, d + 1);
      if x.Some? then Some(kids[i := x.value]) else FilledFrom(kids, i + 1, h, node, d)
  }

  /** One child was replaced by one with the same hash. */
  ghost predicate Swapped(kids: seq<Tree>, ks: seq<Tree>, i: nat) {
    && i < |kids| == |ks| && !kids[i].Nil? && !ks[i].Nil? && HashOf(ks[i]) == HashOf(kids[i])
    && forall j :: 0 <= j < |kids| && j != i ==> ks[j] == kids[j]
  }

  lemma {:induction false} SwappedHash(kids: seq<Tree>, ks: seq<Tree>, i: nat)
    requires Swapped(kids, ks, i)
    ensures Hashes(ks) == Hashes(kids) && (Bare(ks) <==> Bare(kids)) && HashOf(Inner(ks)) == HashOf(Inner(kids))
  {
  }

  /** Filling changes no hash, whatever node is filled in. */
  lemma {:induction false} FilledKeepsHash(t: Tree, h: Hash, node: Tree, d: nat)
    requires Filled(t, h, node, d).Some? && HashOf(node) == h && !node.Nil?
    ensures var r := Filled(t, h, node, d).value; r.Inner? && HashOf(r) == HashOf(t)
    ensures var r := Filled(t, h, node, d).value; Wide(t) && Wide(node) ==> Wide(r)
    ensures var r := Filled(t, h, node, d).value; Bound(t) && Bound(node) ==> Bound(r)
    ensures var r := Filled(t, h, node, d).value; Preimages(r) <= Preimages(t) + Preimages(node)
    decreases t, 0
  {
    hide Preimages;
    var i := FilledFromSwaps(t.kids, 0, h, node, d);
    var ks := FilledFrom(t.kids, 0, h, node, d).value;
    SwappedHash(t.kids, ks, i);
    SwappedPreimages(t.kids, ks, i, Preimages(node));
  }

  lemma {:induction false} SwappedPreimages(kids: seq<Tree>, ks: seq<Tree>, i: nat, more: set<bytes>)
    requires Swapped(kids, ks, i) && Preimages(ks[i]) <= Preimages(kids[i]) + more
    ensures Preimages(Inner(ks)) <= Preimages(Inner(kids)) + more
  {
    hide HashOf;
    SwappedHash(kids, ks, i);
    forall p | p in KidPreimages(ks) ensures p in KidPreimages(kids) + more {
      var j :| 0 <= j < |ks| && p in Preimages(ks[j]);
      assert p in Preimages(kids[j]) + more;
    }
  }

  lemma {:induction false} FilledFromSwaps(kids: seq<Tree>, i: nat, h: Hash, node: Tree, d: nat) returns (k: nat)
    requires i <= |kids| && FilledFrom(kids, i, h, node, d).Some? && HashOf(node) == h && !node.Nil?
    ensures var ks := FilledFrom(kids, i, h, node, d).value;
      Swapped(kids, ks, k) && (Wide(kids[k]) && Wide(node) ==> Wide(ks[k])) && (Bound(kids[k]) && Bound(node) ==> Bound(ks[k]))
      && Preimages(ks[k]) <= Preimages(kids[k]) + Preimages(node)
    decreases kids, |kids| - i + 1
  {
    if kids[i].Nil? {
      k := FilledFromSwaps(kids, i + 1, h, node, d);
    } else if HashOf(kids[i]) == h {
      k := i;
    } else if Filled(kids[i], h, node, d + 1).Some? {
      FilledKeepsHash(kids[i], h, node, d + 1);
      k := i;
    } else {
      k := FilledFromSwaps(kids, i + 1, h, node, d);
    }
  }

  // ---------- the places not filled yet ----------

  /** A node that is referenced but not at hand, and the place that refers to it. */
  datatype MissingNode = MissingNode(hash: Hash, depth: nat, parentHash: Hash, branch: nat)

  /** The places of a tree that are not filled. */
  ghost function Sites(t: Tree, d: nat): multiset<MissingNode>
    decreases t, 0
  {
    if t.Inner? then SitesFrom(HashOf(t), t.kids, 0, d) else multiset{}
  }

  ghost function SitesFrom(parent: Hash, kids: seq<Tree>, i: nat, d: nat): multiset<MissingNode>
    requires i <= |kids|
    decreases kids, |kids| - i + 1
  {
    if i == |kids| then multiset{} else SiteAt(parent, kids[i], i, d) + SitesFrom(parent, kids, i + 1, d)
  }

  ghost function SiteAt(parent: Hash, kid: Tree, i: nat, d: nat): multiset<MissingNode>
    decreases kid, 1
  {
    if kid.Stub? then multiset{MissingNode(kid.h, d + 1, parent, i)} else Sites(kid, d + 1)
  }

  /** No open place means that nothing is missing. */
  lemma {:induction false} SitesNone(t: Tree, d: nat)
    requires !t.Stub?
    ensures Sites(t, d) == multiset{} <==> Whole(t)
    decreases t, 0
  {
    if t.Inner? { SitesNoneFrom(HashOf(t), t.kids, 0, d); }
  }

  lemma {:induction false} SitesNoneFrom(parent: Hash, kids: seq<Tree>, i: nat, d: nat)
    requires i <= |kids|
    ensures SitesFrom(parent, kids, i, d) == multiset{} <==> forall j :: i <= j < |kids| ==> Whole(kids[j])
    decreases kids, |kids| - i + 1
  {
    if i < |kids| {
      SitesNoneFrom(parent, kids, i + 1, d);
      var here, rest := SiteAt(parent, kids[i], i, d), SitesFrom(parent, kids, i + 1, d);
      assert here + rest == multiset{} <==> here == multiset{} && rest == multiset{};
      if kids[i].Stub? {
        assert MissingNode(kids[i].h, d + 1, parent, i) in here;
      } else {
        SitesNone(kids[i], d + 1);
      }
    }
  }

  // ---------- a filled tree ----------

  /** No branch in use carries the zero hash. */
  predicate ZeroFree(t: Tree) {
    t.Inner? ==> NoZeroBranch(t.kids) && forall i :: 0 <= i < |t.kids| ==> ZeroFree(t.kids[i])
  }

  lemma {:induction false} ZeroFreeTidy(t: Tree)
    requires Wide(t) && Whole(t) && ZeroFree(t) && (HashOf(t) != ZERO || t.Nil?)
    ensures Tidy(t)
  {
    if t.Inner? {
      forall i | 0 <= i < |t.kids| ensures Tidy(t.kids[i]) {
        ZeroFreeTidy(t.kids[i]);
      }
    }
  }

  lemma {:induction false} TidyZeroFree(t: Tree, ps: set<bytes>)
    requires Whole(t) && Tidy(t) && CollisionFree(ps) && Preimages(t) <= ps
    ensures ZeroFree(t) && (t.Nil? || HashOf(t) != ZERO)
  {
    if t.Inner? {
      assert InnerPreimage(Hashes(t.kids)) in Preimages(t);
      forall i | 0 <= i < |t.kids| ensures ZeroFree(t.kids[i]) && (t.kids[i].Nil? || HashOf(t.kids[i]) != ZERO) {
        assert Preimages(t.kids[i]) <= KidPreimages(t.kids);
        TidyZeroFree(t.kids[i], ps);
      }
    } else if t.Leaf? {
      assert LeafPreimage(t.kind, t.item) in Preimages(t);
    }
  }

  /** A complete tree under the root hash of a map has the map's items; it is the map's tree if and only if no branch bit stands over a zero hash. */
  lemma {:induction false} SyncedTree(kind: Kind, m: Contents, t: Tree, ps: set<bytes>)
    requires t.Inner? && Whole(t) && Wide(t) && Bound(t) && AllBound(kind, m)
    requires CollisionFree(ps) && Preimages(t) <= ps && Preimages(CanonRoot(kind, m)) <= ps
    requires HashOf(t) == HashOf(CanonRoot(kind, m))
    ensures Leaves(t) == Leaves(CanonRoot(kind, m))
    ensures t == CanonRoot(kind, m) <==> ZeroFree(t)
  {
    hide CanonRoot, Leaves, LeavesOf;
    var s := CanonRoot(kind, m);
    RootSound(kind, m);
    RootIsInner(kind, m);
    if m == map[] {
      EmptyRoot(kind);
      EmptyHash(t, ps);
      EmptyHash(s, ps);
      assert t.kids == s.kids;
    } else {
      HashPinsLeaves(t, s, ps);
      TidyZeroFree(s, ps);
      if ZeroFree(t) { ZeroFreeTidy(t); }
    }
  }

  lemma {:induction false} RootIsInner(kind: Kind, m: Contents)
    ensures CanonRoot(kind, m).Inner? && |CanonRoot(kind, m).kids| == BRANCH_FACTOR
  {
  }

  lemma {:induction false} EmptyRoot(kind: Kind)
    ensures HashOf(CanonRoot(kind, map[])) == ZERO
  {
    assert forall i :: 0 <= i < BRANCH_FACTOR ==> Sub(map[], 0, i) == map[];
  }

  lemma {:induction false} EmptyHash(t: Tree, ps: set<bytes>)
    requires t.Inner? && HashOf(t) == ZERO && CollisionFree(ps) && Preimages(t) <= ps
    ensures Bare(t.kids) && ZeroFree(t)
  {
  }

  /** The shortest wire form of an inner node is one without branches; its hash is zero. */
  lemma {:induction false} BareWire()
    ensures ParseWire([WIRE_COMPRESSED]) == Some(Inner(NoKids())) && HashOf(Inner(NoKids())) == ZERO
  {
  }

  /** Where a branch is free, a bit over a zero hash leads to a second tree with the same root hash and items. */
  lemma {:induction false} PhantomBranch(kids: seq<Tree>, i: nat)
    requires i < |kids| == BRANCH_FACTOR && kids[i].Nil? && !Bare(kids)
    ensures var t := Inner(kids[i := Inner(NoKids())]);
      t != Inner(kids) && HashOf(t) == HashOf(Inner(kids)) && Leaves(t) == Leaves(Inner(kids)) && !ZeroFree(t)
  {
    hide Leaves, LeavesOf;
    var e := Inner(NoKids());
    var ks := kids[i := e];
    BareWire();
    assert Hashes(ks) == Hashes(kids);
    var j :| 0 <= j < |kids| && !kids[j].Nil?;
    assert !ks[j].Nil?;
    PhantomLeaves(kids, i);
    assert !NoZeroBranch(ks) by { assert !ks[i].Nil? && HashOf(ks[i]) == ZERO; }
  }

  lemma {:induction false} PhantomLeaves(kids: seq<Tree>, i: nat)
    requires i < |kids| && kids[i].Nil?
    ensures Leaves(Inner(kids[i := Inner(NoKids())])) == Leaves(Inner(kids))
  {
    EmptyLeaves(NoKids());
    assert Leaves(Inner(NoKids())) == [];
    LeavesOfSame(kids[i := Inner(NoKids())], kids);
  }

  // ---------- progress ----------

  /** t is the tree s with some nodes not loaded. */
  ghost predicate Part(t: Tree, s: Tree) {
    match s
    case Nil => t.Nil?
    case Stub(_) => false
    case Leaf(_, _) => t == s || t == Stub(HashOf(s))
    case Inner(kids) =>
      || t == Stub(HashOf(s))
      || (t.Inner? && |t.kids| == |kids| && forall i :: 0 <= i < |kids| ==> Part(t.kids[i], kids[i]))
  }

  /** The number of nodes at hand. */
  ghost function Loaded(t: Tree): nat
    decreases t, 0
  {
    match t
    case Leaf(_, _) => 1
    case Inner(kids) => 1 + LoadedOf(kids)
    case _ => 0
  }

  ghost function LoadedOf(kids: seq<Tree>): nat
    decreases kids, 1
  {
    if kids == [] then 0 else Loaded(kids[0]) + LoadedOf(kids[1..])
  }

  lemma {:induction false} LoadedUpdate(kids: seq<Tree>, i: nat, x: Tree)
    requires i < |kids|
    ensures LoadedOf(kids[i := x]) == LoadedOf(kids) - Loaded(kids[i]) + Loaded(x)
    ensures Loaded(kids[i]) <= LoadedOf(kids)
  {
    if i == 0 {
      assert kids[i := x][1..] == kids[1..];
    } else {
      assert kids[i := x][1..] == kids[1..][i - 1 := x];
      LoadedUpdate(kids[1..], i - 1, x);
    }
  }

  lemma {:induction false} PartHash(t: Tree, s: Tree)
    requires Part(t, s)
    ensures HashOf(t) == HashOf(s) && (t.Nil? <==> s.Nil?)
  {
    if s.Inner? && t.Inner? {
      forall i | 0 <= i < |s.kids| ensures HashOf(t.kids[i]) == HashOf(s.kids[i]) && (t.kids[i].Nil? <==> s.kids[i].Nil?) {
        PartHash(t.kids[i], s.kids[i]);
      }
      assert Hashes(t.kids) == Hashes(s.kids);
    }
  }

  /** Nothing is missing exactly when every node is at hand, and then the tree is complete. */
  lemma {:induction false} PartWhole(t: Tree, s: Tree)
    requires Part(t, s)
    ensures Loaded(t) <= Loaded(s) && (Loaded(t) == Loaded(s) <==> Whole(t)) && (Whole(t) <==> t == s)
    decreases t, 0
  {
    if s.Inner? && t.Inner? { PartWholeKids(t.kids, s.kids); }
  }

  lemma {:induction false} PartWholeKids(ts: seq<Tree>, ss: seq<Tree>)
    requires |ts| == |ss| && forall i :: 0 <= i < |ts| ==> Part(ts[i], ss[i])
    ensures LoadedOf(ts) <= LoadedOf(ss) && (LoadedOf(ts) == LoadedOf(ss) <==> forall i :: 0 <= i < |ts| ==> Whole(ts[i]))
    ensures (forall i :: 0 <= i < |ts| ==> Whole(ts[i])) <==> ts == ss
    decreases ts, 1
  {
    if ts != [] {
      PartWhole(ts[0], ss[0]);
      PartWholeKids(ts[1..], ss[1..]);
      assert ts == [ts[0]] + ts[1..] && ss == [ss[0]] + ss[1..];
      assert (forall i :: 0 <= i < |ts| ==> Whole(ts[i])) <==> Whole(ts[0]) && forall i :: 0 <= i < |ts[1..]| ==> Whole(ts[1..][i]) by {
        forall i | 1 <= i < |ts| ensures ts[i] == ts[1..][i - 1] {}
      }
    }
  }

  /** h is the hash of a node of t. */
  ghost predicate Has(t: Tree, h: Hash) {
    !t.Nil? && (HashOf(t) == h || (t.Inner? && exists i :: 0 <= i < |t.kids| && Has(t.kids[i], h)))
  }

  ghost predicate HasBelow(t: Tree, h: Hash) {
    t.Inner? && exists i :: 0 <= i < |t.kids| && Has(t.kids[i], h)
  }

  /** h is missing somewhere in t. */
  ghost predicate Lacks(t: Tree, h: Hash) {
    t == Stub(h) || (t.Inner? && exists i :: 0 <= i < |t.kids| && Lacks(t.kids[i], h))
  }

  /** h is the hash of at most one node below the root of s, and that node is x. */
  ghost predicate Single(s: Tree, h: Hash, x: Tree) {
    s.Inner? ==>
      && (forall i :: 0 <= i < |s.kids| ==> Single(s.kids[i], h, x))
      && (forall i :: 0 <= i < |s.kids| && !s.kids[i].Nil? && HashOf(s.kids[i]) == h ==> s.kids[i] == x && !HasBelow(s.kids[i], h))
      && (forall i, j :: 0 <= i < j < |s.kids| ==> !(Has(s.kids[i], h) && Has(s.kids[j], h)))
  }

  /** No inner node of s stands deeper than the search goes. */
  ghost predicate Shallow(s: Tree, d: nat) {
    s.Inner? ==> d <= MAX_DEPTH && forall i :: 0 <= i < |s.kids| ==> Shallow(s.kids[i], d + 1)
  }

  lemma {:induction false} LacksHas(t: Tree, s: Tree, h: Hash)
    requires Part(t, s) && Lacks(t, h)
    ensures Has(s, h) && (t.Inner? ==> HasBelow(s, h))
  {
    if t.Inner? {
      var i :| 0 <= i < |t.kids| && Lacks(t.kids[i], h);
      LacksHas(t.kids[i], s.kids[i], h);
    }
  }

  /** An open place names a missing hash. */
  lemma {:induction false} SiteLacks(t: Tree, d: nat, e: MissingNode)
    requires e in Sites(t, d)
    ensures Lacks(t, e.hash)
    decreases t, 0
  {
    var i := SiteLacksFrom(HashOf(t), t.kids, 0, d, e);
  }

  lemma {:induction false} SiteLacksFrom(parent: Hash, kids: seq<Tree>, i: nat, d: nat, e: MissingNode) returns (j: nat)
    requires i <= |kids| && e in SitesFrom(parent, kids, i, d)
    ensures i <= j < |kids| && Lacks(kids[j], e.hash)
    decreases kids, |kids| - i + 1
  {
    if e in SiteAt(parent, kids[i], i, d) {
      j := i;
      if !kids[i].Stub? { SiteLacks(kids[i], d + 1, e); }
    } else {
      j := SiteLacksFrom(parent, kids, i + 1, d, e);
    }
  }

  lemma {:induction false} NoneLoaded(kids: seq<Tree>)
    requires forall i :: 0 <= i < |kids| ==> kids[i].Nil? || kids[i].Stub?
    ensures LoadedOf(kids) == 0
  {
    if kids != [] { NoneLoaded(kids[1..]); }
  }

  lemma {:induction false} StubbedPart(x: Tree)
    requires Whole(x) && !x.Nil?
    ensures Part(Stubbed(x), x) && Loaded(Stubbed(x)) == 1 && HashOf(Stubbed(x)) == HashOf(x)
  {
    if x.Inner? { NoneLoaded(Stubbed(x).kids); }
    PartHash(Stubbed(x), x);
  }

  lemma {:induction false} FilledNone(t: Tree, s: Tree, h: Hash, node: Tree, d: nat)
    requires Part(t, s) && !HasBelow(s, h)
    ensures Filled(t, h, node, d).None?
    decreases t, 0
  {
    if t.Inner? { FilledNoneFrom(t.kids, s.kids, 0, h, node, d); }
  }

  lemma {:induction false} FilledNoneFrom(ts: seq<Tree>, ss: seq<Tree>, i: nat, h: Hash, node: Tree, d: nat)
    requires i <= |ts| == |ss| && forall j :: 0 <= j < |ts| ==> Part(ts[j], ss[j]) && !Has(ss[j], h)
    ensures FilledFrom(ts, i, h, node, d).None?
    decreases ts, |ts| - i + 1
  {
    if i < |ts| {
      PartHash(ts[i], ss[i]);
      FilledNoneFrom(ts, ss, i + 1, h, node, d);
      FilledNone(ts[i], ss[i], h, node, d + 1);
    }
  }

  /** Filling a missing place from the complete tree loads exactly one node, in its place. */
  lemma {:induction false} FilledPart(t: Tree, s: Tree, h: Hash, x: Tree, d: nat)
    requires Part(t, s) && t.Inner? && Shallow(s, d) && Single(s, h, x)
    requires Whole(x) && !x.Nil? && HashOf(x) == h && Lacks(t, h)
    ensures var r := Filled(t, h, Stubbed(x), d); r.Some? && Part(r.value, s) && Loaded(r.value) == Loaded(t) + 1
    decreases t, 0
  {
    hide Has, HashOf, Stubbed;
    var j :| 0 <= j < |t.kids| && Lacks(t.kids[j], h);
    FilledPartFrom(t.kids, s.kids, 0, j, h, x, d);
  }

  lemma {:induction false} FilledPartFrom(ts: seq<Tree>, ss: seq<Tree>, i: nat, j: nat, h: Hash, x: Tree, d: nat)
    requires i <= j < |ts| == |ss| && (forall k :: 0 <= k < |ts| ==> Part(ts[k], ss[k]) && Shallow(ss[k], d + 1))
    requires Single(Inner(ss), h, x) && Whole(x) && !x.Nil? && HashOf(x) == h && Lacks(ts[j], h)
    ensures var r := FilledFrom(ts, i, h, Stubbed(x), d);
      r.Some? && |r.value| == |ts| && (forall k :: 0 <= k < |ts| ==> Part(r.value[k], ss[k])) && LoadedOf(r.value) == LoadedOf(ts) + 1
    decreases ts, |ts| - i + 1
  {
    hide Part, Loaded, LoadedOf, HashOf, Stubbed;
    PartHash(ts[i], ss[i]);
    LacksHas(ts[j], ss[j], h);
    StubbedPart(x);
    if i == j {
      if HashOf(ts[i]) == h {
        SpotIsStub(ts[i], ss[i], h);
        LoadedUpdate(ts, i, Stubbed(x));
        assert Loaded(ts[i]) == 0;
      } else {
        LacksInner(ts[i], h);
        FilledPart(ts[i], ss[i], h, x, d + 1);
        LoadedUpdate(ts, i, Filled(ts[i], h, Stubbed(x), d + 1).value);
      }
    } else {
      assert !Has(ss[i], h);
      FilledNone(ts[i], ss[i], h, Stubbed(x), d + 1);
      FilledPartFrom(ts, ss, i + 1, j, h, x, d);
    }
  }

  lemma {:induction false} LacksInner(t: Tree, h: Hash)
    requires Lacks(t, h) && HashOf(t) != h
    ensures t.Inner?
  {
  }

  lemma {:induction false} SpotIsStub(t: Tree, s: Tree, h: Hash)
    requires Part(t, s) && Lacks(t, h) && !HasBelow(s, h)
    ensures t == Stub(h) && Loaded(t) == 0
  {
    LacksHas(t, s, h);
  }

  // ---------- canonical trees name each node once ----------

  lemma {:induction false} HasLeaves(s: Tree, h: Hash, x: Tree, ps: set<bytes>)
    requires Sound(s, ps) && Sound(x, ps) && !x.Nil? && HashOf(x) == h && Has(s, h) && CollisionFree(ps)
    ensures Loaded(x) <= Loaded(s) && forall it :: it in Leaves(x) ==> it in Leaves(s)
    decreases s
  {
    if HashOf(s) == h {
      HashPinsLeaves(s, x, ps);
    } else {
      var i :| 0 <= i < |s.kids| && Has(s.kids[i], h);
      SoundKid(s, i, ps);
      HasLeaves(s.kids[i], h, x, ps);
      LoadedUpdate(s.kids, i, Nil);
      forall it | it in Leaves(x) ensures it in Leaves(s) {
        LeavesOfMember(s.kids, it);
      }
    }
  }

  ghost predicate Sound(t: Tree, ps: set<bytes>) {
    Whole(t) && Wide(t) && Bound(t) && Tidy(t) && Preimages(t) <= ps
  }

  lemma {:induction false} SoundParts(t: Tree, ps: set<bytes>)
    requires Sound(t, ps)
    ensures Whole(t) && Tidy(t)
  {
  }

  lemma {:induction false} SoundKid(t: Tree, i: nat, ps: set<bytes>)
    requires Sound(t, ps) && t.Inner? && i < |t.kids|
    ensures Sound(t.kids[i], ps)
  {
  }

  lemma {:induction false} SomeLeaf(t: Tree) returns (it: Item)
    requires Whole(t) && Tidy(t) && !t.Nil?
    ensures it in Leaves(t)
  {
    if t.Inner? {
      var i :| 0 <= i < |t.kids| && !t.kids[i].Nil?;
      it := SomeLeaf(t.kids[i]);
      LeavesOfMember(t.kids, it);
    } else {
      it := t.item;
    }
  }

  lemma {:induction false} NotBelowItself(s: Tree, h: Hash, x: Tree, ps: set<bytes>)
    requires Sound(s, ps) && Sound(x, ps) && !s.Nil? && !x.Nil? && HashOf(x) == h && HashOf(s) == h && CollisionFree(ps)
    ensures s == x && !HasBelow(s, h)
  {
    HashPinsLeaves(s, x, ps);
    if HasBelow(s, h) {
      var i :| 0 <= i < |s.kids| && Has(s.kids[i], h);
      SoundKid(s, i, ps);
      HasLeaves(s.kids[i], h, x, ps);
      LoadedUpdate(s.kids, i, Nil);
      assert false;
    }
  }

  lemma {:induction false} NotInTwo(kind: Kind, u: Contents, d: nat, i: nat, j: nat, h: Hash, x: Tree, ps: set<bytes>)
    requires d < MAX_DEPTH && Shared(u, d) && i < j < BRANCH_FACTOR
    requires var kids := CanonKids(kind, u, d); Sound(kids[i], ps) && Sound(kids[j], ps)
    requires Sound(x, ps) && !x.Nil? && HashOf(x) == h && CollisionFree(ps)
    ensures var kids := CanonKids(kind, u, d); !(Has(kids[i], h) && Has(kids[j], h))
  {
    hide Canon, Leaves, Has, Sound, HashOf, Loaded;
    var kids := CanonKids(kind, u, d);
    if Has(kids[i], h) && Has(kids[j], h) {
      HasLeaves(kids[i], h, x, ps);
      HasLeaves(kids[j], h, x, ps);
      SoundParts(x, ps);
      var it := SomeLeaf(x);
      SharedStep(u, d, i);
      SharedStep(u, d, j);
      CanonLeaves(kind, Sub(u, d, i), d + 1, it);
      CanonLeaves(kind, Sub(u, d, j), d + 1, it);
      assert false;
    }
  }

  lemma {:induction false} CanonSingle(kind: Kind, u: Contents, d: nat, h: Hash, x: Tree, ps: set<bytes>)
    requires d <= MAX_DEPTH && Shared(u, d) && Sound(Canon(kind, u, d), ps)
    requires Sound(x, ps) && !x.Nil? && HashOf(x) == h && CollisionFree(ps)
    ensures Single(Canon(kind, u, d), h, x) && Shallow(Canon(kind, u, d), d)
    decreases MAX_DEPTH - d, 1
  {
    hide HashOf, Sound, Has, HasBelow;
    SharedCases(kind, u, d);
    if Canon(kind, u, d).Inner? {
      forall i | 0 <= i < BRANCH_FACTOR ensures Sound(CanonKids(kind, u, d)[i], ps) {
        SoundKid(Canon(kind, u, d), i, ps);
      }
      KidsSingle(kind, u, d, h, x, ps);
    }
  }

  lemma {:induction false} KidsSingle(kind: Kind, u: Contents, d: nat, h: Hash, x: Tree, ps: set<bytes>)
    requires d < MAX_DEPTH && Shared(u, d) && forall i :: 0 <= i < BRANCH_FACTOR ==> Sound(CanonKids(kind, u, d)[i], ps)
    requires Sound(x, ps) && !x.Nil? && HashOf(x) == h && CollisionFree(ps)
    ensures var t := Inner(CanonKids(kind, u, d)); Single(t, h, x) && Shallow(t, d)
    decreases MAX_DEPTH - d, 0
  {
    hide HashOf, Sound, Has, HasBelow, Canon;
    var kids := CanonKids(kind, u, d);
    forall i | 0 <= i < |kids| ensures Single(kids[i], h, x) && Shallow(kids[i], d + 1) {
      SharedStep(u, d, i);
      CanonSingle(kind, Sub(u, d, i), d + 1, h, x, ps);
    }
    forall i | 0 <= i < |kids| && !kids[i].Nil? && HashOf(kids[i]) == h ensures kids[i] == x && !HasBelow(kids[i], h) {
      NotBelowItself(kids[i], h, x, ps);
    }
    forall i, j | 0 <= i < j < |kids| ensures !(Has(kids[i], h) && Has(kids[j], h)) {
      NotInTwo(kind, u, d, i, j, h, x, ps);
    }
  }

  /** Below the root of a canonical tree a hash names one node, within the depth that is searched. */
  lemma {:induction false} RootSingle(kind: Kind, m: Contents, h: Hash, x: Tree, ps: set<bytes>)
    requires AllBound(kind, m) && CollisionFree(ps) && Preimages(CanonRoot(kind, m)) <= ps
    requires Sound(x, ps) && !x.Nil? && HashOf(x) == h
    ensures Single(CanonRoot(kind, m), h, x) && Shallow(CanonRoot(kind, m), 0)
  {
    hide Canon, Single, Shallow, HashOf;
    KidsSound(kind, m, 0);
    KidsWhole(kind, m, 0);
    var root := CanonRoot(kind, m);
    forall i | 0 <= i < BRANCH_FACTOR ensures Sound(CanonKids(kind, m, 0)[i], ps) {
      if Bare(root.kids) {
        assert root.kids[i] == Nil;
      } else {
        assert Preimages(root.kids[i]) <= KidPreimages(root.kids);
      }
    }
    KidsSingle(kind, m, 0, h, x, ps);
  }

  /** An honest answer to a missing hash is taken, loads exactly the one node, and leaves the other gaps. */
  lemma {:induction false} HonestAnswer(kind: Kind, m: Contents, t: Tree, h: Hash, x: Tree, ps: set<bytes>)
    requires AllBound(kind, m) && CollisionFree(ps) && Preimages(CanonRoot(kind, m)) <= ps
    requires t.Inner? && Part(t, CanonRoot(kind, m)) && Lacks(t, h)
    requires Sound(x, ps) && !x.Nil? && HashOf(x) == h
    ensures var r := Filled(t, h, Stubbed(x), 0);
      && r.Some? && Part(r.value, CanonRoot(kind, m)) && Loaded(r.value) == Loaded(t) + 1
      && forall g :: g != h && Lacks(t, g) ==> Lacks(r.value, g)
  {
    hide CanonRoot, Part, Single, Shallow, Lacks, Filled, HashOf;
    var root := CanonRoot(kind, m);
    RootSingle(kind, m, h, x, ps);
    FilledPart(t, root, h, x, 0);
    forall g | g != h && Lacks(t, g) ensures Lacks(Filled(t, h, Stubbed(x), 0).value, g) {
      StillLacks(t, root, h, x, 0, g);
    }
  }

  /** Other missing hashes stay missing. */
  lemma {:induction false} StillLacks(t: Tree, s: Tree, h: Hash, x: Tree, d: nat, g: Hash)
    requires Part(t, s) && t.Inner? && Shallow(s, d) && Single(s, h, x)
    requires Whole(x) && !x.Nil? && HashOf(x) == h && Lacks(t, h) && Lacks(t, g) && g != h
    ensures var r := Filled(t, h, Stubbed(x), d); r.Some? && Lacks(r.value, g)
    decreases t, 0
  {
    var j :| 0 <= j < |t.kids| && Lacks(t.kids[j], h);
    var k :| 0 <= k < |t.kids| && Lacks(t.kids[k], g);
    var l := StillLacksFrom(t.kids, s.kids, 0, j, k, h, x, d, g);
  }

  lemma {:induction false} StillLacksFrom(ts: seq<Tree>, ss: seq<Tree>, i: nat, j: nat, k: nat, h: Hash, x: Tree, d: nat, g: Hash)
    returns (l: nat)
    requires i <= j < |ts| == |ss| && k < |ts| && (forall i :: 0 <= i < |ts| ==> Part(ts[i], ss[i]) && Shallow(ss[i], d + 1))
    requires Single(Inner(ss), h, x) && Whole(x) && !x.Nil? && HashOf(x) == h && Lacks(ts[j], h) && Lacks(ts[k], g) && g != h
    ensures var r := FilledFrom(ts, i, h, Stubbed(x), d); r.Some? && |r.value| == |ts| && l < |ts| && Lacks(r.value[l], g)
    decreases ts, |ts| - i + 1
  {
    hide Part, HashOf, Stubbed, Single;
    PartHash(ts[i], ss[i]);
    LacksHas(ts[j], ss[j], h);
    SingleParts(ss, h, x, i);
    l := k;
    if i == j {
      if HashOf(ts[i]) == h {
        SpotIsStub(ts[i], ss[i], h);
      } else {
        LacksInner(ts[i], h);
        FilledPart(ts[i], ss[i], h, x, d + 1);
        if k == i { StillLacks(ts[i], ss[i], h, x, d + 1, g); }
      }
    } else {
      assert !Has(ss[i], h);
      FilledNone(ts[i], ss[i], h, Stubbed(x), d + 1);
      l := StillLacksFrom(ts, ss, i + 1, j, k, h, x, d, g);
    }
  }

  lemma {:induction false} SingleParts(ss: seq<Tree>, h: Hash, x: Tree, i: nat)
    requires Single(Inner(ss), h, x) && i < |ss|
    ensures Single(ss[i], h, x)
    ensures !ss[i].Nil? && HashOf(ss[i]) == h ==> !HasBelow(ss[i], h)
    ensures forall j :: 0 <= j < |ss| && j != i && Has(ss[j], h) ==> !Has(ss[i], h)
  {
  }

  /** A missing hash is missing in one place only. */
  lemma {:induction false} SiteOnce(t: Tree, s: Tree, d: nat, x: Tree, a: MissingNode, b: MissingNode)
    requires Part(t, s) && Single(s, a.hash, x) && a.hash == b.hash && a in Sites(t, d) && b in Sites(t, d)
    ensures a == b && Sites(t, d)[a] == 1
    decreases t, 0
  {
    SiteOnceFrom(HashOf(t), t.kids, s.kids, 0, d, x, a, b);
  }

  lemma {:induction false} SiteOnceFrom(parent: Hash, ts: seq<Tree>, ss: seq<Tree>, i: nat, d: nat, x: Tree, a: MissingNode, b: MissingNode)
    requires i <= |ts| == |ss| && (forall k :: 0 <= k < |ts| ==> Part(ts[k], ss[k])) && Single(Inner(ss), a.hash, x) && a.hash == b.hash
    requires a in SitesFrom(parent, ts, i, d) && b in SitesFrom(parent, ts, i, d)
    ensures a == b && SitesFrom(parent, ts, i, d)[a] == 1
    decreases ts, |ts| - i + 1
  {
    hide Part, HashOf, Single, Has, Lacks;
    SingleParts(ss, a.hash, x, i);
    var here, rest := SiteAt(parent, ts[i], i, d), SitesFrom(parent, ts, i + 1, d);
    NotHereAndLater(parent, ts, ss, i, d, x, a, a);
    NotHereAndLater(parent, ts, ss, i, d, x, a, b);
    NotHereAndLater(parent, ts, ss, i, d, x, b, a);
    if a in here {
      if !ts[i].Stub? { SiteOnce(ts[i], ss[i], d + 1, x, a, b); }
    } else {
      SiteOnceFrom(parent, ts, ss, i + 1, d, x, a, b);
    }
  }

  lemma {:induction false} NotHereAndLater(parent: Hash, ts: seq<Tree>, ss: seq<Tree>, i: nat, d: nat, x: Tree, a: MissingNode, b: MissingNode)
    requires i < |ts| == |ss| && (forall k :: 0 <= k < |ts| ==> Part(ts[k], ss[k])) && Single(Inner(ss), a.hash, x) && a.hash == b.hash
    ensures !(a in SiteAt(parent, ts[i], i, d) && b in SitesFrom(parent, ts, i + 1, d))
  {
    hide Part, HashOf, Single, Has, Lacks;
    SingleParts(ss, a.hash, x, i);
    if a in SiteAt(parent, ts[i], i, d) && b in SitesFrom(parent, ts, i + 1, d) {
      SiteAtLacks(parent, ts[i], i, d, a);
      LacksHas(ts[i], ss[i], a.hash);
      var j := SiteLacksFrom(parent, ts, i + 1, d, b);
      LacksHas(ts[j], ss[j], a.hash);
      assert false;
    }
  }

  lemma {:induction false} SiteAtLacks(parent: Hash, kid: Tree, i: nat, d: nat, e: MissingNode)
    requires e in SiteAt(parent, kid, i, d)
    ensures Lacks(kid, e.hash)
  {
    if !kid.Stub? { SiteLacks(kid, d + 1, e); }
  }
}
