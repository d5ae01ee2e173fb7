/** What a root hash commits to, as long as the hash function does not collide on the inputs at hand. */
module Merkle {
  import opened Bytes
  import opened Tree
  import opened Canonical
  import opened LeafOrder

  /** Everything that is hashed in a tree. */
  ghost function Preimages(t: Tree): set<bytes>
    decreases t, 0
  {
    match t
    case Leaf(kind, item) => {LeafPreimage(kind, item)}
    case Inner(kids) => if Bare(kids) then {} else {InnerPreimage(Hashes(kids))} + KidPreimages(kids)
    case _ => {}
  }

  ghost function KidPreimages(kids: seq<Tree>): (ps: set<bytes>)
    ensures forall i :: 0 <= i < |kids| ==> Preimages(kids[i]) <= ps
    decreases kids, 1
  {
    set i, p | 0 <= i < |kids| && p in Preimages(kids[i]) :: p
  }

  lemma {:induction false} KidInputs(t: Tree, i: nat)
    requires t.Inner? && i < |t.kids|
    ensures Preimages(t.kids[i]) <= Preimages(t)
  {
  }

  /** No two of the inputs collide and none hashes to zero. */
  ghost predicate CollisionFree(ps: set<bytes>) {
    && (forall a, b :: a in ps && b in ps && Sha512Half(a) == Sha512Half(b) ==> a == b)
    && (forall a :: a in ps ==> Sha512Half(a) != ZERO)
  }

  /** Sixteen branches everywhere. */
  predicate Wide(t: Tree) {
    t.Inner? ==> |t.kids| == BRANCH_FACTOR && forall i :: 0 <= i < |t.kids| ==> Wide(t.kids[i])
  }

  /** Every inner node has a branch in use. */
  predicate Tidy(t: Tree) {
    t.Inner? ==> !Bare(t.kids) && forall i :: 0 <= i < |t.kids| ==> Tidy(t.kids[i])
  }

  /** The leaf's hash commits to its key: it is hashed along, or it is that hash. */
  predicate KeyBound(kind: Kind, item: Item) {
    kind.TransactionNoMeta? ==> item.key == Sha512Half(PREFIX_TX_ID + item.data)
  }

  predicate Bound(t: Tree) {
    match t
    case Leaf(kind, item) => KeyBound(kind, item)
    case Inner(kids) => forall i :: 0 <= i < |kids| ==> Bound(kids[i])
    case _ => true
  }

  function LeafPrefix(kind: Kind): bytes {
    match kind
    case AccountState => PREFIX_LEAF
    case TransactionNoMeta => PREFIX_TX_ID
    case TransactionWithMeta => PREFIX_TX_NODE
  }

  lemma {:induction false} LeafStart(kind: Kind, item: Item)
    ensures |LeafPreimage(kind, item)| >= 4 && LeafPreimage(kind, item)[..4] == LeafPrefix(kind)
  {
  }

  lemma {:induction false} LeafPreimageInjective(k1: Kind, a: Item, k2: Kind, b: Item)
    requires LeafPreimage(k1, a) == LeafPreimage(k2, b)
    ensures k1 == k2 && a.data == b.data && (k1.TransactionNoMeta? || a.key == b.key)
  {
    var p := LeafPreimage(k1, a);
    LeafStart(k1, a);
    LeafStart(k2, b);
    assert k1 == k2 by {
      assert LeafPrefix(k1)[1] == LeafPrefix(k2)[1] && LeafPrefix(k1)[0] == LeafPrefix(k2)[0];
    }
    if k1.TransactionNoMeta? {
      assert p[4..] == a.data && p[4..] == b.data;
    } else {
      assert p[4..|p| - 32] == a.data && p[|p| - 32..] == a.key;
      assert p[4..|p| - 32] == b.data && p[|p| - 32..] == b.key;
    }
  }

  lemma {:induction false} LeafIsNotInner(kind: Kind, item: Item, hs: seq<Hash>)
    ensures LeafPreimage(kind, item) != InnerPreimage(hs)
  {
    LeafStart(kind, item);
    assert InnerPreimage(hs)[..4] == PREFIX_INNER;
    assert LeafPrefix(kind)[1] != PREFIX_INNER[1];
  }

  /** A hash pins down the leaves below it, and the whole tree if no node is empty. */
  lemma {:induction false} HashPinsLeaves(t: Tree, s: Tree, ps: set<bytes>)
    requires Whole(t) && Wide(t) && Bound(t)
    requires Whole(s) && Wide(s) && Bound(s) && Tidy(s)
    requires CollisionFree(ps) && Preimages(t) <= ps && Preimages(s) <= ps
    requires HashOf(t) == HashOf(s)
    ensures Leaves(t) == Leaves(s) && (Tidy(t) ==> t == s)
    decreases t
  {
    match t {
      case Nil =>
        assert s.Nil?;
      case Leaf(kind, item) =>
        assert LeafPreimage(kind, item) in ps;
        match s {
          case Leaf(kind', item') => LeafPreimageInjective(kind, item, kind', item');
          case Inner(kids') => LeafIsNotInner(kind, item, Hashes(kids'));
          case Nil =>
        }
      case Inner(kids) =>
        if Bare(kids) {
          EmptyLeaves(kids);
          assert s.Nil?;
        } else {
          assert InnerPreimage(Hashes(kids)) in ps;
          match s {
            case Leaf(kind', item') => LeafIsNotInner(kind', item', Hashes(kids));
            case Inner(kids') => InnerPinsLeaves(kids, kids', ps);
            case Nil =>
          }
        }
    }
  }

  lemma {:induction false} InnerPinsLeaves(kids: seq<Tree>, kids': seq<Tree>, ps: set<bytes>)
    requires var t := Inner(kids); Whole(t) && Wide(t) && Bound(t) && !Bare(kids) && Preimages(t) <= ps
    requires var s := Inner(kids'); Whole(s) && Wide(s) && Bound(s) && Tidy(s) && Preimages(s) <= ps
    requires CollisionFree(ps) && HashOf(Inner(kids)) == HashOf(Inner(kids'))
    ensures LeavesOf(kids) == LeavesOf(kids') && (Tidy(Inner(kids)) ==> kids == kids')
    decreases kids
  {
    var a, b := InnerPreimage(Hashes(kids)), InnerPreimage(Hashes(kids'));
    assert a in ps && b in ps;
    assert a[4..] == Flatten(Hashes(kids)) && b[4..] == Flatten(Hashes(kids'));
    FlattenInjective(Hashes(kids), Hashes(kids'));
    forall i | 0 <= i < |kids|
      ensures Leaves(kids[i]) == Leaves(kids'[i]) && (Tidy(kids[i]) ==> kids[i] == kids'[i])
    {
      assert Hashes(kids)[i] == Hashes(kids')[i];
      assert Preimages(kids[i]) <= KidPreimages(kids) && Preimages(kids'[i]) <= KidPreimages(kids');
      HashPinsLeaves(kids[i], kids'[i], ps);
    }
    LeavesOfSame(kids, kids');
  }

  lemma {:induction false} EmptyLeaves(kids: seq<Tree>)
    requires Bare(kids)
    ensures LeavesOf(kids) == []
  {
    if kids != [] { EmptyLeaves(kids[1..]); }
  }

  // ---------- canonical trees ----------

  ghost predicate AllBound(kind: Kind, m: Contents) {
    forall k :: k in m ==> KeyBound(kind, Item(k, m[k]))
  }

  lemma {:induction false} CanonSound(kind: Kind, u: Contents, d: nat)
    requires d <= MAX_DEPTH && Shared(u, d)
    ensures var t := Canon(kind, u, d); Wide(t) && Tidy(t) && (AllBound(kind, u) ==> Bound(t))
    decreases MAX_DEPTH - d, 1
  {
    SharedCases(kind, u, d);
    if Canon(kind, u, d).Inner? {
      KidsSound(kind, u, d);
      var k :| k in u;
      var i := SelectBranch(k, d);
      assert k in Sub(u, d, i);
      assert CanonKids(kind, u, d)[i] == Canon(kind, Sub(u, d, i), d + 1);
    }
  }

  lemma {:induction false} KidsSound(kind: Kind, u: Contents, d: nat)
    requires d < MAX_DEPTH && Shared(u, d)
    ensures forall i :: 0 <= i < BRANCH_FACTOR ==>
      var t := CanonKids(kind, u, d)[i]; Wide(t) && Tidy(t) && (AllBound(kind, u) ==> Bound(t))
    decreases MAX_DEPTH - d, 0
  {
    hide Canon;
    forall i | 0 <= i < BRANCH_FACTOR
      ensures var t := CanonKids(kind, u, d)[i]; Wide(t) && Tidy(t) && (AllBound(kind, u) ==> Bound(t))
    {
      SharedStep(u, d, i);
      CanonSound(kind, Sub(u, d, i), d + 1);
    }
  }

  lemma {:induction false} RootSound(kind: Kind, m: Contents)
    ensures var t := CanonRoot(kind, m); Whole(t) && Wide(t) && (Tidy(t) <==> m != map[])
    ensures AllBound(kind, m) ==> Bound(CanonRoot(kind, m))
  {
    KidsSound(kind, m, 0);
    KidsWhole(kind, m, 0);
    if k :| k in m {
      assert k in Sub(m, 0, SelectBranch(k, 0));
      assert !CanonKids(kind, m, 0)[SelectBranch(k, 0)].Nil?;
    } else {
      assert forall i :: 0 <= i < BRANCH_FACTOR ==> Sub(m, 0, i) == map[];
    }
  }

  /** Equal root hashes mean equal contents. */
  lemma {:induction false} RootHashPinsContents(kind: Kind, a: Contents, b: Contents, ps: set<bytes>)
    requires AllBound(kind, a) && AllBound(kind, b) && CollisionFree(ps)
    requires Preimages(CanonRoot(kind, a)) <= ps && Preimages(CanonRoot(kind, b)) <= ps
    requires HashOf(CanonRoot(kind, a)) == HashOf(CanonRoot(kind, b))
    ensures a == b
  {
    hide CanonRoot, Leaves, Preimages, HashOf, Whole, Wide, Bound, Tidy;
    RootSound(kind, a);
    RootSound(kind, b);
    RootZero(kind, a, ps);
    RootZero(kind, b, ps);
    if a != map[] && b != map[] {
      HashPinsLeaves(CanonRoot(kind, a), CanonRoot(kind, b), ps);
      LeavesDetermine(kind, a, b);
    }
  }

  /** Only the empty map has the root hash zero. */
  lemma {:induction false} RootZero(kind: Kind, m: Contents, ps: set<bytes>)
    requires CollisionFree(ps) && Preimages(CanonRoot(kind, m)) <= ps
    ensures CanonRoot(kind, m).Inner? && (HashOf(CanonRoot(kind, m)) == ZERO <==> m == map[])
  {
    hide Canon;
    var t := CanonRoot(kind, m);
    RootSound(kind, m);
    if m == map[] {
      CanonNil(kind, map[], 1);
      assert forall i :: 0 <= i < BRANCH_FACTOR ==> Sub(m, 0, i) == map[];
    }
    assert Bare(t.kids) <==> m == map[];
    assert InnerPreimage(Hashes(t.kids)) in Preimages(t) || Bare(t.kids);
  }
}
