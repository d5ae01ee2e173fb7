/** Lookup in a synchronized tree, canonical or not. */
module SyncLookup {
  import opened Bytes
  import opened Tree
  import opened Canonical
  import opened LeafOrder
  import opened Merkle
  import opened Walking
  import opened SyncTree

  /** Inner nodes with one hash have the same child hashes. */
  lemma {:induction false} KidHashes(t: Tree, s: Tree, ps: set<bytes>)
    requires t.Inner? && s.Inner? && |t.kids| == |s.kids| == BRANCH_FACTOR && !Bare(t.kids) && !Bare(s.kids)
    requires CollisionFree(ps) && Preimages(t) <= ps && Preimages(s) <= ps && HashOf(t) == HashOf(s)
    ensures Hashes(t.kids) == Hashes(s.kids)
  {
    var a, b := InnerPreimage(Hashes(t.kids)), InnerPreimage(Hashes(s.kids));
    assert a in Preimages(t) && b in Preimages(s);
    assert a[4..] == Flatten(Hashes(t.kids)) && b[4..] == Flatten(Hashes(s.kids));
    FlattenInjective(Hashes(t.kids), Hashes(s.kids));
  }

  /** What a canonical node below the root looks like. */
  lemma {:induction false} NodeSound(kind: Kind, m: Contents, key: Key, d: nat)
    requires d <= MAX_DEPTH && AllBound(kind, m)
    ensures var s := NodeAt(kind, m, key, d); Whole(s) && Wide(s) && Bound(s) && (d > 0 ==> Tidy(s))
  {
    hide Canon, CanonRoot;
    if d == 0 {
      RootSound(kind, m);
    } else {
      UnderShared(m, key, d);
      CanonSound(kind, Under(m, key, d), d);
      CanonWhole(kind, Under(m, key, d), d);
    }
  }

  lemma {:induction false} UnderShared(m: Contents, key: Key, d: nat)
    ensures Shared(Under(m, key, d), d)
  {
  }

  /** A tree whose hash is zero has nothing to find. */
  lemma {:induction false} ZeroLookup(t: Tree, key: Key, d: nat, ps: set<bytes>)
    requires Whole(t) && CollisionFree(ps) && Preimages(t) <= ps && HashOf(t) == ZERO
    ensures Lookup(t, key, d) == None && !TooDeep(t, key, d)
  {
    if t.Inner? {
      EmptyHash(t, ps);
    } else if t.Leaf? {
      LeafHash(t, ps);
    }
  }

  lemma {:induction false} LeafHash(t: Tree, ps: set<bytes>)
    requires t.Leaf? && CollisionFree(ps) && Preimages(t) <= ps
    ensures HashOf(t) != ZERO
  {
    assert LeafPreimage(t.kind, t.item) in Preimages(t);
  }

  /** A complete tree under the hash of a canonical node finds what the canonical node finds. */
  lemma {:induction false} LookupAgrees(kind: Kind, m: Contents, key: Key, d: nat, t: Tree, ps: set<bytes>)
    requires d <= MAX_DEPTH && AllBound(kind, m) && Whole(t) && Wide(t) && Bound(t)
    requires var s := NodeAt(kind, m, key, d); HashOf(t) == HashOf(s) && Preimages(s) <= ps
    requires CollisionFree(ps) && Preimages(t) <= ps
    ensures Lookup(t, key, d) == (if key in m then Some(Item(key, m[key])) else None) && !TooDeep(t, key, d)
    decreases MAX_DEPTH - d
  {
    hide NodeAt, Preimages, HashOf, Bound, Whole, Wide, Tidy;
    var s := NodeAt(kind, m, key, d);
    NodeSound(kind, m, key, d);
    CanonLookup(kind, m, key, d);
    if HashOf(t) == ZERO {
      ZeroLookup(t, key, d, ps);
      ZeroLookup(s, key, d, ps);
    } else if t.Inner? {
      InnerLookup(kind, m, key, d, t, ps);
      LookupAgrees(kind, m, key, d + 1, t.kids[SelectBranch(key, d)], ps);
      CanonLookup(kind, m, key, d + 1);
    } else {
      LeafAgreesWith(t, s, ps);
    }
  }

  lemma {:induction false} LeafAgreesWith(t: Tree, s: Tree, ps: set<bytes>)
    requires !t.Inner? && HashOf(t) == HashOf(s) != ZERO && Whole(t) && Whole(s) && Bound(t) && Bound(s)
    requires CollisionFree(ps) && Preimages(t) <= ps && Preimages(s) <= ps
    ensures t == s && t.Leaf?
  {
    assert LeafPreimage(t.kind, t.item) in Preimages(t);
    match s
    case Leaf(kind, item) =>
      assert LeafPreimage(kind, item) in Preimages(s);
      LeafPreimageInjective(t.kind, t.item, kind, item);
    case Inner(kids) =>
      assert InnerPreimage(Hashes(kids)) in Preimages(s);
      LeafIsNotInner(t.kind, t.item, Hashes(kids));
  }

  /** One level down both trees. */
  lemma {:induction false} InnerLookup(kind: Kind, m: Contents, key: Key, d: nat, t: Tree, ps: set<bytes>)
    requires d <= MAX_DEPTH && AllBound(kind, m) && t.Inner? && Whole(t) && Wide(t) && Bound(t)
    requires var s := NodeAt(kind, m, key, d); HashOf(t) == HashOf(s) != ZERO && Preimages(s) <= ps
    requires CollisionFree(ps) && Preimages(t) <= ps
    ensures d < MAX_DEPTH && |t.kids| == BRANCH_FACTOR
    ensures var kid := t.kids[SelectBranch(key, d)]; var below := NodeAt(kind, m, key, d + 1);
      HashOf(kid) == HashOf(below) && Preimages(below) <= ps && Preimages(kid) <= ps && Whole(kid) && Wide(kid) && Bound(kid)
  {
    var s := NodeAt(kind, m, key, d);
    NodeSound(kind, m, key, d);
    if s.Leaf? {
      LeafAgreesWith(s, t, ps);
    }
    NodeAtStep(kind, m, key, d, s.kids);
    KidHashes(t, s, ps);
    var b := SelectBranch(key, d);
    assert Hashes(t.kids)[b] == Hashes(s.kids)[b];
    KidInputs(t, b);
    KidInputs(s, b);
  }
}
