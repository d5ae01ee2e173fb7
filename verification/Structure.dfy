/** The structural invariant of the trie, and that it leaves exactly the canonical trees. */
module Structure {
  import opened Bytes
  import opened Tree
  import opened Canonical
  import opened LeafOrder

  /** The branches taken from the root. */
  type Trail = seq<Branch>

  ghost predicate On(key: Key, p: Trail) {
    forall i :: 0 <= i < |p| ==> SelectBranch(key, i) == p[i]
  }

  /** A subtree at p: leaves extend the trail, and an inner node has at least two leaves below it. */
  ghost predicate Proper(kind: Kind, t: Tree, p: Trail) {
    match t
    case Nil => true
    case Stub(_) => false
    case Leaf(k, item) => k == kind && On(item.key, p)
    case Inner(kids) => |Leaves(t)| >= 2 && ProperKids(kind, kids, p)
  }

  ghost predicate ProperKids(kind: Kind, kids: seq<Tree>, p: Trail) {
    |p| < MAX_DEPTH && |kids| == BRANCH_FACTOR && forall i :: 0 <= i < |kids| ==> Proper(kind, kids[i], p + [i])
  }

  /** The root is an inner node, with any number of leaves. */
  ghost predicate ProperRoot(kind: Kind, t: Tree) {
    t.Inner? && ProperKids(kind, t.kids, [])
  }

  /** The leaves of t are the entries of u. */
  ghost predicate Carries(t: Tree, u: Contents) {
    forall it :: it in Leaves(t) <==> it.key in u && u[it.key] == it.data
  }

  lemma {:induction false} OnStep(key: Key, p: Trail, i: Branch)
    ensures On(key, p + [i]) <==> On(key, p) && SelectBranch(key, |p|) == i
  {
  }

  /** Every leaf of a proper subtree extends its trail. */
  lemma {:induction false} LeavesOnTrail(kind: Kind, t: Tree, p: Trail, it: Item)
    requires Proper(kind, t, p) && it in Leaves(t)
    ensures On(it.key, p)
    decreases t
  {
    if t.Inner? {
      var i := KidLeafOn(kind, t.kids, p, it);
    }
  }

  /** A leaf below a proper node is below the child on its branch. */
  lemma {:induction false} KidLeafOn(kind: Kind, kids: seq<Tree>, p: Trail, it: Item) returns (i: nat)
    requires ProperKids(kind, kids, p) && it in LeavesOf(kids)
    ensures i < BRANCH_FACTOR && it in Leaves(kids[i]) && On(it.key, p) && SelectBranch(it.key, |p|) == i
    decreases kids
  {
    LeavesOfMember(kids, it);
    i :| 0 <= i < |kids| && it in Leaves(kids[i]);
    LeavesOnTrail(kind, kids[i], p + [i], it);
    OnStep(it.key, p, i);
  }

  /** The children carry the parts of u. */
  lemma {:induction false} KidCarries(kind: Kind, kids: seq<Tree>, u: Contents, p: Trail, i: nat)
    requires ProperKids(kind, kids, p) && Carries(Inner(kids), u) && i < BRANCH_FACTOR
    ensures Carries(kids[i], Sub(u, |p|, i))
  {
    forall it ensures it in Leaves(kids[i]) <==> it.key in Sub(u, |p|, i) && u[it.key] == it.data {
      LeavesOfMember(kids, it);
      if it in Leaves(kids[i]) {
        LeavesOnTrail(kind, kids[i], p + [i], it);
        OnStep(it.key, p, i);
      } else if it.key in Sub(u, |p|, i) && u[it.key] == it.data {
        assert it in Leaves(Inner(kids));
        var j := KidLeafOn(kind, kids, p, it);
        assert false;
      }
    }
  }

  /** A proper subtree is the canonical one of its leaves. */
  lemma {:induction false} ProperIsCanon(kind: Kind, t: Tree, u: Contents, p: Trail)
    requires |p| <= MAX_DEPTH && Proper(kind, t, p) && Carries(t, u)
    ensures t == Canon(kind, u, |p|)
    decreases t, 1
  {
    match t {
      case Nil =>
        assert forall k :: k in u ==> Item(k, u[k]) in Leaves(t);
        assert u == map[];
      case Leaf(_, item) =>
        assert item in Leaves(t);
        forall k | k in u ensures k == item.key { assert Item(k, u[k]) in Leaves(t); }
        assert u == map[item.key := item.data];
        CanonLeaf(kind, item.key, item.data, |p|);
      case Inner(kids) =>
        ProperKidsCanon(kind, kids, u, p);
        ManyEntries(kind, t, u, p);
    }
  }

  lemma {:induction false} ProperKidsCanon(kind: Kind, kids: seq<Tree>, u: Contents, p: Trail)
    requires ProperKids(kind, kids, p) && Carries(Inner(kids), u)
    ensures kids == CanonKids(kind, u, |p|)
    decreases kids, 0
  {
    hide Canon, Carries, Leaves, Sub;
    forall i | 0 <= i < BRANCH_FACTOR ensures kids[i] == Canon(kind, Sub(u, |p|, i), |p| + 1) {
      KidCarries(kind, kids, u, p, i);
      ProperIsCanon(kind, kids[i], Sub(u, |p|, i), p + [i]);
    }
  }

  lemma {:induction false} ManyEntries(kind: Kind, t: Tree, u: Contents, p: Trail)
    requires t.Inner? && Proper(kind, t, p) && Carries(t, u)
    ensures u != map[] && |u| != 1
  {
    var a, b := Leaves(t)[0], Leaves(t)[1];
    assert a in Leaves(t) && b in Leaves(t);
    assert a.key in u && b.key in u;
    DistinctLeaves(kind, t, p, 0, 1);
    if |u| == 1 {
      SingleIs(u, a.key);
      assert false;
    }
  }

  /** No key occurs twice. */
  lemma {:induction false} DistinctLeaves(kind: Kind, t: Tree, p: Trail, i: nat, j: nat)
    requires Proper(kind, t, p) && i < j < |Leaves(t)|
    ensures Leaves(t)[i].key != Leaves(t)[j].key
    decreases t, 1
  {
    if t.Inner? {
      assert t.kids[0..] == t.kids;
      DistinctFrom(kind, t.kids, p, 0, i, j);
    }
  }

  lemma {:induction false} DistinctFrom(kind: Kind, kids: seq<Tree>, p: Trail, b: nat, i: nat, j: nat)
    requires ProperKids(kind, kids, p) && b <= BRANCH_FACTOR && i < j < |LeavesOf(kids[b..])|
    ensures LeavesOf(kids[b..])[i].key != LeavesOf(kids[b..])[j].key
    decreases kids, 0, BRANCH_FACTOR - b
  {
    var first, rest := Leaves(kids[b]), LeavesOf(kids[b + 1..]);
    assert kids[b..][1..] == kids[b + 1..];
    assert LeavesOf(kids[b..]) == first + rest;
    if j < |first| {
      DistinctLeaves(kind, kids[b], p + [b], i, j);
    } else if i >= |first| {
      DistinctFrom(kind, kids, p, b + 1, i - |first|, j - |first|);
    } else {
      LeavesOnTrail(kind, kids[b], p + [b], first[i]);
      OnStep(first[i].key, p, b);
      var c := LaterBranch(kind, kids, p, b + 1, rest[j - |first|]);
    }
  }

  lemma {:induction false} LaterBranch(kind: Kind, kids: seq<Tree>, p: Trail, b: nat, it: Item) returns (c: nat)
    requires ProperKids(kind, kids, p) && b <= BRANCH_FACTOR && it in LeavesOf(kids[b..])
    ensures b <= c < BRANCH_FACTOR && SelectBranch(it.key, |p|) == c
  {
    LeavesOfMember(kids[b..], it);
    var i :| 0 <= i < |kids[b..]| && it in Leaves(kids[b..][i]);
    c := b + i;
    LeavesOnTrail(kind, kids[c], p + [c], it);
    OnStep(it.key, p, c);
  }

  // ---------- the other direction ----------

  ghost predicate AllOn(u: Contents, p: Trail) {
    forall k :: k in u ==> On(k, p)
  }

  lemma {:induction false} AllOnShared(u: Contents, p: Trail)
    requires AllOn(u, p)
    ensures Shared(u, |p|)
  {
  }

  lemma {:induction false} CanonIsProper(kind: Kind, u: Contents, p: Trail)
    requires |p| <= MAX_DEPTH && AllOn(u, p)
    ensures Proper(kind, Canon(kind, u, |p|), p)
    decreases MAX_DEPTH - |p|, 1
  {
    AllOnShared(u, p);
    SharedCases(kind, u, |p|);
    if Canon(kind, u, |p|).Inner? {
      CanonKidsProper(kind, u, p);
      TwoLeaves(kind, u, |p|);
    }
  }

  lemma {:induction false} CanonKidsProper(kind: Kind, u: Contents, p: Trail)
    requires |p| < MAX_DEPTH && AllOn(u, p)
    ensures ProperKids(kind, CanonKids(kind, u, |p|), p)
    decreases MAX_DEPTH - |p|, 0
  {
    hide Canon, On;
    var kids := CanonKids(kind, u, |p|);
    forall i | 0 <= i < |kids| ensures Proper(kind, kids[i], p + [i]) {
      forall k | k in Sub(u, |p|, i) ensures On(k, p + [i]) {
        OnStep(k, p, i);
      }
      CanonIsProper(kind, Sub(u, |p|, i), p + [i]);
    }
  }

  lemma {:induction false} TwoLeaves(kind: Kind, u: Contents, d: nat)
    requires d < MAX_DEPTH && Shared(u, d) && |u| != 1 && u != map[]
    ensures |LeavesOf(CanonKids(kind, u, d))| >= 2
  {
    hide Leaves, LeavesOf, CanonKids;
    var items := LeavesOf(CanonKids(kind, u, d));
    var a :| a in u;
    var b :| b in u.Keys - {a} by {
      assert |u.Keys - {a}| == |u| - 1;
    }
    KidsLeaves(kind, u, d, Item(a, u[a]));
    KidsLeaves(kind, u, d, Item(b, u[b]));
    var i :| 0 <= i < |items| && items[i] == Item(a, u[a]);
    var j :| 0 <= j < |items| && items[j] == Item(b, u[b]);
  }

  /** The items as a map; the last one counts if a key comes twice. */
  ghost function Gathered(items: seq<Item>): (m: Contents)
    ensures forall k :: k in m ==> Item(k, m[k]) in items
    ensures forall it :: it in items ==> it.key in m
  {
    if items == [] then map[]
    else
      var last := items[|items| - 1];
      Gathered(items[..|items| - 1])[last.key := last.data]
  }

  /** The entries a tree holds. */
  ghost function Held(t: Tree): Contents {
    Gathered(Leaves(t))
  }

  lemma {:induction false} RootCarries(kind: Kind, t: Tree)
    requires ProperRoot(kind, t)
    ensures Carries(t, Held(t))
  {
    var items := Leaves(t);
    forall a, b | a in items && b in items && a.key == b.key ensures a == b {
      var i :| 0 <= i < |items| && items[i] == a;
      var j :| 0 <= j < |items| && items[j] == b;
      assert t.kids[0..] == t.kids;
      if i < j {
        DistinctFrom(kind, t.kids, [], 0, i, j);
      } else if j < i {
        DistinctFrom(kind, t.kids, [], 0, j, i);
      }
    }
  }

  /** The structural invariant holds of a tree exactly when it is the canonical tree of the entries it holds. */
  lemma {:induction false} ProperIffCanonical(kind: Kind, t: Tree)
    ensures ProperRoot(kind, t) <==> t == CanonRoot(kind, Held(t))
  {
    if ProperRoot(kind, t) {
      RootCarries(kind, t);
      ProperKidsCanon(kind, t.kids, Held(t), []);
    }
    if t == CanonRoot(kind, Held(t)) {
      CanonKidsProper(kind, Held(t), []);
    }
  }

  /** Every canonical tree holds the entries it was made of. */
  lemma {:induction false} CanonicalHolds(kind: Kind, m: Contents)
    ensures Held(CanonRoot(kind, m)) == m && ProperRoot(kind, CanonRoot(kind, m))
  {
    hide CanonRoot;
    var t := CanonRoot(kind, m);
    RootProper(kind, m);
    RootCarries(kind, t);
    forall k ensures k in Held(t) <==> k in m {
      if k in m { RootLeaves(kind, m, Item(k, m[k])); }
      if k in Held(t) { RootLeaves(kind, m, Item(k, Held(t)[k])); }
    }
    forall k | k in m ensures Held(t)[k] == m[k] {
      RootLeaves(kind, m, Item(k, m[k]));
    }
  }

  lemma {:induction false} RootProper(kind: Kind, m: Contents)
    ensures ProperRoot(kind, CanonRoot(kind, m))
  {
    CanonKidsProper(kind, m, []);
  }
}
