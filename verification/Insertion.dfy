/** Insertion on node objects. */
module Insertion {
  import opened Bytes
  import opened Tree
  import opened Codec
  import opened Storage
  import opened Nodes
  import opened Shapes
  import opened Canonical
  import opened Walking

  // ---------- changing a node in place ----------

  /** SetChild on a node whose children are known: the node then carries the tree with the new child. */
  method SetKid(n: InnerNode, branch: nat, child: NodeRef, ghost env: Env, ghost kids: seq<Shape>, ghost x: Shape)
    requires branch < BRANCH_FACTOR && Local(env, n, kids)
    requires forall i :: 0 <= i < BRANCH_FACTOR && i != branch ==> Rep(env, kids[i]) && n !in Foot(kids[i])
    requires Rep(env, x) && n !in Foot(x) && RefOf(x) == child && !x.SStub?
    modifies n
    ensures |kids| == BRANCH_FACTOR && Rep(env, SInner(n, kids[branch := x])) && n.dirty
  {
    hide Rep, Foot, HashOf, TreeOf, CleanOk, AllClear, InnerPreimage;
    ghost var ks := kids[branch := x];
    assert ks[branch] == x && forall i :: 0 <= i < BRANCH_FACTOR && i != branch ==> ks[i] == kids[i];
    OthersApart(n, ks);
    n.SetChild(branch, child);
    assert forall i :: 0 <= i < BRANCH_FACTOR ==> Rep(env, ks[i]);
    RootHashes(env, x);
    SetChildLocal(env, n, ks);
    InnerIs(env, n, ks);
  }

  lemma {:induction false} RootHashes(env: Env, x: Shape)
    requires Rep(env, x) && !x.SStub?
    ensures RefHash(RefOf(x)) == HashOf(TreeOf(x)) && (RefOf(x) == NoNode <==> x.SNil?)
  {
  }

  lemma {:induction false} InnerIs(env: Env, n: InnerNode, kids: seq<Shape>)
    requires Local(env, n, kids) && forall i :: 0 <= i < |kids| ==> Rep(env, kids[i])
    ensures Rep(env, SInner(n, kids))
  {
  }

  lemma {:induction false} OthersApart(n: InnerNode, ks: seq<Shape>)
    requires forall i :: 0 <= i < |ks| ==> n !in Foot(ks[i])
    ensures forall i :: 0 <= i < |ks| ==> RefOf(ks[i]) != InnerRef(n) && forall o :: o in Foot(ks[i]) ==> allocated(o)
  {
    forall i | 0 <= i < |ks| ensures RefOf(ks[i]) != InnerRef(n) && forall o :: o in Foot(ks[i]) ==> allocated(o) {
      RootInFoot(ks[i]);
      FootAllocated(ks[i]);
    }
  }

  lemma {:induction false} RootInFoot(s: Shape)
    ensures s.SInner? ==> s.node in Foot(s)
    ensures s.SLeaf? ==> s.leaf in Foot(s)
  {
  }

  lemma {:induction false} PathHead(env: Env, p: Path, x: Shape)
    requires p.Down? && PathOk(env, p) && Distinct(x) && Foot(x) !! PathFoot(p)
    ensures Distinct(SInner(p.node, p.kids[p.branch := x]))
    ensures Foot(SInner(p.node, p.kids[p.branch := x])) !! PathFoot(p.up)
  {
    FootUpdate(p.node, p.kids, p.branch, x);
    DistinctUpdate(p.node, p.kids, p.branch, x);
  }

  /** Hangs a subtree into the innermost node of a path. */
  method Lift(n: InnerNode, branch: nat, child: NodeRef, ghost env: Env, ghost p: Path, ghost x: Shape)
    requires p.Down? && p.node == n && p.branch == branch && PathOk(env, p)
    requires Rep(env, x) && Distinct(x) && Foot(x) !! PathFoot(p) && RefOf(x) == child && !child.NoNode?
    modifies n
    ensures |p.kids| == BRANCH_FACTOR && PathOk(env, p.up)
    ensures var y := SInner(n, p.kids[branch := x]);
      Rep(env, y) && Distinct(y) && Foot(y) !! PathFoot(p.up)
  {
    hide Rep, Distinct, Local, Foot, TreeOf;
    PathAllocated(p);
    PathHead(env, p, x);
    PathNode(env, p, x);
    SetKid(n, branch, child, env, p.kids, x);
  }

  lemma {:induction false} PathNode(env: Env, p: Path, x: Shape)
    requires p.Down? && PathOk(env, p) && Foot(x) !! PathFoot(p)
    ensures |p.kids| == BRANCH_FACTOR && p.branch < BRANCH_FACTOR && Local(env, p.node, p.kids) && p.node !in Foot(x)
    ensures forall i :: 0 <= i < BRANCH_FACTOR && i != p.branch ==> Rep(env, p.kids[i]) && p.node !in Foot(p.kids[i])
    ensures PathOk(env, p.up) && p.node !in PathFoot(p.up)
  {
  }

  /** The innermost node of a path, and the path above it. */
  lemma {:induction false} Innermost(env: Env, q: Path, target: Key, y: Shape)
    requires PathOk(env, q) && Formed(q) && Follows(q, target) && StackOf(q) != []
    ensures q.Down? && Formed(q.up) && Follows(q.up, target) && StackOf(q) == StackOf(q.up) + [q.node]
    ensures q.branch == SelectBranch(target, |StackOf(q.up)|) && q.branch < |q.kids|
    ensures Plug(q, y) == Plug(q.up, SInner(q.node, q.kids[q.branch := y]))
  {
  }

  /** Sets the new child in every node of the stack, innermost first, refreshing the hashes up to the root. */
  method DirtyUp(stack: seq<InnerNode>, target: Key, child: NodeRef, ghost env: Env, ghost p: Path, ghost x: Shape)
    returns (root: NodeRef)
    requires PathOk(env, p) && Formed(p) && Follows(p, target) && StackOf(p) == stack
    requires Rep(env, x) && Distinct(x) && Foot(x) !! PathFoot(p) && RefOf(x) == child && !child.NoNode?
    modifies set n | n in stack
    ensures Rep(env, Plug(p, x)) && Distinct(Plug(p, x)) && root == RefOf(Plug(p, x))
  {
    hide Rep, Distinct, PathOk, Foot, PathFoot, Follows, Plug;
    var st := stack;
    root := child;
    ghost var q, y := p, x;
    while st != []
      invariant PathOk(env, q) && Formed(q) && Follows(q, target) && StackOf(q) == st
      invariant forall n :: n in st ==> n in stack
      invariant Rep(env, y) && Distinct(y) && Foot(y) !! PathFoot(q) && RefOf(y) == root && !root.NoNode?
      invariant Plug(q, y) == Plug(p, x)
    {
      var n := st[|st| - 1];
      st := st[..|st| - 1];
      var branch := SelectBranch(target, |st|);
      Innermost(env, q, target, y);
      Lift(n, branch, root, env, q, y);
      y := SInner(n, q.kids[branch := y]);
      q := q.up;
      root := InnerRef(n);
    }
    PathEnd(q, y);
  }

  lemma {:induction false} PathEnd(q: Path, y: Shape)
    requires Formed(q) && StackOf(q) == []
    ensures Plug(q, y) == y
  {
  }

  // ---------- building the new subtree ----------

  /** The first depth from start on at which the keys part; the last depth if they do not. */
  method FindSplitDepth(a: Key, b: Key, start: nat) returns (d: nat)
    ensures d < MAX_DEPTH
    ensures forall i :: start <= i < d ==> SelectBranch(a, i) == SelectBranch(b, i)
    ensures start <= MAX_DEPTH && SamePrefix(a, b, start) && a != b ==> start <= d && SelectBranch(a, d) != SelectBranch(b, d)
  {
    d := start;
    while d < MAX_DEPTH
      invariant forall i :: start <= i < d ==> SelectBranch(a, i) == SelectBranch(b, i)
      invariant start <= MAX_DEPTH ==> d <= MAX_DEPTH
    {
      if SelectBranch(a, d) != SelectBranch(b, d) {
        return;
      }
      d := d + 1;
    }
    if start <= MAX_DEPTH && SamePrefix(a, b, start) {
      FullPrefixIsKey(a, b);
    }
    d := MAX_DEPTH - 1;
  }

  ghost function NilShapes(): (ks: seq<Shape>)
    ensures |ks| == BRANCH_FACTOR && forall i :: 0 <= i < BRANCH_FACTOR ==> ks[i] == SNil
  {
    seq(BRANCH_FACTOR, _ => SNil)
  }

  /** A new inner node with one child. */
  method NewWithChild(branch: nat, child: NodeRef, ghost env: Env, ghost x: Shape) returns (n: InnerNode)
    requires branch < BRANCH_FACTOR && Rep(env, x) && Distinct(x) && RefOf(x) == child && !child.NoNode?
    ensures fresh(n)
    ensures var y := SInner(n, NilShapes()[branch := x]);
      && Rep(env, y) && Distinct(y) && Foot(y) == {n} + Foot(x)
      && TreeOf(y) == Inner(NoKids()[branch := TreeOf(x)])
  {
    hide Rep, Distinct, Foot, TreeOf;
    FootAllocated(x);
    n := new InnerNode();
    NewLocal(env, n);
    SetKid(n, branch, child, env, NilShapes(), x);
    OneChild(n, branch, x);
  }

  lemma {:induction false} NewLocal(env: Env, n: InnerNode)
    requires n.Sized() && n.dirty && n.hash == ZERO
    requires forall i :: 0 <= i < BRANCH_FACTOR ==> n.children[i] == NoNode && n.hashes[i] == ZERO && !n.isBranch[i]
    ensures Local(env, n, NilShapes()) && forall i :: 0 <= i < BRANCH_FACTOR ==> Rep(env, NilShapes()[i]) && Foot(NilShapes()[i]) == {}
  {
    assert Trees(NilShapes()) == NoKids();
    assert Bare(NoKids());
  }

  lemma {:induction false} OneChild(n: InnerNode, branch: nat, x: Shape)
    requires branch < BRANCH_FACTOR && Distinct(x) && n !in Foot(x)
    ensures var y := SInner(n, NilShapes()[branch := x]);
      Distinct(y) && Foot(y) == {n} + Foot(x) && TreeOf(y) == Inner(NoKids()[branch := TreeOf(x)])
  {
    hide Distinct;
    var ks := NilShapes();
    assert Trees(ks) == NoKids();
    TreesUpdate(ks, branch, x);
    assert Siblings(ks, branch) == {};
    FootUpdate(n, ks, branch, x);
    assert forall i :: 0 <= i < |ks| ==> Distinct(ks[i]) by { NilsDistinct(); }
    DistinctUpdate(n, ks, branch, x);
  }

  lemma {:induction false} NilsDistinct()
    ensures forall i :: 0 <= i < BRANCH_FACTOR ==> Distinct(NilShapes()[i])
  {
  }

  /** The node at which two keys part. */
  method NewSplit(kind: Kind, fresher: LeafNode, existing: LeafNode, d: nat, ghost env: Env)
    returns (n: InnerNode, ghost y: Shape)
    requires d < MAX_DEPTH && SelectBranch(fresher.item.key, d) != SelectBranch(existing.item.key, d)
    requires fresher != existing && fresher.kind == existing.kind == kind
    requires Rep(env, SLeaf(fresher)) && Rep(env, SLeaf(existing))
    ensures fresh(n) && RefOf(y) == InnerRef(n)
    ensures Rep(env, y) && Distinct(y) && Foot(y) == {n, fresher, existing}
    ensures TreeOf(y) == Canon(kind, Pair(fresher.item, existing.item), d)
  {
    var newBranch := SelectBranch(fresher.item.key, d);
    var oldBranch := SelectBranch(existing.item.key, d);
    ghost var a, b := SLeaf(fresher), SLeaf(existing);
    n := NewWithChild(newBranch, LeafRef(fresher), env, a);
    ghost var ks := NilShapes()[newBranch := a];
    SetKid(n, oldBranch, LeafRef(existing), env, ks, b);
    y := SInner(n, ks[oldBranch := b]);
    SplitFacts(kind, n, fresher, existing, d);
  }

  lemma {:induction false} SplitFacts(kind: Kind, n: InnerNode, fresher: LeafNode, existing: LeafNode, d: nat)
    requires d < MAX_DEPTH && SelectBranch(fresher.item.key, d) != SelectBranch(existing.item.key, d)
    requires fresher != existing && fresher.kind == existing.kind == kind
    ensures var i, j := SelectBranch(fresher.item.key, d), SelectBranch(existing.item.key, d);
      var y := SInner(n, NilShapes()[i := SLeaf(fresher)][j := SLeaf(existing)]);
      Distinct(y) && Foot(y) == {n, fresher, existing} && TreeOf(y) == Canon(kind, Pair(fresher.item, existing.item), d)
  {
    var i, j := SelectBranch(fresher.item.key, d), SelectBranch(existing.item.key, d);
    var nils, a, b := NilShapes(), SLeaf(fresher), SLeaf(existing);
    TreesUpdate(nils, i, a);
    TreesUpdate(nils[i := a], j, b);
    assert Trees(nils) == NoKids();
    PairParts(kind, fresher.item, existing.item, d);
    assert Siblings(nils[i := a], j) == {fresher} by {
      assert fresher in Foot(nils[i := a][i]);
    }
    FootUpdate(n, nils[i := a], j, b);
    DistinctUpdate(n, nils[i := a], j, b);
  }

  /** A node with one child, at a depth d where the two keys still agree. */
  method NewChainLink(kind: Kind, a: Item, b: Item, d: nat, below: InnerNode, ghost env: Env, ghost x: Shape)
    returns (n: InnerNode, ghost y: Shape)
    requires d < MAX_DEPTH && a.key != b.key && SelectBranch(a.key, d) == SelectBranch(b.key, d)
    requires RefOf(x) == InnerRef(below) && Rep(env, x) && Distinct(x)
    requires TreeOf(x) == Canon(kind, Pair(a, b), d + 1)
    ensures fresh(n) && RefOf(y) == InnerRef(n) && Rep(env, y) && Distinct(y)
    ensures Foot(y) == {n} + Foot(x) && TreeOf(y) == Canon(kind, Pair(a, b), d)
  {
    n := NewWithChild(SelectBranch(a.key, d), InnerRef(below), env, x);
    PairAgrees(kind, a, b, d);
    y := SInner(n, NilShapes()[SelectBranch(a.key, d) := x]);
  }

  /** The inner nodes from depth d up to depth top, one child each. */
  method ChainUp(kind: Kind, a: Item, b: Item, d: nat, top: nat, below: InnerNode, ghost env: Env, ghost x: Shape)
    returns (n: InnerNode, ghost y: Shape)
    requires top <= d < MAX_DEPTH && a.key != b.key
    requires forall i :: top <= i < d ==> SelectBranch(a.key, i) == SelectBranch(b.key, i)
    requires RefOf(x) == InnerRef(below) && Rep(env, x) && Distinct(x)
    requires TreeOf(x) == Canon(kind, Pair(a, b), d)
    ensures RefOf(y) == InnerRef(n) && Rep(env, y) && Distinct(y)
    ensures forall o :: o in Foot(y) ==> o in Foot(x) || fresh(o)
    ensures TreeOf(y) == Canon(kind, Pair(a, b), top)
  {
    hide Rep, Distinct, TreeOf, Canon;
    n, y := below, x;
    var e := d;
    while e > top
      invariant top <= e <= d
      invariant RefOf(y) == InnerRef(n) && Rep(env, y) && Distinct(y)
      invariant forall o :: o in Foot(y) ==> o in Foot(x) || fresh(o)
      invariant TreeOf(y) == Canon(kind, Pair(a, b), e)
    {
      e := e - 1;
      n, y := NewChainLink(kind, a, b, e, n, env, y);
    }
  }

  /** The subtree at depth top that separates the new leaf from the one already there. */
  method CreateSplitStructure(kind: Kind, fresher: LeafNode, existing: LeafNode, top: nat, ghost env: Env)
    returns (n: InnerNode, ghost y: Shape)
    requires top <= MAX_DEPTH && fresher.item.key != existing.item.key
    requires SamePrefix(fresher.item.key, existing.item.key, top)
    requires fresher != existing && fresher.kind == existing.kind == kind
    requires Rep(env, SLeaf(fresher)) && Rep(env, SLeaf(existing))
    ensures RefOf(y) == InnerRef(n) && Rep(env, y) && Distinct(y)
    ensures forall o :: o in Foot(y) ==> o in {fresher, existing} || fresh(o)
    ensures TreeOf(y) == Canon(kind, Pair(fresher.item, existing.item), top)
  {
    hide TreeOf, Canon, Local, Foot;
    var d := FindSplitDepth(fresher.item.key, existing.item.key, top);
    var split;
    ghost var z;
    split, z := NewSplit(kind, fresher, existing, d, env);
    n, y := ChainUp(kind, fresher.item, existing.item, d, top, split, env, z);
  }

  /** Replacing the subtree on the path by its tree after insertion gives the tree after insertion. */
  lemma {:induction false} PlugPut(kind: Kind, m: Contents, k: Key, v: bytes, p: Path, t: Tree, x: Shape)
    requires Linked(p, t) && Follows(p, k) && RootTree(p, t) == CanonRoot(kind, m)
    requires Formed(p) && Depth(p) <= MAX_DEPTH && TreeOf(x) == NodeAt(kind, m[k := v], k, Depth(p))
    ensures TreeOf(Plug(p, x)) == CanonRoot(kind, m[k := v])
    decreases p
  {
    hide NodeAt, CanonRoot, TreeOf;
    if p.Down? {
      CanonicalAt(kind, m, k, p, t);
      var y := SInner(p.node, p.kids[p.branch := x]);
      TreesUpdate(p.kids, p.branch, x);
      PutLevel(kind, m, k, v, Depth(p.up), Trees(p.kids));
      InnerTree(y);
      PlugPut(kind, m, k, v, p.up, Inner(Trees(p.kids)), y);
    } else {
      NodeAtTop(kind, m[k := v], k);
    }
  }

  /** One level of the tree after an insertion further down. */
  lemma {:induction false} PutLevel(kind: Kind, m: Contents, k: Key, v: bytes, d: nat, kids: seq<Tree>)
    requires d < MAX_DEPTH && NodeAt(kind, m, k, d) == Inner(kids)
    ensures |kids| == BRANCH_FACTOR
    ensures NodeAt(kind, m[k := v], k, d) == Inner(kids[SelectBranch(k, d) := NodeAt(kind, m[k := v], k, d + 1)])
  {
    hide CanonKids;
    NodeAtStep(kind, m, k, d, kids);
    KidsPut(kind, m, k, v, d);
    if d == 0 {
      UnderRoot(m, k);
      UnderRoot(m[k := v], k);
    } else {
      PutKeepsInner(kind, m, k, v, d);
    }
  }

  lemma {:induction false} SamePrefixBack(a: Key, b: Key, d: nat)
    requires SamePrefix(b, a, d)
    ensures SamePrefix(a, b, d)
  {
  }

  lemma {:induction false} InsertFacts(kind: Kind, m: Contents, k: Key, v: bytes, d: nat)
    requires 0 < d <= MAX_DEPTH
    ensures var t, t' := NodeAt(kind, m, k, d), NodeAt(kind, m[k := v], k, d);
      && (t.Nil? || (t.Leaf? && t.item.key == k) ==> t' == Leaf(kind, Item(k, v)))
      && (t.Leaf? && t.item.key != k ==> t.kind == kind && SamePrefix(k, t.item.key, d) && t' == Canon(kind, Pair(Item(k, v), t.item), d))
  {
    hide Canon, Under, SelectBranch;
    CanonCases(kind, m, k, d);
    UnderPut(m, k, v, d);
    var t, u := NodeAt(kind, m, k, d), Under(m, k, d);
    if t.Nil? {
      assert u[k := v] == map[k := v];
      CanonLeaf(kind, k, v, d);
    } else if t.Leaf? && t.item.key == k {
      assert u[k := v] == map[k := v];
      CanonLeaf(kind, k, v, d);
    } else if t.Leaf? {
      UnderAt(m, k, d, t.item.key);
      SamePrefixBack(k, t.item.key, d);
      assert u[k := v] == Pair(Item(k, v), t.item);
    }
  }

  /** The subtree that takes the place of what the walk found. */
  method InsertBelow(kind: Kind, key: Key, data: bytes, d: nat, found: NodeRef, ghost env: Env, ghost cur: Shape, ghost m: Contents)
    returns (child: NodeRef, ghost x: Shape)
    requires |data| >= MIN_ITEM
    requires 0 < d <= MAX_DEPTH && found == RefOf(cur) && Rep(env, cur) && !cur.SInner? && (cur.SStub? ==> !env.backed)
    requires TreeOf(cur) == NodeAt(kind, m, key, d)
    ensures child == RefOf(x) && !child.NoNode? && Rep(env, x) && Distinct(x)
    ensures forall o :: o in Foot(x) ==> o in Foot(cur) || fresh(o)
    ensures TreeOf(x) == NodeAt(kind, m[key := data], key, d)
  {
    hide NodeAt, Canon, HashOf, LeafPreimage, SelectBranch, Local;
    InsertFacts(kind, m, key, data, d);
    LookupAt(kind, m, key, d);
    RepNil(env, cur);
    var leaf := new LeafNode(kind, Item(key, data), true);
    if found.NoNode? || found.leaf.item.key == key {
      child, x := LeafRef(leaf), SLeaf(leaf);
    } else {
      var n;
      n, x := CreateSplitStructure(kind, leaf, found.leaf, d, env);
      child := InnerRef(n);
    }
  }

  /** How a change of the map ends. A node that cannot be loaded ends it before anything is changed. */
  datatype Change = Done | TooSmall | NotFound | LoadFailed

  /** Insertion on node objects: walk down, build the new subtree, refresh the nodes above it. */
  method PutItem(kind: Kind, family: MemoryFamily?, root: InnerNode, key: Key, data: bytes, ghost s: Shape, ghost m: Contents)
    returns (r: Change, newRoot: InnerNode, ghost s': Shape)
    requires s.SInner? && s.node == root && Rep(EnvOf(family), s) && Distinct(s)
    requires family == null || family !in Foot(s)
    requires TreeOf(s) == CanonRoot(kind, m)
    modifies Foot(s)
    ensures EnvOf(family) == old(EnvOf(family))
    ensures s'.SInner? && s'.node == newRoot && Rep(EnvOf(family), s') && Distinct(s')
    ensures forall o :: o in Foot(s') ==> o in Foot(s) || fresh(o)
    ensures (r == LoadFailed ==> MayFail(family)) && (r == LoadFailed <==> old(Stuck(family, s, key)))
    ensures r != LoadFailed ==> r == if |data| < MIN_ITEM then TooSmall else Done
    ensures r != Done ==> newRoot == root
    ensures TreeOf(s') == if r == Done then CanonRoot(kind, m[key := data]) else TreeOf(s)
  {
    hide Rep, Distinct, PathOk, TreeOf, NodeAt, RootTree, Stuck, View;
    ghost var env := EnvOf(family);
    var walked, stack, node;
    ghost var p, cur;
    walked, stack, node, p, cur := WalkToKey(family, root, key, s);
    OpenCanonical(kind, m, s, key, env, p, cur);
    if !walked || |data| < MIN_ITEM {
      CloseFacts(env, s, p, cur);
      return (if !walked then LoadFailed else TooSmall), root, Plug(p, cur);
    }
    var child, top;
    ghost var x;
    PathAllocated(p);
    StackInFoot(p);
    child, x := InsertBelow(kind, key, data, |stack|, node, env, cur, m);
    top := DirtyUp(stack, key, child, env, p, x);
    PlugPut(kind, m, key, data, p, TreeOf(cur), x);
    PlugFoot(p, x);
    s', r, newRoot := Plug(p, x), Done, top.inner;
  }
}
