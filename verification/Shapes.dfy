/** How node objects hang together: the ghost shape of a subtree and the path above it. */
module Shapes {
  import opened Bytes
  import opened Tree
  import opened Codec
  import opened Storage
  import opened Nodes
  import opened Merkle

  /** The objects of a subtree. A stub is a subtree that is not loaded. */
  datatype Shape =
    | SNil
    | SStub(tree: Tree)
    | SLeaf(leaf: LeafNode)
    | SInner(node: InnerNode, kids: seq<Shape>)

  ghost function TreeOf(s: Shape): Tree
    decreases s, 0
  {
    match s
    case SNil => Nil
    case SStub(t) => t
    case SLeaf(l) => Leaf(l.kind, l.item)
    case SInner(_, kids) => Inner(Trees(kids))
  }

  ghost function Trees(kids: seq<Shape>): (ts: seq<Tree>)
    ensures |ts| == |kids| && forall i :: 0 <= i < |kids| ==> ts[i] == TreeOf(kids[i])
    decreases kids, 1
  {
    seq(|kids|, i requires 0 <= i < |kids| => TreeOf(kids[i]))
  }

  ghost function RefOf(s: Shape): NodeRef {
    match s
    case SLeaf(l) => LeafRef(l)
    case SInner(n, _) => InnerRef(n)
    case _ => NoNode
  }

  /** The tree as far as it can be reached: what is in memory, and what of the rest can be loaded. */
  ghost function View(env: Env, s: Shape): Tree
    decreases s, 0
  {
    match s
    case SNil => Nil
    case SStub(t) => Visible(env, t)
    case SLeaf(l) => Leaf(l.kind, l.item)
    case SInner(_, kids) => Inner(Views(env, kids))
  }

  ghost function Views(env: Env, kids: seq<Shape>): (vs: seq<Tree>)
    ensures |vs| == |kids| && forall i :: 0 <= i < |kids| ==> vs[i] == View(env, kids[i])
    decreases kids, 1
  {
    seq(|kids|, i requires 0 <= i < |kids| => View(env, kids[i]))
  }

  lemma {:induction false} ViewsUpdate(env: Env, kids: seq<Shape>, i: nat, k: Shape)
    requires i < |kids| && View(env, k) == View(env, kids[i])
    ensures Views(env, kids[i := k]) == Views(env, kids)
  {
  }

  /** The objects a subtree is made of. */
  ghost function Foot(s: Shape): set<object>
    decreases s, 0
  {
    match s
    case SLeaf(l) => {l}
    case SInner(n, kids) => {n} + Feet(kids)
    case _ => {}
  }

  ghost function Feet(kids: seq<Shape>): (os: set<object>)
    ensures forall i :: 0 <= i < |kids| ==> Foot(kids[i]) <= os
    ensures forall o :: o in os ==> exists i :: 0 <= i < |kids| && o in Foot(kids[i])
    decreases kids, 1
  {
    set i, o | 0 <= i < |kids| && o in Foot(kids[i]) :: o
  }

  /** No object occurs twice. */
  ghost predicate Distinct(s: Shape) {
    s.SInner? ==>
      && (forall i :: 0 <= i < |s.kids| ==> s.node !in Foot(s.kids[i]) && Distinct(s.kids[i]))
      && (forall i, j :: 0 <= i < j < |s.kids| ==> Foot(s.kids[i]) !! Foot(s.kids[j]))
  }

  /** In a backed map a clean node is in the store with everything below it. */
  ghost predicate CleanOk(env: Env, dirty: bool, t: Tree) {
    env.backed && !dirty ==> Stored(env, t)
  }

  /** A child known by hash only: in the store of a backed map, nowhere in an unbacked one. */
  ghost predicate Away(env: Env, t: Tree) {
    if env.backed then !t.Nil? && Stored(env, t) else t.Stub?
  }

  /** The fields of one inner node against its children. */
  ghost predicate Local(env: Env, n: InnerNode, kids: seq<Shape>)
    reads n
  {
    && n.Sized() && |kids| == BRANCH_FACTOR
    && (forall i :: 0 <= i < BRANCH_FACTOR ==> n.children[i] == RefOf(kids[i]))
    && (forall i :: 0 <= i < BRANCH_FACTOR ==> n.hashes[i] == HashOf(TreeOf(kids[i])))
    && (forall i :: 0 <= i < BRANCH_FACTOR ==> n.isBranch[i] == !kids[i].SNil?)
    && n.hash == HashOf(Inner(Trees(kids)))
    && CleanOk(env, n.dirty, Inner(Trees(kids)))
  }

  ghost predicate LeafOk(env: Env, l: LeafNode)
    reads l
  {
    && |l.item.data| >= MIN_ITEM
    && l.hash == Sha512Half(LeafPreimage(l.kind, l.item))
    && CleanOk(env, l.dirty, Leaf(l.kind, l.item))
  }

  /** The objects of s carry the tree TreeOf(s): branch bits, child pointers and hashes agree. */
  ghost predicate Rep(env: Env, s: Shape)
    reads Foot(s)
    decreases s
  {
    match s
    case SNil => true
    case SStub(t) => Away(env, t)
    case SLeaf(l) => LeafOk(env, l)
    case SInner(n, kids) =>
      && Local(env, n, kids)
      && forall i :: 0 <= i < |kids| ==> Rep(env, kids[i])
  }

  lemma {:induction false} RepWeaker(env: Env, trust: Trust, s: Shape)
    requires Rep(env, s) && env.backed && Weaker(trust, env.trust)
    ensures Rep(env.(trust := trust), s)
    decreases s
  {
    hide Stored;
    match s
    case SStub(t) => StoredWeaker(env, trust, t);
    case SLeaf(l) => if !l.dirty { StoredWeaker(env, trust, TreeOf(s)); }
    case SInner(n, kids) =>
      if !n.dirty { StoredWeaker(env, trust, TreeOf(s)); }
      forall i | 0 <= i < |kids| ensures Rep(env.(trust := trust), kids[i]) {
        RepWeaker(env, trust, kids[i]);
      }
    case SNil =>
  }

  /** The objects of a shape that is at hand exist, so a change elsewhere leaves them alone. */
  lemma {:induction false} FootAllocated(s: Shape)
    ensures forall o :: o in Foot(s) ==> allocated(o)
    decreases s
  {
    if s.SInner? {
      forall i | 0 <= i < |s.kids| ensures forall o :: o in Foot(s.kids[i]) ==> allocated(o) {
        FootAllocated(s.kids[i]);
      }
    }
  }

  lemma {:induction false} FootTypes(s: Shape)
    ensures forall o :: o in Foot(s) ==> o is InnerNode || o is LeafNode
    decreases s
  {
    if s.SInner? {
      forall i | 0 <= i < |s.kids| ensures forall o :: o in Foot(s.kids[i]) ==> o is InnerNode || o is LeafNode {
        FootTypes(s.kids[i]);
      }
    }
  }

  lemma {:induction false} FeetAllocated(kids: seq<Shape>)
    ensures forall o :: o in Feet(kids) ==> allocated(o)
  {
    forall i | 0 <= i < |kids| ensures forall o :: o in Foot(kids[i]) ==> allocated(o) {
      FootAllocated(kids[i]);
    }
  }

  lemma {:induction false} RepNil(env: Env, s: Shape)
    requires Rep(env, s)
    ensures TreeOf(s).Nil? <==> s.SNil?
    ensures !RefOf(s).NoNode? ==> RefHash(RefOf(s)) == HashOf(TreeOf(s))
  {
  }

  lemma {:induction false} InnerTree(s: Shape)
    requires s.SInner?
    ensures TreeOf(s) == Inner(Trees(s.kids))
  {
  }

  lemma {:induction false} TreesUpdate(kids: seq<Shape>, b: nat, x: Shape)
    requires b < |kids|
    ensures Trees(kids[b := x]) == Trees(kids)[b := TreeOf(x)]
  {
  }

  /** SetChild leaves a node that carries the tree with the new child in place. */
  lemma {:induction false} SetChildLocal(env: Env, n: InnerNode, kids: seq<Shape>)
    requires n.Sized() && |kids| == BRANCH_FACTOR && n.dirty
    requires forall i :: 0 <= i < BRANCH_FACTOR ==> n.children[i] == RefOf(kids[i]) && Rep(env, kids[i])
    requires forall i :: 0 <= i < BRANCH_FACTOR ==> n.hashes[i] == HashOf(TreeOf(kids[i]))
    requires forall i :: 0 <= i < BRANCH_FACTOR ==> n.isBranch[i] == !kids[i].SNil?
    requires n.hash == if AllClear(n.isBranch) then ZERO else Sha512Half(InnerPreimage(n.SlotHashes(BRANCH_FACTOR)))
    ensures Local(env, n, kids)
  {
    forall i | 0 <= i < BRANCH_FACTOR
      ensures n.SlotHash(i) == HashOf(TreeOf(kids[i])) && (TreeOf(kids[i]).Nil? <==> !n.isBranch[i])
    {
      RepNil(env, kids[i]);
    }
    assert n.SlotHashes(BRANCH_FACTOR) == Hashes(Trees(kids));
    assert AllClear(n.isBranch) <==> Bare(Trees(kids));
  }

  // ---------- the path from the root to a subtree ----------

  /** The inner nodes above a subtree, innermost last; branch leads to the subtree. */
  datatype Path = Top | Down(up: Path, node: InnerNode, kids: seq<Shape>, branch: nat)

  ghost function Depth(p: Path): nat {
    match p
    case Top => 0
    case Down(up, _, _, _) => Depth(up) + 1
  }

  ghost function StackOf(p: Path): (st: seq<InnerNode>)
    ensures |st| == Depth(p)
  {
    match p
    case Top => []
    case Down(up, n, _, _) => StackOf(up) + [n]
  }

  lemma {:induction false} StackInFoot(p: Path)
    ensures forall n :: n in StackOf(p) ==> n in PathFoot(p)
    decreases p
  {
    if p.Down? { StackInFoot(p.up); }
  }

  /** The whole tree with x in the hole of p. */
  ghost function Plug(p: Path, x: Shape): Shape
    requires Formed(p)
  {
    match p
    case Top => x
    case Down(up, n, kids, b) => Plug(up, SInner(n, kids[b := x]))
  }

  ghost predicate Formed(p: Path) {
    p.Down? ==> p.branch < |p.kids| && Formed(p.up)
  }

  /** Objects beside the hole at one level. */
  ghost function Siblings(kids: seq<Shape>, b: int): set<object> {
    set i, o | 0 <= i < |kids| && i != b && o in Foot(kids[i]) :: o
  }

  ghost function PathFoot(p: Path): set<object> {
    match p
    case Top => {}
    case Down(up, n, kids, b) => {n} + Siblings(kids, b) + PathFoot(up)
  }

  /** What the path expects in its hole: a reference and a tree. */
  ghost predicate Fits(p: Path, r: NodeRef, t: Tree) {
    match p
    case Top => r.InnerRef?
    case Down(_, _, kids, b) =>
      b < |kids| && RefOf(kids[b]) == r && TreeOf(kids[b]) == t && (t.Nil? <==> kids[b].SNil?)
  }

  ghost predicate PathOk(env: Env, p: Path)
    reads PathFoot(p)
  {
    match p
    case Top => true
    case Down(up, n, kids, b) =>
      && 0 <= b < BRANCH_FACTOR
      && Local(env, n, kids)
      && (forall i :: 0 <= i < |kids| && i != b ==> Rep(env, kids[i]) && Distinct(kids[i]) && n !in Foot(kids[i]))
      && (forall i, j :: 0 <= i < j < |kids| && i != b && j != b ==> Foot(kids[i]) !! Foot(kids[j]))
      && {n} + Siblings(kids, b) !! PathFoot(up)
      && Fits(up, InnerRef(n), Inner(Trees(kids)))
      && PathOk(env, up)
  }

  lemma {:induction false} PathAllocated(p: Path)
    ensures forall o :: o in PathFoot(p) ==> allocated(o)
    decreases p
  {
    if p.Down? {
      forall i | 0 <= i < |p.kids| ensures forall o :: o in Foot(p.kids[i]) ==> allocated(o) {
        FootAllocated(p.kids[i]);
      }
      PathAllocated(p.up);
    }
  }

  lemma {:induction false} FootUpdate(n: InnerNode, kids: seq<Shape>, b: nat, x: Shape)
    requires b < |kids|
    ensures Foot(SInner(n, kids[b := x])) == {n} + Siblings(kids, b) + Foot(x)
  {
    var ks := kids[b := x];
    var s := SInner(n, ks);
    forall o | o in Foot(s) ensures o in {n} + Siblings(kids, b) + Foot(x) {
      if o != n {
        var i :| 0 <= i < |ks| && o in Foot(ks[i]);
      }
    }
    assert Foot(ks[b]) <= Foot(s);
    forall o | o in Siblings(kids, b) ensures o in Foot(s) {
      var i :| 0 <= i < |kids| && i != b && o in Foot(kids[i]);
      assert Foot(ks[i]) <= Foot(s);
    }
  }

  lemma {:induction false} PlugFoot(p: Path, x: Shape)
    requires Formed(p)
    ensures Foot(Plug(p, x)) == PathFoot(p) + Foot(x)
    decreases p
  {
    if p.Down? {
      FootUpdate(p.node, p.kids, p.branch, x);
      PlugFoot(p.up, SInner(p.node, p.kids[p.branch := x]));
    }
  }

  lemma {:induction false} DistinctUpdate(n: InnerNode, kids: seq<Shape>, b: nat, x: Shape)
    requires b < |kids| && Distinct(x)
    requires forall i :: 0 <= i < |kids| && i != b ==> Distinct(kids[i]) && n !in Foot(kids[i])
    requires forall i, j :: 0 <= i < j < |kids| && i != b && j != b ==> Foot(kids[i]) !! Foot(kids[j])
    requires Foot(x) !! {n} + Siblings(kids, b)
    ensures Distinct(SInner(n, kids[b := x]))
  {
  }

  /** One level of putting a subtree back into its place. */
  lemma {:induction false} CloseStep(env: Env, p: Path, x: Shape)
    requires p.Down? && PathOk(env, p)
    requires Rep(env, x) && Distinct(x) && Foot(x) !! PathFoot(p)
    requires Fits(p, RefOf(x), TreeOf(x))
    ensures Formed(p)
    ensures var y := SInner(p.node, p.kids[p.branch := x]);
      Rep(env, y) && Distinct(y) && Foot(y) !! PathFoot(p.up) && Trees(y.kids) == Trees(p.kids)
  {
    hide HashOf, Foot, Distinct, CleanOk;
    FormedPath(env, p);
    var ks := p.kids[p.branch := x];
    var y := SInner(p.node, ks);
    TreesUpdate(p.kids, p.branch, x);
    assert Trees(ks) == Trees(p.kids);
    FootUpdate(p.node, p.kids, p.branch, x);
    RepNil(env, x);
    assert Local(env, p.node, ks);
    DistinctUpdate(p.node, p.kids, p.branch, x);
  }

  lemma {:induction false} FormedPath(env: Env, p: Path)
    requires PathOk(env, p)
    ensures Formed(p)
  {
    if p.Down? { FormedPath(env, p.up); }
  }

  /** The tree of the whole: what stands in the hole is fixed by the levels above it. */
  ghost function RootTree(p: Path, t: Tree): Tree {
    match p
    case Top => t
    case Down(up, _, kids, _) => RootTree(up, Inner(Trees(kids)))
  }

  ghost function RootRef(p: Path, r: NodeRef): NodeRef {
    match p
    case Top => r
    case Down(up, n, _, _) => RootRef(up, InnerRef(n))
  }

  /** Every level takes the branch of key. */
  ghost predicate Follows(p: Path, key: Key) {
    p.Down? ==> p.branch == SelectBranch(key, Depth(p.up)) && Follows(p.up, key)
  }

  /** Closing the path again gives the tree it was opened from. */
  lemma {:induction false} Close(env: Env, p: Path, x: Shape)
    requires PathOk(env, p)
    requires Rep(env, x) && Distinct(x) && Foot(x) !! PathFoot(p)
    requires Fits(p, RefOf(x), TreeOf(x))
    ensures Formed(p)
    ensures Rep(env, Plug(p, x)) && Distinct(Plug(p, x))
    ensures TreeOf(Plug(p, x)) == RootTree(p, TreeOf(x)) && RefOf(Plug(p, x)) == RootRef(p, RefOf(x))
    decreases p
  {
    if p.Down? {
      CloseStep(env, p, x);
      Close(env, p.up, SInner(p.node, p.kids[p.branch := x]));
    }
  }

  // ---------- changes of the store ----------

  lemma {:induction false} CleanGrows(env: Env, env': Env, dirty: bool, t: Tree, ps: set<bytes>)
    requires CleanOk(env, dirty, t) && Grows(env, env', t, ps)
    ensures CleanOk(env', dirty, t)
  {
    if env.backed && !dirty { StoredGrows(env, env', t, ps); }
  }

  lemma {:induction false} RepGrows(env: Env, env': Env, s: Shape, ps: set<bytes>)
    requires Rep(env, s) && Grows(env, env', TreeOf(s), ps)
    ensures Rep(env', s)
    decreases s
  {
    match s
    case SNil =>
    case SStub(t) => if env.backed { StoredGrows(env, env', t, ps); }
    case SLeaf(l) => CleanGrows(env, env', l.dirty, TreeOf(s), ps);
    case SInner(n, kids) =>
      CleanGrows(env, env', n.dirty, TreeOf(s), ps);
      forall i | 0 <= i < |kids| ensures Rep(env', kids[i]) {
        KidInputs(TreeOf(s), i);
        RepGrows(env, env', kids[i], ps);
      }
  }
}
