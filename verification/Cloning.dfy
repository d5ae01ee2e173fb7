/** Deep copies of subtrees. */
module Cloning {
  import opened Bytes
  import opened Tree
  import opened Storage
  import opened Nodes
  import opened Shapes
  import opened Insertion

  /** A copy made of new objects only, carrying the same tree. */
  ghost predicate IsCopy(env: Env, s: Shape, c: Shape)
    reads Foot(c)
  {
    Rep(env, c) && Distinct(c) && TreeOf(c) == TreeOf(s) && (c.SNil? <==> s.SNil?)
  }

  method CloneNode(r: NodeRef, ghost env: Env, ghost s: Shape) returns (copy: NodeRef, ghost c: Shape)
    requires r == RefOf(s) && Rep(env, s)
    ensures copy == RefOf(c) && IsCopy(env, s, c) && fresh(Foot(c))
    decreases s, 1
  {
    match r
    case NoNode =>
      copy, c := NoNode, s;
    case LeafRef(l) =>
      var leaf := new LeafNode(l.kind, l.item, true);
      copy, c := LeafRef(leaf), SLeaf(leaf);
    case InnerRef(n) =>
      var inner;
      inner, c := CloneInner(n, env, s);
      copy := InnerRef(inner);
  }

  ghost predicate AllRep(env: Env, kids: seq<Shape>)
    reads Feet(kids)
  {
    forall i :: 0 <= i < |kids| ==> Rep(env, kids[i])
  }

  ghost predicate AreCopies(env: Env, kids: seq<Shape>, cs: seq<Shape>)
    requires |cs| <= |kids|
    reads Feet(cs)
  {
    forall i :: 0 <= i < |cs| ==> IsCopy(env, kids[i], cs[i])
  }

  ghost predicate Apart(cs: seq<Shape>) {
    forall i, j :: 0 <= i < j < |cs| ==> Foot(cs[i]) !! Foot(cs[j])
  }

  lemma {:induction false} OneMoreCopy(env: Env, kids: seq<Shape>, cs: seq<Shape>, c: Shape)
    requires |cs| < |kids| && AreCopies(env, kids, cs) && Apart(cs)
    requires IsCopy(env, kids[|cs|], c) && Foot(c) !! Feet(cs)
    ensures AreCopies(env, kids, cs + [c]) && Apart(cs + [c])
    ensures Feet(cs + [c]) == Feet(cs) + Foot(c)
  {
    hide IsCopy, Foot;
    var more := cs + [c];
    assert more[|cs|] == c && forall i :: 0 <= i < |cs| ==> more[i] == cs[i];
    FeetMore(cs, c);
  }

  lemma {:induction false} FeetMore(cs: seq<Shape>, c: Shape)
    ensures Feet(cs + [c]) == Feet(cs) + Foot(c)
  {
    hide Foot;
    var more := cs + [c];
    assert more[|cs|] == c && forall i :: 0 <= i < |cs| ==> more[i] == cs[i];
  }

  /** Copies of the children, one after the other. */
  method CloneKids(n: InnerNode, ghost env: Env, ghost kids: seq<Shape>)
    returns (copies: seq<NodeRef>, ghost cs: seq<Shape>)
    requires Local(env, n, kids) && AllRep(env, kids)
    ensures |copies| == |cs| == |kids| && forall i :: 0 <= i < |cs| ==> copies[i] == RefOf(cs[i])
    ensures AreCopies(env, kids, cs) && Apart(cs) && fresh(Feet(cs))
    decreases kids, 1
  {
    hide Rep, IsCopy, AreCopies, Apart;
    copies, cs := [], [];
    NoCopies(env, kids);
    FeetAllocated(kids);
    for i := 0 to BRANCH_FACTOR
      invariant |copies| == |cs| == i
      invariant Local(env, n, kids) && AllRep(env, kids)
      invariant forall j :: 0 <= j < |cs| ==> copies[j] == RefOf(cs[j])
      invariant AreCopies(env, kids, cs) && Apart(cs) && fresh(Feet(cs))
    {
      FeetAllocated(cs);
      var copy;
      ghost var c;
      copy, c := CloneNode(n.children[i], env, kids[i]);
      OneMoreCopy(env, kids, cs, c);
      copies, cs := copies + [copy], cs + [c];
    }
  }

  lemma {:induction false} NoCopies(env: Env, kids: seq<Shape>)
    ensures AreCopies(env, kids, []) && Apart([]) && Feet([]) == {}
  {
  }

  method CloneInner(n: InnerNode, ghost env: Env, ghost s: Shape) returns (copy: InnerNode, ghost c: Shape)
    requires s.SInner? && s.node == n && Rep(env, s)
    ensures c.SInner? && c.node == copy && IsCopy(env, s, c) && fresh(Foot(c))
    decreases s, 0
  {
    hide Rep, IsCopy, AreCopies, Apart;
    var copies;
    ghost var cs;
    FootAllocated(s);
    RepKids(env, s);
    copies, cs := CloneKids(n, env, s.kids);
    FeetAllocated(cs);
    copy := new InnerNode.Copy(copies, n.hashes, n.isBranch, n.hash);
    c := SInner(copy, cs);
    CopyRep(env, s, c);
    assert Foot(c) == {copy} + Feet(cs);
  }

  lemma {:induction false} RepKids(env: Env, s: Shape)
    requires s.SInner? && Rep(env, s)
    ensures Local(env, s.node, s.kids) && AllRep(env, s.kids)
  {
  }

  lemma {:induction false} CopyRep(env: Env, s: Shape, c: Shape)
    requires s.SInner? && c.SInner? && Local(env, s.node, s.kids) && |c.kids| == |s.kids|
    requires AreCopies(env, s.kids, c.kids) && Apart(c.kids) && c.node !in Feet(c.kids)
    requires c.node.Sized() && c.node.dirty && c.node.hash == s.node.hash
    requires c.node.hashes == s.node.hashes && c.node.isBranch == s.node.isBranch
    requires forall i :: 0 <= i < BRANCH_FACTOR ==> c.node.children[i] == RefOf(c.kids[i])
    ensures IsCopy(env, s, c)
  {
    hide HashOf;
    assert Trees(c.kids) == Trees(s.kids);
  }

  /** Clones the tree of an unbacked map: a clone of the node, and once more every child. */
  method CloneTree(n: InnerNode, ghost env: Env, ghost s: Shape) returns (copy: InnerNode, ghost c: Shape)
    requires s.SInner? && s.node == n && Rep(env, s)
    ensures c.SInner? && c.node == copy && IsCopy(env, s, c) && fresh(Foot(c))
    decreases s, 1
  {
    hide Rep, IsCopy, Local, AllRep, Foot, Feet;
    FeetAllocated(s.kids);
    RepKids(env, s);
    copy, c := CloneInner(n, env, s);
    for i := 0 to BRANCH_FACTOR
      invariant Local(env, n, s.kids) && AllRep(env, s.kids)
      invariant c.SInner? && c.node == copy && IsCopy(env, s, c) && fresh(Foot(c))
    {
      KidAt(env, n, s.kids, i);
      var child := n.children[i];
      if !child.NoNode? {
        FootAllocated(c);
        ghost var k;
        var cloned;
        cloned, k := CloneChild(child, env, s.kids[i]);
        CopyNode(c);
        c := Reattach(copy, i, cloned, env, s, c, k);
      }
    }
  }

  lemma {:induction false} CopyNode(c: Shape)
    requires c.SInner?
    ensures c.node in Foot(c)
  {
  }

  lemma {:induction false} KidAt(env: Env, n: InnerNode, kids: seq<Shape>, i: nat)
    requires i < BRANCH_FACTOR && Local(env, n, kids) && AllRep(env, kids)
    ensures n.Sized() && |kids| == BRANCH_FACTOR && n.children[i] == RefOf(kids[i]) && Rep(env, kids[i])
  {
  }

  method CloneChild(child: NodeRef, ghost env: Env, ghost s: Shape) returns (copy: NodeRef, ghost c: Shape)
    requires child == RefOf(s) && !child.NoNode? && Rep(env, s)
    ensures copy == RefOf(c) && !copy.NoNode? && IsCopy(env, s, c) && fresh(Foot(c))
    decreases s, 2
  {
    match child {
      case LeafRef(l) =>
        var leaf := new LeafNode(l.kind, l.item, true);
        copy, c := LeafRef(leaf), SLeaf(leaf);
      case InnerRef(inner) =>
        var sub;
        sub, c := CloneTree(inner, env, s);
        copy := InnerRef(sub);
    }
  }

  /** Puts one more copy of child i in the place of the copy that is there. */
  method Reattach(copy: InnerNode, i: nat, child: NodeRef, ghost env: Env, ghost s: Shape, ghost c: Shape, ghost k: Shape)
    returns (ghost c': Shape)
    requires i < BRANCH_FACTOR && s.SInner? && |s.kids| == BRANCH_FACTOR
    requires c.SInner? && c.node == copy && IsCopy(env, s, c)
    requires IsCopy(env, s.kids[i], k) && Foot(k) !! Foot(c) && child == RefOf(k) && !child.NoNode?
    modifies copy
    ensures c'.SInner? && c'.node == copy && IsCopy(env, s, c') && Foot(c') <= Foot(c) + Foot(k)
  {
    hide Rep, Distinct;
    CopyParts(env, c);
    FootAllocated(k);
    ReattachFacts(s, c, i, k);
    SetKid(copy, i, child, env, c.kids, k);
    c' := SInner(copy, c.kids[i := k]);
  }

  lemma {:induction false} CopyParts(env: Env, c: Shape)
    requires c.SInner? && Rep(env, c) && Distinct(c)
    ensures Local(env, c.node, c.kids) && |c.kids| == BRANCH_FACTOR
    ensures forall i :: 0 <= i < BRANCH_FACTOR ==> Rep(env, c.kids[i]) && c.node !in Foot(c.kids[i])
  {
  }

  lemma {:induction false} ReattachFacts(s: Shape, c: Shape, i: nat, k: Shape)
    requires s.SInner? && c.SInner? && i < |c.kids| == |s.kids| && TreeOf(c) == TreeOf(s) && Distinct(c)
    requires Distinct(k) && TreeOf(k) == TreeOf(s.kids[i]) && Foot(k) !! Foot(c)
    ensures var x := SInner(c.node, c.kids[i := k]);
      Distinct(x) && TreeOf(x) == TreeOf(s) && Foot(x) <= Foot(c) + Foot(k)
  {
    TreesUpdate(c.kids, i, k);
    assert Trees(c.kids)[i := TreeOf(k)] == Trees(c.kids) by {
      assert Trees(c.kids)[i] == Trees(s.kids)[i];
    }
    assert Siblings(c.kids, i) <= Foot(c) by { FootUpdate(c.node, c.kids, i, c.kids[i]); assert c.kids[i := c.kids[i]] == c.kids; }
    FootUpdate(c.node, c.kids, i, k);
    DistinctUpdate(c.node, c.kids, i, k);
  }
}
