/** Walking the items of one subtree of a map, loading nodes on the way, with another map beside it. */
module BranchWalk {
  import opened Bytes
  import opened Tree
  import opened Nodes
  import opened Shapes
  import opened LeafOrder
  import opened Merkle
  import opened SyncTree
  import opened Walking
  import opened ShaMap
  import opened Histories
  import opened Loading
  import opened Sinks
  import D = Differing

  /** Two maps that share no node. */
  ghost predicate Facing(a: SHAMap, b: SHAMap)
    reads a, a.family, Foot(a.shape), b, b.family, Foot(b.shape)
  {
    a.Valid() && b.Valid() && Separate(a, b)
  }

  lemma {:induction false} FacingTurned(a: SHAMap, b: SHAMap)
    requires Facing(a, b)
    ensures Facing(b, a)
  {
  }

  /** The child of a node of one map; the other map stays as it is. */
  method ReachBeside(a: SHAMap, b: SHAMap, n: InnerNode, i: nat, ghost t: Tree) returns (ok: bool, child: NodeRef)
    requires Facing(a, b) && Holds(a.shape, InnerRef(n), t) && Whole(t) && i < BRANCH_FACTOR
    modifies a`shape, n`children
    ensures Facing(a, b) && Refines(old(a.shape), a.shape) && Holds(a.shape, InnerRef(n), t)
    ensures forall o :: o in Foot(a.shape) ==> o in old(Foot(a.shape)) || fresh(o)
    ensures t.Inner? && |t.kids| == BRANCH_FACTOR
    ensures if ok then (if child == NoNode then t.kids[i].Nil? else Holds(a.shape, child, t.kids[i]) && !t.kids[i].Nil?)
            else MayFail(a.family)
  {
    hide SHAMap.Valid, Holds, Refines, Foot;
    HeldIn(a, n, t);
    FootTypes(b.shape);
    FootAllocated(b.shape);
    FootAllocated(a.shape);
    ok, child := Reach(a, n, i, t);
  }

  ghost predicate Walkable(t: Tree) {
    Wide(t) && Whole(t) && !t.Nil?
  }

  ghost predicate AllWalkable(trees: seq<Tree>) {
    forall i :: 0 <= i < |trees| ==> Walkable(trees[i])
  }

  ghost predicate AllHeld(s: Shape, stack: seq<NodeRef>, trees: seq<Tree>) {
    |trees| == |stack| && forall i :: 0 <= i < |stack| ==> Holds(s, stack[i], trees[i])
  }

  lemma {:induction false} StillHeld(s: Shape, s': Shape, stack: seq<NodeRef>, trees: seq<Tree>)
    requires Refines(s, s') && AllHeld(s, stack, trees)
    ensures AllHeld(s', stack, trees)
  {
    hide Refines, Holds;
    forall i | 0 <= i < |stack| ensures Holds(s', stack[i], trees[i]) {
      StillHolds(s, s', stack[i], trees[i]);
    }
  }

  lemma {:induction false} HeldPush(s: Shape, stack: seq<NodeRef>, trees: seq<Tree>, r: NodeRef, t: Tree)
    requires AllHeld(s, stack, trees) && Holds(s, r, t)
    ensures AllHeld(s, stack + [r], trees + [t])
  {
    hide Holds;
  }

  lemma {:induction false} HeldPop(s: Shape, stack: seq<NodeRef>, trees: seq<Tree>)
    requires AllHeld(s, stack, trees) && stack != []
    ensures |trees| == |stack| && Holds(s, stack[|stack| - 1], trees[|trees| - 1]) && AllHeld(s, stack[..|stack| - 1], trees[..|trees| - 1])
  {
    hide Holds;
  }

  lemma {:induction false} LoadedOfAppend(kids: seq<Tree>, t: Tree)
    ensures LoadedOf(kids + [t]) == LoadedOf(kids) + Loaded(t)
  {
    if kids == [] {
      assert [t][1..] == [];
    } else {
      assert (kids + [t])[1..] == kids[1..] + [t];
      LoadedOfAppend(kids[1..], t);
    }
  }

  /** What the first i children add to the items and to the work. */
  ghost predicate KidsAdded(kids: seq<Tree>, i: nat, trees: seq<Tree>, ts: seq<Tree>) {
    && i <= |kids| && AllWalkable(ts)
    && LeavesOf(ts) == LeavesOf(trees) + LeavesOf(kids[..i]) && LoadedOf(ts) == LoadedOf(trees) + LoadedOf(kids[..i])
  }

  lemma {:induction false} NoneAdded(kids: seq<Tree>, trees: seq<Tree>)
    requires AllWalkable(trees)
    ensures KidsAdded(kids, 0, trees, trees)
  {
    EmptySums();
    assert kids[..0] == [];
  }

  lemma {:induction false} OneAdded(kids: seq<Tree>, i: nat, trees: seq<Tree>, ts: seq<Tree>)
    requires KidsAdded(kids, i, trees, ts) && i < |kids| && Wide(kids[i]) && Whole(kids[i])
    ensures KidsAdded(kids, i + 1, trees, if kids[i].Nil? then ts else ts + [kids[i]])
  {
    hide Leaves, LeavesOf, Loaded, LoadedOf;
    assert kids[..i + 1] == kids[..i] + [kids[i]];
    LeavesOfAppend(kids[..i], kids[i]);
    LoadedOfAppend(kids[..i], kids[i]);
    if kids[i].Nil? {
      NilSums();
    } else {
      LeavesOfAppend(ts, kids[i]);
      LoadedOfAppend(ts, kids[i]);
    }
  }

  lemma {:induction false} AllAdded(kids: seq<Tree>, trees: seq<Tree>, ts: seq<Tree>)
    requires KidsAdded(kids, |kids|, trees, ts)
    ensures AllWalkable(ts) && LeavesOf(ts) == LeavesOf(trees) + LeavesOf(kids) && LoadedOf(ts) == LoadedOf(trees) + LoadedOf(kids)
  {
    assert kids[..|kids|] == kids;
  }

  /** Pushes the children that exist, in branch order. */
  method PushKids(a: SHAMap, b: SHAMap, n: InnerNode, stack: seq<NodeRef>, ghost t: Tree, ghost trees: seq<Tree>)
    returns (ok: bool, st: seq<NodeRef>, ghost ts: seq<Tree>)
    requires Facing(a, b) && Holds(a.shape, InnerRef(n), t) && Walkable(t) && AllHeld(a.shape, stack, trees) && AllWalkable(trees)
    modifies a`shape, n`children
    ensures Facing(a, b) && Refines(old(a.shape), a.shape)
    ensures forall o :: o in Foot(a.shape) ==> o in old(Foot(a.shape)) || fresh(o)
    ensures t.Inner? && (!ok ==> MayFail(a.family))
    ensures ok ==> AllHeld(a.shape, st, ts) && AllWalkable(ts)
    ensures ok ==> LeavesOf(ts) == LeavesOf(trees) + LeavesOf(t.kids) && LoadedOf(ts) == LoadedOf(trees) + LoadedOf(t.kids)
  {
    hide Facing, Holds, Refines, Foot, AllHeld, AllWalkable, KidsAdded, LeavesOf, LoadedOf, Walkable;
    HeldNode(a.shape, InnerRef(n), t);
    InnerSums(t);
    RefinesSelf(a.shape);
    ok, st, ts := true, stack, trees;
    NoneAdded(t.kids, trees);
    for i := 0 to BRANCH_FACTOR
      invariant Facing(a, b) && Refines(old(a.shape), a.shape) && Holds(a.shape, InnerRef(n), t)
      invariant forall o :: o in Foot(a.shape) ==> o in old(Foot(a.shape)) || fresh(o)
      invariant ok && AllHeld(a.shape, st, ts) && KidsAdded(t.kids, i, trees, ts)
    {
      ghost var s := a.shape;
      var child;
      ok, child := ReachBeside(a, b, n, i, t);
      RefinesTwice(old(a.shape), s, a.shape);
      if !ok {
        return;
      }
      StillHeld(s, a.shape, st, ts);
      OneAdded(t.kids, i, trees, ts);
      if child != NoNode {
        HeldPush(a.shape, st, ts, child, t.kids[i]);
        st, ts := st + [child], ts + [t.kids[i]];
      }
    }
    AllAdded(t.kids, trees, ts);
  }

  /** Pops: the items of the last tree are the last items. */
  lemma {:induction false} PopTree(trees: seq<Tree>)
    requires AllWalkable(trees) && trees != []
    ensures Walkable(trees[|trees| - 1]) && AllWalkable(trees[..|trees| - 1])
    ensures LeavesOf(trees) == LeavesOf(trees[..|trees| - 1]) + Leaves(trees[|trees| - 1])
    ensures LoadedOf(trees) == LoadedOf(trees[..|trees| - 1]) + Loaded(trees[|trees| - 1])
  {
    hide Walkable;
    assert trees == trees[..|trees| - 1] + [trees[|trees| - 1]];
    LeavesOfAppend(trees[..|trees| - 1], trees[|trees| - 1]);
    LoadedOfAppend(trees[..|trees| - 1], trees[|trees| - 1]);
  }

  /** Walks all items of a subtree, last one first, and tells what has no equal in the other map. */
  method WalkBranch(a: SHAMap, b: SHAMap, node: NodeRef, other: Option<Item>, isFirst: bool, sink: Sink, out: Log, ghost t: Tree)
    returns (v: Verdict, out': Log)
    requires Facing(a, b) && Holds(a.shape, node, t) && Walkable(t) && D.UniqueKeys(Leaves(t)) && Room(sink, out)
    modifies a`shape, Inners(a.shape)`children
    ensures Facing(a, b) && Refines(old(a.shape), a.shape)
    ensures forall o :: o in Foot(a.shape) ==> o in old(Foot(a.shape)) || fresh(o)
    ensures Grown(sink, out, out', v, D.WalkTold(Leaves(t), other, isFirst)) && (v == Failed ==> MayFail(a.family))
  {
    hide Facing, Holds, Refines, Foot, AllHeld, AllWalkable, Walkable;
    hide Grown, Leaves, LeavesOf, Loaded, LoadedOf, D.ItemsTold, D.ItemTold, D.WalkTold, WalkedFrom;
    var stack, matched := [node], other.None?;
    out' := out;
    ghost var trees, items: seq<Item>, n: nat := [t], Leaves(t), |Leaves(t)|;
    OneTree(a.shape, node, t);
    RefinesSelf(a.shape);
    WalkStart(items, other, isFirst, sink, out);
    while stack != []
      invariant Facing(a, b) && Refines(old(a.shape), a.shape)
      invariant forall o :: o in Foot(a.shape) ==> o in old(Foot(a.shape)) || fresh(o)
      invariant AllHeld(a.shape, stack, trees) && AllWalkable(trees) && n <= |items| && LeavesOf(trees) == items[..n]
      invariant WalkedFrom(items, n, other, isFirst, matched, sink, out, out')
      decreases LoadedOf(trees)
    {
      ghost var s := a.shape;
      HeldPop(s, stack, trees);
      PopTree(trees);
      var current := stack[|stack| - 1];
      ghost var x := trees[|trees| - 1];
      stack, trees := stack[..|stack| - 1], trees[..|trees| - 1];
      HeldNode(s, current, x);
      if current.InnerRef? {
        InnerSums(x);
        HeldFacing(a, b, current.inner, x);
        var ok;
        ok, stack, trees := PushKids(a, b, current.inner, stack, x, trees);
        RefinesTwice(old(a.shape), s, a.shape);
        if !ok {
          WalkFailed(items, n, other, isFirst, matched, sink, out, out');
          return Failed, out';
        }
      } else {
        LeafSums(x, items, n, LeavesOf(trees));
        NotAgain(items, n, other, isFirst, matched, sink, out, out');
        ghost var mid, was := out', matched;
        FootAllocated(a.shape);
        FootAllocated(b.shape);
        v, matched, out' := WalkItem(current.leaf.item, other, isFirst, matched, sink, out');
        WalkedOne(items, n, other, isFirst, was, matched, sink, out, mid, out', v);
        if v != Go {
          WalkTail(items, n - 1, other, isFirst);
          GrownSome(sink, out, out', v, D.ItemsTold(items[n - 1..], other, isFirst), D.WalkTold(items, other, isFirst));
          return;
        }
        n := n - 1;
      }
    }
    NoTrees(a.shape, stack, trees);
    FootAllocated(a.shape);
    FootAllocated(b.shape);
    v, out' := WalkEnd(items, n, other, isFirst, matched, sink, out, out');
  }

  lemma {:induction false} HeldFacing(a: SHAMap, b: SHAMap, n: InnerNode, t: Tree)
    requires Facing(a, b) && Holds(a.shape, InnerRef(n), t)
    ensures n in Inners(a.shape)
  {
    HeldIn(a, n, t);
  }

  lemma {:induction false} WalkFailed(items: seq<Item>, n: nat, other: Option<Item>, isFirst: bool, matched: bool, sink: Sink, out: Log, out': Log)
    requires WalkedFrom(items, n, other, isFirst, matched, sink, out, out')
    ensures Grown(sink, out, out', Failed, D.WalkTold(items, other, isFirst))
  {
    hide Grown, D.WalkTold, D.ItemsTold;
    WalkTail(items, n, other, isFirst);
    Failing(sink, out, out', D.ItemsTold(items[n..], other, isFirst), D.WalkTold(items, other, isFirst));
  }

  lemma {:induction false} NoTrees(s: Shape, stack: seq<NodeRef>, trees: seq<Tree>)
    requires AllHeld(s, stack, trees) && stack == []
    ensures trees == []
  {
  }

  lemma {:induction false} OneTree(s: Shape, r: NodeRef, t: Tree)
    requires Walkable(t) && Holds(s, r, t)
    ensures LeavesOf([t]) == Leaves(t) && AllWalkable([t]) && AllHeld(s, [r], [t]) && Leaves(t)[..|Leaves(t)|] == Leaves(t)
  {
  }

  lemma {:induction false} InnerSums(t: Tree)
    requires Walkable(t) && t.Inner?
    ensures Leaves(t) == LeavesOf(t.kids) && Loaded(t) == 1 + LoadedOf(t.kids) && Whole(t)
    ensures |t.kids| == BRANCH_FACTOR && forall i :: 0 <= i < |t.kids| ==> Wide(t.kids[i]) && Whole(t.kids[i])
  {
  }

  lemma {:induction false} LeafSums(t: Tree, items: seq<Item>, n: nat, before: seq<Item>)
    requires Walkable(t) && !t.Inner? && n <= |items| && items[..n] == before + Leaves(t)
    ensures t.Leaf? && Loaded(t) == 1 && 0 < n && items[n - 1] == t.item && before == items[..n - 1]
  {
  }
}
