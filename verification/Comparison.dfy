/** Comparing two maps: the bounded comparison and the one that streams. */
module Comparison {
  import opened Bytes
  import opened Tree
  import opened Nodes
  import opened Shapes
  import opened Canonical
  import opened LeafOrder
  import opened Merkle
  import opened SyncTree
  import opened Walking
  import opened ShaMap
  import opened Histories
  import opened Loading
  import opened Sinks
  import opened BranchWalk
  import opened Telling
  import D = Differing

  // ---------- pairs of nodes ----------

  /** Two nodes at the same place of two maps. */
  datatype NodePair = NodePair(our: NodeRef, other: NodeRef)

  /** A subtree that is there in full, with every key once. */
  ghost predicate Orderly(t: Tree) {
    Walkable(t) && D.UniqueKeys(Leaves(t))
  }

  ghost predicate PairOrderly(p: TreePair) {
    Orderly(p.our) && Orderly(p.other)
  }

  lemma {:induction false} OrderlyKid(t: Tree, i: nat)
    requires Orderly(t) && t.Inner? && i < |t.kids|
    ensures |t.kids| == BRANCH_FACTOR && Whole(t) && (t.kids[i].Nil? || Orderly(t.kids[i]))
  {
    hide Leaves, LeavesOf;
    InnerSums(t);
    var front, here, back := LeavesOf(t.kids[..i]), Leaves(t.kids[i]), LeavesOf(t.kids[i + 1..]);
    assert Leaves(t) == front + here + back by {
      LeavesOfSplit(t.kids, i);
      OneMore(t.kids, i);
    }
    assert forall j :: 0 <= j < |here| ==> here[j] == Leaves(t)[|front| + j];
  }

  lemma {:induction false} OneMore(kids: seq<Tree>, i: nat)
    requires i < |kids|
    ensures LeavesOf(kids[i..]) == Leaves(kids[i]) + LeavesOf(kids[i + 1..])
  {
    var rest := kids[i..];
    assert rest[0] == kids[i] && rest[1..] == kids[i + 1..];
  }

  lemma {:induction false} OrderlyRoot(kind: Kind, m: Contents)
    ensures Orderly(CanonRoot(kind, m)) && CanonRoot(kind, m).Inner?
  {
    hide CanonRoot, Leaves;
    RootSound(kind, m);
    RootIsInner(kind, m);
    RootItems(kind, m);
  }

  /** The nodes of a pair are at hand. */
  ghost predicate PairHeld(s1: Shape, s2: Shape, r: NodePair, p: TreePair) {
    Holds(s1, r.our, p.our) && Holds(s2, r.other, p.other) && PairOrderly(p)
  }

  ghost predicate PairsHeld(s1: Shape, s2: Shape, rs: seq<NodePair>, pairs: seq<TreePair>) {
    |pairs| == |rs| && forall i :: 0 <= i < |rs| ==> PairHeld(s1, s2, rs[i], pairs[i])
  }

  /** Both maps with some more nodes loaded. */
  ghost predicate Onward(s1: Shape, s2: Shape, t1: Shape, t2: Shape) {
    Refines(s1, t1) && Refines(s2, t2)
  }

  lemma {:induction false} OnwardTwice(s1: Shape, s2: Shape, t1: Shape, t2: Shape, u1: Shape, u2: Shape)
    requires Onward(s1, s2, t1, t2) && Onward(t1, t2, u1, u2)
    ensures Onward(s1, s2, u1, u2)
  {
    RefinesTwice(s1, t1, u1);
    RefinesTwice(s2, t2, u2);
  }

  lemma {:induction false} OnwardOne(s1: Shape, s2: Shape, t: Shape)
    ensures Onward(s1, s2, s1, s2)
    ensures Refines(s1, t) ==> Onward(s1, s2, t, s2)
    ensures Refines(s2, t) ==> Onward(s1, s2, s1, t)
  {
  }

  lemma {:induction false} PairStays(s1: Shape, s2: Shape, t1: Shape, t2: Shape, r: NodePair, p: TreePair)
    requires Onward(s1, s2, t1, t2) && PairHeld(s1, s2, r, p)
    ensures PairHeld(t1, t2, r, p)
  {
    StillHolds(s1, t1, r.our, p.our);
    StillHolds(s2, t2, r.other, p.other);
  }

  lemma {:induction false} PairsStay(s1: Shape, s2: Shape, t1: Shape, t2: Shape, rs: seq<NodePair>, pairs: seq<TreePair>)
    requires Onward(s1, s2, t1, t2) && PairsHeld(s1, s2, rs, pairs)
    ensures PairsHeld(t1, t2, rs, pairs)
  {
    hide PairHeld, Onward;
    forall i | 0 <= i < |rs| ensures PairHeld(t1, t2, rs[i], pairs[i]) {
      PairStays(s1, s2, t1, t2, rs[i], pairs[i]);
    }
  }

  lemma {:induction false} PairsHeldAppend(s1: Shape, s2: Shape, rs: seq<NodePair>, pairs: seq<TreePair>, rs': seq<NodePair>, pairs': seq<TreePair>)
    requires PairsHeld(s1, s2, rs, pairs) && PairsHeld(s1, s2, rs', pairs')
    ensures PairsHeld(s1, s2, rs + rs', pairs + pairs')
  {
    hide PairHeld;
  }

  lemma {:induction false} PairsHeldPop(s1: Shape, s2: Shape, rs: seq<NodePair>, pairs: seq<TreePair>)
    requires PairsHeld(s1, s2, rs, pairs) && rs != []
    ensures |pairs| == |rs| && PairHeld(s1, s2, rs[|rs| - 1], pairs[|pairs| - 1]) && PairsHeld(s1, s2, rs[..|rs| - 1], pairs[..|pairs| - 1])
  {
    hide PairHeld;
  }

  /** A branch as it was reached: empty, or with its child at hand. */
  ghost predicate BranchReached(s: Shape, r: NodeRef, t: Tree) {
    if r == NoNode then t.Nil? else Holds(s, r, t) && !t.Nil?
  }

  lemma {:induction false} HashFacing(a: SHAMap, b: SHAMap, r: NodeRef, t: Tree)
    requires Facing(a, b) && Holds(a.shape, r, t)
    ensures RefHash(r) == HashOf(t)
  {
    HoldsFacts(EnvOf(a.family), a.shape, r, t);
  }

  /** A node could not be loaded in one of the two maps. */
  ghost predicate EitherMayFail(a: SHAMap, b: SHAMap)
    reads a`family, b`family
  {
    MayFail(a.family) || MayFail(b.family)
  }

  /** A branch of two inner nodes. */
  ghost predicate BranchOrderly(a: Tree, b: Tree) {
    (a.Nil? || Orderly(a)) && (b.Nil? || Orderly(b))
  }

  /** One branch of two inner nodes: equal, left for later, or walked on the side that has it. */
  method InnerBranch(our: SHAMap, other: SHAMap, a: NodeRef, b: NodeRef, sink: Sink, out: Log, ghost ta: Tree, ghost tb: Tree)
    returns (v: Verdict, entry: Option<NodePair>, out': Log)
    requires Facing(our, other) && BranchReached(our.shape, a, ta) && BranchReached(other.shape, b, tb)
    requires BranchOrderly(ta, tb) && Room(sink, out)
    modifies our`shape, Inners(our.shape)`children, other`shape, Inners(other.shape)`children
    ensures Facing(our, other) && Onward(old(our.shape), old(other.shape), our.shape, other.shape)
    ensures forall o :: o in Foot(our.shape) ==> o in old(Foot(our.shape)) || fresh(o)
    ensures forall o :: o in Foot(other.shape) ==> o in old(Foot(other.shape)) || fresh(o)
    ensures entry.Some? <==> Open(ta, tb)
    ensures entry.Some? ==> v == Go && entry.value == NodePair(a, b) && PairHeld(our.shape, other.shape, NodePair(a, b), TreePair(ta, tb))
    ensures Grown(sink, out, out', v, BranchTold(ta, tb)) && (v == Failed ==> EitherMayFail(our, other))
  {
    hide Facing, Grown, Walkable, HashOf, Holds, Refines, Foot, D.WalkTold, D.UniqueKeys, Leaves;
    ghost var s1, s2 := our.shape, other.shape;
    OnwardOne(s1, s2, s1);
    FacingTurned(our, other);
    v, entry, out' := Go, None, out;
    if a != NoNode && b != NoNode {
      HashFacing(our, other, a, ta);
      HashFacing(other, our, b, tb);
      if RefHash(a) != RefHash(b) {
        entry := Some(NodePair(a, b));
      }
      GrownNot(sink, out);
    } else if a == NoNode && b != NoNode {
      v, out' := WalkBranch(other, our, b, None, false, sink, out, tb);
      FacingTurned(other, our);
      OnwardOne(s1, s2, other.shape);
    } else if a != NoNode {
      v, out' := WalkBranch(our, other, a, None, true, sink, out, ta);
      OnwardOne(s1, s2, our.shape);
    } else {
      GrownNot(sink, out);
    }
  }

  /** Both children at one branch. */
  method ReachBoth(our: SHAMap, other: SHAMap, r: NodePair, i: nat, ghost p: TreePair)
    returns (ok: bool, a: NodeRef, b: NodeRef)
    requires Facing(our, other) && PairHeld(our.shape, other.shape, r, p) && i < BRANCH_FACTOR
    requires r.our.InnerRef? && r.other.InnerRef?
    modifies our`shape, Inners(our.shape)`children, other`shape, Inners(other.shape)`children
    ensures Facing(our, other) && Onward(old(our.shape), old(other.shape), our.shape, other.shape) && PairHeld(our.shape, other.shape, r, p)
    ensures forall o :: o in Foot(our.shape) ==> o in old(Foot(our.shape)) || fresh(o)
    ensures forall o :: o in Foot(other.shape) ==> o in old(Foot(other.shape)) || fresh(o)
    ensures p.our.Inner? && p.other.Inner? && |p.our.kids| == |p.other.kids| == BRANCH_FACTOR
    ensures BranchOrderly(p.our.kids[i], p.other.kids[i])
    ensures if ok then BranchReached(our.shape, a, p.our.kids[i]) && BranchReached(other.shape, b, p.other.kids[i]) else EitherMayFail(our, other)
  {
    hide Facing, Holds, Refines, Foot, Whole, Orderly;
    HeldNode(our.shape, r.our, p.our);
    HeldNode(other.shape, r.other, p.other);
    HeldFacing(our, other, r.our.inner, p.our);
    FacingTurned(our, other);
    HeldFacing(other, our, r.other.inner, p.other);
    FacingApart(our, other);
    FootAllocated(our.shape);
    FootAllocated(other.shape);
    NodeShape(p.our, other, our, r.our.inner);
    NodeShape(p.other, our, other, r.other.inner);
    OrderlyKid(p.our, i);
    OrderlyKid(p.other, i);
    ghost var s2 := other.shape;
    ok, a := ReachBeside(our, other, r.our.inner, i, p.our);
    FacingTurned(our, other);
    b := NoNode;
    RefinesSelf(s2);
    if !ok {
      return;
    }
    FootAllocated(our.shape);
    ok, b := ReachBeside(other, our, r.other.inner, i, p.other);
    FacingTurned(other, our);
  }

  lemma {:induction false} FacingApart(a: SHAMap, b: SHAMap)
    requires Facing(a, b)
    ensures a != b && Foot(a.shape) !! Foot(b.shape)
  {
  }

  lemma {:induction false} NodeShape(t: Tree, a: SHAMap, b: SHAMap, n: InnerNode)
    requires Facing(a, b) && Holds(b.shape, InnerRef(n), t)
    ensures t.Inner? && |t.kids| == BRANCH_FACTOR
  {
    BitOf(b, n, t, 0);
  }

  /** All branches of two inner nodes, lowest first. */
  method HandleInner(our: SHAMap, other: SHAMap, r: NodePair, sink: Sink, out: Log, ghost p: TreePair)
    returns (v: Verdict, entries: seq<NodePair>, out': Log)
    requires Facing(our, other) && PairHeld(our.shape, other.shape, r, p) && r.our.InnerRef? && r.other.InnerRef? && Room(sink, out)
    modifies our`shape, Inners(our.shape)`children, other`shape, Inners(other.shape)`children
    ensures Facing(our, other) && Onward(old(our.shape), old(other.shape), our.shape, other.shape)
    ensures forall o :: o in Foot(our.shape) ==> o in old(Foot(our.shape)) || fresh(o)
    ensures forall o :: o in Foot(other.shape) ==> o in old(Foot(other.shape)) || fresh(o)
    ensures BothInner(p) && Grown(sink, out, out', v, PairTold(p)) && (v == Failed ==> EitherMayFail(our, other))
    ensures v == Go ==> PairsHeld(our.shape, other.shape, entries, OpenPairs(p))
  {
    hide Facing, Onward, PairHeld, PairsHeld, Foot, BranchReached, BranchOrderly, Grown, KidsTold, KidsOpen, BranchTold, Open, Room;
    ghost var s1, s2 := our.shape, other.shape;
    entries, out', v := [], out, Go;
    PairShape(our, other, r, p);
    OnwardOne(s1, s2, s1);
    KidsNone(s1, s2, p, sink, out);
    for i := 0 to BRANCH_FACTOR
      invariant Facing(our, other) && Onward(s1, s2, our.shape, other.shape)
      invariant forall o :: o in Foot(our.shape) ==> o in old(Foot(our.shape)) || fresh(o)
      invariant forall o :: o in Foot(other.shape) ==> o in old(Foot(other.shape)) || fresh(o)
      invariant PairHeld(our.shape, other.shape, r, p) && PairsHeld(our.shape, other.shape, entries, KidsOpen(p, i))
      invariant v == Go && Grown(sink, out, out', Go, KidsTold(p, i))
    {
      ghost var u1, u2 := our.shape, other.shape;
      ghost var left := KidsOpen(p, i);
      var ok, a, b := ReachBoth(our, other, r, i, p);
      OnwardTwice(s1, s2, u1, u2, our.shape, other.shape);
      PairsStay(u1, u2, our.shape, other.shape, entries, left);
      KidsPrefix(p, i, |p.our.kids|);
      if !ok {
        Failing(sink, out, out', KidsTold(p, i), PairTold(p));
        return Failed, entries, out';
      }
      var entry;
      ghost var mid := out';
      u1, u2 := our.shape, other.shape;
      RoomLeft(sink, out, mid, KidsTold(p, i));
      v, entry, out' := InnerBranch(our, other, a, b, sink, out', p.our.kids[i], p.other.kids[i]);
      OnwardTwice(s1, s2, u1, u2, our.shape, other.shape);
      PairsStay(u1, u2, our.shape, other.shape, entries, left);
      PairStays(u1, u2, our.shape, other.shape, r, p);
      KidsNext(p, i);
      GrownMore(sink, out, mid, out', v, KidsTold(p, i), BranchTold(p.our.kids[i], p.other.kids[i]));
      if v != Go {
        KidsPrefix(p, i + 1, |p.our.kids|);
        GrownSome(sink, out, out', v, KidsTold(p, i + 1), PairTold(p));
        return;
      }
      if entry.Some? {
        HeldOne(our.shape, other.shape, entry.value, KidPair(p, i));
        PairsHeldAppend(our.shape, other.shape, entries, left, [entry.value], [KidPair(p, i)]);
        entries := entries + [entry.value];
      }
    }
  }

  lemma {:induction false} PairShape(our: SHAMap, other: SHAMap, r: NodePair, p: TreePair)
    requires Facing(our, other) && PairHeld(our.shape, other.shape, r, p) && r.our.InnerRef? && r.other.InnerRef?
    ensures BothInner(p) && |p.our.kids| == BRANCH_FACTOR
  {
    hide Facing, Holds;
    NodeShape(p.other, our, other, r.other.inner);
    FacingTurned(our, other);
    NodeShape(p.our, other, our, r.our.inner);
  }

  lemma {:induction false} KidsNone(s1: Shape, s2: Shape, p: TreePair, sink: Sink, out: Log)
    requires BothInner(p) && Room(sink, out)
    ensures PairsHeld(s1, s2, [], KidsOpen(p, 0)) && Grown(sink, out, out, Go, KidsTold(p, 0))
  {
    GrownNot(sink, out);
  }

  lemma {:induction false} KidsNext(p: TreePair, i: nat)
    requires BothInner(p) && i < |p.our.kids|
    ensures KidsTold(p, i + 1) == KidsTold(p, i) + BranchTold(p.our.kids[i], p.other.kids[i])
    ensures KidsOpen(p, i + 1) == if Open(p.our.kids[i], p.other.kids[i]) then KidsOpen(p, i) + [KidPair(p, i)] else KidsOpen(p, i)
  {
  }

  lemma {:induction false} KidsPrefix(p: TreePair, i: nat, n: nat)
    requires BothInner(p) && i <= n <= |p.our.kids|
    ensures KidsTold(p, i) <= KidsTold(p, n)
  {
    hide BranchTold;
    if i < n { KidsPrefix(p, i, n - 1); }
  }

  lemma {:induction false} HeldOne(s1: Shape, s2: Shape, r: NodePair, p: TreePair)
    requires PairHeld(s1, s2, r, p)
    ensures PairsHeld(s1, s2, [r], [p])
  {
  }

  // ---------- the comparisons ----------

  /** Two leaves. */
  method HandleLeaves(a: Item, b: Item, sink: Sink, out: Log) returns (v: Verdict, out': Log)
    requires Room(sink, out)
    ensures Grown(sink, out, out', v, LeavesTold(a, b)) && v != Failed
  {
    hide Grown;
    v, out' := Go, out;
    GrownNot(sink, out);
    if a.key == b.key {
      if a.data != b.data {
        v, out' := Deliver(sink, out, D.Modified(a, b, true));
      }
    } else {
      var first, second := D.Unmatched(a, true), D.Unmatched(b, false);
      v, out' := Deliver(sink, out, first);
      if v != Go {
        GrownSome(sink, out, out', v, [first], [first, second]);
        return;
      }
      ghost var mid := out';
      RoomLeft(sink, out, mid, [first]);
      v, out' := Deliver(sink, out', second);
      GrownMore(sink, out, mid, out', v, [first], [second]);
      assert [first] + [second] == [first, second];
    }
  }

  /** Two nodes of which at least one is a leaf. */
  method HandleMixed(our: SHAMap, other: SHAMap, r: NodePair, sink: Sink, out: Log, ghost p: TreePair)
    returns (v: Verdict, out': Log)
    requires Facing(our, other) && PairHeld(our.shape, other.shape, r, p) && Room(sink, out)
    requires !(r.our.InnerRef? && r.other.InnerRef?)
    modifies our`shape, Inners(our.shape)`children, other`shape, Inners(other.shape)`children
    ensures Facing(our, other) && Onward(old(our.shape), old(other.shape), our.shape, other.shape)
    ensures forall o :: o in Foot(our.shape) ==> o in old(Foot(our.shape)) || fresh(o)
    ensures forall o :: o in Foot(other.shape) ==> o in old(Foot(other.shape)) || fresh(o)
    ensures !BothInner(p) && Grown(sink, out, out', v, PairTold(p)) && (v == Failed ==> EitherMayFail(our, other))
  {
    hide Facing, Holds, Refines, Foot, Grown, Walkable, D.WalkTold, D.UniqueKeys, Leaves, LeavesTold;
    ghost var s1, s2 := our.shape, other.shape;
    HeldNode(our.shape, r.our, p.our);
    HeldNode(other.shape, r.other, p.other);
    OnwardOne(s1, s2, s1);
    FacingTurned(our, other);
    FootAllocated(our.shape);
    FootAllocated(other.shape);
    if r.our.LeafRef? && r.other.LeafRef? {
      v, out' := HandleLeaves(r.our.leaf.item, r.other.leaf.item, sink, out);
    } else if r.other.LeafRef? {
      v, out' := WalkBranch(our, other, r.our, Some(r.other.leaf.item), true, sink, out, p.our);
      OnwardOne(s1, s2, our.shape);
    } else {
      v, out' := WalkBranch(other, our, r.other, Some(r.our.leaf.item), false, sink, out, p.other);
      FacingTurned(other, our);
      OnwardOne(s1, s2, other.shape);
    }
  }

  /** One pair off the stack. The flag empty tells that two inner nodes left nothing for later. */
  method CompareStep(our: SHAMap, other: SHAMap, stack: seq<NodePair>, sink: Sink, out: Log, ghost pairs: seq<TreePair>)
    returns (v: Verdict, empty: bool, stack': seq<NodePair>, out': Log)
    requires Facing(our, other) && stack != [] && PairsHeld(our.shape, other.shape, stack, pairs) && Room(sink, out)
    modifies our`shape, Inners(our.shape)`children, other`shape, Inners(other.shape)`children
    ensures Facing(our, other) && Onward(old(our.shape), old(other.shape), our.shape, other.shape)
    ensures forall o :: o in Foot(our.shape) ==> o in old(Foot(our.shape)) || fresh(o)
    ensures forall o :: o in Foot(other.shape) ==> o in old(Foot(other.shape)) || fresh(o)
    ensures |pairs| == |stack| && Grown(sink, out, out', v, PairTold(pairs[|pairs| - 1])) && (v == Failed ==> EitherMayFail(our, other))
    ensures v == Go ==> empty == Halts(pairs[|pairs| - 1])
    ensures v == Go ==> PairsHeld(our.shape, other.shape, stack', pairs[..|pairs| - 1] + OpenPairs(pairs[|pairs| - 1]))
  {
    hide Facing, Onward, PairHeld, PairsHeld, Foot, Grown, PairTold, KidsOpen;
    ghost var s1, s2 := our.shape, other.shape;
    PairsHeldPop(s1, s2, stack, pairs);
    var r := stack[|stack| - 1];
    ghost var p, rest := pairs[|pairs| - 1], pairs[..|pairs| - 1];
    stack', empty := stack[..|stack| - 1], false;
    if r.our.InnerRef? && r.other.InnerRef? {
      var entries;
      v, entries, out' := HandleInner(our, other, r, sink, out, p);
      PairsStay(s1, s2, our.shape, other.shape, stack', rest);
      if v == Go {
        PairsHeldAppend(our.shape, other.shape, stack', rest, entries, OpenPairs(p));
        SameCount(our.shape, other.shape, entries, OpenPairs(p));
      }
      stack', empty := stack' + entries, entries == [];
    } else {
      v, out' := HandleMixed(our, other, r, sink, out, p);
      PairsStay(s1, s2, our.shape, other.shape, stack', rest);
      NoneOpen(p);
      assert rest + [] == rest;
    }
  }

  lemma {:induction false} SameCount(s1: Shape, s2: Shape, rs: seq<NodePair>, pairs: seq<TreePair>)
    requires PairsHeld(s1, s2, rs, pairs)
    ensures |pairs| == |rs|
  {
  }

  ghost function KindsOf(our: SHAMap, other: SHAMap): Kinds {
    Kinds(LeafKind(our.mapType), LeafKind(other.mapType))
  }

  /** The roots of the two maps. */
  ghost function RootsOf(our: SHAMap, other: SHAMap): TreePair
    reads our`contents, other`contents
  {
    RootPair(KindsOf(our, other), our.contents, other.contents)
  }

  ghost function DifferencesOf(our: SHAMap, other: SHAMap): Bag
    reads our`contents, other`contents
  {
    D.Differences(our.contents, other.contents)
  }

  /** Two maps, the same or without a common node, and no collision among all that they hash. */
  ghost predicate Comparable(our: SHAMap, other: SHAMap, ps: set<bytes>)
    reads our, our.family, Foot(our.shape), other, other.family, Foot(other.shape)
  {
    && our.Valid() && other.Valid() && (our != other ==> Separate(our, other))
    && Compared(KindsOf(our, other), our.contents, other.contents, ps)
  }

  /** The root hashes decide. */
  lemma {:induction false} RootsDecide(our: SHAMap, other: SHAMap, ps: set<bytes>)
    requires Comparable(our, other, ps)
    ensures our.root.hash == other.root.hash <==> our.contents == other.contents && (our.mapType == other.mapType || our.contents == map[])
    ensures our.root.hash == other.root.hash <==> HashOf(RootsOf(our, other).our) == HashOf(RootsOf(our, other).other)
    ensures our.root.hash != other.root.hash ==> our != other
  {
    hide CanonRoot, Preimages, TreeOf, Rep, Distinct, HashOf;
    RootHash(EnvOf(our.family), our.shape);
    RootHash(EnvOf(other.family), other.shape);
    RootsEqual(KindsOf(our, other), our.contents, other.contents, ps);
  }

  /** The start of a comparison: the two roots are on the stack. */
  lemma {:induction false} RootsHeld(our: SHAMap, other: SHAMap, ps: set<bytes>)
    requires Comparable(our, other, ps) && our.root.hash != other.root.hash
    ensures Facing(our, other) && PairsHeld(our.shape, other.shape, [NodePair(InnerRef(our.root), InnerRef(other.root))], [RootsOf(our, other)])
  {
    hide CanonRoot, Preimages, TreeOf, Rep, Distinct, Orderly, Holds;
    RootsDecide(our, other, ps);
    OrderlyRoot(LeafKind(our.mapType), our.contents);
    OrderlyRoot(LeafKind(other.mapType), other.contents);
    RootHeld(our);
    RootHeld(other);
  }

  ghost predicate EitherInvalid(our: SHAMap, other: SHAMap)
    reads our, other
  {
    our.state == Invalid || other.state == Invalid
  }

  lemma {:induction false} FacingValid(our: SHAMap, other: SHAMap)
    requires Facing(our, other)
    ensures our.Valid() && other.Valid()
  {
  }

  lemma {:induction false} ComparableValid(our: SHAMap, other: SHAMap, ps: set<bytes>)
    requires Comparable(our, other, ps)
    ensures our.Valid() && other.Valid() && Compared(KindsOf(our, other), our.contents, other.contents, ps)
  {
  }

  /** What is out and what the stack has still to tell make up all. */
  ghost predicate Underway(sink: Sink, out: Log, pairs: seq<TreePair>, stops: bool, all: Log) {
    out + Told(pairs, stops) == all && Room(sink, out) && Fed(sink, [], out)
  }

  lemma {:induction false} SetOut(sink: Sink, p: TreePair, stops: bool)
    requires Room(sink, [])
    ensures Underway(sink, [], [p], stops, Told([p], stops))
  {
    hide Told;
    assert [] + Told([p], stops) == Told([p], stops);
  }

  /** A pair that has told all it has, or as much as was taken. */
  lemma {:induction false} OneFurther(sink: Sink, out: Log, out': Log, pairs: seq<TreePair>, stops: bool, all: Log, v: Verdict)
    requires Underway(sink, out, pairs, stops, all) && pairs != [] && Grown(sink, out, out', v, PairTold(pairs[|pairs| - 1]))
    ensures out' <= all && Fed(sink, [], out')
    ensures v == Go && stops && Halts(pairs[|pairs| - 1]) ==> out' == all && Room(sink, out')
    ensures v == Go && !(stops && Halts(pairs[|pairs| - 1])) ==> Underway(sink, out', pairs[..|pairs| - 1] + OpenPairs(pairs[|pairs| - 1]), stops, all)
    ensures v == Full ==> Stopped(sink, out') && (sink.Channel? ==> out' != all)
  {
    hide Told, PairTold, OpenPairs, Halts;
    var rest, p := pairs[..|pairs| - 1], pairs[|pairs| - 1];
    assert pairs == rest + [p];
    ToldUnfold(rest, p, stops);
    var later := if stops && Halts(p) then [] else Told(rest + OpenPairs(p), stops);
    assert out + (PairTold(p) + later) == out + PairTold(p) + later;
    assert out + PairTold(p) <= all;
    assert later == [] ==> out + PairTold(p) + later == out + PairTold(p);
  }

  lemma {:induction false} AllOut(sink: Sink, out: Log, pairs: seq<TreePair>, stops: bool, all: Log)
    requires Underway(sink, out, pairs, stops, all) && pairs == []
    ensures out == all && Room(sink, out) && Fed(sink, [], out)
  {
    assert out + [] == out;
  }

  /** Streams the differences. Without an error each one was sent exactly once, and nothing else. */
  method DifferencesWithError(our: SHAMap, other: SHAMap, ready: nat -> bool, ghost ps: set<bytes>) returns (ok: bool, sent: Log)
    requires Comparable(our, other, ps)
    modifies our`shape, Inners(our.shape)`children, other`shape, Inners(other.shape)`children
    ensures our.Valid() && other.Valid()
    ensures sent <= Told([RootsOf(our, other)], false) && (ok ==> sent == Told([RootsOf(our, other)], false))
    ensures multiset(sent) <= DifferencesOf(our, other) && (ok ==> multiset(sent) == DifferencesOf(our, other))
    ensures !ok ==> (EitherInvalid(our, other) && sent == []) || (|sent| < |DifferencesOf(our, other)| && !ready(|sent|)) || EitherMayFail(our, other)
    ensures ok ==> !EitherInvalid(our, other) && forall i :: 0 <= i < |DifferencesOf(our, other)| ==> ready(i)
    ensures ok ==> D.Patched(our.contents, sent) == other.contents && D.Unpatched(other.contents, sent) == our.contents
  {
    hide D.Patched, D.Unpatched;
    hide SHAMap.Valid, Facing, Onward, PairsHeld, Comparable, Compared, HashOf, Foot, PairsWork, D.Differences, Told, Underway, PairTold, OpenPairs, Grown, ChainedOf, SparedOf, RootsOf;
    ComparableValid(our, other, ps);
    ghost var roots := RootsOf(our, other);
    ghost var all := Told([roots], false);
    Meaning(our, other, ps);
    ok, sent := false, [];
    if our.state == Invalid || other.state == Invalid {
      PartOf([], all);
      return;
    }
    RootsDecide(our, other, ps);
    if our.root.hash == other.root.hash {
      D.PatchedAll(our.contents, other.contents, []);
      return true, [];
    }
    var stack, sink := [NodePair(InnerRef(our.root), InnerRef(other.root))], Channel(ready);
    ghost var pairs := [roots];
    RootsHeld(our, other, ps);
    SetOut(sink, roots, false);
    while stack != []
      invariant Facing(our, other) && PairsHeld(our.shape, other.shape, stack, pairs)
      invariant forall o :: o in Foot(our.shape) ==> o in old(Foot(our.shape)) || fresh(o)
      invariant forall o :: o in Foot(other.shape) ==> o in old(Foot(other.shape)) || fresh(o)
      invariant Underway(sink, sent, pairs, false, all)
      decreases PairsWork(pairs), |pairs|
    {
      SameCount(our.shape, other.shape, stack, pairs);
      StackLess(pairs);
      RoomForOne(sink, sent, pairs, false, all);
      var v, empty, more;
      ghost var was := sent;
      v, empty, more, sent := CompareStep(our, other, stack, sink, sent, pairs);
      OneFurther(sink, was, sent, pairs, false, all, v);
      FacingValid(our, other);
      if v != Go {
        PartOf(sent, all);
        return;
      }
      stack, pairs := more, pairs[..|pairs| - 1] + OpenPairs(pairs[|pairs| - 1]);
    }
    FacingValid(our, other);
    SameCount(our.shape, other.shape, stack, pairs);
    AllOut(sink, sent, pairs, false, all);
    D.PatchedAll(our.contents, other.contents, sent);
    ok := true;
  }

  lemma {:induction false} RoomForOne(sink: Sink, out: Log, pairs: seq<TreePair>, stops: bool, all: Log)
    requires Underway(sink, out, pairs, stops, all)
    ensures Room(sink, out)
  {
  }

  lemma {:induction false} PartOf(part: Log, all: Log)
    requires part <= all
    ensures multiset(part) <= multiset(all) && (part != all ==> |part| < |all|) && |multiset(all)| == |all|
  {
    assert all == part + all[|part|..];
  }

  ghost predicate ChainedOf(our: SHAMap, other: SHAMap)
    reads our`contents, other`contents
  {
    MapsChained(our.mapType == other.mapType, our.contents, other.contents, 0)
  }

  ghost predicate SparedOf(our: SHAMap, other: SHAMap)
    reads our`contents, other`contents
  {
    MapsSpared(our.mapType == other.mapType, our.contents, other.contents, 0)
  }

  lemma {:induction false} SameKinds(our: SHAMap, other: SHAMap)
    ensures KindsOf(our, other).ours == KindsOf(our, other).theirs <==> our.mapType == other.mapType
  {
  }

  /** What the two maps have to tell. */
  lemma {:induction false} Meaning(our: SHAMap, other: SHAMap, ps: set<bytes>)
    requires Compared(KindsOf(our, other), our.contents, other.contents, ps)
    ensures var p := RootsOf(our, other);
      && multiset(Told([p], false)) == DifferencesOf(our, other) && |Told([p], false)| == |DifferencesOf(our, other)|
      && Told([p], true) <= Told([p], false)
      && (Told([p], true) == [] <==> our.contents == other.contents) && (our.contents == other.contents ==> Told([p], false) == [])
      && (ChainedOf(our, other) ==> Told([p], true) == Told([p], false))
      && (HashOf(p.our) != HashOf(p.other) ==> (Completes([p]) <==> ChainedOf(our, other)))
      && (HashOf(p.our) != HashOf(p.other) && our.contents == other.contents ==> ChainedOf(our, other))
      && (our.contents != other.contents && our.mapType == other.mapType ==> (Told([p], true) == Told([p], false) <==> SparedOf(our, other)))
  {
    hide D.Differences, Told, Completes, MapsChained, MapsSpared, RootPair, HashOf, Compared;
    SameKinds(our, other);
    Comparing(KindsOf(our, other), our.contents, other.contents, ps);
    D.NoDifferences(our.contents, other.contents);
    PartOf(Told([RootsOf(our, other)], false), Told([RootsOf(our, other)], false));
  }

  /** What the comparison that stops early makes of two maps, with at most maxCount differences. */
  ghost predicate Findings(our: SHAMap, other: SHAMap, maxCount: int, complete: bool, result: Log)
    reads our`contents, other`contents
  {
    var p, ds := RootsOf(our, other), DifferencesOf(our, other);
    && result == Limited(Told([p], true), maxCount) && multiset(result) <= ds
    && (complete <==> our.contents == other.contents || (ChainedOf(our, other) && (maxCount > 0 ==> |ds| < maxCount)))
    && (complete ==> multiset(result) == ds && D.Patched(our.contents, result) == other.contents)
    && (our.mapType == other.mapType ==>
         (multiset(result) == ds <==> our.contents == other.contents || (SparedOf(our, other) && (maxCount > 0 ==> |ds| <= maxCount))))
    && (result == [] <==> our.contents == other.contents)
  }

  lemma {:induction false} Found(our: SHAMap, other: SHAMap, ps: set<bytes>, maxCount: int, halted: bool, complete: bool, result: Log)
    requires Compared(KindsOf(our, other), our.contents, other.contents, ps)
    requires var all := Told([RootsOf(our, other)], true);
      result == Limited(all, maxCount) && (complete <==> !halted && (maxCount > 0 ==> |all| < maxCount))
    requires halted <==> our.contents != other.contents && !ChainedOf(our, other)
    ensures Findings(our, other, maxCount, complete, result)
  {
    hide Told, ChainedOf, SparedOf, RootsOf, D.Differences, Compared, HashOf, D.Patched, D.Unpatched;
    Meaning(our, other, ps);
    var all, whole := Told([RootsOf(our, other)], true), Told([RootsOf(our, other)], false);
    LimitedPart(all, whole, maxCount);
    if complete { D.PatchedAll(our.contents, other.contents, result); }
  }

  /** A limited part has all of the whole exactly if the part is the whole and the limit lets it through. */
  lemma {:induction false} LimitedPart(all: Log, whole: Log, n: int)
    requires all <= whole
    ensures var r := Limited(all, n); multiset(r) <= multiset(whole)
    ensures var r := Limited(all, n); multiset(r) == multiset(whole) <==> all == whole && (n > 0 ==> |whole| <= n)
    ensures var r := Limited(all, n); r == [] <==> all == []
  {
    var r := Limited(all, n);
    PartOf(r, whole);
    if multiset(r) == multiset(whole) {
      assert |r| == |multiset(r)| == |multiset(whole)| == |whole|;
    }
  }

  /** Collects at most maxCount differences. Two inner nodes that leave nothing for later end it, limit or not. */
  method CompareUnsafe(our: SHAMap, other: SHAMap, maxCount: int, ghost ps: set<bytes>) returns (ok: bool, complete: bool, result: Log)
    requires Comparable(our, other, ps)
    modifies our`shape, Inners(our.shape)`children, other`shape, Inners(other.shape)`children
    ensures our.Valid() && other.Valid()
    ensures if ok then Findings(our, other, maxCount, complete, result) else EitherMayFail(our, other)
  {
    hide SHAMap.Valid, Facing, Onward, PairsHeld, Comparable, Compared, HashOf, Foot, PairsWork, Told, Underway, PairTold, OpenPairs, Grown, ChainedOf, SparedOf, RootsOf, Findings, Completes;
    ComparableValid(our, other, ps);
    ghost var roots := RootsOf(our, other);
    ghost var all := Told([roots], true);
    Meaning(our, other, ps);
    RootsDecide(our, other, ps);
    ok, complete, result := true, true, [];
    if our.root.hash == other.root.hash {
      Found(our, other, ps, maxCount, false, true, []);
      return;
    }
    var stack, sink := [NodePair(InnerRef(our.root), InnerRef(other.root))], Bounded(maxCount);
    ghost var pairs := [roots];
    RootsHeld(our, other, ps);
    SetOut(sink, roots, true);
    while stack != []
      invariant Facing(our, other) && PairsHeld(our.shape, other.shape, stack, pairs)
      invariant forall o :: o in Foot(our.shape) ==> o in old(Foot(our.shape)) || fresh(o)
      invariant forall o :: o in Foot(other.shape) ==> o in old(Foot(other.shape)) || fresh(o)
      invariant Underway(sink, result, pairs, true, all) && (Completes(pairs) <==> ChainedOf(our, other))
      decreases PairsWork(pairs), |pairs|
    {
      SameCount(our.shape, other.shape, stack, pairs);
      StackLess(pairs);
      RoomForOne(sink, result, pairs, true, all);
      var v, empty, more;
      ghost var was := result;
      v, empty, more, result := CompareStep(our, other, stack, sink, result, pairs);
      OneFurther(sink, was, result, pairs, true, all, v);
      CompletesOn(pairs);
      FacingValid(our, other);
      if v == Failed {
        return false, false, [];
      }
      if v == Full || empty {
        Found(our, other, ps, maxCount, our.contents != other.contents && !ChainedOf(our, other), false, result);
        return true, false, result;
      }
      stack, pairs := more, pairs[..|pairs| - 1] + OpenPairs(pairs[|pairs| - 1]);
    }
    FacingValid(our, other);
    SameCount(our.shape, other.shape, stack, pairs);
    AllOut(sink, result, pairs, true, all);
    CompletesNone();
    Found(our, other, ps, maxCount, false, true, result);
  }

  lemma {:induction false} CompletesNone()
    ensures Completes([])
  {
  }

  lemma {:induction false} CompletesOn(pairs: seq<TreePair>)
    requires pairs != []
    ensures var rest, p := pairs[..|pairs| - 1], pairs[|pairs| - 1]; Completes(pairs) <==> !Halts(p) && Completes(rest + OpenPairs(p))
  {
    hide OpenPairs, Halts, PairsWork;
  }

  /** The same for maps that are not invalid. */
  method Compare(our: SHAMap, other: SHAMap, maxCount: int, ghost ps: set<bytes>) returns (ok: bool, complete: bool, result: Log)
    requires Comparable(our, other, ps)
    modifies our`shape, Inners(our.shape)`children, other`shape, Inners(other.shape)`children
    ensures our.Valid() && other.Valid()
    ensures if ok then !EitherInvalid(our, other) && Findings(our, other, maxCount, complete, result)
            else EitherInvalid(our, other) || EitherMayFail(our, other)
  {
    hide SHAMap.Valid, Comparable, Foot, Findings;
    ComparableValid(our, other, ps);
    if our.state == Invalid || other.state == Invalid {
      return false, false, [];
    }
    ok, complete, result := CompareUnsafe(our, other, maxCount, ps);
  }

  /** True exactly when the contents are equal, although the comparison may stop early. */
  method DeepEqual(our: SHAMap, other: SHAMap, ghost ps: set<bytes>) returns (ok: bool, equal: bool)
    requires Comparable(our, other, ps)
    modifies our`shape, Inners(our.shape)`children, other`shape, Inners(other.shape)`children
    ensures our.Valid() && other.Valid()
    ensures if ok then !EitherInvalid(our, other) else EitherInvalid(our, other) || EitherMayFail(our, other)
    ensures ok ==> (equal <==> our.contents == other.contents)
  {
    hide SHAMap.Valid, Comparable, Foot, Told, ChainedOf, SparedOf, RootsOf, DifferencesOf;
    ComparableValid(our, other, ps);
    if our.state == Invalid || other.state == Invalid {
      return false, false;
    }
    var complete, result;
    ok, complete, result := CompareUnsafe(our, other, 1, ps);
    equal := |result| == 0;
  }

  /** The root hashes decide, which also tell the types of maps apart that are not empty. */
  method Equal(our: SHAMap, other: SHAMap, ghost ps: set<bytes>) returns (ok: bool, equal: bool)
    requires Comparable(our, other, ps)
    ensures ok <==> !EitherInvalid(our, other)
    ensures ok ==> (equal <==> our.contents == other.contents && (our.mapType == other.mapType || our.contents == map[]))
  {
    hide Comparable;
    RootsDecide(our, other, ps);
    if our.state == Invalid || other.state == Invalid {
      return false, false;
    }
    ok, equal := true, our.root.hash == other.root.hash;
  }
}
