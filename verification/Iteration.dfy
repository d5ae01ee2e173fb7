/** Walking the items of a map in key order. */
module Iteration {
  import opened Bytes
  import opened Tree
  import opened Nodes
  import opened Shapes
  import opened Canonical
  import opened LeafOrder
  import opened Merkle
  import opened KeyOrder
  import opened SyncTree
  import opened Walking
  import opened ShaMap
  import opened Loading

  /** A node on the way and the next branch to visit below it. */
  datatype Frame = Frame(node: NodeRef, depth: nat, branch: int)

  /** The same with the subtree that the node stands for. */
  datatype Entry = Entry(node: Tree, depth: nat, branch: int)

  ghost predicate TiedOne(s: Shape, f: Frame, e: Entry) {
    Holds(s, f.node, e.node) && f.depth == e.depth && f.branch == e.branch
  }

  ghost predicate Tied(s: Shape, stack: seq<Frame>, plan: seq<Entry>) {
    |plan| == |stack| && forall i :: 0 <= i < |stack| ==> TiedOne(s, stack[i], plan[i])
  }

  lemma {:induction false} StillTied(s: Shape, s': Shape, stack: seq<Frame>, plan: seq<Entry>)
    requires Refines(s, s') && Tied(s, stack, plan)
    ensures Tied(s', stack, plan)
  {
    hide Holds, Refines;
    forall i | 0 <= i < |stack| ensures TiedOne(s', stack[i], plan[i]) {
      StillHolds(s, s', stack[i].node, plan[i].node);
    }
  }

  /** No inner node at the greatest depth or below. */
  ghost predicate AboveLimit(t: Tree, d: nat) {
    t.Inner? ==> d < MAX_DEPTH && forall i :: 0 <= i < |t.kids| ==> AboveLimit(t.kids[i], d + 1)
  }

  lemma {:induction false} CanonAboveLimit(kind: Kind, u: Contents, d: nat)
    requires d <= MAX_DEPTH
    ensures AboveLimit(Canon(kind, u, d), d)
    decreases MAX_DEPTH - d, 1
  {
    if d < MAX_DEPTH {
      KidsAboveLimit(kind, u, d);
    }
  }

  lemma {:induction false} KidsAboveLimit(kind: Kind, u: Contents, d: nat)
    requires d < MAX_DEPTH
    ensures AboveLimit(Inner(CanonKids(kind, u, d)), d)
    decreases MAX_DEPTH - d, 0
  {
    hide Canon;
    forall i | 0 <= i < BRANCH_FACTOR ensures AboveLimit(CanonKids(kind, u, d)[i], d + 1) {
      CanonAboveLimit(kind, Sub(u, d, i), d + 1);
    }
  }

  ghost predicate Ready(e: Entry) {
    && Wide(e.node) && Whole(e.node) && !e.node.Nil? && AboveLimit(e.node, e.depth)
    && (e.node.Inner? ==> 0 <= e.branch <= BRANCH_FACTOR)
  }

  ghost predicate AllReady(plan: seq<Entry>) {
    forall i :: 0 <= i < |plan| ==> Ready(plan[i])
  }

  /** The items that are still to come from one entry. */
  ghost function RestOf(e: Entry): seq<Item>
    requires Ready(e)
  {
    if e.node.Leaf? then [e.node.item] else LeavesOf(e.node.kids[e.branch..])
  }

  ghost function Rest(plan: seq<Entry>): seq<Item>
    requires AllReady(plan)
  {
    if plan == [] then [] else RestOf(plan[|plan| - 1]) + Rest(plan[..|plan| - 1])
  }

  ghost function Work(e: Entry): nat
    requires Ready(e)
  {
    if e.node.Leaf? then 1 else 1 + 2 * LoadedOf(e.node.kids[e.branch..])
  }

  ghost function WorkOf(plan: seq<Entry>): nat
    requires AllReady(plan)
  {
    if plan == [] then 0 else Work(plan[|plan| - 1]) + WorkOf(plan[..|plan| - 1])
  }

  /** The first branch from e.branch on that has a child. */
  method NextChild(sm: SHAMap, n: InnerNode, from: nat, ghost e: Entry) returns (ok: bool, i: nat, child: NodeRef)
    requires sm.Valid() && Holds(sm.shape, InnerRef(n), e.node) && Ready(e) && e.node.Inner? && e.branch == from
    modifies sm`shape, n`children
    ensures sm.Valid() && Refines(old(sm.shape), sm.shape)
    ensures forall o :: o in Foot(sm.shape) ==> o in old(Foot(sm.shape)) || fresh(o)
    ensures !ok ==> MayFail(sm.family)
    ensures ok ==> from <= i <= BRANCH_FACTOR && SameRest(e, i)
    ensures ok && i < BRANCH_FACTOR ==> Holds(sm.shape, child, e.node.kids[i]) && !e.node.kids[i].Nil?
  {
    hide SHAMap.Valid, Holds, Refines, Foot, Ready, SameRest;
    ok, i, child := true, from, NoNode;
    RefinesSelf(sm.shape);
    ReadyInner(e);
    FirstSame(e);
    while i < BRANCH_FACTOR
      invariant ok && from <= i <= BRANCH_FACTOR && SameRest(e, i)
      invariant sm.Valid() && Refines(old(sm.shape), sm.shape) && Holds(sm.shape, InnerRef(n), e.node)
      invariant forall o :: o in Foot(sm.shape) ==> o in old(Foot(sm.shape)) || fresh(o)
    {
      ghost var s := sm.shape;
      ok, child := Reach(sm, n, i, e.node);
      RefinesTwice(old(sm.shape), s, sm.shape);
      if !ok || child != NoNode {
        return;
      }
      SkipEmpty(e, i);
      i := i + 1;
    }
  }

  /** Nothing is lost by going on at branch i. */
  ghost predicate SameRest(e: Entry, i: nat) {
    && e.node.Inner? && |e.node.kids| == BRANCH_FACTOR && 0 <= e.branch <= i <= BRANCH_FACTOR
    && LeavesOf(e.node.kids[i..]) == LeavesOf(e.node.kids[e.branch..])
    && LoadedOf(e.node.kids[i..]) == LoadedOf(e.node.kids[e.branch..])
  }

  lemma {:induction false} ReadyInner(e: Entry)
    requires Ready(e) && e.node.Inner?
    ensures 0 <= e.branch <= |e.node.kids| == BRANCH_FACTOR && e.depth < MAX_DEPTH
    ensures Whole(e.node)
  {
  }

  lemma {:induction false} FirstSame(e: Entry)
    requires Ready(e) && e.node.Inner?
    ensures SameRest(e, e.branch)
  {
  }

  lemma {:induction false} SkipEmpty(e: Entry, i: nat)
    requires SameRest(e, i) && i < BRANCH_FACTOR && e.node.kids[i].Nil?
    ensures SameRest(e, i + 1)
  {
    var rest := e.node.kids[i..];
    assert rest[0] == e.node.kids[i] && rest[1..] == e.node.kids[i + 1..];
    assert LeavesOf(rest) == Leaves(rest[0]) + LeavesOf(rest[1..]) && LoadedOf(rest) == Loaded(rest[0]) + LoadedOf(rest[1..]);
  }

  /** Going down one branch: the items and the work split between the child and the rest of the node. */
  lemma {:induction false} Descent(e: Entry, i: nat)
    requires Ready(e) && e.node.Inner? && i < BRANCH_FACTOR && !e.node.kids[i].Nil? && SameRest(e, i)
    ensures var up, down := e.(branch := i + 1), Entry(e.node.kids[i], e.depth + 1, 0);
      Ready(up) && Ready(down) && RestOf(e) == RestOf(down) + RestOf(up) && Work(up) + Work(down) < Work(e)
  {
    var rest := e.node.kids[i..];
    assert rest[0] == e.node.kids[i] && rest[1..] == e.node.kids[i + 1..];
    assert LeavesOf(rest) == Leaves(rest[0]) + LeavesOf(rest[1..]) && LoadedOf(rest) == Loaded(rest[0]) + LoadedOf(rest[1..]);
    assert e.node.kids[i].Inner? ==> e.node.kids[i].kids[0..] == e.node.kids[i].kids;
  }

  lemma {:induction false} Pushed(below: seq<Entry>, up: Entry, down: Entry)
    requires AllReady(below) && Ready(up) && Ready(down)
    ensures var st := below + [up, down];
      && AllReady(st)
      && Rest(st) == RestOf(down) + RestOf(up) + Rest(below)
      && WorkOf(st) == Work(down) + Work(up) + WorkOf(below)
  {
    hide RestOf, Work, Ready;
    var st := below + [up, down];
    assert st[..|st| - 1] == below + [up];
    assert (below + [up])[..|below|] == below;
  }

  lemma {:induction false} TiedTwo(s: Shape, stack: seq<Frame>, plan: seq<Entry>, f: Frame, e: Entry, g: Frame, d: Entry)
    requires Tied(s, stack, plan) && TiedOne(s, f, e) && TiedOne(s, g, d)
    ensures Tied(s, stack + [f, g], plan + [e, d])
  {
  }

  lemma {:induction false} TiedPop(s: Shape, stack: seq<Frame>, plan: seq<Entry>)
    requires Tied(s, stack, plan) && stack != []
    ensures |plan| == |stack| && Tied(s, stack[..|stack| - 1], plan[..|stack| - 1]) && TiedOne(s, stack[|stack| - 1], plan[|stack| - 1])
  {
  }

  lemma {:induction false} ReadyPop(plan: seq<Entry>)
    requires AllReady(plan) && plan != []
    ensures var below, top := plan[..|plan| - 1], plan[|plan| - 1];
      AllReady(below) && Ready(top) && Rest(plan) == RestOf(top) + Rest(below) && WorkOf(plan) == Work(top) + WorkOf(below)
  {
  }

  /** A finished node has nothing left. */
  lemma {:induction false} NoRest(e: Entry)
    requires Ready(e) && e.node.Inner? && SameRest(e, BRANCH_FACTOR)
    ensures RestOf(e) == [] && Work(e) > 0
  {
  }

  lemma {:induction false} LeafRest(e: Entry)
    requires Ready(e) && e.node.Leaf?
    ensures RestOf(e) == [e.node.item] && Work(e) > 0
  {
  }

  lemma {:induction false} RootReady(kind: Kind, m: Contents)
    ensures var e := Entry(CanonRoot(kind, m), 0, 0);
      Ready(e) && AllReady([e]) && Rest([e]) == Leaves(CanonRoot(kind, m))
  {
    var root := CanonRoot(kind, m);
    var plan := [Entry(root, 0, 0)];
    RootSound(kind, m);
    KidsAboveLimit(kind, m, 0);
    assert root.kids[0..] == root.kids;
    assert plan[..0] == [] && Rest([]) == [];
    assert Rest(plan) == RestOf(plan[0]) + [];
  }

  class Iterator {
    const sm: SHAMap
    var stack: seq<Frame>
    var current: Option<Item>
    var err: bool
    ghost var plan: seq<Entry>

    /** The frames are nodes of the map, each to be visited from some branch on. */
    ghost predicate Valid()
      reads this, sm, sm.family, Foot(sm.shape)
    {
      sm.Valid() && Tied(sm.shape, stack, plan) && AllReady(plan)
    }

    /** The items still to be delivered. */
    ghost function Remaining(): seq<Item>
      requires AllReady(plan)
      reads this
    {
      Rest(plan)
    }

    constructor Begin(sm: SHAMap)
      requires sm.Valid()
      ensures this.sm == sm && Valid() && !err && current == None
      ensures Remaining() == Leaves(CanonRoot(LeafKind(sm.mapType), sm.contents))
    {
      hide SHAMap.HeapOk, Holds, CanonRoot, Rest, Leaves, AllReady;
      ValidParts(sm);
      RootHeld(sm);
      RootReady(LeafKind(sm.mapType), sm.contents);
      FootAllocated(sm.shape);
      this.sm, stack, current, err := sm, [Frame(InnerRef(sm.root), 0, 0)], None, false;
      plan := [Entry(TreeOf(sm.shape), 0, 0)];
    }

    /** A positioned iterator, as the searches return it. */
    constructor At(sm: SHAMap, stack: seq<Frame>, current: Option<Item>, err: bool, ghost plan: seq<Entry>)
      ensures this.sm == sm && this.stack == stack && this.current == current && this.err == err && this.plan == plan
    {
      this.sm, this.stack, this.current, this.err, this.plan := sm, stack, current, err, plan;
    }

    /** One step at the inner node on top of the stack: down to its next child, or off it. */
    method Visit() returns (ok: bool)
      requires Valid() && stack != [] && stack[|stack| - 1].node.InnerRef? && !err
      modifies this, sm`shape, Inners(sm.shape)`children
      ensures Valid() && Remaining() == old(Remaining()) && current == old(current)
      ensures if ok then !err && WorkOf(plan) < old(WorkOf(plan)) else err && MayFail(sm.family)
      ensures forall o :: o in Foot(sm.shape) ==> o in old(Foot(sm.shape)) || fresh(o)
    {
      hide SHAMap.Valid, SHAMap.HeapOk, Holds, Refines, Foot, Ready, AllReady, Rest, RestOf, Work, WorkOf, Tied, SameRest;
      ghost var s := sm.shape;
      ValidParts(sm);
      TiedPop(s, stack, plan);
      ReadyPop(plan);
      var top, n := stack[|stack| - 1], stack[|stack| - 1].node.inner;
      ghost var below, e := plan[..|plan| - 1], plan[|plan| - 1];
      HeldNode(s, top.node, e.node);
      ReadyInner(e);
      HeldIn(sm, n, e.node);
      FootAllocated(s);
      var i, child;
      ok, i, child := NextChild(sm, n, top.branch, e);
      FootTypes(sm.shape);
      if !ok {
        StillTied(s, sm.shape, stack, plan);
        err := true;
        return;
      }
      StillTied(s, sm.shape, stack[..|stack| - 1], below);
      if i < BRANCH_FACTOR {
        // The child's identifier exists: an inner node is above the greatest depth.
        assert top.depth < MAX_DEPTH;
        ghost var up, down := e.(branch := i + 1), Entry(e.node.kids[i], e.depth + 1, 0);
        Descent(e, i);
        Pushed(below, up, down);
        StillHolds(s, sm.shape, top.node, e.node);
        TiedTwo(sm.shape, stack[..|stack| - 1], below, top.(branch := i + 1), up, Frame(child, top.depth + 1, 0), down);
        stack := stack[..|stack| - 1] + [top.(branch := i + 1), Frame(child, top.depth + 1, 0)];
        plan := below + [up, down];
      } else {
        NoRest(e);
        stack, plan := stack[..|stack| - 1], below;
      }
    }

    /** Moves to the next item, if there is one. A node that cannot be loaded ends the iteration for good. */
    method Next() returns (ok: bool)
      requires Valid()
      modifies this, sm`shape, Inners(sm.shape)`children
      ensures Valid() && (err && !old(err) ==> MayFail(sm.family))
      ensures ok ==> !err && old(Remaining()) != [] && current == Some(old(Remaining())[0]) && Remaining() == old(Remaining())[1..]
      ensures !ok ==> Remaining() == old(Remaining()) && (if err then current == old(current) else current == None && Remaining() == [])
      ensures forall o :: o in Foot(sm.shape) ==> o in old(Foot(sm.shape)) || fresh(o)
    {
      hide SHAMap.Valid, Holds, Foot, AllReady, Rest, RestOf, Work, WorkOf, Tied;
      if err {
        return false;
      }
      while stack != []
        invariant Valid() && Remaining() == old(Remaining()) && !err && current == old(current)
        invariant forall o :: o in Foot(sm.shape) ==> o in old(Foot(sm.shape)) || fresh(o)
        decreases WorkOf(plan)
      {
        if stack[|stack| - 1].node.InnerRef? {
          ok := Visit();
          if !ok {
            return;
          }
        } else {
          TiedPop(sm.shape, stack, plan);
          ReadyPop(plan);
          HeldNode(sm.shape, stack[|stack| - 1].node, plan[|plan| - 1].node);
          LeafRest(plan[|plan| - 1]);
          FootTypes(sm.shape);
          current := Some(stack[|stack| - 1].node.leaf.item);
          stack, plan := stack[..|stack| - 1], plan[..|plan| - 1];
          return true;
        }
      }
      RestNone(sm.shape, stack, plan);
      FootTypes(sm.shape);
      current, ok := None, false;
    }
  }

  lemma {:induction false} RestNone(s: Shape, stack: seq<Frame>, plan: seq<Entry>)
    requires Tied(s, stack, plan) && stack == []
    ensures AllReady(plan) && Rest(plan) == []
  {
  }

  /** Begin and repeated Next: every item once, in strictly increasing key order, then the end; or some of them before a node cannot be loaded. */
  method Enumerate(sm: SHAMap) returns (ok: bool, out: seq<Item>)
    requires sm.Valid()
    modifies sm`shape, Inners(sm.shape)`children
    ensures sm.Valid() && Sorted(out) && (!ok ==> MayFail(sm.family))
    ensures forall it :: it in out ==> it.key in sm.contents && sm.contents[it.key] == it.data
    ensures ok ==> forall k :: k in sm.contents ==> Item(k, sm.contents[k]) in out
  {
    hide SHAMap.Valid, CanonRoot, Leaves, Rest, KeyLess, Sorted, Foot, AllReady, Tied;
    var iter := new Iterator.Begin(sm);
    ghost var all := iter.Remaining();
    out := [];
    var more := iter.Next();
    while more
      invariant iter.sm == sm && iter.Valid() && fresh(iter)
      invariant forall o :: o in Foot(sm.shape) ==> o in old(Foot(sm.shape)) || fresh(o)
      invariant if more then !iter.err && iter.current.Some? && out + [iter.current.value] + iter.Remaining() == all
                else out + iter.Remaining() == all && (if iter.err then MayFail(sm.family) else iter.Remaining() == [])
      decreases |iter.Remaining()|, more
    {
      out := out + [iter.current.value];
      more := iter.Next();
    }
    ok := !iter.err;
    Enumerated(LeafKind(sm.mapType), sm.contents, out, iter.Remaining());
  }

  lemma {:induction false} Enumerated(kind: Kind, m: Contents, out: seq<Item>, rest: seq<Item>)
    requires out + rest == Leaves(CanonRoot(kind, m))
    ensures Sorted(out) && forall it :: it in out ==> it.key in m && m[it.key] == it.data
    ensures rest == [] ==> forall k :: k in m ==> Item(k, m[k]) in out
  {
    hide CanonRoot, Leaves, KeyLess;
    var all := out + rest;
    RootSorted(kind, m);
    assert forall i :: 0 <= i < |out| ==> out[i] == all[i];
    forall it | it in out ensures it.key in m && m[it.key] == it.data {
      RootLeaves(kind, m, it);
    }
    forall k | k in m && rest == [] ensures Item(k, m[k]) in out {
      RootLeaves(kind, m, Item(k, m[k]));
    }
  }
}
