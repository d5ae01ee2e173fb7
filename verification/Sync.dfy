/** Synchronization on node objects. */
module Sync {
  import opened Bytes
  import opened Tree
  import opened Codec
  import opened Nodes
  import opened Shapes
  import opened Merkle
  import opened Insertion
  import opened Walking
  import opened SyncTree
  import opened LevelOrder
  import opened Unbacked

  ghost predicate Placed(s: Shape, n: InnerNode)
    reads Foot(s)
  {
    s.SInner? && s.node == n && Rep(Detached(), s) && Distinct(s)
  }

  /** A node that can be hung into a place naming the hash. */
  ghost predicate Placeable(k: Shape, r: NodeRef, hash: Hash)
    reads Foot(k)
  {
    r == RefOf(k) && !r.NoNode? && Rep(Detached(), k) && Distinct(k) && !TreeOf(k).Nil? && HashOf(TreeOf(k)) == hash
  }

  /** Received leaves are clean, and an inner node with a child at hand is dirty: hanging the child in has marked it. */
  ghost predicate AsReceived(s: Shape)
    reads Foot(s)
    decreases s
  {
    match s
    case SLeaf(l) => !l.dirty
    case SInner(n, kids) =>
      && (forall i :: 0 <= i < |kids| ==> AsReceived(kids[i]))
      && ((exists i :: 0 <= i < |kids| && RefOf(kids[i]) != NoNode) ==> n.dirty)
    case _ => true
  }

  /** The same of a run that may have begun otherwise. */
  ghost predicate Unmarred(received: bool, s: Shape)
    reads Foot(s)
  {
    received ==> AsReceived(s)
  }

  lemma {:induction false} ReceivedWith(received: bool, n: InnerNode, kids: seq<Shape>, i: nat, x: Shape)
    requires i < |kids| && Unmarred(received, x) && (received ==> n.dirty) && forall j :: 0 <= j < |kids| && j != i ==> Unmarred(received, kids[j])
    ensures Unmarred(received, SInner(n, kids[i := x]))
  {
  }

  lemma {:induction false} ReceivedKids(received: bool, n: InnerNode, kids: seq<Shape>)
    requires Unmarred(received, SInner(n, kids))
    ensures forall j :: 0 <= j < |kids| ==> Unmarred(received, kids[j])
    ensures forall j :: 0 <= j < |kids| && RefOf(kids[j]) != NoNode && received ==> n.dirty
  {
  }

  lemma {:induction false} KidHere(s: Shape, n: InnerNode, i: nat)
    requires Placed(s, n) && i < BRANCH_FACTOR
    ensures n.Sized() && |s.kids| == BRANCH_FACTOR && n.children[i] == RefOf(s.kids[i])
    ensures n.hashes[i] == HashOf(Trees(s.kids)[i]) && n.isBranch[i] == !Trees(s.kids)[i].Nil?
    ensures s.kids[i].SInner? <==> n.children[i].InnerRef?
    ensures Trees(s.kids)[i].Inner? <==> s.kids[i].SInner?
    ensures s.kids[i].SInner? ==> Placed(s.kids[i], s.kids[i].node)
    ensures Foot(s.kids[i]) <= Foot(s) && n in Foot(s) && n !in Foot(s.kids[i])
    ensures Local(Detached(), n, s.kids)
    ensures forall j :: 0 <= j < BRANCH_FACTOR && j != i ==>
      Rep(Detached(), s.kids[j]) && Foot(s.kids[j]) !! Foot(s.kids[i]) && n !in Foot(s.kids[j]) && Foot(s.kids[j]) <= Foot(s)
  {
    RepNil(Detached(), s.kids[i]);
    assert Rep(Detached(), s.kids[i]);
  }

  lemma {:induction false} HungIn(s: Shape, n: InnerNode, i: nat, x: Shape, k: Shape)
    requires s.SInner? && s.node == n && i < |s.kids| && Distinct(s) && Distinct(x)
    requires Foot(k) !! Foot(s) && Foot(x) <= Foot(s.kids[i]) + Foot(k)
    ensures var y := SInner(n, s.kids[i := x]); Distinct(y) && Foot(y) <= Foot(s) + Foot(k)
    ensures Trees(s.kids[i := x]) == Trees(s.kids)[i := TreeOf(x)]
  {
    hide Foot;
    FootUpdate(n, s.kids, i, s.kids[i]);
    assert s.kids[i := s.kids[i]] == s.kids;
    FootUpdate(n, s.kids, i, x);
    SiblingsApart(s, i);
    DistinctUpdate(n, s.kids, i, x);
    TreesUpdate(s.kids, i, x);
  }

  lemma {:induction false} SiblingsApart(s: Shape, i: nat)
    requires s.SInner? && i < |s.kids| && Distinct(s)
    ensures Foot(s.kids[i]) !! Siblings(s.kids, i) + {s.node}
  {
    hide Foot;
  }

  lemma {:induction false} SwappedLocal(n: InnerNode, kids: seq<Shape>, i: nat, x: Shape)
    requires i < |kids| && Local(Detached(), n, kids) && RefOf(x) == RefOf(kids[i]) && x.SInner? && kids[i].SInner?
    requires HashOf(TreeOf(x)) == HashOf(TreeOf(kids[i]))
    ensures Local(Detached(), n, kids[i := x])
  {
    hide HashOf;
    TreesUpdate(kids, i, x);
    SwappedHash(Trees(kids), Trees(kids[i := x]), i);
  }

  lemma {:induction false} FilledUnfold(kids: seq<Tree>, i: nat, h: Hash, node: Tree, d: nat)
    requires i < |kids|
    ensures FilledFrom(kids, |kids|, h, node, d).None?
    ensures FilledFrom(kids, i, h, node, d) ==
      if kids[i].Nil? then FilledFrom(kids, i + 1, h, node, d)
      else if HashOf(kids[i]) == h then Some(kids[i := node])
      else if Filled(kids[i], h, node, d + 1).Some? then Some(kids[i := Filled(kids[i], h, node, d + 1).value])
      else FilledFrom(kids, i + 1, h, node, d)
  {
  }

  /** A child replaced below leaves its parent as it was. */
  lemma {:induction false} Rejoin(n: InnerNode, s: Shape, i: nat, x: Shape, k: Shape)
    requires s.SInner? && s.node == n && Distinct(s) && i < BRANCH_FACTOR == |s.kids| && Local(Detached(), n, s.kids)
    requires forall j :: 0 <= j < BRANCH_FACTOR && j != i ==> Rep(Detached(), s.kids[j])
    requires s.kids[i].SInner? && Placed(x, s.kids[i].node) && HashOf(TreeOf(x)) == HashOf(TreeOf(s.kids[i]))
    requires Foot(k) !! Foot(s) && Foot(x) <= Foot(s.kids[i]) + Foot(k)
    ensures var y := SInner(n, s.kids[i := x]);
      Placed(y, n) && Foot(y) <= Foot(s) + Foot(k) && TreeOf(y) == Inner(Trees(s.kids)[i := TreeOf(x)])
  {
    hide Local, Distinct, HashOf, Foot, Feet;
    SwappedLocal(n, s.kids, i, x);
    HungIn(s, n, i, x, k);
  }

  /** Hangs a node into the first place that names its hash. */
  method InsertNode(n: InnerNode, target: Hash, r: NodeRef, depth: nat, ghost s: Shape, ghost k: Shape, ghost received: bool)
    returns (ok: bool, ghost s': Shape)
    requires Placed(s, n) && Placeable(k, r, target) && Foot(k) !! Foot(s) && Unmarred(received, s) && Unmarred(received, k)
    modifies Foot(s)
    ensures Placed(s', n) && Foot(s') <= Foot(s) + Foot(k)
    ensures Filled(TreeOf(s), target, TreeOf(k), depth) == if ok then Some(TreeOf(s')) else None
    ensures !ok ==> s' == s && Placeable(k, r, target)
    ensures Unmarred(received, s') && (!ok ==> Unmarred(received, k))
    decreases s
  {
    hide Rep, Distinct, Local, Foot, FilledFrom, HashOf, TreeOf, Unmarred, Trees;
    ok, s' := false, s;
    InnerTree(s);
    if depth > MAX_DEPTH {
      return;
    }
    FootAllocated(s);
    FootAllocated(k);
    KidHere(s, n, 0);
    ghost var ts, node := Trees(s.kids), TreeOf(k);
    FilledUnfold(ts, 0, target, node, depth);
    for i := 0 to BRANCH_FACTOR
      invariant Placed(s, n) && Placeable(k, r, target) && !ok && s' == s
      invariant Unmarred(received, s) && Unmarred(received, k)
      invariant FilledFrom(ts, 0, target, node, depth) == FilledFrom(ts, i, target, node, depth)
    {
      KidHere(s, n, i);
      ReceivedKids(received, n, s.kids);
      FilledUnfold(ts, i, target, node, depth);
      if n.isBranch[i] {
        if n.hashes[i] == target {
          HungIn(s, n, i, k, k);
          s' := SInner(n, s.kids[i := k]);
          SetKid(n, i, r, Detached(), s.kids, k);
          ReceivedWith(received, n, s.kids, i, k);
          ok := true;
          InnerTree(s');
          return;
        }
        var child := n.children[i];
        if child.InnerRef? {
          ghost var x;
          ok, x := InsertNode(child.inner, target, r, depth + 1, s.kids[i], k, received);
          if ok {
            FilledKeepsHash(ts[i], target, node, depth + 1);
          }
          Rejoin(n, s, i, x, k);
          ReceivedWith(received, n, s.kids, i, x);
          if ok {
            s' := SInner(n, s.kids[i := x]);
            return;
          }
          assert s.kids[i := s.kids[i]] == s.kids;
        }
      }
    }
  }

  // ---------- looking for what is missing ----------

  datatype WorkItem = WorkItem(node: NodeRef, nodeHash: Hash, depth: nat)

  ghost predicate QueueOk(queue: seq<WorkItem>, qs: seq<Shape>)
    reads Feet(qs)
  {
    && |queue| == |qs|
    && forall i :: 0 <= i < |qs| ==>
         !queue[i].node.NoNode? && queue[i].node == RefOf(qs[i]) && Rep(Detached(), qs[i]) && queue[i].nodeHash == HashOf(TreeOf(qs[i]))
  }

  /** The queued nodes as spots of the tree. */
  ghost function SpotsOf(queue: seq<WorkItem>, qs: seq<Shape>): (spots: seq<Spot>)
    requires |queue| == |qs|
    ensures |spots| == |queue| && forall i :: 0 <= i < |queue| ==> spots[i] == Spot(TreeOf(qs[i]), queue[i].depth)
  {
    seq(|queue|, i requires 0 <= i < |queue| => Spot(TreeOf(qs[i]), queue[i].depth))
  }

  ghost function QueueSize(qs: seq<Shape>): nat {
    if qs == [] then 0 else Loaded(TreeOf(qs[0])) + QueueSize(qs[1..])
  }

  lemma {:induction false} SizeAppended(qs: seq<Shape>, q: Shape)
    ensures QueueSize(qs + [q]) == QueueSize(qs) + Loaded(TreeOf(q))
  {
    if qs != [] {
      assert (qs + [q])[1..] == qs[1..] + [q];
      SizeAppended(qs[1..], q);
    }
  }

  lemma {:induction false} QueueOkAppend(queue: seq<WorkItem>, qs: seq<Shape>, w: WorkItem, q: Shape)
    requires QueueOk(queue, qs) && !w.node.NoNode? && w.node == RefOf(q) && Rep(Detached(), q) && w.nodeHash == HashOf(TreeOf(q))
    ensures QueueOk(queue + [w], qs + [q])
  {
  }

  /** What the first i branches of a node have added. */
  ghost predicate Scanned(q: Spot, i: nat, fetch: Hash -> bool, missing: seq<MissingNode>, missing': seq<MissingNode>, spots: seq<Spot>, spots': seq<Spot>) {
    && q.tree.Inner? && i <= |q.tree.kids|
    && missing' + Filtered(DirectFrom(q, i), fetch) == missing + Filtered(DirectFrom(q, 0), fetch)
    && spots' + BelowFrom(q, i) == spots + BelowFrom(q, 0)
  }

  lemma {:induction false} ScannedOne(q: Spot, i: nat, fetch: Hash -> bool, missing: seq<MissingNode>, missing': seq<MissingNode>, spots: seq<Spot>, spots': seq<Spot>)
    requires Scanned(q, i, fetch, missing, missing', spots, spots') && i < |q.tree.kids|
    ensures Scanned(q, i + 1, fetch, missing, missing' + Filtered(DirectAt(q, i), fetch), spots, spots' + BelowAt(q, i))
  {
    hide Filtered, DirectAt, BelowAt;
    var found := Filtered(DirectAt(q, i), fetch);
    FilteredAppend(DirectAt(q, i), DirectFrom(q, i + 1), fetch);
    BranchSplit(q, i);
    assert missing' + (found + Filtered(DirectFrom(q, i + 1), fetch)) == missing' + found + Filtered(DirectFrom(q, i + 1), fetch);
    assert spots' + (BelowAt(q, i) + BelowFrom(q, i + 1)) == spots' + BelowAt(q, i) + BelowFrom(q, i + 1);
  }

  lemma {:induction false} BranchSplit(q: Spot, i: nat)
    requires q.tree.Inner? && i < |q.tree.kids|
    ensures DirectFrom(q, i) == DirectAt(q, i) + DirectFrom(q, i + 1) && BelowFrom(q, i) == BelowAt(q, i) + BelowFrom(q, i + 1)
  {
  }

  /** The branches of one node: what is missing is noted, what is there is queued, until the limit is reached. */
  method ScanBranches(item: WorkItem, maxNodes: int, fetch: Hash -> bool, queue: seq<WorkItem>, missing: seq<MissingNode>, ghost s: Shape, ghost qs: seq<Shape>)
    returns (queue': seq<WorkItem>, missing': seq<MissingNode>, ghost qs': seq<Shape>)
    requires item.node.InnerRef? && item.node == RefOf(s) && Rep(Detached(), s) && item.nodeHash == HashOf(TreeOf(s))
    requires |queue| == |qs| && QueueOk(queue, qs) && (maxNodes > 0 ==> |missing| < maxNodes)
    ensures |queue'| == |qs'| && QueueOk(queue', qs') && QueueSize(qs') < QueueSize(qs) + Loaded(TreeOf(s))
    ensures maxNodes > 0 ==> |missing'| <= maxNodes
    ensures var q := Spot(TreeOf(s), item.depth); var found := DirectOf(q);
      && missing' <= missing + Filtered(found, fetch)
      && ((maxNodes > 0 && |missing'| == maxNodes)
          || (missing' == missing + Filtered(found, fetch) && SpotsOf(queue', qs') == SpotsOf(queue, qs) + BelowOf(q)))
  {
    hide Rep, QueueOk, QueueSize, DirectFrom, DirectAt, BelowFrom, BelowAt, Filtered, Loaded, LoadedOf, HashOf, TreeOf;
    var n := item.node.inner;
    ghost var ts, q := Trees(s.kids), Spot(TreeOf(s), item.depth);
    queue', missing', qs' := queue, missing, qs;
    ScanStart(s, item.depth);
    FootAllocated(s);
    for i := 0 to BRANCH_FACTOR
      modifies {}
      invariant |queue'| == |qs'| && QueueOk(queue', qs') && QueueSize(qs') + LoadedOf(ts[i..]) == QueueSize(qs) + LoadedOf(ts)
      invariant Scanned(q, i, fetch, missing, missing', SpotsOf(queue, qs), SpotsOf(queue', qs'))
      invariant maxNodes > 0 ==> |missing'| < maxNodes
      invariant Rep(Detached(), s)
    {
      ScanKid(s, n, i, item.depth);
      ScannedOne(q, i, fetch, missing, missing', SpotsOf(queue, qs), SpotsOf(queue', qs'));
      OneFiltered(DirectAt(q, i), fetch);
      if n.isBranch[i] {
        var child := n.children[i];
        if child.NoNode? {
          if fetch(n.hashes[i]) {
            missing' := missing' + [MissingNode(n.hashes[i], item.depth + 1, item.nodeHash, i)];
            if maxNodes > 0 && |missing'| >= maxNodes {
              return;
            }
          }
        } else {
          ghost var w := WorkItem(child, n.hashes[i], item.depth + 1);
          SizeAppended(qs', s.kids[i]);
          QueueOkAppend(queue', qs', w, s.kids[i]);
          queue', qs' := queue' + [WorkItem(child, n.hashes[i], item.depth + 1)], qs' + [s.kids[i]];
        }
      }
    }
    ScanEnd(q, fetch, ts);
  }

  lemma {:induction false} OneFiltered(xs: seq<MissingNode>, fetch: Hash -> bool)
    requires |xs| <= 1
    ensures Filtered(xs, fetch) == if xs != [] && fetch(xs[0].hash) then xs else []
  {
    if xs != [] { assert xs[1..] == [] && xs == [xs[0]]; }
  }

  lemma {:induction false} ScanStart(s: Shape, d: nat)
    requires s.SInner? && Rep(Detached(), s)
    ensures |s.kids| == BRANCH_FACTOR && Trees(s.kids)[0..] == Trees(s.kids) && TreeOf(s) == Inner(Trees(s.kids))
    ensures Loaded(TreeOf(s)) == 1 + LoadedOf(Trees(s.kids))
  {
  }

  lemma {:induction false} ScanEnd(q: Spot, fetch: Hash -> bool, ts: seq<Tree>)
    requires q.tree == Inner(ts)
    ensures Filtered(DirectFrom(q, |ts|), fetch) == [] && BelowFrom(q, |ts|) == [] && LoadedOf(ts[|ts|..]) == 0
  {
  }

  lemma {:induction false} ScanKid(s: Shape, n: InnerNode, i: nat, d: nat)
    requires s.SInner? && s.node == n && Rep(Detached(), s) && i < BRANCH_FACTOR
    ensures n.Sized() && |s.kids| == BRANCH_FACTOR && n.children[i] == RefOf(s.kids[i]) && Rep(Detached(), s.kids[i])
    ensures var ts, q := Trees(s.kids), Spot(TreeOf(s), d);
      && n.hashes[i] == HashOf(TreeOf(s.kids[i])) && q.tree == Inner(ts)
      && LoadedOf(ts[i..]) == Loaded(ts[i]) + LoadedOf(ts[i + 1..]) && ts[i] == TreeOf(s.kids[i])
      && (n.children[i].NoNode? ==> Loaded(ts[i]) == 0 && BelowAt(q, i) == [])
      && DirectAt(q, i) == (if n.isBranch[i] && n.children[i].NoNode? then [MissingNode(n.hashes[i], d + 1, HashOf(TreeOf(s)), i)] else [])
      && (!n.isBranch[i] ==> n.children[i].NoNode?)
      && (!n.children[i].NoNode? ==> BelowAt(q, i) == [Spot(ts[i], d + 1)])
  {
    var ts := Trees(s.kids);
    assert ts[i..][1..] == ts[i + 1..];
    assert Rep(Detached(), s.kids[i]);
  }

  /** Where the search stands: what is noted begins the list of all, and the queue has the rest unless the limit is met. */
  ghost predicate Searching(all: seq<MissingNode>, maxNodes: int, fetch: Hash -> bool, missing: seq<MissingNode>, level: seq<Spot>, next: seq<Spot>) {
    && missing <= all && (maxNodes > 0 ==> |missing| <= maxNodes)
    && ((maxNodes > 0 && |missing| == maxNodes) || missing + Filtered(Coming(level, next), fetch) == all)
  }

  lemma {:induction false} SearchStart(t: Tree, maxNodes: int, fetch: Hash -> bool)
    ensures Searching(Filtered(Levels([Spot(t, 0)]), fetch), maxNodes, fetch, [], [Spot(t, 0)], [])
  {
    hide Levels, Coming;
    ComingTurn([Spot(t, 0)]);
  }

  lemma {:induction false} SearchTurn(all: seq<MissingNode>, maxNodes: int, fetch: Hash -> bool, missing: seq<MissingNode>, next: seq<Spot>)
    requires Searching(all, maxNodes, fetch, missing, [], next)
    ensures Searching(all, maxNodes, fetch, missing, next, [])
  {
    hide Levels, Coming;
    ComingTurn(next);
  }

  lemma {:induction false} SearchStep(all: seq<MissingNode>, maxNodes: int, fetch: Hash -> bool, missing: seq<MissingNode>, missing': seq<MissingNode>,
                                      level: seq<Spot>, next: seq<Spot>)
    requires Searching(all, maxNodes, fetch, missing, level, next) && level != [] && (maxNodes > 0 ==> |missing| < maxNodes)
    requires var found := Filtered(DirectOf(level[0]), fetch);
      missing' <= missing + found && (maxNodes > 0 ==> |missing'| <= maxNodes) && ((maxNodes > 0 && |missing'| == maxNodes) || missing' == missing + found)
    ensures Searching(all, maxNodes, fetch, missing', level[1..], next + BelowOf(level[0]))
  {
    hide Levels, Coming, Filtered, DirectOf, BelowOf;
    var found, later := Filtered(DirectOf(level[0]), fetch), Filtered(Coming(level[1..], next + BelowOf(level[0])), fetch);
    ComingStep(level, next);
    FilteredAppend(DirectOf(level[0]), Coming(level[1..], next + BelowOf(level[0])), fetch);
    assert missing + (found + later) == missing + found + later;
    assert missing + found <= all;
  }

  lemma {:induction false} SearchEnd(all: seq<MissingNode>, maxNodes: int, fetch: Hash -> bool, missing: seq<MissingNode>, level: seq<Spot>, next: seq<Spot>)
    requires Searching(all, maxNodes, fetch, missing, level, next)
    requires (level == [] && next == []) || (maxNodes > 0 && |missing| >= maxNodes)
    ensures missing == Limited(all, maxNodes)
  {
    if level == [] && next == [] {
      ComingTurn([]);
      assert missing + [] == missing;
    }
  }

  /** Breadth first from the root: the open places level by level, as far as they are wanted. */
  method FindMissing(root: InnerNode, maxNodes: int, fetch: Hash -> bool, ghost s: Shape) returns (missing: seq<MissingNode>)
    requires Placed(s, root)
    ensures missing == Report(TreeOf(s), fetch, maxNodes)
  {
    hide Rep, QueueOk, QueueSize, Searching, Levels, Filtered, DirectOf, BelowOf, Loaded, HashOf, TreeOf;
    missing := [];
    RootItem(s, root);
    var queue := [WorkItem(InnerRef(root), root.hash, 0)];
    ghost var all := Filtered(Levels([Spot(TreeOf(s), 0)]), fetch);
    ghost var qs, level, next := [s], [Spot(TreeOf(s), 0)], [];
    SearchStart(TreeOf(s), maxNodes, fetch);
    FootAllocated(s);
    while queue != []
      modifies {}
      invariant |queue| == |qs| && QueueOk(queue, qs)
      invariant Searching(all, maxNodes, fetch, missing, level, next)
      invariant (maxNodes > 0 && |missing| == maxNodes) || SpotsOf(queue, qs) == level + next
      decreases QueueSize(qs), |queue|
    {
      if maxNodes > 0 && |missing| >= maxNodes {
        break;
      }
      if level == [] {
        SearchTurn(all, maxNodes, fetch, missing, next);
        level, next := next, [];
      }
      var item := queue[0];
      ghost var q, was := qs[0], missing;
      QueuePop(queue, qs);
      assert level[0] == Spot(TreeOf(q), item.depth) && SpotsOf(queue[1..], qs[1..]) == level[1..] + next;
      queue, qs := queue[1..], qs[1..];
      ghost var rest := SpotsOf(queue, qs);
      if item.node.InnerRef? {
        queue, missing, qs := ScanBranches(item, maxNodes, fetch, queue, missing, q, qs);
      } else {
        NotScanned(level[0], fetch);
        assert missing == missing + [] && rest == rest + [];
      }
      SearchStep(all, maxNodes, fetch, was, missing, level, next);
      assert rest + BelowOf(level[0]) == level[1..] + (next + BelowOf(level[0]));
      level, next := level[1..], next + BelowOf(level[0]);
    }
    SearchEnd(all, maxNodes, fetch, missing, level, next);
  }

  lemma {:induction false} NotScanned(q: Spot, fetch: Hash -> bool)
    requires !q.tree.Inner?
    ensures Filtered(DirectOf(q), fetch) == [] && BelowOf(q) == []
  {
  }

  lemma {:induction false} RootItem(s: Shape, root: InnerNode)
    requires Placed(s, root)
    ensures QueueOk([WorkItem(InnerRef(root), root.hash, 0)], [s]) && TreeOf(s).Inner?
  {
  }

  lemma {:induction false} QueuePop(queue: seq<WorkItem>, qs: seq<Shape>)
    requires QueueOk(queue, qs) && queue != []
    ensures QueueOk(queue[1..], qs[1..]) && QueueSize(qs) == Loaded(TreeOf(qs[0])) + QueueSize(qs[1..])
    ensures queue[0].node == RefOf(qs[0]) && Rep(Detached(), qs[0]) && queue[0].nodeHash == HashOf(TreeOf(qs[0]))
    ensures queue[0].node.InnerRef? <==> TreeOf(qs[0]).Inner?
  {
  }

  // ---------- nodes received ----------

  lemma {:induction false} Received(r: NodeRef, data: bytes)
    requires ParseWire(data).Some? && Parsed(r, ParseWire(data).value)
    ensures var t := ParseWire(data).value; ((t.Leaf? && r.LeafRef?) || (t.Inner? && r.InnerRef?)) && RefHash(r) == HashOf(t)
    ensures var t := ParseWire(data).value; var k := LoadedShape(r, t);
      && Placeable(k, r, HashOf(t)) && TreeOf(k) == t && Wide(t) && Bound(t)
      && Foot(k) == (if r.LeafRef? then {r.leaf} else {r.inner})
      && (r.InnerRef? ==> Placed(k, r.inner)) && AsReceived(k)
  {
    hide ParseWire;
    WireShape(data);
    var t := ParseWire(data).value;
    if t.Inner? { ReceivedInner(r.inner, t.kids); }
  }

  lemma {:induction false} ReceivedInner(n: InnerNode, kids: seq<Tree>)
    requires Parsed(InnerRef(n), Inner(kids)) && |kids| == BRANCH_FACTOR && NilsAndStubs(kids)
    ensures var k := SInner(n, StubsOf(kids));
      Placed(k, n) && AsReceived(k) && TreeOf(k) == Inner(kids) && Foot(k) == {n} && n.hash == HashOf(Inner(kids)) && Wide(Inner(kids)) && Bound(Inner(kids))
  {
    var ks := StubsOf(kids);
    assert Trees(ks) == kids;
    assert forall i :: 0 <= i < |ks| ==> Foot(ks[i]) == {} && Rep(Detached(), ks[i]);
    assert Local(Detached(), n, ks);
  }
}
