/** Searching for the entry next to a key. */
module Search {
  import opened Bytes
  import opened Tree
  import opened Storage
  import opened Nodes
  import opened Shapes
  import opened Canonical
  import opened LeafOrder
  import opened KeyOrder
  import opened Nearness
  import opened Walking
  import opened SyncTree
  import opened ShaMap
  import opened Loading
  import opened Iteration
  import opened Seeking

  // ---------- what can be reached ----------

  lemma {:induction false} ViewPart(env: Env, s: Shape)
    requires Rep(env, s) && Whole(TreeOf(s))
    ensures Part(View(env, s), TreeOf(s))
    decreases s
  {
    match s
    case SStub(t) => VisiblePart(env, t);
    case SInner(_, kids) =>
      forall i | 0 <= i < |kids| ensures Part(View(env, kids[i]), TreeOf(kids[i])) {
        assert Whole(Trees(kids)[i]);
        ViewPart(env, kids[i]);
      }
    case _ =>
  }

  lemma {:induction false} VisiblePart(env: Env, t: Tree)
    requires Whole(t)
    ensures Part(Visible(env, t), t)
  {
    if t.Inner? {
      forall i | 0 <= i < |t.kids| ensures Part(Visible(env, t.kids[i]), t.kids[i]) {
        VisiblePart(env, t.kids[i]);
      }
    }
  }

  /** Without gaps everything can be reached. */
  lemma {:induction false} ViewWhole(env: Env, s: Shape)
    requires Rep(env, s) && Whole(TreeOf(s)) && (env.backed ==> env.trust == Complete)
    ensures View(env, s) == TreeOf(s)
    decreases s
  {
    match s
    case SStub(t) => if env.backed { AllVisible(env, t); }
    case SInner(_, kids) =>
      forall i | 0 <= i < |kids| ensures View(env, kids[i]) == TreeOf(kids[i]) {
        assert Whole(Trees(kids)[i]);
        ViewWhole(env, kids[i]);
      }
      assert Views(env, kids) == Trees(kids);
    case _ =>
  }

  lemma {:induction false} NoneLost(t: Tree, key: Key, d: nat)
    requires Whole(t)
    ensures !Lost(t, key, d)
    decreases t
  {
    if t.Inner? && |t.kids| == BRANCH_FACTOR { NoneLost(t.kids[SelectBranch(key, d)], key, d + 1); }
  }

  lemma {:induction false} SeesPart(env: Env, s: Shape, r: NodeRef, t: Tree, v: Tree)
    requires Rep(env, s) && Sees(env, s, r, t, v) && Whole(t)
    ensures Part(v, t) && (r.LeafRef? ==> v == t == Leaf(r.leaf.kind, r.leaf.item)) && (r.InnerRef? ==> v.Inner? && t.Inner?)
    decreases s
  {
    hide Part;
    if RefOf(s) == r && TreeOf(s) == t && View(env, s) == v {
      ViewPart(env, s);
    } else {
      var i :| 0 <= i < |s.kids| && Sees(env, s.kids[i], r, t, v);
      SeesPart(env, s.kids[i], r, t, v);
    }
  }

  // ---------- the way to a key ----------

  /** What can be reached at depth n on the way to id. */
  ghost function Along(v: Tree, id: Key, n: nat): Tree {
    if n == 0 then v else
    var w := Along(v, id, n - 1);
    if w.Inner? && |w.kids| == BRANCH_FACTOR then w.kids[SelectBranch(id, n - 1)] else Nil
  }

  /** What is found on the way is what the whole search finds. */
  lemma {:induction false} SeekLift(up: bool, v: Tree, id: Key, n: nat)
    requires Seek(up, Along(v, id, n), id, n) != Nothing
    ensures Seek(up, v, id, 0) == Seek(up, Along(v, id, n), id, n)
  {
    hide Scan, Beyond;
    if n > 0 { SeekLift(up, v, id, n - 1); }
  }

  /** The canonical node at its depth on the way to id. */
  ghost predicate Stage(kind: Kind, m: Contents, id: Key, e: Entry) {
    e.depth <= MAX_DEPTH && e.node == NodeAt(kind, m, id, e.depth) && !e.node.Nil? && e.branch == -1
  }

  /** The stages of a walk, one for each depth from the root on; the node where it stops may be there twice. */
  ghost predicate OnWay(kind: Kind, m: Contents, id: Key, way: seq<Entry>) {
    && (forall i :: 0 <= i < |way| ==> Stage(kind, m, id, way[i]))
    && (forall i :: 0 <= i < |way| - 1 ==> way[i].depth == i && way[i].node.Inner?)
    && (way != [] ==> var last := way[|way| - 1];
          last.depth == |way| - 1 || (last.depth == |way| - 2 && last.node.Inner? && Halted(kind, m, id, last)))
  }

  /** Nothing is in the branch that id would take. */
  ghost predicate Halted(kind: Kind, m: Contents, id: Key, e: Entry) {
    e.node.Inner? ==> e.depth < MAX_DEPTH && NodeAt(kind, m, id, e.depth + 1).Nil?
  }

  ghost predicate SeenOne(env: Env, s: Shape, v: Tree, id: Key, f: Frame, e: Entry) {
    Sees(env, s, f.node, e.node, Along(v, id, e.depth)) && f.depth == e.depth && f.branch == e.branch
  }

  /** The frames are the nodes of the stages, and each shows what can be reached below it. */
  ghost predicate Seen(env: Env, s: Shape, v: Tree, id: Key, stack: seq<Frame>, way: seq<Entry>) {
    |way| == |stack| && forall i :: 0 <= i < |stack| ==> SeenOne(env, s, v, id, stack[i], way[i])
  }

  lemma {:induction false} StillSeen(env: Env, s: Shape, s': Shape, v: Tree, id: Key, stack: seq<Frame>, way: seq<Entry>)
    requires Keeps(env, s, s') && Seen(env, s, v, id, stack, way)
    ensures Seen(env, s', v, id, stack, way)
  {
    hide Sees, Keeps, Along;
    forall i | 0 <= i < |stack| ensures SeenOne(env, s', v, id, stack[i], way[i]) {
      StillSees(env, s, s', stack[i].node, way[i].node, Along(v, id, way[i].depth));
    }
  }

  lemma {:induction false} SeenTied(env: Env, s: Shape, v: Tree, id: Key, stack: seq<Frame>, way: seq<Entry>)
    requires Seen(env, s, v, id, stack, way)
    ensures Tied(s, stack, way)
  {
    hide Sees, Holds, Along;
    forall i | 0 <= i < |stack| ensures TiedOne(s, stack[i], way[i]) {
      SeesHolds(env, s, stack[i].node, way[i].node, Along(v, id, way[i].depth));
    }
  }

  lemma {:induction false} SeenPop(env: Env, s: Shape, v: Tree, id: Key, stack: seq<Frame>, way: seq<Entry>)
    requires Seen(env, s, v, id, stack, way) && stack != []
    ensures |way| == |stack| && Seen(env, s, v, id, stack[..|stack| - 1], way[..|stack| - 1])
    ensures SeenOne(env, s, v, id, stack[|stack| - 1], way[|stack| - 1])
  {
  }

  lemma {:induction false} WayNone(kind: Kind, m: Contents, id: Key, env: Env, s: Shape, v: Tree)
    ensures OnWay(kind, m, id, []) && Seen(env, s, v, id, [], [])
  {
  }

  lemma {:induction false} WayPush(kind: Kind, m: Contents, id: Key, env: Env, s: Shape, v: Tree, stack: seq<Frame>, way: seq<Entry>, r: NodeRef, t: Tree, d: nat)
    requires OnWay(kind, m, id, way) && Seen(env, s, v, id, stack, way) && Sees(env, s, r, t, Along(v, id, d))
    requires d <= MAX_DEPTH && t == NodeAt(kind, m, id, d) && !t.Nil?
    requires way != [] ==> way[|way| - 1].node.Inner? && way[|way| - 1].depth == |way| - 1
    requires d == |way| || (d == |way| - 1 && t.Inner? && Halted(kind, m, id, Entry(t, d, -1)))
    ensures OnWay(kind, m, id, way + [Entry(t, d, -1)]) && Seen(env, s, v, id, stack + [Frame(r, d, -1)], way + [Entry(t, d, -1)])
  {
    hide Sees, NodeAt, Along;
  }

  lemma {:induction false} WayStart(sm: SHAMap, id: Key)
    requires sm.Valid()
    ensures var t, v := NodeAt(LeafKind(sm.mapType), sm.contents, id, 0), View(EnvOf(sm.family), sm.shape);
      && Sees(EnvOf(sm.family), sm.shape, InnerRef(sm.root), t, Along(v, id, 0))
      && t == CanonRoot(LeafKind(sm.mapType), sm.contents)
  {
    hide CanonRoot, Rep, Distinct;
    NodeAtTop(LeafKind(sm.mapType), sm.contents, id);
  }

  lemma {:induction false} WayFacts(sm: SHAMap, id: Key, r: NodeRef, d: nat, v: Tree)
    requires sm.Valid() && d <= MAX_DEPTH && Sees(EnvOf(sm.family), sm.shape, r, NodeAt(LeafKind(sm.mapType), sm.contents, id, d), v)
    ensures var t := NodeAt(LeafKind(sm.mapType), sm.contents, id, d);
      && Whole(t) && !t.Nil? && Part(v, t) && Holds(sm.shape, r, t)
      && (r.LeafRef? ==> v == t == Leaf(r.leaf.kind, r.leaf.item)) && (r.InnerRef? <==> t.Inner?) && (r.InnerRef? ==> v.Inner?)
  {
    hide Rep, Distinct, NodeAt, CanonRoot, Sees, Holds, Part;
    var t := NodeAt(LeafKind(sm.mapType), sm.contents, id, d);
    SeesHolds(EnvOf(sm.family), sm.shape, r, t, v);
    HeldNode(sm.shape, r, t);
    NodeWhole(LeafKind(sm.mapType), sm.contents, id, d);
    SeesPart(EnvOf(sm.family), sm.shape, r, t, v);
  }

  lemma {:induction false} NodeWhole(kind: Kind, m: Contents, id: Key, d: nat)
    requires d <= MAX_DEPTH
    ensures Whole(NodeAt(kind, m, id, d))
  {
    if d == 0 { KidsWhole(kind, m, 0); } else { CanonWhole(kind, Under(m, id, d), d); }
  }

  lemma {:induction false} PartNil(v: Tree, t: Tree, b: nat)
    requires Part(v, t) && v.Inner? && t.Inner? && b < |t.kids| && t.kids[b].Nil?
    ensures b < |v.kids| && v.kids[b].Nil?
  {
  }

  lemma {:induction false} AlongStep(v: Tree, id: Key, d: nat)
    requires Along(v, id, d).Inner? && |Along(v, id, d).kids| == BRANCH_FACTOR
    ensures Along(v, id, d + 1) == Along(v, id, d).kids[SelectBranch(id, d)]
  {
  }

  lemma {:induction false} AlongStart(v: Tree, id: Key)
    ensures Along(v, id, 0) == v
  {
  }

  /** A node that cannot be reached on the way fails the search. */
  lemma {:induction false} LostAlong(v: Tree, id: Key, d: nat)
    requires Along(v, id, d).Stub?
    ensures Seek(true, v, id, 0) == Seek(false, v, id, 0) == Failed
  {
    hide Along;
    SeekLift(true, v, id, d);
    SeekLift(false, v, id, d);
  }

  /** Walks toward id. The node where the walk stops is pushed once more if it is an inner node. */
  method WalkToward(sm: SHAMap, id: Key, ghost v: Tree) returns (ok: bool, stack: seq<Frame>, ghost way: seq<Entry>)
    requires sm.Valid() && v == View(EnvOf(sm.family), sm.shape)
    modifies sm`shape, Inners(sm.shape)`children
    ensures sm.Valid() && Keeps(EnvOf(sm.family), old(sm.shape), sm.shape)
    ensures forall o :: o in Foot(sm.shape) ==> o in old(Foot(sm.shape)) || fresh(o)
    ensures !ok ==> MayFail(sm.family) && Seek(true, v, id, 0) == Seek(false, v, id, 0) == Failed
    ensures ok ==> Seen(EnvOf(sm.family), sm.shape, v, id, stack, way) && |way| >= 2 && OnWay(LeafKind(sm.mapType), sm.contents, id, way)
    ensures ok ==> Halted(LeafKind(sm.mapType), sm.contents, id, way[|way| - 1])
  {
    hide SHAMap.Valid, NodeAt, CanonRoot, Canon, Under, Sub, OnWay, Sees, Holds, Keeps, Foot, Seen, Whole, Part, Along, View, Seek;
    ghost var kind, m, env := LeafKind(sm.mapType), sm.contents, EnvOf(sm.family);
    stack, way, ok := [], [], true;
    var node, depth := InnerRef(sm.root), 0;
    ghost var t := NodeAt(kind, m, id, 0);
    WayStart(sm, id);
    WayNone(kind, m, id, env, sm.shape, v);
    KeepsSelf(env, sm.shape);
    while node.InnerRef?
      invariant ok && sm.Valid() && EnvOf(sm.family) == env && Keeps(env, old(sm.shape), sm.shape)
      invariant forall o :: o in Foot(sm.shape) ==> o in old(Foot(sm.shape)) || fresh(o)
      invariant Seen(env, sm.shape, v, id, stack, way) && Sees(env, sm.shape, node, t, Along(v, id, depth))
      invariant depth == |way| <= MAX_DEPTH && t == NodeAt(kind, m, id, depth) && OnWay(kind, m, id, way)
      invariant way != [] ==> way[|way| - 1].node.Inner? && way[|way| - 1].depth == |way| - 1
      invariant way == [] ==> node.InnerRef?
      decreases t
    {
      var n := node.inner;
      ghost var s, w := sm.shape, Along(v, id, depth);
      WayFacts(sm, id, node, depth, w);
      WayStep(kind, m, id, depth, t.kids);
      WayPush(kind, m, id, env, s, v, stack, way, node, t, depth);
      stack, way := stack + [Frame(node, depth, -1)], way + [Entry(t, depth, -1)];
      var branch := SelectBranch(id, depth);
      BitOf(sm, n, t, branch);
      if !n.isBranch[branch] {
        break;
      }
      HeldIn(sm, n, t);
      var child;
      ok, child := Sight(sm, n, branch, t, w);
      KeepsTwice(env, old(sm.shape), s, sm.shape);
      StillSeen(env, s, sm.shape, v, id, stack, way);
      AlongStep(v, id, depth);
      if !ok {
        LostAlong(v, id, depth + 1);
        return;
      }
      node, depth, t := child, depth + 1, t.kids[branch];
    }
    WayFacts(sm, id, node, depth, Along(v, id, depth));
    WayPush(kind, m, id, env, sm.shape, v, stack, way, node, t, depth);
    stack, way := stack + [Frame(node, depth, -1)], way + [Entry(t, depth, -1)];
  }

  // ---------- the ends of a subtree ----------

  /** The first item below a branch, if it can be reached. */
  method FirstIn(sm: SHAMap, n: InnerNode, i: nat, ghost t: Tree, ghost v: Tree) returns (ok: bool, r: Option<Item>)
    requires sm.Valid() && Sees(EnvOf(sm.family), sm.shape, InnerRef(n), t, v) && Whole(t) && i < BRANCH_FACTOR
    modifies sm`shape, Inners(sm.shape)`children
    ensures sm.Valid() && Keeps(EnvOf(sm.family), old(sm.shape), sm.shape) && Sees(EnvOf(sm.family), sm.shape, InnerRef(n), t, v)
    ensures forall o :: o in Foot(sm.shape) ==> o in old(Foot(sm.shape)) || fresh(o)
    ensures v.Inner? && |v.kids| == BRANCH_FACTOR
    ensures if ok then !v.kids[i].Stub? && r == EndOf(true, v.kids[i]) else MayFail(sm.family) && v.kids[i].Stub? && r.None?
    decreases t, 0
  {
    hide SHAMap.Valid, Sees, Holds, Keeps, Foot, EndOf;
    ghost var env, s := EnvOf(sm.family), sm.shape;
    SeenIn(sm, n, t, v);
    var child;
    r := None;
    ok, child := Sight(sm, n, i, t, v);
    StillSees(env, s, sm.shape, InnerRef(n), t, v);
    if child != NoNode && ok {
      ghost var s1 := sm.shape;
      r := FirstBelow(sm, child, t.kids[i], v.kids[i]);
      KeepsTwice(env, s, s1, sm.shape);
      StillSees(env, s1, sm.shape, InnerRef(n), t, v);
    } else {
      NoEnd(true, v.kids[i]);
    }
  }

  /** The first item of a subtree. A branch that cannot be loaded ends the search below its node. */
  method FirstBelow(sm: SHAMap, node: NodeRef, ghost t: Tree, ghost v: Tree) returns (r: Option<Item>)
    requires sm.Valid() && Sees(EnvOf(sm.family), sm.shape, node, t, v) && Whole(t)
    modifies sm`shape, Inners(sm.shape)`children
    ensures sm.Valid() && Keeps(EnvOf(sm.family), old(sm.shape), sm.shape)
    ensures forall o :: o in Foot(sm.shape) ==> o in old(Foot(sm.shape)) || fresh(o)
    ensures r == EndOf(true, v)
    decreases t, 1
  {
    hide SHAMap.Valid, Sees, Holds, Keeps, Foot, EndOf, Stop;
    ghost var env := EnvOf(sm.family);
    KeepsSelf(env, sm.shape);
    SeenNode(sm, node, t, v);
    EndHere(true, v);
    if node.LeafRef? {
      return Some(node.leaf.item);
    }
    var ok;
    for i := 0 to BRANCH_FACTOR
      invariant sm.Valid() && EnvOf(sm.family) == env && Keeps(env, old(sm.shape), sm.shape) && Sees(env, sm.shape, node, t, v)
      invariant forall o :: o in Foot(sm.shape) ==> o in old(Foot(sm.shape)) || fresh(o)
      invariant Stop(true, v.kids, 0) == Stop(true, v.kids, i)
    {
      ghost var s := sm.shape;
      StopHere(true, v.kids, i);
      ok, r := FirstIn(sm, node.inner, i, t, v);
      KeepsTwice(env, old(sm.shape), s, sm.shape);
      if !ok || r.Some? {
        return;
      }
    }
    r := None;
  }

  lemma {:induction false} SeenNode(sm: SHAMap, node: NodeRef, t: Tree, v: Tree)
    requires sm.Valid() && Sees(EnvOf(sm.family), sm.shape, node, t, v) && Whole(t)
    ensures node.LeafRef? ==> v == t == Leaf(node.leaf.kind, node.leaf.item)
    ensures !node.NoNode? && (node.InnerRef? ==> v.Inner? && t.Inner? && |v.kids| == |t.kids| == BRANCH_FACTOR)
  {
    hide Part, CanonRoot;
    SeesHolds(EnvOf(sm.family), sm.shape, node, t, v);
    HeldNode(sm.shape, node, t);
    SeesPart(EnvOf(sm.family), sm.shape, node, t, v);
    if node.InnerRef? {
      BitOf(sm, node.inner, t, 0);
      PartWidth(v, t);
    }
  }

  lemma {:induction false} PartWidth(v: Tree, t: Tree)
    requires Part(v, t) && v.Inner? && t.Inner?
    ensures |v.kids| == |t.kids|
  {
  }

  lemma {:induction false} SeenIn(sm: SHAMap, n: InnerNode, t: Tree, v: Tree)
    requires sm.Valid() && Sees(EnvOf(sm.family), sm.shape, InnerRef(n), t, v)
    ensures n in Inners(sm.shape)
  {
    hide SHAMap.Valid, Sees, Holds;
    SeesHolds(EnvOf(sm.family), sm.shape, InnerRef(n), t, v);
    HeldIn(sm, n, t);
  }

  lemma {:induction false} EndHere(up: bool, v: Tree)
    ensures v.Leaf? ==> EndOf(up, v) == Some(v.item)
    ensures v.Inner? && |v.kids| == BRANCH_FACTOR ==>
      var j := Stop(up, v.kids, 0); EndOf(up, v) == if j == BRANCH_FACTOR then None else EndOf(up, v.kids[Turn(up, j)])
  {
  }

  /** One branch more of a node. */
  lemma {:induction false} StopHere(up: bool, kids: seq<Tree>, n: nat)
    requires |kids| == BRANCH_FACTOR && n < BRANCH_FACTOR
    ensures var kid := kids[Turn(up, n)];
      && Stop(up, kids, n) == (if kid.Stub? || EndOf(up, kid).Some? then n else Stop(up, kids, n + 1))
      && (kid.Nil? || kid.Stub? ==> EndOf(up, kid) == None)
    ensures Stop(up, kids, BRANCH_FACTOR) == BRANCH_FACTOR
  {
  }

  /** The last item below a branch, if it can be reached. */
  method LastIn(sm: SHAMap, n: InnerNode, i: nat, ghost t: Tree, ghost v: Tree) returns (ok: bool, r: Option<Item>)
    requires sm.Valid() && Sees(EnvOf(sm.family), sm.shape, InnerRef(n), t, v) && Whole(t) && i < BRANCH_FACTOR
    modifies sm`shape, Inners(sm.shape)`children
    ensures sm.Valid() && Keeps(EnvOf(sm.family), old(sm.shape), sm.shape) && Sees(EnvOf(sm.family), sm.shape, InnerRef(n), t, v)
    ensures forall o :: o in Foot(sm.shape) ==> o in old(Foot(sm.shape)) || fresh(o)
    ensures v.Inner? && |v.kids| == BRANCH_FACTOR
    ensures if ok then !v.kids[i].Stub? && r == EndOf(false, v.kids[i]) else MayFail(sm.family) && v.kids[i].Stub? && r.None?
    decreases t, 0
  {
    hide SHAMap.Valid, Sees, Holds, Keeps, Foot, EndOf;
    ghost var env, s := EnvOf(sm.family), sm.shape;
    SeenIn(sm, n, t, v);
    var child;
    r := None;
    ok, child := Sight(sm, n, i, t, v);
    StillSees(env, s, sm.shape, InnerRef(n), t, v);
    if child != NoNode && ok {
      ghost var s1 := sm.shape;
      r := LastBelow(sm, child, t.kids[i], v.kids[i]);
      KeepsTwice(env, s, s1, sm.shape);
      StillSees(env, s1, sm.shape, InnerRef(n), t, v);
    } else {
      NoEnd(false, v.kids[i]);
    }
  }

  /** The last item of a subtree. A branch that cannot be loaded ends the search below its node. */
  method LastBelow(sm: SHAMap, node: NodeRef, ghost t: Tree, ghost v: Tree) returns (r: Option<Item>)
    requires sm.Valid() && Sees(EnvOf(sm.family), sm.shape, node, t, v) && Whole(t)
    modifies sm`shape, Inners(sm.shape)`children
    ensures sm.Valid() && Keeps(EnvOf(sm.family), old(sm.shape), sm.shape)
    ensures forall o :: o in Foot(sm.shape) ==> o in old(Foot(sm.shape)) || fresh(o)
    ensures r == EndOf(false, v)
    decreases t, 1
  {
    hide SHAMap.Valid, Sees, Holds, Keeps, Foot, EndOf, Stop;
    ghost var env := EnvOf(sm.family);
    KeepsSelf(env, sm.shape);
    SeenNode(sm, node, t, v);
    EndHere(false, v);
    if node.LeafRef? {
      return Some(node.leaf.item);
    }
    var ok;
    for i := BRANCH_FACTOR downto 0
      invariant sm.Valid() && EnvOf(sm.family) == env && Keeps(env, old(sm.shape), sm.shape) && Sees(env, sm.shape, node, t, v)
      invariant forall o :: o in Foot(sm.shape) ==> o in old(Foot(sm.shape)) || fresh(o)
      invariant Stop(false, v.kids, 0) == Stop(false, v.kids, BRANCH_FACTOR - i)
    {
      ghost var s := sm.shape;
      StopHere(false, v.kids, BRANCH_FACTOR - 1 - i);
      ok, r := LastIn(sm, node.inner, i, t, v);
      KeepsTwice(env, old(sm.shape), s, sm.shape);
      if !ok || r.Some? {
        return;
      }
    }
    r := None;
  }

  lemma {:induction false} NoEnd(up: bool, v: Tree)
    ensures v.Nil? || v.Stub? ==> EndOf(up, v) == None
  {
  }

  // ---------- the searches ----------

  /** The branches above the one of id, lowest first. */
  method ScanUp(sm: SHAMap, n: InnerNode, id: Key, depth: nat, ghost t: Tree, ghost v: Tree)
    returns (ok: bool, r: Option<Item>, branch: nat)
    requires sm.Valid() && Sees(EnvOf(sm.family), sm.shape, InnerRef(n), t, v) && Whole(t)
    modifies sm`shape, Inners(sm.shape)`children
    ensures sm.Valid() && Keeps(EnvOf(sm.family), old(sm.shape), sm.shape)
    ensures forall o :: o in Foot(sm.shape) ==> o in old(Foot(sm.shape)) || fresh(o)
    ensures v.Inner? && |v.kids| == BRANCH_FACTOR && (!ok ==> MayFail(sm.family))
    ensures Scan(true, v.kids, Turn(true, SelectBranch(id, depth)) + 1) == if !ok then Failed else if r.Some? then Found(r.value) else Nothing
    ensures ok && r.Some? ==> branch == Stop(true, v.kids, Turn(true, SelectBranch(id, depth)) + 1)
  {
    hide SHAMap.Valid, Sees, Holds, Keeps, Foot, EndOf, Stop;
    ghost var env := EnvOf(sm.family);
    KeepsSelf(env, sm.shape);
    SeenNode(sm, InnerRef(n), t, v);
    var start := SelectBranch(id, depth) + 1;
    ok, r, branch := true, None, BRANCH_FACTOR;
    for b := start to BRANCH_FACTOR
      invariant sm.Valid() && EnvOf(sm.family) == env && Keeps(env, old(sm.shape), sm.shape) && Sees(env, sm.shape, InnerRef(n), t, v)
      invariant forall o :: o in Foot(sm.shape) ==> o in old(Foot(sm.shape)) || fresh(o)
      invariant Stop(true, v.kids, start) == Stop(true, v.kids, b)
    {
      ghost var s := sm.shape;
      StopHere(true, v.kids, b);
      ok, r := FirstIn(sm, n, b, t, v);
      KeepsTwice(env, old(sm.shape), s, sm.shape);
      if !ok || r.Some? {
        branch := b;
        return;
      }
    }
    ok, r := true, None;
    StopHere(true, v.kids, 0);
  }

  /** The branches below the one of id, highest first. */
  method ScanDown(sm: SHAMap, n: InnerNode, id: Key, depth: nat, ghost t: Tree, ghost v: Tree) returns (ok: bool, r: Option<Item>)
    requires sm.Valid() && Sees(EnvOf(sm.family), sm.shape, InnerRef(n), t, v) && Whole(t)
    modifies sm`shape, Inners(sm.shape)`children
    ensures sm.Valid() && Keeps(EnvOf(sm.family), old(sm.shape), sm.shape)
    ensures forall o :: o in Foot(sm.shape) ==> o in old(Foot(sm.shape)) || fresh(o)
    ensures v.Inner? && |v.kids| == BRANCH_FACTOR && (!ok ==> MayFail(sm.family))
    ensures Scan(false, v.kids, Turn(false, SelectBranch(id, depth)) + 1) == if !ok then Failed else if r.Some? then Found(r.value) else Nothing
  {
    hide SHAMap.Valid, Sees, Holds, Keeps, Foot, EndOf, Stop, Whole;
    ghost var env := EnvOf(sm.family);
    KeepsSelf(env, sm.shape);
    SeenNode(sm, InnerRef(n), t, v);
    var start := SelectBranch(id, depth);
    ok, r := true, None;
    for b := start downto 0
      invariant sm.Valid() && EnvOf(sm.family) == env && Keeps(env, old(sm.shape), sm.shape) && Sees(env, sm.shape, InnerRef(n), t, v)
      invariant forall o :: o in Foot(sm.shape) ==> o in old(Foot(sm.shape)) || fresh(o)
      invariant Stop(false, v.kids, Turn(false, start) + 1) == Stop(false, v.kids, BRANCH_FACTOR - b)
    {
      ghost var s := sm.shape;
      StopHere(false, v.kids, BRANCH_FACTOR - 1 - b);
      ok, r := LastIn(sm, n, b, t, v);
      KeepsTwice(env, old(sm.shape), s, sm.shape);
      if !ok || r.Some? {
        return;
      }
    }
    ok, r := true, None;
    StopHere(false, v.kids, 0);
  }

  /** What the search knows with the stages in way still to be looked at: nothing was found past them. */
  ghost predicate Unfinished(up: bool, kind: Kind, m: Contents, v: Tree, id: Key, way: seq<Entry>) {
    && OnWay(kind, m, id, way)
    && (way == [] ==> Seek(up, v, id, 0) == Nothing)
    && (way != [] ==> var e := way[|way| - 1]; e.node.Inner? ==> Seek(up, Along(v, id, e.depth + 1), id, e.depth + 1) == Nothing)
    && (|way| == 1 ==> !NodeAt(kind, m, id, 1).Nil? || Seek(up, v, id, 0) == Nothing)
  }

  lemma {:induction false} HaltedBelow(sm: SHAMap, up: bool, v: Tree, id: Key, r: NodeRef, d: nat)
    requires var kind, m := LeafKind(sm.mapType), sm.contents;
      sm.Valid() && d < MAX_DEPTH && NodeAt(kind, m, id, d).Inner? && NodeAt(kind, m, id, d + 1).Nil?
      && Sees(EnvOf(sm.family), sm.shape, r, NodeAt(kind, m, id, d), Along(v, id, d))
    ensures Seek(up, Along(v, id, d + 1), id, d + 1) == Nothing
  {
    hide SHAMap.Valid, NodeAt, Sees, Along, Part, Whole, Holds;
    var t, w := NodeAt(LeafKind(sm.mapType), sm.contents, id, d), Along(v, id, d);
    WayFacts(sm, id, r, d, w);
    WayStep(LeafKind(sm.mapType), sm.contents, id, d, t.kids);
    PartNil(w, t, SelectBranch(id, d));
    PartWidth(w, t);
    AlongStep(v, id, d);
  }

  lemma {:induction false} SeekStart(sm: SHAMap, up: bool, v: Tree, id: Key, stack: seq<Frame>, way: seq<Entry>)
    requires sm.Valid() && |way| >= 2 && OnWay(LeafKind(sm.mapType), sm.contents, id, way) && Halted(LeafKind(sm.mapType), sm.contents, id, way[|way| - 1])
    requires Seen(EnvOf(sm.family), sm.shape, v, id, stack, way)
    ensures Unfinished(up, LeafKind(sm.mapType), sm.contents, v, id, way)
  {
    hide SHAMap.Valid, NodeAt, Sees, Along, Seek;
    var e := way[|way| - 1];
    if e.node.Inner? { HaltedBelow(sm, up, v, id, stack[|way| - 1].node, e.depth); }
  }

  /** The next stage. */
  lemma {:induction false} SeekTop(sm: SHAMap, up: bool, v: Tree, id: Key, stack: seq<Frame>, way: seq<Entry>)
    requires sm.Valid() && stack != [] && Seen(EnvOf(sm.family), sm.shape, v, id, stack, way)
    requires Unfinished(up, LeafKind(sm.mapType), sm.contents, v, id, way)
    ensures |way| == |stack|
    ensures var f, e := stack[|stack| - 1], way[|stack| - 1];
      && Stage(LeafKind(sm.mapType), sm.contents, id, e) && SeenOne(EnvOf(sm.family), sm.shape, v, id, f, e)
      && Whole(e.node) && Part(Along(v, id, e.depth), e.node) && Holds(sm.shape, f.node, e.node)
      && (f.node.LeafRef? ==> Along(v, id, e.depth) == e.node == Leaf(f.node.leaf.kind, f.node.leaf.item))
      && (f.node.InnerRef? <==> e.node.Inner?) && !f.node.NoNode?
  {
    hide SHAMap.Valid, NodeAt, Sees, Along, Part, Whole, Holds, Seek;
    var f, e := stack[|stack| - 1], way[|stack| - 1];
    WayFacts(sm, id, f.node, e.depth, Along(v, id, e.depth));
    SeesHolds(EnvOf(sm.family), sm.shape, f.node, e.node, Along(v, id, e.depth));
    HeldNode(sm.shape, f.node, e.node);
  }

  /** What a stage gives is what the whole search finds. */
  lemma {:induction false} StageFound(up: bool, kind: Kind, m: Contents, v: Tree, id: Key, way: seq<Entry>)
    requires Unfinished(up, kind, m, v, id, way) && way != []
    requires var e := way[|way| - 1]; var w := Along(v, id, e.depth);
      if e.node.Leaf? then w.Leaf? else e.node.Inner? && w.Inner? && |w.kids| == BRANCH_FACTOR
    ensures var e := way[|way| - 1]; var w := Along(v, id, e.depth); var o := Seek(up, w, id, e.depth);
      && o == (if w.Leaf? then if Beyond(up, id, w.item.key) then Found(w.item) else Nothing
               else Scan(up, w.kids, Turn(up, SelectBranch(id, e.depth)) + 1))
      && (o != Nothing ==> Seek(up, v, id, 0) == o)
  {
    hide NodeAt, Scan, Beyond, OnWay, Along;
    var e := way[|way| - 1];
    if e.node.Inner? { AlongStep(v, id, e.depth); }
    if Seek(up, Along(v, id, e.depth), id, e.depth) != Nothing { SeekLift(up, v, id, e.depth); }
  }

  /** Nothing was found there. */
  lemma {:induction false} SeekOn(up: bool, kind: Kind, m: Contents, v: Tree, id: Key, way: seq<Entry>)
    requires Unfinished(up, kind, m, v, id, way) && way != []
    requires var e := way[|way| - 1]; Seek(up, Along(v, id, e.depth), id, e.depth) == Nothing
    ensures Unfinished(up, kind, m, v, id, way[..|way| - 1])
  {
    hide NodeAt, Seek, Along, Halted;
    var e, rest := way[|way| - 1], way[..|way| - 1];
    AlongStart(v, id);
    if rest != [] { assert rest[|rest| - 1] == way[|way| - 2]; }
  }

  // ---------- going on after a search ----------

  /** Something shares its first branch with id, and the item found does not. */
  ghost predicate Resumes(m: Contents, id: Key, it: Item) {
    SelectBranch(it.key, 0) != SelectBranch(id, 0) && exists k :: k in m && SelectBranch(k, 0) == SelectBranch(id, 0)
  }

  lemma {:induction false} FirstBranch(kind: Kind, m: Contents, id: Key)
    ensures NodeAt(kind, m, id, 1).Nil? <==> forall k :: k in m ==> SelectBranch(k, 0) != SelectBranch(id, 0)
  {
    hide Canon;
    CanonNil(kind, Under(m, id, 1), 1);
    if k :| k in m && SelectBranch(k, 0) == SelectBranch(id, 0) { assert k in Under(m, id, 1); }
  }

  /** One stage is left exactly when the search resumes: then the item was found below the root, and not at the first look. */
  lemma {:induction false} LeftOver(up: bool, kind: Kind, m: Contents, v: Tree, id: Key, way: seq<Entry>, it: Item)
    requires Unfinished(up, kind, m, v, id, way) && way != [] && Seek(up, v, id, 0) == Found(it)
    requires var e := way[|way| - 1];
      it.key in Under(m, id, e.depth) && if e.node.Leaf? then e.depth > 0 else SelectBranch(it.key, e.depth) != SelectBranch(id, e.depth)
    ensures |way| == 1 <==> Resumes(m, id, it)
    ensures |way| == 1 ==> way[0] == Entry(CanonRoot(kind, m), 0, -1)
  {
    hide CanonRoot, Canon, NodeAt, Seek;
    var e := way[|way| - 1];
    FirstBranch(kind, m, id);
    NodeAtTop(kind, m, id);
    if e.depth > 0 { assert SelectBranch(it.key, 0) == SelectBranch(id, 0); }
  }

  /** A stack of stages cannot be walked on: their branches are not set. */
  lemma {:induction false} NotReady(kind: Kind, m: Contents, id: Key, way: seq<Entry>, more: seq<Entry>)
    requires OnWay(kind, m, id, way) && way != []
    ensures !AllReady(way[..|way| - 1] + more) || |way| == 1
  {
    hide NodeAt;
    var all := way[..|way| - 1] + more;
    if |way| > 1 { assert all[0] == way[0] && !Ready(all[0]); }
  }

  lemma {:induction false} RootRest(kind: Kind, m: Contents, b: nat)
    requires b < BRANCH_FACTOR
    ensures var plan := [Entry(CanonRoot(kind, m), 0, b + 1)];
      AllReady(plan) && CanonRoot(kind, m).Inner? && |CanonRoot(kind, m).kids| == BRANCH_FACTOR && Rest(plan) == LeavesOf(CanonRoot(kind, m).kids[b + 1..])
  {
    hide CanonRoot;
    RootReady(kind, m);
    RootIsInner(kind, m);
    var plan := [Entry(CanonRoot(kind, m), 0, b + 1)];
    assert plan[..0] == [] && Rest([]) == [];
    assert Rest(plan) == RestOf(plan[0]) + [];
  }

  /** How an upward search leaves the iterator: usable for Next exactly if it resumes, and then with what is in the later first branches. */
  ghost predicate UpperLeft(sm: SHAMap, id: Key, r: Option<Item>, plan: seq<Entry>)
    reads sm`contents
  {
    var root := CanonRoot(LeafKind(sm.mapType), sm.contents);
    match r
    case None => plan == []
    case Some(it) =>
      && (AllReady(plan) <==> Resumes(sm.contents, id, it))
      && (AllReady(plan) ==> root.Inner? && |root.kids| == BRANCH_FACTOR && Rest(plan) == LeavesOf(root.kids[SelectBranch(it.key, 0) + 1..]))
  }

  /** After a leaf on the way the iterator cannot be walked on, and the search does not resume. */
  lemma {:induction false} LeafLeft(sm: SHAMap, up: bool, v: Tree, id: Key, way: seq<Entry>, it: Item)
    requires Unfinished(up, LeafKind(sm.mapType), sm.contents, v, id, way) && way != [] && Seek(up, v, id, 0) == Found(it)
    requires way[|way| - 1].node.Leaf? && way[|way| - 1].node.item == it
    ensures UpperLeft(sm, id, Some(it), way[..|way| - 1]) && LowerLeft(sm, id, Some(it), way[..|way| - 1])
  {
    hide AllReady, Resumes, CanonRoot, NodeAt, Seek;
    var kind, m, e := LeafKind(sm.mapType), sm.contents, way[|way| - 1];
    WayCases(kind, m, id, e.depth);
    LeftOver(up, kind, m, v, id, way, it);
    NotReady(kind, m, id, way, []);
    assert way[..|way| - 1] + [] == way[..|way| - 1];
  }

  lemma {:induction false} InnerLeft(sm: SHAMap, up: bool, v: Tree, id: Key, way: seq<Entry>, b: nat, it: Item)
    requires Unfinished(up, LeafKind(sm.mapType), sm.contents, v, id, way) && way != [] && Seek(up, v, id, 0) == Found(it)
    requires var e := way[|way| - 1];
      e.node.Inner? && b < BRANCH_FACTOR && it.key in Under(sm.contents, id, e.depth) && SelectBranch(it.key, e.depth) == b != SelectBranch(id, e.depth)
    ensures UpperLeft(sm, id, Some(it), way[..|way| - 1] + [way[|way| - 1].(branch := b + 1)]) && LowerLeft(sm, id, Some(it), way[..|way| - 1])
  {
    hide Resumes, CanonRoot, NodeAt, Rest, LeavesOf, Seek;
    var kind, m, e := LeafKind(sm.mapType), sm.contents, way[|way| - 1];
    LeftOver(up, kind, m, v, id, way, it);
    NotReady(kind, m, id, way, [e.(branch := b + 1)]);
    NotReady(kind, m, id, way, []);
    assert way[..|way| - 1] + [] == way[..|way| - 1];
    RootRest(kind, m, b);
    if |way| == 1 { assert way[..0] + [e.(branch := b + 1)] == [Entry(CanonRoot(kind, m), 0, b + 1)]; }
  }

  /** What Next would then deliver is all that lies beyond the item found, exactly if the item is alone in its first branch. */
  lemma {:induction false} UpperContinues(kind: Kind, m: Contents, id: Key, it: Item)
    requires Nearest(true, m, id, Some(it)) && Resumes(m, id, it)
    ensures |CanonRoot(kind, m).kids| == BRANCH_FACTOR
    ensures (forall k :: k in m && KeyLess(it.key, k) ==> Item(k, m[k]) in LeavesOf(CanonRoot(kind, m).kids[SelectBranch(it.key, 0) + 1..]))
       <==> forall k :: k in m && SelectBranch(k, 0) == SelectBranch(it.key, 0) ==> k == it.key
  {
    hide Leaves, LeavesOf, CanonRoot, KeyLess, Sub;
    RootIsInner(kind, m);
    var b: nat, rest := SelectBranch(it.key, 0), LeavesOf(CanonRoot(kind, m).kids[SelectBranch(it.key, 0) + 1..]);
    StrictOrder(it.key, it.key, it.key);
    forall k | k in m
      ensures Item(k, m[k]) in rest <==> SelectBranch(k, 0) > b
      ensures SelectBranch(k, 0) > b ==> KeyLess(it.key, k)
      ensures SelectBranch(k, 0) < b ==> !KeyLess(it.key, k)
      ensures SelectBranch(k, 0) == b && k != it.key ==> KeyLess(it.key, k)
    {
      LaterItems(kind, m, b + 1, k);
      if SelectBranch(k, 0) > b { BranchLess(it.key, k, 0); }
      if SelectBranch(k, 0) < b { BranchLess(k, it.key, 0); LessAsym(k, it.key); }
      if SelectBranch(k, 0) == b {
        if SelectBranch(id, 0) < b { BranchLess(id, k, 0); } else { BranchLess(it.key, id, 0); LessAsym(it.key, id); }
      }
    }
  }

  /** With nothing in the first branch of id, the iterator cannot be walked on although the right item was found. */
  lemma {:induction false} CannotGoOn(x: bytes)
    ensures var m, id, it := map[KeyWith(0x10) := x], KeyWith(0x00), Item(KeyWith(0x10), x);
      Nearest(true, m, id, Some(it)) && !Resumes(m, id, it)
  {
    hide KeyLess, KeyWith, SelectBranch;
    LeadingDigits(0x00);
    LeadingDigits(0x10);
    FirstByteLess(0x00, 0x10);
  }

  /** Where it can be walked on, Next passes over the rest of the first branch of the item found. */
  lemma {:induction false} PassesOver(kind: Kind, x: bytes)
    ensures var m := map[KeyWith(0x00) := x, KeyWith(0x10) := x, KeyWith(0x11) := x];
      var id, it := KeyWith(0x00), Item(KeyWith(0x10), x);
      && Nearest(true, m, id, Some(it)) && Resumes(m, id, it) && KeyLess(it.key, KeyWith(0x11))
      && |CanonRoot(kind, m).kids| == BRANCH_FACTOR && Item(KeyWith(0x11), x) !in LeavesOf(CanonRoot(kind, m).kids[SelectBranch(it.key, 0) + 1..])
  {
    hide KeyLess, KeyWith, SelectBranch, LeavesOf, CanonRoot;
    var m := map[KeyWith(0x00) := x, KeyWith(0x10) := x, KeyWith(0x11) := x];
    LeadingDigits(0x00);
    LeadingDigits(0x10);
    LeadingDigits(0x11);
    FirstByteLess(0x00, 0x10);
    FirstByteLess(0x00, 0x11);
    FirstByteLess(0x10, 0x11);
    StrictOrder(KeyWith(0x00), KeyWith(0x00), KeyWith(0x00));
    assert KeyWith(0x00) in m;
    LaterItems(kind, m, 2, KeyWith(0x11));
  }

  lemma {:induction false} LaterItems(kind: Kind, m: Contents, b: nat, k: Key)
    requires b <= BRANCH_FACTOR && k in m
    ensures |CanonRoot(kind, m).kids| == BRANCH_FACTOR
    ensures Item(k, m[k]) in LeavesOf(CanonRoot(kind, m).kids[b..]) <==> SelectBranch(k, 0) >= b
  {
    hide Leaves, LeavesOf, KeyLess, Sorted, Canon;
    var kids, x := CanonKids(kind, m, 0), Item(k, m[k]);
    KidsSorted(kind, m, 0, b);
    RootLeaves(kind, m, x);
    RootKids(kind, m);
    LeavesOfSplit(kids, b);
    if x in LeavesOf(kids[..b]) { EarlierItems(kind, m, b, x); }
  }

  lemma {:induction false} RootKids(kind: Kind, m: Contents)
    ensures CanonRoot(kind, m) == Inner(CanonKids(kind, m, 0)) && Leaves(CanonRoot(kind, m)) == LeavesOf(CanonKids(kind, m, 0))
  {
  }

  lemma {:induction false} EarlierItems(kind: Kind, m: Contents, b: nat, x: Item)
    requires b <= BRANCH_FACTOR && x in LeavesOf(CanonKids(kind, m, 0)[..b])
    ensures SelectBranch(x.key, 0) < b
  {
    hide Leaves, Canon;
    var kids := CanonKids(kind, m, 0);
    LeavesOfSplit(kids, 0);
    if b > 0 {
      assert kids[..b] == kids[..b - 1] + [kids[b - 1]];
      LeavesOfAppend(kids[..b - 1], kids[b - 1]);
      KidItems(kind, m, 0, b - 1);
      if x in LeavesOf(kids[..b - 1]) { EarlierItems(kind, m, b - 1, x); }
    }
  }

  /**
   * What every search promises: what it finds given what can be reached; never an entry that is not beyond id;
   * and the right answer exactly if the way to id and the way to that answer can be reached.
   */
  ghost predicate Positioned(sm: SHAMap, v: Tree, up: bool, id: Key, iter: Iterator)
    reads iter, sm`contents, sm`family
  {
    && (iter.err ==> MayFail(sm.family) && iter.current.None?)
    && Seek(up, v, id, 0) == (if iter.err then Failed else if iter.current.Some? then Found(iter.current.value) else Nothing)
    && (iter.current.Some? ==> var it := iter.current.value;
          it.key in sm.contents && sm.contents[it.key] == it.data && Beyond(up, id, it.key))
    && (forall r :: Nearest(up, sm.contents, id, r) ==> (!iter.err && iter.current == r <==> Clear(v, id, r, 0)))
    && (!MayFail(sm.family) ==> Nearest(up, sm.contents, id, iter.current))
  }

  lemma {:induction false} Concluded(sm: SHAMap, v: Tree, up: bool, id: Key, iter: Iterator)
    requires sm.Valid() && v == View(EnvOf(sm.family), sm.shape) && (iter.err ==> MayFail(sm.family) && iter.current.None?)
    requires Seek(up, v, id, 0) == (if iter.err then Failed else if iter.current.Some? then Found(iter.current.value) else Nothing)
    ensures Positioned(sm, v, up, id, iter)
  {
    hide Rep, Distinct, CanonRoot, NodeAt, Seek, Nearest, Beyond, Part, View;
    var kind, m := LeafKind(sm.mapType), sm.contents;
    NodeAtTop(kind, m, id);
    UnderRoot(m, id);
    KidsWhole(kind, m, 0);
    RootWhole(kind, m);
    ViewPart(EnvOf(sm.family), sm.shape);
    if iter.current.Some? { SeekSound(up, v, kind, m, id, 0, iter.current.value); }
    forall r | Nearest(up, m, id, r) ensures !iter.err && iter.current == r <==> Clear(v, id, r, 0) {
      SeekExact(up, v, kind, m, id, 0, r);
    }
    if !MayFail(sm.family) {
      var r := SomeNearest(up, m, id);
      ViewWhole(EnvOf(sm.family), sm.shape);
      NoneLost(v, id, 0);
      if r.Some? { NoneLost(v, r.value.key, 0); }
    }
  }

  lemma {:induction false} RootWhole(kind: Kind, m: Contents)
    ensures Whole(CanonRoot(kind, m))
  {
    KidsWhole(kind, m, 0);
  }

  lemma {:induction false} TiedMore(s: Shape, stack: seq<Frame>, plan: seq<Entry>, f: Frame, e: Entry)
    requires Tied(s, stack, plan) && TiedOne(s, f, e)
    ensures Tied(s, stack + [f], plan + [e])
  {
  }

  /** How a downward search leaves the iterator: usable for Next exactly if it resumes, and then with nothing to come. */
  ghost predicate LowerLeft(sm: SHAMap, id: Key, r: Option<Item>, plan: seq<Entry>)
    reads sm`contents
  {
    if r.None? then plan == []
    else (AllReady(plan) <==> Resumes(sm.contents, id, r.value)) && (AllReady(plan) ==> plan == [])
  }

  lemma {:induction false} NoneLeft(sm: SHAMap, id: Key, s: Shape)
    ensures Tied(s, [], []) && UpperLeft(sm, id, None, []) && LowerLeft(sm, id, None, [])
  {
  }

  /** Positioned at the least key above id; without an item exactly when there is none. */
  method UpperBound(sm: SHAMap, id: Key) returns (iter: Iterator)
    requires sm.Valid()
    modifies sm`shape, Inners(sm.shape)`children
    ensures sm.Valid() && fresh(iter) && iter.sm == sm && Positioned(sm, View(EnvOf(sm.family), old(sm.shape)), true, id, iter)
    ensures View(EnvOf(sm.family), sm.shape) == View(EnvOf(sm.family), old(sm.shape))
    ensures Tied(sm.shape, iter.stack, iter.plan) && UpperLeft(sm, id, iter.current, iter.plan)
  {
    hide SHAMap.Valid, Sees, Holds, Keeps, Refines, Foot, Seen, Unfinished, OnWay, NodeAt, UpperLeft, LowerLeft, Positioned, View, Along, Part, Whole, Seek, Scan, Stop, Tied, KeyLess, Under, SelectBranch;
    ghost var kind, m, env := LeafKind(sm.mapType), sm.contents, EnvOf(sm.family);
    ghost var v := View(env, sm.shape);
    var ok, stack;
    ghost var way;
    ok, stack, way := WalkToward(sm, id, v);
    KeepsView(env, old(sm.shape), sm.shape);
    NoneLeft(sm, id, sm.shape);
    FootAllocated(sm.shape);
    if !ok {
      iter := new Iterator.At(sm, [], None, true, []);
      Concluded(sm, v, true, id, iter);
      return;
    }
    SeekStart(sm, true, v, id, stack, way);
    while stack != []
      invariant sm.Valid() && EnvOf(sm.family) == env && View(env, sm.shape) == v
      invariant forall o :: o in Foot(sm.shape) ==> o in old(Foot(sm.shape)) || fresh(o)
      invariant Seen(env, sm.shape, v, id, stack, way) && Unfinished(true, kind, m, v, id, way)
      decreases |stack|
    {
      ghost var s := sm.shape;
      SeekTop(sm, true, v, id, stack, way);
      SeenPop(env, s, v, id, stack, way);
      var f := stack[|stack| - 1];
      ghost var e := way[|way| - 1];
      stack := stack[..|stack| - 1];
      if f.node.LeafRef? {
        StageFound(true, kind, m, v, id, way);
        if KeyLess(id, f.node.leaf.item.key) {
          LeafLeft(sm, true, v, id, way, f.node.leaf.item);
          SeenTied(env, sm.shape, v, id, stack, way[..|way| - 1]);
          FootAllocated(sm.shape);
          iter := new Iterator.At(sm, stack, Some(f.node.leaf.item), false, way[..|way| - 1]);
          Concluded(sm, v, true, id, iter);
          return;
        }
      } else {
        var r, branch;
        SeenIn(sm, f.node.inner, e.node, Along(v, id, e.depth));
        ok, r, branch := ScanUp(sm, f.node.inner, id, f.depth, e.node, Along(v, id, e.depth));
        KeepsView(env, s, sm.shape);
        StageFound(true, kind, m, v, id, way);
        NoneLeft(sm, id, sm.shape);
        StillSeen(env, s, sm.shape, v, id, stack, way[..|way| - 1]);
        StillHolds(s, sm.shape, f.node, e.node);
        FootAllocated(sm.shape);
        if !ok {
          iter := new Iterator.At(sm, [], None, true, []);
          Concluded(sm, v, true, id, iter);
          return;
        }
        if r.Some? {
          ghost var b := ScanSound(true, Along(v, id, e.depth), kind, m, id, e.depth, r.value);
          InnerLeft(sm, true, v, id, way, b, r.value);
          SeenTied(env, sm.shape, v, id, stack, way[..|way| - 1]);
          TiedMore(sm.shape, stack, way[..|way| - 1], f.(branch := branch + 1), e.(branch := branch + 1));
          iter := new Iterator.At(sm, stack + [f.(branch := branch + 1)], r, false, way[..|way| - 1] + [e.(branch := branch + 1)]);
          Concluded(sm, v, true, id, iter);
          return;
        }
      }
      SeekOn(true, kind, m, v, id, way);
      way := way[..|way| - 1];
    }
    SeekEnd(true, kind, m, env, sm.shape, v, id, stack, way);
    NoneLeft(sm, id, sm.shape);
    FootAllocated(sm.shape);
    iter := new Iterator.At(sm, [], None, false, []);
    Concluded(sm, v, true, id, iter);
  }

  lemma {:induction false} SeekEnd(up: bool, kind: Kind, m: Contents, env: Env, s: Shape, v: Tree, id: Key, stack: seq<Frame>, way: seq<Entry>)
    requires Unfinished(up, kind, m, v, id, way) && Seen(env, s, v, id, stack, way) && stack == []
    ensures Seek(up, v, id, 0) == Nothing
  {
  }

  /** Positioned at the greatest key below id; without an item exactly when there is none. */
  method LowerBound(sm: SHAMap, id: Key) returns (iter: Iterator)
    requires sm.Valid()
    modifies sm`shape, Inners(sm.shape)`children
    ensures sm.Valid() && fresh(iter) && iter.sm == sm && Positioned(sm, View(EnvOf(sm.family), old(sm.shape)), false, id, iter)
    ensures View(EnvOf(sm.family), sm.shape) == View(EnvOf(sm.family), old(sm.shape))
    ensures Tied(sm.shape, iter.stack, iter.plan) && LowerLeft(sm, id, iter.current, iter.plan)
  {
    hide SHAMap.Valid, Sees, Holds, Keeps, Refines, Foot, Seen, Unfinished, OnWay, NodeAt, UpperLeft, LowerLeft, Positioned, View, Along, Part, Whole, Seek, Scan, Stop, Tied, KeyLess, Under, SelectBranch;
    ghost var kind, m, env := LeafKind(sm.mapType), sm.contents, EnvOf(sm.family);
    ghost var v := View(env, sm.shape);
    var ok, stack;
    ghost var way;
    ok, stack, way := WalkToward(sm, id, v);
    KeepsView(env, old(sm.shape), sm.shape);
    NoneLeft(sm, id, sm.shape);
    FootAllocated(sm.shape);
    if !ok {
      iter := new Iterator.At(sm, [], None, true, []);
      Concluded(sm, v, false, id, iter);
      return;
    }
    SeekStart(sm, false, v, id, stack, way);
    while stack != []
      invariant sm.Valid() && EnvOf(sm.family) == env && View(env, sm.shape) == v
      invariant forall o :: o in Foot(sm.shape) ==> o in old(Foot(sm.shape)) || fresh(o)
      invariant Seen(env, sm.shape, v, id, stack, way) && Unfinished(false, kind, m, v, id, way)
      decreases |stack|
    {
      ghost var s := sm.shape;
      SeekTop(sm, false, v, id, stack, way);
      SeenPop(env, s, v, id, stack, way);
      var f := stack[|stack| - 1];
      ghost var e := way[|way| - 1];
      stack := stack[..|stack| - 1];
      if f.node.LeafRef? {
        StageFound(false, kind, m, v, id, way);
        if KeyLess(f.node.leaf.item.key, id) {
          LeafLeft(sm, false, v, id, way, f.node.leaf.item);
          SeenTied(env, sm.shape, v, id, stack, way[..|way| - 1]);
          FootAllocated(sm.shape);
          iter := new Iterator.At(sm, stack, Some(f.node.leaf.item), false, way[..|way| - 1]);
          Concluded(sm, v, false, id, iter);
          return;
        }
      } else {
        var r;
        SeenIn(sm, f.node.inner, e.node, Along(v, id, e.depth));
        ok, r := ScanDown(sm, f.node.inner, id, f.depth, e.node, Along(v, id, e.depth));
        KeepsView(env, s, sm.shape);
        StageFound(false, kind, m, v, id, way);
        NoneLeft(sm, id, sm.shape);
        StillSeen(env, s, sm.shape, v, id, stack, way[..|way| - 1]);
        FootAllocated(sm.shape);
        if !ok {
          iter := new Iterator.At(sm, [], None, true, []);
          Concluded(sm, v, false, id, iter);
          return;
        }
        if r.Some? {
          ghost var b := ScanSound(false, Along(v, id, e.depth), kind, m, id, e.depth, r.value);
          InnerLeft(sm, false, v, id, way, b, r.value);
          SeenTied(env, sm.shape, v, id, stack, way[..|way| - 1]);
          iter := new Iterator.At(sm, stack, r, false, way[..|way| - 1]);
          Concluded(sm, v, false, id, iter);
          return;
        }
      }
      SeekOn(false, kind, m, v, id, way);
      way := way[..|way| - 1];
    }
    SeekEnd(false, kind, m, env, sm.shape, v, id, stack, way);
    NoneLeft(sm, id, sm.shape);
    FootAllocated(sm.shape);
    iter := new Iterator.At(sm, [], None, false, []);
    Concluded(sm, v, false, id, iter);
  }
}
