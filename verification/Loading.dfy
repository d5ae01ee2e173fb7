/** Going down from any node of a map, loading children on the way. */
module Loading {
  import opened Bytes
  import opened Tree
  import opened Storage
  import opened Nodes
  import opened Shapes
  import opened Walking
  import opened Canonical
  import opened Codec
  import opened Removal
  import opened ShaMap

  /** Somewhere in s the node r stands for the subtree t. */
  ghost predicate Holds(s: Shape, r: NodeRef, t: Tree) {
    || (!r.NoNode? && RefOf(s) == r && TreeOf(s) == t)
    || (s.SInner? && exists i :: 0 <= i < |s.kids| && Holds(s.kids[i], r, t))
  }

  ghost function Inners(s: Shape): set<InnerNode> {
    set n: InnerNode | n in Foot(s)
  }

  /** What a branch of an inner node gives: nothing where the branch is empty or, in a map without a store, not received; else the child. */
  ghost predicate ChildIs(env: Env, s: Shape, r: NodeRef, t: Tree, v: Tree) {
    if r.NoNode? then (if t.Nil? then v.Nil? else t.Stub?) else Sees(env, s, r, t, v) && !v.Stub?
  }

  /** The same subtree with some more nodes loaded. */
  ghost predicate Refines(s: Shape, s': Shape) {
    || s == s'
    || (s.SStub? && TreeOf(s') == s.tree)
    || (s.SInner? && s'.SInner? && s'.node == s.node && |s'.kids| == |s.kids|
        && forall i :: 0 <= i < |s.kids| ==> Refines(s.kids[i], s'.kids[i]))
  }

  lemma {:induction false} RefinesSelf(s: Shape)
    ensures Refines(s, s)
  {
  }

  lemma {:induction false} RefinesTree(s: Shape, s': Shape)
    requires Refines(s, s')
    ensures TreeOf(s') == TreeOf(s)
    decreases s
  {
    if s != s' && s.SInner? {
      forall i | 0 <= i < |s.kids| ensures TreeOf(s'.kids[i]) == TreeOf(s.kids[i]) {
        RefinesTree(s.kids[i], s'.kids[i]);
      }
      assert Trees(s'.kids) == Trees(s.kids);
    }
  }

  lemma {:induction false} RefinesTwice(s: Shape, s': Shape, s'': Shape)
    requires Refines(s, s') && Refines(s', s'')
    ensures Refines(s, s'')
    decreases s
  {
    if s.SStub? {
      if s' != s { RefinesTree(s', s''); }
    } else if s != s' && s' != s'' {
      forall i | 0 <= i < |s.kids| ensures Refines(s.kids[i], s''.kids[i]) {
        RefinesTwice(s.kids[i], s'.kids[i], s''.kids[i]);
      }
    }
  }

  /** Nodes at hand stay at hand. */
  lemma {:induction false} StillHolds(s: Shape, s': Shape, r: NodeRef, t: Tree)
    requires Refines(s, s') && Holds(s, r, t)
    ensures Holds(s', r, t)
    decreases s
  {
    if s != s' {
      RefinesTree(s, s');
      if !(!r.NoNode? && RefOf(s) == r && TreeOf(s) == t) {
        var i :| 0 <= i < |s.kids| && Holds(s.kids[i], r, t);
        StillHolds(s.kids[i], s'.kids[i], r, t);
      }
    }
  }

  /** The node stands for t, and v is what can be reached of it. */
  ghost predicate Sees(env: Env, s: Shape, r: NodeRef, t: Tree, v: Tree) {
    || (!r.NoNode? && RefOf(s) == r && TreeOf(s) == t && View(env, s) == v)
    || (s.SInner? && exists i :: 0 <= i < |s.kids| && Sees(env, s.kids[i], r, t, v))
  }

  /** The same subtree with some more of what can be reached loaded. */
  ghost predicate Keeps(env: Env, s: Shape, s': Shape) {
    || s == s'
    || (s.SStub? && TreeOf(s') == s.tree && View(env, s') == View(env, s))
    || (s.SInner? && s'.SInner? && s'.node == s.node && |s'.kids| == |s.kids|
        && forall i :: 0 <= i < |s.kids| ==> Keeps(env, s.kids[i], s'.kids[i]))
  }

  lemma {:induction false} SeesHolds(env: Env, s: Shape, r: NodeRef, t: Tree, v: Tree)
    requires Sees(env, s, r, t, v)
    ensures Holds(s, r, t)
    decreases s
  {
    if !(!r.NoNode? && RefOf(s) == r && TreeOf(s) == t) {
      var i :| 0 <= i < |s.kids| && Sees(env, s.kids[i], r, t, v);
      SeesHolds(env, s.kids[i], r, t, v);
    }
  }

  lemma {:induction false} HoldsSees(env: Env, s: Shape, r: NodeRef, t: Tree) returns (v: Tree)
    requires Holds(s, r, t)
    ensures Sees(env, s, r, t, v)
    decreases s
  {
    if !r.NoNode? && RefOf(s) == r && TreeOf(s) == t {
      v := View(env, s);
    } else {
      var i :| 0 <= i < |s.kids| && Holds(s.kids[i], r, t);
      v := HoldsSees(env, s.kids[i], r, t);
    }
  }

  lemma {:induction false} KeepsSelf(env: Env, s: Shape)
    ensures Keeps(env, s, s)
  {
  }

  lemma {:induction false} KeepsView(env: Env, s: Shape, s': Shape)
    requires Keeps(env, s, s')
    ensures Refines(s, s') && TreeOf(s') == TreeOf(s) && View(env, s') == View(env, s)
    decreases s
  {
    if s != s' && s.SInner? {
      forall i | 0 <= i < |s.kids|
        ensures Refines(s.kids[i], s'.kids[i]) && TreeOf(s'.kids[i]) == TreeOf(s.kids[i]) && View(env, s'.kids[i]) == View(env, s.kids[i])
      {
        KeepsView(env, s.kids[i], s'.kids[i]);
      }
      assert Trees(s'.kids) == Trees(s.kids) && Views(env, s'.kids) == Views(env, s.kids);
    }
  }

  lemma {:induction false} KeepsTwice(env: Env, s: Shape, s': Shape, s'': Shape)
    requires Keeps(env, s, s') && Keeps(env, s', s'')
    ensures Keeps(env, s, s'')
    decreases s
  {
    if s.SStub? {
      if s' != s { KeepsView(env, s', s''); }
    } else if s != s' && s' != s'' {
      forall i | 0 <= i < |s.kids| ensures Keeps(env, s.kids[i], s''.kids[i]) {
        KeepsTwice(env, s.kids[i], s'.kids[i], s''.kids[i]);
      }
    }
  }

  lemma {:induction false} StillSees(env: Env, s: Shape, s': Shape, r: NodeRef, t: Tree, v: Tree)
    requires Keeps(env, s, s') && Sees(env, s, r, t, v)
    ensures Sees(env, s', r, t, v)
    decreases s
  {
    if s != s' {
      KeepsView(env, s, s');
      if !(!r.NoNode? && RefOf(s) == r && TreeOf(s) == t && View(env, s) == v) {
        var i :| 0 <= i < |s.kids| && Sees(env, s.kids[i], r, t, v);
        StillSees(env, s.kids[i], s'.kids[i], r, t, v);
      }
    }
  }

  lemma {:induction false} KeepsKid(env: Env, n: InnerNode, kids: seq<Shape>, ks: seq<Shape>, i: nat)
    requires i < |kids| == |ks| && Keeps(env, kids[i], ks[i]) && forall j :: 0 <= j < |kids| && j != i ==> ks[j] == kids[j]
    ensures Keeps(env, SInner(n, kids), SInner(n, ks))
  {
  }

  lemma {:induction false} KeepsPlug(env: Env, p: Path, x: Shape, x': Shape)
    requires Formed(p) && Keeps(env, x, x')
    ensures Keeps(env, Plug(p, x), Plug(p, x'))
    decreases p
  {
    if p.Down? {
      KeepsKid(env, p.node, p.kids[p.branch := x], p.kids[p.branch := x'], p.branch);
      KeepsPlug(env, p.up, SInner(p.node, p.kids[p.branch := x]), SInner(p.node, p.kids[p.branch := x']));
    }
  }

  /** What the node object says about the subtree it stands for. */
  lemma {:induction false} HoldsFacts(env: Env, s: Shape, r: NodeRef, t: Tree)
    requires Rep(env, s) && Holds(s, r, t)
    ensures RefHash(r) == HashOf(t)
    ensures match r case NoNode => false case LeafRef(l) => t == Leaf(l.kind, l.item) && l in Foot(s) case InnerRef(n) => t.Inner? && n in Foot(s)
    decreases s
  {
    if !(!r.NoNode? && RefOf(s) == r && TreeOf(s) == t) {
      var i :| 0 <= i < |s.kids| && Holds(s.kids[i], r, t);
      HoldsFacts(env, s.kids[i], r, t);
    }
  }

  /** The way from the root of s to a node of it. */
  lemma {:induction false} WayTo(env: Env, s: Shape, p: Path, x: Shape, r: NodeRef, t: Tree, v: Tree) returns (q: Path, y: Shape)
    requires Opened(env, p, x) && Within(s, p, x) && Formed(p) && Plug(p, x) == s && Sees(env, x, r, t, v)
    ensures Opened(env, q, y) && Within(s, q, y) && Formed(q) && Plug(q, y) == s && RefOf(y) == r && TreeOf(y) == t && View(env, y) == v
    decreases x
  {
    hide Opened, Within, TreeOf, View, Foot;
    if !r.NoNode? && RefOf(x) == r && TreeOf(x) == t && View(env, x) == v {
      q, y := p, x;
    } else {
      var i :| 0 <= i < |x.kids| && Sees(env, x.kids[i], r, t, v);
      Descended(env, s, p, x.node, x.kids, i);
      assert x.kids[i := x.kids[i]] == x.kids;
      q, y := WayTo(env, s, Down(p, x.node, x.kids, i), x.kids[i], r, t, v);
    }
  }

  /** The child of a node of the map at a branch; a backed map loads it from the store on first use. */
  method Child(sm: SHAMap, n: InnerNode, i: nat, ghost t: Tree, ghost v: Tree) returns (ok: bool, child: NodeRef)
    requires sm.HeapOk(EnvOf(sm.family)) && Sees(EnvOf(sm.family), sm.shape, InnerRef(n), t, v) && i < BRANCH_FACTOR
    modifies sm`shape, n`children
    ensures sm.HeapOk(EnvOf(sm.family)) && Keeps(EnvOf(sm.family), old(sm.shape), sm.shape)
    ensures forall o :: o in Foot(sm.shape) ==> o in old(Foot(sm.shape)) || fresh(o)
    ensures t.Inner? && v.Inner? && |t.kids| == |v.kids| == BRANCH_FACTOR
    ensures if ok then ChildIs(EnvOf(sm.family), sm.shape, child, t.kids[i], v.kids[i]) else MayFail(sm.family) && v.kids[i].Stub?
  {
    hide Rep, Distinct, Foot, TreeOf, View, Opened, Sees, Keeps, Within, Plug;
    ghost var env, s := EnvOf(sm.family), sm.shape;
    OpenTop(env, s);
    PlugTop(s);
    ghost var p, y := WayTo(env, s, Top, s, InnerRef(n), t, v);
    ghost var ks;
    ok, child, ks := Touch(sm.family, n, i, p, y.kids);
    ChildFacts(env, s, p, n, y.kids, ks, i, t, v);
    FootAllocated(Plug(p, SInner(n, ks)));
    sm.shape := Plug(p, SInner(n, ks));
  }

  lemma {:induction false} PlugTop(s: Shape)
    ensures Formed(Top) && Plug(Top, s) == s
  {
  }

  lemma {:induction false} ChildFacts(env: Env, s: Shape, p: Path, n: InnerNode, kids: seq<Shape>, ks: seq<Shape>, i: nat, t: Tree, v: Tree)
    requires Opened(env, p, SInner(n, ks)) && Formed(p) && Plug(p, SInner(n, kids)) == s && Within(s, p, SInner(n, kids))
    requires i < |ks| == |kids| == BRANCH_FACTOR && Trees(ks) == Trees(kids)
    requires TreeOf(SInner(n, kids)) == t && View(env, SInner(n, kids)) == v && View(env, ks[i]) == View(env, kids[i])
    requires (ks[i] == kids[i] || kids[i].SStub?) && forall j :: 0 <= j < |kids| && j != i ==> ks[j] == kids[j]
    ensures t.Inner? && v.Inner? && |t.kids| == |v.kids| == BRANCH_FACTOR && v.kids[i] == View(env, kids[i])
    ensures var s' := Plug(p, SInner(n, ks));
      && s'.SInner? && s'.node == s.node && Rep(env, s') && Distinct(s') && Keeps(env, s, s')
      && Foot(s') == PathFoot(p) + Foot(SInner(n, ks)) && Foot(s) == PathFoot(p) + Foot(SInner(n, kids))
      && (RefOf(ks[i]) != NoNode || (ks[i].SStub? ==> !env.backed) ==> ChildIs(env, s', RefOf(ks[i]), t.kids[i], v.kids[i]))
  {
    hide Opened, Rep, Distinct, Foot, Plug, Sees, Keeps, View;
    CloseFacts(env, s, p, SInner(n, ks));
    PlugFoot(p, SInner(n, kids));
    ChildKid(env, n, kids, ks, i);
    KeepsKid(env, n, kids, ks, i);
    KeepsPlug(env, p, SInner(n, kids), SInner(n, ks));
    SeesKid(env, n, ks, i);
    if RefOf(ks[i]) == NoNode {
      if ks[i].SStub? ==> !env.backed { OpenedKid(env, p, n, ks, i); }
    } else {
      SeesPlug(env, p, SInner(n, ks), RefOf(ks[i]), TreeOf(ks[i]), View(env, ks[i]));
    }
  }

  lemma {:induction false} ChildKid(env: Env, n: InnerNode, kids: seq<Shape>, ks: seq<Shape>, i: nat)
    requires i < |ks| == |kids| && Trees(ks) == Trees(kids) && (ks[i] == kids[i] || kids[i].SStub?) && View(env, ks[i]) == View(env, kids[i])
    ensures Keeps(env, kids[i], ks[i]) && TreeOf(ks[i]) == TreeOf(kids[i]) == Trees(kids)[i]
    ensures View(env, SInner(n, kids)) == Inner(Views(env, kids)) && Views(env, kids)[i] == View(env, kids[i])
    ensures !ks[i].SInner? && !ks[i].SLeaf? && !ks[i].SStub? ==> View(env, ks[i]).Nil?
    ensures RefOf(ks[i]) != NoNode ==> !View(env, ks[i]).Stub?
  {
    assert TreeOf(ks[i]) == Trees(ks)[i] == Trees(kids)[i];
  }

  lemma {:induction false} OpenedKid(env: Env, p: Path, n: InnerNode, kids: seq<Shape>, i: nat)
    requires Opened(env, p, SInner(n, kids)) && i < |kids| && RefOf(kids[i]) == NoNode && (kids[i].SStub? ==> !env.backed)
    ensures if TreeOf(kids[i]).Nil? then View(env, kids[i]).Nil? else TreeOf(kids[i]).Stub?
  {
    assert Rep(env, kids[i]);
  }

  lemma {:induction false} SeesKid(env: Env, n: InnerNode, kids: seq<Shape>, i: nat)
    requires i < |kids|
    ensures RefOf(kids[i]) != NoNode ==> Sees(env, SInner(n, kids), RefOf(kids[i]), TreeOf(kids[i]), View(env, kids[i]))
  {
    if RefOf(kids[i]) != NoNode { assert Sees(env, kids[i], RefOf(kids[i]), TreeOf(kids[i]), View(env, kids[i])); }
  }

  lemma {:induction false} SeesPlug(env: Env, p: Path, x: Shape, r: NodeRef, t: Tree, v: Tree)
    requires Formed(p) && Sees(env, x, r, t, v)
    ensures Sees(env, Plug(p, x), r, t, v)
    decreases p
  {
    if p.Down? {
      var y := SInner(p.node, p.kids[p.branch := x]);
      assert Sees(env, y.kids[p.branch], r, t, v);
      SeesPlug(env, p.up, y, r, t, v);
    }
  }

  // ---------- on valid maps ----------

  /** Loading nodes leaves a map as it is. */
  lemma {:induction false} StillValid(sm: SHAMap, s: Shape)
    requires sm.HeapOk(EnvOf(sm.family)) && Refines(s, sm.shape) && Stands(sm, s)
    ensures sm.Valid()
  {
    hide Rep, Distinct, CanonRoot;
    RefinesTree(s, sm.shape);
  }

  ghost predicate Stands(sm: SHAMap, s: Shape)
    reads sm`contents
  {
    && TreeOf(s) == CanonRoot(LeafKind(sm.mapType), sm.contents)
    && forall k :: k in sm.contents ==> |sm.contents[k]| >= MIN_ITEM
  }

  lemma {:induction false} ValidParts(sm: SHAMap)
    requires sm.Valid()
    ensures sm.HeapOk(EnvOf(sm.family)) && Stands(sm, sm.shape)
  {
  }

  lemma {:induction false} RootHeld(sm: SHAMap)
    requires sm.HeapOk(EnvOf(sm.family))
    ensures Holds(sm.shape, InnerRef(sm.root), TreeOf(sm.shape))
  {
  }

  lemma {:induction false} NotNil(env: Env, s: Shape, child: NodeRef, t: Tree, v: Tree)
    requires Whole(t) && ChildIs(env, s, child, t, v)
    ensures if child == NoNode then t.Nil? && v.Nil? else Sees(env, s, child, t, v) && Holds(s, child, t) && !t.Nil? && !v.Stub?
  {
    if child != NoNode {
      SeesHolds(env, s, child, t, v);
      HeldNode(s, child, t);
    }
  }

  lemma {:induction false} HeldNode(s: Shape, r: NodeRef, t: Tree)
    requires Holds(s, r, t)
    ensures !r.NoNode? && !t.Nil? && (r.LeafRef? ==> t == Leaf(r.leaf.kind, r.leaf.item)) && (r.InnerRef? <==> t.Inner?)
    decreases s
  {
    if !(!r.NoNode? && RefOf(s) == r && TreeOf(s) == t) {
      var i :| 0 <= i < |s.kids| && Holds(s.kids[i], r, t);
      HeldNode(s.kids[i], r, t);
    }
  }

  lemma {:induction false} HeldIn(sm: SHAMap, n: InnerNode, t: Tree)
    requires sm.Valid() && Holds(sm.shape, InnerRef(n), t)
    ensures n in Inners(sm.shape)
  {
    HoldsFacts(EnvOf(sm.family), sm.shape, InnerRef(n), t);
  }

  /** The child of a node of a valid map: there is none exactly where the branch is empty, and none is to be had exactly where it cannot be reached. */
  method Sight(sm: SHAMap, n: InnerNode, i: nat, ghost t: Tree, ghost v: Tree) returns (ok: bool, child: NodeRef)
    requires sm.Valid() && Sees(EnvOf(sm.family), sm.shape, InnerRef(n), t, v) && Whole(t) && i < BRANCH_FACTOR
    modifies sm`shape, n`children
    ensures sm.Valid() && Keeps(EnvOf(sm.family), old(sm.shape), sm.shape)
    ensures forall o :: o in Foot(sm.shape) ==> o in old(Foot(sm.shape)) || fresh(o)
    ensures t.Inner? && v.Inner? && |t.kids| == |v.kids| == BRANCH_FACTOR
    ensures !ok ==> MayFail(sm.family) && v.kids[i].Stub?
    ensures ok && child == NoNode ==> t.kids[i].Nil? && v.kids[i].Nil?
    ensures ok && child != NoNode ==> Sees(EnvOf(sm.family), sm.shape, child, t.kids[i], v.kids[i]) && Holds(sm.shape, child, t.kids[i])
    ensures ok && child != NoNode ==> !t.kids[i].Nil? && !v.kids[i].Stub?
  {
    hide SHAMap.HeapOk, Stands, Sees, Holds, Keeps, Refines, Foot, ChildIs;
    ghost var s := sm.shape;
    ValidParts(sm);
    ok, child := Child(sm, n, i, t, v);
    KeepsView(EnvOf(sm.family), s, sm.shape);
    StillValid(sm, s);
    if ok { NotNil(EnvOf(sm.family), sm.shape, child, t.kids[i], v.kids[i]); }
  }

  /** The same without regard to what can be reached. */
  method Reach(sm: SHAMap, n: InnerNode, i: nat, ghost t: Tree) returns (ok: bool, child: NodeRef)
    requires sm.Valid() && Holds(sm.shape, InnerRef(n), t) && Whole(t) && i < BRANCH_FACTOR
    modifies sm`shape, n`children
    ensures sm.Valid() && Refines(old(sm.shape), sm.shape) && Holds(sm.shape, InnerRef(n), t)
    ensures forall o :: o in Foot(sm.shape) ==> o in old(Foot(sm.shape)) || fresh(o)
    ensures t.Inner? && |t.kids| == BRANCH_FACTOR
    ensures if ok then (if child == NoNode then t.kids[i].Nil? else Holds(sm.shape, child, t.kids[i]) && !t.kids[i].Nil?)
            else MayFail(sm.family)
  {
    hide SHAMap.Valid, Sees, Holds, Keeps, Refines, Foot;
    ghost var env, s := EnvOf(sm.family), sm.shape;
    ghost var v := HoldsSees(env, s, InnerRef(n), t);
    ok, child := Sight(sm, n, i, t, v);
    KeepsView(env, s, sm.shape);
    StillHolds(s, sm.shape, InnerRef(n), t);
  }

  /** The branch bits of a node of a valid map. */
  lemma {:induction false} BitOf(sm: SHAMap, n: InnerNode, t: Tree, i: nat)
    requires sm.Valid() && Holds(sm.shape, InnerRef(n), t) && i < BRANCH_FACTOR
    ensures n.Sized() && t.Inner? && |t.kids| == BRANCH_FACTOR && n.isBranch[i] == !t.kids[i].Nil?
  {
    BitIn(EnvOf(sm.family), sm.shape, n, t, i);
  }

  lemma {:induction false} BitIn(env: Env, s: Shape, n: InnerNode, t: Tree, i: nat)
    requires Rep(env, s) && Holds(s, InnerRef(n), t) && i < BRANCH_FACTOR
    ensures n.Sized() && t.Inner? && |t.kids| == BRANCH_FACTOR && n.isBranch[i] == !t.kids[i].Nil?
    decreases s
  {
    if RefOf(s) == InnerRef(n) && TreeOf(s) == t {
      RepNil(env, s.kids[i]);
    } else {
      var j :| 0 <= j < |s.kids| && Holds(s.kids[j], InnerRef(n), t);
      BitIn(env, s.kids[j], n, t, i);
    }
  }
}
