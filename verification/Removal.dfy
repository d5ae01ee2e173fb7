/** Removal on node objects: the path is copied and collapsed bottom-up. */
module Removal {
  import opened Bytes
  import opened Tree
  import opened Codec
  import opened Storage
  import opened Nodes
  import opened Shapes
  import opened Canonical
  import opened Walking
  import opened Insertion
  import opened Cloning

  // ---------- the reference ----------

  /** i is the only branch in use. */
  ghost predicate OnlyAt(kids: seq<Tree>, i: int) {
    0 <= i < |kids| && !kids[i].Nil? && forall j :: 0 <= j < |kids| && j != i ==> kids[j].Nil?
  }

  /** The item of the only leaf below a node reached through nodes with one child each. */
  ghost function OnlyItem(t: Tree): Option<Item> {
    match t
    case Leaf(_, item) => Some(item)
    case Inner(kids) => if i :| OnlyAt(kids, i) then OnlyItem(kids[i]) else None
    case _ => None
  }

  lemma {:induction false} OnlyItemInner(kids: seq<Tree>, i: nat)
    requires OnlyAt(kids, i)
    ensures OnlyItem(Inner(kids)) == OnlyItem(kids[i])
  {
  }

  lemma {:induction false} OnlyItemLeaf(s: Shape)
    requires s.SLeaf?
    ensures OnlyItem(TreeOf(s)) == Some(s.leaf.item)
  {
  }

  lemma {:induction false} OnlyItemNone(kids: seq<Tree>)
    requires !exists i :: OnlyAt(kids, i)
    ensures OnlyItem(Inner(kids)) == None
  {
  }

  /** In a canonical tree this is the case exactly when one entry is left. */
  lemma {:induction false} OnlyOfKids(kind: Kind, m: Contents, key: Key, d: nat)
    requires d < MAX_DEPTH
    ensures var u := Under(m, key, d); var only := OnlyItem(Inner(CanonKids(kind, u, d)));
      && (only.Some? <==> |u| == 1)
      && (only.Some? ==> u == map[only.value.key := only.value.data])
    decreases MAX_DEPTH - d
  {
    hide Canon, Under, Sub, SelectBranch, OnlyItem;
    var u := Under(m, key, d);
    var kids := CanonKids(kind, u, d);
    if i :| OnlyAt(kids, i) {
      OnlyItemInner(kids, i);
      OnlyOfKid(kind, m, key, d, i);
      if d + 1 < MAX_DEPTH && |u| >= 2 {
        var k :| k in u;
        OnlyOfKids(kind, m, k, d + 1);
      } else {
        LeafOnly(kids[i]);
      }
    } else {
      OnlyItemNone(kids);
      if |u| == 1 { OneEntry(kind, u, d); }
    }
  }

  lemma {:induction false} LeafOnly(t: Tree)
    ensures t.Leaf? ==> OnlyItem(t) == Some(t.item)
  {
  }

  lemma {:induction false} OnlyOfKid(kind: Kind, m: Contents, key: Key, d: nat, i: nat)
    requires d < MAX_DEPTH && OnlyAt(CanonKids(kind, Under(m, key, d), d), i)
    ensures var u := Under(m, key, d); var kid := CanonKids(kind, u, d)[i];
      && u != map[]
      && (|u| == 1 ==> kid.Leaf? && u == map[kid.item.key := kid.item.data])
      && (|u| >= 2 ==> d + 1 < MAX_DEPTH && forall k :: k in u ==> Under(m, k, d + 1) == u && kid == Inner(CanonKids(kind, Under(m, k, d + 1), d + 1)))
  {
    hide Canon, Under, Sub, SelectBranch;
    var u := Under(m, key, d);
    OnlyBranch(kind, u, d, i);
    CanonNil(kind, Sub(u, d, i), d + 1);
    forall k | k in u ensures Under(m, k, d + 1) == u {
      InUnder(m, key, k, d);
      UnderSwap(m, key, k, d);
      UnderStep(m, k, d);
    }
    var k :| k in u;
    CanonCases(kind, m, k, d + 1);
  }

  lemma {:induction false} InUnder(m: Contents, key: Key, k: Key, d: nat)
    requires k in Under(m, key, d)
    ensures SamePrefix(k, key, d)
  {
  }

  lemma {:induction false} UnderSwap(m: Contents, key: Key, k: Key, d: nat)
    requires SamePrefix(k, key, d)
    ensures Under(m, key, d) == Under(m, k, d)
  {
  }

  /** If one branch is in use, every key takes it. */
  lemma {:induction false} OnlyBranch(kind: Kind, u: Contents, d: nat, i: int)
    requires d < MAX_DEPTH && OnlyAt(CanonKids(kind, u, d), i)
    ensures Sub(u, d, i) == u && forall k :: k in u ==> SelectBranch(k, d) == i
  {
    forall k | k in u ensures SelectBranch(k, d) == i {
      var j := SelectBranch(k, d);
      assert k in Sub(u, d, j);
      assert CanonKids(kind, u, d)[j] == Canon(kind, Sub(u, d, j), d + 1);
    }
  }

  lemma {:induction false} OneEntry(kind: Kind, u: Contents, d: nat)
    requires d < MAX_DEPTH && |u| == 1
    ensures exists i :: OnlyAt(CanonKids(kind, u, d), i)
  {
    var k :| k in u;
    SingleIs(u, k);
    var kids, b := CanonKids(kind, u, d), SelectBranch(k, d);
    forall j | 0 <= j < BRANCH_FACTOR ensures kids[j].Nil? <==> j != b {
      if j == b {
        assert k in Sub(u, d, j);
      } else {
        assert Sub(u, d, j) == map[];
      }
    }
    assert OnlyAt(kids, b);
  }

  /** What an inner node on the path turns into, by the number of branches it has left. */
  lemma {:induction false} SomeKid(kind: Kind, u: Contents, d: nat)
    requires d < MAX_DEPTH
    ensures u == map[] <==> forall i :: 0 <= i < BRANCH_FACTOR ==> CanonKids(kind, u, d)[i].Nil?
  {
    hide Canon;
    forall i | 0 <= i < BRANCH_FACTOR ensures CanonKids(kind, u, d)[i].Nil? <==> Sub(u, d, i) == map[] {
      CanonNil(kind, Sub(u, d, i), d + 1);
    }
    if k :| k in u {
      assert k in Sub(u, d, SelectBranch(k, d));
      assert !CanonKids(kind, u, d)[SelectBranch(k, d)].Nil?;
    } else {
      assert forall i :: 0 <= i < BRANCH_FACTOR ==> Sub(u, d, i) == map[];
    }
  }

  lemma {:induction false} CollapseFacts(kind: Kind, m: Contents, key: Key, d: nat, bits: seq<bool>)
    requires 0 < d < MAX_DEPTH && |bits| == BRANCH_FACTOR
    requires forall i :: 0 <= i < BRANCH_FACTOR ==> bits[i] == !CanonKids(kind, Under(m, key, d), d)[i].Nil?
    ensures var kids := CanonKids(kind, Under(m, key, d), d); var only := OnlyItem(Inner(kids));
      NodeAt(kind, m, key, d) == if CountBits(bits) == 0 then Nil
                                 else if CountBits(bits) == 1 && only.Some? then Leaf(kind, only.value)
                                 else Inner(kids)
  {
    hide OnlyItem, Canon;
    var u := Under(m, key, d);
    var kids := CanonKids(kind, u, d);
    CountBitsFacts(bits);
    OnlyOfKids(kind, m, key, d);
    CanonCases(kind, m, key, d);
    SomeKid(kind, u, d);
    if |u| == 1 {
      OneEntry(kind, u, d);
      var i :| OnlyAt(kids, i);
      assert OnlySet(bits, i);
    }
  }

  // ---------- on node objects ----------

  /** Makes sure the child at branch i is loaded; the node stays where it is. */
  method Touch(family: MemoryFamily?, n: InnerNode, i: nat, ghost p: Path, ghost kids: seq<Shape>)
    returns (ok: bool, child: NodeRef, ghost ks: seq<Shape>)
    requires i < BRANCH_FACTOR && Opened(EnvOf(family), p, SInner(n, kids))
    modifies n`children
    ensures Opened(EnvOf(family), p, SInner(n, ks)) && |ks| == |kids| == BRANCH_FACTOR && Trees(ks) == Trees(kids)
    ensures if ok then child == RefOf(ks[i]) && (ks[i].SStub? ==> family == null) else MayFail(family)
    ensures forall j :: 0 <= j < |kids| && j != i ==> ks[j] == kids[j]
    ensures ks[i] == kids[i] || kids[i].SStub?
    ensures View(EnvOf(family), ks[i]) == View(EnvOf(family), kids[i]) && (!ok ==> View(EnvOf(family), ks[i]).Stub?)
    ensures forall o :: o in Foot(SInner(n, ks)) ==> o in Foot(SInner(n, kids)) || fresh(o)
  {
    hide Opened, Trees, Foot;
    ghost var env := EnvOf(family);
    ghost var kid;
    ok, child, kid := StepDown(family, n, i, p, kids);
    ks := kids[i := kid];
    StepBack(env, p, n, kids, i, kid);
  }

  /** One level up again after a child has been loaded. */
  lemma {:induction false} StepBack(env: Env, p: Path, n: InnerNode, kids: seq<Shape>, i: nat, kid: Shape)
    requires i < |kids| == BRANCH_FACTOR && TreeOf(kid) == TreeOf(kids[i])
    requires Opened(env, Down(p, n, kids[i := kid], i), kid)
    ensures Opened(env, p, SInner(n, kids[i := kid])) && Trees(kids[i := kid]) == Trees(kids)
    ensures forall o :: o in Foot(SInner(n, kids[i := kid])) ==> o in Foot(SInner(n, kids)) || o in Foot(kid)
    ensures Foot(kids[i]) <= Foot(SInner(n, kids))
  {
    hide Rep, Distinct, Local;
    var ks := kids[i := kid];
    CloseStep(env, Down(p, n, ks, i), kid);
    assert ks[i := kid] == ks;
    TreesUpdate(kids, i, kid);
    assert Trees(ks) == Trees(kids);
    FootUpdate(n, kids, i, kid);
    assert Siblings(kids, i) <= Foot(SInner(n, kids));
  }

  /** Looks for children from branch 0 on and stops at the second one. */
  method ScanKids(family: MemoryFamily?, n: InnerNode, ghost p: Path, ghost kids: seq<Shape>)
    returns (ok: bool, first: Option<nat>, many: bool, ghost ks: seq<Shape>)
    requires Opened(EnvOf(family), p, SInner(n, kids)) && Whole(Inner(Trees(kids)))
    modifies n`children
    ensures Opened(EnvOf(family), p, SInner(n, ks)) && |ks| == BRANCH_FACTOR && Trees(ks) == Trees(kids)
    ensures forall o :: o in Foot(SInner(n, ks)) ==> o in Foot(SInner(n, kids)) || fresh(o)
    ensures !ok ==> MayFail(family)
    ensures ok && !many && first.None? ==> Bare(Trees(kids))
    ensures ok && !many && first.Some? ==> OnlyAt(Trees(kids), first.value) && !ks[first.value].SStub?
    ensures ok && many ==> !exists i :: OnlyAt(Trees(kids), i)
  {
    hide Opened, Foot;
    ok, first, many, ks := true, None, false, kids;
    OpenedWide(EnvOf(family), p, n, kids);
    for i := 0 to BRANCH_FACTOR
      invariant ok && Opened(EnvOf(family), p, SInner(n, ks)) && |ks| == BRANCH_FACTOR && Trees(ks) == Trees(kids)
      invariant forall o :: o in Foot(SInner(n, ks)) ==> o in Foot(SInner(n, kids)) || fresh(o)
      invariant first.None? ==> forall j :: 0 <= j < i ==> Trees(kids)[j].Nil?
      invariant first.Some? ==> first.value < i && !Trees(kids)[first.value].Nil? && !ks[first.value].SStub?
      invariant first.Some? ==> forall j :: 0 <= j < i && j != first.value ==> Trees(kids)[j].Nil?
    {
      var child;
      ghost var next;
      ok, child, next := Touch(family, n, i, p, ks);
      ks := next;
      if !ok {
        return;
      }
      TouchedNil(EnvOf(family), p, n, next, i);
      if !child.NoNode? {
        if first.Some? {
          many := true;
          return;
        }
        first := Some(i);
      }
    }
  }

  lemma {:induction false} OpenedWide(env: Env, p: Path, n: InnerNode, kids: seq<Shape>)
    requires Opened(env, p, SInner(n, kids))
    ensures |kids| == BRANCH_FACTOR
  {
  }

  lemma {:induction false} TouchedNil(env: Env, p: Path, n: InnerNode, kids: seq<Shape>, i: nat)
    requires i < |kids| && Opened(env, p, SInner(n, kids)) && Whole(Inner(Trees(kids)))
    requires kids[i].SStub? ==> !env.backed
    ensures RefOf(kids[i]).NoNode? <==> Trees(kids)[i].Nil?
    ensures !kids[i].SStub?
  {
    assert Whole(Trees(kids)[i]);
    assert Rep(env, kids[i]);
  }

  /** The item of the only leaf below a node, if there is exactly one way down. */
  method OnlyBelow(family: MemoryFamily?, node: NodeRef, ghost s: Shape) returns (ok: bool, item: Option<Item>, ghost s': Shape)
    requires s.SInner? && RefOf(s) == node && Rep(EnvOf(family), s) && Distinct(s) && Whole(TreeOf(s))
    requires family == null || family !in Foot(s)
    modifies Foot(s)
    ensures EnvOf(family) == old(EnvOf(family))
    ensures if ok then item == OnlyItem(TreeOf(s)) else MayFail(family)
    ensures s'.SInner? && s'.node == s.node && Rep(EnvOf(family), s') && Distinct(s') && TreeOf(s') == TreeOf(s)
    ensures forall o :: o in Foot(s') ==> o in Foot(s) || fresh(o)
  {
    hide Rep, Distinct, PathOk, OnlyItem, Local;
    ghost var env := EnvOf(family);
    ghost var p, cur := Top, s;
    FootAllocated(s);
    OpenTop(env, s);
    var current := node;
    while current.InnerRef?
      invariant EnvOf(family) == env && Opened(env, p, cur) && current == RefOf(cur) && !current.NoNode?
      invariant Within(s, p, cur) && Whole(TreeOf(cur)) && OnlyItem(TreeOf(s)) == OnlyItem(TreeOf(cur))
      invariant forall o :: o in PathFoot(p) + Foot(cur) ==> o in Foot(s) || fresh(o)
      decreases TreeOf(cur)
    {
      var n := current.inner;
      var first, many;
      ghost var ks;
      ok, first, many, ks := ScanKids(family, n, p, cur.kids);
      ghost var here := SInner(n, ks);
      if !ok || many || first.None? {
        if ok { OnlyItemNone(Trees(ks)); }
        CloseFacts(env, s, p, here);
        return ok, None, Plug(p, here);
      }
      var b := first.value;
      OnlyItemInner(Trees(ks), b);
      Descended(env, s, p, n, ks, b);
      p, cur := Down(p, n, ks, b), ks[b];
      current := n.children[b];
    }
    CloseFacts(env, s, p, cur);
    OnlyItemLeaf(cur);
    ok, item, s' := true, Some(current.leaf.item), Plug(p, cur);
  }

  /** A copy of the node with another child at one branch; the node itself is left alone. */
  method CopyWith(n: InnerNode, branch: nat, child: NodeRef, ghost env: Env, ghost s: Shape, ghost x: Shape)
    returns (c: InnerNode, ghost y: Shape)
    requires s.SInner? && s.node == n && Rep(env, s) && branch < BRANCH_FACTOR
    requires RefOf(x) == child && Rep(env, x) && Distinct(x) && !x.SStub?
    ensures |s.kids| == BRANCH_FACTOR
    ensures RefOf(y) == InnerRef(c) && Rep(env, y) && Distinct(y) && TreeOf(y) == Inner(Trees(s.kids)[branch := TreeOf(x)])
    ensures forall o :: o in Foot(y) ==> o in Foot(x) || fresh(o)
  {
    hide Rep, Distinct, TreeOf;
    ghost var cs;
    FootAllocated(x);
    FootAllocated(s);
    c, cs := CloneInner(n, env, s);
    CopyFacts(env, s, cs);
    CopyCarries(cs, branch, x);
    y := SInner(c, cs.kids[branch := x]);
    SetKid(c, branch, child, env, cs.kids, x);
  }

  lemma {:induction false} CopyFacts(env: Env, s: Shape, c: Shape)
    requires s.SInner? && c.SInner? && IsCopy(env, s, c) && Rep(env, s)
    ensures |s.kids| == BRANCH_FACTOR && Local(env, c.node, c.kids) && Trees(c.kids) == Trees(s.kids)
    ensures forall i :: 0 <= i < |c.kids| ==> Rep(env, c.kids[i]) && c.node !in Foot(c.kids[i])
  {
  }

  lemma {:induction false} CopyCarries(c: Shape, b: nat, x: Shape)
    requires c.SInner? && Distinct(c) && b < |c.kids| && Distinct(x) && Foot(x) !! Foot(c)
    ensures var y := SInner(c.node, c.kids[b := x]);
      Distinct(y) && Foot(y) <= Foot(c) + Foot(x) && TreeOf(y) == Inner(Trees(c.kids)[b := TreeOf(x)])
  {
    FootUpdate(c.node, c.kids, b, x);
    assert Siblings(c.kids, b) <= Foot(c);
    DistinctUpdate(c.node, c.kids, b, x);
    TreesUpdate(c.kids, b, x);
  }

  /** Drops an inner node without branches, replaces one with a single leaf below it by that leaf. */
  method Collapse(family: MemoryFamily?, kind: Kind, c: InnerNode, ghost y: Shape, ghost m: Contents, ghost key: Key, ghost d: nat)
    returns (ok: bool, next: NodeRef, ghost x: Shape)
    requires 0 < d < MAX_DEPTH && RefOf(y) == InnerRef(c) && Rep(EnvOf(family), y) && Distinct(y)
    requires family == null || family !in Foot(y)
    requires TreeOf(y) == Inner(CanonKids(kind, Under(m, key, d), d))
    requires forall k :: k in m ==> |m[k]| >= MIN_ITEM
    modifies Foot(y)
    ensures EnvOf(family) == old(EnvOf(family))
    ensures !ok ==> MayFail(family)
    ensures ok ==> next == RefOf(x) && Rep(EnvOf(family), x) && Distinct(x) && !x.SStub?
    ensures ok ==> TreeOf(x) == NodeAt(kind, m, key, d)
    ensures ok ==> forall o :: o in Foot(x) ==> o in Foot(y) || fresh(o)
  {
    hide Rep, Distinct, OnlyItem, NodeAt, Local, Foot, TreeOf, CanonKids, Under, Sub, Canon, View, Whole;
    ghost var env := EnvOf(family);
    BitsOf(env, y, c);
    CollapseFacts(kind, m, key, d, c.isBranch);
    OnlyOfKids(kind, m, key, d);
    KidsWhole(kind, Under(m, key, d), d);
    var count := CountBits(c.isBranch);
    ok := true;
    if count == 0 {
      next, x := NoNode, SNil;
      NilRep(env);
    } else if count == 1 {
      var only;
      ghost var y';
      ok, only, y' := OnlyBelow(family, InnerRef(c), y);
      if !ok {
        return false, NoNode, SNil;
      }
      if only.Some? {
        OnlyInMap(m, key, d, only.value);
        var leaf := new LeafNode(kind, only.value, true);
        next, x := LeafRef(leaf), SLeaf(leaf);
        LeafRep(env, leaf);
      } else {
        next, x := InnerRef(c), y';
      }
    } else {
      next, x := InnerRef(c), y;
    }
  }

  lemma {:induction false} OnlyInMap(m: Contents, key: Key, d: nat, it: Item)
    requires Under(m, key, d) == map[it.key := it.data]
    ensures it.key in m && m[it.key] == it.data
  {
    UnderAt(m, key, d, it.key);
  }

  lemma {:induction false} BitsOf(env: Env, y: Shape, c: InnerNode)
    requires RefOf(y) == InnerRef(c) && Rep(env, y)
    ensures c.Sized() && TreeOf(y).Inner? && |TreeOf(y).kids| == BRANCH_FACTOR
    ensures forall i :: 0 <= i < BRANCH_FACTOR ==> c.isBranch[i] == !TreeOf(y).kids[i].Nil?
  {
    forall i | 0 <= i < BRANCH_FACTOR ensures c.isBranch[i] == !TreeOf(y).kids[i].Nil? {
      RepNil(env, y.kids[i]);
    }
  }

  lemma {:induction false} NilRep(env: Env)
    ensures Rep(env, SNil) && Distinct(SNil) && TreeOf(SNil) == Nil && Foot(SNil) == {}
  {
  }

  lemma {:induction false} LeafRep(env: Env, l: LeafNode)
    requires LeafOk(env, l)
    ensures Rep(env, SLeaf(l)) && Distinct(SLeaf(l)) && TreeOf(SLeaf(l)) == Leaf(l.kind, l.item) && Foot(SLeaf(l)) == {l}
  {
  }

  lemma {:induction false} StepUp(env: Env, p: Path, z: Shape, key: Key)
    requires p.Down? && Opened(env, p, z) && Linked(p, TreeOf(z)) && Follows(p, key)
    ensures p.branch < |p.kids| == BRANCH_FACTOR && p.branch == SelectBranch(key, Depth(p.up)) && Follows(p.up, key)
    ensures var here := SInner(p.node, p.kids[p.branch := z]);
      && Opened(env, p.up, here) && Linked(p.up, TreeOf(here)) && Rep(env, here)
      && RootTree(p.up, TreeOf(here)) == RootTree(p, TreeOf(z))
      && PathFoot(p.up) + Foot(here) <= PathFoot(p) + Foot(z)
    ensures StackOf(p) == StackOf(p.up) + [p.node]
  {
    CloseStep(env, p, z);
    FootUpdate(p.node, p.kids, p.branch, z);
  }

  lemma {:induction false} GoneBelow(kind: Kind, m: Contents, key: Key, d: nat)
    requires 0 < d <= MAX_DEPTH && NodeAt(kind, m, key, d).Leaf? && NodeAt(kind, m, key, d).item.key == key
    ensures NodeAt(kind, m - {key}, key, d) == Nil
  {
    CanonCases(kind, m, key, d);
    UnderDelete(m, key, d);
    assert Under(m, key, d) - {key} == map[];
  }

  /** One level of the reference: only the child on the path differs. */
  lemma {:induction false} DeleteStep(kind: Kind, m: Contents, key: Key, d: nat, kids: seq<Tree>, x: Tree)
    requires d < MAX_DEPTH && NodeAt(kind, m, key, d) == Inner(kids)
    requires x == NodeAt(kind, m - {key}, key, d + 1)
    ensures |kids| == BRANCH_FACTOR
    ensures kids[SelectBranch(key, d) := x] == CanonKids(kind, Under(m - {key}, key, d), d)
    ensures d == 0 ==> NodeAt(kind, m - {key}, key, d) == Inner(CanonKids(kind, Under(m - {key}, key, d), d))
  {
    NodeAtStep(kind, m, key, d, kids);
    KidsDelete(kind, m, key, d);
    UnderRoot(m - {key}, key);
  }

  /** Below the path nothing is left once the leaf is gone. */
  lemma {:induction false} StartDelete(env: Env, kind: Kind, m: Contents, key: Key, p: Path, cur: Shape)
    requires p.Down? && Opened(env, p, cur) && Follows(p, key)
    requires RootTree(p, TreeOf(cur)) == CanonRoot(kind, m)
    requires cur.SLeaf? && cur.leaf.item.key == key
    ensures Linked(p, TreeOf(cur)) && Depth(p) <= MAX_DEPTH && NodeAt(kind, m - {key}, key, Depth(p)) == Nil
  {
    OpenedLinked(env, p, TreeOf(cur));
    CanonicalAt(kind, m, key, p, TreeOf(cur));
    GoneBelow(kind, m, key, Depth(p));
  }

  /** One node of the path: copied, its child replaced, collapsed unless it is the root. */
  method ConsolidateStep(family: MemoryFamily?, kind: Kind, n: InnerNode, d: nat, key: Key, child: NodeRef,
                         ghost here: Shape, ghost x: Shape, ghost m: Contents)
    returns (ok: bool, next: NodeRef, ghost x': Shape)
    requires d < MAX_DEPTH && RefOf(here) == InnerRef(n) && Rep(EnvOf(family), here)
    requires TreeOf(here) == NodeAt(kind, m, key, d)
    requires child == RefOf(x) && Rep(EnvOf(family), x) && Distinct(x) && !x.SStub?
    requires TreeOf(x) == NodeAt(kind, m - {key}, key, d + 1)
    requires family == null || family !in Foot(x)
    requires forall k :: k in m ==> |m[k]| >= MIN_ITEM
    modifies Foot(x)
    ensures EnvOf(family) == old(EnvOf(family))
    ensures !ok ==> MayFail(family)
    ensures ok ==> next == RefOf(x') && Rep(EnvOf(family), x') && Distinct(x') && !x'.SStub? && (d == 0 ==> x'.SInner?)
    ensures ok ==> TreeOf(x') == NodeAt(kind, m - {key}, key, d)
    ensures ok ==> forall o :: o in Foot(x') ==> o in Foot(x) || fresh(o)
  {
    DeleteStep(kind, m, key, d, Trees(here.kids), TreeOf(x));
    hide Rep, Distinct, NodeAt;
    var c;
    ghost var y;
    c, y := CopyWith(n, SelectBranch(key, d), child, EnvOf(family), here, x);
    if d > 0 {
      ok, next, x' := Collapse(family, kind, c, y, m - {key}, key, d);
    } else {
      ok, next, x' := true, InnerRef(c), y;
    }
  }

  /** State of the bottom-up pass: the old path above the hole, and the new subtree that goes there. */
  ghost predicate HalfWay(env: Env, kind: Kind, m: Contents, key: Key, kept: set<object>, q: Path, z: Shape, x: Shape)
    reads PathFoot(q), Foot(z), Foot(x)
  {
    && Opened(env, q, z) && Follows(q, key) && Linked(q, TreeOf(z)) && RootTree(q, TreeOf(z)) == CanonRoot(kind, m)
    && PathFoot(q) + Foot(z) <= kept && kept !! Foot(x)
    && Rep(env, x) && Distinct(x) && !x.SStub?
    && Depth(q) <= MAX_DEPTH && TreeOf(x) == NodeAt(kind, m - {key}, key, Depth(q))
  }

  method ConsolidateLevel(family: MemoryFamily?, kind: Kind, n: InnerNode, d: nat, key: Key, child: NodeRef,
                          ghost m: Contents, ghost kept: set<object>, ghost q: Path, ghost z: Shape, ghost x: Shape)
    returns (ok: bool, next: NodeRef, ghost z': Shape, ghost x': Shape)
    requires HalfWay(EnvOf(family), kind, m, key, kept, q, z, x) && child == RefOf(x)
    requires q.Down? && q.node == n && Depth(q) == d + 1
    requires family == null || family !in Foot(x)
    requires forall k :: k in m ==> |m[k]| >= MIN_ITEM
    modifies Foot(x)
    ensures EnvOf(family) == old(EnvOf(family))
    ensures !ok ==> MayFail(family)
    ensures ok ==> HalfWay(EnvOf(family), kind, m, key, kept, q.up, z', x') && next == RefOf(x') && (d == 0 ==> x'.SInner?)
    ensures ok ==> forall o :: o in Foot(x') ==> o in Foot(x) || fresh(o)
  {
    hide Opened, Rep, Distinct, Linked, NodeAt, CanonRoot, Foot, PathFoot, TreeOf, RootTree, Follows;
    ghost var env := EnvOf(family);
    PathAllocated(q.up);
    StepUp(env, q, z, key);
    z' := SInner(n, q.kids[q.branch := z]);
    FootAllocated(z');
    CanonicalAt(kind, m, key, q.up, TreeOf(z'));
    ok, next, x' := ConsolidateStep(family, kind, n, d, key, child, z', x, m);
  }

  /** The path copied bottom-up without the leaf; each copy collapses if it can. The old nodes stay as they are. */
  method ConsolidateAfterDelete(family: MemoryFamily?, kind: Kind, stack: seq<InnerNode>, key: Key,
                                ghost p: Path, ghost cur: Shape, ghost m: Contents)
    returns (ok: bool, root: NodeRef, ghost s': Shape)
    requires p.Down? && StackOf(p) == stack && Opened(EnvOf(family), p, cur) && Follows(p, key)
    requires RootTree(p, TreeOf(cur)) == CanonRoot(kind, m)
    requires cur.SLeaf? && cur.leaf.item.key == key
    requires forall k :: k in m ==> |m[k]| >= MIN_ITEM
    ensures EnvOf(family) == old(EnvOf(family))
    ensures !ok ==> MayFail(family)
    ensures ok ==> s'.SInner? && root == InnerRef(s'.node) && Rep(EnvOf(family), s') && Distinct(s') && fresh(Foot(s'))
    ensures ok ==> TreeOf(s') == CanonRoot(kind, m - {key})
  {
    hide Opened, Rep, Distinct, Linked, NodeAt, CanonRoot, Foot, PathFoot, TreeOf, RootTree, Follows;
    ghost var env := EnvOf(family);
    ghost var q, z := p, cur;
    ghost var kept := PathFoot(p) + Foot(cur);
    var st := stack;
    ok, root, s' := true, NoNode, SNil;
    NilRep(env);
    StartDelete(env, kind, m, key, p, cur);
    while st != []
      invariant ok && EnvOf(family) == env && HalfWay(env, kind, m, key, kept, q, z, s')
      invariant StackOf(q) == st && root == RefOf(s') && fresh(Foot(s'))
      invariant st == [] ==> s'.SInner?
    {
      var n := st[|st| - 1];
      st := st[..|st| - 1];
      ok, root, z, s' := ConsolidateLevel(family, kind, n, |st|, key, root, m, kept, q, z, s');
      if !ok {
        return;
      }
      q := q.up;
    }
    NodeAtTop(kind, m - {key}, key);
  }

  /** Removal on node objects. A key that is not there leaves the map as it was. */
  method DeleteItem(kind: Kind, family: MemoryFamily?, root: InnerNode, key: Key, ghost s: Shape, ghost m: Contents)
    returns (r: Change, newRoot: InnerNode, ghost s': Shape)
    requires s.SInner? && s.node == root && Rep(EnvOf(family), s) && Distinct(s)
    requires family == null || family !in Foot(s)
    requires TreeOf(s) == CanonRoot(kind, m) && forall k :: k in m ==> |m[k]| >= MIN_ITEM
    modifies Foot(s)
    ensures EnvOf(family) == old(EnvOf(family))
    ensures s'.SInner? && s'.node == newRoot && Rep(EnvOf(family), s') && Distinct(s')
    ensures forall o :: o in Foot(s') ==> o in Foot(s) || fresh(o)
    ensures (r == LoadFailed ==> MayFail(family)) && (old(Stuck(family, s, key)) ==> r == LoadFailed)
    ensures key !in m && r == LoadFailed ==> old(Stuck(family, s, key))
    ensures r != LoadFailed ==> r == if key in m then Done else NotFound
    ensures r != Done ==> newRoot == root
    ensures TreeOf(s') == if r == Done then CanonRoot(kind, m - {key}) else TreeOf(s)
  {
    hide Rep, Distinct, PathOk, TreeOf, NodeAt, RootTree, Stuck, View;
    ghost var env := EnvOf(family);
    var walked, stack, node;
    ghost var p, cur;
    walked, stack, node, p, cur := WalkToKey(family, root, key, s);
    OpenCanonical(kind, m, s, key, env, p, cur);
    CloseFacts(env, s, p, cur);
    s', newRoot := Plug(p, cur), root;
    if !walked {
      return LoadFailed, root, s';
    }
    LookupFacts(kind, m, key, env, cur, Depth(p));
    if !node.LeafRef? || node.leaf.item.key != key {
      return NotFound, root, s';
    }
    var ok, top;
    ghost var new';
    FootAllocated(s');
    ok, top, new' := ConsolidateAfterDelete(family, kind, stack, key, p, cur, m);
    if !ok {
      return LoadFailed, root, s';
    }
    r, newRoot, s' := Done, top.inner, new';
  }
}
