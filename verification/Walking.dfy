/** Walking from the root toward a key, loading nodes on the way. */
module Walking {
  import opened Bytes
  import opened Tree
  import opened Codec
  import opened Storage
  import opened Nodes
  import opened Shapes
  import opened Canonical

  ghost function TrustOf(family: MemoryFamily?): Trust {
    if family == null then Unread else if family.complete then Complete else Gapped
  }

  ghost function EnvOf(family: MemoryFamily?): Env
    reads family
  {
    if family == null then Env(false, Complete, map[]) else Env(true, TrustOf(family), family.store)
  }

  /** The same store with other expectations. */
  ghost function EnvAs(family: MemoryFamily?, trust: Trust): Env
    reads family
  {
    if family == null then EnvOf(family) else Env(true, trust, family.store)
  }

  /** A map over a store that may lack nodes can fail to load one. */
  ghost predicate MayFail(family: MemoryFamily?) {
    family != null && !family.complete
  }

  // ---------- walking down ----------

  /** The child at a branch; a backed map loads it from the store on first use. */
  method Descend(family: MemoryFamily?, n: InnerNode, i: nat, ghost kids: seq<Shape>)
    returns (ok: bool, child: NodeRef, ghost kid: Shape)
    requires i < BRANCH_FACTOR && Local(EnvOf(family), n, kids)
    requires Rep(EnvOf(family), kids[i]) && Distinct(kids[i]) && n !in Foot(kids[i])
    modifies n`children
    ensures ok ==> child == RefOf(kid) && (kid.SStub? ==> family == null)
    ensures !ok ==> MayFail(family) && kid == kids[i]
    ensures TreeOf(kid) == TreeOf(kids[i])
    ensures View(EnvOf(family), kid) == View(EnvOf(family), kids[i]) && (!ok ==> View(EnvOf(family), kid).Stub?)
    ensures kid == kids[i] || (kids[i].SStub? && fresh(Foot(kid)))
    ensures Rep(EnvOf(family), kid) && Distinct(kid) && n !in Foot(kid)
    ensures Local(EnvOf(family), n, kids[i := kid])
  {
    child, kid, ok := n.children[i], kids[i], true;
    assert kids[i := kids[i]] == kids;
    if child != NoNode || family == null {
      return;
    }
    var hash := n.hashes[i];
    if hash == ZERO {
      return;
    }
    ghost var env := EnvOf(family);
    ok, child, kid := Load(family, hash, kid);
    if ok {
      FootAllocated(kid);
      n.SetChildDirect(i, child);
      LocalAttach(env, n, kids, i, kid);
    }
  }

  /** Fetches and parses a node that is not loaded. */
  method Load(family: MemoryFamily, hash: Hash, ghost stub: Shape)
    returns (ok: bool, child: NodeRef, ghost kid: Shape)
    requires stub.SStub? && Rep(EnvOf(family), stub) && hash == HashOf(stub.tree)
    ensures ok ==> child == RefOf(kid) && !child.NoNode? && fresh(Foot(kid))
    ensures !ok ==> MayFail(family) && kid == stub
    ensures TreeOf(kid) == stub.tree
    ensures View(EnvOf(family), kid) == Visible(EnvOf(family), stub.tree) && (!ok ==> !Loadable(EnvOf(family), stub.tree))
    ensures Rep(EnvOf(family), kid) && Distinct(kid)
  {
    StoredParses(EnvOf(family), stub.tree);
    var data := family.Fetch(hash);
    if data.None? {
      return false, NoNode, stub;
    }
    child := DeserializeFromPrefix(data.value);
    if child.NoNode? {
      return false, NoNode, stub;
    }
    kid := LoadedShape(child, stub.tree);
    LoadedRep(EnvOf(family), child, stub.tree);
    LoadedView(EnvOf(family), child, stub.tree);
    ok := true;
  }

  lemma {:induction false} LoadedView(env: Env, r: NodeRef, t: Tree)
    requires Loadable(env, t) && ((t.Leaf? && r.LeafRef? && r.leaf.kind == t.kind && r.leaf.item == t.item) || (t.Inner? && r.InnerRef?))
    ensures View(env, LoadedShape(r, t)) == Visible(env, t)
  {
    hide Loadable;
    if t.Inner? { assert Views(env, StubsOf(t.kids)) == Visibles(env, t.kids); }
  }

  lemma {:induction false} LocalAttach(env: Env, n: InnerNode, kids: seq<Shape>, i: nat, kid: Shape)
    requires i < BRANCH_FACTOR && n.Sized() && |kids| == BRANCH_FACTOR
    requires n.children[i] == RefOf(kid)
    requires forall j :: 0 <= j < BRANCH_FACTOR && j != i ==> n.children[j] == RefOf(kids[j])
    requires forall j :: 0 <= j < BRANCH_FACTOR ==> n.hashes[j] == HashOf(TreeOf(kids[j]))
    requires forall j :: 0 <= j < BRANCH_FACTOR ==> n.isBranch[j] == !kids[j].SNil?
    requires n.hash == HashOf(Inner(Trees(kids))) && CleanOk(env, n.dirty, Inner(Trees(kids)))
    requires TreeOf(kid) == TreeOf(kids[i]) && (kid.SNil? <==> kids[i].SNil?)
    ensures Local(env, n, kids[i := kid])
  {
    var ks := kids[i := kid];
    assert Trees(ks) == Trees(kids) by {
      TreesUpdate(kids, i, kid);
    }
  }

  /** The shape of a node just read: its children are stubs. */
  ghost function LoadedShape(r: NodeRef, t: Tree): Shape
    requires (t.Leaf? && r.LeafRef?) || (t.Inner? && r.InnerRef?)
  {
    match t
    case Leaf(_, _) => SLeaf(r.leaf)
    case Inner(kids) => SInner(r.inner, StubsOf(kids))
  }

  ghost function StubsOf(kids: seq<Tree>): (ks: seq<Shape>)
    ensures |ks| == |kids|
    ensures forall i :: 0 <= i < |kids| ==> ks[i] == if kids[i].Nil? then SNil else SStub(kids[i])
  {
    seq(|kids|, i requires 0 <= i < |kids| => if kids[i].Nil? then SNil else SStub(kids[i]))
  }

  lemma {:induction false} LoadedRep(env: Env, r: NodeRef, t: Tree)
    requires env.backed && Stored(env, t) && !t.Nil? && Parsed(r, Stubbed(t))
    ensures var s := LoadedShape(r, t);
      Rep(env, s) && Distinct(s) && TreeOf(s) == t && RefOf(s) == r
      && Foot(s) == if r.LeafRef? then {r.leaf} else {r.inner}
  {
    if t.Inner? {
      InnerLoaded(env, r.inner, t.kids);
    }
  }

  lemma {:induction false} InnerLoaded(env: Env, n: InnerNode, kids: seq<Tree>)
    requires env.backed && Stored(env, Inner(kids)) && Parsed(InnerRef(n), Stubbed(Inner(kids)))
    ensures var s := SInner(n, StubsOf(kids)); Rep(env, s) && Distinct(s) && TreeOf(s) == Inner(kids) && Foot(s) == {n}
  {
    hide HashOf;
    var ks := StubsOf(kids);
    assert Trees(ks) == kids;
    StubbedHash(kids);
    assert forall i :: 0 <= i < |ks| ==> Foot(ks[i]) == {};
    assert forall i :: 0 <= i < |ks| ==> HashOf(Stubbed(Inner(kids)).kids[i]) == HashOf(kids[i]) by { StubsHash(kids); }
  }

  lemma {:induction false} StubsHash(kids: seq<Tree>)
    ensures forall i :: 0 <= i < |kids| ==> HashOf(Stubbed(Inner(kids)).kids[i]) == HashOf(kids[i])
  {
  }

  /** A path and the subtree below it, opened from one valid tree. */
  ghost predicate Opened(env: Env, p: Path, cur: Shape)
    reads PathFoot(p), Foot(cur)
  {
    && PathOk(env, p)
    && Rep(env, cur) && Distinct(cur) && Foot(cur) !! PathFoot(p)
    && Fits(p, RefOf(cur), TreeOf(cur))
  }

  lemma {:induction false} OpenTop(env: Env, s: Shape)
    requires s.SInner? && Rep(env, s) && Distinct(s)
    ensures Opened(env, Top, s) && Within(s, Top, s) && PathFoot(Top) == {}
  {
  }

  lemma {:induction false} PushOk(env: Env, p: Path, n: InnerNode, kids: seq<Shape>, b: nat, kid: Shape)
    requires b < |kids| == BRANCH_FACTOR && PathOk(env, p)
    requires Distinct(SInner(n, kids)) && Foot(SInner(n, kids)) !! PathFoot(p)
    requires Fits(p, InnerRef(n), Inner(Trees(kids)))
    requires forall i :: 0 <= i < |kids| && i != b ==> Rep(env, kids[i])
    requires Rep(env, kid) && Distinct(kid) && n !in Foot(kid)
    requires Foot(kid) !! Siblings(kids, b) && Foot(kid) !! PathFoot(p)
    requires TreeOf(kid) == TreeOf(kids[b]) && Local(env, n, kids[b := kid])
    ensures Opened(env, Down(p, n, kids[b := kid], b), kid)
  {
    hide Rep, Local, HashOf, PathOk;
    var ks := kids[b := kid];
    assert Trees(ks) == Trees(kids) by {
      TreesUpdate(kids, b, kid);
    }
    assert Siblings(ks, b) == Siblings(kids, b) by {
      assert forall i :: 0 <= i < |kids| && i != b ==> ks[i] == kids[i];
    }
    RepNil(env, kid);
    assert Siblings(kids, b) <= Foot(SInner(n, kids));
    assert PathOk(env, Down(p, n, ks, b)) by { PathPushed(env, p, n, ks, b); }
  }

  lemma {:induction false} PathPushed(env: Env, p: Path, n: InnerNode, ks: seq<Shape>, b: nat)
    requires b < |ks| == BRANCH_FACTOR && PathOk(env, p) && Local(env, n, ks) && Fits(p, InnerRef(n), Inner(Trees(ks)))
    requires forall i :: 0 <= i < |ks| && i != b ==> Rep(env, ks[i]) && Distinct(ks[i]) && n !in Foot(ks[i])
    requires forall i, j :: 0 <= i < j < |ks| && i != b && j != b ==> Foot(ks[i]) !! Foot(ks[j])
    requires {n} + Siblings(ks, b) !! PathFoot(p)
    ensures PathOk(env, Down(p, n, ks, b))
  {
  }

  lemma {:induction false} OpenedParts(env: Env, p: Path, n: InnerNode, kids: seq<Shape>, b: nat)
    requires Opened(env, p, SInner(n, kids)) && b < BRANCH_FACTOR
    ensures |kids| == BRANCH_FACTOR && Local(env, n, kids) && Fits(p, InnerRef(n), Inner(Trees(kids)))
    ensures forall i :: 0 <= i < |kids| ==> Rep(env, kids[i]) && Distinct(kids[i]) && n !in Foot(kids[i])
    ensures Distinct(SInner(n, kids)) && PathOk(env, p) && Foot(SInner(n, kids)) !! PathFoot(p)
    ensures n !in PathFoot(p) && Foot(kids[b]) <= Foot(SInner(n, kids)) && Siblings(kids, b) <= Foot(SInner(n, kids)) - Foot(kids[b])
  {
  }

  /** One level down. */
  method StepDown(family: MemoryFamily?, n: InnerNode, b: nat, ghost p: Path, ghost kids: seq<Shape>)
    returns (ok: bool, child: NodeRef, ghost kid: Shape)
    requires b < BRANCH_FACTOR && Opened(EnvOf(family), p, SInner(n, kids))
    modifies n`children
    ensures ok ==> child == RefOf(kid) && (kid.SStub? ==> family == null)
    ensures !ok ==> MayFail(family) && kid == kids[b]
    ensures |kids| == BRANCH_FACTOR && TreeOf(kid) == TreeOf(kids[b])
    ensures View(EnvOf(family), kid) == View(EnvOf(family), kids[b]) && (!ok ==> View(EnvOf(family), kid).Stub?)
    ensures kid == kids[b] || (kids[b].SStub? && fresh(Foot(kid)))
    ensures Opened(EnvOf(family), Down(p, n, kids[b := kid], b), kid)
  {
    hide Rep, Distinct, Local, PathOk, HashOf, TreeOf, Fits;
    ghost var env := EnvOf(family);
    OpenedParts(env, p, n, kids, b);
    FootAllocated(SInner(n, kids));
    PathAllocated(p);
    assert Foot(kids[b]) <= Foot(SInner(n, kids));
    ok, child, kid := Descend(family, n, b, kids);
    assert Foot(kid) !! Siblings(kids, b);
    PushOk(env, p, n, kids, b, kid);
  }

  /** Path and subtree together make up the tree of s. */
  ghost predicate Within(s: Shape, p: Path, cur: Shape) {
    s.SInner? && RootTree(p, TreeOf(cur)) == TreeOf(s) && RootRef(p, RefOf(cur)) == InnerRef(s.node)
  }

  /** Path and subtree are those reached from the root of s by following key. */
  ghost predicate Reached(s: Shape, key: Key, p: Path, cur: Shape) {
    Within(s, p, cur) && Follows(p, key)
  }

  lemma {:induction false} ReachedStep(s: Shape, key: Key, p: Path, n: InnerNode, kids: seq<Shape>, b: nat, kid: Shape)
    requires Reached(s, key, p, SInner(n, kids)) && b == SelectBranch(key, Depth(p))
    requires b < |kids| && TreeOf(kid) == TreeOf(kids[b])
    ensures Reached(s, key, Down(p, n, kids[b := kid], b), kid)
    ensures StackOf(Down(p, n, kids[b := kid], b)) == StackOf(p) + [n]
    ensures TreeOf(kid) < TreeOf(SInner(n, kids))
    ensures PathFoot(Down(p, n, kids[b := kid], b)) <= PathFoot(p) + Foot(SInner(n, kids))
  {
    assert Trees(kids[b := kid]) == Trees(kids) by {
      TreesUpdate(kids, b, kid);
    }
    assert TreeOf(kid) == Trees(kids)[b];
    assert Siblings(kids[b := kid], b) <= Foot(SInner(n, kids));
  }

  /** On the way to key there is a node that cannot be reached. */
  ghost predicate Lost(v: Tree, key: Key, d: nat) {
    v.Stub? || (v.Inner? && |v.kids| == BRANCH_FACTOR && Lost(v.kids[SelectBranch(key, d)], key, d + 1))
  }

  /** On the way to key there is a node that is neither in memory nor to be had from the store. */
  ghost predicate Stuck(family: MemoryFamily?, s: Shape, key: Key)
    reads family
  {
    family != null && Lost(View(EnvOf(family), s), key, 0)
  }

  /** Loading a child leaves the view as it is. */
  lemma {:induction false} ViewStep(env: Env, key: Key, p: Path, n: InnerNode, kids: seq<Shape>, b: nat, kid: Shape)
    requires Formed(p) && b == SelectBranch(key, Depth(p)) && |kids| == BRANCH_FACTOR && View(env, kid) == View(env, kids[b])
    ensures var q := Down(p, n, kids[b := kid], b); Formed(q) && View(env, Plug(q, kid)) == View(env, Plug(p, SInner(n, kids)))
    ensures Lost(View(env, SInner(n, kids)), key, Depth(p)) <==> Lost(View(env, kid), key, Depth(p) + 1)
  {
    hide Plug;
    PlugDown(p, n, kids, b, kid);
    ViewsUpdate(env, kids, b, kid);
    ViewPlug(env, p, SInner(n, kids), SInner(n, kids[b := kid]));
  }

  lemma {:induction false} PlugDown(p: Path, n: InnerNode, kids: seq<Shape>, b: nat, kid: Shape)
    requires Formed(p) && b < |kids|
    ensures var q := Down(p, n, kids[b := kid], b); Formed(q) && Plug(q, kid) == Plug(p, SInner(n, kids[b := kid]))
  {
    assert kids[b := kid][b := kid] == kids[b := kid];
  }

  lemma {:induction false} ViewPlug(env: Env, p: Path, x: Shape, y: Shape)
    requires Formed(p) && View(env, x) == View(env, y)
    ensures View(env, Plug(p, x)) == View(env, Plug(p, y))
    decreases p
  {
    if p.Down? {
      var ks, ls := p.kids[p.branch := x], p.kids[p.branch := y];
      assert Views(env, ks) == Views(env, ls) by {
        assert forall i :: 0 <= i < |ks| ==> View(env, ks[i]) == View(env, ls[i]);
      }
      ViewPlug(env, p.up, SInner(p.node, ks), SInner(p.node, ls));
    }
  }

  lemma {:induction false} FromRoot(env: Env, s: Shape, key: Key)
    requires s.SInner? && Rep(env, s) && Distinct(s)
    ensures Opened(env, Top, s) && Reached(s, key, Top, s) && Formed(Top) && Plug(Top, s) == s && PathFoot(Top) == {}
  {
    OpenTop(env, s);
  }

  lemma {:induction false} OpenedIn(env: Env, p: Path, n: InnerNode, kids: seq<Shape>)
    requires Opened(env, p, SInner(n, kids))
    ensures n in Foot(SInner(n, kids)) && n !in PathFoot(p) && |kids| == BRANCH_FACTOR
    ensures forall i :: 0 <= i < |kids| ==> Foot(kids[i]) <= Foot(SInner(n, kids))
  {
  }

  lemma {:induction false} LostHere(env: Env, cur: Shape, key: Key, d: nat)
    ensures View(env, cur).Stub? ==> Lost(View(env, cur), key, d)
    ensures cur.SNil? || cur.SLeaf? ==> !Lost(View(env, cur), key, d)
  {
  }

  /** Walks toward a key, collecting the inner nodes passed; stops at a leaf or an empty branch. */
  method WalkToKey(family: MemoryFamily?, root: InnerNode, key: Key, ghost s: Shape)
    returns (ok: bool, stack: seq<InnerNode>, node: NodeRef, ghost p: Path, ghost cur: Shape)
    requires s.SInner? && s.node == root && Rep(EnvOf(family), s) && Distinct(s)
    requires family == null || family !in Foot(s)
    modifies Foot(s)
    ensures EnvOf(family) == old(EnvOf(family))
    ensures Opened(EnvOf(family), p, cur) && Reached(s, key, p, cur)
    ensures StackOf(p) == stack && p.Down?
    ensures ok ==> node == RefOf(cur) && !cur.SInner? && (cur.SStub? ==> family == null)
    ensures Formed(p) && View(EnvOf(family), Plug(p, cur)) == View(EnvOf(family), s)
    ensures ok ==> !Stuck(family, s, key)
    ensures !ok ==> (MayFail(family) && Stuck(family, s, key)) || (Depth(p) > MAX_DEPTH && !RefOf(cur).NoNode?)
    ensures forall o :: o in PathFoot(p) + Foot(cur) ==> o in Foot(s) || fresh(o)
  {
    hide Rep, Distinct, Opened, Reached, Plug, View, TreeOf, Lost, PathOk, PathFoot, Foot;
    ghost var env := EnvOf(family);
    p, cur, stack, node, ok := Top, s, [], InnerRef(root), true;
    FootAllocated(s);
    FromRoot(env, s, key);
    while node.InnerRef?
      invariant EnvOf(family) == env && Opened(env, p, cur)
      invariant Reached(s, key, p, cur) && StackOf(p) == stack && node == RefOf(cur)
      invariant p.Top? ==> cur.SInner?
      invariant cur.SStub? ==> family == null
      invariant Formed(p) && View(env, Plug(p, cur)) == View(env, s)
      invariant Lost(View(env, s), key, 0) <==> Lost(View(env, cur), key, Depth(p))
      invariant forall o :: o in PathFoot(p) + Foot(cur) ==> o in Foot(s) || fresh(o)
      decreases TreeOf(cur)
    {
      var n := node.inner;
      OpenedIn(env, p, n, cur.kids);
      var branch := SelectBranch(key, |stack|);
      ghost var kids := cur.kids;
      stack := stack + [n];
      var loaded, child;
      ghost var kid;
      loaded, child, kid := StepDown(family, n, branch, p, kids);
      ReachedStep(s, key, p, n, kids, branch, kid);
      ViewStep(env, key, p, n, kids, branch, kid);
      LostHere(env, kid, key, |stack|);
      assert Foot(kids[branch]) <= Foot(cur);
      p := Down(p, n, kids[branch := kid], branch);
      cur, node := kid, child;
      if !loaded {
        return false, stack, node, p, cur;
      }
      if |stack| > MAX_DEPTH && !node.NoNode? {
        return false, stack, node, p, cur;
      }
    }
    LostHere(env, cur, key, |stack|);
  }

  // ---------- what the path says about the map ----------

  /** The canonical node at depth d on the way to key. */
  ghost function NodeAt(kind: Kind, m: Contents, key: Key, d: nat): Tree
    requires d <= MAX_DEPTH
  {
    if d == 0 then CanonRoot(kind, m) else Canon(kind, Under(m, key, d), d)
  }

  lemma {:induction false} NodeAtTop(kind: Kind, m: Contents, key: Key)
    ensures NodeAt(kind, m, key, 0) == CanonRoot(kind, m) && CanonRoot(kind, m).Inner?
  {
  }

  /** Each level's tree is the child its parent has on the path. */
  ghost predicate Linked(p: Path, t: Tree) {
    p.Down? ==> p.branch < |p.kids| && TreeOf(p.kids[p.branch]) == t && Linked(p.up, Inner(Trees(p.kids)))
  }

  lemma {:induction false} OpenedLinked(env: Env, p: Path, t: Tree)
    requires PathOk(env, p)
    requires p.Down? ==> p.branch < |p.kids| && TreeOf(p.kids[p.branch]) == t
    ensures Linked(p, t)
    decreases p
  {
    if p.Down? {
      OpenedLinked(env, p.up, Inner(Trees(p.kids)));
    }
  }

  lemma {:induction false} NodeAtStep(kind: Kind, m: Contents, key: Key, d: nat, kids: seq<Tree>)
    requires d <= MAX_DEPTH && NodeAt(kind, m, key, d) == Inner(kids)
    ensures d < MAX_DEPTH && kids == CanonKids(kind, Under(m, key, d), d)
    ensures kids[SelectBranch(key, d)] == NodeAt(kind, m, key, d + 1)
    ensures d > 0 ==> |Under(m, key, d)| >= 2
  {
    hide Canon, Under, Sub, SelectBranch;
    if d == 0 {
      UnderRoot(m, key);
    } else {
      CanonCases(kind, m, key, d);
    }
    UnderStep(m, key, d);
  }

  /** On the way to key in a canonical tree one meets the canonical nodes. */
  lemma {:induction false} CanonicalAt(kind: Kind, m: Contents, key: Key, p: Path, t: Tree)
    requires Linked(p, t) && Follows(p, key) && RootTree(p, t) == CanonRoot(kind, m)
    ensures Depth(p) <= MAX_DEPTH && t == NodeAt(kind, m, key, Depth(p))
    ensures p.Down? ==> Inner(Trees(p.kids)) == NodeAt(kind, m, key, Depth(p.up))
    decreases p
  {
    hide NodeAt, Canon, CanonKids, CanonRoot, Under, Sub, SelectBranch, TreeOf;
    NodeAtTop(kind, m, key);
    if p.Down? {
      CanonicalAt(kind, m, key, p.up, Inner(Trees(p.kids)));
      NodeAtStep(kind, m, key, Depth(p.up), Trees(p.kids));
    }
  }

  /** What the walk found decides membership. */
  lemma {:induction false} LookupAt(kind: Kind, m: Contents, key: Key, d: nat)
    requires 0 < d <= MAX_DEPTH
    ensures var t := NodeAt(kind, m, key, d);
      && !t.Stub?
      && (t.Nil? ==> key !in m)
      && (t.Leaf? ==> t.kind == kind && (t.item.key == key <==> key in m) && t.item.key in m
                      && m[t.item.key] == t.item.data && SamePrefix(t.item.key, key, d))
  {
    CanonCases(kind, m, key, d);
    var t := NodeAt(kind, m, key, d);
    var u := Under(m, key, d);
    assert key in m ==> key in u;
    if t.Leaf? {
      assert t.item.key in u;
    }
  }

  /** A walk in a canonical tree stops at the canonical node, within the depth limit. */
  lemma {:induction false} OpenCanonical(kind: Kind, m: Contents, s: Shape, key: Key, env: Env, p: Path, cur: Shape)
    requires Opened(env, p, cur) && Reached(s, key, p, cur) && p.Down? && TreeOf(s) == CanonRoot(kind, m)
    ensures Formed(p) && Linked(p, TreeOf(cur)) && 0 < Depth(p) <= MAX_DEPTH
    ensures TreeOf(cur) == NodeAt(kind, m, key, Depth(p))
  {
    FormedPath(env, p);
    OpenedLinked(env, p, TreeOf(cur));
    CanonicalAt(kind, m, key, p, TreeOf(cur));
  }

  /** Follow-up of a walk that changes nothing: the shape after loading. */
  lemma {:induction false} CloseFacts(env: Env, s: Shape, p: Path, cur: Shape)
    requires Opened(env, p, cur) && Within(s, p, cur)
    ensures Formed(p)
    ensures var s' := Plug(p, cur);
      && s'.SInner? && s'.node == s.node && Rep(env, s') && Distinct(s') && TreeOf(s') == TreeOf(s)
      && Foot(s') == PathFoot(p) + Foot(cur)
  {
    Close(env, p, cur);
    PlugFoot(p, cur);
  }

  /** One level down to a child that is in place. */
  lemma {:induction false} Descended(env: Env, s: Shape, p: Path, n: InnerNode, kids: seq<Shape>, b: nat)
    requires Opened(env, p, SInner(n, kids)) && Within(s, p, SInner(n, kids)) && b < |kids|
    ensures Opened(env, Down(p, n, kids, b), kids[b]) && Within(s, Down(p, n, kids, b), kids[b])
    ensures n.Sized() && n.children[b] == RefOf(kids[b])
    ensures TreeOf(kids[b]) == Trees(kids)[b] && TreeOf(kids[b]) < TreeOf(SInner(n, kids))
    ensures PathFoot(Down(p, n, kids, b)) + Foot(kids[b]) <= PathFoot(p) + Foot(SInner(n, kids))
  {
    hide PathOk;
    assert kids[b := kids[b]] == kids;
    assert Foot(kids[b]) <= Foot(SInner(n, kids)) && Siblings(kids, b) <= Foot(SInner(n, kids));
    assert Foot(kids[b]) !! Siblings(kids, b);
    PushOk(env, p, n, kids, b, kids[b]);
  }

  /** The leaf a walk stops at decides whether the key is in the map, and with what data. */
  lemma {:induction false} LookupFacts(kind: Kind, m: Contents, key: Key, env: Env, cur: Shape, d: nat)
    requires 0 < d <= MAX_DEPTH && Rep(env, cur) && TreeOf(cur) == NodeAt(kind, m, key, d)
    requires !cur.SInner? && (cur.SStub? ==> !env.backed)
    ensures key in m <==> cur.SLeaf? && cur.leaf.item.key == key
    ensures key in m ==> m[key] == cur.leaf.item.data
  {
    LookupAt(kind, m, key, d);
    RepNil(env, cur);
  }

  // ---------- lookup in any tree ----------

  /** The item under key, found by following its branches. */
  ghost function Lookup(t: Tree, key: Key, d: nat): Option<Item> {
    match t
    case Leaf(_, item) => if item.key == key then Some(item) else None
    case Inner(kids) => if |kids| == BRANCH_FACTOR then Lookup(kids[SelectBranch(key, d)], key, d + 1) else None
    case _ => None
  }

  /** The branches of key go on below the greatest depth. */
  ghost predicate TooDeep(t: Tree, key: Key, d: nat) {
    t.Inner? && |t.kids| == BRANCH_FACTOR &&
      var kid := t.kids[SelectBranch(key, d)]; (d >= MAX_DEPTH && !kid.Nil?) || TooDeep(kid, key, d + 1)
  }

  ghost predicate Sixteen(p: Path) {
    p.Down? ==> |p.kids| == BRANCH_FACTOR && Sixteen(p.up)
  }

  lemma {:induction false} PathSixteen(env: Env, p: Path)
    requires PathOk(env, p)
    ensures Sixteen(p)
  {
    if p.Down? { PathSixteen(env, p.up); }
  }

  /** A lookup may be resumed where a walk has led. */
  lemma {:induction false} LookupOnPath(p: Path, t: Tree, key: Key)
    requires Sixteen(p) && Linked(p, t) && Follows(p, key)
    ensures Lookup(RootTree(p, t), key, 0) == Lookup(t, key, Depth(p))
    ensures TooDeep(t, key, Depth(p)) ==> TooDeep(RootTree(p, t), key, 0)
    ensures Depth(p) > MAX_DEPTH && !t.Nil? ==> TooDeep(RootTree(p, t), key, 0)
    decreases p
  {
    if p.Down? {
      var above := Inner(Trees(p.kids));
      assert above.kids[SelectBranch(key, Depth(p.up))] == t;
      LookupOnPath(p.up, above, key);
    }
  }

  /** In a canonical tree the lookup is that of the map. */
  lemma {:induction false} CanonLookup(kind: Kind, m: Contents, key: Key, d: nat)
    requires d <= MAX_DEPTH
    ensures Lookup(NodeAt(kind, m, key, d), key, d) == if key in m then Some(Item(key, m[key])) else None
    ensures !TooDeep(NodeAt(kind, m, key, d), key, d)
    decreases MAX_DEPTH - d
  {
    hide Canon, CanonKids, CanonRoot;
    var t := NodeAt(kind, m, key, d);
    NodeAtTop(kind, m, key);
    if t.Inner? {
      NodeAtStep(kind, m, key, d, t.kids);
      KidsSized(kind, Under(m, key, d), d);
      CanonLookup(kind, m, key, d + 1);
    } else {
      LookupAt(kind, m, key, d);
    }
  }

  lemma {:induction false} KidsSized(kind: Kind, u: Contents, d: nat)
    requires d < MAX_DEPTH
    ensures |CanonKids(kind, u, d)| == BRANCH_FACTOR
  {
  }

  /** The item under a key, or an error if a node cannot be loaded. */
  method FindItem(family: MemoryFamily?, root: InnerNode, key: Key, ghost s: Shape)
    returns (ok: bool, item: Option<Item>, ghost s': Shape)
    requires s.SInner? && s.node == root && Rep(EnvOf(family), s) && Distinct(s)
    requires family == null || family !in Foot(s)
    modifies Foot(s)
    ensures EnvOf(family) == old(EnvOf(family))
    ensures s'.SInner? && s'.node == root && Rep(EnvOf(family), s') && Distinct(s') && TreeOf(s') == TreeOf(s)
    ensures forall o :: o in Foot(s') ==> o in Foot(s) || fresh(o)
    ensures ok ==> item == Lookup(TreeOf(s), key, 0)
    ensures View(EnvOf(family), s') == View(EnvOf(family), s)
    ensures ok ==> !Stuck(family, s, key)
    ensures !ok ==> (MayFail(family) && Stuck(family, s, key)) || TooDeep(TreeOf(s), key, 0)
  {
    hide Rep, Distinct, PathOk, TreeOf, RootTree, Lookup, TooDeep, Stuck, View, Plug;
    ghost var env := EnvOf(family);
    var stack, node;
    ghost var p, cur;
    ok, stack, node, p, cur := WalkToKey(family, root, key, s);
    WalkLookup(env, s, p, cur, key);
    CloseFacts(env, s, p, cur);
    s', item := Plug(p, cur), None;
    if ok && node.LeafRef? && node.leaf.item.key == key {
      item := Some(node.leaf.item);
    }
  }

  lemma {:induction false} WalkLookup(env: Env, s: Shape, p: Path, cur: Shape, key: Key)
    requires Opened(env, p, cur) && Reached(s, key, p, cur) && p.Down?
    ensures Depth(p) > MAX_DEPTH && !RefOf(cur).NoNode? ==> TooDeep(TreeOf(s), key, 0)
    ensures !cur.SInner? && (cur.SStub? ==> !env.backed) ==>
      Lookup(TreeOf(s), key, 0) == if cur.SLeaf? && cur.leaf.item.key == key then Some(cur.leaf.item) else None
  {
    PathSixteen(env, p);
    OpenedLinked(env, p, TreeOf(cur));
    LookupOnPath(p, TreeOf(cur), key);
  }
}
