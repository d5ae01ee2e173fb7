/** Collecting the proof path of a key on node objects. */
module ProofPaths {
  import opened Bytes
  import opened Tree
  import opened Codec
  import opened Storage
  import opened Nodes
  import opened Shapes
  import opened Canonical
  import opened Walking
  import opened Proofs

  /** Every level has its sixteen slots and at least one branch in use. */
  ghost predicate Serializable(p: Path) {
    p.Down? ==> |p.kids| == BRANCH_FACTOR && !Bare(Trees(p.kids)) && Serializable(p.up)
  }

  /** The wire forms of the levels, innermost first. */
  ghost function WiresUp(p: Path): seq<bytes>
    requires Serializable(p)
  {
    match p
    case Top => []
    case Down(up, _, kids, _) => [Wire(Inner(Trees(kids))).value] + WiresUp(up)
  }

  lemma {:induction false} LinkedSerializable(env: Env, p: Path, t: Tree)
    requires PathOk(env, p) && Linked(p, t) && !t.Nil?
    ensures Serializable(p)
    decreases p
  {
    if p.Down? {
      assert Trees(p.kids)[p.branch] == t;
      LinkedSerializable(env, p.up, Inner(Trees(p.kids)));
    }
  }

  /** The path of the whole tree is the path below the hole followed by the levels above it. */
  lemma {:induction false} PathSplits(p: Path, t: Tree, key: Key)
    requires Serializable(p) && Linked(p, t) && Follows(p, key)
    ensures PathOf(RootTree(p, t), key, 0) == PathOf(t, key, Depth(p)) + WiresUp(p)
    decreases p
  {
    hide Wire, TreeOf, PathOf;
    if p.Down? {
      var above := Inner(Trees(p.kids));
      PathSplits(p.up, above, key);
      PathStep(Trees(p.kids), t, key, Depth(p.up));
    } else {
      assert PathOf(t, key, 0) + [] == PathOf(t, key, 0);
    }
  }

  lemma {:induction false} PathStep(kids: seq<Tree>, t: Tree, key: Key, d: nat)
    requires |kids| == BRANCH_FACTOR && !Bare(kids) && kids[SelectBranch(key, d)] == t
    ensures PathOf(Inner(kids), key, d) == PathOf(t, key, d + 1) + [Wire(Inner(kids)).value]
  {
  }

  lemma {:induction false} LevelReflects(env: Env, p: Path, r: NodeRef, t: Tree)
    requires p.Down? && PathOk(env, p) && Fits(p, r, t) && Serializable(p)
    ensures PathOk(env, p.up) && Reflects(p.node, Trees(p.kids)) && Wire(Inner(Trees(p.kids))).Some?
    ensures Fits(p.up, InnerRef(p.node), Inner(Trees(p.kids)))
  {
    forall i | 0 <= i < BRANCH_FACTOR && i != p.branch ensures p.kids[i].SNil? <==> TreeOf(p.kids[i]).Nil? {
      RepNil(env, p.kids[i]);
    }
  }

  /** Appends the wire forms of the stack's nodes, last one first. */
  method SerializeStack(stack: seq<InnerNode>, path: seq<bytes>, ghost env: Env, ghost p: Path, ghost r: NodeRef, ghost t: Tree)
    returns (ok: bool, out: seq<bytes>)
    requires PathOk(env, p) && Fits(p, r, t) && StackOf(p) == stack && Serializable(p)
    ensures ok && out == path + WiresUp(p)
  {
    hide PathOk, Wire, Fits, Reflects;
    out := path;
    ghost var q, qr, qt := p, r, t;
    assert stack[..|stack|] == stack;
    for i := |stack| downto 0
      invariant PathOk(env, q) && Fits(q, qr, qt) && StackOf(q) == stack[..i] && Serializable(q)
      invariant out + WiresUp(q) == path + WiresUp(p)
    {
      LevelReflects(env, q, qr, qt);
      assert stack[..i + 1] == stack[..i] + [stack[i]];
      PathAllocated(q.up);
      var data := SerializeForWire(stack[i], Trees(q.kids));
      if data.None? {
        return false, out;
      }
      ghost var rest := WiresUp(q.up);
      assert out + WiresUp(q) == (out + [data.value]) + rest;
      out := out + [data.value];
      assert StackOf(q.up) == StackOf(q)[..i];
      q, qr, qt := q.up, InnerRef(q.node), Inner(Trees(q.kids));
    }
    assert out + [] == out;
    ok := true;
  }

  /** The path of a key that is in the map; nothing for one that is not. */
  method GetProofPath(kind: Kind, family: MemoryFamily?, root: InnerNode, key: Key, ghost s: Shape, ghost m: Contents)
    returns (ok: bool, found: bool, path: seq<bytes>, ghost s': Shape)
    requires s.SInner? && s.node == root && Rep(EnvOf(family), s) && Distinct(s)
    requires family == null || family !in Foot(s)
    requires TreeOf(s) == CanonRoot(kind, m)
    modifies Foot(s)
    ensures EnvOf(family) == old(EnvOf(family))
    ensures s'.SInner? && s'.node == root && Rep(EnvOf(family), s') && Distinct(s') && TreeOf(s') == TreeOf(s)
    ensures forall o :: o in Foot(s') ==> o in Foot(s) || fresh(o)
    ensures (!ok ==> MayFail(family)) && (ok <==> !Stuck(family, s, key))
    ensures ok ==> found == (key in m) && path == if found then PathOf(CanonRoot(kind, m), key, 0) else []
  {
    hide Rep, Distinct, PathOk, TreeOf, NodeAt, RootTree, PathOf, Wire, Foot, PathFoot, Linked, Serializable, WiresUp, Plug, CanonRoot, Fits, Stuck, View;
    ghost var env := EnvOf(family);
    var walked, stack, node;
    ghost var p, cur;
    walked, stack, node, p, cur := WalkToKey(family, root, key, s);
    OpenCanonical(kind, m, s, key, env, p, cur);
    CloseFacts(env, s, p, cur);
    s' := Plug(p, cur);
    if !walked {
      return false, false, [], s';
    }
    LookupFacts(kind, m, key, env, cur, Depth(p));
    if !node.LeafRef? || node.leaf.item.key != key {
      return true, false, [], s';
    }
    ProofPathFacts(env, p, cur, key, s);
    OpenedFits(env, p, cur);
    PathAllocated(p);
    FootAllocated(s');
    var leaf := SerializeLeafForWire(node.leaf);
    ok, path := SerializeStack(stack, [leaf], env, p, node, TreeOf(cur));
    found := true;
  }

  lemma {:induction false} OpenedFits(env: Env, p: Path, cur: Shape)
    requires Opened(env, p, cur)
    ensures PathOk(env, p) && Fits(p, RefOf(cur), TreeOf(cur))
  {
  }

  lemma {:induction false} ProofPathFacts(env: Env, p: Path, cur: Shape, key: Key, s: Shape)
    requires Opened(env, p, cur) && Reached(s, key, p, cur) && cur.SLeaf? && Linked(p, TreeOf(cur))
    ensures Serializable(p)
    ensures PathOf(TreeOf(s), key, 0) == [Wire(Leaf(cur.leaf.kind, cur.leaf.item)).value] + WiresUp(p)
  {
    LinkedSerializable(env, p, TreeOf(cur));
    PathSplits(p, TreeOf(cur), key);
  }
}
