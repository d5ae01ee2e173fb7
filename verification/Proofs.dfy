/** Merkle proof paths: wire forms of the nodes from a leaf up to the root. */
module Proofs {
  import opened Bytes
  import opened Tree
  import opened Codec
  import opened Nodes
  import opened Canonical
  import opened LeafOrder
  import opened Merkle
  import opened Walking

  // ---------- checking a path ----------

  /** Outcome of one node of the path. */
  datatype Step = Reject | Follow(h: Hash) | Accept(data: bytes)

  /** A node must have the expected hash; then an inner node points on, and a leaf ends the path with its data. */
  function NodeStep(data: bytes, expected: Hash, key: Key, d: nat, last: bool): Step {
    var node := ParseWire(data);
    if node.None? || HashOf(node.value) != expected then Reject
    else if node.value.Inner? then
      var below := ChildHash(node.value, key, d);
      if below == ZERO then Reject else Follow(below)
    else if node.value.Leaf? && last && node.value.item.key == key then Accept(node.value.item.data)
    else Reject
  }

  function ChildHash(t: Tree, key: Key, d: nat): Hash
    requires t.Inner?
  {
    if SelectBranch(key, d) < |t.kids| then HashOf(t.kids[SelectBranch(key, d)]) else ZERO
  }

  /** What a path from leaf to root proves about key below a node at depth d with hash h. */
  function Proven(h: Hash, key: Key, path: seq<bytes>, d: nat): Option<bytes>
    decreases |path|
  {
    if path == [] then None
    else
      match NodeStep(path[|path| - 1], h, key, d, |path| == 1)
      case Reject => None
      case Accept(data) => Some(data)
      case Follow(below) => Proven(below, key, path[..|path| - 1], d + 1)
  }

  function Verified(root: Hash, key: Key, path: seq<bytes>): Option<bytes> {
    if |path| == 0 || |path| > MAX_DEPTH + 1 then None else Proven(root, key, path, 0)
  }

  lemma {:induction false} ProvenStep(h: Hash, key: Key, path: seq<bytes>, i: nat)
    requires i < |path|
    ensures Proven(h, key, path[..i + 1], |path| - (i + 1)) ==
      match NodeStep(path[i], h, key, |path| - 1 - i, i == 0)
      case Reject => None
      case Accept(data) => Some(data)
      case Follow(below) => Proven(below, key, path[..i], |path| - i)
  {
    assert path[..i + 1][..i] == path[..i];
  }

  method CheckNode(data: bytes, expected: Hash, key: Key, depth: nat, last: bool) returns (step: Step)
    ensures step == NodeStep(data, expected, key, depth, last)
  {
    var node := DeserializeNodeFromWire(data);
    match node {
      case NoNode =>
        step := Reject;
      case InnerRef(inner) =>
        if inner.hash != expected {
          return Reject;
        }
        var branch := SelectBranch(key, depth);
        step := if inner.hashes[branch] == ZERO then Reject else Follow(inner.hashes[branch]);
      case LeafRef(leaf) =>
        step := if leaf.hash != expected || !last || leaf.item.key != key then Reject else Accept(leaf.item.data);
    }
  }

  method VerifyProofPathWithValue(root: Hash, key: Key, path: seq<bytes>) returns (data: Option<bytes>)
    ensures data == Verified(root, key, path)
  {
    hide NodeStep;
    if |path| == 0 || |path| > MAX_DEPTH + 1 {
      return None;
    }
    var current, i := root, |path|;
    assert path[..i] == path;
    while i > 0
      invariant 0 <= i <= |path| && Proven(current, key, path[..i], |path| - i) == Verified(root, key, path)
    {
      i := i - 1;
      ProvenStep(current, key, path, i);
      var step := CheckNode(path[i], current, key, |path| - 1 - i, i == 0);
      match step {
        case Reject => return None;
        case Accept(found) => return Some(found);
        case Follow(h) => current := h;
      }
    }
    data := None;
  }

  method VerifyProofPath(root: Hash, key: Key, path: seq<bytes>) returns (ok: bool)
    ensures ok == Verified(root, key, path).Some?
  {
    hide NodeStep;
    if |path| == 0 || |path| > MAX_DEPTH + 1 {
      return false;
    }
    var current, i := root, |path|;
    assert path[..i] == path;
    while i > 0
      invariant 0 <= i <= |path| && Proven(current, key, path[..i], |path| - i) == Verified(root, key, path)
    {
      i := i - 1;
      ProvenStep(current, key, path, i);
      var step := CheckNode(path[i], current, key, |path| - 1 - i, i == 0);
      match step {
        case Reject => return false;
        case Accept(_) => return true;
        case Follow(h) => current := h;
      }
    }
    ok := false;
  }

  /** Where a path fails: position in the path and depth in the tree, or -1 when its length is wrong. */
  datatype ProofPathError = ProofPathError(position: int, depth: int)

  /** The hash of the child on the key's branch of the inner node that the bytes at position i stand for. */
  ghost function BranchHash(key: Key, path: seq<bytes>, i: nat): Hash
    requires i < |path|
  {
    var t := ParseWire(path[i]);
    if t.Some? && t.value.Inner? && |t.value.kids| == BRANCH_FACTOR then HashOf(t.value.kids[SelectBranch(key, |path| - 1 - i)]) else ZERO
  }

  /** The hash that the node at position i must have: the root hash at the end of the path, else what its parent names. */
  ghost function Named(root: Hash, key: Key, path: seq<bytes>, i: nat): Hash
    requires i < |path|
  {
    if i == |path| - 1 then root else BranchHash(key, path, i + 1)
  }

  /** The node at position i is an inner node with the hash named for it, and has something on the key's branch. */
  ghost predicate LeadsOn(root: Hash, key: Key, path: seq<bytes>, i: nat)
    requires i < |path|
  {
    var t := ParseWire(path[i]);
    t.Some? && t.value.Inner? && HashOf(t.value) == Named(root, key, path, i) && BranchHash(key, path, i) != ZERO
  }

  /** The node at position i does not parse, has another hash, has an empty branch, or is a leaf that is too early or has another key. */
  ghost predicate Breaks(root: Hash, key: Key, path: seq<bytes>, i: nat)
    requires i < |path|
  {
    var t := ParseWire(path[i]);
    || t.None?
    || HashOf(t.value) != Named(root, key, path, i)
    || (t.value.Inner? && BranchHash(key, path, i) == ZERO)
    || (t.value.Leaf? && (i != 0 || t.value.item.key != key))
  }

  /** The path ends with the key's leaf, under the hash named for it. */
  ghost predicate EndsWell(root: Hash, key: Key, path: seq<bytes>)
    requires path != []
  {
    var t := ParseWire(path[0]);
    t.Some? && t.value.Leaf? && t.value.item.key == key && HashOf(t.value) == Named(root, key, path, 0)
  }

  lemma {:induction false} StepMeans(root: Hash, key: Key, path: seq<bytes>, i: nat)
    requires i < |path|
    ensures var step := NodeStep(path[i], Named(root, key, path, i), key, |path| - 1 - i, i == 0);
      && (step.Follow? <==> LeadsOn(root, key, path, i)) && (step.Follow? ==> step.h == BranchHash(key, path, i))
      && (step.Reject? <==> Breaks(root, key, path, i))
      && (step.Accept? <==> i == 0 && EndsWell(root, key, path))
  {
    hide HashOf, ParseWire;
    if ParseWire(path[i]).Some? { WireShape(path[i]); }
  }

  /**
   * The first node from the root down that breaks the path is reported with its place. No place is reported for a path of
   * the wrong length and for one that leads on to its end.
   */
  method VerifyProofPathDetailed(root: Hash, key: Key, path: seq<bytes>) returns (error: Option<ProofPathError>)
    ensures error.None? == Verified(root, key, path).Some?
    ensures error.None? ==> 0 < |path| <= 65 && EndsWell(root, key, path) && forall j :: 0 < j < |path| ==> LeadsOn(root, key, path, j)
    ensures error.Some? && error.value.position >= 0 ==> var i := error.value.position;
      && i < |path| <= 65 && error.value.depth == |path| - 1 - i
      && Breaks(root, key, path, i) && forall j :: i < j < |path| ==> LeadsOn(root, key, path, j)
    ensures error.Some? && error.value.position < 0 ==> error.value == ProofPathError(-1, -1)
    ensures error.Some? && error.value.position < 0 <==>
      |path| == 0 || |path| > 65 || forall j :: 0 <= j < |path| ==> LeadsOn(root, key, path, j)
  {
    hide NodeStep, LeadsOn, Breaks, EndsWell, BranchHash, Proven;
    if |path| == 0 || |path| > MAX_DEPTH + 1 {
      return Some(ProofPathError(-1, -1));
    }
    var current, i := root, |path|;
    assert path[..i] == path;
    while i > 0
      invariant 0 <= i <= |path| && Proven(current, key, path[..i], |path| - i) == Verified(root, key, path)
      invariant i > 0 ==> current == Named(root, key, path, i - 1)
      invariant forall j :: i <= j < |path| ==> LeadsOn(root, key, path, j)
    {
      i := i - 1;
      ProvenStep(current, key, path, i);
      StepMeans(root, key, path, i);
      OneOutcome(root, key, path, i);
      var step := CheckNode(path[i], current, key, |path| - 1 - i, i == 0);
      match step {
        case Reject => return Some(ProofPathError(i, |path| - 1 - i));
        case Accept(_) => return None;
        case Follow(h) => current := h;
      }
    }
    ProvenNone(current, key, path);
    error := Some(ProofPathError(-1, -1));
  }

  lemma {:induction false} ProvenNone(h: Hash, key: Key, path: seq<bytes>)
    ensures Proven(h, key, path[..0], |path|) == None
  {
  }

  /** The three outcomes exclude one another. */
  lemma {:induction false} OneOutcome(root: Hash, key: Key, path: seq<bytes>, i: nat)
    requires i < |path|
    ensures !(LeadsOn(root, key, path, i) && Breaks(root, key, path, i))
    ensures i == 0 ==> !(EndsWell(root, key, path) && (LeadsOn(root, key, path, 0) || Breaks(root, key, path, 0)))
  {
    hide ParseWire, HashOf;
  }

  lemma {:induction false} ProvenMeans(root: Hash, key: Key, path: seq<bytes>, n: nat)
    requires 0 < n <= |path|
    ensures Proven(Named(root, key, path, n - 1), key, path[..n], |path| - n) ==
      if EndsWell(root, key, path) && forall j :: 0 < j < n ==> LeadsOn(root, key, path, j) then Some(ParseWire(path[0]).value.item.data) else None
  {
    hide ParseWire, HashOf, LeadsOn, Breaks, BranchHash, Proven;
    StepMeans(root, key, path, n - 1);
    OneOutcome(root, key, path, n - 1);
    OneOutcome(root, key, path, 0);
    ProvenStep(Named(root, key, path, n - 1), key, path, n - 1);
    if n > 1 {
      ProvenMeans(root, key, path, n - 1);
    } else {
      ProvenNone(BranchHash(key, path, 0), key, path);
    }
  }

  /** What a path proves: the data of the leaf it ends with, if every node above leads on to it. */
  lemma {:induction false} VerifiedMeans(root: Hash, key: Key, path: seq<bytes>)
    ensures Verified(root, key, path) ==
      if 0 < |path| <= 65 && EndsWell(root, key, path) && forall j :: 0 < j < |path| ==> LeadsOn(root, key, path, j)
      then Some(ParseWire(path[0]).value.item.data) else None
  {
    hide ParseWire, HashOf, LeadsOn, EndsWell, Proven, BranchHash;
    if 0 < |path| <= MAX_DEPTH + 1 {
      assert path[..|path|] == path;
      ProvenMeans(root, key, path, |path|);
    }
  }

  // ---------- soundness ----------

  ghost predicate PathInputs(path: seq<bytes>, ps: set<bytes>) {
    forall i :: 0 <= i < |path| && ParseWire(path[i]).Some? ==> Preimages(ParseWire(path[i]).value) <= ps
  }

  /** An inner node from the wire with the hash of a canonical node has that node's child hashes. */
  lemma {:induction false} InnerAgrees(kind: Kind, m: Contents, key: Key, d: nat, t: Tree, ps: set<bytes>)
    requires d <= MAX_DEPTH && CollisionFree(ps) && Preimages(NodeAt(kind, m, key, d)) <= ps && Preimages(t) <= ps
    requires t.Inner? && |t.kids| == BRANCH_FACTOR && HashOf(t) == HashOf(NodeAt(kind, m, key, d))
    requires ChildHash(t, key, d) != ZERO
    ensures d < MAX_DEPTH && Preimages(NodeAt(kind, m, key, d + 1)) <= ps
    ensures ChildHash(t, key, d) == HashOf(NodeAt(kind, m, key, d + 1))
  {
    var node := NodeAt(kind, m, key, d);
    if d > 0 { CanonCases(kind, m, key, d); }
    var p := InnerPreimage(Hashes(t.kids));
    assert !Bare(t.kids);
    assert p in Preimages(t);
    if node.Leaf? {
      LeafIsNotInner(node.kind, node.item, Hashes(t.kids));
    } else if node.Inner? {
      NodeAtStep(kind, m, key, d, node.kids);
      var q := InnerPreimage(Hashes(node.kids));
      assert p[4..] == Flatten(Hashes(t.kids)) && q[4..] == Flatten(Hashes(node.kids));
      FlattenInjective(Hashes(t.kids), Hashes(node.kids));
      assert Hashes(t.kids)[SelectBranch(key, d)] == Hashes(node.kids)[SelectBranch(key, d)];
      assert Preimages(node.kids[SelectBranch(key, d)]) <= KidPreimages(node.kids);
    }
  }

  lemma {:induction false} LeafAgrees(kind: Kind, m: Contents, key: Key, d: nat, t: Tree, ps: set<bytes>)
    requires d <= MAX_DEPTH && AllBound(kind, m) && CollisionFree(ps)
    requires Preimages(NodeAt(kind, m, key, d)) <= ps && Preimages(t) <= ps
    requires t.Leaf? && KeyBound(t.kind, t.item) && HashOf(t) == HashOf(NodeAt(kind, m, key, d))
    ensures d > 0 && NodeAt(kind, m, key, d) == t
  {
    var node := NodeAt(kind, m, key, d);
    assert LeafPreimage(t.kind, t.item) in ps;
    if d > 0 {
      CanonCases(kind, m, key, d);
      LookupAt(kind, m, key, d);
    }
    match node {
      case Nil =>
      case Leaf(kind', item') =>
        LeafPreimageInjective(t.kind, t.item, kind', item');
      case Inner(kids) =>
        LeafIsNotInner(t.kind, t.item, Hashes(kids));
    }
  }

  lemma {:induction false} ProvenSound(kind: Kind, m: Contents, key: Key, path: seq<bytes>, d: nat, ps: set<bytes>)
    requires d <= MAX_DEPTH && AllBound(kind, m) && CollisionFree(ps)
    requires PathInputs(path, ps) && Preimages(NodeAt(kind, m, key, d)) <= ps
    ensures var r := Proven(HashOf(NodeAt(kind, m, key, d)), key, path, d);
      r.Some? ==> key in m && m[key] == r.value
    decreases |path|
  {
    hide ParseWire, NodeAt, HashOf, Preimages;
    var h := HashOf(NodeAt(kind, m, key, d));
    var r := Proven(h, key, path, d);
    if r.Some? {
      var t := ParseWire(path[|path| - 1]).value;
      WireShape(path[|path| - 1]);
      if t.Inner? {
        InnerAgrees(kind, m, key, d, t, ps);
        ProvenSound(kind, m, key, path[..|path| - 1], d + 1, ps);
      } else {
        LeafAgrees(kind, m, key, d, t, ps);
        LookupAt(kind, m, key, d);
      }
    }
  }

  /** A path that verifies against the root hash of a map shows an entry of the map. */
  lemma {:induction false} ProofSoundness(kind: Kind, m: Contents, key: Key, path: seq<bytes>, ps: set<bytes>)
    requires AllBound(kind, m) && CollisionFree(ps)
    requires PathInputs(path, ps) && Preimages(CanonRoot(kind, m)) <= ps
    ensures var r := Verified(HashOf(CanonRoot(kind, m)), key, path);
      r.Some? ==> key in m && m[key] == r.value
  {
    ProvenSound(kind, m, key, path, 0, ps);
  }

  // ---------- completeness ----------

  /** The wire forms on the way to key, leaf first. */
  ghost function PathOf(t: Tree, key: Key, d: nat): seq<bytes> {
    match t
    case Leaf(_, _) => [Wire(t).value]
    case Inner(kids) =>
      if |kids| == BRANCH_FACTOR && !Bare(kids) then PathOf(kids[SelectBranch(key, d)], key, d + 1) + [Wire(t).value] else []
    case _ => []
  }

  lemma {:induction false} InnerStep(kind: Kind, m: Contents, key: Key, d: nat, last: bool, ps: set<bytes>)
    requires d < MAX_DEPTH && key in m && AllBound(kind, m) && NodeAt(kind, m, key, d).Inner?
    requires CollisionFree(ps) && Preimages(NodeAt(kind, m, key, d)) <= ps
    ensures var node := NodeAt(kind, m, key, d);
      && |node.kids| == BRANCH_FACTOR && !Bare(node.kids)
      && node.kids[SelectBranch(key, d)] == NodeAt(kind, m, key, d + 1)
      && NodeStep(Wire(node).value, HashOf(node), key, d, last) == Follow(HashOf(NodeAt(kind, m, key, d + 1)))
      && Preimages(NodeAt(kind, m, key, d + 1)) <= ps
  {
    hide NodeAt, Canon, CanonKids, Under, Sub, Preimages, HashOf, Wire, NodeStep, SelectBranch, CollisionFree, AllBound;
    var node := NodeAt(kind, m, key, d);
    NodeAtStep(kind, m, key, d, node.kids);
    LookupAt(kind, m, key, d + 1);
    assert !node.kids[SelectBranch(key, d)].Nil?;
    assert !Bare(node.kids);
    KidInputs(node, SelectBranch(key, d));
    NoZeroKids(kind, m, key, d, ps);
    WireStep(node.kids, key, d, last);
  }

  lemma {:induction false} WireStep(kids: seq<Tree>, key: Key, d: nat, last: bool)
    requires |kids| == BRANCH_FACTOR && !Bare(kids) && NoZeroBranch(kids) && !kids[SelectBranch(key, d)].Nil?
    ensures NodeStep(Wire(Inner(kids)).value, HashOf(Inner(kids)), key, d, last) == Follow(HashOf(kids[SelectBranch(key, d)]))
  {
    hide ParseWire, Wire;
    WireInnerRoundTrip(kids);
    StubbedHash(kids);
  }

  lemma {:induction false} NoZeroKids(kind: Kind, m: Contents, key: Key, d: nat, ps: set<bytes>)
    requires d < MAX_DEPTH && NodeAt(kind, m, key, d).Inner? && AllBound(kind, m)
    requires CollisionFree(ps) && Preimages(NodeAt(kind, m, key, d)) <= ps && !Bare(NodeAt(kind, m, key, d).kids)
    ensures NoZeroBranch(NodeAt(kind, m, key, d).kids)
  {
    hide NodeAt, Canon, CanonKids, Preimages, HashOf, Tidy, Wide, Bound, CollisionFree;
    var node := NodeAt(kind, m, key, d);
    NodeAtStep(kind, m, key, d, node.kids);
    var u := Under(m, key, d);
    SharedBelow(kind, m, key, d);
    KidsSound(kind, u, d);
    KidsWhole(kind, u, d);
    forall i | 0 <= i < |node.kids| && !node.kids[i].Nil? ensures HashOf(node.kids[i]) != ZERO {
      KidInputs(node, i);
      NotZero(node.kids[i], ps);
    }
  }

  lemma {:induction false} SharedBelow(kind: Kind, m: Contents, key: Key, d: nat)
    requires d < MAX_DEPTH
    ensures Shared(Under(m, key, d), d)
    ensures |CanonKids(kind, Under(m, key, d), d)| == BRANCH_FACTOR
  {
  }

  /** A tidy node does not hash to zero. */
  lemma {:induction false} NotZero(t: Tree, ps: set<bytes>)
    requires Whole(t) && Tidy(t) && !t.Nil? && CollisionFree(ps) && Preimages(t) <= ps
    ensures HashOf(t) != ZERO
  {
    if t.Inner? {
      assert InnerPreimage(Hashes(t.kids)) in Preimages(t);
    } else {
      assert LeafPreimage(t.kind, t.item) in Preimages(t);
    }
  }

  lemma {:induction false} ProvenComplete(kind: Kind, m: Contents, key: Key, d: nat, ps: set<bytes>)
    requires d <= MAX_DEPTH && key in m && AllBound(kind, m)
    requires CollisionFree(ps) && Preimages(NodeAt(kind, m, key, d)) <= ps
    ensures var node := NodeAt(kind, m, key, d); var path := PathOf(node, key, d);
      && 1 <= |path| <= MAX_DEPTH + 1 - d
      && Proven(HashOf(node), key, path, d) == if Readable(kind, Item(key, m[key])) then Some(m[key]) else None
    decreases MAX_DEPTH - d
  {
    hide Proven, PathOf, Canon, CanonKids, HashOf, Preimages, CollisionFree, SelectBranch, Sub;
    var node := NodeAt(kind, m, key, d);
    if d > 0 {
      CanonCases(kind, m, key, d);
      LookupAt(kind, m, key, d);
      assert key in Under(m, key, d);
    }
    if node.Inner? {
      InnerStep(kind, m, key, d, false, ps);
      ProvenComplete(kind, m, key, d + 1, ps);
      ProvenPrepend(node, NodeAt(kind, m, key, d + 1), key, d);
    } else {
      ProvenLeaf(kind, node.item, d);
    }
  }

  lemma {:induction false} ProvenPrepend(node: Tree, below: Tree, key: Key, d: nat)
    requires node.Inner? && |node.kids| == BRANCH_FACTOR && !Bare(node.kids) && node.kids[SelectBranch(key, d)] == below
    requires NodeStep(Wire(node).value, HashOf(node), key, d, false) == Follow(HashOf(below))
    requires PathOf(below, key, d + 1) != []
    ensures PathOf(node, key, d) == PathOf(below, key, d + 1) + [Wire(node).value]
    ensures Proven(HashOf(node), key, PathOf(node, key, d), d) == Proven(HashOf(below), key, PathOf(below, key, d + 1), d + 1)
  {
    hide Wire, NodeStep, HashOf;
    var path := PathOf(node, key, d);
    assert path[..|path| - 1] == PathOf(below, key, d + 1);
  }

  lemma {:induction false} ProvenLeaf(kind: Kind, item: Item, d: nat)
    ensures |PathOf(Leaf(kind, item), item.key, d)| == 1
    ensures Proven(HashOf(Leaf(kind, item)), item.key, PathOf(Leaf(kind, item), item.key, d), d) ==
            if Readable(kind, item) then Some(item.data) else None
  {
    hide ParseWire;
    WireLeafRoundTrip(kind, item);
  }

  /** The proof path of an entry verifies with its data exactly when the leaf can be read back. */
  lemma {:induction false} ProofCompleteness(kind: Kind, m: Contents, key: Key, ps: set<bytes>)
    requires key in m && AllBound(kind, m)
    requires CollisionFree(ps) && Preimages(CanonRoot(kind, m)) <= ps
    ensures var root := CanonRoot(kind, m);
      Verified(HashOf(root), key, PathOf(root, key, 0)) == if Readable(kind, Item(key, m[key])) then Some(m[key]) else None
  {
    ProvenComplete(kind, m, key, 0, ps);
  }
}
