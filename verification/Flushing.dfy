/** Writing dirty nodes out, children before parents. */
module Flushing {
  import opened Bytes
  import opened Tree
  import opened Codec
  import opened Storage
  import opened Nodes
  import opened Shapes
  import opened Cloning
  import opened Merkle
  import opened Canonical
  import opened LeafOrder

  // ---------- the store and the batch ----------

  /** What can be stored and read back: leaves that parse, no inner node without branches. */
  ghost predicate Storable(trust: Trust, t: Tree) {
    match t
    case Nil => true
    case Stub(_) => false
    case Leaf(kind, item) => Fit(trust, kind, item)
    case Inner(kids) => |kids| == BRANCH_FACTOR && !Bare(kids) && forall i :: 0 <= i < |kids| ==> Storable(trust, kids[i])
  }

  /** Storable, except that an inner node may be without branches, as the root of an empty map is. */
  ghost predicate KidsStorable(trust: Trust, t: Tree) {
    if t.Inner? then |t.kids| == BRANCH_FACTOR && forall i :: 0 <= i < |t.kids| ==> Storable(trust, t.kids[i]) else Storable(trust, t)
  }

  lemma {:induction false} AddEntry(store: Store, data: bytes, ps: set<bytes>)
    requires Addressed(store, ps) && CollisionFree(ps) && data in ps
    ensures Addressed(store[Sha512Half(data) := data], ps) && Extends(store, store[Sha512Half(data) := data])
  {
  }

  lemma {:induction false} WithBatchAppend(store: Store, batch: seq<FlushEntry>, e: FlushEntry)
    ensures WithBatch(store, batch + [e]) == WithBatch(store, batch)[e.hash := e.data]
  {
  }

  /** Entry i sits under its own hash and, over a complete store, parses and names only nodes that are in the store or earlier in the batch. */
  ghost predicate EntryOk(base: Env, batch: seq<FlushEntry>, i: nat)
    requires i < |batch|
  {
    batch[i].hash == Sha512Half(batch[i].data) && (base.trust == Complete ==> Grounded(batch[i].data, WithBatch(base.store, batch[..i])))
  }

  ghost predicate Grounded(data: bytes, store: Store) {
    var node := ParsePrefix(data);
    node.Some? && (node.value.Inner? ==> NamedIn(node.value.kids, store))
  }

  ghost predicate NamedIn(kids: seq<Tree>, store: Store) {
    forall j :: 0 <= j < |kids| && kids[j].Stub? ==> kids[j].h in store
  }

  ghost predicate Closed(base: Env, batch: seq<FlushEntry>) {
    forall i :: 0 <= i < |batch| ==> EntryOk(base, batch, i)
  }

  lemma {:induction false} ClosedAppend(base: Env, batch: seq<FlushEntry>, e: FlushEntry)
    requires Closed(base, batch) && e.hash == Sha512Half(e.data)
    requires base.trust == Complete ==> Grounded(e.data, WithBatch(base.store, batch))
    ensures Closed(base, batch + [e])
  {
    hide Grounded;
    var b := batch + [e];
    forall i | 0 <= i < |b| ensures EntryOk(base, b, i) {
      if i < |batch| {
        assert EntryOk(base, batch, i);
        assert b[..i] == batch[..i];
      } else {
        assert b[..i] == batch;
      }
    }
  }

  ghost function Saved(base: Env, batch: seq<FlushEntry>): Env {
    base.(store := WithBatch(base.store, batch))
  }

  ghost predicate BatchOk(base: Env, batch: seq<FlushEntry>, ps: set<bytes>) {
    base.backed && CollisionFree(ps) && Addressed(Saved(base, batch).store, ps) && Closed(base, batch)
  }

  ghost predicate Later(base: Env, batch: seq<FlushEntry>, out: seq<FlushEntry>) {
    batch <= out && Extends(Saved(base, batch).store, Saved(base, out).store)
  }

  lemma {:induction false} BatchBacked(base: Env, batch: seq<FlushEntry>, ps: set<bytes>)
    requires BatchOk(base, batch, ps)
    ensures base.backed
  {
  }

  lemma {:induction false} BatchGrows(base: Env, batch: seq<FlushEntry>, out: seq<FlushEntry>, t: Tree, ps: set<bytes>)
    requires Later(base, batch, out) && BatchOk(base, out, ps) && Preimages(t) <= ps
    ensures Grows(Saved(base, batch), Saved(base, out), t, ps)
  {
  }

  predicate IsDirty(r: NodeRef)
    reads if r.LeafRef? then {r.leaf} else if r.InnerRef? then {r.inner} else {}
  {
    match r
    case NoNode => false
    case LeafRef(l) => l.dirty
    case InnerRef(n) => n.dirty
  }

  ghost function EntryOf(t: Tree): FlushEntry
    requires t.Leaf? || t.Inner?
  {
    FlushEntry(HashOf(t), Preimage(t))
  }

  /** Which nodes of a subtree are dirty, as far as they are reached over dirty nodes. */
  datatype Marks = Clean | DirtyLeaf | DirtyInner(kids: seq<Marks>)

  ghost predicate Marked(s: Shape, mk: Marks)
    reads Foot(s)
    decreases s
  {
    match s
    case SLeaf(l) => mk == if l.dirty then DirtyLeaf else Clean
    case SInner(n, kids) =>
      if !n.dirty then mk == Clean
      else mk.DirtyInner? && |mk.kids| == |kids| && forall i :: 0 <= i < |kids| ==> Marked(kids[i], mk.kids[i])
    case _ => mk == Clean
  }

  /** The entries of the dirty nodes, children before parents. */
  ghost function Written(mk: Marks, t: Tree): seq<FlushEntry>
    decreases mk, 0
  {
    match mk
    case Clean => []
    case DirtyLeaf => if t.Leaf? then [EntryOf(t)] else []
    case DirtyInner(ms) => if t.Inner? && |ms| == |t.kids| then WrittenOf(ms, t.kids) + [EntryOf(t)] else []
  }

  ghost function WrittenOf(ms: seq<Marks>, ts: seq<Tree>): seq<FlushEntry>
    requires |ms| == |ts|
    decreases ms, 1
  {
    if ms == [] then [] else WrittenOf(ms[..|ms| - 1], ts[..|ts| - 1]) + Written(ms[|ms| - 1], ts[|ts| - 1])
  }

  /** The marks of a subtree. */
  lemma {:induction false} MarksOf(s: Shape) returns (mk: Marks)
    ensures Marked(s, mk)
    decreases s, 1
  {
    match s
    case SLeaf(l) => mk := if l.dirty then DirtyLeaf else Clean;
    case SInner(n, kids) =>
      var ms := KidMarks(kids, |kids|);
      mk := if n.dirty then DirtyInner(ms) else Clean;
    case _ => mk := Clean;
  }

  lemma {:induction false} KidMarks(kids: seq<Shape>, n: nat) returns (ms: seq<Marks>)
    requires n <= |kids|
    ensures |ms| == n && forall i :: 0 <= i < n ==> Marked(kids[i], ms[i])
    decreases kids, 0, n
  {
    ms := [];
    if n > 0 {
      ms := KidMarks(kids, n - 1);
      var mk := MarksOf(kids[n - 1]);
      ms := ms + [mk];
    }
  }

  /** The marks are determined, so what a flush writes is as well. */
  lemma {:induction false} MarksUnique(s: Shape, mk: Marks, mk': Marks)
    requires Marked(s, mk) && Marked(s, mk')
    ensures mk == mk'
    decreases s
  {
    if s.SInner? && s.node.dirty {
      forall i | 0 <= i < |s.kids| ensures mk.kids[i] == mk'.kids[i] {
        MarksUnique(s.kids[i], mk.kids[i], mk'.kids[i]);
      }
      assert mk.kids == mk'.kids;
    }
  }

  /** A new entry for a node whose children are in the store already. */
  lemma {:induction false} Append(base: Env, batch: seq<FlushEntry>, t: Tree, ps: set<bytes>)
    requires BatchOk(base, batch, ps) && Storable(base.trust, t) && (t.Leaf? || t.Inner?) && Preimages(t) <= ps
    requires t.Inner? ==> forall i :: 0 <= i < |t.kids| ==> Stored(Saved(base, batch), t.kids[i])
    ensures var out := batch + [EntryOf(t)];
      BatchOk(base, out, ps) && Later(base, batch, out) && Stored(Saved(base, out), t)
  {
    var e := EntryOf(t);
    assert Preimage(t) in Preimages(t);
    WithBatchAppend(base.store, batch, e);
    AddEntry(Saved(base, batch).store, Preimage(t), ps);
    var env, env' := Saved(base, batch), Saved(base, batch + [e]);
    if t.Leaf? {
      PrefixLeafRoundTrip(t.kind, t.item);
    } else {
      if base.trust == Complete { InnerEntry(env, t.kids); }
      forall i | 0 <= i < |t.kids| ensures Stored(env', t.kids[i]) {
        KidInputs(t, i);
        StoredGrows(env, env', t.kids[i], ps);
      }
    }
    ClosedAppend(base, batch, e);
  }

  lemma {:induction false} InnerEntry(env: Env, kids: seq<Tree>)
    requires env.trust == Complete && |kids| == BRANCH_FACTOR && forall i :: 0 <= i < |kids| ==> Stored(env, kids[i])
    ensures Grounded(InnerPreimage(Hashes(kids)), env.store)
  {
    assert NoZeroBranch(kids) by {
      forall i | 0 <= i < |kids| && !kids[i].Nil? ensures HashOf(kids[i]) != ZERO {
        assert Stored(env, kids[i]);
      }
    }
    PrefixInnerRoundTrip(kids);
    var ks := Stubbed(Inner(kids)).kids;
    forall j | 0 <= j < |ks| && ks[j].Stub? ensures ks[j].h in env.store {
      assert Stored(env, kids[j]);
    }
  }

  method FlushLeaf(l: LeafNode, batch: seq<FlushEntry>, ghost base: Env, ghost ps: set<bytes>)
    returns (out: seq<FlushEntry>)
    requires LeafOk(Saved(base, batch), l) && BatchOk(base, batch, ps)
    requires Fit(base.trust, l.kind, l.item) && Preimages(Leaf(l.kind, l.item)) <= ps
    modifies l
    ensures BatchOk(base, out, ps) && Later(base, batch, out)
    ensures LeafOk(Saved(base, out), l) && !l.dirty && Stored(Saved(base, out), Leaf(l.kind, l.item))
    ensures out == batch + if old(l.dirty) then [EntryOf(Leaf(l.kind, l.item))] else []
  {
    if !l.dirty {
      return batch;
    }
    Append(base, batch, Leaf(l.kind, l.item), ps);
    out := batch + [FlushEntry(l.hash, LeafPreimage(l.kind, l.item))];
    l.dirty := false;
  }

  ghost predicate NilsAgree(kids: seq<Shape>) {
    forall i :: 0 <= i < |kids| ==> (kids[i].SNil? <==> TreeOf(kids[i]).Nil?)
  }

  /** An inner node whose children have been dealt with: written, marked clean, its child pointers dropped on request. */
  method FinishInner(n: InnerNode, release: bool, batch: seq<FlushEntry>, ghost base: Env, ghost kids: seq<Shape>, ghost ps: set<bytes>)
    returns (ok: bool, out: seq<FlushEntry>, ghost ks: seq<Shape>)
    requires Local(Saved(base, batch), n, kids) && NilsAgree(kids) && n.dirty && BatchOk(base, batch, ps)
    requires Preimages(Inner(Trees(kids))) <= ps && KidsStorable(base.trust, Inner(Trees(kids)))
    requires forall i :: 0 <= i < |kids| ==> Stored(Saved(base, batch), TreeOf(kids[i]))
    modifies n
    ensures ok == !Bare(Trees(kids))
    ensures !ok ==> out == batch && ks == kids && Local(Saved(base, out), n, ks) && n.dirty
    ensures ok ==> BatchOk(base, out, ps) && Later(base, batch, out)
    ensures ok ==> Local(Saved(base, out), n, ks) && !n.dirty && Stored(Saved(base, out), Inner(Trees(kids)))
    ensures ok ==> ks == (if release then StubShapes(kids) else kids) && out == batch + [EntryOf(Inner(Trees(kids)))]
  {
    hide HashOf, Stored, BatchOk, Storable, KidsStorable, Preimages, Later, Local, Hashes, Bare;
    ghost var ts := Trees(kids);
    LocalReflects(Saved(base, batch), n, kids);
    var data := SerializeWithPrefix(n, ts);
    if data.None? {
      return false, batch, kids;
    }
    StorableInner(base.trust, ts);
    Append(base, batch, Inner(ts), ps);
    out := batch + [FlushEntry(n.hash, data.value)];
    n.dirty := false;
    ks, ok := kids, true;
    if release {
      n.children := seq(BRANCH_FACTOR, _ => NoNode);
      ks := StubShapes(kids);
    }
    FinishedLocal(Saved(base, out), n, kids, ks, release);
  }

  /** Hashes, branch bits and hash of a node are those of its children. */
  ghost predicate FieldsOk(n: InnerNode, kids: seq<Shape>)
    reads n
  {
    && |kids| == |n.hashes| == |n.isBranch| == BRANCH_FACTOR && n.hash == HashOf(Inner(Trees(kids)))
    && forall i :: 0 <= i < BRANCH_FACTOR ==> n.hashes[i] == HashOf(TreeOf(kids[i])) && n.isBranch[i] == !kids[i].SNil?
  }

  lemma {:induction false} FinishedLocal(env: Env, n: InnerNode, kids: seq<Shape>, ks: seq<Shape>, release: bool)
    requires FieldsOk(n, kids) && NilsAgree(kids) && !n.dirty && Stored(env, Inner(Trees(kids)))
    requires ks == (if release then StubShapes(kids) else kids) && |n.children| == BRANCH_FACTOR
    requires forall i :: 0 <= i < BRANCH_FACTOR ==> n.children[i] == if release then NoNode else RefOf(kids[i])
    ensures Local(env, n, ks)
  {
    hide HashOf, Stored;
    assert Trees(ks) == Trees(kids);
  }

  lemma {:induction false} LocalReflects(env: Env, n: InnerNode, kids: seq<Shape>)
    requires Local(env, n, kids) && NilsAgree(kids)
    ensures Reflects(n, Trees(kids)) && n.hash == HashOf(Inner(Trees(kids))) && |n.children| == BRANCH_FACTOR
    ensures FieldsOk(n, kids)
    ensures forall i :: 0 <= i < BRANCH_FACTOR ==> n.children[i] == RefOf(kids[i])
  {
    hide HashOf;
  }

  lemma {:induction false} StorableInner(trust: Trust, ts: seq<Tree>)
    requires KidsStorable(trust, Inner(ts))
    ensures Storable(trust, Inner(ts)) <==> !Bare(ts)
  {
  }

  ghost function StubShapes(kids: seq<Shape>): (ks: seq<Shape>)
    ensures |ks| == |kids|
    ensures forall i :: 0 <= i < |kids| ==> ks[i] == if TreeOf(kids[i]).Nil? then SNil else SStub(TreeOf(kids[i]))
  {
    seq(|kids|, i requires 0 <= i < |kids| => if TreeOf(kids[i]).Nil? then SNil else SStub(TreeOf(kids[i])))
  }

  /** A dirty inner node and its children, in one state of the batch. */
  ghost predicate InnerOk(env: Env, n: InnerNode, kids: seq<Shape>)
    reads n, Feet(kids)
  {
    Local(env, n, kids) && n.dirty && AllRep(env, kids) && Distinct(SInner(n, kids))
  }

  ghost predicate Sources(trust: Trust, t: Tree, ps: set<bytes>) {
    KidsStorable(trust, t) && Preimages(t) <= ps
  }

  /** The result of flushing the subtree s. */
  ghost predicate Flushed(env: Env, s: Shape, s': Shape)
    reads Foot(s')
  {
    && Rep(env, s') && Distinct(s') && TreeOf(s') == TreeOf(s) && RefOf(s') == RefOf(s) && (s'.SNil? <==> s.SNil?)
    && Foot(s') <= Foot(s) && Stored(env, TreeOf(s))
  }

  /** No child object hangs below. */
  ghost predicate Bared(s: Shape) {
    s.SInner? ==> forall i :: 0 <= i < |s.kids| ==> RefOf(s.kids[i]) == NoNode
  }

  method FlushNode(r: NodeRef, release: bool, batch: seq<FlushEntry>, ghost base: Env, ghost s: Shape, ghost ps: set<bytes>, ghost mk: Marks)
    returns (ok: bool, out: seq<FlushEntry>, ghost s': Shape)
    requires Marked(s, mk) && r == RefOf(s) && !r.NoNode? && Rep(Saved(base, batch), s) && Distinct(s)
    requires BatchOk(base, batch, ps) && Sources(base.trust, TreeOf(s), ps)
    modifies Foot(s)
    ensures ok == Storable(base.trust, TreeOf(s)) && (!ok ==> IsDirty(r))
    ensures ok ==> BatchOk(base, out, ps) && Later(base, batch, out)
    ensures ok ==> Flushed(Saved(base, out), s, s') && !IsDirty(r)
    ensures !ok || !old(IsDirty(r)) ==> out == batch && s' == s && Rep(Saved(base, batch), s)
    ensures if release && ok && old(IsDirty(r)) then Bared(s') else s' == s
    ensures ok ==> out == batch + Written(mk, TreeOf(s))
    decreases s, 1
  {
    if !IsDirty(r) {
      CleanIsStored(Saved(base, batch), s);
      return true, batch, s;
    }
    match r {
      case LeafRef(l) =>
        out := FlushLeaf(l, batch, base, ps);
        ok, s' := true, s;
      case InnerRef(n) =>
        ok, out, s' := FlushInner(n, release, batch, base, s, ps, mk);
    }
  }

  lemma {:induction false} CleanIsStored(env: Env, s: Shape)
    requires Rep(env, s) && Distinct(s) && env.backed && !IsDirty(RefOf(s)) && !RefOf(s).NoNode?
    ensures Flushed(env, s, s)
  {
  }

  method FlushInner(n: InnerNode, release: bool, batch: seq<FlushEntry>, ghost base: Env, ghost s: Shape, ghost ps: set<bytes>, ghost mk: Marks)
    returns (ok: bool, out: seq<FlushEntry>, ghost s': Shape)
    requires Marked(s, mk) && s.SInner? && s.node == n && Rep(Saved(base, batch), s) && Distinct(s) && n.dirty
    requires BatchOk(base, batch, ps) && Sources(base.trust, TreeOf(s), ps)
    modifies Foot(s)
    ensures ok == Storable(base.trust, TreeOf(s)) && (!ok ==> n.dirty)
    ensures ok ==> BatchOk(base, out, ps) && Later(base, batch, out)
    ensures ok ==> Flushed(Saved(base, out), s, s') && !n.dirty
    ensures !ok ==> out == batch && s' == s && Rep(Saved(base, batch), s)
    ensures if release && ok then Bared(s') else s' == s
    ensures ok ==> out == batch + Written(mk, TreeOf(s))
    decreases s, 0
  {
    hide Rep, Distinct, BatchOk, Sources, Stored, InnerOk, Flushed, Feet, Local, AllRep, NilsAgree, KidsStorable;
    hide Storable, HashOf, Preimages, Marked, AllMarked, Written, WrittenOf, EntryOf, StubShapes, Bared, Later, Foot, TreeOf, Trees, Bare, Saved;
    ghost var ks, ls;
    var mid;
    InnerFacts(Saved(base, batch), s, mk);
    BareShape(Saved(base, batch), n, s.kids);
    ok, mid, ks := FlushKids(n, release, batch, base, s.kids, ps, mk.kids);
    InnerParts(Saved(base, mid), n, ks);
    SourcesParts(base.trust, Inner(Trees(ks)), ps);
    FeetAllocated(ks);
    ok, out, ls := FinishInner(n, release, mid, base, ks, ps);
    s' := SInner(n, ls);
    StorableInner(base.trust, Trees(ks));
    if !ok {
      NothingBelow(Saved(base, batch), s);
      return;
    }
    FlushedInner(base, batch, mid, out, s, n, ks, ls, release, ps);
  }

  /** The node with its children dealt with. */
  lemma {:induction false} FlushedInner(base: Env, batch: seq<FlushEntry>, mid: seq<FlushEntry>, out: seq<FlushEntry>,
                                        s: Shape, n: InnerNode, ks: seq<Shape>, ls: seq<Shape>, release: bool, ps: set<bytes>)
    requires s.SInner? && s.node == n && BatchOk(base, out, ps) && Later(base, batch, mid) && Later(base, mid, out)
    requires AllRep(Saved(base, mid), ks) && Distinct(SInner(n, ks)) && Trees(ks) == Trees(s.kids) && Feet(ks) <= Feet(s.kids)
    requires forall i :: 0 <= i < |ks| ==> Stored(Saved(base, mid), TreeOf(ks[i]))
    requires Preimages(Inner(Trees(ks))) <= ps && ls == if release then StubShapes(ks) else ks
    requires Local(Saved(base, out), n, ls) && Stored(Saved(base, out), Inner(Trees(ks)))
    ensures Flushed(Saved(base, out), s, SInner(n, ls)) && Later(base, batch, out) && (release ==> Bared(SInner(n, ls)))
  {
    hide Rep, Distinct, BatchOk, Stored, Flushed, Feet, Local, AllRep, Preimages, StubShapes, Bared, Later, Grows;
    BatchBacked(base, out, ps);
    LaterTwice(base, batch, mid, out);
    BatchGrows(base, mid, out, Inner(Trees(ks)), ps);
    FinishFacts(Saved(base, mid), Saved(base, out), s, n, ks, ls, release, ps);
    if release { StubsBared(n, ks); }
  }

  lemma {:induction false} LaterTwice(base: Env, batch: seq<FlushEntry>, mid: seq<FlushEntry>, out: seq<FlushEntry>)
    requires Later(base, batch, mid) && Later(base, mid, out)
    ensures Later(base, batch, out)
    ensures Extends(Saved(base, mid).store, Saved(base, out).store)
  {
  }

  lemma {:induction false} StubsBared(n: InnerNode, kids: seq<Shape>)
    ensures Bared(SInner(n, StubShapes(kids)))
  {
  }

  lemma {:induction false} InnerFacts(env: Env, s: Shape, mk: Marks)
    requires s.SInner? && Rep(env, s) && Distinct(s) && s.node.dirty && Marked(s, mk)
    ensures mk.DirtyInner? && AllMarked(s.kids, mk.kids)
    ensures TreeOf(s) == Inner(Trees(s.kids)) && Written(mk, TreeOf(s)) == WrittenOf(mk.kids, Trees(s.kids)) + [EntryOf(TreeOf(s))]
    ensures InnerOk(env, s.node, s.kids) && Foot(s) == {s.node} + Feet(s.kids) && s.node !in Feet(s.kids)
  {
    hide Local, HashOf, Feet, EntryOf;
    InnerApart(s);
  }

  lemma {:induction false} InnerApart(s: Shape)
    requires s.SInner? && Distinct(s)
    ensures Foot(s) == {s.node} + Feet(s.kids) && s.node !in Feet(s.kids)
  {
  }

  lemma {:induction false} BareShape(env: Env, n: InnerNode, kids: seq<Shape>)
    requires InnerOk(env, n, kids)
    ensures Bare(Trees(kids)) ==> forall i :: 0 <= i < |kids| ==> kids[i].SNil?
  {
  }

  lemma {:induction false} NothingBelow(env: Env, s: Shape)
    requires s.SInner? && Local(env, s.node, s.kids) && forall i :: 0 <= i < |s.kids| ==> s.kids[i].SNil?
    ensures Rep(env, s)
  {
  }

  lemma {:induction false} InnerParts(env: Env, n: InnerNode, kids: seq<Shape>)
    requires InnerOk(env, n, kids)
    ensures Local(env, n, kids) && n.dirty && AllRep(env, kids) && Distinct(SInner(n, kids)) && n !in Feet(kids)
  {
  }

  lemma {:induction false} SourcesParts(trust: Trust, t: Tree, ps: set<bytes>)
    requires Sources(trust, t, ps)
    ensures KidsStorable(trust, t) && Preimages(t) <= ps
  {
  }

  lemma {:induction false} FinishFacts(env: Env, env': Env, s: Shape, n: InnerNode, ks: seq<Shape>, ls: seq<Shape>, release: bool, ps: set<bytes>)
    requires s.SInner? && s.node == n && Grows(env, env', Inner(Trees(ks)), ps) && env.backed
    requires AllRep(env, ks) && Distinct(SInner(n, ks)) && Trees(ks) == Trees(s.kids) && Feet(ks) <= Feet(s.kids)
    requires forall i :: 0 <= i < |ks| ==> Stored(env, TreeOf(ks[i]))
    requires ls == if release then StubShapes(ks) else ks
    requires Local(env', n, ls) && Stored(env', Inner(Trees(ks)))
    ensures Flushed(env', s, SInner(n, ls))
  {
    hide Stored, Local, Distinct, Rep, HashOf, Preimages;
    forall i | 0 <= i < |ls| ensures Rep(env', ls[i]) && Foot(ls[i]) <= Foot(ks[i]) && TreeOf(ls[i]) == TreeOf(ks[i]) {
      KidInputs(Inner(Trees(ks)), i);
      Released(env, env', ks, ls, release, i, ps);
    }
    assert Trees(ls) == Trees(ks);
    FeetShrink(ks, ls);
    ReleasedDistinct(n, ks, ls, release);
    InnerRep(env', n, ls);
  }

  lemma {:induction false} InnerRep(env: Env, n: InnerNode, kids: seq<Shape>)
    requires Local(env, n, kids) && forall i :: 0 <= i < |kids| ==> Rep(env, kids[i])
    ensures Rep(env, SInner(n, kids))
  {
  }

  lemma {:induction false} Released(env: Env, env': Env, ks: seq<Shape>, ls: seq<Shape>, release: bool, i: nat, ps: set<bytes>)
    requires i < |ks| && Grows(env, env', TreeOf(ks[i]), ps) && env.backed && Rep(env, ks[i]) && Stored(env, TreeOf(ks[i]))
    requires ls == if release then StubShapes(ks) else ks
    ensures Rep(env', ls[i]) && Foot(ls[i]) <= Foot(ks[i]) && TreeOf(ls[i]) == TreeOf(ks[i])
  {
    if release {
      StoredGrows(env, env', TreeOf(ks[i]), ps);
    } else {
      RepGrows(env, env', ks[i], ps);
    }
  }

  lemma {:induction false} FeetShrink(ks: seq<Shape>, ls: seq<Shape>)
    requires |ls| == |ks| && forall i :: 0 <= i < |ls| ==> Foot(ls[i]) <= Foot(ks[i])
    ensures Feet(ls) <= Feet(ks)
  {
  }

  lemma {:induction false} ReleasedDistinct(n: InnerNode, ks: seq<Shape>, ls: seq<Shape>, release: bool)
    requires Distinct(SInner(n, ks)) && ls == if release then StubShapes(ks) else ks
    ensures Distinct(SInner(n, ls))
  {
  }

  ghost predicate AllMarked(kids: seq<Shape>, ms: seq<Marks>)
    reads Feet(kids)
  {
    |ms| == |kids| && forall i :: 0 <= i < |kids| ==> Marked(kids[i], ms[i])
  }

  method FlushKids(n: InnerNode, release: bool, batch: seq<FlushEntry>, ghost base: Env, ghost kids: seq<Shape>, ghost ps: set<bytes>, ghost ms: seq<Marks>)
    returns (ok: bool, out: seq<FlushEntry>, ghost ks: seq<Shape>)
    requires AllMarked(kids, ms) && InnerOk(Saved(base, batch), n, kids)
    requires BatchOk(base, batch, ps) && Sources(base.trust, Inner(Trees(kids)), ps)
    modifies Feet(kids)
    ensures ok && BatchOk(base, out, ps) && Later(base, batch, out)
    ensures InnerOk(Saved(base, out), n, ks) && Trees(ks) == Trees(kids) && Feet(ks) <= Feet(kids) && NilsAgree(ks)
    ensures forall i :: 0 <= i < |ks| ==> Stored(Saved(base, out), TreeOf(ks[i]))
    ensures (forall i :: 0 <= i < |kids| ==> kids[i].SNil?) ==> out == batch && ks == kids
    ensures !release ==> ks == kids
    ensures |ms| == |kids| && out == batch + WrittenOf(ms, Trees(kids))
    decreases kids, 2
  {
    hide BatchOk, InnerOk, Sources, AllMarked, KidsDone, Feet, Stored, TreeOf, WrittenOf, NilsAgree, Later;
    ok, out, ks := true, batch, kids;
    KidsStart(n, release, batch, base, kids, ps, ms);
    for i := 0 to BRANCH_FACTOR
      invariant ok && KidsDone(n, release, batch, base, kids, ps, ms, i, out, ks)
      invariant Feet(ks) <= Feet(kids)
    {
      ok, out, ks := KidsStep(n, i, release, batch, out, base, kids, ks, ps, ms);
    }
    KidsEnd(n, release, batch, base, kids, ps, ms, out, ks);
  }

  /** The first i children have been dealt with. */
  ghost predicate KidsDone(n: InnerNode, release: bool, batch: seq<FlushEntry>, base: Env, kids: seq<Shape>, ps: set<bytes>, ms: seq<Marks>,
                           i: nat, out: seq<FlushEntry>, ks: seq<Shape>)
    reads n, Feet(ks)
  {
    && InnerOk(Saved(base, out), n, ks) && KidsWritten(release, batch, base, kids, ps, ms, i, out, ks)
    && forall j :: i <= j < |ks| ==> Marked(ks[j], ms[j])
  }

  /** What was written for them. */
  ghost predicate KidsWritten(release: bool, batch: seq<FlushEntry>, base: Env, kids: seq<Shape>, ps: set<bytes>, ms: seq<Marks>,
                              i: nat, out: seq<FlushEntry>, ks: seq<Shape>) {
    && BatchOk(base, out, ps) && Later(base, batch, out)
    && Trees(ks) == Trees(kids) && Sources(base.trust, Inner(Trees(kids)), ps)
    && i <= |ks| == |kids| == |ms| == BRANCH_FACTOR
    && (forall j :: i <= j < |ks| ==> ks[j] == kids[j])
    && (forall j :: 0 <= j < i ==> Stored(Saved(base, out), TreeOf(ks[j])))
    && ((forall j :: 0 <= j < |kids| ==> kids[j].SNil?) ==> out == batch && ks == kids)
    && (!release ==> ks == kids)
    && out == batch + WrittenOf(ms[..i], Trees(kids)[..i])
  }

  lemma {:induction false} KidsParts(n: InnerNode, release: bool, batch: seq<FlushEntry>, base: Env, kids: seq<Shape>, ps: set<bytes>, ms: seq<Marks>,
                                     i: nat, out: seq<FlushEntry>, ks: seq<Shape>)
    requires KidsDone(n, release, batch, base, kids, ps, ms, i, out, ks) && i < BRANCH_FACTOR
    ensures InnerOk(Saved(base, out), n, ks) && KidsWritten(release, batch, base, kids, ps, ms, i, out, ks)
    ensures BatchOk(base, out, ps) && Sources(base.trust, Inner(Trees(ks)), ps) && |ks| == |ms| == BRANCH_FACTOR && Marked(ks[i], ms[i])
    ensures forall j :: i <= j < |ks| ==> Marked(ks[j], ms[j])
  {
  }

  lemma {:induction false} KidsOneMore(release: bool, batch: seq<FlushEntry>, base: Env, kids: seq<Shape>, ps: set<bytes>, ms: seq<Marks>,
                                       i: nat, mid: seq<FlushEntry>, ks: seq<Shape>, out: seq<FlushEntry>, ks': seq<Shape>)
    requires i < BRANCH_FACTOR && KidsWritten(release, batch, base, kids, ps, ms, i, mid, ks)
    requires BatchOk(base, out, ps) && Later(base, mid, out) && Trees(ks') == Trees(ks)
    requires |ks'| == |ks| && forall j :: 0 <= j < |ks| && j != i ==> ks'[j] == ks[j]
    requires Stored(Saved(base, out), TreeOf(ks'[i]))
    requires ks[i].SNil? ==> out == mid && ks' == ks
    requires !release ==> ks' == ks
    requires out == mid + Written(ms[i], TreeOf(ks[i]))
    ensures KidsWritten(release, batch, base, kids, ps, ms, i + 1, out, ks')
  {
    hide BatchOk, Sources, Stored, TreeOf, WrittenOf, Written, Later, KidsStorable, Preimages;
    WrittenStep(ms, Trees(kids), i);
    LaterTwice(base, batch, mid, out);
    SourcesParts(base.trust, Inner(Trees(kids)), ps);
    BatchGrows(base, mid, out, Inner(Trees(kids)), ps);
    forall j | 0 <= j < i ensures Stored(Saved(base, out), TreeOf(ks'[j])) {
      KidInputs(Inner(Trees(kids)), j);
      StoredGrows(Saved(base, mid), Saved(base, out), TreeOf(ks'[j]), ps);
    }
  }

  lemma {:induction false} KidsStart(n: InnerNode, release: bool, batch: seq<FlushEntry>, base: Env, kids: seq<Shape>, ps: set<bytes>, ms: seq<Marks>)
    requires AllMarked(kids, ms) && InnerOk(Saved(base, batch), n, kids)
    requires BatchOk(base, batch, ps) && Sources(base.trust, Inner(Trees(kids)), ps)
    ensures KidsDone(n, release, batch, base, kids, ps, ms, 0, batch, kids)
  {
    hide BatchOk, Sources, InnerOk, Marked, Stored, TreeOf, WrittenOf;
    InnerWide(Saved(base, batch), n, kids);
    WrittenStep(ms, Trees(kids), 0);
  }

  lemma {:induction false} KidsEnd(n: InnerNode, release: bool, batch: seq<FlushEntry>, base: Env, kids: seq<Shape>, ps: set<bytes>, ms: seq<Marks>,
                                   out: seq<FlushEntry>, ks: seq<Shape>)
    requires KidsDone(n, release, batch, base, kids, ps, ms, BRANCH_FACTOR, out, ks)
    ensures BatchOk(base, out, ps) && Later(base, batch, out)
    ensures InnerOk(Saved(base, out), n, ks) && Trees(ks) == Trees(kids) && NilsAgree(ks)
    ensures forall i :: 0 <= i < |ks| ==> Stored(Saved(base, out), TreeOf(ks[i]))
    ensures (forall i :: 0 <= i < |kids| ==> kids[i].SNil?) ==> out == batch && ks == kids
    ensures !release ==> ks == kids
    ensures |ms| == |kids| && out == batch + WrittenOf(ms, Trees(kids))
  {
    hide BatchOk, Sources, InnerOk, Marked, Stored, TreeOf, WrittenOf, NilsAgree;
    InnerWide(Saved(base, out), n, ks);
    assert ms[..BRANCH_FACTOR] == ms && Trees(kids)[..BRANCH_FACTOR] == Trees(kids);
  }

  method KidsStep(n: InnerNode, i: nat, release: bool, ghost batch: seq<FlushEntry>, mid: seq<FlushEntry>, ghost base: Env, ghost kids: seq<Shape>,
                  ghost ks: seq<Shape>, ghost ps: set<bytes>, ghost ms: seq<Marks>)
    returns (ok: bool, out: seq<FlushEntry>, ghost ks': seq<Shape>)
    requires i < BRANCH_FACTOR && KidsDone(n, release, batch, base, kids, ps, ms, i, mid, ks) && Feet(ks) <= Feet(kids)
    modifies Feet(ks)
    ensures ok && KidsDone(n, release, batch, base, kids, ps, ms, i + 1, out, ks') && Feet(ks') <= Feet(kids)
    decreases kids, 1
  {
    hide BatchOk, Sources, InnerOk, Stored, TreeOf, Marked, Written, Feet, Later, KidsWritten;
    KidsParts(n, release, batch, base, kids, ps, ms, i, mid, ks);
    ok, out, ks' := FlushKid(n, i, release, mid, base, ks, ps, ms[i]);
    KidsOneMore(release, batch, base, kids, ps, ms, i, mid, ks, out, ks');
  }

  lemma {:induction false} WrittenStep(ms: seq<Marks>, ts: seq<Tree>, i: nat)
    requires i < |ms| == |ts|
    ensures WrittenOf(ms[..0], ts[..0]) == []
    ensures WrittenOf(ms[..i + 1], ts[..i + 1]) == WrittenOf(ms[..i], ts[..i]) + Written(ms[i], ts[i])
  {
    assert ms[..i + 1][..i] == ms[..i] && ts[..i + 1][..i] == ts[..i];
  }

  lemma {:induction false} InnerWide(env: Env, n: InnerNode, kids: seq<Shape>)
    requires InnerOk(env, n, kids)
    ensures |kids| == BRANCH_FACTOR && NilsAgree(kids)
  {
  }

  method FlushKid(n: InnerNode, i: nat, release: bool, batch: seq<FlushEntry>, ghost base: Env, ghost kids: seq<Shape>, ghost ps: set<bytes>, ghost mk: Marks)
    returns (ok: bool, out: seq<FlushEntry>, ghost ks: seq<Shape>)
    requires i < BRANCH_FACTOR && InnerOk(Saved(base, batch), n, kids) && i < |kids| && Marked(kids[i], mk)
    requires BatchOk(base, batch, ps) && Sources(base.trust, Inner(Trees(kids)), ps)
    modifies Feet(kids)
    ensures ok && BatchOk(base, out, ps) && Later(base, batch, out)
    ensures InnerOk(Saved(base, out), n, ks) && Trees(ks) == Trees(kids) && Feet(ks) <= Feet(kids)
    ensures |ks| == |kids| == BRANCH_FACTOR && forall j :: 0 <= j < |ks| && j != i ==> ks[j] == kids[j]
    ensures Stored(Saved(base, out), TreeOf(ks[i]))
    ensures kids[i].SNil? ==> out == batch && ks == kids
    ensures !release ==> ks == kids
    ensures out == batch + Written(mk, TreeOf(kids[i]))
    ensures forall j, m :: 0 <= j < |kids| && j != i && old(Marked(kids[j], m)) ==> Marked(kids[j], m)
    decreases kids[i], 2
  {
    hide Rep, Distinct, BatchOk, Sources, Stored, InnerOk, Local, Flushed, TreeOf, Marked, Written, Foot, Preimages, HashOf, Feet, Trees;
    ghost var env := Saved(base, batch);
    BatchBacked(base, batch, ps);
    KidFacts(env, n, kids, i, ps);
    ok, out, ks := true, batch, kids;
    var child := n.children[i];
    if !IsDirty(child) {
      CleanWritesNothing(kids[i], mk);
    } else {
      FeetAllocated(kids);
      ghost var k;
      ok, out, k := FlushNode(child, release, batch, base, kids[i], ps, mk);
      KidFlushed(base, batch, out, n, kids, i, k, ps);
      ks := kids[i := k];
    }
  }

  lemma {:induction false} KidFlushed(base: Env, batch: seq<FlushEntry>, out: seq<FlushEntry>, n: InnerNode, kids: seq<Shape>, i: nat, k: Shape, ps: set<bytes>)
    requires BatchOk(base, out, ps) && Later(base, batch, out) && Preimages(Inner(Trees(kids))) <= ps
    requires i < |kids| && Local(Saved(base, batch), n, kids) && n.dirty && Distinct(SInner(n, kids))
    requires forall j :: 0 <= j < |kids| && j != i ==> Rep(Saved(base, batch), kids[j])
    requires Flushed(Saved(base, out), kids[i], k)
    ensures var ks := kids[i := k];
      InnerOk(Saved(base, out), n, ks) && Trees(ks) == Trees(kids) && Feet(ks) <= Feet(kids) && Stored(Saved(base, out), TreeOf(ks[i]))
  {
    hide Rep, Distinct, BatchOk, Stored, InnerOk, Local, Foot, Grows, Preimages, HashOf, Feet, Later;
    BatchGrows(base, batch, out, Inner(Trees(kids)), ps);
    KidUpdated(Saved(base, batch), Saved(base, out), n, kids, i, k, ps);
  }

  lemma {:induction false} CleanWritesNothing(s: Shape, mk: Marks)
    requires Marked(s, mk) && !IsDirty(RefOf(s))
    ensures Written(mk, TreeOf(s)) == []
  {
  }

  lemma {:induction false} KidFacts(env: Env, n: InnerNode, kids: seq<Shape>, i: nat, ps: set<bytes>)
    requires i < BRANCH_FACTOR && InnerOk(env, n, kids) && env.backed && Sources(env.trust, Inner(Trees(kids)), ps)
    ensures |kids| == BRANCH_FACTOR && n.Sized() && n.children[i] == RefOf(kids[i])
    ensures Local(env, n, kids) && n.dirty && Distinct(SInner(n, kids))
    ensures Rep(env, kids[i]) && Distinct(kids[i]) && Foot(kids[i]) <= Feet(kids) && n !in Feet(kids)
    ensures !IsDirty(RefOf(kids[i])) ==> Stored(env, TreeOf(kids[i]))
    ensures Sources(env.trust, TreeOf(kids[i]), ps) && Storable(env.trust, TreeOf(kids[i])) && Preimages(Inner(Trees(kids))) <= ps
    ensures forall j :: 0 <= j < |kids| && j != i ==> Rep(env, kids[j]) && Foot(kids[j]) !! Foot(kids[i])
  {
    hide Stored, HashOf, Storable, Preimages;
    assert Rep(env, kids[i]);
    if !IsDirty(RefOf(kids[i])) {
      NotDirtyIsStored(env, kids[i]);
    }
    assert TreeOf(kids[i]) == Trees(kids)[i];
    KidSources(env.trust, Trees(kids), i, ps);
  }

  lemma {:induction false} KidSources(trust: Trust, ts: seq<Tree>, i: nat, ps: set<bytes>)
    requires Sources(trust, Inner(ts), ps) && i < |ts|
    ensures Sources(trust, ts[i], ps) && Storable(trust, ts[i]) && Preimages(Inner(ts)) <= ps
  {
  }

  lemma {:induction false} NotDirtyIsStored(env: Env, s: Shape)
    requires Rep(env, s) && env.backed && !IsDirty(RefOf(s))
    ensures Stored(env, TreeOf(s))
  {
  }

  lemma {:induction false} KidUpdated(env: Env, env': Env, n: InnerNode, kids: seq<Shape>, i: nat, k: Shape, ps: set<bytes>)
    requires i < |kids| && Local(env, n, kids) && n.dirty && Distinct(SInner(n, kids)) && Grows(env, env', Inner(Trees(kids)), ps)
    requires forall j :: 0 <= j < |kids| && j != i ==> Rep(env, kids[j])
    requires Flushed(env', kids[i], k)
    ensures InnerOk(env', n, kids[i := k]) && Trees(kids[i := k]) == Trees(kids) && Feet(kids[i := k]) <= Feet(kids)
    ensures Stored(env', TreeOf(kids[i]))
  {
    hide Rep, Stored, Local, HashOf, Preimages, Distinct, Foot, Feet, Grows;
    var ks := kids[i := k];
    TreesUpdate(kids, i, k);
    assert Trees(ks) == Trees(kids);
    DistinctKids(n, kids);
    forall j | 0 <= j < |ks| ensures Rep(env', ks[j]) && Foot(ks[j]) <= Foot(kids[j]) && Distinct(ks[j]) {
      if j != i {
        GrowsKid(env, env', Trees(kids), j, ps);
        RepGrows(env, env', kids[j], ps);
      }
    }
    LocalFlushed(env, env', n, kids, ks, i);
    DistinctShrink(n, kids, ks);
    FeetShrink(kids, ks);
  }

  lemma {:induction false} GrowsKid(env: Env, env': Env, ts: seq<Tree>, j: nat, ps: set<bytes>)
    requires Grows(env, env', Inner(ts), ps) && j < |ts|
    ensures Grows(env, env', ts[j], ps)
  {
    KidInputs(Inner(ts), j);
  }

  lemma {:induction false} LocalFlushed(env: Env, env': Env, n: InnerNode, kids: seq<Shape>, ks: seq<Shape>, i: nat)
    requires i < |kids| == |ks| && Local(env, n, kids) && n.dirty && Trees(ks) == Trees(kids)
    requires RefOf(ks[i]) == RefOf(kids[i]) && (ks[i].SNil? <==> kids[i].SNil?) && forall j :: 0 <= j < |ks| && j != i ==> ks[j] == kids[j]
    ensures Local(env', n, ks)
  {
    hide HashOf;
    assert forall j :: 0 <= j < |ks| ==> TreeOf(ks[j]) == Trees(ks)[j] && TreeOf(kids[j]) == Trees(kids)[j];
  }

  lemma {:induction false} DistinctKids(n: InnerNode, kids: seq<Shape>)
    requires Distinct(SInner(n, kids))
    ensures forall j :: 0 <= j < |kids| ==> Distinct(kids[j])
  {
  }

  lemma {:induction false} DistinctShrink(n: InnerNode, kids: seq<Shape>, ks: seq<Shape>)
    requires Distinct(SInner(n, kids)) && |ks| == |kids| && forall j :: 0 <= j < |ks| ==> Foot(ks[j]) <= Foot(kids[j]) && Distinct(ks[j])
    ensures Distinct(SInner(n, ks))
  {
    hide Foot;
    var s, s' := SInner(n, kids), SInner(n, ks);
    assert forall j :: 0 <= j < |ks| ==> s.node !in Foot(kids[j]);
    assert forall j, l :: 0 <= j < l < |ks| ==> Foot(s.kids[j]) !! Foot(s.kids[l]);
  }

  // ---------- canonical trees ----------

  ghost predicate AllFit(trust: Trust, kind: Kind, m: Contents) {
    forall k :: k in m ==> Fit(trust, kind, Item(k, m[k]))
  }

  lemma {:induction false} CanonStorable(trust: Trust, kind: Kind, u: Contents, d: nat)
    requires d <= MAX_DEPTH && Shared(u, d) && AllFit(trust, kind, u)
    ensures Storable(trust, Canon(kind, u, d))
    decreases MAX_DEPTH - d, 1
  {
    SharedCases(kind, u, d);
    if Canon(kind, u, d).Inner? {
      RootStorableAt(trust, kind, u, d);
    }
  }

  lemma {:induction false} RootStorableAt(trust: Trust, kind: Kind, u: Contents, d: nat)
    requires d < MAX_DEPTH && Shared(u, d) && AllFit(trust, kind, u)
    ensures var t := Inner(CanonKids(kind, u, d)); KidsStorable(trust, t) && (Bare(t.kids) <==> u == map[])
    decreases MAX_DEPTH - d, 0
  {
    hide Canon;
    var kids := CanonKids(kind, u, d);
    forall i | 0 <= i < BRANCH_FACTOR ensures Storable(trust, kids[i]) && (kids[i].Nil? <==> Sub(u, d, i) == map[]) {
      SharedStep(u, d, i);
      CanonStorable(trust, kind, Sub(u, d, i), d + 1);
      CanonNil(kind, Sub(u, d, i), d + 1);
    }
    if k :| k in u {
      assert k in Sub(u, d, SelectBranch(k, d));
    }
  }

  /** The canonical tree of readable entries can be flushed, unless there are none. */
  lemma {:induction false} RootStorable(trust: Trust, kind: Kind, m: Contents, ps: set<bytes>)
    requires AllFit(trust, kind, m) && Preimages(CanonRoot(kind, m)) <= ps
    ensures Sources(trust, CanonRoot(kind, m), ps) && (Storable(trust, CanonRoot(kind, m)) <==> m != map[])
  {
    RootStorableAt(trust, kind, m, 0);
    StorableInner(trust, CanonKids(kind, m, 0));
  }

  lemma {:induction false} EmptyBatch(base: Env, ps: set<bytes>)
    requires base.backed && CollisionFree(ps) && Addressed(base.store, ps)
    ensures BatchOk(base, [], ps)
  {
  }
}
