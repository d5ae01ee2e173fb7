/** What a comparison of two trees tells, in which order, and when it stops too early. */
module Telling {
  import opened Bytes
  import opened Tree
  import opened Canonical
  import opened LeafOrder
  import opened Merkle
  import opened KeyOrder
  import opened SyncTree
  import opened Sinks
  import opened BranchWalk
  import D = Differing

  /** Two nodes at the same place of two trees. */
  datatype TreePair = TreePair(our: Tree, other: Tree)

  // ---------- one pair ----------

  /** Both children are there and their hashes differ. */
  ghost predicate Open(a: Tree, b: Tree) {
    !a.Nil? && !b.Nil? && HashOf(a) != HashOf(b)
  }

  /** A child that only one side has is walked at once. */
  ghost function BranchTold(a: Tree, b: Tree): Log {
    if a.Nil? && !b.Nil? then D.WalkTold(Leaves(b), None, false)
    else if b.Nil? && !a.Nil? then D.WalkTold(Leaves(a), None, true)
    else []
  }

  ghost predicate BothInner(p: TreePair) {
    p.our.Inner? && p.other.Inner? && |p.our.kids| == |p.other.kids|
  }

  ghost function KidPair(p: TreePair, i: nat): TreePair
    requires BothInner(p) && i < |p.our.kids|
  {
    TreePair(p.our.kids[i], p.other.kids[i])
  }

  /** What the first n branches of two inner nodes tell. */
  ghost function KidsTold(p: TreePair, n: nat): Log
    requires BothInner(p) && n <= |p.our.kids|
  {
    if n == 0 then [] else KidsTold(p, n - 1) + BranchTold(p.our.kids[n - 1], p.other.kids[n - 1])
  }

  /** Which of them are left for later. */
  ghost function KidsOpen(p: TreePair, n: nat): seq<TreePair>
    requires BothInner(p) && n <= |p.our.kids|
  {
    if n == 0 then []
    else KidsOpen(p, n - 1) + if Open(p.our.kids[n - 1], p.other.kids[n - 1]) then [KidPair(p, n - 1)] else []
  }

  ghost function LeavesTold(a: Item, b: Item): Log {
    if a.key != b.key then [D.Unmatched(a, true), D.Unmatched(b, false)]
    else if a.data != b.data then [D.Modified(a, b, true)]
    else []
  }

  /** What a pair tells when it is taken off the stack. */
  ghost function PairTold(p: TreePair): Log {
    if BothInner(p) then KidsTold(p, |p.our.kids|)
    else if p.our.Leaf? && p.other.Leaf? then LeavesTold(p.our.item, p.other.item)
    else if p.other.Leaf? then D.WalkTold(Leaves(p.our), Some(p.other.item), true)
    else if p.our.Leaf? then D.WalkTold(Leaves(p.other), Some(p.our.item), false)
    else []
  }

  /** What it puts on the stack. */
  ghost function OpenPairs(p: TreePair): seq<TreePair> {
    if BothInner(p) then KidsOpen(p, |p.our.kids|) else []
  }

  // ---------- the whole stack ----------

  ghost function PairWork(p: TreePair): nat {
    Loaded(p.our) + Loaded(p.other)
  }

  ghost function PairsWork(stack: seq<TreePair>): nat {
    if stack == [] then 0 else PairsWork(stack[..|stack| - 1]) + PairWork(stack[|stack| - 1])
  }

  lemma {:induction false} PairsWorkAppend(stack: seq<TreePair>, more: seq<TreePair>)
    ensures PairsWork(stack + more) == PairsWork(stack) + PairsWork(more)
  {
    hide PairWork;
    if more == [] {
      assert stack + more == stack;
    } else {
      PairsWorkAppend(stack, more[..|more| - 1]);
      assert (stack + more)[..|stack + more| - 1] == stack + more[..|more| - 1];
    }
  }

  lemma {:induction false} PairsWorkMember(stack: seq<TreePair>, i: nat)
    requires i < |stack|
    ensures PairWork(stack[i]) <= PairsWork(stack)
  {
    hide PairWork;
    if i < |stack| - 1 { PairsWorkMember(stack[..|stack| - 1], i); }
  }

  lemma {:induction false} KidsWork(p: TreePair, n: nat)
    requires BothInner(p) && n <= |p.our.kids|
    ensures PairsWork(KidsOpen(p, n)) <= LoadedOf(p.our.kids[..n]) + LoadedOf(p.other.kids[..n])
  {
    hide Loaded, LoadedOf, HashOf;
    if n > 0 {
      KidsWork(p, n - 1);
      var a, b := p.our.kids, p.other.kids;
      assert a[..n] == a[..n - 1] + [a[n - 1]] && b[..n] == b[..n - 1] + [b[n - 1]];
      LoadedOfAppend(a[..n - 1], a[n - 1]);
      LoadedOfAppend(b[..n - 1], b[n - 1]);
      if Open(a[n - 1], b[n - 1]) {
        OneWork(KidPair(p, n - 1));
        PairsWorkAppend(KidsOpen(p, n - 1), [KidPair(p, n - 1)]);
      } else {
        assert KidsOpen(p, n - 1) + [] == KidsOpen(p, n - 1);
      }
    }
  }

  lemma {:induction false} OneWork(p: TreePair)
    ensures PairsWork([p]) == PairWork(p)
  {
    assert [p][..0] == [];
  }

  /** What is left for later is less than what was taken off. */
  lemma {:induction false} OpenLess(p: TreePair)
    ensures BothInner(p) ==> PairsWork(OpenPairs(p)) < PairWork(p)
    ensures forall i :: 0 <= i < |OpenPairs(p)| ==> PairWork(OpenPairs(p)[i]) < PairWork(p)
  {
    hide KidsOpen;
    if BothInner(p) {
      KidsWork(p, |p.our.kids|);
      assert p.our.kids[..|p.our.kids|] == p.our.kids && p.other.kids[..|p.our.kids|] == p.other.kids;
      forall i | 0 <= i < |OpenPairs(p)| ensures PairWork(OpenPairs(p)[i]) <= PairsWork(OpenPairs(p)) {
        PairsWorkMember(OpenPairs(p), i);
      }
    }
  }

  lemma {:induction false} StackLess(stack: seq<TreePair>)
    requires stack != []
    ensures var rest, p := stack[..|stack| - 1], stack[|stack| - 1]; var next := rest + OpenPairs(p);
      PairsWork(next) < PairsWork(stack) || (PairsWork(next) == PairsWork(stack) && |next| < |stack|)
  {
    hide OpenPairs, PairWork;
    var rest, p := stack[..|stack| - 1], stack[|stack| - 1];
    OpenLess(p);
    PairsWorkAppend(rest, OpenPairs(p));
    if !BothInner(p) { NoneOpen(p); }
  }

  lemma {:induction false} NoneOpen(p: TreePair)
    requires !BothInner(p)
    ensures OpenPairs(p) == [] && PairsWork([]) == 0
  {
  }

  /** Two inner nodes that left nothing for later. */
  ghost predicate Halts(p: TreePair) {
    BothInner(p) && OpenPairs(p) == []
  }

  /** All that is told, last pair first. One that stops ends at the first pair that halts it. */
  ghost function Told(stack: seq<TreePair>, stops: bool): Log
    decreases PairsWork(stack), |stack|
  {
    if stack == [] then [] else
      StackLess(stack);
      var rest, p := stack[..|stack| - 1], stack[|stack| - 1];
      PairTold(p) + if stops && Halts(p) then [] else Told(rest + OpenPairs(p), stops)
  }

  /** No pair on the way halts it. */
  ghost predicate Completes(stack: seq<TreePair>)
    decreases PairsWork(stack), |stack|
  {
    stack != [] ==>
      (StackLess(stack);
       var rest, p := stack[..|stack| - 1], stack[|stack| - 1];
       !Halts(p) && Completes(rest + OpenPairs(p)))
  }

  // ---------- when nothing is lost ----------

  /** If both are inner nodes, some branch is open, and so again in every open branch. */
  ghost predicate PairChained(p: TreePair)
    decreases PairWork(p)
  {
    BothInner(p) ==>
      (OpenLess(p); OpenPairs(p) != [] && forall i :: 0 <= i < |OpenPairs(p)| ==> PairChained(OpenPairs(p)[i]))
  }

  ghost predicate AllChained(stack: seq<TreePair>) {
    forall i :: 0 <= i < |stack| ==> PairChained(stack[i])
  }

  lemma {:induction false} ChainedUnfold(p: TreePair)
    ensures PairChained(p) <==> !Halts(p) && AllChained(OpenPairs(p))
  {
    hide PairWork;
    if !BothInner(p) { NoneOpen(p); }
  }

  lemma {:induction false} ChainedAppend(a: seq<TreePair>, b: seq<TreePair>)
    ensures AllChained(a + b) <==> AllChained(a) && AllChained(b)
  {
    hide PairChained;
    if AllChained(a + b) {
      assert forall i :: 0 <= i < |a| ==> a[i] == (a + b)[i];
      assert forall i :: 0 <= i < |b| ==> b[i] == (a + b)[|a| + i];
    }
  }

  lemma {:induction false} OneChained(p: TreePair)
    ensures AllChained([p]) <==> PairChained(p)
  {
    hide PairChained;
    assert [p][0] == p;
  }

  /** The comparison runs to its end exactly if every pair on the stack is chained. */
  lemma {:induction false} CompletesIffChained(stack: seq<TreePair>)
    ensures Completes(stack) <==> AllChained(stack)
    decreases PairsWork(stack), |stack|
  {
    hide PairChained, OpenPairs, PairWork, Halts, PairsWork;
    if stack != [] {
      StackLess(stack);
      var rest, p := stack[..|stack| - 1], stack[|stack| - 1];
      CompletesIffChained(rest + OpenPairs(p));
      ChainedUnfold(p);
      ChainedAppend(rest, OpenPairs(p));
      assert stack == rest + [p];
      ChainedAppend(rest, [p]);
      OneChained(p);
    }
  }

  /** If the pair is the last one left, nothing is lost: all but the first of what it leaves for later is chained, and the first is spared again. */
  ghost predicate Spared(p: TreePair)
    decreases PairWork(p)
  {
    OpenPairs(p) != [] ==> (OpenLess(p); Spared(OpenPairs(p)[0]) && AllChained(OpenPairs(p)[1..]))
  }

  ghost predicate StackSpared(stack: seq<TreePair>) {
    stack != [] ==> Spared(stack[0]) && AllChained(stack[1..])
  }

  /** Each of them has something to tell. */
  ghost predicate AllTell(stack: seq<TreePair>) {
    forall i :: 0 <= i < |stack| ==> PairTells(stack[i])
  }

  ghost predicate PairTells(p: TreePair)
    decreases PairWork(p)
  {
    && Told([p], false) != []
    && (OpenLess(p); forall i :: 0 <= i < |OpenPairs(p)| ==> PairTells(OpenPairs(p)[i]))
  }

  lemma {:induction false} ToldUnfold(stack: seq<TreePair>, p: TreePair, stops: bool)
    ensures Told(stack + [p], stops) == PairTold(p) + if stops && Halts(p) then [] else Told(stack + OpenPairs(p), stops)
  {
    hide PairTold, OpenPairs, Halts, PairsWork;
    assert (stack + [p])[..|stack|] == stack;
  }

  /** One that does not stop tells what the pairs tell, one after the other. */
  lemma {:induction false} ToldAppend(a: seq<TreePair>, b: seq<TreePair>)
    ensures Told(a + b, false) == Told(b, false) + Told(a, false)
    decreases PairsWork(b), |b|
  {
    hide PairTold, OpenPairs, Halts, PairsWork, Told;
    if b == [] {
      ToldNone(false);
      assert a + b == a;
    } else {
      StackLess(b);
      var rest, p := b[..|b| - 1], b[|b| - 1];
      assert a + b == (a + rest) + [p] && b == rest + [p];
      ToldUnfold(a + rest, p, false);
      ToldUnfold(rest, p, false);
      assert a + rest + OpenPairs(p) == a + (rest + OpenPairs(p));
      ToldAppend(a, rest + OpenPairs(p));
      assert PairTold(p) + (Told(rest + OpenPairs(p), false) + Told(a, false)) == PairTold(p) + Told(rest + OpenPairs(p), false) + Told(a, false);
    }
  }

  /** One that stops tells the first part, and all of it if no pair halts it. */
  lemma {:induction false} FirstPart(stack: seq<TreePair>)
    ensures Told(stack, true) <= Told(stack, false)
    ensures Completes(stack) ==> Told(stack, true) == Told(stack, false)
    decreases PairsWork(stack), |stack|
  {
    hide PairTold, OpenPairs, PairsWork, PairWork, Halts;
    if stack != [] {
      StackLess(stack);
      FirstPart(stack[..|stack| - 1] + OpenPairs(stack[|stack| - 1]));
    }
  }

  /** It tells all exactly if the stack is spared. */
  lemma {:induction false} StoppedEarly(stack: seq<TreePair>)
    requires AllTell(stack)
    ensures Told(stack, true) == Told(stack, false) <==> StackSpared(stack)
    decreases PairsWork(stack), |stack|
  {
    hide PairTold, OpenPairs, PairsWork, PairChained, Spared, PairTells, Told, PairWork;
    if stack == [] {
      ToldNone(true);
      ToldNone(false);
    } else {
      StackLess(stack);
      var rest, p := stack[..|stack| - 1], stack[|stack| - 1];
      assert stack == rest + [p];
      ToldUnfold(rest, p, true);
      ToldUnfold(rest, p, false);
      SparedStep(rest, p);
      if Halts(p) {
        assert rest + OpenPairs(p) == rest;
        if rest != [] { TellSome(rest); } else { ToldNone(false); }
      } else {
        TellOn(rest, p);
        StoppedEarly(rest + OpenPairs(p));
        SameTail(PairTold(p), Told(rest + OpenPairs(p), true), Told(rest + OpenPairs(p), false));
      }
    }
  }

  lemma {:induction false} SameTail<T>(a: seq<T>, b: seq<T>, c: seq<T>)
    ensures a + b == a + c <==> b == c
  {
    if a + b == a + c { assert b == (a + b)[|a|..] && c == (a + c)[|a|..]; }
  }

  lemma {:induction false} ToldNone(stops: bool)
    ensures Told([], stops) == []
  {
  }

  lemma {:induction false} TellSome(stack: seq<TreePair>)
    requires stack != [] && AllTell(stack)
    ensures Told(stack, false) != []
  {
    hide Told;
    var rest, p := stack[..|stack| - 1], stack[|stack| - 1];
    assert stack == rest + [p];
    ToldAppend(rest, [p]);
    assert PairTells(stack[|stack| - 1]);
  }

  lemma {:induction false} TellOn(rest: seq<TreePair>, p: TreePair)
    requires AllTell(rest + [p])
    ensures AllTell(rest + OpenPairs(p))
  {
    hide Told, OpenPairs;
    var all, next := rest + [p], rest + OpenPairs(p);
    assert PairTells(all[|rest|]);
    forall i | 0 <= i < |next| ensures PairTells(next[i]) {
      if i < |rest| { assert next[i] == all[i]; }
    }
  }

  lemma {:induction false} SparedStep(rest: seq<TreePair>, p: TreePair)
    ensures Halts(p) ==> (StackSpared(rest + [p]) <==> rest == [])
    ensures !Halts(p) ==> (StackSpared(rest + [p]) <==> StackSpared(rest + OpenPairs(p)))
  {
    hide PairChained, PairWork, KidsOpen;
    var all, next := rest + [p], rest + OpenPairs(p);
    ChainedUnfold(p);
    if rest == [] {
      assert all == [p] && all[1..] == [] && next == OpenPairs(p);
      if !BothInner(p) { NoneOpen(p); }
    } else {
      assert all[1..] == rest[1..] + [p] && next[1..] == rest[1..] + OpenPairs(p) && all[0] == next[0] == rest[0];
      ChainedAppend(rest[1..], [p]);
      ChainedAppend(rest[1..], OpenPairs(p));
      OneChained(p);
    }
  }

  // ---------- what it means for two maps ----------

  datatype Kinds = Kinds(ours: Kind, theirs: Kind)

  /** Where two nodes stand and what their subtrees hold. */
  datatype Place = Place(ours: Contents, theirs: Contents, depth: nat)

  ghost function NodeOf(kind: Kind, u: Contents, d: nat): Tree
    requires d <= MAX_DEPTH
  {
    if d == 0 then CanonRoot(kind, u) else Canon(kind, u, d)
  }

  /** The subtree of u at depth d, and nothing in it that ps does not cover. */
  ghost predicate Represents(kind: Kind, u: Contents, d: nat, t: Tree, ps: set<bytes>) {
    d <= MAX_DEPTH && Shared(u, d) && AllBound(kind, u) && t == NodeOf(kind, u, d) && Preimages(t) <= ps
  }

  lemma {:induction false} RepresentsCases(kind: Kind, u: Contents, d: nat, t: Tree, ps: set<bytes>)
    requires Represents(kind, u, d, t, ps)
    ensures t.Nil? || Walkable(t)
    ensures t.Leaf? ==> u == D.Lone(Some(t.item))
    ensures t.Inner? ==> d < MAX_DEPTH && t.kids == CanonKids(kind, u, d)
    ensures D.ItemsOf(Leaves(t), u) && D.UniqueKeys(Leaves(t)) && (t.Nil? ==> u == map[])
  {
    hide Leaves, CanonKids;
    if d == 0 {
      RootSound(kind, u);
      RootItems(kind, u);
    } else {
      SharedCases(kind, u, d);
      CanonSound(kind, u, d);
      CanonWhole(kind, u, d);
      D.CanonItems(kind, u, d);
    }
  }

  lemma {:induction false} RootItems(kind: Kind, u: Contents)
    ensures D.ItemsOf(Leaves(CanonRoot(kind, u)), u)
  {
    hide Leaves, CanonRoot, KeyLess;
    var items := Leaves(CanonRoot(kind, u));
    RootSorted(kind, u);
    forall i, j | 0 <= i < j < |items| ensures items[i].key != items[j].key {
      LessAsym(items[i].key, items[j].key);
    }
    forall it ensures it in items <==> it.key in u && u[it.key] == it.data {
      RootLeaves(kind, u, it);
    }
  }

  lemma {:induction false} RepresentsKid(kind: Kind, u: Contents, d: nat, t: Tree, ps: set<bytes>, i: nat)
    requires Represents(kind, u, d, t, ps) && t.Inner? && i < BRANCH_FACTOR
    ensures d < MAX_DEPTH && |t.kids| == BRANCH_FACTOR && Represents(kind, Sub(u, d, i), d + 1, t.kids[i], ps)
  {
    hide Canon;
    RepresentsCases(kind, u, d, t, ps);
    SharedStep(u, d, i);
    KidInputs(t, i);
  }

  /** The subtrees of two maps at one place, and both are there with different hashes. */
  ghost predicate PairOk(kinds: Kinds, p: TreePair, q: Place, ps: set<bytes>) {
    && Represents(kinds.ours, q.ours, q.depth, p.our, ps) && Represents(kinds.theirs, q.theirs, q.depth, p.other, ps)
    && Open(p.our, p.other)
  }

  /** Equal hashes at the same place: nothing to tell. */
  lemma {:induction false} EqualHashes(kinds: Kinds, u: Contents, v: Contents, d: nat, s: Tree, t: Tree, ps: set<bytes>)
    requires 0 < d && Represents(kinds.ours, u, d, s, ps) && Represents(kinds.theirs, v, d, t, ps)
    requires HashOf(s) == HashOf(t) && CollisionFree(ps)
    ensures u == v && s == t && D.Differences(u, v) == multiset{}
  {
    hide Leaves;
    RepresentsCases(kinds.ours, u, d, s, ps);
    RepresentsCases(kinds.theirs, v, d, t, ps);
    CanonSound(kinds.ours, u, d);
    CanonSound(kinds.theirs, v, d);
    HashPinsLeaves(s, t, ps);
    SameItems(Leaves(s), u, v);
    D.NoDifferences(u, v);
  }

  lemma {:induction false} SameItems(items: seq<Item>, u: Contents, v: Contents)
    requires D.ItemsOf(items, u) && D.ItemsOf(items, v)
    ensures u == v
  {
    forall k | k in u ensures k in v && v[k] == u[k] { assert Item(k, u[k]) in items; }
    forall k | k in v ensures k in u { assert Item(k, v[k]) in items; }
  }

  ghost function Pending(qs: seq<Place>): Bag {
    if qs == [] then multiset{}
    else Pending(qs[..|qs| - 1]) + D.Differences(qs[|qs| - 1].ours, qs[|qs| - 1].theirs)
  }

  lemma {:induction false} PendingAppend(qs: seq<Place>, es: seq<Place>)
    ensures Pending(qs + es) == Pending(qs) + Pending(es)
  {
    hide D.Differences, Pending;
    if es == [] {
      PendingNone();
      assert qs + es == qs;
    } else {
      var rest, last := es[..|es| - 1], es[|es| - 1];
      PendingAppend(qs, rest);
      assert qs + es == (qs + rest) + [last] && es == rest + [last];
      PendingOne(qs + rest, last);
      PendingOne(rest, last);
      assert Pending(qs) + Pending(rest) + D.Differences(last.ours, last.theirs) == Pending(qs) + (Pending(rest) + D.Differences(last.ours, last.theirs));
    }
  }

  lemma {:induction false} PendingNone()
    ensures Pending([]) == multiset{}
  {
  }

  lemma {:induction false} PendingOne(qs: seq<Place>, q: Place)
    ensures Pending(qs + [q]) == Pending(qs) + D.Differences(q.ours, q.theirs)
  {
    assert (qs + [q])[..|qs|] == qs;
  }

  /** The place of a branch. */
  ghost function PlaceAt(q: Place, i: nat): Place {
    Place(Sub(q.ours, q.depth, i), Sub(q.theirs, q.depth, i), q.depth + 1)
  }

  ghost function KidsPlaces(p: TreePair, q: Place, n: nat): seq<Place>
    requires BothInner(p) && n <= |p.our.kids|
  {
    if n == 0 then []
    else KidsPlaces(p, q, n - 1) + if Open(p.our.kids[n - 1], p.other.kids[n - 1]) then [PlaceAt(q, n - 1)] else []
  }

  ghost function OpenPlaces(p: TreePair, q: Place): seq<Place> {
    if BothInner(p) then KidsPlaces(p, q, |p.our.kids|) else []
  }

  ghost predicate PairsOk(kinds: Kinds, pairs: seq<TreePair>, qs: seq<Place>, ps: set<bytes>) {
    |pairs| == |qs| && forall i :: 0 <= i < |pairs| ==> PairOk(kinds, pairs[i], qs[i], ps)
  }

  lemma {:induction false} PairsOkAppend(kinds: Kinds, pairs: seq<TreePair>, qs: seq<Place>, more: seq<TreePair>, es: seq<Place>, ps: set<bytes>)
    requires PairsOk(kinds, pairs, qs, ps) && PairsOk(kinds, more, es, ps)
    ensures PairsOk(kinds, pairs + more, qs + es, ps)
  {
    hide PairOk;
  }

  lemma {:induction false} InnerKid(kinds: Kinds, p: TreePair, q: Place, i: nat, ps: set<bytes>)
    requires PairOk(kinds, p, q, ps) && p.our.Inner? && p.other.Inner? && i < BRANCH_FACTOR
    ensures |p.our.kids| == |p.other.kids| == BRANCH_FACTOR && q.depth < MAX_DEPTH
    ensures Represents(kinds.ours, PlaceAt(q, i).ours, q.depth + 1, p.our.kids[i], ps)
    ensures Represents(kinds.theirs, PlaceAt(q, i).theirs, q.depth + 1, p.other.kids[i], ps)
  {
    hide Represents;
    RepresentsKid(kinds.ours, q.ours, q.depth, p.our, ps, i);
    RepresentsKid(kinds.theirs, q.theirs, q.depth, p.other, ps, i);
  }

  /** A branch that is not open is told completely. */
  lemma {:induction false} BranchAll(kinds: Kinds, a: Tree, b: Tree, q: Place, ps: set<bytes>)
    requires 0 < q.depth && Represents(kinds.ours, q.ours, q.depth, a, ps) && Represents(kinds.theirs, q.theirs, q.depth, b, ps)
    requires !Open(a, b) && CollisionFree(ps)
    ensures multiset(BranchTold(a, b)) == D.Differences(q.ours, q.theirs)
  {
    hide Represents, Leaves, HashOf, D.WalkTold, D.Differences, D.ItemsOf, D.UniqueKeys;
    RepresentsCases(kinds.ours, q.ours, q.depth, a, ps);
    RepresentsCases(kinds.theirs, q.theirs, q.depth, b, ps);
    if a.Nil? && b.Nil? {
      D.NoDifferences(q.ours, q.theirs);
    } else if a.Nil? {
      D.WalkTells(Leaves(b), q.theirs, None, false);
    } else if b.Nil? {
      D.WalkTells(Leaves(a), q.ours, None, true);
    } else {
      EqualHashes(kinds, q.ours, q.theirs, q.depth, a, b, ps);
    }
  }

  /** The first n branches: what they tell and what they leave. */
  lemma {:induction false} KidsAll(kinds: Kinds, p: TreePair, q: Place, n: nat, ps: set<bytes>)
    requires PairOk(kinds, p, q, ps) && BothInner(p) && n <= |p.our.kids| == BRANCH_FACTOR && CollisionFree(ps)
    ensures PairsOk(kinds, KidsOpen(p, n), KidsPlaces(p, q, n), ps)
    ensures multiset(KidsTold(p, n)) + Pending(KidsPlaces(p, q, n)) + D.BranchDifferences(q.ours, q.theirs, q.depth, n)
         == D.BranchDifferences(q.ours, q.theirs, q.depth, 0)
  {
    hide PairOk, Represents, D.Differences, D.BranchDifferences, BranchTold, HashOf, PlaceAt, Pending, Open;
    if n == 0 {
      PendingNone();
    } else {
      var i := n - 1;
      var a, b, r := p.our.kids[i], p.other.kids[i], PlaceAt(q, i);
      KidsAll(kinds, p, q, i, ps);
      PlaceSplit(q, i);
      var told, pending, here, rest := multiset(KidsTold(p, i)), Pending(KidsPlaces(p, q, i)), D.Differences(r.ours, r.theirs),
        D.BranchDifferences(q.ours, q.theirs, q.depth, n);
      if Open(a, b) {
        KidOk(kinds, p, q, i, ps);
        PairsOkAppend(kinds, KidsOpen(p, i), KidsPlaces(p, q, i), [KidPair(p, i)], [r], ps);
        PendingOne(KidsPlaces(p, q, i), r);
        NothingTold(a, b);
        assert KidsTold(p, n) == KidsTold(p, i);
        assert told + (pending + here) + rest == told + pending + (here + rest);
      } else {
        InnerKid(kinds, p, q, i, ps);
        PlaceDepth(q, i);
        BranchAll(kinds, a, b, r, ps);
        assert KidsOpen(p, n) == KidsOpen(p, i) && KidsPlaces(p, q, n) == KidsPlaces(p, q, i);
        assert (told + here) + pending + rest == told + pending + (here + rest);
      }
    }
  }

  lemma {:induction false} PlaceDepth(q: Place, i: nat)
    ensures PlaceAt(q, i).depth == q.depth + 1
  {
  }

  lemma {:induction false} NothingTold(a: Tree, b: Tree)
    requires Open(a, b)
    ensures BranchTold(a, b) == []
  {
  }

  lemma {:induction false} PlaceSplit(q: Place, i: nat)
    requires i < BRANCH_FACTOR
    ensures D.BranchDifferences(q.ours, q.theirs, q.depth, i) ==
      D.Differences(PlaceAt(q, i).ours, PlaceAt(q, i).theirs) + D.BranchDifferences(q.ours, q.theirs, q.depth, i + 1)
  {
  }

  lemma {:induction false} KidOk(kinds: Kinds, p: TreePair, q: Place, i: nat, ps: set<bytes>)
    requires PairOk(kinds, p, q, ps) && BothInner(p) && i < |p.our.kids| == BRANCH_FACTOR && Open(p.our.kids[i], p.other.kids[i])
    ensures PairsOk(kinds, [KidPair(p, i)], [PlaceAt(q, i)], ps)
  {
    hide Represents;
    InnerKid(kinds, p, q, i, ps);
  }

  /** One pair: what it tells and what it leaves make up the differences at its place. */
  lemma {:induction false} PairAll(kinds: Kinds, p: TreePair, q: Place, ps: set<bytes>)
    requires PairOk(kinds, p, q, ps) && CollisionFree(ps)
    ensures PairsOk(kinds, OpenPairs(p), OpenPlaces(p, q), ps)
    ensures multiset(PairTold(p)) + Pending(OpenPlaces(p, q)) == D.Differences(q.ours, q.theirs)
  {
    hide Represents, Leaves, KidsOpen, KidsTold, KidsPlaces, D.WalkTold, D.Differences, D.BranchDifferences, D.ItemsOf, D.UniqueKeys, D.Lone, LeavesTold, Walkable, Pending;
    RepresentsCases(kinds.ours, q.ours, q.depth, p.our, ps);
    RepresentsCases(kinds.theirs, q.theirs, q.depth, p.other, ps);
    PendingNone();
    if p.our.Inner? && p.other.Inner? {
      InnerKid(kinds, p, q, 0, ps);
      KidsAll(kinds, p, q, BRANCH_FACTOR, ps);
      D.SplitDifferences(q.ours, q.theirs, q.depth);
      NoBranchLeft(q);
    } else if p.our.Leaf? && p.other.Leaf? {
      LeafPair(p.our.item, p.other.item);
    } else if p.other.Leaf? {
      D.WalkTells(Leaves(p.our), q.ours, Some(p.other.item), true);
    } else {
      OtherLeaf(p);
      D.WalkTells(Leaves(p.other), q.theirs, Some(p.our.item), false);
    }
  }

  lemma {:induction false} OtherLeaf(p: TreePair)
    requires Walkable(p.our) && Walkable(p.other) && !(p.our.Inner? && p.other.Inner?) && !p.other.Leaf?
    ensures p.our.Leaf?
  {
  }

  lemma {:induction false} NoBranchLeft(q: Place)
    ensures D.BranchDifferences(q.ours, q.theirs, q.depth, BRANCH_FACTOR) == multiset{}
  {
  }

  lemma {:induction false} LeafPair(a: Item, b: Item)
    ensures multiset(LeavesTold(a, b)) == D.Differences(D.Lone(Some(a)), D.Lone(Some(b)))
  {
    hide D.Differences;
    var items := [a];
    OneItem(a);
    D.WalkTells(items, D.Lone(Some(a)), Some(b), true);
    OneWalked(a, b);
  }

  lemma {:induction false} OneItem(a: Item)
    ensures D.ItemsOf([a], D.Lone(Some(a)))
  {
  }

  lemma {:induction false} OneWalked(a: Item, b: Item)
    ensures D.WalkTold([a], Some(b), true) == LeavesTold(a, b)
  {
    var items := [a];
    assert items[1..] == [] && items[0] == a;
    assert D.HasKey(items, b.key) <==> a.key == b.key;
    assert D.ItemsTold([], Some(b), true) == [] && D.ItemsTold(items, Some(b), true) == D.ItemTold(a, Some(b), true);
  }

  /** All that is told is all that differs, each once. */
  lemma {:induction false} ToldAll(kinds: Kinds, stack: seq<TreePair>, qs: seq<Place>, ps: set<bytes>)
    requires PairsOk(kinds, stack, qs, ps) && CollisionFree(ps)
    ensures multiset(Told(stack, false)) == Pending(qs)
    decreases PairsWork(stack), |stack|
  {
    hide PairOk, PairTold, OpenPairs, PairsWork, D.Differences, Pending, OpenPlaces, Halts, CollisionFree;
    if stack == [] {
      PendingNone();
    } else {
      StackLess(stack);
      var rest, p, before, q := stack[..|stack| - 1], stack[|stack| - 1], qs[..|qs| - 1], qs[|qs| - 1];
      PairAll(kinds, p, q, ps);
      PairsOkAppend(kinds, rest, before, OpenPairs(p), OpenPlaces(p, q), ps);
      ToldAll(kinds, rest + OpenPairs(p), before + OpenPlaces(p, q), ps);
      PendingAppend(before, OpenPlaces(p, q));
      assert qs == before + [q];
      PendingOne(before, q);
    }
  }

  /** Between maps of one type every pair has something to tell. */
  lemma {:induction false} TellsOk(kind: Kind, p: TreePair, q: Place, ps: set<bytes>)
    requires PairOk(Kinds(kind, kind), p, q, ps) && CollisionFree(ps)
    ensures PairTells(p)
    decreases PairWork(p)
  {
    hide PairOk, Represents, OpenPairs, OpenPlaces, Told, D.Differences, CollisionFree, Pending;
    var kinds := Kinds(kind, kind);
    ToldAll(kinds, [p], [q], ps);
    DiffersAt(kind, p, q, ps);
    PendingNone();
    assert [] + [q] == [q];
    PendingOne([], q);
    OpenLess(p);
    PairAll(kinds, p, q, ps);
    forall i | 0 <= i < |OpenPairs(p)| ensures PairTells(OpenPairs(p)[i]) {
      TellsOk(kind, OpenPairs(p)[i], OpenPlaces(p, q)[i], ps);
    }
  }

  lemma {:induction false} DiffersAt(kind: Kind, p: TreePair, q: Place, ps: set<bytes>)
    requires PairOk(Kinds(kind, kind), p, q, ps)
    ensures D.Differences(q.ours, q.theirs) != multiset{}
  {
    hide D.Differences;
    D.NoDifferences(q.ours, q.theirs);
  }

  lemma {:induction false} SameHashes(a: seq<Tree>, b: seq<Tree>)
    requires |a| == |b| && forall j :: 0 <= j < |a| ==> HashOf(a[j]) == HashOf(b[j]) && (a[j].Nil? <==> b[j].Nil?)
    ensures HashOf(Inner(a)) == HashOf(Inner(b))
  {
    assert Hashes(a) == Hashes(b);
  }

  /** Two inner nodes that leave nothing for later have told something. */
  lemma {:induction false} HaltTells(kinds: Kinds, p: TreePair, q: Place, ps: set<bytes>)
    requires PairOk(kinds, p, q, ps) && Halts(p) && CollisionFree(ps)
    ensures PairTold(p) != []
  {
    hide Represents, CollisionFree, KidsOpen, KidsTold;
    InnerKid(kinds, p, q, 0, ps);
    if PairTold(p) == [] {
      forall i | 0 <= i < |p.our.kids| ensures HashOf(p.our.kids[i]) == HashOf(p.other.kids[i]) && (p.our.kids[i].Nil? <==> p.other.kids[i].Nil?) {
        InnerKid(kinds, p, q, i, ps);
        NotOpen(p, |p.our.kids|, i);
        OneSided(kinds, p.our.kids[i], p.other.kids[i], PlaceAt(q, i), ps);
      }
      SameHashes(p.our.kids, p.other.kids);
      assert false;
    }
  }

  lemma {:induction false} NotOpen(p: TreePair, n: nat, i: nat)
    requires BothInner(p) && i < n <= |p.our.kids|
    ensures KidsOpen(p, n) == [] ==> !Open(p.our.kids[i], p.other.kids[i])
    ensures KidsTold(p, n) == [] ==> BranchTold(p.our.kids[i], p.other.kids[i]) == []
  {
    hide Open, BranchTold;
    if i < n - 1 { NotOpen(p, n - 1, i); }
  }

  lemma {:induction false} OneSided(kinds: Kinds, a: Tree, b: Tree, q: Place, ps: set<bytes>)
    requires 0 < q.depth && Represents(kinds.ours, q.ours, q.depth, a, ps) && Represents(kinds.theirs, q.theirs, q.depth, b, ps)
    requires !Open(a, b) && BranchTold(a, b) == [] && CollisionFree(ps)
    ensures HashOf(a) == HashOf(b) && (a.Nil? <==> b.Nil?)
  {
    hide Represents, CollisionFree, Leaves, D.WalkTold, D.Differences, D.ItemsOf, D.UniqueKeys, D.Lone;
    BranchAll(kinds, a, b, q, ps);
    D.NoDifferences(q.ours, q.theirs);
    NilContents(kinds.ours, q.ours, q.depth, a, ps);
    NilContents(kinds.theirs, q.theirs, q.depth, b, ps);
  }

  lemma {:induction false} NilContents(kind: Kind, u: Contents, d: nat, t: Tree, ps: set<bytes>)
    requires 0 < d && Represents(kind, u, d, t, ps)
    ensures t.Nil? <==> u == map[]
  {
    CanonNil(kind, u, d);
  }

  /** Equal contents under different types are told apart nowhere, and no pair halts the comparison. */
  lemma {:induction false} SameChained(kinds: Kinds, p: TreePair, q: Place, ps: set<bytes>)
    requires PairOk(kinds, p, q, ps) && q.ours == q.theirs && CollisionFree(ps)
    ensures PairChained(p)
    decreases PairWork(p)
  {
    hide PairOk, Represents, OpenPairs, OpenPlaces, D.Differences, CollisionFree, PairTold, PairWork;
    PairAll(kinds, p, q, ps);
    D.NoDifferences(q.ours, q.theirs);
    if Halts(p) { HaltTells(kinds, p, q, ps); }
    OpenLess(p);
    ChainedUnfold(p);
    forall i | 0 <= i < |OpenPairs(p)| ensures PairChained(OpenPairs(p)[i]) {
      SamePlaces(p, q, i);
      SameChained(kinds, OpenPairs(p)[i], OpenPlaces(p, q)[i], ps);
    }
  }

  lemma {:induction false} SamePlaces(p: TreePair, q: Place, i: nat)
    requires q.ours == q.theirs && i < |OpenPlaces(p, q)|
    ensures OpenPlaces(p, q)[i].ours == OpenPlaces(p, q)[i].theirs
  {
    if BothInner(p) { SameKidsPlaces(p, q, |p.our.kids|, i); }
  }

  lemma {:induction false} SameKidsPlaces(p: TreePair, q: Place, n: nat, i: nat)
    requires BothInner(p) && q.ours == q.theirs && n <= |p.our.kids| && i < |KidsPlaces(p, q, n)|
    ensures KidsPlaces(p, q, n)[i].ours == KidsPlaces(p, q, n)[i].theirs
  {
    if i < |KidsPlaces(p, q, n - 1)| { SameKidsPlaces(p, q, n - 1, i); }
  }

  /** A comparison that is halted has told something. */
  lemma {:induction false} HaltedTells(kinds: Kinds, stack: seq<TreePair>, qs: seq<Place>, ps: set<bytes>)
    requires PairsOk(kinds, stack, qs, ps) && CollisionFree(ps) && !Completes(stack)
    ensures Told(stack, true) != []
    decreases PairsWork(stack), |stack|
  {
    hide PairOk, PairTold, OpenPairs, PairsWork, OpenPlaces, Halts, CollisionFree, PairWork;
    StackLess(stack);
    var rest, p, before, q := stack[..|stack| - 1], stack[|stack| - 1], qs[..|qs| - 1], qs[|qs| - 1];
    if Halts(p) {
      HaltTells(kinds, p, q, ps);
    } else {
      PairAll(kinds, p, q, ps);
      PairsOkAppend(kinds, rest, before, OpenPairs(p), OpenPlaces(p, q), ps);
      HaltedTells(kinds, rest + OpenPairs(p), before + OpenPlaces(p, q), ps);
    }
  }

  // ---------- two roots ----------

  ghost function RootPair(kinds: Kinds, a: Contents, b: Contents): TreePair {
    TreePair(CanonRoot(kinds.ours, a), CanonRoot(kinds.theirs, b))
  }

  /** No collision stands between the two trees. */
  ghost predicate Compared(kinds: Kinds, a: Contents, b: Contents, ps: set<bytes>) {
    && AllBound(kinds.ours, a) && AllBound(kinds.theirs, b) && CollisionFree(ps)
    && Preimages(CanonRoot(kinds.ours, a)) <= ps && Preimages(CanonRoot(kinds.theirs, b)) <= ps
  }

  /** Equal root hashes mean equal contents, and of one type if there are any. */
  lemma {:induction false} RootsEqual(kinds: Kinds, a: Contents, b: Contents, ps: set<bytes>)
    requires Compared(kinds, a, b, ps)
    ensures var p := RootPair(kinds, a, b); HashOf(p.our) == HashOf(p.other) <==> a == b && (kinds.ours == kinds.theirs || a == map[])
    ensures var p := RootPair(kinds, a, b); HashOf(p.our) == HashOf(p.other) ==> p.our == p.other
    ensures var p := RootPair(kinds, a, b); HashOf(p.our) != HashOf(p.other) ==> PairsOk(kinds, [p], [Place(a, b, 0)], ps)
  {
    hide CanonRoot, HashOf, Preimages, Leaves, Whole, Wide, Bound, Tidy, CollisionFree;
    var p := RootPair(kinds, a, b);
    RootSound(kinds.ours, a);
    RootSound(kinds.theirs, b);
    RootZero(kinds.ours, a, ps);
    RootZero(kinds.theirs, b, ps);
    if a == map[] && b == map[] { EmptyRoots(kinds.ours, kinds.theirs); }
    if HashOf(p.our) == HashOf(p.other) && a != map[] {
      HashPinsLeaves(p.our, p.other, ps);
      RootItems(kinds.ours, a);
      RootItems(kinds.theirs, b);
      SameItems(Leaves(p.our), a, b);
      var it := SomeLeaf(p.our);
      OneKind(kinds.ours, kinds.theirs, a, b);
    }
  }

  lemma {:induction false} EmptyRoots(k: Kind, l: Kind)
    ensures CanonRoot(k, map[]) == CanonRoot(l, map[])
  {
    CanonNil(k, map[], 1);
    CanonNil(l, map[], 1);
    assert forall i :: 0 <= i < BRANCH_FACTOR ==> Sub(map[], 0, i) == map[];
  }

  /** The type is in the leaves. */
  lemma {:induction false} OneKind(k: Kind, l: Kind, a: Contents, b: Contents)
    requires a != map[] && CanonRoot(k, a) == CanonRoot(l, b)
    ensures k == l
  {
    hide Leaves;
    RootSound(k, a);
    var x := SomeKindLeaf(CanonRoot(k, a));
    RootKinds(k, a, x);
    RootKinds(l, b, x);
  }

  /** x is a leaf of t. */
  ghost predicate LeafIn(t: Tree, x: Tree) {
    x.Leaf? && (t == x || (t.Inner? && exists i :: 0 <= i < |t.kids| && LeafIn(t.kids[i], x)))
  }

  lemma {:induction false} SomeKindLeaf(t: Tree) returns (x: Tree)
    requires Whole(t) && Tidy(t) && !t.Nil?
    ensures LeafIn(t, x)
  {
    if t.Inner? {
      var i :| 0 <= i < |t.kids| && !t.kids[i].Nil?;
      x := SomeKindLeaf(t.kids[i]);
    } else {
      x := t;
    }
  }

  lemma {:induction false} RootKinds(kind: Kind, m: Contents, x: Tree)
    requires LeafIn(CanonRoot(kind, m), x)
    ensures x.kind == kind
  {
    var i :| 0 <= i < BRANCH_FACTOR && LeafIn(CanonKids(kind, m, 0)[i], x);
    CanonKinds(kind, Sub(m, 0, i), 1, x);
  }

  lemma {:induction false} CanonKinds(kind: Kind, u: Contents, d: nat, x: Tree)
    requires d <= MAX_DEPTH && LeafIn(Canon(kind, u, d), x)
    ensures x.kind == kind
    decreases MAX_DEPTH - d
  {
    hide Canon, Sub;
    var t := Canon(kind, u, d);
    CanonParts(kind, u, d);
    if t.Inner? {
      var i :| 0 <= i < |t.kids| && LeafIn(t.kids[i], x);
      CanonKinds(kind, Sub(u, d, i), d + 1, x);
    }
  }

  lemma {:induction false} CanonParts(kind: Kind, u: Contents, d: nat)
    requires d <= MAX_DEPTH
    ensures var t := Canon(kind, u, d); (t.Leaf? ==> t.kind == kind)
    ensures var t := Canon(kind, u, d); t.Inner? ==> d < MAX_DEPTH && |t.kids| == BRANCH_FACTOR
    ensures var t := Canon(kind, u, d); t.Inner? ==> forall i :: 0 <= i < BRANCH_FACTOR ==> t.kids[i] == Canon(kind, Sub(u, d, i), d + 1)
  {
  }

  /** A tree against itself. */
  lemma {:induction false} SelfTold(t: Tree, stops: bool)
    requires t.Inner?
    ensures Told([TreePair(t, t)], stops) == []
  {
    hide KidsTold, KidsOpen;
    var p := TreePair(t, t);
    SelfKids(p, |t.kids|);
    ToldUnfold([], p, stops);
    assert [] + [p] == [p] && [] + OpenPairs(p) == [];
    ToldNone(stops);
  }

  lemma {:induction false} SelfKids(p: TreePair, n: nat)
    requires BothInner(p) && p.our == p.other && n <= |p.our.kids|
    ensures KidsTold(p, n) == [] && KidsOpen(p, n) == []
  {
    if n > 0 { SelfKids(p, n - 1); }
  }

  /** All that a comparison tells, and how far one that stops gets. */
  lemma {:induction false} Comparing(kinds: Kinds, a: Contents, b: Contents, ps: set<bytes>)
    requires Compared(kinds, a, b, ps)
    ensures var p := RootPair(kinds, a, b);
      && multiset(Told([p], false)) == D.Differences(a, b)
      && Told([p], true) <= Told([p], false)
      && (Told([p], true) == [] <==> a == b)
      && (MapsChained(kinds.ours == kinds.theirs, a, b, 0) ==> Told([p], true) == Told([p], false))
      && (HashOf(p.our) != HashOf(p.other) ==> (Completes([p]) <==> MapsChained(kinds.ours == kinds.theirs, a, b, 0)))
      && (HashOf(p.our) != HashOf(p.other) && a == b ==> Completes([p]))
      && (a != b && kinds.ours == kinds.theirs ==> (Told([p], true) == Told([p], false) <==> MapsSpared(true, a, b, 0)))
  {
    hide CanonRoot, HashOf, Preimages, Told, Completes, PairChained, Spared, PairOk, D.Differences, CollisionFree, PairTells, Pending, MapsChained, MapsSpared;
    var p, q := RootPair(kinds, a, b), Place(a, b, 0);
    RootsEqual(kinds, a, b, ps);
    D.NoDifferences(a, b);
    FirstPart([p]);
    CompletesIffChained([p]);
    OneChained(p);
    if HashOf(p.our) == HashOf(p.other) {
      RootIsInner(kinds.ours, a);
      SelfTold(p.our, true);
      SelfTold(p.our, false);
    } else {
      ToldAll(kinds, [p], [q], ps);
      PendingNone();
      assert [] + [q] == [q];
      PendingOne([], q);
      if !Completes([p]) { HaltedTells(kinds, [p], [q], ps); }
      assert PairOk(kinds, [p][0], [q][0], ps);
      ChainedMaps(kinds, p, q, ps);
      SparedMaps(kinds, p, q, ps);
      if a == b { SameChained(kinds, p, q, ps); }
      if a != b && kinds.ours == kinds.theirs { RootSpared(kinds.ours, p, q, ps); }
    }
  }

  lemma {:induction false} RootSpared(kind: Kind, p: TreePair, q: Place, ps: set<bytes>)
    requires PairOk(Kinds(kind, kind), p, q, ps) && CollisionFree(ps)
    ensures Told([p], true) == Told([p], false) <==> Spared(p)
  {
    hide Told, Spared, PairOk, CollisionFree, PairTells;
    TellsOk(kind, p, q, ps);
    assert AllTell([p]);
    StoppedEarly([p]);
    assert [p][0] == p && [p][1..] == [];
  }

  // ---------- the same in terms of the contents ----------

  /** Both maps have entries in branch i, and different ones if the maps are of one type. */
  ghost predicate Parted(same: bool, a: Contents, b: Contents, d: nat, i: nat) {
    Sub(a, d, i) != map[] && Sub(b, d, i) != map[] && (same ==> Sub(a, d, i) != Sub(b, d, i))
  }

  /** Both have an inner node at this place. */
  ghost predicate BothSplit(a: Contents, b: Contents, d: nat) {
    d < MAX_DEPTH && (d == 0 || (|a| >= 2 && |b| >= 2))
  }

  /** Wherever both have an inner node, some branch parts them, and so again in every branch that does. */
  ghost predicate MapsChained(same: bool, a: Contents, b: Contents, d: nat)
    decreases MAX_DEPTH - d
  {
    BothSplit(a, b, d) ==>
      && (exists i :: 0 <= i < BRANCH_FACTOR && Parted(same, a, b, d, i))
      && forall i :: 0 <= i < BRANCH_FACTOR && Parted(same, a, b, d, i) ==> MapsChained(same, Sub(a, d, i), Sub(b, d, i), d + 1)
  }

  /** Branch i is the first that parts the two. */
  ghost predicate FirstParted(same: bool, a: Contents, b: Contents, d: nat, i: nat) {
    i < BRANCH_FACTOR && Parted(same, a, b, d, i) && forall j :: 0 <= j < i ==> !Parted(same, a, b, d, j)
  }

  /** All branches that part the two are chained but the first, which is spared again. */
  ghost predicate MapsSpared(same: bool, a: Contents, b: Contents, d: nat)
    decreases MAX_DEPTH - d
  {
    BothSplit(a, b, d) ==> forall i :: 0 <= i < BRANCH_FACTOR && Parted(same, a, b, d, i) ==>
      if FirstParted(same, a, b, d, i) then MapsSpared(same, Sub(a, d, i), Sub(b, d, i), d + 1)
      else MapsChained(same, Sub(a, d, i), Sub(b, d, i), d + 1)
  }

  lemma {:induction false} OpenIsParted(kinds: Kinds, p: TreePair, q: Place, i: nat, ps: set<bytes>)
    requires PairOk(kinds, p, q, ps) && BothInner(p) && i < BRANCH_FACTOR && CollisionFree(ps)
    ensures |p.our.kids| == BRANCH_FACTOR
    ensures Open(p.our.kids[i], p.other.kids[i]) <==> Parted(kinds.ours == kinds.theirs, q.ours, q.theirs, q.depth, i)
  {
    hide Represents, CollisionFree, HashOf, Sub;
    InnerKid(kinds, p, q, i, ps);
    var u, v, d := Sub(q.ours, q.depth, i), Sub(q.theirs, q.depth, i), q.depth + 1;
    var a, b := p.our.kids[i], p.other.kids[i];
    NilContents(kinds.ours, u, d, a, ps);
    NilContents(kinds.theirs, v, d, b, ps);
    if !a.Nil? && !b.Nil? && HashOf(a) == HashOf(b) {
      EqualHashes(kinds, u, v, d, a, b, ps);
      KindOf(kinds.ours, u, d, a, ps);
      KindOf(kinds.theirs, v, d, b, ps);
    }
    if u == v && kinds.ours == kinds.theirs { SameNode(kinds.ours, u, d, a, b, ps); }
  }

  lemma {:induction false} SameNode(kind: Kind, u: Contents, d: nat, a: Tree, b: Tree, ps: set<bytes>)
    requires Represents(kind, u, d, a, ps) && Represents(kind, u, d, b, ps)
    ensures a == b
  {
  }

  /** The kind of the leaves of t. */
  ghost predicate HasKind(t: Tree, kind: Kind) {
    (exists x :: LeafIn(t, x)) && forall x :: LeafIn(t, x) ==> x.kind == kind
  }

  lemma {:induction false} KindOf(kind: Kind, u: Contents, d: nat, t: Tree, ps: set<bytes>)
    requires 0 < d && Represents(kind, u, d, t, ps) && !t.Nil?
    ensures HasKind(t, kind)
  {
    hide Canon;
    CanonSound(kind, u, d);
    CanonWhole(kind, u, d);
    var x := SomeKindLeaf(t);
    forall x | LeafIn(t, x) ensures x.kind == kind {
      CanonKinds(kind, u, d, x);
    }
  }

  lemma {:induction false} SplitIsInner(kinds: Kinds, p: TreePair, q: Place, ps: set<bytes>)
    requires PairOk(kinds, p, q, ps)
    ensures BothInner(p) <==> BothSplit(q.ours, q.theirs, q.depth)
  {
    hide HashOf, Preimages;
    NodeCases(kinds.ours, q.ours, q.depth);
    NodeCases(kinds.theirs, q.theirs, q.depth);
  }

  lemma {:induction false} NodeCases(kind: Kind, u: Contents, d: nat)
    requires d <= MAX_DEPTH && Shared(u, d)
    ensures var t := NodeOf(kind, u, d); t.Inner? <==> d < MAX_DEPTH && (d == 0 || |u| >= 2)
    ensures var t := NodeOf(kind, u, d); t.Inner? ==> |t.kids| == BRANCH_FACTOR
  {
    hide Canon;
    if d > 0 {
      SharedCases(kind, u, d);
      CanonParts(kind, u, d);
    }
  }

  /** The open branches, one by one. */
  lemma {:induction false} OpenKids(p: TreePair, n: nat)
    requires BothInner(p) && n <= |p.our.kids|
    ensures KidsOpen(p, n) != [] <==> exists i :: 0 <= i < n && Open(p.our.kids[i], p.other.kids[i])
    ensures AllChained(KidsOpen(p, n)) <==> forall i :: 0 <= i < n && Open(p.our.kids[i], p.other.kids[i]) ==> PairChained(KidPair(p, i))
  {
    hide PairChained, Open;
    if n > 0 {
      var before := KidsOpen(p, n - 1);
      OpenKids(p, n - 1);
      OneChained(KidPair(p, n - 1));
      ChainedAppend(before, [KidPair(p, n - 1)]);
      if Open(p.our.kids[n - 1], p.other.kids[n - 1]) {
        assert KidsOpen(p, n) == before + [KidPair(p, n - 1)];
      } else {
        assert KidsOpen(p, n) == before;
      }
    }
  }

  /** The first of them. */
  lemma {:induction false} FirstOpen(p: TreePair, n: nat) returns (i: nat)
    requires BothInner(p) && n <= |p.our.kids| && KidsOpen(p, n) != []
    ensures i < n && Open(p.our.kids[i], p.other.kids[i]) && forall j :: 0 <= j < i ==> !Open(p.our.kids[j], p.other.kids[j])
    ensures KidsOpen(p, n)[0] == KidPair(p, i)
    ensures AllChained(KidsOpen(p, n)[1..]) <==> forall j :: i < j < n && Open(p.our.kids[j], p.other.kids[j]) ==> PairChained(KidPair(p, j))
  {
    hide PairChained, Open;
    var before := KidsOpen(p, n - 1);
    OpenKids(p, n - 1);
    if before == [] {
      i := n - 1;
    } else {
      i := FirstOpen(p, n - 1);
      if Open(p.our.kids[n - 1], p.other.kids[n - 1]) {
        assert KidsOpen(p, n)[1..] == before[1..] + [KidPair(p, n - 1)];
        OneChained(KidPair(p, n - 1));
        ChainedAppend(before[1..], [KidPair(p, n - 1)]);
      } else {
        assert KidsOpen(p, n) == before;
      }
    }
  }

  lemma {:induction false} ChainedMaps(kinds: Kinds, p: TreePair, q: Place, ps: set<bytes>)
    requires PairOk(kinds, p, q, ps) && CollisionFree(ps)
    ensures PairChained(p) <==> MapsChained(kinds.ours == kinds.theirs, q.ours, q.theirs, q.depth)
    decreases PairWork(p)
  {
    hide PairOk, Represents, CollisionFree, Open, Parted, Sub, PairWork, KidsOpen, BothSplit;
    SplitIsInner(kinds, p, q, ps);
    ChainedUnfold(p);
    if BothInner(p) {
      var same := kinds.ours == kinds.theirs;
      InnerPlace(kinds, p, q, ps);
      OpenKids(p, BRANCH_FACTOR);
      forall i | 0 <= i < BRANCH_FACTOR
        ensures Open(p.our.kids[i], p.other.kids[i]) <==> Parted(same, q.ours, q.theirs, q.depth, i)
        ensures Open(p.our.kids[i], p.other.kids[i]) ==>
          (PairChained(KidPair(p, i)) <==> MapsChained(same, Sub(q.ours, q.depth, i), Sub(q.theirs, q.depth, i), q.depth + 1))
      {
        OpenIsParted(kinds, p, q, i, ps);
        if Open(p.our.kids[i], p.other.kids[i]) {
          KidPairOk(kinds, p, q, i, ps);
          ChainedMaps(kinds, KidPair(p, i), PlaceAt(q, i), ps);
        }
      }
    } else {
      NoneOpen(p);
    }
  }

  lemma {:induction false} InnerPlace(kinds: Kinds, p: TreePair, q: Place, ps: set<bytes>)
    requires PairOk(kinds, p, q, ps) && BothInner(p)
    ensures |p.our.kids| == BRANCH_FACTOR && q.depth < MAX_DEPTH && OpenPairs(p) == KidsOpen(p, BRANCH_FACTOR)
  {
    InnerKid(kinds, p, q, 0, ps);
  }

  lemma {:induction false} KidPairOk(kinds: Kinds, p: TreePair, q: Place, i: nat, ps: set<bytes>)
    requires PairOk(kinds, p, q, ps) && BothInner(p) && i < |p.our.kids| == BRANCH_FACTOR && Open(p.our.kids[i], p.other.kids[i])
    ensures PairOk(kinds, KidPair(p, i), PlaceAt(q, i), ps) && PairWork(KidPair(p, i)) < PairWork(p)
    ensures PlaceAt(q, i) == Place(Sub(q.ours, q.depth, i), Sub(q.theirs, q.depth, i), q.depth + 1)
  {
    hide Represents, HashOf;
    InnerKid(kinds, p, q, i, ps);
    LoadedUpdate(p.our.kids, i, p.our.kids[i]);
    LoadedUpdate(p.other.kids, i, p.other.kids[i]);
  }

  lemma {:induction false} SparedMaps(kinds: Kinds, p: TreePair, q: Place, ps: set<bytes>)
    requires PairOk(kinds, p, q, ps) && CollisionFree(ps)
    ensures Spared(p) <==> MapsSpared(kinds.ours == kinds.theirs, q.ours, q.theirs, q.depth)
    decreases PairWork(p)
  {
    hide PairOk, Represents, CollisionFree, Open, Parted, Sub, PairWork, KidsOpen, BothSplit, PairChained, MapsChained;
    SplitIsInner(kinds, p, q, ps);
    if BothInner(p) {
      var same := kinds.ours == kinds.theirs;
      InnerPlace(kinds, p, q, ps);
      OpenKids(p, BRANCH_FACTOR);
      forall i | 0 <= i < BRANCH_FACTOR
        ensures Open(p.our.kids[i], p.other.kids[i]) <==> Parted(same, q.ours, q.theirs, q.depth, i)
        ensures Open(p.our.kids[i], p.other.kids[i]) ==>
          && (PairChained(KidPair(p, i)) <==> MapsChained(same, Sub(q.ours, q.depth, i), Sub(q.theirs, q.depth, i), q.depth + 1))
          && (Spared(KidPair(p, i)) <==> MapsSpared(same, Sub(q.ours, q.depth, i), Sub(q.theirs, q.depth, i), q.depth + 1))
      {
        OpenIsParted(kinds, p, q, i, ps);
        if Open(p.our.kids[i], p.other.kids[i]) {
          KidPairOk(kinds, p, q, i, ps);
          ChainedMaps(kinds, KidPair(p, i), PlaceAt(q, i), ps);
          SparedMaps(kinds, KidPair(p, i), PlaceAt(q, i), ps);
        }
      }
      if OpenPairs(p) != [] {
        var i := FirstOpen(p, BRANCH_FACTOR);
        SparedFirst(same, p, q, i);
      }
    } else {
      NoneOpen(p);
    }
  }

  lemma {:induction false} SparedFirst(same: bool, p: TreePair, q: Place, i: nat)
    requires BothInner(p) && |p.our.kids| == BRANCH_FACTOR && BothSplit(q.ours, q.theirs, q.depth) && i < BRANCH_FACTOR
    requires OpenPairs(p) != [] && OpenPairs(p)[0] == KidPair(p, i)
    requires AllChained(OpenPairs(p)[1..]) <==> forall j :: i < j < BRANCH_FACTOR && Open(p.our.kids[j], p.other.kids[j]) ==> PairChained(KidPair(p, j))
    requires Open(p.our.kids[i], p.other.kids[i]) && forall j :: 0 <= j < i ==> !Open(p.our.kids[j], p.other.kids[j])
    requires forall j :: 0 <= j < BRANCH_FACTOR ==> (Open(p.our.kids[j], p.other.kids[j]) <==> Parted(same, q.ours, q.theirs, q.depth, j))
    requires forall j :: 0 <= j < BRANCH_FACTOR && Open(p.our.kids[j], p.other.kids[j]) ==>
      && (PairChained(KidPair(p, j)) <==> MapsChained(same, Sub(q.ours, q.depth, j), Sub(q.theirs, q.depth, j), q.depth + 1))
      && (Spared(KidPair(p, j)) <==> MapsSpared(same, Sub(q.ours, q.depth, j), Sub(q.theirs, q.depth, j), q.depth + 1))
    ensures Spared(p) <==> MapsSpared(same, q.ours, q.theirs, q.depth)
  {
    hide Open, Parted, Sub, PairWork, OpenPairs, BothSplit, PairChained, MapsChained, Spared, MapsSpared, AllChained;
    SparedUnfold(p);
    SparedFrom(same, q.ours, q.theirs, q.depth, i);
  }

  lemma {:induction false} SparedUnfold(p: TreePair)
    requires OpenPairs(p) != []
    ensures Spared(p) <==> Spared(OpenPairs(p)[0]) && AllChained(OpenPairs(p)[1..])
  {
    hide PairWork, OpenPairs;
    OpenLess(p);
  }

  lemma {:induction false} SparedFrom(same: bool, a: Contents, b: Contents, d: nat, i: nat)
    requires BothSplit(a, b, d) && i < BRANCH_FACTOR && Parted(same, a, b, d, i) && forall j :: 0 <= j < i ==> !Parted(same, a, b, d, j)
    ensures MapsSpared(same, a, b, d) <==>
      && MapsSpared(same, Sub(a, d, i), Sub(b, d, i), d + 1)
      && forall j :: i < j < BRANCH_FACTOR && Parted(same, a, b, d, j) ==> MapsChained(same, Sub(a, d, j), Sub(b, d, j), d + 1)
  {
    hide Parted, Sub, BothSplit, MapsChained;
    forall j | 0 <= j < BRANCH_FACTOR && Parted(same, a, b, d, j) ensures FirstParted(same, a, b, d, j) <==> j == i {
    }
  }
}
