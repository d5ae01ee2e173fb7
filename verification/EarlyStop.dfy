/** Where a comparison stops too early: what it loses, and inputs that show it. */
module EarlyStop {
  import opened Bytes
  import opened Tree
  import opened Canonical
  import opened Merkle
  import opened KeyOrder
  import opened Telling
  import D = Differing

  /** Against an empty map the roots leave nothing for later: never complete, although nothing is lost. */
  lemma {:induction false} EmptyAgainst(same: bool, b: Contents)
    ensures !MapsChained(same, map[], b, 0) && !MapsChained(same, b, map[], 0)
    ensures MapsSpared(same, map[], b, 0) && MapsSpared(same, b, map[], 0)
  {
    assert forall i :: 0 <= i < BRANCH_FACTOR ==> Sub(map[], 0, i) == map[];
  }

  /** The highest branch that parts the two maps has inner nodes on both sides, and no branch parts those again. */
  ghost predicate LastHalts(a: Contents, b: Contents, j: nat) {
    && j < BRANCH_FACTOR && Parted(true, a, b, 0, j) && (forall i :: j < i < BRANCH_FACTOR ==> !Parted(true, a, b, 0, i))
    && BothSplit(Sub(a, 0, j), Sub(b, 0, j), 1)
    && forall i :: 0 <= i < BRANCH_FACTOR ==> !Parted(true, Sub(a, 0, j), Sub(b, 0, j), 1, i)
  }

  /** Then no difference in any other branch that parts them is ever told, limit or not. */
  lemma {:induction false} LostBehind(kind: Kind, a: Contents, b: Contents, j: nat, k: Key, ps: set<bytes>)
    requires Compared(Kinds(kind, kind), a, b, ps) && LastHalts(a, b, j)
    requires SelectBranch(k, 0) != j && Parted(true, a, b, 0, SelectBranch(k, 0)) && D.At(a, k) != D.At(b, k)
    ensures var x := D.DifferenceAt(a, b, k);
      x in D.Differences(a, b) && x !in Told([RootPair(Kinds(kind, kind), a, b)], true)
  {
    hide HashOf, Preimages, CanonRoot, CollisionFree, D.Differences, Told, PairTold, OpenPairs, OpenPlaces, Pending, PairOk, Parted, BothSplit, Sub, SelectBranch;
    var kinds, x, i := Kinds(kind, kind), D.DifferenceAt(a, b, k), SelectBranch(k, 0);
    var p, q := RootPair(kinds, a, b), Place(a, b, 0);
    D.DifferencesCount(a, b, x);
    D.NoDifferences(a, b);
    RootsEqual(kinds, a, b, ps);
    assert PairOk(kinds, [p][0], [q][0], ps);
    SplitIsInner(kinds, p, q, ps);
    RootSplit(a, b);
    InnerPlace(kinds, p, q, ps);
    PairAll(kinds, p, q, ps);
    OpenIsParted(kinds, p, q, i, ps);
    AmongPlaces(p, q, BRANCH_FACTOR, i);
    LastPair(kinds, a, b, p, q, j, ps);
    var mine, last := Place(Sub(a, 0, i), Sub(b, 0, i), 1), Place(Sub(a, 0, j), Sub(b, 0, j), 1);
    InBranch(a, b, k, i);
    InBranch(a, b, k, j);
    D.DifferencesCount(mine.ours, mine.theirs, x);
    D.DifferencesCount(last.ours, last.theirs, x);
    NotTwice(multiset(PairTold(p)), Pending(OpenPlaces(p, q)), D.Differences(mine.ours, mine.theirs), D.Differences(a, b), x);
    assert x !in multiset(PairTold(p)) && x !in multiset(PairTold(KidPair(p, j)));
  }

  lemma {:induction false} RootSplit(a: Contents, b: Contents)
    ensures BothSplit(a, b, 0)
  {
  }

  lemma {:induction false} NotTwice<T>(told: multiset<T>, pending: multiset<T>, some: multiset<T>, all: multiset<T>, x: T)
    requires told + pending == all && some <= pending && all[x] <= 1 && some[x] == 1
    ensures told[x] == 0
  {
  }

  lemma {:induction false} InBranch(a: Contents, b: Contents, k: Key, i: nat)
    requires D.At(a, k) != D.At(b, k)
    ensures D.Tells(Sub(a, 0, i), Sub(b, 0, i), D.DifferenceAt(a, b, k)) <==> SelectBranch(k, 0) == i
  {
    D.SubTells(a, b, 0, i, D.DifferenceAt(a, b, k));
  }

  /** An open branch has its place among those left for later. */
  lemma {:induction false} AmongPlaces(p: TreePair, q: Place, n: nat, i: nat)
    requires BothInner(p) && i < n <= |p.our.kids| && Open(p.our.kids[i], p.other.kids[i])
    ensures D.Differences(PlaceAt(q, i).ours, PlaceAt(q, i).theirs) <= Pending(KidsPlaces(p, q, n))
    ensures n == |p.our.kids| ==> OpenPlaces(p, q) == KidsPlaces(p, q, n)
    ensures PlaceAt(q, i) == Place(Sub(q.ours, q.depth, i), Sub(q.theirs, q.depth, i), q.depth + 1)
  {
    hide D.Differences, Open, Sub, Pending;
    var before := KidsPlaces(p, q, n - 1);
    if i < n - 1 { AmongPlaces(p, q, n - 1, i); }
    PendingOne(before, PlaceAt(q, n - 1));
    assert before + [] == before;
  }

  /** The pair taken off after the roots halts the comparison. */
  lemma {:induction false} LastPair(kinds: Kinds, a: Contents, b: Contents, p: TreePair, q: Place, j: nat, ps: set<bytes>)
    requires kinds.ours == kinds.theirs && PairOk(kinds, p, q, ps) && q == Place(a, b, 0) && CollisionFree(ps)
    requires BothInner(p) && |p.our.kids| == BRANCH_FACTOR && OpenPairs(p) == KidsOpen(p, BRANCH_FACTOR) && LastHalts(a, b, j)
    ensures Told([p], true) == PairTold(p) + PairTold(KidPair(p, j))
    ensures multiset(PairTold(KidPair(p, j))) == D.Differences(Sub(a, 0, j), Sub(b, 0, j))
  {
    hide HashOf, CollisionFree, D.Differences, Told, PairTold, Pending, PairOk, Parted, BothSplit, Sub, KidsOpen, KidsPlaces, Open;
    forall i | 0 <= i < BRANCH_FACTOR ensures Open(p.our.kids[i], p.other.kids[i]) <==> Parted(true, a, b, 0, i) {
      OpenIsParted(kinds, p, q, i, ps);
    }
    EndsWith(p, BRANCH_FACTOR, j);
    var x, r := KidPair(p, j), PlaceAt(q, j);
    KidPairOk(kinds, p, q, j, ps);
    SplitIsInner(kinds, x, r, ps);
    InnerPlace(kinds, x, r, ps);
    forall i | 0 <= i < BRANCH_FACTOR ensures !Open(x.our.kids[i], x.other.kids[i]) {
      OpenIsParted(kinds, x, r, i, ps);
    }
    OpenKids(x, BRANCH_FACTOR);
    PairAll(kinds, x, r, ps);
    PendingNone();
    assert OpenPlaces(x, r) == [];
    ToldUnfold([], p, true);
    assert [] + [p] == [p] && [] + OpenPairs(p) == OpenPairs(p);
    var rest := OpenPairs(p)[..|OpenPairs(p)| - 1];
    assert OpenPairs(p) == rest + [x];
    ToldUnfold(rest, x, true);
    assert PairTold(p) + (PairTold(x) + []) == PairTold(p) + PairTold(x);
  }

  lemma {:induction false} EndsWith(p: TreePair, n: nat, j: nat)
    requires BothInner(p) && j < n <= |p.our.kids| && Open(p.our.kids[j], p.other.kids[j])
    requires forall i :: j < i < n ==> !Open(p.our.kids[i], p.other.kids[i])
    ensures KidsOpen(p, n) != [] && KidsOpen(p, n)[|KidsOpen(p, n)| - 1] == KidPair(p, j)
  {
    hide Open;
    if j < n - 1 { EndsWith(p, n - 1, j); }
  }

  // ---------- an input ----------

  /** One entry in branch 0, and two in branch 1 that part at the next digit. */
  function OneSide(x: bytes, y: bytes): Contents {
    map[KeyWith(0x00) := x, KeyWith(0x10) := y, KeyWith(0x11) := y]
  }

  /** The same with other data in branch 0 and a third entry in branch 1. */
  function OtherSide(x: bytes, y: bytes): Contents {
    map[KeyWith(0x00) := x, KeyWith(0x10) := y, KeyWith(0x11) := y, KeyWith(0x12) := y]
  }

  /** What a branch has of three or four entries. */
  lemma {:induction false} SubOf(m: Contents, d: nat, i: nat, s: Contents)
    requires forall k :: k in m ==> (SelectBranch(k, d) == i <==> k in s)
    requires forall k :: k in s ==> k in m && s[k] == m[k]
    ensures Sub(m, d, i) == s
  {
    hide SelectBranch;
  }

  lemma {:induction false} AllDigits()
    ensures forall f: byte :: f in {0x00, 0x10, 0x11, 0x12} ==>
      SelectBranch(KeyWith(f), 0) == f / 16 && SelectBranch(KeyWith(f), 1) == f % 16 && KeyWith(f)[0] == f
    ensures KeyWith(0x10) != KeyWith(0x11) && KeyWith(0x10) != KeyWith(0x12) && KeyWith(0x11) != KeyWith(0x12)
  {
    hide SelectBranch, KeyWith;
    LeadingDigits(0x00);
    LeadingDigits(0x10);
    LeadingDigits(0x11);
    LeadingDigits(0x12);
  }

  /** The change in branch 0 is never told, whatever the limit. */
  lemma {:induction false} LostChange(kind: Kind, x: bytes, x': bytes, y: bytes, ps: set<bytes>)
    requires x != x' && Compared(Kinds(kind, kind), OneSide(x, y), OtherSide(x', y), ps)
    ensures var a, b := OneSide(x, y), OtherSide(x', y); var lost := D.DifferenceAt(a, b, KeyWith(0));
      lost in D.Differences(a, b) && forall n :: lost !in Limited(Told([RootPair(Kinds(kind, kind), a, b)], true), n)
  {
    hide Compared, Told, D.Differences, RootPair, LastHalts, Parted, SelectBranch, KeyWith;
    var a, b := OneSide(x, y), OtherSide(x', y);
    var k := KeyWith(0);
    AllDigits();
    LastOfThem(x, y, x');
    FirstOfThem(x, y, x');
    LostBehind(kind, a, b, 1, k, ps);
  }

  lemma {:induction false} FirstOfThem(x: bytes, y: bytes, x': bytes)
    requires x != x'
    ensures Parted(true, OneSide(x, y), OtherSide(x', y), 0, 0) && D.At(OneSide(x, y), KeyWith(0)) != D.At(OtherSide(x', y), KeyWith(0))
  {
    hide SelectBranch, KeyWith, Sub;
    AllDigits();
    var a, b, k := OneSide(x, y), OtherSide(x', y), KeyWith(0);
    SubAt(a, 0, 0, k);
    SubAt(b, 0, 0, k);
  }

  lemma {:induction false} LastOfThem(x: bytes, y: bytes, x': bytes)
    ensures LastHalts(OneSide(x, y), OtherSide(x', y), 1)
  {
    hide SelectBranch, KeyWith, Sub;
    var a, b := OneSide(x, y), OtherSide(x', y);
    var u: Contents, v: Contents :=
      map[KeyWith(0x10) := y, KeyWith(0x11) := y], map[KeyWith(0x10) := y, KeyWith(0x11) := y, KeyWith(0x12) := y];
    AllDigits();
    SubOf(a, 0, 1, u);
    SubOf(b, 0, 1, v);
    assert KeyWith(0x12) in v && KeyWith(0x12) !in u;
    forall i | 1 < i < BRANCH_FACTOR ensures !Parted(true, a, b, 0, i) {
      SubOf(a, 0, i, map[]);
    }
    Sizes(u, v, y);
    forall i | 0 <= i < BRANCH_FACTOR ensures !Parted(true, u, v, 1, i) {
      Third(u, v, y, i);
    }
  }

  lemma {:induction false} Sizes(u: Contents, v: Contents, y: bytes)
    requires u == map[KeyWith(0x10) := y, KeyWith(0x11) := y] && v == map[KeyWith(0x10) := y, KeyWith(0x11) := y, KeyWith(0x12) := y]
    ensures |u| == 2 && |v| == 3
  {
    hide SelectBranch, KeyWith;
    AllDigits();
    assert u.Keys == {KeyWith(0x10), KeyWith(0x11)} && v.Keys == {KeyWith(0x10), KeyWith(0x11), KeyWith(0x12)};
  }

  lemma {:induction false} Third(u: Contents, v: Contents, y: bytes, i: nat)
    requires u == map[KeyWith(0x10) := y, KeyWith(0x11) := y] && v == map[KeyWith(0x10) := y, KeyWith(0x11) := y, KeyWith(0x12) := y]
    ensures !Parted(true, u, v, 1, i)
  {
    hide SelectBranch, KeyWith, Sub;
    AllDigits();
    if i == 2 {
      SubOf(u, 1, i, map[]);
    } else {
      var s := Sub(u, 1, i);
      forall k | k in v ensures SelectBranch(k, 1) == i <==> k in s {
        SubAt(u, 1, i, k);
      }
      forall k | k in s ensures k in v && s[k] == v[k] {
        SubAt(u, 1, i, k);
      }
      SubOf(v, 1, i, s);
    }
  }
}
