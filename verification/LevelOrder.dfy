/** The open places of a tree level by level, each level from left to right. */
module LevelOrder {
  import opened Bytes
  import opened Tree
  import opened SyncTree

  /** A loaded node and its depth. */
  datatype Spot = Spot(tree: Tree, depth: nat)

  /** The open place at branch i, if there is one. */
  ghost function DirectAt(q: Spot, i: nat): seq<MissingNode>
    requires q.tree.Inner? && i < |q.tree.kids|
  {
    if q.tree.kids[i].Stub? then [MissingNode(q.tree.kids[i].h, q.depth + 1, HashOf(q.tree), i)] else []
  }

  /** The loaded node at branch i, if there is one. */
  ghost function BelowAt(q: Spot, i: nat): seq<Spot>
    requires q.tree.Inner? && i < |q.tree.kids|
  {
    if q.tree.kids[i].Leaf? || q.tree.kids[i].Inner? then [Spot(q.tree.kids[i], q.depth + 1)] else []
  }

  /** The open places directly below a node, from branch i on. */
  ghost function DirectFrom(q: Spot, i: nat): seq<MissingNode>
    requires q.tree.Inner? && i <= |q.tree.kids|
    decreases |q.tree.kids| - i
  {
    if i == |q.tree.kids| then [] else DirectAt(q, i) + DirectFrom(q, i + 1)
  }

  /** The loaded nodes directly below it. */
  ghost function BelowFrom(q: Spot, i: nat): seq<Spot>
    requires q.tree.Inner? && i <= |q.tree.kids|
    decreases |q.tree.kids| - i
  {
    if i == |q.tree.kids| then [] else BelowAt(q, i) + BelowFrom(q, i + 1)
  }

  ghost function DirectOf(q: Spot): seq<MissingNode> {
    if q.tree.Inner? then DirectFrom(q, 0) else []
  }

  ghost function BelowOf(q: Spot): seq<Spot> {
    if q.tree.Inner? then BelowFrom(q, 0) else []
  }

  ghost function DirectAll(level: seq<Spot>): seq<MissingNode> {
    if level == [] then [] else DirectOf(level[0]) + DirectAll(level[1..])
  }

  ghost function BelowAll(level: seq<Spot>): seq<Spot> {
    if level == [] then [] else BelowOf(level[0]) + BelowAll(level[1..])
  }

  ghost function Size(level: seq<Spot>): nat {
    if level == [] then 0 else Loaded(level[0].tree) + Size(level[1..])
  }

  /** One level and then the levels below it. */
  ghost function Levels(level: seq<Spot>): seq<MissingNode>
    decreases Size(level), |level|
  {
    if level == [] then [] else
      LevelShrinks(level);
      DirectAll(level) + Levels(BelowAll(level))
  }

  lemma {:induction false} SizeAppend(a: seq<Spot>, b: seq<Spot>)
    ensures Size(a + b) == Size(a) + Size(b)
  {
    if a == [] {
      assert a + b == b;
    } else {
      assert (a + b)[1..] == a[1..] + b;
      SizeAppend(a[1..], b);
    }
  }

  lemma {:induction false} BelowSize(q: Spot, i: nat)
    requires q.tree.Inner? && i <= |q.tree.kids|
    ensures Size(BelowFrom(q, i)) == LoadedOf(q.tree.kids[i..])
    decreases |q.tree.kids| - i
  {
    var kids := q.tree.kids;
    if i < |kids| {
      BelowSize(q, i + 1);
      assert kids[i..][1..] == kids[i + 1..];
      if kids[i].Leaf? || kids[i].Inner? {
        var one := Spot(kids[i], q.depth + 1);
        assert BelowFrom(q, i) == [one] + BelowFrom(q, i + 1);
        assert ([one] + BelowFrom(q, i + 1))[1..] == BelowFrom(q, i + 1);
      } else {
        assert BelowFrom(q, i) == BelowFrom(q, i + 1);
      }
    }
  }

  lemma {:induction false} BelowOfSize(q: Spot)
    ensures Size(BelowOf(q)) <= Loaded(q.tree) && (Loaded(q.tree) > 0 ==> Size(BelowOf(q)) < Loaded(q.tree))
    ensures Loaded(q.tree) == 0 ==> BelowOf(q) == []
  {
    if q.tree.Inner? {
      BelowSize(q, 0);
      assert q.tree.kids[0..] == q.tree.kids;
    }
  }

  lemma {:induction false} LevelShrinks(level: seq<Spot>)
    requires level != []
    ensures Size(BelowAll(level)) < Size(level) || (Size(BelowAll(level)) == Size(level) == 0 && BelowAll(level) == [])
  {
    BelowOfSize(level[0]);
    SizeAppend(BelowOf(level[0]), BelowAll(level[1..]));
    if |level| > 1 {
      LevelShrinks(level[1..]);
    }
  }

  // ---------- a level half done ----------

  /** With part of a level done: its rest, then the next level, of which the nodes in next are already known. */
  ghost function Coming(level: seq<Spot>, next: seq<Spot>): seq<MissingNode> {
    DirectAll(level) + Levels(next + BelowAll(level))
  }

  lemma {:induction false} ComingStep(level: seq<Spot>, next: seq<Spot>)
    requires level != []
    ensures Coming(level, next) == DirectOf(level[0]) + Coming(level[1..], next + BelowOf(level[0]))
  {
    hide Levels, DirectOf, BelowOf;
    assert next + (BelowOf(level[0]) + BelowAll(level[1..])) == next + BelowOf(level[0]) + BelowAll(level[1..]);
    var later := Levels(next + BelowOf(level[0]) + BelowAll(level[1..]));
    assert DirectOf(level[0]) + DirectAll(level[1..]) + later == DirectOf(level[0]) + (DirectAll(level[1..]) + later);
  }

  lemma {:induction false} ComingTurn(next: seq<Spot>)
    ensures Coming([], next) == Coming(next, []) == Levels(next)
  {
    assert next + BelowAll([]) == next && [] + BelowAll(next) == BelowAll(next);
    assert DirectAll([]) + Levels(next) == Levels(next);
    if next == [] { assert DirectAll(next) + Levels(BelowAll(next)) == []; }
  }

  // ---------- filter and limit ----------

  function Filtered(xs: seq<MissingNode>, fetch: Hash -> bool): seq<MissingNode> {
    if xs == [] then [] else (if fetch(xs[0].hash) then [xs[0]] else []) + Filtered(xs[1..], fetch)
  }

  lemma {:induction false} Regroup(a: seq<MissingNode>, b: seq<MissingNode>, c: seq<MissingNode>)
    ensures a + (b + c) == a + b + c
  {
  }

  lemma {:induction false} FilteredAppend(a: seq<MissingNode>, b: seq<MissingNode>, fetch: Hash -> bool)
    ensures Filtered(a + b, fetch) == Filtered(a, fetch) + Filtered(b, fetch)
  {
    if a == [] {
      assert a + b == b;
    } else {
      var first := if fetch(a[0].hash) then [a[0]] else [];
      var rest, more := Filtered(a[1..], fetch), Filtered(b, fetch);
      FilteredAppend(a[1..], b, fetch);
      assert (a + b)[1..] == a[1..] + b;
      Regroup(first, rest, more);
    }
  }

  lemma {:induction false} FilteredAll(xs: seq<MissingNode>, fetch: Hash -> bool)
    requires forall h :: fetch(h)
    ensures Filtered(xs, fetch) == xs
  {
    if xs != [] { FilteredAll(xs[1..], fetch); }
  }

  lemma {:induction false} FilteredBag(xs: seq<MissingNode>, fetch: Hash -> bool)
    ensures multiset(Filtered(xs, fetch)) <= multiset(xs)
    ensures forall x :: multiset(Filtered(xs, fetch))[x] == if fetch(x.hash) then multiset(xs)[x] else 0
  {
    hide Filtered;
    forall x ensures multiset(Filtered(xs, fetch))[x] == if fetch(x.hash) then multiset(xs)[x] else 0 {
      FilteredCount(xs, fetch, x);
    }
  }

  lemma {:induction false} FilteredCount(xs: seq<MissingNode>, fetch: Hash -> bool, x: MissingNode)
    ensures multiset(Filtered(xs, fetch))[x] == if fetch(x.hash) then multiset(xs)[x] else 0
  {
    if xs != [] {
      FilteredCount(xs[1..], fetch, x);
      assert xs == [xs[0]] + xs[1..];
      CountBoth([xs[0]], xs[1..], x);
      CountBoth(if fetch(xs[0].hash) then [xs[0]] else [], Filtered(xs[1..], fetch), x);
    }
  }

  lemma {:induction false} CountBoth(a: seq<MissingNode>, b: seq<MissingNode>, x: MissingNode)
    ensures multiset(a + b)[x] == multiset(a)[x] + multiset(b)[x]
  {
  }

  /** What is reported of the open places of a tree. */
  ghost function Report(t: Tree, fetch: Hash -> bool, n: int): seq<MissingNode> {
    Limited(Filtered(Levels([Spot(t, 0)]), fetch), n)
  }

  // ---------- all open places are there ----------

  ghost function SitesOfAll(level: seq<Spot>): multiset<MissingNode> {
    if level == [] then multiset{} else Sites(level[0].tree, level[0].depth) + SitesOfAll(level[1..])
  }

  lemma {:induction false} SitesAppend(a: seq<Spot>, b: seq<Spot>)
    ensures SitesOfAll(a + b) == SitesOfAll(a) + SitesOfAll(b)
  {
    if a == [] {
      assert a + b == b;
    } else {
      assert (a + b)[1..] == a[1..] + b;
      SitesAppend(a[1..], b);
    }
  }

  lemma {:induction false} SiteSplit(q: Spot, i: nat)
    requires q.tree.Inner? && i < |q.tree.kids|
    ensures SiteAt(HashOf(q.tree), q.tree.kids[i], i, q.depth) == multiset(DirectAt(q, i)) + SitesOfAll(BelowAt(q, i))
  {
    hide HashOf;
    var kid, below := q.tree.kids[i], BelowAt(q, i);
    assert SitesOfAll([]) == multiset{};
    if kid.Leaf? || kid.Inner? {
      assert below[1..] == [];
      assert SitesOfAll(below) == Sites(kid, q.depth + 1) + multiset{};
    }
  }

  lemma {:induction false} SitesSplit(q: Spot, i: nat)
    requires q.tree.Inner? && i <= |q.tree.kids|
    ensures SitesFrom(HashOf(q.tree), q.tree.kids, i, q.depth) == multiset(DirectFrom(q, i)) + SitesOfAll(BelowFrom(q, i))
    decreases |q.tree.kids| - i
  {
    hide HashOf, SiteAt, DirectAt, BelowAt, SitesOfAll;
    if i < |q.tree.kids| {
      SitesSplit(q, i + 1);
      SiteSplit(q, i);
      SitesAppend(BelowAt(q, i), BelowFrom(q, i + 1));
      assert multiset(DirectFrom(q, i)) == multiset(DirectAt(q, i)) + multiset(DirectFrom(q, i + 1));
    } else {
      NoSites();
    }
  }

  lemma {:induction false} NoSites()
    ensures SitesOfAll([]) == multiset{}
  {
  }

  lemma {:induction false} SitesOfLevel(level: seq<Spot>)
    ensures SitesOfAll(level) == multiset(DirectAll(level)) + SitesOfAll(BelowAll(level))
  {
    hide HashOf;
    if level != [] {
      var q := level[0];
      SitesOfLevel(level[1..]);
      SitesAppend(BelowOf(q), BelowAll(level[1..]));
      if q.tree.Inner? { SitesSplit(q, 0); }
    }
  }

  /** Level order lists every open place, as often as it occurs. */
  lemma {:induction false} LevelsAreSites(level: seq<Spot>)
    ensures multiset(Levels(level)) == SitesOfAll(level)
    decreases Size(level), |level|
  {
    if level != [] {
      LevelShrinks(level);
      LevelsAreSites(BelowAll(level));
      SitesOfLevel(level);
    }
  }

  /** What a report says: open places that the filter lets through; all of them unless the limit is met; none only if there are none. */
  lemma {:induction false} Reported(t: Tree, fetch: Hash -> bool, n: int)
    ensures var r := Report(t, fetch, n);
      && multiset(r) <= Sites(t, 0) && (forall i :: 0 <= i < |r| ==> fetch(r[i].hash))
      && (n > 0 ==> |r| <= n)
      && (n <= 0 || |r| < n ==> forall x :: multiset(r)[x] == if fetch(x.hash) then Sites(t, 0)[x] else 0)
  {
    hide Levels, Sites, Filtered;
    OneLevel(t);
    LimitedBag(Levels([Spot(t, 0)]), fetch, n);
  }

  lemma {:induction false} LimitedBag(all: seq<MissingNode>, fetch: Hash -> bool, n: int)
    ensures var r := Limited(Filtered(all, fetch), n);
      && multiset(r) <= multiset(all) && (forall i :: 0 <= i < |r| ==> fetch(r[i].hash))
      && (n > 0 ==> |r| <= n)
      && (n <= 0 || |r| < n ==> forall x :: multiset(r)[x] == if fetch(x.hash) then multiset(all)[x] else 0)
  {
    hide Filtered;
    var some := Filtered(all, fetch);
    var r := Limited(some, n);
    FilteredBag(all, fetch);
    assert some == r + some[|r|..];
    forall i | 0 <= i < |r| ensures fetch(r[i].hash) {
      assert r[i] in multiset(some);
    }
  }

  lemma {:induction false} OneLevel(t: Tree)
    ensures multiset(Levels([Spot(t, 0)])) == Sites(t, 0)
  {
    hide Levels, Sites;
    LevelsAreSites([Spot(t, 0)]);
    assert [Spot(t, 0)][1..] == [] && SitesOfAll([]) == multiset{};
  }

  /** Without a filter. */
  lemma {:induction false} ReportedAll(t: Tree, fetch: Hash -> bool, n: int)
    requires !t.Stub? && forall h :: fetch(h)
    ensures var r := Report(t, fetch, n);
      && (n <= 0 || |r| < n ==> multiset(r) == Sites(t, 0))
      && (r == [] <==> Whole(t))
  {
    hide Levels, Sites;
    var all := Levels([Spot(t, 0)]);
    OneLevel(t);
    FilteredAll(all, fetch);
    SitesNone(t, 0);
    if all != [] { assert all[0] in multiset(all); }
  }
}
