/** Places in a tree by the branches that lead to them: where a node is hung in, and in what order open places are reported. */
module Routes {
  import opened Bytes
  import opened Tree
  import opened SyncTree
  import opened LevelOrder

  /** The branches to take from the root. */
  type Route = seq<nat>

  /** The subtree at the end of a route; nothing where the route leaves the tree. */
  ghost function NodeOn(t: Tree, r: Route): Tree {
    if r == [] then t else if t.Inner? && r[0] < |t.kids| then NodeOn(t.kids[r[0]], r[1..]) else Nil
  }

  /** The tree with another subtree at the end of a route. */
  ghost function Replaced(t: Tree, r: Route, x: Tree): Tree {
    if r == [] then x else if t.Inner? && r[0] < |t.kids| then Inner(t.kids[r[0] := Replaced(t.kids[r[0]], r[1..], x)]) else t
  }

  /** At the first branch where two routes part, one goes to the left of the other. */
  ghost predicate LeftOf(q: Route, r: Route) {
    exists p :: 0 <= p < |q| && p < |r| && q[..p] == r[..p] && q[p] < r[p]
  }

  /** Nodes before their children, and children from left to right. */
  ghost predicate Earlier(q: Route, r: Route) {
    (q <= r && q != r) || LeftOf(q, r)
  }

  /** Shorter routes first, and routes of one length from left to right. */
  ghost predicate Higher(q: Route, r: Route) {
    |q| < |r| || (|q| == |r| && LeftOf(q, r))
  }

  // ---------- where a node is hung in ----------

  /** Below the root and within the depth that is searched, the branch at the end of the route is in use and carries the hash. */
  ghost predicate CarriesHash(t: Tree, r: Route, h: Hash, d: nat) {
    r != [] && d + |r| <= 65 && !NodeOn(t, r).Nil? && HashOf(NodeOn(t, r)) == h
  }

  lemma {:induction false} LeftStep(q: Route, r: Route)
    requires q != [] && r != []
    ensures LeftOf(q, r) <==> q[0] < r[0] || (q[0] == r[0] && LeftOf(q[1..], r[1..]))
    ensures Earlier(q, r) <==> q[0] < r[0] || (q[0] == r[0] && Earlier(q[1..], r[1..]))
  {
    hide LeftOf;
    LeftDown(q, r);
    if q[0] < r[0] || (q[0] == r[0] && LeftOf(q[1..], r[1..])) { LeftUp(q, r); }
    assert q == [q[0]] + q[1..] && r == [r[0]] + r[1..];
    if q[0] == r[0] && q[1..] <= r[1..] { assert q <= r; }
    if q <= r { assert q[1..] <= r[1..]; }
  }

  lemma {:induction false} LeftDown(q: Route, r: Route)
    requires q != [] && r != []
    ensures LeftOf(q, r) ==> q[0] < r[0] || (q[0] == r[0] && LeftOf(q[1..], r[1..]))
  {
    if LeftOf(q, r) {
      var p :| 0 <= p < |q| && p < |r| && q[..p] == r[..p] && q[p] < r[p];
      if p > 0 {
        assert q[0] == q[..p][0] == r[..p][0] == r[0];
        assert q[1..][..p - 1] == q[..p][1..] == r[..p][1..] == r[1..][..p - 1];
        assert q[1..][p - 1] < r[1..][p - 1];
      }
    }
  }

  lemma {:induction false} LeftUp(q: Route, r: Route)
    requires q != [] && r != [] && (q[0] < r[0] || (q[0] == r[0] && LeftOf(q[1..], r[1..])))
    ensures LeftOf(q, r)
  {
    if q[0] < r[0] {
      assert q[..0] == r[..0];
    } else {
      var p :| 0 <= p < |q[1..]| && p < |r[1..]| && q[1..][..p] == r[1..][..p] && q[1..][p] < r[1..][p];
      assert q[..p + 1] == [q[0]] + q[1..][..p] && r[..p + 1] == [r[0]] + r[1..][..p];
      assert q[p + 1] < r[p + 1];
    }
  }

  /** A node is hung in at the first place in pre-order that carries its hash, and nothing else changes. */
  lemma {:induction false} FilledFirst(t: Tree, h: Hash, node: Tree, d: nat) returns (r: Route)
    requires Filled(t, h, node, d).Some?
    ensures CarriesHash(t, r, h, d) && Filled(t, h, node, d) == Some(Replaced(t, r, node))
    ensures forall q :: CarriesHash(t, q, h, d) ==> !Earlier(q, r)
    decreases t, 2, 0
  {
    hide HashOf;
    r := FirstFrom(t, 0, h, node, d);
  }

  /** And it is refused exactly if there is no such place. */
  lemma {:induction false} FilledNever(t: Tree, h: Hash, node: Tree, d: nat)
    ensures Filled(t, h, node, d).None? <==> forall q :: !CarriesHash(t, q, h, d)
    decreases t, 3, 0
  {
    hide HashOf;
    if Filled(t, h, node, d).Some? {
      var r := FilledFirst(t, h, node, d);
    } else {
      forall q | CarriesHash(t, q, h, d) ensures false {
        if t.Inner? && d <= MAX_DEPTH { NoneFrom(t, 0, h, node, d, q); }
      }
    }
  }

  lemma {:induction false} Inside(t: Tree, q: Route, h: Hash, d: nat)
    requires CarriesHash(t, q, h, d)
    ensures t.Inner? && q[0] < |t.kids| && !t.kids[q[0]].Nil? && d <= MAX_DEPTH
    ensures if |q| == 1 then HashOf(t.kids[q[0]]) == h else CarriesHash(t.kids[q[0]], q[1..], h, d + 1)
  {
    hide HashOf;
    assert NodeOn(t, q) == NodeOn(t.kids[q[0]], q[1..]);
  }

  lemma {:induction false} NoneFrom(t: Tree, i: nat, h: Hash, node: Tree, d: nat, q: Route)
    requires t.Inner? && d <= MAX_DEPTH && i <= |t.kids| && FilledFrom(t.kids, i, h, node, d).None? && CarriesHash(t, q, h, d)
    ensures q[0] < i
    decreases t, 1, |t.kids| - i
  {
    hide HashOf;
    Inside(t, q, h, d);
    if i < |t.kids| {
      NoneFrom(t, i + 1, h, node, d, q);
      if q[0] == i {
        if |q| > 1 { FilledNever(t.kids[i], h, node, d + 1); }
        assert false;
      }
    }
  }

  lemma {:induction false} FirstFrom(t: Tree, i: nat, h: Hash, node: Tree, d: nat) returns (r: Route)
    requires t.Inner? && d <= MAX_DEPTH && i <= |t.kids| && FilledFrom(t.kids, i, h, node, d).Some?
    ensures CarriesHash(t, r, h, d) && r[0] >= i && Inner(FilledFrom(t.kids, i, h, node, d).value) == Replaced(t, r, node)
    ensures forall q :: CarriesHash(t, q, h, d) && q[0] >= i ==> !Earlier(q, r)
    decreases t, 1, |t.kids| - i
  {
    hide HashOf, Earlier;
    var kid := t.kids[i];
    if !kid.Nil? && HashOf(kid) == h {
      r := [i];
      assert r[1..] == [] && NodeOn(t, r) == NodeOn(kid, []);
      FirstHere(t, i, h, d);
    } else if !kid.Nil? && Filled(kid, h, node, d + 1).Some? {
      var below := FilledFirst(kid, h, node, d + 1);
      r := [i] + below;
      assert r[1..] == below && NodeOn(t, r) == NodeOn(kid, below);
      forall q | CarriesHash(t, q, h, d) && q[0] >= i ensures !Earlier(q, r) {
        Inside(t, q, h, d);
        LeftStep(q, r);
      }
    } else {
      r := FirstFrom(t, i + 1, h, node, d);
      forall q | CarriesHash(t, q, h, d) && q[0] >= i ensures !Earlier(q, r) {
        Inside(t, q, h, d);
        if q[0] == i {
          if |q| > 1 { FilledNever(kid, h, node, d + 1); }
          assert false;
        }
      }
    }
  }

  lemma {:induction false} FirstHere(t: Tree, i: nat, h: Hash, d: nat)
    ensures forall q :: CarriesHash(t, q, h, d) && q[0] >= i ==> !Earlier(q, [i])
  {
    forall q | CarriesHash(t, q, h, d) && q[0] >= i ensures !Earlier(q, [i]) {
      LeftStep(q, [i]);
    }
  }

  // ---------- open places ----------

  /** The route ends in a branch known by hash only, and the report names it. */
  ghost predicate Points(t: Tree, r: Route, e: MissingNode) {
    OpenAt(t, r, e.hash, e.branch, e.parentHash) && e.depth == |r|
  }

  ghost predicate OpenAt(t: Tree, r: Route, h: Hash, branch: nat, parent: Hash) {
    r != [] && NodeOn(t, r) == Stub(h) && branch == r[|r| - 1] && parent == HashOf(NodeOn(t, r[..|r| - 1]))
  }

  lemma {:induction false} OnAppend(t: Tree, r: Route, i: nat)
    ensures NodeOn(t, r + [i]) == var x := NodeOn(t, r); if x.Inner? && i < |x.kids| then x.kids[i] else Nil
    decreases |r|
  {
    if r == [] {
      assert ([] + [i])[1..] == [];
    } else {
      assert (r + [i])[1..] == r[1..] + [i];
      if t.Inner? && r[0] < |t.kids| { OnAppend(t.kids[r[0]], r[1..], i); }
    }
  }

  /** An open place is one that some route ends in. */
  lemma {:induction false} SiteOfRoute(t: Tree, d: nat, r: Route, e: MissingNode)
    requires OpenAt(t, r, e.hash, e.branch, e.parentHash) && e.depth == d + |r|
    ensures e in Sites(t, d)
    decreases |r|
  {
    hide HashOf, Sites;
    var i := r[0];
    if |r| == 1 {
      assert r[1..] == [] && r[..0] == [] && NodeOn(t, r[..0]) == t;
      assert NodeOn(t, r) == NodeOn(t.kids[i], []) == t.kids[i];
      SiteIn(t, d, i, e);
    } else {
      assert r[..|r| - 1][1..] == r[1..][..|r| - 2];
      assert NodeOn(t, r[..|r| - 1]) == NodeOn(t.kids[i], r[1..][..|r| - 2]);
      SiteOfRoute(t.kids[i], d + 1, r[1..], e);
      SiteIn(t, d, i, e);
    }
  }

  lemma {:induction false} SiteIn(t: Tree, d: nat, i: nat, e: MissingNode)
    requires t.Inner? && i < |t.kids| && e in SiteAt(HashOf(t), t.kids[i], i, d)
    ensures e in Sites(t, d)
  {
    SiteInFrom(HashOf(t), t.kids, 0, i, d, e);
  }

  lemma {:induction false} SiteInFrom(parent: Hash, kids: seq<Tree>, j: nat, i: nat, d: nat, e: MissingNode)
    requires j <= i < |kids| && e in SiteAt(parent, kids[i], i, d)
    ensures e in SitesFrom(parent, kids, j, d)
    decreases i - j
  {
    if j < i { SiteInFrom(parent, kids, j + 1, i, d, e); }
  }

  // ---------- the order of the report ----------

  /** The routes to the nodes of a level, from left to right. */
  ghost predicate Routed(t: Tree, level: seq<Spot>, rs: seq<Route>, d: nat) {
    && |rs| == |level| && Ranked(rs)
    && forall k :: 0 <= k < |rs| ==> |rs[k]| == d && level[k] == Spot(NodeOn(t, rs[k]), d)
  }

  ghost predicate Ranked(rs: seq<Route>) {
    forall k, l :: 0 <= k < l < |rs| ==> LeftOf(rs[k], rs[l])
  }

  ghost predicate AllPoint(t: Tree, rs: seq<Route>, es: seq<MissingNode>) {
    |rs| == |es| && forall k :: 0 <= k < |rs| ==> Points(t, rs[k], es[k])
  }

  /** Each goes one branch on from r, at branch i or later. */
  ghost predicate Extend(rs: seq<Route>, r: Route, i: nat) {
    forall k :: 0 <= k < |rs| ==> |rs[k]| == |r| + 1 && rs[k][..|r|] == r && rs[k][|r|] >= i
  }

  lemma {:induction false} RankedFirst(r: Route, i: nat, rs: seq<Route>)
    requires Ranked(rs) && Extend(rs, r, i + 1)
    ensures Ranked([r + [i]] + rs) && Extend([r + [i]] + rs, r, i)
  {
    hide LeftOf;
    forall k | 0 <= k < |rs| ensures LeftOf(r + [i], rs[k]) {
      SiblingsLeft(r, i, rs[k]);
    }
  }

  lemma {:induction false} SiblingsLeft(r: Route, i: nat, q: Route)
    requires |q| == |r| + 1 && q[..|r|] == r && q[|r|] > i
    ensures LeftOf(r + [i], q)
  {
    var p := |r|;
    assert (r + [i])[..p] == q[..p] && (r + [i])[p] < q[p];
  }

  lemma {:induction false} DirectRoutes(t: Tree, q: Spot, r: Route, i: nat) returns (rs: seq<Route>)
    requires q == Spot(NodeOn(t, r), |r|) && q.tree.Inner? && i <= |q.tree.kids|
    ensures AllPoint(t, rs, DirectFrom(q, i)) && Ranked(rs) && Extend(rs, r, i)
    decreases |q.tree.kids| - i
  {
    hide HashOf, NodeOn, AllPoint, Ranked, Extend;
    NoRoutes(t, [], 0);
    if i == |q.tree.kids| {
      rs := [];
      NoExtend(r, i);
    } else {
      rs := DirectRoutes(t, q, r, i + 1);
      if q.tree.kids[i].Stub? {
        PointsHere(t, q, r, i);
        RankedFirst(r, i, rs);
        PointBoth(t, [r + [i]], rs, DirectAt(q, i), DirectFrom(q, i + 1));
        rs := [r + [i]] + rs;
      } else {
        assert DirectFrom(q, i) == DirectFrom(q, i + 1);
        ExtendMore(rs, r, i);
      }
    }
  }

  lemma {:induction false} BelowRoutes(t: Tree, q: Spot, r: Route, i: nat) returns (rs: seq<Route>)
    requires q == Spot(NodeOn(t, r), |r|) && q.tree.Inner? && i <= |q.tree.kids|
    ensures Routed(t, BelowFrom(q, i), rs, |r| + 1) && Extend(rs, r, i)
    decreases |q.tree.kids| - i
  {
    hide NodeOn, Ranked, Extend;
    NoRoutes(t, [], 0);
    if i == |q.tree.kids| {
      rs := [];
      NoExtend(r, i);
    } else {
      rs := BelowRoutes(t, q, r, i + 1);
      if q.tree.kids[i].Leaf? || q.tree.kids[i].Inner? {
        OnAppend(t, r, i);
        RankedFirst(r, i, rs);
        assert BelowFrom(q, i) == BelowAt(q, i) + BelowFrom(q, i + 1);
        rs := [r + [i]] + rs;
      } else {
        assert BelowFrom(q, i) == BelowFrom(q, i + 1);
        ExtendMore(rs, r, i);
      }
    }
  }

  lemma {:induction false} PointsHere(t: Tree, q: Spot, r: Route, i: nat)
    requires q == Spot(NodeOn(t, r), |r|) && q.tree.Inner? && i < |q.tree.kids| && q.tree.kids[i].Stub?
    ensures AllPoint(t, [r + [i]], DirectAt(q, i))
  {
    hide HashOf, NodeOn;
    OnAppend(t, r, i);
    assert (r + [i])[..|r|] == r;
  }

  lemma {:induction false} ExtendMore(rs: seq<Route>, r: Route, i: nat)
    requires Extend(rs, r, i + 1)
    ensures Extend(rs, r, i)
  {
  }

  /** Each goes one branch on from one of the given routes. */
  ghost predicate GoOn(ps: seq<Route>, rs: seq<Route>, d: nat) {
    forall k :: 0 <= k < |ps| ==> |ps[k]| == d + 1 && ps[k][..d] in rs
  }

  lemma {:induction false} RankedBoth(ps: seq<Route>, qs: seq<Route>, rs: seq<Route>, d: nat)
    requires rs != [] && Ranked(rs) && Ranked(ps) && Ranked(qs) && (forall k :: 0 <= k < |rs| ==> |rs[k]| == d)
    requires Extend(ps, rs[0], 0) && GoOn(qs, rs[1..], d)
    ensures Ranked(ps + qs) && GoOn(ps + qs, rs, d)
  {
    hide LeftOf;
    forall k, l | 0 <= k < |ps| && 0 <= l < |qs| ensures LeftOf(ps[k], qs[l]) {
      var j :| 0 <= j < |rs[1..]| && rs[1..][j] == qs[l][..d];
      assert rs[j + 1] == qs[l][..d];
      ParentsLeft(ps[k], qs[l], d);
    }
    forall k | 0 <= k < |ps + qs| ensures |(ps + qs)[k]| == d + 1 && (ps + qs)[k][..d] in rs {
      if k >= |ps| { assert (ps + qs)[k] == qs[k - |ps|]; }
    }
  }

  lemma {:induction false} ParentsLeft(p: Route, q: Route, d: nat)
    requires d <= |p| && d <= |q| && LeftOf(p[..d], q[..d])
    ensures LeftOf(p, q)
  {
    var i :| 0 <= i < d && p[..d][..i] == q[..d][..i] && p[..d][i] < q[..d][i];
    assert p[..i] == p[..d][..i] && q[..i] == q[..d][..i];
  }

  lemma {:induction false} RoutedRest(t: Tree, level: seq<Spot>, rs: seq<Route>, d: nat)
    requires Routed(t, level, rs, d) && level != []
    ensures |rs| == |level| && (forall k :: 0 <= k < |rs| ==> |rs[k]| == d)
    ensures Routed(t, level[1..], rs[1..], d) && level[0] == Spot(NodeOn(t, rs[0]), |rs[0]|) && |rs[0]| == d && Ranked(rs)
  {
    hide NodeOn, LeftOf;
  }

  /** The open places directly below a level, and the next level. */
  lemma {:induction false} LevelBelow(t: Tree, level: seq<Spot>, rs: seq<Route>, d: nat) returns (ps: seq<Route>, qs: seq<Route>)
    requires Routed(t, level, rs, d)
    ensures AllPoint(t, ps, DirectAll(level)) && Ranked(ps) && GoOn(ps, rs, d)
    ensures Routed(t, BelowAll(level), qs, d + 1) && GoOn(qs, rs, d)
    decreases |level|
  {
    hide NodeOn, LeftOf, HashOf, DirectFrom, BelowFrom, AllPoint, Ranked, GoOn, Extend;
    if level == [] {
      ps, qs := [], [];
      NoRoutes(t, rs, d);
    } else {
      RoutedRest(t, level, rs, d);
      var ps', qs' := LevelBelow(t, level[1..], rs[1..], d);
      NoRoutes(t, rs, d);
      NoExtend(rs[0], 0);
      var a, b := [], [];
      if level[0].tree.Inner? {
        a := DirectRoutes(t, level[0], rs[0], 0);
        b := BelowRoutes(t, level[0], rs[0], 0);
      }
      RankedBoth(a, ps', rs, d);
      RankedBoth(b, qs', rs, d);
      PointBoth(t, a, ps', DirectOf(level[0]), DirectAll(level[1..]));
      RoutedBoth(t, BelowOf(level[0]), BelowAll(level[1..]), b, qs', d + 1);
      ps, qs := a + ps', b + qs';
    }
  }

  lemma {:induction false} NoRoutes(t: Tree, rs: seq<Route>, d: nat)
    ensures AllPoint(t, [], []) && Ranked([]) && GoOn([], rs, d) && Routed(t, [], [], d + 1)
  {
  }

  lemma {:induction false} NoExtend(r: Route, i: nat)
    ensures Extend([], r, i)
  {
  }

  lemma {:induction false} PointBoth(t: Tree, ps: seq<Route>, qs: seq<Route>, es: seq<MissingNode>, fs: seq<MissingNode>)
    requires AllPoint(t, ps, es) && AllPoint(t, qs, fs)
    ensures AllPoint(t, ps + qs, es + fs)
  {
    hide Points;
  }

  lemma {:induction false} RoutedBoth(t: Tree, a: seq<Spot>, b: seq<Spot>, ps: seq<Route>, qs: seq<Route>, d: nat)
    requires Routed(t, a, ps, d) && Routed(t, b, qs, d) && Ranked(ps + qs)
    ensures Routed(t, a + b, ps + qs, d)
  {
    hide NodeOn, Ranked;
  }

  /** What a whole list of routes promises: higher places first, and each place on its own. */
  ghost predicate TopDown(rs: seq<Route>, d: nat) {
    && (forall k :: 0 <= k < |rs| ==> |rs[k]| > d)
    && forall k, l :: 0 <= k < l < |rs| ==> Higher(rs[k], rs[l])
  }

  lemma {:induction false} OrderBoth(ps: seq<Route>, qs: seq<Route>, rs: seq<Route>, d: nat)
    requires Ranked(ps) && GoOn(ps, rs, d) && TopDown(qs, d + 1)
    ensures TopDown(ps + qs, d)
  {
    hide LeftOf;
  }

  lemma {:induction false} LevelsInOrder(t: Tree, level: seq<Spot>, rs: seq<Route>, d: nat) returns (ps: seq<Route>)
    requires Routed(t, level, rs, d)
    ensures AllPoint(t, ps, Levels(level)) && TopDown(ps, d)
    decreases Size(level), |level|
  {
    hide NodeOn, LeftOf, HashOf, DirectAll, BelowAll, AllPoint, Size, Routed, Ranked, GoOn, TopDown;
    if level == [] {
      ps := [];
      NoRoutes(t, rs, d);
      NoneTopDown(d);
    } else {
      LevelShrinks(level);
      var here, next := LevelBelow(t, level, rs, d);
      var later := LevelsInOrder(t, BelowAll(level), next, d + 1);
      OrderBoth(here, later, rs, d);
      PointBoth(t, here, later, DirectAll(level), Levels(BelowAll(level)));
      ps := here + later;
    }
  }

  lemma {:induction false} NoneTopDown(d: nat)
    ensures TopDown([], d)
  {
  }

  /** Without filter and limit the report has every open place once: higher places before lower ones, and from left to right. */
  lemma {:induction false} ReportInOrder(t: Tree) returns (ps: seq<Route>)
    requires t.Inner?
    ensures AllPoint(t, ps, Levels([Spot(t, 0)])) && TopDown(ps, 0)
    ensures forall r, e :: Points(t, r, e) ==> e in Levels([Spot(t, 0)])
  {
    hide LeftOf, HashOf, Points, Levels, Sites;
    assert [Spot(t, 0)][1..] == [] && SitesOfAll([]) == multiset{};
    assert Routed(t, [Spot(t, 0)], [[]], 0);
    ps := LevelsInOrder(t, [Spot(t, 0)], [[]], 0);
    LevelsAreSites([Spot(t, 0)]);
    forall r, e | Points(t, r, e) ensures e in Levels([Spot(t, 0)]) {
      PointsOpen(t, r, e);
      SiteOfRoute(t, 0, r, e);
      assert e in multiset(Levels([Spot(t, 0)]));
    }
  }

  lemma {:induction false} PointsOpen(t: Tree, r: Route, e: MissingNode)
    requires Points(t, r, e)
    ensures OpenAt(t, r, e.hash, e.branch, e.parentHash) && e.depth == |r|
  {
  }
}
