/** The items of a tree from left to right. */
module LeafOrder {
  import opened Bytes
  import opened Tree
  import opened Canonical

  ghost function Leaves(t: Tree): seq<Item>
    decreases t, 0
  {
    match t
    case Leaf(_, item) => [item]
    case Inner(kids) => LeavesOf(kids)
    case _ => []
  }

  ghost function LeavesOf(kids: seq<Tree>): seq<Item>
    decreases kids, 1
  {
    if kids == [] then [] else Leaves(kids[0]) + LeavesOf(kids[1..])
  }

  lemma {:induction false} LeavesOfMember(kids: seq<Tree>, it: Item)
    ensures it in LeavesOf(kids) <==> exists i :: 0 <= i < |kids| && it in Leaves(kids[i])
  {
    if kids != [] {
      LeavesOfMember(kids[1..], it);
      if it in LeavesOf(kids[1..]) {
        var i :| 0 <= i < |kids[1..]| && it in Leaves(kids[1..][i]);
        assert it in Leaves(kids[i + 1]);
      }
      if i :| 0 <= i < |kids| && it in Leaves(kids[i]) {
        assert i > 0 ==> it in Leaves(kids[1..][i - 1]);
      }
    }
  }

  lemma {:induction false} LeavesOfSame(a: seq<Tree>, b: seq<Tree>)
    requires |a| == |b| && forall i :: 0 <= i < |a| ==> Leaves(a[i]) == Leaves(b[i])
    ensures LeavesOf(a) == LeavesOf(b)
  {
    if a != [] {
      LeavesOfSame(a[1..], b[1..]);
    }
  }

  lemma {:induction false} LeavesOfSplit(kids: seq<Tree>, i: nat)
    requires i <= |kids|
    ensures LeavesOf(kids) == LeavesOf(kids[..i]) + LeavesOf(kids[i..]) && LeavesOf(kids[..0]) == []
  {
    assert kids[0..] == kids && kids[..0] == [] && LeavesOf([]) == [];
    if i > 0 {
      LeavesOfSplit(kids[1..], i - 1);
      assert kids[..i][1..] == kids[1..][..i - 1] && kids[i..] == kids[1..][i - 1..];
    }
  }

  lemma {:induction false} LeavesOfAppend(kids: seq<Tree>, t: Tree)
    ensures LeavesOf(kids + [t]) == LeavesOf(kids) + Leaves(t)
  {
    if kids == [] {
      assert [t][1..] == [];
    } else {
      assert (kids + [t])[1..] == kids[1..] + [t];
      LeavesOfAppend(kids[1..], t);
    }
  }

  /** All keys of u agree below depth d. */
  ghost predicate Shared(u: Contents, d: nat) {
    forall a, b :: a in u && b in u ==> SamePrefix(a, b, d)
  }

  lemma {:induction false} SharedStep(u: Contents, d: nat, b: int)
    requires Shared(u, d)
    ensures Shared(Sub(u, d, b), d + 1)
  {
  }

  lemma {:induction false} SharedCases(kind: Kind, u: Contents, d: nat)
    requires d <= MAX_DEPTH && Shared(u, d)
    ensures var t := Canon(kind, u, d);
      && !t.Stub? && (t.Nil? <==> u == map[])
      && (t.Leaf? <==> |u| == 1)
      && (t.Leaf? ==> t.kind == kind && u == map[t.item.key := t.item.data])
      && (t.Inner? ==> d < MAX_DEPTH && t == Inner(CanonKids(kind, u, d)))
  {
    if u != map[] {
      var k :| k in u;
      assert Under(u, k, d) == u;
      CanonCases(kind, u, k, d);
      var t := Canon(kind, u, d);
      if t.Leaf? {
        assert u.Keys == {t.item.key};
      }
    }
  }

  /** The leaves of the canonical tree are the entries of the map. */
  lemma {:induction false} CanonLeaves(kind: Kind, u: Contents, d: nat, it: Item)
    requires d <= MAX_DEPTH && Shared(u, d)
    ensures it in Leaves(Canon(kind, u, d)) <==> it.key in u && u[it.key] == it.data
    decreases MAX_DEPTH - d, 1
  {
    SharedCases(kind, u, d);
    if Canon(kind, u, d).Inner? {
      KidsLeaves(kind, u, d, it);
    }
  }

  lemma {:induction false} KidsLeaves(kind: Kind, u: Contents, d: nat, it: Item)
    requires d < MAX_DEPTH && Shared(u, d)
    ensures it in LeavesOf(CanonKids(kind, u, d)) <==> it.key in u && u[it.key] == it.data
    decreases MAX_DEPTH - d, 0
  {
    hide Canon, Leaves, LeavesOf;
    var kids := CanonKids(kind, u, d);
    LeavesOfMember(kids, it);
    forall i | 0 <= i < BRANCH_FACTOR
      ensures it in Leaves(kids[i]) <==> it.key in Sub(u, d, i) && u[it.key] == it.data
    {
      SharedStep(u, d, i);
      CanonLeaves(kind, Sub(u, d, i), d + 1, it);
    }
    if it.key in u && u[it.key] == it.data {
      assert it in Leaves(kids[SelectBranch(it.key, d)]);
    }
  }

  lemma {:induction false} RootLeaves(kind: Kind, m: Contents, it: Item)
    ensures it in Leaves(CanonRoot(kind, m)) <==> it.key in m && m[it.key] == it.data
  {
    KidsLeaves(kind, m, 0, it);
  }

  /** A map is determined by the leaves of its tree. */
  lemma {:induction false} LeavesDetermine(kind: Kind, a: Contents, b: Contents)
    requires Leaves(CanonRoot(kind, a)) == Leaves(CanonRoot(kind, b))
    ensures a == b
  {
    forall k | k in a ensures k in b && b[k] == a[k] {
      RootLeaves(kind, a, Item(k, a[k]));
      RootLeaves(kind, b, Item(k, a[k]));
    }
    forall k | k in b ensures k in a {
      RootLeaves(kind, a, Item(k, b[k]));
      RootLeaves(kind, b, Item(k, b[k]));
    }
  }
}
