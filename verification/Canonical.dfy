/** The reference: the one tree that stands for a finite map. */
module Canonical {
  import opened Bytes
  import opened Tree

  type Contents = map<Key, bytes>

  /** The entries whose key takes branch b at depth d. */
  ghost function Sub(m: Contents, d: nat, b: int): Contents {
    m - set k | k in m && SelectBranch(k, d) != b
  }

  /** The entries that share the first d branches of key. */
  ghost function Under(m: Contents, key: Key, d: nat): Contents {
    m - set k | k in m && !SamePrefix(k, key, d)
  }

  lemma {:induction false} SubAt(m: Contents, d: nat, b: int, k: Key)
    ensures k in Sub(m, d, b) <==> k in m && SelectBranch(k, d) == b
    ensures k in Sub(m, d, b) ==> Sub(m, d, b)[k] == m[k]
  {
  }

  lemma {:induction false} UnderAt(m: Contents, key: Key, d: nat, k: Key)
    ensures k in Under(m, key, d) <==> k in m && SamePrefix(k, key, d)
    ensures k in Under(m, key, d) ==> Under(m, key, d)[k] == m[k]
  {
  }

  /** The tree of the entries of m below a node at depth d > 0. */
  ghost function Canon(kind: Kind, m: Contents, d: nat): Tree
    requires d <= MAX_DEPTH
    decreases MAX_DEPTH - d, 0
  {
    if m == map[] then Nil
    else if |m| == 1 || d == MAX_DEPTH then
      var k :| k in m;
      Leaf(kind, Item(k, m[k]))
    else Inner(CanonKids(kind, m, d))
  }

  ghost function CanonKids(kind: Kind, m: Contents, d: nat): (kids: seq<Tree>)
    requires d < MAX_DEPTH
    ensures |kids| == BRANCH_FACTOR
    ensures forall i :: 0 <= i < BRANCH_FACTOR ==> kids[i] == Canon(kind, Sub(m, d, i), d + 1)
    decreases MAX_DEPTH - d - 1, 1
  {
    seq(BRANCH_FACTOR, i requires 0 <= i < BRANCH_FACTOR => Canon(kind, Sub(m, d, i), d + 1))
  }

  /** The root is an inner node whatever the map holds. */
  ghost function CanonRoot(kind: Kind, m: Contents): Tree {
    Inner(CanonKids(kind, m, 0))
  }

  // ---------- small facts ----------

  lemma {:induction false} SingleIs(m: Contents, k: Key)
    requires |m| == 1 && k in m
    ensures m == map[k := m[k]]
  {
    assert m.Keys == {k} by {
      assert |m.Keys - {k}| == 0;
    }
  }

  lemma {:induction false} CanonLeaf(kind: Kind, k: Key, v: bytes, d: nat)
    requires d <= MAX_DEPTH
    ensures Canon(kind, map[k := v], d) == Leaf(kind, Item(k, v))
  {
    var m: Contents := map[k := v];
    assert m.Keys == {k};
    assert forall x :: x in m ==> x == k;
  }

  lemma {:induction false} CanonNil(kind: Kind, u: Contents, d: nat)
    requires d <= MAX_DEPTH
    ensures Canon(kind, u, d).Nil? <==> u == map[]
  {
  }

  lemma {:induction false} UnderRoot(m: Contents, key: Key)
    ensures Under(m, key, 0) == m
  {
  }

  lemma {:induction false} UnderStep(m: Contents, key: Key, d: nat)
    ensures Sub(Under(m, key, d), d, SelectBranch(key, d)) == Under(m, key, d + 1)
  {
  }

  /** At full depth at most the key itself is left. */
  lemma {:induction false} UnderFull(m: Contents, key: Key)
    ensures Under(m, key, MAX_DEPTH) == if key in m then map[key := m[key]] else map[]
  {
    forall k | k in Under(m, key, MAX_DEPTH) ensures k == key {
      FullPrefixIsKey(k, key);
    }
  }

  /** What the tree at depth d on the way to key tells about the entries below it. */
  lemma {:induction false} CanonCases(kind: Kind, m: Contents, key: Key, d: nat)
    requires d <= MAX_DEPTH
    ensures var u := Under(m, key, d); var t := Canon(kind, u, d);
      && (t.Nil? <==> u == map[])
      && (t.Leaf? ==> t.kind == kind && u == map[t.item.key := t.item.data])
      && (t.Inner? ==> d < MAX_DEPTH && |u| >= 2 && t == Inner(CanonKids(kind, u, d)))
      && !t.Stub?
  {
    var u := Under(m, key, d);
    var t := Canon(kind, u, d);
    if d == MAX_DEPTH {
      UnderFull(m, key);
      if key in m {
        CanonLeaf(kind, key, m[key], d);
      }
    } else if |u| == 1 {
      SingleIs(u, t.item.key);
    }
  }

  // ---------- insertion ----------

  lemma {:induction false} SubPut(m: Contents, k: Key, v: bytes, d: nat, b: int)
    ensures Sub(m[k := v], d, b) == if SelectBranch(k, d) == b then Sub(m, d, b)[k := v] else Sub(m, d, b)
  {
  }

  lemma {:induction false} UnderPut(m: Contents, k: Key, v: bytes, d: nat)
    ensures Under(m[k := v], k, d) == Under(m, k, d)[k := v]
  {
  }

  /** Insertion changes one child: the one on the key's path. */
  lemma {:induction false} KidsPut(kind: Kind, m: Contents, k: Key, v: bytes, d: nat)
    requires d < MAX_DEPTH
    ensures var u, u' := Under(m, k, d), Under(m[k := v], k, d);
      CanonKids(kind, u', d) == CanonKids(kind, u, d)[SelectBranch(k, d) := Canon(kind, Under(m[k := v], k, d + 1), d + 1)]
  {
    var u, u' := Under(m, k, d), Under(m[k := v], k, d);
    UnderPut(m, k, v, d);
    UnderStep(m[k := v], k, d);
    forall i | 0 <= i < BRANCH_FACTOR
      ensures i != SelectBranch(k, d) ==> CanonKids(kind, u', d)[i] == CanonKids(kind, u, d)[i]
    {
      SubPut(u, k, v, d, i);
    }
  }

  /** Insertion into the path keeps every inner node on it an inner node. */
  lemma {:induction false} PutKeepsInner(kind: Kind, m: Contents, k: Key, v: bytes, d: nat)
    requires d < MAX_DEPTH && |Under(m, k, d)| >= 2
    ensures Canon(kind, Under(m[k := v], k, d), d) == Inner(CanonKids(kind, Under(m[k := v], k, d), d))
  {
    UnderPut(m, k, v, d);
    var u := Under(m, k, d);
    assert |u[k := v]| >= 2 by {
      if k in u {
        assert u[k := v].Keys == u.Keys;
      } else {
        assert u[k := v].Keys == u.Keys + {k};
      }
    }
  }

  function Pair(a: Item, b: Item): Contents {
    map[a.key := a.data, b.key := b.data]
  }

  lemma {:induction false} PairSize(a: Item, b: Item)
    requires a.key != b.key
    ensures |Pair(a, b)| == 2
  {
  }

  /** Two keys that part at depth d give a node with two leaves. */
  lemma {:induction false} PairParts(kind: Kind, a: Item, b: Item, d: nat)
    requires d < MAX_DEPTH && SelectBranch(a.key, d) != SelectBranch(b.key, d)
    ensures Canon(kind, Pair(a, b), d) ==
            Inner(NoKids()[SelectBranch(a.key, d) := Leaf(kind, a)][SelectBranch(b.key, d) := Leaf(kind, b)])
  {
    hide Canon, Sub, SelectBranch;
    var kids := CanonKids(kind, Pair(a, b), d);
    PairInner(kind, a, b, d);
    forall i | 0 <= i < BRANCH_FACTOR
      ensures kids[i] == if i == SelectBranch(a.key, d) then Leaf(kind, a)
                         else if i == SelectBranch(b.key, d) then Leaf(kind, b) else Nil
    {
      PairSub(a, b, d, i);
      CanonLeaf(kind, a.key, a.data, d + 1);
      CanonLeaf(kind, b.key, b.data, d + 1);
      CanonNil(kind, map[], d + 1);
    }
  }

  lemma {:induction false} PairInner(kind: Kind, a: Item, b: Item, d: nat)
    requires d < MAX_DEPTH && a.key != b.key
    ensures Canon(kind, Pair(a, b), d) == Inner(CanonKids(kind, Pair(a, b), d))
  {
    PairSize(a, b);
  }

  lemma {:induction false} PairSub(a: Item, b: Item, d: nat, i: int)
    requires SelectBranch(a.key, d) != SelectBranch(b.key, d)
    ensures Sub(Pair(a, b), d, i) ==
      if i == SelectBranch(a.key, d) then map[a.key := a.data] else if i == SelectBranch(b.key, d) then map[b.key := b.data] else map[]
  {
    hide SelectBranch;
  }

  /** Two keys that agree at depth d give a node with one child. */
  lemma {:induction false} PairAgrees(kind: Kind, a: Item, b: Item, d: nat)
    requires d < MAX_DEPTH && a.key != b.key && SelectBranch(a.key, d) == SelectBranch(b.key, d)
    ensures Canon(kind, Pair(a, b), d) == Inner(NoKids()[SelectBranch(a.key, d) := Canon(kind, Pair(a, b), d + 1)])
  {
    PairSize(a, b);
    var pair, kids := Pair(a, b), CanonKids(kind, Pair(a, b), d);
    forall i | 0 <= i < BRANCH_FACTOR
      ensures kids[i] == if i == SelectBranch(a.key, d) then Canon(kind, pair, d + 1) else Nil
    {
      assert Sub(pair, d, i) == if i == SelectBranch(a.key, d) then pair else map[];
    }
  }

  // ---------- removal ----------

  lemma {:induction false} SubDelete(m: Contents, k: Key, d: nat, b: int)
    ensures Sub(m - {k}, d, b) == if SelectBranch(k, d) == b then Sub(m, d, b) - {k} else Sub(m, d, b)
  {
  }

  lemma {:induction false} UnderDelete(m: Contents, k: Key, d: nat)
    ensures Under(m - {k}, k, d) == Under(m, k, d) - {k}
  {
  }

  lemma {:induction false} KidsDelete(kind: Kind, m: Contents, k: Key, d: nat)
    requires d < MAX_DEPTH
    ensures var u, u' := Under(m, k, d), Under(m - {k}, k, d);
      CanonKids(kind, u', d) == CanonKids(kind, u, d)[SelectBranch(k, d) := Canon(kind, Under(m - {k}, k, d + 1), d + 1)]
  {
    var u, u' := Under(m, k, d), Under(m - {k}, k, d);
    UnderDelete(m, k, d);
    UnderStep(m - {k}, k, d);
    forall i | 0 <= i < BRANCH_FACTOR
      ensures i != SelectBranch(k, d) ==> CanonKids(kind, u', d)[i] == CanonKids(kind, u, d)[i]
    {
      SubDelete(u, k, d, i);
    }
  }

  lemma {:induction false} CanonWhole(kind: Kind, m: Contents, d: nat)
    requires d <= MAX_DEPTH
    ensures Whole(Canon(kind, m, d))
    decreases MAX_DEPTH - d, 1
  {
    if d < MAX_DEPTH {
      KidsWhole(kind, m, d);
    }
  }

  lemma {:induction false} KidsWhole(kind: Kind, m: Contents, d: nat)
    requires d < MAX_DEPTH
    ensures Whole(Inner(CanonKids(kind, m, d)))
    decreases MAX_DEPTH - d, 0
  {
    hide Canon, Sub;
    var kids := CanonKids(kind, m, d);
    forall i | 0 <= i < BRANCH_FACTOR ensures Whole(kids[i]) {
      CanonWhole(kind, Sub(m, d, i), d + 1);
    }
  }
}
