/** The order of keys, and the order of the items in a tree. */
module KeyOrder {
  import opened Bytes
  import opened Tree
  import opened Canonical
  import opened LeafOrder

  /** Byte by byte, the first difference decides. */
  predicate KeyLess(a: Key, b: Key) {
    exists p :: 0 <= p < 32 && a[..p] == b[..p] && a[p] < b[p]
  }

  lemma {:induction false} LessTrans(a: Key, b: Key, c: Key)
    requires KeyLess(a, b) && KeyLess(b, c)
    ensures KeyLess(a, c)
  {
    var p :| 0 <= p < 32 && a[..p] == b[..p] && a[p] < b[p];
    var q :| 0 <= q < 32 && b[..q] == c[..q] && b[q] < c[q];
    var r := if p < q then p else q;
    forall i | 0 <= i < r ensures a[i] == c[i] {
      assert a[i] == a[..p][i] && b[i] == b[..p][i];
      assert b[i] == b[..q][i] && c[i] == c[..q][i];
    }
    assert a[..r] == c[..r];
    if p < q {
      assert b[p] == b[..q][p] == c[..q][p] == c[p];
    } else if q < p {
      assert a[q] == a[..p][q] == b[..p][q] == b[q];
    }
  }

  lemma {:induction false} LessAsym(a: Key, b: Key)
    requires KeyLess(a, b)
    ensures !KeyLess(b, a) && a != b
  {
  }

  lemma {:induction false} LessTotal(a: Key, b: Key)
    ensures a == b || KeyLess(a, b) || KeyLess(b, a)
  {
    var p := 0;
    while p < 32 && a[p] == b[p]
      invariant p <= 32 && a[..p] == b[..p]
    {
      assert a[..p + 1] == a[..p] + [a[p]] && b[..p + 1] == b[..p] + [b[p]];
      p := p + 1;
    }
    if p == 32 {
      assert a[..32] == a && b[..32] == b;
    }
  }

  /** The order of keys is a strict total order. */
  lemma {:induction false} StrictOrder(a: Key, b: Key, c: Key)
    ensures !KeyLess(a, a)
    ensures a != b ==> (KeyLess(a, b) <==> !KeyLess(b, a))
    ensures KeyLess(a, b) && KeyLess(b, c) ==> KeyLess(a, c)
  {
    LessTotal(a, b);
    if KeyLess(a, b) { LessAsym(a, b); }
    if KeyLess(b, a) { LessAsym(b, a); }
    if KeyLess(a, b) && KeyLess(b, c) { LessTrans(a, b, c); }
  }

  /** At the first branch where two keys part, the lower branch holds the smaller key. */
  lemma {:induction false} BranchLess(a: Key, b: Key, d: nat)
    requires d < MAX_DEPTH && SamePrefix(a, b, d) && SelectBranch(a, d) < SelectBranch(b, d)
    ensures KeyLess(a, b)
  {
    var p := d / 2;
    forall i | 0 <= i < p ensures a[i] == b[i] {
      assert SelectBranch(a, 2 * i) == SelectBranch(b, 2 * i);
      assert SelectBranch(a, 2 * i + 1) == SelectBranch(b, 2 * i + 1);
    }
    assert a[..p] == b[..p];
    if d % 2 == 1 {
      assert SelectBranch(a, d - 1) == SelectBranch(b, d - 1);
    }
    assert a[p] < b[p];
  }

  /** A key with the given first byte. */
  function KeyWith(first: byte): Key {
    [first] + Zeros(31)
  }

  lemma {:induction false} LeadingDigits(first: byte)
    ensures SelectBranch(KeyWith(first), 0) == first / 16 && SelectBranch(KeyWith(first), 1) == first % 16
    ensures KeyWith(first)[0] == first
  {
  }

  lemma {:induction false} FirstByteLess(a: byte, b: byte)
    requires a < b
    ensures KeyLess(KeyWith(a), KeyWith(b)) && !KeyLess(KeyWith(b), KeyWith(a)) && KeyWith(a) != KeyWith(b)
  {
    var x, y := KeyWith(a), KeyWith(b);
    assert x[..0] == y[..0] && x[0] < y[0];
    LessAsym(x, y);
  }

  /** Strictly increasing keys. */
  ghost predicate Sorted(items: seq<Item>) {
    forall i, j :: 0 <= i < j < |items| ==> KeyLess(items[i].key, items[j].key)
  }

  lemma {:induction false} SortedConcat(a: seq<Item>, b: seq<Item>)
    requires Sorted(a) && Sorted(b) && forall x, y :: x in a && y in b ==> KeyLess(x.key, y.key)
    ensures Sorted(a + b)
  {
  }

  /** The items of a canonical tree stand in key order. */
  lemma {:induction false} CanonSorted(kind: Kind, u: Contents, d: nat)
    requires d <= MAX_DEPTH && Shared(u, d)
    ensures Sorted(Leaves(Canon(kind, u, d)))
    decreases MAX_DEPTH - d, BRANCH_FACTOR + 1
  {
    SharedCases(kind, u, d);
    if Canon(kind, u, d).Inner? {
      KidsSorted(kind, u, d, 0);
      assert CanonKids(kind, u, d)[0..] == CanonKids(kind, u, d);
    }
  }

  lemma {:induction false} KidsSorted(kind: Kind, u: Contents, d: nat, i: nat)
    requires d < MAX_DEPTH && Shared(u, d) && i <= BRANCH_FACTOR
    ensures Sorted(LeavesOf(CanonKids(kind, u, d)[i..]))
    ensures forall it :: it in LeavesOf(CanonKids(kind, u, d)[i..]) ==> it.key in u && SelectBranch(it.key, d) >= i
    decreases MAX_DEPTH - d, BRANCH_FACTOR - i
  {
    hide Canon, KeyLess, Leaves, LeavesOf, Sorted, SelectBranch, Sub;
    var kids := CanonKids(kind, u, d);
    RestLeaves(kids, i);
    if i < BRANCH_FACTOR {
      KidsSorted(kind, u, d, i + 1);
      SharedStep(u, d, i);
      CanonSorted(kind, Sub(u, d, i), d + 1);
      KidItems(kind, u, d, i);
      SplitSorted(u, d, i, Leaves(kids[i]), LeavesOf(kids[i + 1..]));
    }
  }

  lemma {:induction false} RestLeaves(kids: seq<Tree>, i: nat)
    requires i <= |kids|
    ensures if i == |kids| then LeavesOf(kids[i..]) == [] && Sorted([]) else LeavesOf(kids[i..]) == Leaves(kids[i]) + LeavesOf(kids[i + 1..])
  {
    if i < |kids| {
      var rest := kids[i..];
      assert rest[0] == kids[i] && rest[1..] == kids[i + 1..];
    }
  }

  lemma {:induction false} KidItems(kind: Kind, u: Contents, d: nat, i: nat)
    requires d < MAX_DEPTH && Shared(u, d) && i < BRANCH_FACTOR
    ensures forall x :: x in Leaves(CanonKids(kind, u, d)[i]) ==> x.key in u && SelectBranch(x.key, d) == i
  {
    hide Canon, Leaves;
    SharedStep(u, d, i);
    forall x | x in Leaves(CanonKids(kind, u, d)[i]) ensures x.key in u && SelectBranch(x.key, d) == i {
      CanonLeaves(kind, Sub(u, d, i), d + 1, x);
    }
  }

  lemma {:induction false} SplitSorted(u: Contents, d: nat, i: nat, a: seq<Item>, b: seq<Item>)
    requires d < MAX_DEPTH && Shared(u, d) && Sorted(a) && Sorted(b)
    requires forall x :: x in a ==> x.key in u && SelectBranch(x.key, d) == i
    requires forall x :: x in b ==> x.key in u && SelectBranch(x.key, d) > i
    ensures Sorted(a + b)
  {
    hide KeyLess, Sorted;
    forall x, y | x in a && y in b ensures KeyLess(x.key, y.key) {
      BranchLess(x.key, y.key, d);
    }
    SortedConcat(a, b);
  }

  lemma {:induction false} RootSorted(kind: Kind, m: Contents)
    ensures Sorted(Leaves(CanonRoot(kind, m)))
  {
    KidsSorted(kind, m, 0, 0);
    assert CanonKids(kind, m, 0)[0..] == CanonKids(kind, m, 0);
  }
}
