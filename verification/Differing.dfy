/** What it means for two maps to differ, and the differences a walk over one subtree finds. */
module Differing {
  import opened Bytes
  import opened Tree
  import opened Canonical
  import opened LeafOrder
  import opened KeyOrder

  datatype DifferenceType = DiffAdded | DiffRemoved | DiffModified
  datatype Difference = Difference(key: Key, kind: DifferenceType, first: Option<Item>, second: Option<Item>)

  // ---------- the reference ----------

  ghost function At(m: Contents, k: Key): Option<Item> {
    if k in m then Some(Item(k, m[k])) else None
  }

  ghost function DifferenceAt(a: Contents, b: Contents, k: Key): Difference {
    Difference(k, if k !in a then DiffAdded else if k !in b then DiffRemoved else DiffModified, At(a, k), At(b, k))
  }

  /** x tells how a and b differ on its key. */
  ghost predicate Tells(a: Contents, b: Contents, x: Difference) {
    At(a, x.key) != At(b, x.key) && x == DifferenceAt(a, b, x.key)
  }

  /** Every difference between a and b, once. */
  ghost function Differences(a: Contents, b: Contents): multiset<Difference> {
    multiset(set k | k in a.Keys + b.Keys && At(a, k) != At(b, k) :: DifferenceAt(a, b, k))
  }

  lemma {:induction false} DifferencesCount(a: Contents, b: Contents, x: Difference)
    ensures Differences(a, b)[x] == if Tells(a, b, x) then 1 else 0
  {
  }

  lemma {:induction false} NoDifferences(a: Contents, b: Contents)
    ensures Differences(a, b) == multiset{} <==> a == b
  {
    if Differences(a, b) == multiset{} {
      forall k | k in a || k in b ensures At(a, k) == At(b, k) {
        DifferencesCount(a, b, DifferenceAt(a, b, k));
      }
      assert forall k :: k in a <==> k in b by {
        forall k ensures k in a <==> k in b {
          if k in a || k in b { assert At(a, k) == At(b, k); }
        }
      }
      forall k | k in a ensures a[k] == b[k] {
        assert At(a, k) == At(b, k);
      }
    }
  }

  // ---------- branch by branch ----------

  /** The differences in branch i and higher. */
  ghost function BranchDifferences(a: Contents, b: Contents, d: nat, i: nat): multiset<Difference>
    requires i <= BRANCH_FACTOR
    decreases BRANCH_FACTOR - i
  {
    if i == BRANCH_FACTOR then multiset{}
    else Differences(Sub(a, d, i), Sub(b, d, i)) + BranchDifferences(a, b, d, i + 1)
  }

  lemma {:induction false} BranchDifferencesCount(a: Contents, b: Contents, d: nat, i: nat, x: Difference)
    requires i <= BRANCH_FACTOR
    ensures BranchDifferences(a, b, d, i)[x] == if Tells(a, b, x) && SelectBranch(x.key, d) >= i then 1 else 0
    decreases BRANCH_FACTOR - i
  {
    hide Differences, BranchDifferences, SelectBranch, Sub, Tells;
    BranchDifferencesStep(a, b, d, i, x);
    if i < BRANCH_FACTOR {
      BranchDifferencesCount(a, b, d, i + 1, x);
      DifferencesCount(Sub(a, d, i), Sub(b, d, i), x);
      SubTells(a, b, d, i, x);
    }
  }

  lemma {:induction false} BranchDifferencesStep(a: Contents, b: Contents, d: nat, i: nat, x: Difference)
    requires i <= BRANCH_FACTOR
    ensures BranchDifferences(a, b, d, i)[x] ==
      if i < BRANCH_FACTOR then Differences(Sub(a, d, i), Sub(b, d, i))[x] + BranchDifferences(a, b, d, i + 1)[x] else 0
  {
    hide Differences, Sub;
  }

  lemma {:induction false} SubTells(a: Contents, b: Contents, d: nat, i: nat, x: Difference)
    ensures Tells(Sub(a, d, i), Sub(b, d, i), x) <==> Tells(a, b, x) && SelectBranch(x.key, d) == i
  {
    hide SelectBranch;
  }

  /** The differences of two maps are those of their branches together. */
  lemma {:induction false} SplitDifferences(a: Contents, b: Contents, d: nat)
    ensures BranchDifferences(a, b, d, 0) == Differences(a, b)
  {
    hide Differences, BranchDifferences;
    forall x ensures BranchDifferences(a, b, d, 0)[x] == Differences(a, b)[x] {
      BranchDifferencesCount(a, b, d, 0, x);
      DifferencesCount(a, b, x);
    }
  }

  // ---------- one subtree against an empty branch or a single item ----------

  ghost function Lone(o: Option<Item>): Contents {
    match o
    case None => map[]
    case Some(it) => map[it.key := it.data]
  }

  function Unmatched(it: Item, isFirst: bool): Difference {
    if isFirst then Difference(it.key, DiffRemoved, Some(it), None) else Difference(it.key, DiffAdded, None, Some(it))
  }

  function Modified(it: Item, o: Item, isFirst: bool): Difference {
    if isFirst then Difference(it.key, DiffModified, Some(it), Some(o)) else Difference(it.key, DiffModified, Some(o), Some(it))
  }

  /** What one item of the walked map adds. */
  ghost function ItemTold(it: Item, o: Option<Item>, isFirst: bool): seq<Difference> {
    if o.None? || it.key != o.value.key then [Unmatched(it, isFirst)]
    else if it.data != o.value.data then [Modified(it, o.value, isFirst)]
    else []
  }

  /** The items are walked last one first. */
  ghost function ItemsTold(items: seq<Item>, o: Option<Item>, isFirst: bool): seq<Difference> {
    if items == [] then [] else ItemsTold(items[1..], o, isFirst) + ItemTold(items[0], o, isFirst)
  }

  ghost predicate HasKey(items: seq<Item>, k: Key) {
    exists i :: 0 <= i < |items| && items[i].key == k
  }

  /** All that walking the items against o finds. */
  ghost function WalkTold(items: seq<Item>, o: Option<Item>, isFirst: bool): seq<Difference> {
    ItemsTold(items, o, isFirst) + if o.Some? && !HasKey(items, o.value.key) then [Unmatched(o.value, !isFirst)] else []
  }

  ghost predicate UniqueKeys(items: seq<Item>) {
    forall i, j :: 0 <= i < j < |items| ==> items[i].key != items[j].key
  }

  lemma {:induction false} OtherKey(it: Item, o: Option<Item>, isFirst: bool, x: Difference)
    ensures it.key != x.key ==> multiset(ItemTold(it, o, isFirst))[x] == 0
  {
  }

  lemma {:induction false} ItemCount(items: seq<Item>, o: Option<Item>, isFirst: bool, x: Difference)
    requires UniqueKeys(items)
    ensures forall i :: 0 <= i < |items| && items[i].key == x.key ==>
      multiset(ItemsTold(items, o, isFirst))[x] == multiset(ItemTold(items[i], o, isFirst))[x]
    ensures !HasKey(items, x.key) ==> multiset(ItemsTold(items, o, isFirst))[x] == 0
  {
    hide ItemTold;
    if items != [] {
      ItemCount(items[1..], o, isFirst, x);
      OtherKey(items[0], o, isFirst, x);
      assert HasKey(items[1..], x.key) ==> HasKey(items, x.key) by {
        if i :| 0 <= i < |items[1..]| && items[1..][i].key == x.key { assert items[i + 1].key == x.key; }
      }
      forall i | 0 <= i < |items| && items[i].key == x.key
        ensures multiset(ItemsTold(items, o, isFirst))[x] == multiset(ItemTold(items[i], o, isFirst))[x]
      {
        if i > 0 {
          assert items[1..][i - 1] == items[i];
        } else {
          assert forall j :: 0 <= j < |items[1..]| ==> items[1..][j] == items[j + 1];
          assert !HasKey(items[1..], x.key);
        }
      }
    }
  }

  /** The items are those of u. */
  ghost predicate ItemsOf(items: seq<Item>, u: Contents) {
    UniqueKeys(items) && forall it :: it in items <==> it.key in u && u[it.key] == it.data
  }

  lemma {:induction false} CanonItems(kind: Kind, u: Contents, d: nat)
    requires d <= MAX_DEPTH && Shared(u, d)
    ensures ItemsOf(Leaves(Canon(kind, u, d)), u)
  {
    hide Leaves, Canon, KeyLess;
    var items := Leaves(Canon(kind, u, d));
    CanonSorted(kind, u, d);
    forall i, j | 0 <= i < j < |items| ensures items[i].key != items[j].key {
      LessAsym(items[i].key, items[j].key);
    }
    forall it ensures it in items <==> it.key in u && u[it.key] == it.data {
      CanonLeaves(kind, u, d, it);
    }
  }

  /** How often x comes up in a walk over the items of u. */
  ghost function WalkCount(u: Contents, o: Option<Item>, isFirst: bool, x: Difference): nat {
    (if x.key in u then multiset(ItemTold(Item(x.key, u[x.key]), o, isFirst))[x] else 0) +
    (if o.Some? && o.value.key !in u && x == Unmatched(o.value, !isFirst) then 1 else 0)
  }

  lemma {:induction false} WalkCounts(items: seq<Item>, u: Contents, o: Option<Item>, isFirst: bool, x: Difference)
    requires ItemsOf(items, u)
    ensures multiset(WalkTold(items, o, isFirst))[x] == WalkCount(u, o, isFirst, x)
  {
    hide ItemsTold, ItemTold, ItemsOf;
    ItemsUnique(items, u);
    ItemCount(items, o, isFirst, x);
    KeyOfItems(items, u, x.key);
    if o.Some? { KeyOfItems(items, u, o.value.key); }
    if x.key in u {
      var i :| 0 <= i < |items| && items[i] == Item(x.key, u[x.key]);
    }
  }

  lemma {:induction false} ItemsUnique(items: seq<Item>, u: Contents)
    requires ItemsOf(items, u)
    ensures UniqueKeys(items)
  {
  }

  lemma {:induction false} CountTells(u: Contents, o: Option<Item>, isFirst: bool, x: Difference)
    ensures WalkCount(u, o, isFirst, x) ==
      if (if isFirst then Tells(u, Lone(o), x) else Tells(Lone(o), u, x)) then 1 else 0
  {
  }

  /** Walking the items of u against o tells the differences between u and o. */
  lemma {:induction false} WalkTells(items: seq<Item>, u: Contents, o: Option<Item>, isFirst: bool)
    requires ItemsOf(items, u)
    ensures multiset(WalkTold(items, o, isFirst)) == if isFirst then Differences(u, Lone(o)) else Differences(Lone(o), u)
  {
    hide Differences, WalkTold, WalkCount, Tells, ItemsOf, Lone;
    var a, b := if isFirst then u else Lone(o), if isFirst then Lone(o) else u;
    forall x ensures multiset(WalkTold(items, o, isFirst))[x] == Differences(a, b)[x] {
      WalkCounts(items, u, o, isFirst, x);
      CountTells(u, o, isFirst, x);
      DifferencesCount(a, b, x);
    }
  }

  lemma {:induction false} KeyOfItems(items: seq<Item>, u: Contents, k: Key)
    requires ItemsOf(items, u)
    ensures HasKey(items, k) <==> k in u
    ensures k in u ==> exists i :: 0 <= i < |items| && items[i] == Item(k, u[k])
  {
    if k in u {
      assert Item(k, u[k]) in items;
    }
    if i :| 0 <= i < |items| && items[i].key == k {
      assert items[i] in items;
    }
  }

  // ---------- applying differences ----------

  /** One difference applied: an entry taken out, or the second item put in. */
  ghost function Patch(m: Contents, x: Difference): Contents {
    match x.kind
    case DiffRemoved => m - {x.key}
    case _ => if x.second.Some? then m[x.key := x.second.value.data] else m
  }

  /** One difference taken back: an entry taken out, or the first item put in. */
  ghost function Unpatch(m: Contents, x: Difference): Contents {
    match x.kind
    case DiffAdded => m - {x.key}
    case _ => if x.first.Some? then m[x.key := x.first.value.data] else m
  }

  ghost function Patched(m: Contents, xs: seq<Difference>): Contents {
    if xs == [] then m else Patch(Patched(m, xs[..|xs| - 1]), xs[|xs| - 1])
  }

  ghost function Unpatched(m: Contents, xs: seq<Difference>): Contents {
    if xs == [] then m else Unpatch(Unpatched(m, xs[..|xs| - 1]), xs[|xs| - 1])
  }

  /** All of them tell how a and b differ. */
  ghost predicate AllTelling(a: Contents, b: Contents, xs: seq<Difference>) {
    forall i :: 0 <= i < |xs| ==> Tells(a, b, xs[i])
  }

  ghost predicate Mentions(xs: seq<Difference>, k: Key) {
    exists i :: 0 <= i < |xs| && xs[i].key == k
  }

  /** Where a key is mentioned the second map shows, elsewhere the first. */
  lemma {:induction false} PatchedAt(a: Contents, b: Contents, xs: seq<Difference>, k: Key)
    requires AllTelling(a, b, xs)
    ensures At(Patched(a, xs), k) == At(if Mentions(xs, k) then b else a, k)
    ensures At(Unpatched(b, xs), k) == At(if Mentions(xs, k) then a else b, k)
  {
    hide Patch, Unpatch;
    if xs != [] {
      var rest, x := xs[..|xs| - 1], xs[|xs| - 1];
      assert AllTelling(a, b, rest);
      PatchedAt(a, b, rest, k);
      OnePatch(a, b, Patched(a, rest), Unpatched(b, rest), x, k);
      MentionsLast(xs, k);
    }
  }

  lemma {:induction false} MentionsLast(xs: seq<Difference>, k: Key)
    requires xs != []
    ensures Mentions(xs, k) <==> Mentions(xs[..|xs| - 1], k) || xs[|xs| - 1].key == k
  {
    var n := |xs| - 1;
    if i :| 0 <= i < n && xs[i].key == k { assert xs[..n][i].key == k; }
  }

  lemma {:induction false} OnePatch(a: Contents, b: Contents, m: Contents, w: Contents, x: Difference, k: Key)
    requires Tells(a, b, x)
    ensures At(Patch(m, x), k) == At(if x.key == k then b else m, k)
    ensures At(Unpatch(w, x), k) == At(if x.key == k then a else w, k)
  {
  }

  lemma {:induction false} SameEntries(m: Contents, w: Contents)
    requires forall k :: At(m, k) == At(w, k)
    ensures m == w
  {
    forall k ensures k in m <==> k in w {
      assert At(m, k) == At(w, k);
    }
    forall k | k in m ensures m[k] == w[k] {
      assert At(m, k) == At(w, k);
    }
  }

  /** All differences, in any order, applied to the first map give the second, and taken back from the second give the first. */
  lemma {:induction false} PatchedAll(a: Contents, b: Contents, xs: seq<Difference>)
    requires multiset(xs) == Differences(a, b)
    ensures Patched(a, xs) == b && Unpatched(b, xs) == a
  {
    hide Differences, Tells, At, Patched, Unpatched, DifferenceAt;
    forall i | 0 <= i < |xs| ensures Tells(a, b, xs[i]) {
      assert xs[i] in multiset(xs);
      DifferencesCount(a, b, xs[i]);
    }
    forall k ensures At(Patched(a, xs), k) == At(b, k) && At(Unpatched(b, xs), k) == At(a, k) {
      PatchedAt(a, b, xs, k);
      if At(a, k) != At(b, k) { Mentioned(a, b, xs, k); }
    }
    SameEntries(Patched(a, xs), b);
    SameEntries(Unpatched(b, xs), a);
  }

  lemma {:induction false} Mentioned(a: Contents, b: Contents, xs: seq<Difference>, k: Key)
    requires multiset(xs) == Differences(a, b) && At(a, k) != At(b, k)
    ensures Mentions(xs, k)
  {
    hide Differences;
    var x := DifferenceAt(a, b, k);
    DifferencesCount(a, b, x);
    assert x in multiset(xs);
    var i :| 0 <= i < |xs| && xs[i] == x;
  }
}
