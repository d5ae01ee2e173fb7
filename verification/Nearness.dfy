/** The entry next to a key, upward or downward, and where a trie has it. */
module Nearness {
  import opened Bytes
  import opened Tree
  import opened Canonical
  import opened LeafOrder
  import opened KeyOrder

  /** b comes after a in the direction of the search. */
  predicate Beyond(up: bool, a: Key, b: Key) {
    if up then KeyLess(a, b) else KeyLess(b, a)
  }

  predicate Farther(up: bool, i: int, j: int) {
    if up then i < j else j < i
  }

  /** The entry of m nearest to id in the given direction, if there is one. */
  ghost predicate Nearest(up: bool, m: Contents, id: Key, r: Option<Item>) {
    match r
    case None => forall k :: k in m ==> !Beyond(up, id, k)
    case Some(it) =>
      && it.key in m && m[it.key] == it.data && Beyond(up, id, it.key)
      && forall k :: k in m && Beyond(up, id, k) ==> k == it.key || Beyond(up, it.key, k)
  }

  /** There is one nearest entry at most, so the searches have one answer. */
  lemma {:induction false} NearestUnique(up: bool, m: Contents, id: Key, r: Option<Item>, r': Option<Item>)
    requires Nearest(up, m, id, r) && Nearest(up, m, id, r')
    ensures r == r'
  {
    hide KeyLess;
    if r.Some? && r'.Some? {
      var a, b := r.value.key, r'.value.key;
      StrictOrder(a, b, a);
      StrictOrder(b, a, b);
    }
  }

  lemma {:induction false} BranchBeyond(up: bool, a: Key, b: Key, d: nat)
    requires d < MAX_DEPTH && SamePrefix(a, b, d) && Farther(up, SelectBranch(a, d), SelectBranch(b, d))
    ensures Beyond(up, a, b) && !Beyond(up, b, a)
  {
    if up {
      BranchLess(a, b, d);
      LessAsym(a, b);
    } else {
      BranchLess(b, a, d);
      LessAsym(b, a);
    }
  }

  lemma {:induction false} SharedUnder(m: Contents, id: Key, d: nat)
    ensures Shared(Under(m, id, d), d)
  {
  }

  /** There is always an answer: the nearest entry, or that there is none. */
  lemma {:induction false} SomeNearest(up: bool, m: Contents, id: Key) returns (r: Option<Item>)
    ensures Nearest(up, m, id, r)
    decreases |m|
  {
    hide KeyLess;
    if m == map[] {
      r := None;
    } else {
      var x :| x in m;
      var rest := m - {x};
      assert rest.Keys == m.Keys - {x};
      r := SomeNearest(up, rest, id);
      if Beyond(up, id, x) && (r.None? || Beyond(up, x, r.value.key)) {
        forall k | k in m && Beyond(up, id, k) && k != x ensures Beyond(up, x, k) {
          StrictOrder(x, r.value.key, k);
          StrictOrder(k, r.value.key, x);
        }
        r := Some(Item(x, m[x]));
      } else if r.Some? {
        StrictOrder(x, r.value.key, x);
      }
    }
  }
}
