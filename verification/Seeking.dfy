/** What a search for the entry next to a key finds, given what of the map can be reached, and when it is the right one. */
module Seeking {
  import opened Bytes
  import opened Tree
  import opened Canonical
  import opened LeafOrder
  import opened Nearness
  import opened SyncTree
  import opened Walking

  datatype Sighting = Failed | Found(item: Item) | Nothing

  /** The n-th branch in the direction of a search. */
  function Turn(up: bool, n: int): int {
    if up then n else BRANCH_FACTOR - 1 - n
  }

  /** The first item below a node in the direction of a search. A node with a branch that cannot be reached gives none if that branch comes first. */
  ghost function EndOf(up: bool, v: Tree): Option<Item>
    decreases v
  {
    match v
    case Leaf(_, it) => Some(it)
    case Inner(kids) =>
      if |kids| != BRANCH_FACTOR then None
      else var j := Stop(up, kids, 0); if j == BRANCH_FACTOR then None else EndOf(up, kids[Turn(up, j)])
    case _ => None
  }

  /** The first branch from the n-th on that cannot be reached or gives an item. */
  ghost function Stop(up: bool, kids: seq<Tree>, n: nat): (j: nat)
    requires |kids| == BRANCH_FACTOR && n <= BRANCH_FACTOR
    ensures n <= j <= BRANCH_FACTOR
    ensures forall i :: n <= i < j ==> !kids[Turn(up, i)].Stub? && EndOf(up, kids[Turn(up, i)]).None?
    ensures j < BRANCH_FACTOR ==> kids[Turn(up, j)].Stub? || EndOf(up, kids[Turn(up, j)]).Some?
    decreases kids, BRANCH_FACTOR - n
  {
    if n == BRANCH_FACTOR || kids[Turn(up, n)].Stub? || EndOf(up, kids[Turn(up, n)]).Some? then n else Stop(up, kids, n + 1)
  }

  /** Looking through the branches of a node from the n-th on. */
  ghost function Scan(up: bool, kids: seq<Tree>, n: nat): Sighting
    requires |kids| == BRANCH_FACTOR && n <= BRANCH_FACTOR
  {
    var j := Stop(up, kids, n);
    if j == BRANCH_FACTOR then Nothing
    else match EndOf(up, kids[Turn(up, j)])
      case None => Failed
      case Some(it) => Found(it)
  }

  /** Down to where id would be, and back looking through the branches beyond. */
  ghost function Seek(up: bool, v: Tree, id: Key, d: nat): Sighting {
    match v
    case Nil => Nothing
    case Stub(_) => Failed
    case Leaf(_, it) => if Beyond(up, id, it.key) then Found(it) else Nothing
    case Inner(kids) =>
      if |kids| != BRANCH_FACTOR then Nothing else
      var below := Seek(up, kids[SelectBranch(id, d)], id, d + 1);
      if below != Nothing then below else Scan(up, kids, Turn(up, SelectBranch(id, d)) + 1)
  }

  // ---------- the ends of a subtree ----------

  lemma {:induction false} EndSound(up: bool, v: Tree, kind: Kind, u: Contents, d: nat, it: Item)
    requires d <= MAX_DEPTH && Shared(u, d) && Part(v, Canon(kind, u, d)) && EndOf(up, v) == Some(it)
    ensures it.key in u && u[it.key] == it.data
    decreases v
  {
    hide Canon, Sub, Shared;
    SharedCases(kind, u, d);
    if v.Inner? {
      var b := Turn(up, Stop(up, v.kids, 0));
      SharedStep(u, d, b);
      EndSound(up, v.kids[b], kind, Sub(u, d, b), d + 1, it);
      SubAt(u, d, b, it.key);
    }
  }

  /** The entry of u that comes before all others. */
  ghost predicate Leading(up: bool, u: Contents, it: Item) {
    && it.key in u && u[it.key] == it.data
    && forall k :: k in u ==> k == it.key || Beyond(up, it.key, k)
  }

  lemma {:induction false} LeadingSub(up: bool, u: Contents, it: Item, d: nat)
    requires d < MAX_DEPTH && Shared(u, d) && Leading(up, u, it)
    ensures var b := SelectBranch(it.key, d);
      Leading(up, Sub(u, d, b), it) && forall c :: 0 <= c < BRANCH_FACTOR && Farther(up, c, b) ==> Sub(u, d, c) == map[]
  {
    hide Beyond;
    var b := SelectBranch(it.key, d);
    forall c | 0 <= c < BRANCH_FACTOR && Farther(up, c, b) ensures Sub(u, d, c) == map[] {
      forall k | k in Sub(u, d, c) ensures false {
        BranchBeyond(up, k, it.key, d);
      }
    }
  }

  /** With nothing before branch b, an item of branch b is come upon exactly if that branch gives it. */
  lemma {:induction false} StopAt(up: bool, vs: seq<Tree>, kind: Kind, u: Contents, d: nat, n: nat, b: nat, it: Item)
    requires d < MAX_DEPTH && Shared(u, d) && |vs| == BRANCH_FACTOR && b == SelectBranch(it.key, d) && n <= Turn(up, b)
    requires forall i :: 0 <= i < BRANCH_FACTOR ==> Part(vs[i], Canon(kind, Sub(u, d, i), d + 1))
    requires forall i :: n <= i < Turn(up, b) ==> Sub(u, d, Turn(up, i)) == map[]
    ensures var j := Stop(up, vs, n); j < BRANCH_FACTOR && EndOf(up, vs[Turn(up, j)]) == Some(it) <==> EndOf(up, vs[b]) == Some(it)
  {
    hide Canon, Sub, Shared, SelectBranch, EndOf;
    var j := Stop(up, vs, n);
    assert vs[Turn(up, Turn(up, b))] == vs[b];
    if j < Turn(up, b) {
      EmptyEnd(up, vs[Turn(up, j)], kind, u, d, Turn(up, j));
      assert false;
    }
    if Turn(up, b) < j < BRANCH_FACTOR && EndOf(up, vs[Turn(up, j)]) == Some(it) {
      ElsewhereEnd(up, vs[Turn(up, j)], kind, u, d, Turn(up, j), it);
      assert false;
    }
  }

  lemma {:induction false} EmptyEnd(up: bool, v: Tree, kind: Kind, u: Contents, d: nat, b: nat)
    requires d < MAX_DEPTH && Part(v, Canon(kind, Sub(u, d, b), d + 1)) && Sub(u, d, b) == map[]
    ensures !v.Stub? && EndOf(up, v).None?
  {
  }

  /** The end found is the right one exactly if every node on the way to it can be reached. */
  lemma {:induction false} EndExact(up: bool, v: Tree, kind: Kind, u: Contents, d: nat, it: Item)
    requires d <= MAX_DEPTH && Shared(u, d) && Part(v, Canon(kind, u, d)) && Leading(up, u, it)
    ensures EndOf(up, v) == Some(it) <==> !Lost(v, it.key, d)
    decreases v
  {
    hide Canon, Sub, Shared, Leading, Beyond, SelectBranch, Stop;
    SharedCases(kind, u, d);
    LeadingAlone(up, u, it);
    if v.Inner? {
      LeadingSub(up, u, it, d);
      var b := SelectBranch(it.key, d);
      SharedStep(u, d, b);
      EndExact(up, v.kids[b], kind, Sub(u, d, b), d + 1, it);
      StopAt(up, v.kids, kind, u, d, 0, b, it);
    }
  }

  lemma {:induction false} LeadingAlone(up: bool, u: Contents, it: Item)
    requires Leading(up, u, it)
    ensures u != map[] && forall x: Item :: u == map[x.key := x.data] ==> x == it
  {
  }

  lemma {:induction false} ElsewhereEnd(up: bool, v: Tree, kind: Kind, u: Contents, d: nat, b: nat, it: Item)
    requires d < MAX_DEPTH && Shared(u, d) && b < BRANCH_FACTOR && Part(v, Canon(kind, Sub(u, d, b), d + 1)) && EndOf(up, v) == Some(it)
    ensures it.key in u && u[it.key] == it.data && SelectBranch(it.key, d) == b
  {
    hide Canon;
    SharedStep(u, d, b);
    EndSound(up, v, kind, Sub(u, d, b), d + 1, it);
  }

  // ---------- the neighbour of a key ----------

  lemma {:induction false} WayStep(kind: Kind, m: Contents, id: Key, d: nat, kids: seq<Tree>)
    requires d <= MAX_DEPTH && NodeAt(kind, m, id, d) == Inner(kids)
    ensures d < MAX_DEPTH && |kids| == BRANCH_FACTOR && kids[SelectBranch(id, d)] == NodeAt(kind, m, id, d + 1)
    ensures forall b :: 0 <= b < BRANCH_FACTOR ==> kids[b] == Canon(kind, Sub(Under(m, id, d), d, b), d + 1)
    ensures Whole(Inner(kids))
  {
    NodeAtStep(kind, m, id, d, kids);
    KidsWhole(kind, Under(m, id, d), d);
  }

  lemma {:induction false} WayCases(kind: Kind, m: Contents, id: Key, d: nat)
    requires d <= MAX_DEPTH
    ensures var t := NodeAt(kind, m, id, d);
      && !t.Stub? && (t.Nil? ==> Under(m, id, d) == map[])
      && (t.Leaf? ==> d > 0 && t.kind == kind && Under(m, id, d) == map[t.item.key := t.item.data])
  {
    SharedUnder(m, id, d);
    SharedCases(kind, Under(m, id, d), d);
  }

  /** What the branches beyond the one of id give lies in one of them. */
  lemma {:induction false} ScanSound(up: bool, v: Tree, kind: Kind, m: Contents, id: Key, d: nat, it: Item) returns (b: nat)
    requires d <= MAX_DEPTH && Part(v, NodeAt(kind, m, id, d)) && v.Inner? && |v.kids| == BRANCH_FACTOR
    requires Scan(up, v.kids, Turn(up, SelectBranch(id, d)) + 1) == Found(it)
    ensures it.key in Under(m, id, d) && m[it.key] == it.data && Beyond(up, id, it.key)
    ensures b == Turn(up, Stop(up, v.kids, Turn(up, SelectBranch(id, d)) + 1)) && b < BRANCH_FACTOR && SelectBranch(it.key, d) == b && b != SelectBranch(id, d)
    ensures EndOf(up, v.kids[b]) == Some(it)
  {
    hide NodeAt, Canon, Under, Sub, SelectBranch, Beyond;
    WayParts(v, kind, m, id, d);
    b := Turn(up, Stop(up, v.kids, Turn(up, SelectBranch(id, d)) + 1));
    ElsewhereEnd(up, v.kids[b], kind, Under(m, id, d), d, b, it);
    UnderAt(m, id, d, it.key);
    BranchBeyond(up, id, it.key, d);
  }

  /** What is found is an entry beyond id, whether or not it is the nearest one. */
  lemma {:induction false} SeekSound(up: bool, v: Tree, kind: Kind, m: Contents, id: Key, d: nat, it: Item)
    requires d <= MAX_DEPTH && Part(v, NodeAt(kind, m, id, d)) && Seek(up, v, id, d) == Found(it)
    ensures it.key in Under(m, id, d) && m[it.key] == it.data && Beyond(up, id, it.key)
    decreases v
  {
    hide NodeAt, Canon, Under, Sub, Beyond, Scan, SelectBranch;
    WayCases(kind, m, id, d);
    UnderAt(m, id, d, it.key);
    if v.Inner? {
      WayParts(v, kind, m, id, d);
      hide Part;
      var kid := v.kids[SelectBranch(id, d)];
      if Seek(up, kid, id, d + 1) == Found(it) {
        SeekSound(up, kid, kind, m, id, d + 1, it);
        UnderAt(m, id, d + 1, it.key);
      } else {
        var b := ScanSound(up, v, kind, m, id, d, it);
      }
    }
  }

  /** The outcome is the answer r. */
  predicate Right(o: Sighting, r: Option<Item>) {
    match r
    case None => o == Nothing
    case Some(it) => o == Found(it)
  }

  /** Every node on the way to id can be reached, and every node on the way to the entry r. */
  ghost predicate Clear(v: Tree, id: Key, r: Option<Item>, d: nat) {
    !Lost(v, id, d) && (r.Some? ==> !Lost(v, r.value.key, d))
  }

  /** The answer among the entries on the way to id. */
  lemma {:induction false} NearestBelow(up: bool, m: Contents, id: Key, d: nat, r: Option<Item>) returns (q: Option<Item>)
    requires d < MAX_DEPTH && Nearest(up, Under(m, id, d), id, r)
    ensures Nearest(up, Under(m, id, d + 1), id, q)
    ensures q == if r.Some? && SelectBranch(r.value.key, d) == SelectBranch(id, d) then r else None
    ensures r.Some? && q.None? ==> Farther(up, SelectBranch(id, d), SelectBranch(r.value.key, d))
  {
    hide Beyond;
    q := if r.Some? && SelectBranch(r.value.key, d) == SelectBranch(id, d) then r else None;
    if r.Some? && q.None? {
      var it := r.value;
      if !Farther(up, SelectBranch(id, d), SelectBranch(it.key, d)) {
        BranchBeyond(up, it.key, id, d);
        assert false;
      }
      forall k | k in Under(m, id, d + 1) ensures !Beyond(up, id, k) {
        BranchBeyond(up, k, it.key, d);
      }
    }
  }

  /** An answer in a branch beyond the one of id leads in its branch, and the branches between are empty. */
  lemma {:induction false} NearestLeads(up: bool, m: Contents, id: Key, d: nat, it: Item)
    requires d < MAX_DEPTH && Nearest(up, Under(m, id, d), id, Some(it)) && Farther(up, SelectBranch(id, d), SelectBranch(it.key, d))
    ensures var u, b := Under(m, id, d), SelectBranch(it.key, d);
      && Leading(up, Sub(u, d, b), it)
      && forall c :: 0 <= c < BRANCH_FACTOR && Farther(up, SelectBranch(id, d), c) && Farther(up, c, b) ==> Sub(u, d, c) == map[]
  {
    hide Beyond;
    var u, b := Under(m, id, d), SelectBranch(it.key, d);
    forall k | k in Sub(u, d, b) ensures k == it.key || Beyond(up, it.key, k) {
      BranchBeyond(up, id, k, d);
    }
    forall c | 0 <= c < BRANCH_FACTOR && Farther(up, SelectBranch(id, d), c) && Farther(up, c, b) ensures Sub(u, d, c) == map[] {
      forall k | k in Sub(u, d, c) ensures false {
        BranchBeyond(up, id, k, d);
        BranchBeyond(up, k, it.key, d);
      }
    }
  }

  lemma {:induction false} NoneBeyond(up: bool, m: Contents, id: Key, d: nat, c: nat)
    requires d < MAX_DEPTH && Nearest(up, Under(m, id, d), id, None) && c < BRANCH_FACTOR && Farther(up, SelectBranch(id, d), c)
    ensures Sub(Under(m, id, d), d, c) == map[]
  {
    hide Beyond;
    forall k | k in Sub(Under(m, id, d), d, c) ensures false {
      BranchBeyond(up, id, k, d);
    }
  }

  lemma {:induction false} WayParts(v: Tree, kind: Kind, m: Contents, id: Key, d: nat)
    requires d <= MAX_DEPTH && Part(v, NodeAt(kind, m, id, d)) && v.Inner?
    ensures d < MAX_DEPTH && |v.kids| == BRANCH_FACTOR && Part(v.kids[SelectBranch(id, d)], NodeAt(kind, m, id, d + 1))
    ensures forall b :: 0 <= b < BRANCH_FACTOR ==> Part(v.kids[b], Canon(kind, Sub(Under(m, id, d), d, b), d + 1))
    ensures Shared(Under(m, id, d), d)
  {
    hide NodeAt, Canon, Under, Sub;
    WayStep(kind, m, id, d, NodeAt(kind, m, id, d).kids);
    SharedUnder(m, id, d);
  }

  /** Looking through the branches beyond the one of id where there is no answer, and where there is one. */
  lemma {:induction false} ScanNone(up: bool, v: Tree, kind: Kind, m: Contents, id: Key, d: nat)
    requires d <= MAX_DEPTH && Part(v, NodeAt(kind, m, id, d)) && v.Inner? && |v.kids| == BRANCH_FACTOR
    requires Nearest(up, Under(m, id, d), id, None)
    ensures Scan(up, v.kids, Turn(up, SelectBranch(id, d)) + 1) == Nothing
  {
    hide NodeAt, Canon, Under, Sub, Nearest, SelectBranch, EndOf, Part;
    WayParts(v, kind, m, id, d);
    var j := Stop(up, v.kids, Turn(up, SelectBranch(id, d)) + 1);
    if j < BRANCH_FACTOR {
      NoneBeyond(up, m, id, d, Turn(up, j));
      EmptyEnd(up, v.kids[Turn(up, j)], kind, Under(m, id, d), d, Turn(up, j));
      assert false;
    }
  }

  lemma {:induction false} ScanExact(up: bool, v: Tree, kind: Kind, m: Contents, id: Key, d: nat, it: Item)
    requires d <= MAX_DEPTH && Part(v, NodeAt(kind, m, id, d)) && v.Inner? && |v.kids| == BRANCH_FACTOR
    requires Nearest(up, Under(m, id, d), id, Some(it)) && Farther(up, SelectBranch(id, d), SelectBranch(it.key, d))
    ensures Scan(up, v.kids, Turn(up, SelectBranch(id, d)) + 1) == Found(it) <==> !Lost(v, it.key, d)
  {
    hide NodeAt, Canon, Under, Sub, Shared, Nearest, SelectBranch, Leading, EndOf, Part, Stop;
    var u: Contents, b: nat := Under(m, id, d), SelectBranch(it.key, d);
    WayParts(v, kind, m, id, d);
    NearestLeads(up, m, id, d, it);
    SharedStep(u, d, b);
    EndExact(up, v.kids[b], kind, Sub(u, d, b), d + 1, it);
    StopAt(up, v.kids, kind, u, d, Turn(up, SelectBranch(id, d)) + 1, b, it);
  }

  /** The search has the right answer exactly if the way to id and the way to the answer can be reached. */
  lemma {:induction false} SeekExact(up: bool, v: Tree, kind: Kind, m: Contents, id: Key, d: nat, r: Option<Item>)
    requires d <= MAX_DEPTH && Part(v, NodeAt(kind, m, id, d)) && Nearest(up, Under(m, id, d), id, r)
    ensures Right(Seek(up, v, id, d), r) <==> Clear(v, id, r, d)
    decreases v
  {
    hide NodeAt, Canon, Under, Sub, Beyond, Nearest, SelectBranch, Scan, Seek, Part, Lost;
    if v.Inner? {
      WayParts(v, kind, m, id, d);
      var kid := v.kids[SelectBranch(id, d)];
      var q := NearestBelow(up, m, id, d, r);
      SeekExact(up, kid, kind, m, id, d + 1, q);
      match Seek(up, kid, id, d + 1) {
        case Nothing => SeekAfter(up, v, kind, m, id, d, r, q);
        case Found(it) => FoundBelow(up, kid, kind, m, id, d, q, it);
        case Failed =>
      }
      SeekUp(up, v, id, d, r, q);
    } else {
      SeekHere(up, v, kind, m, id, d, r);
    }
  }

  lemma {:induction false} FoundBelow(up: bool, kid: Tree, kind: Kind, m: Contents, id: Key, d: nat, q: Option<Item>, it: Item)
    requires d < MAX_DEPTH && Part(kid, NodeAt(kind, m, id, d + 1)) && Nearest(up, Under(m, id, d + 1), id, q) && Seek(up, kid, id, d + 1) == Found(it)
    ensures q.Some? && SelectBranch(it.key, d) == SelectBranch(id, d)
  {
    hide NodeAt, Part, Seek, Nearest;
    SeekSound(up, kid, kind, m, id, d + 1, it);
    UnderAt(m, id, d + 1, it.key);
    if q.None? { NotNone(up, Under(m, id, d + 1), id, it.key); }
  }

  lemma {:induction false} SeekHere(up: bool, v: Tree, kind: Kind, m: Contents, id: Key, d: nat, r: Option<Item>)
    requires d <= MAX_DEPTH && Part(v, NodeAt(kind, m, id, d)) && Nearest(up, Under(m, id, d), id, r) && !v.Inner?
    ensures Right(Seek(up, v, id, d), r) <==> Clear(v, id, r, d)
  {
    hide NodeAt, Under, Beyond, Nearest;
    WayCases(kind, m, id, d);
    if v.Leaf? {
      AloneNearest(up, v.item, id, r);
    } else if v.Nil? {
      EmptyNearest(up, id, r);
    }
  }

  /** From the branch of id to the node above it. */
  lemma {:induction false} SeekUp(up: bool, v: Tree, id: Key, d: nat, r: Option<Item>, q: Option<Item>)
    requires v.Inner? && |v.kids| == BRANCH_FACTOR && q == if r.Some? && SelectBranch(r.value.key, d) == SelectBranch(id, d) then r else None
    requires var kid := v.kids[SelectBranch(id, d)]; var below := Seek(up, kid, id, d + 1);
      && (Right(below, q) <==> Clear(kid, id, q, d + 1))
      && (below == Nothing ==> (Right(Scan(up, v.kids, Turn(up, SelectBranch(id, d)) + 1), r) <==> Clear(v, id, r, d)))
      && (below.Found? ==> q.Some? && SelectBranch(below.item.key, d) == SelectBranch(id, d))
    ensures Right(Seek(up, v, id, d), r) <==> Clear(v, id, r, d)
  {
    hide SelectBranch, Scan, Beyond;
  }

  /** Nothing was found in the branch of id. */
  lemma {:induction false} SeekAfter(up: bool, v: Tree, kind: Kind, m: Contents, id: Key, d: nat, r: Option<Item>, q: Option<Item>)
    requires d <= MAX_DEPTH && Part(v, NodeAt(kind, m, id, d)) && v.Inner? && |v.kids| == BRANCH_FACTOR && Nearest(up, Under(m, id, d), id, r)
    requires q == if r.Some? && SelectBranch(r.value.key, d) == SelectBranch(id, d) then r else None
    requires r.Some? && q.None? ==> Farther(up, SelectBranch(id, d), SelectBranch(r.value.key, d))
    requires q.None? <==> Clear(v.kids[SelectBranch(id, d)], id, q, d + 1)
    ensures Right(Scan(up, v.kids, Turn(up, SelectBranch(id, d)) + 1), r) <==> Clear(v, id, r, d)
  {
    hide NodeAt, Canon, Under, Sub, Beyond, Nearest, SelectBranch, Scan, Part;
    if q.Some? {
      ScanMisses(up, v, kind, m, id, d, q.value);
    } else if r.Some? {
      ScanExact(up, v, kind, m, id, d, r.value);
    } else {
      ScanNone(up, v, kind, m, id, d);
    }
  }

  lemma {:induction false} EmptyNearest(up: bool, id: Key, r: Option<Item>)
    requires Nearest(up, map[], id, r)
    ensures r.None?
  {
  }

  lemma {:induction false} NotNone(up: bool, u: Contents, id: Key, k: Key)
    requires k in u && Beyond(up, id, k)
    ensures !Nearest(up, u, id, None)
  {
  }

  lemma {:induction false} AloneNearest(up: bool, x: Item, id: Key, r: Option<Item>)
    requires Nearest(up, map[x.key := x.data], id, r)
    ensures r == if Beyond(up, id, x.key) then Some(x) else None
  {
    var u: Contents := map[x.key := x.data];
    assert x.key in u;
  }

  lemma {:induction false} ScanMisses(up: bool, v: Tree, kind: Kind, m: Contents, id: Key, d: nat, it: Item)
    requires d <= MAX_DEPTH && Part(v, NodeAt(kind, m, id, d)) && v.Inner? && |v.kids| == BRANCH_FACTOR
    requires SelectBranch(it.key, d) == SelectBranch(id, d)
    ensures Scan(up, v.kids, Turn(up, SelectBranch(id, d)) + 1) != Found(it)
  {
    hide NodeAt, Scan;
    if Scan(up, v.kids, Turn(up, SelectBranch(id, d)) + 1) == Found(it) {
      var b := ScanSound(up, v, kind, m, id, d, it);
      assert false;
    }
  }
}
