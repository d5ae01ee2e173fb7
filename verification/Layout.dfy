/** The byte layouts behind hashes, storage and the wire, written out. */
module Layout {
  import opened Bytes
  import opened Tree
  import opened Codec
  import opened Canonical
  import opened Flushing
  import opened Shapes
  import opened Walking
  import opened ShaMap
  import opened Phantom

  // ---------- rows of hashes ----------

  /** Sixteen hashes in a row. */
  function Row(hs: seq<Hash>): bytes
    requires |hs| == 16
  {
    HalfRow(hs) + hs[8] + hs[9] + hs[10] + hs[11] + hs[12] + hs[13] + hs[14] + hs[15]
  }

  /** The first eight of them. */
  function HalfRow(hs: seq<Hash>): bytes
    requires |hs| >= 8
  {
    var none: bytes := [];
    none + hs[0] + hs[1] + hs[2] + hs[3] + hs[4] + hs[5] + hs[6] + hs[7]
  }

  lemma {:induction false} FlattenTo(hs: seq<Hash>, n: nat)
    requires n < |hs|
    ensures Flatten(hs[..n + 1]) == Flatten(hs[..n]) + hs[n]
  {
    assert hs[..n + 1] == hs[..n] + [hs[n]];
    FlattenAppend(hs[..n], hs[n]);
  }

  lemma {:induction false} FlattenEight(hs: seq<Hash>)
    requires |hs| >= 8
    ensures Flatten(hs[..8]) == HalfRow(hs)
  {
    hide Flatten;
    FlattenNone();
    assert hs[..0] == [];
    FlattenTo(hs, 0);
    FlattenTo(hs, 1);
    FlattenTo(hs, 2);
    FlattenTo(hs, 3);
    FlattenTo(hs, 4);
    FlattenTo(hs, 5);
    FlattenTo(hs, 6);
    FlattenTo(hs, 7);
  }

  lemma {:induction false} RowIs(hs: seq<Hash>)
    requires |hs| == 16
    ensures Flatten(hs) == Row(hs) && |Row(hs)| == 512
  {
    hide Flatten;
    FlattenEight(hs);
    FlattenTo(hs, 8);
    FlattenTo(hs, 9);
    FlattenTo(hs, 10);
    FlattenTo(hs, 11);
    FlattenTo(hs, 12);
    FlattenTo(hs, 13);
    FlattenTo(hs, 14);
    FlattenTo(hs, 15);
    assert hs[..16] == hs;
  }

  // ---------- what is hashed ----------

  /** A leaf's hash: prefix, data and, unless the key is the data's own hash, the key. */
  lemma {:induction false} LeafBytes(item: Item)
    ensures HashOf(Leaf(AccountState, item)) == Sha512Half([0x4D, 0x4C, 0x4E, 0x00] + item.data + item.key)
    ensures HashOf(Leaf(TransactionNoMeta, item)) == Sha512Half([0x54, 0x58, 0x4E, 0x00] + item.data)
    ensures HashOf(Leaf(TransactionWithMeta, item)) == Sha512Half([0x53, 0x4E, 0x44, 0x00] + item.data + item.key)
  {
  }

  /** An inner node's hash: prefix and the sixteen child hashes in order; zero without branches. */
  lemma {:induction false} InnerBytes(kids: seq<Tree>)
    requires |kids| == 16
    ensures HashOf(Inner(kids)) == if Bare(kids) then Zeros(32) else Sha512Half([0x4D, 0x49, 0x4E, 0x00] + Row(Hashes(kids)))
  {
    RowIs(Hashes(kids));
  }

  /** What is written to the store: the hashed bytes under their hash. */
  lemma {:induction false} EntryBytes(t: Tree)
    requires t.Leaf? || (t.Inner? && |t.kids| == 16 && !Bare(t.kids))
    ensures EntryOf(t).hash == HashOf(t) == Sha512Half(EntryOf(t).data)
    ensures match t
      case Leaf(AccountState, item) => EntryOf(t).data == [0x4D, 0x4C, 0x4E, 0x00] + item.data + item.key
      case Leaf(TransactionNoMeta, item) => EntryOf(t).data == [0x54, 0x58, 0x4E, 0x00] + item.data
      case Leaf(TransactionWithMeta, item) => EntryOf(t).data == [0x53, 0x4E, 0x44, 0x00] + item.data + item.key
      case Inner(kids) => EntryOf(t).data == [0x4D, 0x49, 0x4E, 0x00] + Row(Hashes(kids))
  {
    hide Row;
    if t.Inner? { RowIs(Hashes(t.kids)); }
  }

  // ---------- stored nodes ----------

  /** Every sequence of bytes in the form of a stored leaf, and what it is read as. */
  lemma {:induction false} StoredLeaf(k: Key, d: bytes)
    ensures ParsePrefix([0x4D, 0x4C, 0x4E, 0x00] + d + k) == if |d| >= 12 && k != Zeros(32) then Some(Leaf(AccountState, Item(k, d))) else None
    ensures ParsePrefix([0x53, 0x4E, 0x44, 0x00] + d + k) == if |d| >= 12 then Some(Leaf(TransactionWithMeta, Item(k, d))) else None
    ensures ParsePrefix([0x54, 0x58, 0x4E, 0x00] + d) ==
      if |d| >= 12 then Some(Leaf(TransactionNoMeta, Item(Sha512Half([0x54, 0x58, 0x4E, 0x00] + d), d))) else None
  {
    var a: bytes, b: bytes, c: bytes := [0x4D, 0x4C, 0x4E, 0x00] + d + k, [0x53, 0x4E, 0x44, 0x00] + d + k, [0x54, 0x58, 0x4E, 0x00] + d;
    assert a[..4] == [0x4D, 0x4C, 0x4E, 0x00] && a[|a| - 32..] == k && a[4..|a| - 32] == d;
    assert b[..4] == [0x53, 0x4E, 0x44, 0x00] && b[|b| - 32..] == k && b[4..|b| - 32] == d;
    assert c[..4] == [0x54, 0x58, 0x4E, 0x00] && c[4..] == d;
  }

  /** Every sequence of bytes in the form of a stored inner node: a zero hash is an empty branch. */
  lemma {:induction false} StoredInner(hs: seq<Hash>)
    requires |hs| == 16
    ensures ParsePrefix([0x4D, 0x49, 0x4E, 0x00] + Row(hs)) == Some(Inner(seq(16, i requires 0 <= i < 16 => if hs[i] == Zeros(32) then Nil else Stub(hs[i]))))
  {
    hide Row, Flatten;
    RowIs(hs);
    var a: bytes := [0x4D, 0x49, 0x4E, 0x00] + Row(hs);
    assert a[..4] == [0x4D, 0x49, 0x4E, 0x00] && a[4..] == Row(hs);
    FullRow(hs);
  }

  lemma {:induction false} FullRow(hs: seq<Hash>)
    requires |hs| == 16
    ensures |Row(hs)| == 512 && FullKids(Row(hs)) == seq(16, i requires 0 <= i < 16 => if hs[i] == Zeros(32) then Nil else Stub(hs[i]))
  {
    hide Row, Flatten;
    RowIs(hs);
    forall i | 0 <= i < 16 ensures Row(hs)[32 * i..32 * i + 32] == hs[i] {
      FlattenAt(hs, i);
    }
  }

  /** Nothing else is read: every stored node has one of the four forms. */
  lemma {:induction false} StoredForms(data: bytes)
    requires ParsePrefix(data).Some?
    ensures |data| >= 4 && match ParsePrefix(data).value
      case Leaf(AccountState, item) => data == [0x4D, 0x4C, 0x4E, 0x00] + item.data + item.key
      case Leaf(TransactionNoMeta, item) => data == [0x54, 0x58, 0x4E, 0x00] + item.data
      case Leaf(TransactionWithMeta, item) => data == [0x53, 0x4E, 0x44, 0x00] + item.data + item.key
      case Inner(_) => |data| == 516 && data[..4] == [0x4D, 0x49, 0x4E, 0x00]
      case _ => false
  {
    assert data == data[..4] + data[4..];
    if |data| >= 36 { assert data[4..] == data[4..|data| - 32] + data[|data| - 32..]; }
  }

  // ---------- nodes on the wire ----------

  /** The type comes last. */
  lemma {:induction false} WireLeaf(k: Key, d: bytes)
    ensures Wire(Leaf(AccountState, Item(k, d))) == Some(d + k + [0x01])
    ensures Wire(Leaf(TransactionNoMeta, Item(k, d))) == Some(d + [0x00])
    ensures Wire(Leaf(TransactionWithMeta, Item(k, d))) == Some(d + k + [0x04])
    ensures ParseWire(d + k + [0x01]) == if |d| >= 12 && k != Zeros(32) then Some(Leaf(AccountState, Item(k, d))) else None
    ensures ParseWire(d + [0x00]) == if |d| >= 12 then Some(Leaf(TransactionNoMeta, Item(Sha512Half([0x54, 0x58, 0x4E, 0x00] + d), d))) else None
    ensures ParseWire(d + k + [0x04]) == if |d| >= 12 then Some(Leaf(TransactionWithMeta, Item(k, d))) else None
  {
    var a, b, c := d + k + [0x01], d + [0x00], d + k + [0x04];
    assert a[..|a| - 1] == d + k && b[..|b| - 1] == d && c[..|c| - 1] == d + k;
    assert (d + k)[|d|..] == k && (d + k)[..|d|] == d;
  }

  lemma {:induction false} WireFull(hs: seq<Hash>)
    requires |hs| == 16
    ensures ParseWire(Row(hs) + [0x02]) == Some(Inner(seq(16, i requires 0 <= i < 16 => if hs[i] == Zeros(32) then Nil else Stub(hs[i]))))
  {
    hide Row;
    FullRow(hs);
    var a := Row(hs) + [0x02];
    assert a[..|a| - 1] == Row(hs);
  }

  /** Hash and position, one pair after the other. */
  function PairBytes(ps: seq<(Hash, byte)>): (b: bytes)
    ensures |b| == 33 * |ps|
  {
    if ps == [] then [] else ps[0].0 + [ps[0].1] + PairBytes(ps[1..])
  }

  /** The branches that pairs set: at each position the last pair counts. */
  function Branches(ps: seq<(Hash, byte)>): (kids: seq<Tree>)
    requires forall i :: 0 <= i < |ps| ==> ps[i].1 < 16
    ensures |kids| == 16
  {
    if ps == [] then NoKids() else Branches(ps[..|ps| - 1])[ps[|ps| - 1].1 := Stub(ps[|ps| - 1].0)]
  }

  /** Up to sixteen pairs are read if and only if every position is below sixteen. */
  lemma {:induction false} WireCompressed(ps: seq<(Hash, byte)>)
    requires |ps| <= 16
    ensures ParseWire(PairBytes(ps) + [0x03]) == if forall i :: 0 <= i < |ps| ==> ps[i].1 < 16 then Some(Inner(Branches(ps))) else None
  {
    hide FillCompressed, Branches, PairBytes;
    var a := PairBytes(ps) + [0x03];
    assert a[..|a| - 1] == PairBytes(ps);
    PairsFill(ps, 0);
    BranchesNone(ps);
    assert ps[0..] == ps;
  }

  lemma {:induction false} BranchesNone(ps: seq<(Hash, byte)>)
    ensures Branches(ps[..0]) == NoKids()
  {
  }

  lemma {:induction false} PairsFill(ps: seq<(Hash, byte)>, n: nat)
    requires n <= |ps| && forall i :: 0 <= i < n ==> ps[i].1 < 16
    ensures FillCompressed(PairBytes(ps[n..]), Branches(ps[..n])) == if forall i :: 0 <= i < |ps| ==> ps[i].1 < 16 then Some(Branches(ps)) else None
    decreases |ps| - n
  {
    if n == |ps| {
      assert ps[..n] == ps && ps[n..] == [];
    } else {
      var rest, nd := ps[n..], PairBytes(ps[n..]);
      assert rest[0] == ps[n] && rest[1..] == ps[n + 1..];
      assert nd[..32] == ps[n].0 && nd[32] == ps[n].1 && nd[33..] == PairBytes(ps[n + 1..]);
      if ps[n].1 < 16 {
        assert ps[..n + 1][..n] == ps[..n];
        PairsFill(ps, n + 1);
      }
    }
  }

  /** The set branches of a node from position i on, lowest first. */
  function PairsOf(kids: seq<Tree>, i: nat): seq<(Hash, byte)>
    requires i <= |kids| <= 16
    decreases |kids| - i
  {
    if i == |kids| then [] else (if kids[i].Nil? then [] else [(HashOf(kids[i]), i)]) + PairsOf(kids, i + 1)
  }

  lemma {:induction false} EntriesArePairs(kids: seq<Tree>, i: nat)
    requires i <= |kids| <= 16
    ensures Entries(kids, i) == PairBytes(PairsOf(kids, i))
    decreases |kids| - i
  {
    hide HashOf;
    if i < |kids| {
      EntriesArePairs(kids, i + 1);
      var ps, rest := PairsOf(kids, i), PairsOf(kids, i + 1);
      if kids[i].Nil? {
        assert ps == rest;
      } else {
        var p: (Hash, byte) := (HashOf(kids[i]), i);
        assert ps == [p] + rest;
        assert ps[0] == p && ps[1..] == rest;
        assert PairBytes(ps) == p.0 + [p.1] + PairBytes(rest);
      }
    }
  }

  /** Pairs below twelve branches, all sixteen hashes from twelve on. */
  lemma {:induction false} WireInner(kids: seq<Tree>)
    requires |kids| == 16 && !Bare(kids)
    ensures Wire(Inner(kids)) == Some(if BranchCount(kids) < 12 then PairBytes(PairsOf(kids, 0)) + [0x03] else Row(Hashes(kids)) + [0x02])
  {
    hide Row, PairBytes, PairsOf, Entries;
    EntriesArePairs(kids, 0);
    RowIs(Hashes(kids));
  }

  /** Nothing else is read from the wire. */
  lemma {:induction false} WireForms(data: bytes)
    requires ParseWire(data).Some?
    ensures |data| > 0 && match ParseWire(data).value
      case Leaf(AccountState, item) => data == item.data + item.key + [0x01]
      case Leaf(TransactionNoMeta, item) => data == item.data + [0x00]
      case Leaf(TransactionWithMeta, item) => data == item.data + item.key + [0x04]
      case Inner(_) => (|data| == 513 && data[512] == 0x02) || (|data| % 33 == 1 && |data| <= 529 && data[|data| - 1] == 0x03)
      case _ => false
  {
    var nd := data[..|data| - 1];
    assert data == nd + [data[|data| - 1]];
    if |nd| >= 32 { assert nd == nd[..|nd| - 32] + nd[|nd| - 32..]; }
  }

  // ---------- a map with one entry ----------

  lemma {:induction false} FlattenBoth(a: seq<Hash>, b: seq<Hash>)
    ensures Flatten(a + b) == Flatten(a) + Flatten(b)
  {
    if a == [] {
      assert a + b == b;
    } else {
      assert (a + b)[1..] == a[1..] + b;
      FlattenBoth(a[1..], b);
    }
  }

  lemma {:induction false} FlattenZeros(hs: seq<Hash>)
    requires forall i :: 0 <= i < |hs| ==> hs[i] == ZERO
    ensures Flatten(hs) == Zeros(32 * |hs|)
  {
    if hs != [] { FlattenZeros(hs[1..]); }
  }

  /** The bytes of an inner node with one child: the prefix, and the child's hash in its slot among zeros. */
  function OneSlot(b: nat, h: Hash): bytes
    requires b < 16
  {
    [0x4D, 0x49, 0x4E, 0x00] + Zeros(32 * b) + h + Zeros(32 * (15 - b))
  }

  /** The root hash of one entry: its slot is the high half of the first byte of the key. */
  lemma {:induction false} RootBytes(kind: Kind, k: Key, d: bytes)
    ensures HashOf(CanonRoot(kind, map[k := d])) == Sha512Half(OneSlot(k[0] / 16, HashOf(Leaf(kind, Item(k, d)))))
  {
    hide HashOf, CanonRoot, Row;
    var b: nat, leaf, kids := k[0] / 16, Leaf(kind, Item(k, d)), OneKid(kind, Item(k, d));
    OneRoot(kind, Item(k, d));
    InnerBytes(kids);
    RowIs(Hashes(kids));
    OneRow(kids, b, leaf);
    assert [0x4D, 0x49, 0x4E, 0x00] + Row(Hashes(kids)) == OneSlot(b, HashOf(leaf));
  }

  lemma {:induction false} OneRow(kids: seq<Tree>, b: nat, leaf: Tree)
    requires |kids| == 16 && b < 16 && kids[b] == leaf && forall j :: 0 <= j < 16 && j != b ==> kids[j].Nil?
    ensures Flatten(Hashes(kids)) == Zeros(32 * b) + HashOf(leaf) + Zeros(32 * (15 - b))
  {
    hide Flatten;
    var hs := Hashes(kids);
    NilHashes(kids, b);
    assert hs == hs[..b] + [hs[b]] + hs[b + 1..];
    FlattenBoth(hs[..b] + [hs[b]], hs[b + 1..]);
    FlattenAppend(hs[..b], hs[b]);
    FlattenZeros(hs[..b]);
    FlattenZeros(hs[b + 1..]);
  }

  lemma {:induction false} NilHashes(kids: seq<Tree>, b: nat)
    requires |kids| == 16 && b < 16 && forall j :: 0 <= j < 16 && j != b ==> kids[j].Nil?
    ensures forall j :: 0 <= j < 16 && j != b ==> Hashes(kids)[j] == ZERO
  {
  }

  /** The hash of the leaf of an entry, by the type of the map. */
  function EntryHash(mapType: MapType, key: Key, data: bytes): Hash {
    match mapType
    case TypeState => Sha512Half([0x4D, 0x4C, 0x4E, 0x00] + data + key)
    case TypeTransaction => Sha512Half([0x54, 0x58, 0x4E, 0x00] + data)
  }

  /** A new map with one entry put in: its root hash at the bytes. */
  method FirstEntry(mapType: MapType, key: Key, data: bytes) returns (sm: SHAMap)
    requires |data| >= 12
    ensures sm.Valid() && sm.contents == map[key := data]
    ensures sm.root.hash == Sha512Half(OneSlot(key[0] / 16, EntryHash(mapType, key, data)))
  {
    hide Rep, Distinct, TreeOf, CanonRoot, Foot, HashOf;
    sm := new SHAMap.New(mapType, null);
    FootAllocated(sm.shape);
    var r := sm.Put(key, data);
    RootHash(EnvOf(sm.family), sm.shape);
    RootBytes(LeafKind(mapType), key, data);
    LeafBytes(Item(key, data));
    assert map[][key := data] == map[key := data];
  }
}
