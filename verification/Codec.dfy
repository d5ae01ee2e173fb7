/** The byte forms of a node: prefix form (hashing, storage) and wire form (peers, proofs). */
module Codec {
  import opened Bytes
  import opened Tree

  const MIN_ITEM := 12

  const WIRE_TX: byte := 0
  const WIRE_ACCOUNT_STATE: byte := 1
  const WIRE_INNER: byte := 2
  const WIRE_COMPRESSED: byte := 3
  const WIRE_TX_META: byte := 4

  /** The node itself with its children reduced to their hashes. */
  function Stubbed(t: Tree): Tree {
    match t
    case Inner(kids) =>
      Inner(seq(|kids|, i requires 0 <= i < |kids| => if kids[i].Nil? then Nil else Stub(HashOf(kids[i]))))
    case _ => t
  }

  /** A leaf is refused when its data is too short. */
  function MakeLeaf(kind: Kind, key: Key, data: bytes): Option<Tree> {
    if |data| < MIN_ITEM then None else Some(Leaf(kind, Item(key, data)))
  }

  /** A 32-byte slot that is all zero is an empty branch. */
  function Slot(h: Hash): Tree {
    if h == ZERO then Nil else Stub(h)
  }

  function FullKids(nd: bytes): seq<Tree>
    requires |nd| == 512
  {
    seq(BRANCH_FACTOR, i requires 0 <= i < BRANCH_FACTOR => Slot(nd[32 * i..32 * i + 32]))
  }

  // ---------- prefix form ----------

  function Preimage(t: Tree): bytes
    requires t.Leaf? || t.Inner?
  {
    match t
    case Leaf(kind, item) => LeafPreimage(kind, item)
    case Inner(kids) => InnerPreimage(Hashes(kids))
  }

  function ParsePrefix(data: bytes): Option<Tree> {
    if |data| < 4 then None
    else if data[..4] == PREFIX_INNER then
      if |data| != 4 + BRANCH_FACTOR * 32 then None else Some(Inner(FullKids(data[4..])))
    else if data[..4] == PREFIX_LEAF then
      if |data| < 4 + 32 then None
      else
        var key := data[|data| - 32..];
        if key == ZERO then None else MakeLeaf(AccountState, key, data[4..|data| - 32])
    else if data[..4] == PREFIX_TX_ID then
      if |data| <= 4 then None
      else MakeLeaf(TransactionNoMeta, Sha512Half(PREFIX_TX_ID + data[4..]), data[4..])
    else if data[..4] == PREFIX_TX_NODE then
      if |data| < 4 + 32 then None
      else MakeLeaf(TransactionWithMeta, data[|data| - 32..], data[4..|data| - 32])
    else None
  }

  // ---------- wire form ----------

  function FillCompressed(nd: bytes, kids: seq<Tree>): (r: Option<seq<Tree>>)
    requires |kids| == BRANCH_FACTOR
    ensures r.Some? ==> |r.value| == BRANCH_FACTOR
    decreases |nd|
  {
    if |nd| < 33 then Some(kids)
    else if nd[32] >= BRANCH_FACTOR then None
    else FillCompressed(nd[33..], kids[nd[32] := Stub(nd[..32])])
  }

  function ParseWire(data: bytes): Option<Tree> {
    if |data| == 0 then None
    else
      var wireType, nd := data[|data| - 1], data[..|data| - 1];
      if wireType == WIRE_INNER then
        if |nd| != 512 then None else Some(Inner(FullKids(nd)))
      else if wireType == WIRE_COMPRESSED then
        if |nd| % 33 != 0 || |nd| > 33 * BRANCH_FACTOR then None
        else
          var kids := FillCompressed(nd, NoKids());
          if kids.None? then None else Some(Inner(kids.value))
      else if wireType == WIRE_ACCOUNT_STATE then
        if |nd| < 32 || nd[|nd| - 32..] == ZERO then None
        else MakeLeaf(AccountState, nd[|nd| - 32..], nd[..|nd| - 32])
      else if wireType == WIRE_TX then
        MakeLeaf(TransactionNoMeta, Sha512Half(PREFIX_TX_ID + nd), nd)
      else if wireType == WIRE_TX_META then
        if |nd| < 32 then None else MakeLeaf(TransactionWithMeta, nd[|nd| - 32..], nd[..|nd| - 32])
      else None
  }

  function BranchCount(kids: seq<Tree>): nat {
    if kids == [] then 0 else (if kids[0].Nil? then 0 else 1) + BranchCount(kids[1..])
  }

  /** Hash and position of every set branch from position i on. */
  function Entries(kids: seq<Tree>, i: nat): bytes
    requires i <= |kids| <= 256
    decreases |kids| - i
  {
    if i == |kids| then []
    else (if kids[i].Nil? then [] else HashOf(kids[i]) + [i]) + Entries(kids, i + 1)
  }

  /** An inner node without branches has no wire form. */
  function Wire(t: Tree): Option<bytes>
    requires t.Leaf? || (t.Inner? && |t.kids| == BRANCH_FACTOR)
  {
    match t
    case Leaf(AccountState, item) => Some(item.data + item.key + [WIRE_ACCOUNT_STATE])
    case Leaf(TransactionNoMeta, item) => Some(item.data + [WIRE_TX])
    case Leaf(TransactionWithMeta, item) => Some(item.data + item.key + [WIRE_TX_META])
    case Inner(kids) =>
      if Bare(kids) then None
      else if BranchCount(kids) < 12 then Some(Entries(kids, 0) + [WIRE_COMPRESSED])
      else Some(Flatten(Hashes(kids)) + [WIRE_INNER])
  }

  // ---------- round trips ----------

  /** What a parser can give back: the key travels in the bytes or is the data's own hash. */
  predicate Readable(kind: Kind, item: Item) {
    && |item.data| >= MIN_ITEM
    && match kind
       case AccountState => item.key != ZERO
       case TransactionNoMeta => item.key == Sha512Half(PREFIX_TX_ID + item.data)
       case TransactionWithMeta => true
  }

  lemma {:induction false} PrefixLeafRoundTrip(kind: Kind, item: Item)
    ensures ParsePrefix(LeafPreimage(kind, item)) == Some(Leaf(kind, item)) <==> Readable(kind, item)
  {
    var p := LeafPreimage(kind, item);
    match kind
    case AccountState =>
      assert p[..4] == PREFIX_LEAF && p[|p| - 32..] == item.key && p[4..|p| - 32] == item.data;
    case TransactionNoMeta =>
      assert p[..4] == PREFIX_TX_ID && p[4..] == item.data;
    case TransactionWithMeta =>
      assert p[..4] == PREFIX_TX_NODE && p[|p| - 32..] == item.key && p[4..|p| - 32] == item.data;
  }

  /** A leaf that a parser gives back unchanged or refuses: only an account state with the zero key is refused. */
  predicate Legible(kind: Kind, item: Item) {
    |item.data| >= MIN_ITEM && (Readable(kind, item) || kind.AccountState?)
  }

  lemma {:induction false} PrefixLeafRefused(kind: Kind, item: Item)
    requires Legible(kind, item) && !Readable(kind, item)
    ensures ParsePrefix(LeafPreimage(kind, item)) == None
  {
    var p := LeafPreimage(kind, item);
    assert p[..4] == PREFIX_LEAF && p[|p| - 32..] == item.key;
  }

  /** No set branch carries the all-zero hash. */
  predicate NoZeroBranch(kids: seq<Tree>) {
    forall i :: 0 <= i < |kids| && !kids[i].Nil? ==> HashOf(kids[i]) != ZERO
  }

  lemma {:induction false} FullKidsOf(kids: seq<Tree>)
    requires |kids| == BRANCH_FACTOR
    ensures |Flatten(Hashes(kids))| == 512
    ensures Inner(FullKids(Flatten(Hashes(kids)))) == Stubbed(Inner(kids)) <==> NoZeroBranch(kids)
  {
    var nd := Flatten(Hashes(kids));
    forall i | 0 <= i < BRANCH_FACTOR
      ensures FullKids(nd)[i] == Slot(HashOf(kids[i]))
    {
      FlattenAt(Hashes(kids), i);
    }
    if Inner(FullKids(nd)) == Stubbed(Inner(kids)) {
      forall i | 0 <= i < |kids| && !kids[i].Nil? ensures HashOf(kids[i]) != ZERO {
        assert Stubbed(Inner(kids)).kids[i] == FullKids(nd)[i];
      }
    }
  }

  lemma {:induction false} PrefixInnerRoundTrip(kids: seq<Tree>)
    requires |kids| == BRANCH_FACTOR
    ensures ParsePrefix(InnerPreimage(Hashes(kids))) == Some(Stubbed(Inner(kids))) <==> NoZeroBranch(kids)
  {
    FullKidsOf(kids);
    assert InnerPreimage(Hashes(kids))[..4] == PREFIX_INNER;
    assert InnerPreimage(Hashes(kids))[4..] == Flatten(Hashes(kids));
  }

  // ---------- what a parser can produce ----------

  predicate NilsAndStubs(kids: seq<Tree>) {
    forall i :: 0 <= i < |kids| ==> kids[i].Nil? || kids[i].Stub?
  }

  lemma {:induction false} FillCompressedStubs(nd: bytes, kids: seq<Tree>)
    requires |kids| == BRANCH_FACTOR && NilsAndStubs(kids)
    ensures FillCompressed(nd, kids).Some? ==> NilsAndStubs(FillCompressed(nd, kids).value)
    decreases |nd|
  {
    if |nd| >= 33 && nd[32] < BRANCH_FACTOR {
      FillCompressedStubs(nd[33..], kids[nd[32] := Stub(nd[..32])]);
    }
  }

  /** One node: a leaf whose key fits its data, or sixteen branches known by hash. */
  lemma {:induction false} WireShape(data: bytes)
    requires ParseWire(data).Some?
    ensures var t := ParseWire(data).value;
      || (t.Leaf? && Readable(t.kind, t.item))
      || (t.Inner? && |t.kids| == BRANCH_FACTOR && NilsAndStubs(t.kids))
  {
    FillCompressedStubs(data[..|data| - 1], NoKids());
  }

  // ---------- wire round trips ----------

  /** The first n branches by hash, the others still empty. */
  function StubbedTo(kids: seq<Tree>, n: nat): (ks: seq<Tree>)
    requires n <= |kids|
    ensures |ks| == |kids|
  {
    seq(|kids|, i requires 0 <= i < |kids| => if i < n && !kids[i].Nil? then Stub(HashOf(kids[i])) else Nil)
  }

  lemma {:induction false} FillEntries(kids: seq<Tree>, i: nat)
    requires |kids| == BRANCH_FACTOR && i <= |kids|
    ensures FillCompressed(Entries(kids, i), StubbedTo(kids, i)) == Some(StubbedTo(kids, |kids|))
    decreases |kids| - i
  {
    if i < |kids| {
      FillEntries(kids, i + 1);
      if kids[i].Nil? {
        assert Entries(kids, i) == Entries(kids, i + 1);
        assert StubbedTo(kids, i) == StubbedTo(kids, i + 1);
      } else {
        var nd, h := Entries(kids, i), HashOf(kids[i]);
        assert nd[..32] == h && nd[32] == i && nd[33..] == Entries(kids, i + 1);
        assert StubbedTo(kids, i)[i := Stub(h)] == StubbedTo(kids, i + 1);
      }
    }
  }

  lemma {:induction false} EntriesSize(kids: seq<Tree>, i: nat)
    requires i <= |kids| <= 256
    ensures |Entries(kids, i)| == 33 * BranchCount(kids[i..]) && BranchCount(kids[i..]) <= |kids| - i
    decreases |kids| - i
  {
    if i < |kids| {
      EntriesSize(kids, i + 1);
      assert kids[i..][1..] == kids[i + 1..];
    }
  }

  /** The wire form of an inner node parses back to the node by hash: always if compressed, else unless a used branch has a zero hash. */
  lemma {:induction false} WireInnerRoundTrip(kids: seq<Tree>)
    requires |kids| == BRANCH_FACTOR && !Bare(kids)
    ensures ParseWire(Wire(Inner(kids)).value) == Some(Stubbed(Inner(kids))) <==> BranchCount(kids) < 12 || NoZeroBranch(kids)
  {
    if BranchCount(kids) < 12 {
      CompressedReads(kids);
    } else {
      FullReads(kids);
    }
  }

  lemma {:induction false} CompressedReads(kids: seq<Tree>)
    requires |kids| == BRANCH_FACTOR
    ensures ParseWire(Entries(kids, 0) + [WIRE_COMPRESSED]) == Some(Stubbed(Inner(kids)))
  {
    hide HashOf, Entries;
    var w := Entries(kids, 0) + [WIRE_COMPRESSED];
    assert w[..|w| - 1] == Entries(kids, 0);
    assert kids[0..] == kids;
    EntriesSize(kids, 0);
    FillEntries(kids, 0);
    assert StubbedTo(kids, 0) == NoKids();
    assert Inner(StubbedTo(kids, |kids|)) == Stubbed(Inner(kids));
  }

  lemma {:induction false} FullReads(kids: seq<Tree>)
    requires |kids| == BRANCH_FACTOR
    ensures ParseWire(Flatten(Hashes(kids)) + [WIRE_INNER]) == Some(Stubbed(Inner(kids))) <==> NoZeroBranch(kids)
  {
    hide HashOf, Flatten;
    var w := Flatten(Hashes(kids)) + [WIRE_INNER];
    assert w[..|w| - 1] == Flatten(Hashes(kids));
    FullKidsOf(kids);
  }

  lemma {:induction false} StubbedHash(kids: seq<Tree>)
    ensures HashOf(Stubbed(Inner(kids))) == HashOf(Inner(kids))
  {
    var ks := Stubbed(Inner(kids)).kids;
    assert Hashes(ks) == Hashes(kids);
    assert Bare(ks) <==> Bare(kids) by {
      assert forall i :: 0 <= i < |kids| ==> (ks[i].Nil? <==> kids[i].Nil?);
    }
  }

  /** A leaf parses back exactly when it is readable; otherwise no leaf with its key comes out. */
  lemma {:induction false} WireLeafRoundTrip(kind: Kind, item: Item)
    ensures var r := ParseWire(Wire(Leaf(kind, item)).value);
      if Readable(kind, item) then r == Some(Leaf(kind, item))
      else r.None? || (r.value.Leaf? && r.value.item.key != item.key)
  {
  }
}
