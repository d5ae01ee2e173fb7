/** Node objects of a SHAMap and the tree value they stand for. */
module Nodes {
  import opened Bytes
  import opened Tree
  import opened Codec

  datatype NodeRef = NoNode | LeafRef(leaf: LeafNode) | InnerRef(inner: InnerNode)

  class LeafNode {
    const kind: Kind
    const item: Item
    const hash: Hash
    var dirty: bool

    /** Callers have checked the size of the data. */
    constructor (kind: Kind, item: Item, dirty: bool)
      requires |item.data| >= MIN_ITEM
      ensures this.kind == kind && this.item == item && this.dirty == dirty
      ensures hash == Sha512Half(LeafPreimage(kind, item))
    {
      this.kind, this.item, this.dirty := kind, item, dirty;
      this.hash := Sha512Half(LeafPreimage(kind, item));
    }
  }

  /** The hash a node reports. */
  function RefHash(r: NodeRef): Hash
    reads if r.InnerRef? then {r.inner} else {}
  {
    match r
    case NoNode => ZERO
    case LeafRef(leaf) => leaf.hash
    case InnerRef(inner) => inner.hash
  }

  predicate AllClear(bits: seq<bool>) {
    forall i :: 0 <= i < |bits| ==> !bits[i]
  }

  /** Number of branches in use. */
  function CountBits(bits: seq<bool>): nat {
    if bits == [] then 0 else (if bits[0] then 1 else 0) + CountBits(bits[1..])
  }

  lemma {:induction false} CountBitsFacts(bits: seq<bool>)
    ensures CountBits(bits) == 0 <==> AllClear(bits)
    ensures CountBits(bits) == 1 <==> exists i :: OnlySet(bits, i)
  {
    if bits != [] {
      CountBitsFacts(bits[1..]);
      assert AllClear(bits) <==> !bits[0] && AllClear(bits[1..]);
      if CountBits(bits) == 1 {
        if bits[0] {
          assert OnlySet(bits, 0);
        } else {
          var i :| OnlySet(bits[1..], i);
          assert OnlySet(bits, i + 1);
        }
      }
      if i :| OnlySet(bits, i) {
        if i == 0 {
          assert AllClear(bits[1..]);
        } else {
          assert OnlySet(bits[1..], i - 1);
        }
      }
    }
  }

  ghost predicate OnlySet(bits: seq<bool>, i: int) {
    0 <= i < |bits| && bits[i] && forall j :: 0 <= j < |bits| && j != i ==> !bits[j]
  }

  class InnerNode {
    var children: seq<NodeRef>
    var hashes: seq<Hash>
    var isBranch: seq<bool>
    var hash: Hash
    var dirty: bool

    ghost predicate Sized()
      reads this
    {
      |children| == |hashes| == |isBranch| == BRANCH_FACTOR
    }

    /** A new node without branches. */
    constructor ()
      ensures Sized() && dirty && hash == ZERO
      ensures forall i :: 0 <= i < BRANCH_FACTOR ==> children[i] == NoNode && hashes[i] == ZERO && !isBranch[i]
    {
      children := seq(BRANCH_FACTOR, _ => NoNode);
      hashes := seq(BRANCH_FACTOR, _ => ZERO);
      isBranch := seq(BRANCH_FACTOR, _ => false);
      hash, dirty := ZERO, true;
    }

    /** A dirty node with the given fields. */
    constructor Copy(children: seq<NodeRef>, hashes: seq<Hash>, isBranch: seq<bool>, hash: Hash)
      ensures this.children == children && this.hashes == hashes && this.isBranch == isBranch && this.hash == hash
      ensures dirty
    {
      this.children, this.hashes, this.isBranch, this.hash := children, hashes, isBranch, hash;
      dirty := true;
    }

    ghost function Below(): set<object>
      reads this
    {
      set i | 0 <= i < |children| && children[i].InnerRef? :: children[i].inner
    }

    /** What branch i contributes to the node's hash. */
    function SlotHash(i: nat): Hash
      requires Sized() && i < BRANCH_FACTOR
      reads this, Below()
    {
      if !isBranch[i] then ZERO
      else if children[i].NoNode? then hashes[i]
      else RefHash(children[i])
    }

    /** The contributions of the first n branches. */
    ghost function SlotHashes(n: nat): (hs: seq<Hash>)
      requires Sized() && n <= BRANCH_FACTOR
      reads this, Below()
      ensures |hs| == n
      ensures forall i :: 0 <= i < n ==> hs[i] == SlotHash(i)
    {
      if n == 0 then [] else SlotHashes(n - 1) + [SlotHash(n - 1)]
    }

    method UpdateHash()
      requires Sized()
      modifies this`hash
      ensures hash == if AllClear(isBranch) then ZERO else Sha512Half(InnerPreimage(old(SlotHashes(BRANCH_FACTOR))))
    {
      hide Flatten, RefHash;
      if AllClear(isBranch) {
        hash := ZERO;
        return;
      }
      var data := PREFIX_INNER;
      FlattenNone();
      for i := 0 to BRANCH_FACTOR
        modifies {}
        invariant data == PREFIX_INNER + Flatten(SlotHashes(i))
      {
        FlattenAppend(SlotHashes(i), SlotHash(i));
        assert SlotHashes(i + 1) == SlotHashes(i) + [SlotHash(i)];
        data := data + SlotHash(i);
      }
      assert data == InnerPreimage(SlotHashes(BRANCH_FACTOR));
      assert SlotHashes(BRANCH_FACTOR) == old(SlotHashes(BRANCH_FACTOR));
      hash := Sha512Half(data);
    }

    method SetChild(index: nat, child: NodeRef)
      requires Sized() && index < BRANCH_FACTOR
      requires child != InnerRef(this)
      requires forall i :: 0 <= i < BRANCH_FACTOR && i != index ==> children[i] != InnerRef(this)
      modifies this
      ensures Sized() && dirty
      ensures children == old(children)[index := child]
      ensures hashes == old(hashes)[index := RefHash(child)]
      ensures isBranch == old(isBranch)[index := !child.NoNode?]
      ensures hash == if AllClear(isBranch) then ZERO else Sha512Half(InnerPreimage(SlotHashes(BRANCH_FACTOR)))
    {
      children := children[index := child];
      if child.NoNode? {
        hashes := hashes[index := ZERO];
        isBranch := isBranch[index := false];
      } else {
        hashes := hashes[index := RefHash(child)];
        isBranch := isBranch[index := true];
      }
      dirty := true;
      assert this !in Below();
      ghost var hs := SlotHashes(BRANCH_FACTOR);
      UpdateHash();
      assert SlotHashes(BRANCH_FACTOR) == hs;
    }

    /** Attaches a loaded node; hash and dirty flag stay as they are. */
    method SetChildDirect(index: nat, child: NodeRef)
      requires Sized() && index < BRANCH_FACTOR
      modifies this`children
      ensures children == old(children)[index := child]
    {
      children := children[index := child];
    }
  }

  // ---------- parsing ----------

  /** A clean node object just read from bytes; the children are known by hash only. */
  ghost predicate Parsed(r: NodeRef, t: Tree)
    reads if r.LeafRef? then {r.leaf} else if r.InnerRef? then {r.inner} else {}
  {
    match t
    case Leaf(kind, item) =>
      && r.LeafRef? && r.leaf.kind == kind && r.leaf.item == item && |item.data| >= MIN_ITEM
      && r.leaf.hash == HashOf(t) && !r.leaf.dirty
    case Inner(kids) =>
      && r.InnerRef? && ByHash(r.inner, kids)
      && r.inner.hash == HashOf(t) && !r.inner.dirty
    case _ => false
  }

  ghost predicate ByHash(n: InnerNode, kids: seq<Tree>)
    reads n
  {
    && n.Sized() && |kids| == BRANCH_FACTOR
    && forall i :: 0 <= i < BRANCH_FACTOR ==>
         && n.children[i] == NoNode
         && n.hashes[i] == HashOf(kids[i])
         && n.isBranch[i] == !kids[i].Nil?
  }

  /** Completes a node whose branches are filled in. */
  method Seal(n: InnerNode, ghost kids: seq<Tree>)
    requires ByHash(n, kids)
    requires forall i :: 0 <= i < |kids| ==> kids[i].Nil? || kids[i].Stub?
    modifies n`hash, n`dirty
    ensures Parsed(InnerRef(n), Inner(kids))
  {
    assert n.SlotHashes(BRANCH_FACTOR) == Hashes(kids);
    assert AllClear(n.isBranch) <==> Bare(kids) by {
      forall i | 0 <= i < BRANCH_FACTOR ensures n.isBranch[i] == !kids[i].Nil? {
      }
    }
    n.UpdateHash();
    n.dirty := false;
  }

  /** Sixteen hashes in a row; an all-zero hash leaves the branch empty. */
  method ParseFullInner(nd: bytes) returns (n: InnerNode)
    requires |nd| == 512
    ensures fresh(n) && Parsed(InnerRef(n), Inner(FullKids(nd)))
  {
    n := new InnerNode();
    ghost var kids := FullKids(nd);
    for i := 0 to BRANCH_FACTOR
      invariant n.Sized()
      invariant forall j :: 0 <= j < BRANCH_FACTOR ==> n.children[j] == NoNode
      invariant forall j :: 0 <= j < BRANCH_FACTOR ==>
        n.hashes[j] == (if j < i then HashOf(kids[j]) else ZERO) && n.isBranch[j] == (j < i && !kids[j].Nil?)
    {
      var hash := nd[32 * i..32 * i + 32];
      if hash != ZERO {
        n.hashes := n.hashes[i := hash];
        n.isBranch := n.isBranch[i := true];
      }
    }
    Seal(n, kids);
  }

  /** One branch known by hash. */
  method SetStub(n: InnerNode, position: nat, hash: Hash, ghost kids: seq<Tree>)
    requires ByHash(n, kids) && position < BRANCH_FACTOR
    modifies n`hashes, n`isBranch
    ensures ByHash(n, kids[position := Stub(hash)])
  {
    n.hashes := n.hashes[position := hash];
    n.isBranch := n.isBranch[position := true];
  }

  /** Pairs of hash and position. The last pair for a position wins. */
  method ParseCompressedInner(nd: bytes) returns (ok: bool, n: InnerNode)
    requires |nd| % 33 == 0 && |nd| <= 33 * BRANCH_FACTOR
    ensures fresh(n)
    ensures ok == FillCompressed(nd, NoKids()).Some?
    ensures ok ==> Parsed(InnerRef(n), Inner(FillCompressed(nd, NoKids()).value))
  {
    hide FillCompressed, ByHash, Parsed, HashOf;
    n := new InnerNode();
    NewByHash(n);
    ghost var kids := NoKids();
    var i := 0;
    assert nd[0..] == nd;
    while i < |nd|
      invariant 0 <= i <= |nd| && (|nd| - i) % 33 == 0
      invariant ByHash(n, kids) && |kids| == BRANCH_FACTOR
      invariant forall j :: 0 <= j < BRANCH_FACTOR ==> kids[j].Nil? || kids[j].Stub?
      invariant FillCompressed(nd, NoKids()) == FillCompressed(nd[i..], kids)
    {
      var hash, position := nd[i..i + 32], nd[i + 32];
      FillStep(nd, i, kids);
      if position >= BRANCH_FACTOR {
        return false, n;
      }
      SetStub(n, position, hash, kids);
      kids := kids[position := Stub(hash)];
      i := i + 33;
    }
    FillDone(nd, kids);
    Seal(n, kids);
    ok := true;
  }

  lemma {:induction false} NewByHash(n: InnerNode)
    requires n.Sized() && forall i :: 0 <= i < BRANCH_FACTOR ==> n.children[i] == NoNode && n.hashes[i] == ZERO && !n.isBranch[i]
    ensures ByHash(n, NoKids())
  {
  }

  lemma {:induction false} FillDone(nd: bytes, kids: seq<Tree>)
    requires |kids| == BRANCH_FACTOR
    ensures FillCompressed(nd[|nd|..], kids) == Some(kids)
  {
  }

  lemma {:induction false} FillStep(nd: bytes, i: nat, kids: seq<Tree>)
    requires i + 33 <= |nd| && |kids| == BRANCH_FACTOR
    ensures FillCompressed(nd[i..], kids) ==
      if nd[i + 32] >= BRANCH_FACTOR then None else FillCompressed(nd[i + 33..], kids[nd[i + 32] := Stub(nd[i..i + 32])])
  {
    assert nd[i..][..32] == nd[i..i + 32] && nd[i..][32] == nd[i + 32] && nd[i..][33..] == nd[i + 33..];
  }

  /** The object is a clean leaf of that kind and item. */
  ghost predicate IsLeaf(node: NodeRef, kind: Kind, key: Key, data: bytes, hash: Hash)
    reads if node.LeafRef? then {node.leaf} else {}
  {
    node.LeafRef? && node.leaf.kind == kind && node.leaf.item == Item(key, data) && node.leaf.hash == hash && !node.leaf.dirty
  }

  method DeserializeFromPrefix(data: bytes) returns (node: NodeRef)
    ensures ParsePrefix(data).None? ==> node.NoNode?
    ensures ParsePrefix(data).Some? ==> Parsed(node, ParsePrefix(data).value)
    ensures node.LeafRef? ==> fresh(node.leaf)
    ensures node.InnerRef? ==> fresh(node.inner)
    ensures |data| >= 48 && data[..4] == [0x4D, 0x4C, 0x4E, 0x00] && data[|data| - 32..] != Zeros(32) ==>
      IsLeaf(node, AccountState, data[|data| - 32..], data[4..|data| - 32], Sha512Half(data))
    ensures |data| >= 16 && data[..4] == [0x54, 0x58, 0x4E, 0x00] ==> IsLeaf(node, TransactionNoMeta, Sha512Half(data), data[4..], Sha512Half(data))
    ensures |data| >= 48 && data[..4] == [0x53, 0x4E, 0x44, 0x00] ==>
      IsLeaf(node, TransactionWithMeta, data[|data| - 32..], data[4..|data| - 32], Sha512Half(data))
    ensures node.InnerRef? <==> |data| == 516 && data[..4] == [0x4D, 0x49, 0x4E, 0x00]
  {
    hide FullKids, HashOf;
    node := NoNode;
    if |data| < 4 {
      return;
    }
    if data[..4] == PREFIX_INNER {
      if |data| == 4 + BRANCH_FACTOR * 32 {
        var n := ParseFullInner(data[4..]);
        node := InnerRef(n);
      }
    } else if data[..4] == PREFIX_LEAF {
      if |data| >= 4 + 32 && data[|data| - 32..] != ZERO {
        Thirds(data);
        node := LoadLeaf(AccountState, data[|data| - 32..], data[4..|data| - 32]);
      }
    } else if data[..4] == PREFIX_TX_ID {
      if |data| > 4 {
        assert PREFIX_TX_ID + data[4..] == data;
        node := LoadLeaf(TransactionNoMeta, Sha512Half(PREFIX_TX_ID + data[4..]), data[4..]);
      }
    } else if data[..4] == PREFIX_TX_NODE {
      if |data| >= 4 + 32 {
        Thirds(data);
        node := LoadLeaf(TransactionWithMeta, data[|data| - 32..], data[4..|data| - 32]);
      }
    }
  }

  method DeserializeNodeFromWire(data: bytes) returns (node: NodeRef)
    ensures ParseWire(data).None? ==> node.NoNode?
    ensures ParseWire(data).Some? ==> Parsed(node, ParseWire(data).value)
    ensures node.LeafRef? ==> fresh(node.leaf)
    ensures node.InnerRef? ==> fresh(node.inner)
    ensures |data| > 0 ==> var n := |data| - 1; var nd := data[..n];
      && (data[n] == 0x01 && n >= 44 && nd[n - 32..] != Zeros(32) ==>
           IsLeaf(node, AccountState, nd[n - 32..], nd[..n - 32], Sha512Half([0x4D, 0x4C, 0x4E, 0x00] + nd)))
      && (data[n] == 0x00 && n >= 12 ==>
           var hash := Sha512Half([0x54, 0x58, 0x4E, 0x00] + nd); IsLeaf(node, TransactionNoMeta, hash, nd, hash))
      && (data[n] == 0x04 && n >= 44 ==>
           IsLeaf(node, TransactionWithMeta, nd[n - 32..], nd[..n - 32], Sha512Half([0x53, 0x4E, 0x44, 0x00] + nd)))
      && (node.InnerRef? ==> data[n] == 0x02 || data[n] == 0x03)
  {
    hide FillCompressed, FullKids;
    node := NoNode;
    if |data| == 0 {
      return;
    }
    var wireType, nd := data[|data| - 1], data[..|data| - 1];
    if wireType == WIRE_INNER {
      if |nd| == 512 {
        var n := ParseFullInner(nd);
        node := InnerRef(n);
      }
    } else if wireType == WIRE_COMPRESSED {
      if |nd| % 33 == 0 && |nd| <= 33 * BRANCH_FACTOR {
        var ok, n := ParseCompressedInner(nd);
        if ok {
          node := InnerRef(n);
        }
      }
    } else if wireType == WIRE_ACCOUNT_STATE {
      if |nd| >= 32 { Halves(nd, PREFIX_LEAF); }
      if |nd| >= 32 && nd[|nd| - 32..] != ZERO {
        node := LoadLeaf(AccountState, nd[|nd| - 32..], nd[..|nd| - 32]);
      }
    } else if wireType == WIRE_TX {
      node := LoadLeaf(TransactionNoMeta, Sha512Half(PREFIX_TX_ID + nd), nd);
    } else if wireType == WIRE_TX_META {
      if |nd| >= 32 {
        Halves(nd, PREFIX_TX_NODE);
        node := LoadLeaf(TransactionWithMeta, nd[|nd| - 32..], nd[..|nd| - 32]);
      }
    }
  }

  lemma {:induction false} Thirds(data: bytes)
    requires |data| >= 36
    ensures data[..4] + data[4..|data| - 32] + data[|data| - 32..] == data
  {
  }

  lemma {:induction false} Halves(nd: bytes, prefix: bytes)
    requires |nd| >= 32
    ensures prefix + nd[..|nd| - 32] + nd[|nd| - 32..] == prefix + nd
  {
  }

  /** A clean leaf; data shorter than the minimum is refused. */
  method LoadLeaf(kind: Kind, key: Key, data: bytes) returns (node: NodeRef)
    ensures |data| >= 12 ==> IsLeaf(node, kind, key, data, Sha512Half(LeafPreimage(kind, Item(key, data))))
    ensures MakeLeaf(kind, key, data).None? ==> node.NoNode?
    ensures MakeLeaf(kind, key, data).Some? ==> Parsed(node, MakeLeaf(kind, key, data).value)
    ensures node.LeafRef? ==> fresh(node.leaf)
    ensures !node.InnerRef?
  {
    if |data| < MIN_ITEM {
      return NoNode;
    }
    var leaf := new LeafNode(kind, Item(key, data), false);
    node := LeafRef(leaf);
  }

  // ---------- serializing ----------

  /** Hashes and branch bits of the node are those of the given children. */
  ghost predicate Reflects(n: InnerNode, ts: seq<Tree>)
    reads n
  {
    && n.Sized() && |ts| == BRANCH_FACTOR
    && forall i :: 0 <= i < BRANCH_FACTOR ==> n.hashes[i] == HashOf(ts[i]) && n.isBranch[i] == !ts[i].Nil?
  }

  lemma {:induction false} CountIsBranchCount(bits: seq<bool>, ts: seq<Tree>)
    requires |bits| == |ts| && forall i :: 0 <= i < |bits| ==> bits[i] == !ts[i].Nil?
    ensures CountBits(bits) == BranchCount(ts) && (AllClear(bits) <==> Bare(ts))
  {
    if bits != [] {
      CountIsBranchCount(bits[1..], ts[1..]);
      assert AllClear(bits) <==> !bits[0] && AllClear(bits[1..]);
      assert Bare(ts) <==> ts[0].Nil? && Bare(ts[1..]);
    }
  }

  /** Compressed below twelve branches, full otherwise; a node without branches has no wire form. */
  method SerializeForWire(n: InnerNode, ghost ts: seq<Tree>) returns (r: Option<bytes>)
    requires Reflects(n, ts)
    ensures r == Wire(Inner(ts))
  {
    CountIsBranchCount(n.isBranch, ts);
    if AllClear(n.isBranch) {
      return None;
    }
    if CountBits(n.isBranch) < 12 {
      var e := SerializeEntries(n, ts);
      r := Some(e + [WIRE_COMPRESSED]);
    } else {
      var f := SerializeFull(n, ts);
      r := Some(f + [WIRE_INNER]);
    }
  }

  method SerializeEntries(n: InnerNode, ghost ts: seq<Tree>) returns (r: bytes)
    requires Reflects(n, ts)
    ensures r == Entries(ts, 0)
  {
    r := [];
    for i := 0 to BRANCH_FACTOR
      invariant r + Entries(ts, i) == Entries(ts, 0)
    {
      ghost var rest := Entries(ts, i + 1);
      if n.isBranch[i] {
        assert r + Entries(ts, i) == (r + (n.hashes[i] + [i])) + rest;
        r := r + (n.hashes[i] + [i]);
      } else {
        assert Entries(ts, i) == rest;
      }
    }
    assert r + [] == r;
  }

  method SerializeFull(n: InnerNode, ghost ts: seq<Tree>) returns (r: bytes)
    requires Reflects(n, ts)
    ensures r == Flatten(Hashes(ts))
  {
    r := [];
    for i := 0 to BRANCH_FACTOR
      invariant r == Flatten(Hashes(ts)[..i])
    {
      FlattenAppend(Hashes(ts)[..i], Hashes(ts)[i]);
      assert Hashes(ts)[..i] + [Hashes(ts)[i]] == Hashes(ts)[..i + 1];
      r := r + if n.isBranch[i] then n.hashes[i] else ZERO;
    }
    assert Hashes(ts)[..BRANCH_FACTOR] == Hashes(ts);
  }

  /** Prefix and all sixteen hashes. */
  method SerializeWithPrefix(n: InnerNode, ghost ts: seq<Tree>) returns (r: Option<bytes>)
    requires Reflects(n, ts)
    ensures r == if Bare(ts) then None else Some(InnerPreimage(Hashes(ts)))
  {
    CountIsBranchCount(n.isBranch, ts);
    if AllClear(n.isBranch) {
      return None;
    }
    var f := SerializeFull(n, ts);
    r := Some(PREFIX_INNER + f);
  }

  method SerializeLeafForWire(l: LeafNode) returns (r: bytes)
    ensures Some(r) == Wire(Leaf(l.kind, l.item))
  {
    match l.kind
    case AccountState => r := l.item.data + l.item.key + [WIRE_ACCOUNT_STATE];
    case TransactionNoMeta => r := l.item.data + [WIRE_TX];
    case TransactionWithMeta => r := l.item.data + l.item.key + [WIRE_TX_META];
  }
}
