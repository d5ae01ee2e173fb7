/** The value of a SHAMap tree: what the node objects of a map stand for. */
module Tree {
  import opened Bytes

  datatype Kind = AccountState | TransactionNoMeta | TransactionWithMeta

  datatype Item = Item(key: Key, data: bytes)

  /** Stub is a child known by its hash only; Nil is an empty branch. */
  datatype Tree =
    | Nil
    | Stub(h: Hash)
    | Leaf(kind: Kind, item: Item)
    | Inner(kids: seq<Tree>)

  /** Sixteen empty branches. */
  function NoKids(): (kids: seq<Tree>)
    ensures |kids| == BRANCH_FACTOR && forall i :: 0 <= i < BRANCH_FACTOR ==> kids[i] == Nil
  {
    seq(BRANCH_FACTOR, _ => Nil)
  }

  const PREFIX_INNER: bytes := [0x4D, 0x49, 0x4E, 0]
  const PREFIX_LEAF: bytes := [0x4D, 0x4C, 0x4E, 0]
  const PREFIX_TX_ID: bytes := [0x54, 0x58, 0x4E, 0]
  const PREFIX_TX_NODE: bytes := [0x53, 0x4E, 0x44, 0]

  function LeafPreimage(kind: Kind, item: Item): bytes {
    match kind
    case AccountState => PREFIX_LEAF + item.data + item.key
    case TransactionNoMeta => PREFIX_TX_ID + item.data
    case TransactionWithMeta => PREFIX_TX_NODE + item.data + item.key
  }

  function InnerPreimage(hs: seq<Hash>): bytes {
    PREFIX_INNER + Flatten(hs)
  }

  /** No branch is set. */
  predicate Bare(kids: seq<Tree>) {
    forall i :: 0 <= i < |kids| ==> kids[i].Nil?
  }

  function HashOf(t: Tree): Hash
    decreases t, 0
  {
    match t
    case Nil => ZERO
    case Stub(h) => h
    case Leaf(kind, item) => Sha512Half(LeafPreimage(kind, item))
    case Inner(kids) => if Bare(kids) then ZERO else Sha512Half(InnerPreimage(Hashes(kids)))
  }

  function Hashes(kids: seq<Tree>): (hs: seq<Hash>)
    ensures |hs| == |kids|
    ensures forall i :: 0 <= i < |kids| ==> hs[i] == HashOf(kids[i])
    decreases kids, 1
  {
    seq(|kids|, i requires 0 <= i < |kids| => HashOf(kids[i]))
  }

  /** Nothing is missing: no child is known by hash only. */
  predicate Whole(t: Tree) {
    match t
    case Stub(_) => false
    case Inner(kids) => forall i :: 0 <= i < |kids| ==> Whole(kids[i])
    case _ => true
  }
}
