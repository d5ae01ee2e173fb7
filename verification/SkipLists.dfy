/** The lists of earlier ledger hashes that every ledger keeps in its state map. */
module SkipLists {
  import opened Bytes
  import opened Tree
  import opened Codec
  import opened Storage
  import opened Shapes
  import opened Canonical
  import opened Walking
  import opened Merkle
  import opened Flushing
  import opened ShaMap
  import opened Histories

  const UINT32_LIMIT := 0x1_0000_0000
  const ROLLING_SIZE := 256

  type uint32 = n: int | 0 <= n < UINT32_LIMIT

  // ---------- keys and entries ----------

  /** Groups of 65536 ledgers. */
  type Group = g: int | 0 <= g < 65536

  const SKIP_SPACE: bytes := [0, 0x73]

  function HistoryInput(g: Group): bytes {
    SKIP_SPACE + [0, 0, g / 256, g % 256]
  }

  function RollingKey(): Key {
    Sha512Half(SKIP_SPACE)
  }

  /** The key of the historical list of a group. */
  function HistoryKey(g: Group): Key {
    Sha512Half(HistoryInput(g))
  }

  function GroupOf(prev: uint32): Group {
    prev / 65536
  }

  /** The bytes behind the keys: the space, and for a historical list the upper half of the sequence in four bytes, the high one first. */
  lemma {:induction false} KeyBytes(prev: uint32)
    ensures RollingKey() == Sha512Half([0x00, 0x73])
    ensures HistoryKey(GroupOf(prev)) == Sha512Half([0x00, 0x73, 0x00, 0x00, prev / 0x100_0000, prev / 0x1_0000 % 0x100])
  {
    assert GroupOf(prev) / 256 == prev / 0x100_0000 && GroupOf(prev) % 256 == prev / 0x1_0000 % 0x100;
    assert HistoryInput(GroupOf(prev)) == [0x00, 0x73, 0x00, 0x00, prev / 0x100_0000, prev / 0x1_0000 % 0x100];
  }

  ghost predicate ListKey(k: Key) {
    k == RollingKey() || exists g: Group :: k == HistoryKey(g)
  }

  ghost function SkipInputs(): set<bytes> {
    {SKIP_SPACE} + set g: int | 0 <= g < 65536 :: HistoryInput(g)
  }

  /** Without a collision among the inputs, every list has a key of its own. */
  lemma {:induction false} KeysApart()
    requires CollisionFree(SkipInputs())
    ensures forall g: Group :: HistoryKey(g) != RollingKey()
    ensures forall g: Group, h: Group :: HistoryKey(g) == HistoryKey(h) ==> g == h
  {
    forall g: Group ensures HistoryInput(g) in SkipInputs() {
      assert 0 <= g < 65536;
    }
    forall g: Group, h: Group | HistoryKey(g) == HistoryKey(h) ensures g == h {
      assert HistoryInput(g) == HistoryInput(h);
      assert HistoryInput(g)[4] == HistoryInput(h)[4] && HistoryInput(g)[5] == HistoryInput(h)[5];
    }
    forall g: Group ensures HistoryKey(g) != RollingKey() {
      assert |HistoryInput(g)| != |SKIP_SPACE|;
    }
  }

  /** The stored form of a list and of the last sequence in it. */
  const EncodeHashes: (seq<Hash>, uint32) -> bytes
  const DecodeHashes: bytes -> Option<seq<Hash>>

  /** Entries of up to 256 hashes read back as written, and are large enough to be stored. */
  ghost predicate EntriesReadBack() {
    forall hs: seq<Hash>, n: uint32 :: |hs| <= ROLLING_SIZE ==>
      DecodeHashes(EncodeHashes(hs, n)) == Some(hs) && |EncodeHashes(hs, n)| >= MIN_ITEM
  }

  /** The list under a key; none yet is the empty list. */
  ghost function ListAt(m: Contents, k: Key): Option<seq<Hash>> {
    if k in m then DecodeHashes(m[k]) else Some([])
  }

  method ReadSkipList(sm: SHAMap, key: Key) returns (ok: bool, r: Option<seq<Hash>>)
    requires sm.Valid()
    modifies sm`shape, Foot(sm.shape)
    ensures sm.Valid() && sm.contents == old(sm.contents) && sm.state == old(sm.state) && sm.family == old(sm.family)
    ensures if ok then r == ListAt(sm.contents, key) else MayFail(sm.family)
    ensures forall o :: o in Foot(sm.shape) ==> o in old(Foot(sm.shape)) || fresh(o)
  {
    hide SHAMap.Valid, SHAMap.Answering, Foot;
    ValidAnswers(sm);
    var item;
    ok, item := sm.Get(key);
    r := if item.None? then Some([]) else DecodeHashes(item.value.data);
  }

  method WriteSkipList(sm: SHAMap, key: Key, hashes: seq<Hash>, lastSeq: uint32) returns (ok: bool)
    requires sm.Valid()
    modifies sm`root, sm`shape, sm`contents, Foot(sm.shape)
    ensures sm.Valid() && sm.state == old(sm.state) && sm.family == old(sm.family)
    ensures var large := |EncodeHashes(hashes, lastSeq)| >= MIN_ITEM;
      if ok then sm.state == Modifying && large else MayFail(sm.family) || sm.state != Modifying || !large
    ensures sm.contents == if ok then old(sm.contents)[key := EncodeHashes(hashes, lastSeq)] else old(sm.contents)
    ensures forall o :: o in Foot(sm.shape) ==> o in old(Foot(sm.shape)) || fresh(o)
  {
    hide SHAMap.Valid, Foot;
    var r := sm.Put(key, EncodeHashes(hashes, lastSeq));
    ok := r == Ok;
  }

  /** The newest entries that fit, and one more. */
  function Rolled(hs: seq<Hash>, h: Hash): seq<Hash> {
    (if |hs| >= ROLLING_SIZE then hs[1..] else hs) + [h]
  }

  /** A list written, unless the entry is too small. */
  ghost function Listed(m: Contents, key: Key, hs: seq<Hash>, prev: uint32): Option<Contents> {
    if |EncodeHashes(hs, prev)| >= MIN_ITEM then Some(m[key := EncodeHashes(hs, prev)]) else None
  }

  /** The historical list extended, every 256th ledger. */
  ghost function Noted(m: Contents, prev: uint32, parentHash: Hash): Option<Contents> {
    var key := HistoryKey(GroupOf(prev));
    if prev % 256 != 0 then Some(m)
    else if ListAt(m, key).None? then None
    else Listed(m, key, ListAt(m, key).value + [parentHash], prev)
  }

  /** What recording ledger prev makes of the state map, unless a list does not decode or cannot be stored. */
  ghost function Updated(m: Contents, prev: uint32, parentHash: Hash): Option<Contents> {
    if prev == 0 then Some(m)
    else
      var m1 := Noted(m, prev, parentHash);
      if m1.None? || ListAt(m1.value, RollingKey()).None? then None
      else Listed(m1.value, RollingKey(), Rolled(ListAt(m1.value, RollingKey()).value, parentHash), prev)
  }

  /** The sequence before, in 32 bits. */
  function PrevOf(ledgerSeq: uint32): uint32 {
    (ledgerSeq + UINT32_LIMIT - 1) % UINT32_LIMIT
  }

  /** How recording ledger prev ends: with the contents updated, or why not and then with the historical list written at most. */
  ghost predicate Closing(m: Contents, prev: uint32, parentHash: Hash, state: State, mayFail: bool, ok: bool, m': Contents) {
    if ok then (prev == 0 || state == Modifying) && Updated(m, prev, parentHash) == Some(m')
    else
      && prev != 0 && (mayFail || state != Modifying || Updated(m, prev, parentHash).None?)
      && (m' == m || (state == Modifying && Noted(m, prev, parentHash) == Some(m')))
  }

  /** Records the parent's hash at the close of a ledger. A failure may leave the historical list extended. */
  method UpdateSkipListOnMap(sm: SHAMap, ledgerSeq: uint32, parentHash: Hash) returns (ok: bool)
    requires sm.Valid()
    modifies sm`root, sm`shape, sm`contents, Foot(sm.shape)
    ensures sm.Valid() && sm.state == old(sm.state) && sm.family == old(sm.family)
    ensures Closing(old(sm.contents), PrevOf(ledgerSeq), parentHash, sm.state, MayFail(sm.family), ok, sm.contents)
    ensures forall o :: o in Foot(sm.shape) ==> o in old(Foot(sm.shape)) || fresh(o)
  {
    hide SHAMap.Valid, Foot, ListAt;
    var prevIndex := PrevOf(ledgerSeq);
    if prevIndex == 0 {
      return true;
    }
    if prevIndex % 256 == 0 {
      var histKey := HistoryKey(GroupOf(prevIndex));
      var read, hashes := ReadSkipList(sm, histKey);
      if !read || hashes.None? {
        return false;
      }
      var written := WriteSkipList(sm, histKey, hashes.value + [parentHash], prevIndex);
      if !written {
        return false;
      }
    }
    var read, hashes := ReadSkipList(sm, RollingKey());
    if !read || hashes.None? {
      return false;
    }
    var list := hashes.value;
    if |list| >= ROLLING_SIZE {
      list := list[1..];
    }
    ok := WriteSkipList(sm, RollingKey(), list + [parentHash], prevIndex);
  }

  /** The entry under a key is the stored form of a list and its last sequence. */
  ghost predicate Holding(m: Contents, k: Key, hs: seq<Hash>, last: uint32) {
    k in m && m[k] == EncodeHashes(hs, last)
  }

  ghost predicate SameAt(m: Contents, m': Contents, k: Key) {
    (k in m <==> k in m') && (k in m ==> m'[k] == m[k])
  }

  /** The effect of recording ledger prev: on the rolling list, on the list of its group, and on nothing else. */
  ghost predicate Recorded(m: Contents, m': Contents, prev: uint32, parentHash: Hash) {
    && (if prev == 0 then ListAt(m', RollingKey()) == ListAt(m, RollingKey())
        else ListAt(m, RollingKey()).Some? && var list := Rolled(ListAt(m, RollingKey()).value, parentHash);
          ListAt(m', RollingKey()) == Some(list) && Holding(m', RollingKey(), list, prev))
    && (forall g: Group :: if prev != 0 && prev % 256 == 0 && g == GroupOf(prev)
          then ListAt(m, HistoryKey(g)).Some? && var list := ListAt(m, HistoryKey(g)).value + [parentHash];
            ListAt(m', HistoryKey(g)) == Some(list) && Holding(m', HistoryKey(g), list, prev)
          else ListAt(m', HistoryKey(g)) == ListAt(m, HistoryKey(g)) && SameAt(m, m', HistoryKey(g)))
    && (forall k :: (prev == 0 || k != RollingKey()) && (prev == 0 || prev % 256 != 0 || k != HistoryKey(GroupOf(prev))) ==>
          SameAt(m, m', k))
  }

  /** There is room for one more entry in the lists that ledger prev goes to. */
  ghost predicate HasRoom(m: Contents, prev: uint32) {
    && ListAt(m, RollingKey()).Some? && |ListAt(m, RollingKey()).value| <= ROLLING_SIZE
    && (prev % 256 == 0 ==> var l := ListAt(m, HistoryKey(GroupOf(prev))); l.Some? && |l.value| < ROLLING_SIZE)
  }

  lemma {:induction false} UpdatedRecords(m: Contents, prev: uint32, parentHash: Hash)
    requires EntriesReadBack() && CollisionFree(SkipInputs()) && HasRoom(m, prev)
    ensures var r := Updated(m, prev, parentHash); r.Some? && Recorded(m, r.value, prev, parentHash)
  {
    KeysApart();
    hide RollingKey, HistoryKey, CollisionFree, EntriesReadBack, Rolled, Listed, Recorded, ListSet;
    if prev != 0 {
      var m1 := Noted(m, prev, parentHash).value;
      if prev % 256 == 0 {
        var key := HistoryKey(GroupOf(prev));
        ListWritten(m, key, ListAt(m, key).value + [parentHash], prev);
        OtherList(m, m1, key, ListAt(m, key).value + [parentHash], prev, RollingKey());
      }
      var list := ListAt(m, RollingKey()).value;
      RolledSize(list, parentHash);
      ListWritten(m1, RollingKey(), Rolled(list, parentHash), prev);
      BothWritten(m, m1, Updated(m, prev, parentHash).value, prev, parentHash);
    } else {
      NoneWritten(m, parentHash);
    }
  }

  /** One list is written, and nothing else. */
  ghost predicate ListSet(m: Contents, m': Contents, key: Key, hs: seq<Hash>, prev: uint32) {
    && Holding(m', key, hs, prev) && ListAt(m', key) == Some(hs)
    && forall k :: k != key ==> SameAt(m, m', k) && ListAt(m', k) == ListAt(m, k)
  }

  lemma {:induction false} OtherList(m: Contents, m': Contents, key: Key, hs: seq<Hash>, prev: uint32, k: Key)
    requires ListSet(m, m', key, hs, prev) && k != key
    ensures ListAt(m', k) == ListAt(m, k)
  {
  }

  lemma {:induction false} NoneWritten(m: Contents, parentHash: Hash)
    ensures Recorded(m, m, 0, parentHash)
  {
  }

  lemma {:induction false} BothWritten(m: Contents, m1: Contents, m': Contents, prev: uint32, parentHash: Hash)
    requires prev != 0 && ListAt(m, RollingKey()).Some? && forall g: Group :: HistoryKey(g) != RollingKey()
    requires forall g: Group, g': Group :: HistoryKey(g) == HistoryKey(g') ==> g == g'
    requires var key := HistoryKey(GroupOf(prev)); if prev % 256 == 0
      then ListAt(m, key).Some? && ListSet(m, m1, key, ListAt(m, key).value + [parentHash], prev) else m1 == m
    requires ListSet(m1, m', RollingKey(), Rolled(ListAt(m, RollingKey()).value, parentHash), prev)
    ensures Recorded(m, m', prev, parentHash)
  {
    hide RollingKey, HistoryKey, Rolled, ListAt;
    forall k | k != RollingKey() && (prev % 256 != 0 || k != HistoryKey(GroupOf(prev)))
      ensures SameAt(m, m', k) && ListAt(m', k) == ListAt(m, k)
    {
      assert SameAt(m1, m', k) && SameAt(m, m1, k);
    }
    assert SameAt(m1, m', HistoryKey(GroupOf(prev)));
    forall g: Group | prev % 256 != 0 || g != GroupOf(prev)
      ensures SameAt(m, m', HistoryKey(g)) && ListAt(m', HistoryKey(g)) == ListAt(m, HistoryKey(g))
    {
      assert HistoryKey(g) != RollingKey();
    }
  }

  lemma {:induction false} RolledSize(hs: seq<Hash>, h: Hash)
    requires |hs| <= ROLLING_SIZE
    ensures |Rolled(hs, h)| <= ROLLING_SIZE
  {
  }

  lemma {:induction false} ListWritten(m: Contents, key: Key, hs: seq<Hash>, prev: uint32)
    requires EntriesReadBack() && |hs| <= ROLLING_SIZE
    ensures var r := Listed(m, key, hs, prev); r.Some? && ListSet(m, r.value, key, hs, prev)
  {
  }

  // ---------- a whole chain ----------

  /** The hashes of the last 256 ledgers, or of all if there are fewer. hs[i] is the hash of ledger i + 1. */
  function Newest(hs: seq<Hash>): seq<Hash> {
    if |hs| <= 256 then hs else hs[|hs| - 256..]
  }

  /** The hashes of the ledgers of group g whose sequence is a multiple of 256, oldest first. */
  function Every256th(hs: seq<Hash>, g: nat): seq<Hash> {
    if hs == [] then []
    else
      var n := |hs|;
      Every256th(hs[..n - 1], g) + if n % 256 == 0 && n / 65536 == g then [hs[n - 1]] else []
  }

  /** The last ledger up to n that is in the list of group g. */
  ghost function LastOf(n: nat, g: nat): (last: nat)
    requires CountOf(n, g) > 0
    ensures last <= n
  {
    FirstOf(g) + 256 * (CountOf(n, g) - 1)
  }

  /** The state map after the close of ledger |hs| + 1: the lists, and the entries byte for byte. */
  ghost predicate Chained(m: Contents, hs: seq<Hash>) {
    && |hs| < UINT32_LIMIT
    && ListAt(m, RollingKey()) == Some(Newest(hs)) && (hs != [] ==> Holding(m, RollingKey(), Newest(hs), |hs|))
    && forall g: Group :: HistoryIs(m, hs, g)
  }

  ghost predicate HistoryIs(m: Contents, hs: seq<Hash>, g: Group)
    requires |hs| < UINT32_LIMIT
  {
    && ListAt(m, HistoryKey(g)) == Some(Every256th(hs, g))
    && (CountOf(|hs|, g) > 0 ==> Holding(m, HistoryKey(g), Every256th(hs, g), LastOf(|hs|, g)))
  }

  lemma {:induction false} ChainStep(m: Contents, m': Contents, hs: seq<Hash>, h: Hash)
    requires |hs| + 1 < UINT32_LIMIT && Chained(m, hs) && Recorded(m, m', |hs| + 1, h)
    ensures Chained(m', hs + [h])
  {
    hide Newest, Every256th, Rolled, ListAt, Holding, FirstOf, CountOf;
    RollStep(hs, h);
    forall g: Group ensures HistoryIs(m', hs + [h], g) {
      assert HistoryIs(m, hs, g);
      NoteStep(hs, h, g);
      CountStep(|hs| + 1, g);
      SameHolding(m, m', HistoryKey(g));
    }
  }

  lemma {:induction false} SameHolding(m: Contents, m': Contents, k: Key)
    ensures SameAt(m, m', k) ==> forall hs, last :: Holding(m, k, hs, last) ==> Holding(m', k, hs, last)
  {
  }

  lemma {:induction false} RollStep(hs: seq<Hash>, h: Hash)
    ensures Newest(hs + [h]) == Rolled(Newest(hs), h)
  {
    if |hs| >= ROLLING_SIZE {
      var k := |hs| - ROLLING_SIZE;
      assert Newest(hs) == hs[k..];
      assert hs[k..][1..] == hs[k + 1..];
      assert (hs + [h])[k + 1..] == hs[k + 1..] + [h];
    }
  }

  lemma {:induction false} NoteStep(hs: seq<Hash>, h: Hash, g: nat)
    ensures var n := |hs| + 1; var before := Every256th(hs, g);
      Every256th(hs + [h], g) == if n % 256 == 0 && n / 65536 == g then before + [h] else before
  {
    assert (hs + [h])[..|hs|] == hs;
  }

  /** The lists of a chain always have room. */
  lemma {:induction false} ChainRoom(m: Contents, hs: seq<Hash>)
    requires |hs| + 1 < UINT32_LIMIT && Chained(m, hs)
    ensures HasRoom(m, |hs| + 1)
  {
    var n := |hs| + 1;
    if n % 256 == 0 {
      assert HistoryIs(m, hs, GroupOf(n));
      Every256thAt(hs, GroupOf(n));
      CountStep(n, GroupOf(n));
      CountBelow(n, GroupOf(n));
    }
  }

  /** Where the ledgers of a group start that are recorded. */
  function FirstOf(g: nat): (n: nat)
    ensures n > 0
  {
    if g == 0 then 256 else 65536 * g
  }

  /** How many of them there are up to ledger n. */
  function CountOf(n: nat, g: nat): nat {
    if n < FirstOf(g) then 0
    else if n >= 65536 * (g + 1) then (if g == 0 then 255 else 256)
    else (n - FirstOf(g)) / 256 + 1
  }

  /** The historical list in closed form: entry k is the hash of the k-th multiple of 256 in the group. */
  lemma {:induction false} Every256thAt(hs: seq<Hash>, g: nat)
    ensures |Every256th(hs, g)| == CountOf(|hs|, g)
    ensures forall k :: 0 <= k < CountOf(|hs|, g) ==> FirstOf(g) + 256 * k <= |hs| && Every256th(hs, g)[k] == hs[FirstOf(g) + 256 * k - 1]
  {
    hide FirstOf, CountOf;
    if hs == [] {
      CountNone(g);
    } else {
      var n := |hs|;
      var before, now := Every256th(hs[..n - 1], g), Every256th(hs, g);
      Every256thAt(hs[..n - 1], g);
      CountStep(n, g);
      forall k | 0 <= k < CountOf(n, g) ensures now[k] == hs[FirstOf(g) + 256 * k - 1] {
        if k < |before| {
          assert now[k] == before[k];
        }
      }
    }
  }

  lemma {:induction false} CountNone(g: nat)
    ensures CountOf(0, g) == 0
  {
  }

  lemma {:induction false} CountStep(n: nat, g: nat)
    requires n > 0
    ensures CountOf(n, g) == CountOf(n - 1, g) + if n % 256 == 0 && n / 65536 == g then 1 else 0
    ensures n % 256 == 0 && n / 65536 == g ==> n == FirstOf(g) + 256 * CountOf(n - 1, g)
    ensures forall k :: 0 <= k < CountOf(n, g) ==> FirstOf(g) + 256 * k <= n
  {
  }

  lemma {:induction false} CountBelow(n: nat, g: nat)
    ensures CountOf(n, g) <= ROLLING_SIZE
  {
  }

  /** Operations that leave the entries of the lists alone. */
  ghost predicate Unrelated(ops: seq<Op>) {
    forall op :: op in ops ==> !ListKey(op.key)
  }

  lemma {:induction false} RunKeepsLists(m: Contents, ops: seq<Op>, hs: seq<Hash>)
    requires Chained(m, hs) && Unrelated(ops)
    ensures Chained(Replayed(m, ops), hs)
  {
    hide Every256th, Newest, CountOf, LastOf;
    if ops != [] {
      var mid := Replayed(m, ops[..|ops| - 1]);
      RunKeepsLists(m, ops[..|ops| - 1], hs);
      assert ops[|ops| - 1] in ops;
      forall g: Group ensures HistoryIs(Replayed(m, ops), hs, g) {
        assert HistoryIs(mid, hs, g) && ListKey(HistoryKey(g));
      }
    }
  }

  /** The two maps differ at most in the lists. */
  ghost predicate AgreeElsewhere(m: Contents, m': Contents) {
    forall k :: !ListKey(k) ==> (k in m <==> k in m') && (k in m ==> m'[k] == m[k])
  }

  lemma {:induction false} ReplayElsewhere(m: Contents, m': Contents, ops: seq<Op>)
    requires AgreeElsewhere(m, m')
    ensures AgreeElsewhere(Replayed(m, ops), Replayed(m', ops))
  {
    if ops != [] {
      ReplayElsewhere(m, m', ops[..|ops| - 1]);
    }
  }

  lemma {:induction false} ReplayConcat(m: Contents, xs: seq<Op>, ys: seq<Op>)
    ensures Replayed(m, xs + ys) == Replayed(Replayed(m, xs), ys)
  {
    if ys == [] {
      assert xs + ys == xs;
    } else {
      ReplayConcat(m, xs, ys[..|ys| - 1]);
      assert (xs + ys)[..|xs + ys| - 1] == xs + ys[..|ys| - 1];
    }
  }

  /** Maps that cannot be snapshotted, or may meet a node that cannot be loaded. */
  ghost predicate Refused(sm: SHAMap)
    reads sm
  {
    MayFail(sm.family) || sm.state == Invalid || (sm.family != null && sm.contents == map[])
  }

  /** From the close of one ledger to the close of the next: a snapshot, the ledger's operations, the lists. */
  method NextLedger(parent: SHAMap, ops: seq<Op>, parentSeq: uint32, parentHash: Hash, ghost ps: set<bytes>) returns (child: Option<SHAMap>)
    requires parent.Valid() && (parent.family != null ==> parent.CanSave(TrustOf(parent.family), ps))
    modifies parent`shape, Foot(parent.shape), parent.family
    ensures parent.Valid() && parent.contents == old(parent.contents) && parent.root.hash == old(parent.root.hash)
    ensures parent.state == old(parent.state) && parent.family == old(parent.family)
    ensures child.None? ==> Refused(parent) || Updated(Replayed(parent.contents, ops), parentSeq, parentHash).None?
    ensures child.Some? ==> Updated(Replayed(parent.contents, ops), parentSeq, parentHash) == Some(child.value.contents)
    ensures child.Some? ==> child.value.Valid() && child.value.state == Immutable
    ensures child.Some? ==> child.value.family == parent.family && child.value.mapType == parent.mapType
    ensures child.Some? ==> fresh(child.value) && fresh(Foot(child.value.shape))
    ensures parent.family != null ==> parent.CanSave(TrustOf(parent.family), ps)
  {
    hide SHAMap.Valid, SHAMap.ValidIn, SHAMap.CanSave, Foot, HashOf, CanonRoot, Updated, EnvAs;
    FootAllocated(parent.shape);
    AsSaid(parent, parent.family);
    var snapshot := parent.Snapshot(true, TrustOf(parent.family), ps);
    AsSaid(parent, parent.family);
    if snapshot.None? {
      return None;
    }
    AsSaid(snapshot.value, parent.family);
    var sm := snapshot.value;
    FootAllocated(sm.shape);
    FootAllocated(parent.shape);
    var done := Run(sm, ops);
    if false in done {
      return None;
    }
    AllTaken(ops, done);
    var ok := UpdateSkipListOnMap(sm, (parentSeq + 1) % UINT32_LIMIT, parentHash);
    if !ok {
      return None;
    }
    FootAllocated(sm.shape);
    ok := sm.SetImmutable();
    child := Some(sm);
  }

  /** The state map after closing ledgers 2 to |hs| + 1. hs[i] is the hash of ledger i + 1. */
  ghost function ChainAt(m: Contents, hs: seq<Hash>, work: seq<seq<Op>>): Option<Contents>
    requires |work| == |hs| < UINT32_LIMIT
  {
    if hs == [] then Some(m)
    else
      var n := |hs|;
      var before := ChainAt(m, hs[..n - 1], work[..n - 1]);
      if before.None? then None else Updated(Replayed(before.value, work[n - 1]), n, hs[n - 1])
  }

  function AllWork(work: seq<seq<Op>>): seq<Op> {
    if work == [] then [] else AllWork(work[..|work| - 1]) + work[|work| - 1]
  }

  /** A first ledger without lists, and work that leaves the lists alone. */
  ghost predicate Recordable(m: Contents, work: seq<seq<Op>>) {
    && EntriesReadBack() && CollisionFree(SkipInputs()) && Chained(m, [])
    && forall i :: 0 <= i < |work| ==> Unrelated(work[i])
  }

  /** Over a whole chain the lists are exact, and every other entry is that of the work replayed. */
  lemma {:induction false} ChainRecords(m: Contents, hs: seq<Hash>, work: seq<seq<Op>>)
    requires |work| == |hs| < UINT32_LIMIT && Recordable(m, work)
    ensures var r := ChainAt(m, hs, work); r.Some? && Chained(r.value, hs) && AgreeElsewhere(Replayed(m, AllWork(work)), r.value)
  {
    hide Chained, Updated, AgreeElsewhere, EntriesReadBack, CollisionFree, Unrelated;
    if hs == [] {
      SameElsewhere(m);
    } else {
      var n := |hs|;
      ChainRecords(m, hs[..n - 1], work[..n - 1]);
      var before := ChainAt(m, hs[..n - 1], work[..n - 1]).value;
      ReplayConcat(m, AllWork(work[..n - 1]), work[n - 1]);
      OneLedger(Replayed(m, AllWork(work[..n - 1])), before, hs[..n - 1], hs[n - 1], work[n - 1]);
      assert hs[..n - 1] + [hs[n - 1]] == hs;
    }
  }

  /** The work of one more ledger and the update of the lists at its close. */
  lemma {:induction false} OneLedger(worked: Contents, before: Contents, hs: seq<Hash>, h: Hash, ops: seq<Op>)
    requires EntriesReadBack() && CollisionFree(SkipInputs()) && |hs| + 1 < UINT32_LIMIT && Unrelated(ops)
    requires Chained(before, hs) && AgreeElsewhere(worked, before)
    ensures var r := Updated(Replayed(before, ops), |hs| + 1, h);
      r.Some? && Chained(r.value, hs + [h]) && AgreeElsewhere(Replayed(worked, ops), r.value)
  {
    hide Chained, Updated, Recorded, HasRoom, ListKey, AgreeElsewhere, EntriesReadBack, CollisionFree, Unrelated, Replayed;
    var mid := Replayed(before, ops);
    RunKeepsLists(before, ops, hs);
    ChainRoom(mid, hs);
    UpdatedRecords(mid, |hs| + 1, h);
    var after := Updated(mid, |hs| + 1, h).value;
    ChainStep(mid, after, hs, h);
    ReplayElsewhere(worked, before, ops);
    RecordedElsewhere(Replayed(worked, ops), mid, after, |hs| + 1, h);
  }

  lemma {:induction false} SameElsewhere(m: Contents)
    ensures AgreeElsewhere(m, m)
  {
  }

  lemma {:induction false} RecordedElsewhere(w: Contents, m: Contents, m': Contents, prev: uint32, h: Hash)
    requires AgreeElsewhere(w, m) && Recorded(m, m', prev, h)
    ensures AgreeElsewhere(w, m')
  {
    forall k | !ListKey(k) ensures (k in w <==> k in m') && (k in w ==> m'[k] == w[k]) {
      assert SameAt(m, m', k);
    }
  }

  /** What a backed map takes to be snapshotted after each ledger. */
  ghost predicate Writable(trust: Trust, kind: Kind, m: Contents, hs: seq<Hash>, work: seq<seq<Op>>, ps: set<bytes>)
    requires |work| == |hs| < UINT32_LIMIT
  {
    forall i :: 0 <= i < |hs| ==> var r := ChainAt(m, hs[..i], work[..i]);
      r.Some? ==> AllFit(trust, kind, r.value) && Preimages(CanonRoot(kind, r.value)) <= ps
  }

  /** Closing ledgers 2 to |hs| + 1 on top of a first ledger, on maps backed or not. */
  method BuildChain(genesis: SHAMap, hs: seq<Hash>, work: seq<seq<Op>>, ghost ps: set<bytes>) returns (tip: Option<SHAMap>)
    requires genesis.Valid() && |work| == |hs| && |hs| + 1 < UINT32_LIMIT
    requires genesis.family != null ==> CollisionFree(ps) && Addressed(genesis.family.store, ps)
    requires genesis.family != null ==> Writable(TrustOf(genesis.family), LeafKind(genesis.mapType), genesis.contents, hs, work, ps)
    modifies genesis`shape, Foot(genesis.shape), genesis.family
    ensures tip.Some? ==> tip.value.Valid() && ChainAt(old(genesis.contents), hs, work) == Some(tip.value.contents)
    ensures tip.None? ==> Refused(genesis) || ChainAt(old(genesis.contents), hs, work).None?
    ensures Recordable(old(genesis.contents), work) && tip.Some? ==>
      Chained(tip.value.contents, hs) && AgreeElsewhere(Replayed(old(genesis.contents), AllWork(work)), tip.value.contents)
  {
    hide SHAMap.Valid, SHAMap.CanSave, Foot, Chained, Updated, AgreeElsewhere, Recordable, ChainAt, CanonRoot, Preimages, AllFit, Writable, Addressed, CollisionFree;
    var sm := genesis;
    ghost var m := genesis.contents;
    ChainStart(m, hs, work);
    for i := 0 to |hs|
      invariant sm.Valid() && sm.family == genesis.family == old(genesis.family) && sm.mapType == genesis.mapType
      invariant ChainAt(m, hs[..i], work[..i]) == Some(sm.contents)
      invariant sm.family != null ==> CollisionFree(ps) && Addressed(sm.family.store, ps)
      invariant if i == 0 then sm == genesis && sm.shape == old(genesis.shape) && sm.contents == m
                else fresh(sm) && fresh(Foot(sm.shape)) && sm.state != Invalid && sm.contents != map[]
    {
      ChainNext(m, hs, work, i, sm.contents);
      if sm.family != null { ReadyToSave(sm, m, hs, work, i, ps); }
      var child := NextLedger(sm, work[i], i + 1, hs[i], ps);
      if child.None? {
        if !Refused(sm) { ChainStops(m, hs, work, i + 1); }
        return None;
      }
      if sm.family != null { StillAddressed(sm, ps); }
      UpdatedNotEmpty(Replayed(sm.contents, work[i]), i + 1, hs[i]);
      sm := child.value;
    }
    assert hs[..|hs|] == hs && work[..|work|] == work;
    if Recordable(m, work) { ChainRecords(m, hs, work); }
    tip := Some(sm);
  }

  lemma {:induction false} ChainStart(m: Contents, hs: seq<Hash>, work: seq<seq<Op>>)
    ensures ChainAt(m, hs[..0], work[..0]) == Some(m)
  {
  }

  lemma {:induction false} ChainNext(m: Contents, hs: seq<Hash>, work: seq<seq<Op>>, i: nat, c: Contents)
    requires i < |work| == |hs| < UINT32_LIMIT && ChainAt(m, hs[..i], work[..i]) == Some(c)
    ensures ChainAt(m, hs[..i + 1], work[..i + 1]) == Updated(Replayed(c, work[i]), i + 1, hs[i])
  {
    assert hs[..i + 1][..i] == hs[..i] && work[..i + 1][..i] == work[..i];
  }

  lemma {:induction false} ChainStops(m: Contents, hs: seq<Hash>, work: seq<seq<Op>>, i: nat)
    requires i <= |work| == |hs| < UINT32_LIMIT && ChainAt(m, hs[..i], work[..i]).None?
    ensures ChainAt(m, hs, work).None?
    decreases |hs|
  {
    var n := |hs|;
    if i == n {
      assert hs[..i] == hs && work[..i] == work;
    } else {
      assert hs[..n - 1][..i] == hs[..i] && work[..n - 1][..i] == work[..i];
      ChainStops(m, hs[..n - 1], work[..n - 1], i);
    }
  }

  lemma {:induction false} ReadyToSave(sm: SHAMap, m: Contents, hs: seq<Hash>, work: seq<seq<Op>>, i: nat, ps: set<bytes>)
    requires sm.family != null && i < |work| == |hs| < UINT32_LIMIT && CollisionFree(ps) && Addressed(sm.family.store, ps)
    requires Writable(TrustOf(sm.family), LeafKind(sm.mapType), m, hs, work, ps) && ChainAt(m, hs[..i], work[..i]) == Some(sm.contents)
    ensures sm.CanSave(TrustOf(sm.family), ps)
  {
  }

  lemma {:induction false} StillAddressed(sm: SHAMap, ps: set<bytes>)
    requires sm.family != null && sm.CanSave(TrustOf(sm.family), ps)
    ensures CollisionFree(ps) && Addressed(sm.family.store, ps)
  {
  }

  lemma {:induction false} UpdatedNotEmpty(m: Contents, prev: uint32, h: Hash)
    requires prev != 0
    ensures Updated(m, prev, h).Some? ==> Updated(m, prev, h).value != map[]
  {
    var r := Updated(m, prev, h);
    assert r.Some? ==> RollingKey() in r.value;
  }
}
