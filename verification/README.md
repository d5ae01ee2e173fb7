# A verified model of goXRPLd's SHAMap and its neighbours

The SHAMap is a 16-way Merkle radix trie over 256-bit keys. It is updated in place,
hashed incrementally, loaded lazily from a content-addressed store, written out,
copied, compared, searched in key order, proved against and fetched from peers. This
project models these operations in Dafny and proves that all of them are views of one
finite map. Beside it stand four smaller components: the cache of validator
manifests, base 58, strict DER signatures, and the lists of ledger hashes that every
ledger keeps in its state map.

How the SHAMap is modelled:

- `Tree` and `Canonical` define values: trees, and the one canonical tree of a finite
  map. `Structure` shows that the structural invariant of the trie leaves exactly the
  canonical trees. `Merkle` shows what a hash commits to.
- `Nodes` holds the node objects with their children, hashes, branch bits, hash and
  dirty flag, and the parsers and serializers (`Codec` has the formats as functions).
  `Layout` states the formats at the bytes. `Shapes` relates a graph of such objects to the tree it carries, loaded or not.
- `Walking`, `Insertion`, `Removal`, `Cloning`, `Flushing` (with `Unbacked`), `Sync`
  and `ProofPaths` are the operations on node objects. `ShaMap` is the map object; its
  `Valid` says that the nodes carry the canonical tree of the contents, hashes included.
- `Loading` goes down from any node of a map and loads what is missing. `Iteration`,
  `Search` and `Comparison` (with `Sinks` and `BranchWalk`) are the traversals of map
  objects with their stacks of nodes; `KeyOrder`, `Nearness` and `Differing` say what
  they are to find. `Seeking` and `Telling` are what a search finds and what a comparison
  tells as functions of trees, and when that is the right answer. `EarlyStop` has
  comparisons that lose something.
- `Histories`, `SyncRuns` and `Phantom` run whole sequences of operations, interleavings
  on a map and its snapshot, and synchronization with arbitrary, honest and odd peers.
  `Routes` says by the branches from the root where a received node goes and what a
  report of missing nodes lists. `Durability` follows a map from its synchronization
  into a store.

Decisions that hold throughout:

- `Sha512Half` is a function about which only the size of its result is known. Where a
  statement needs that hashes do not collide, it takes a set of inputs that covers
  what is hashed in the case at hand and requires that no two of them collide and none
  hashes to zero. The signature checks of manifests and the stored form of a list of
  ledger hashes are unknown functions as well; for the latter it is required that
  lists of up to 256 hashes read back as written.
- A store is either relied on for every node that is not in memory, or it may lack
  nodes (`MemoryFamily.complete`, which no code reads). Over the first kind no load
  fails. Over the second every operation is stated with its failures: what is found
  under a hash is the node or nothing. What can be reached of a map is a tree
  (`Shapes.View`): what is in memory, and below that the nodes whose hash the store has
  in a form that parses. A key is `Stuck` if its way leads out of that tree.
- Locks make every method atomic. Errors of the source are results of the methods.
- Automatic induction is off in every lemma; each induction is written out.

Where the code differs from what one might expect, the code is followed:

- An account-state leaf with the zero key is stored but refused when it is parsed
  (`shamap/store.go:96`). Round trips of leaves hold exactly for readable items.
- The compressed parser sets a branch bit over a zero hash
  (`shamap/inner_node.go:344`). A synchronized map then has the right items and answers
  lookups rightly, but its tree is the canonical one exactly if no such bit is left
  (`SyncTree.SyncedTree`). `Phantom.PhantomRun` is such a run, at the bytes.
- A pair of inner nodes that leaves no pairs for later ends any comparison as
  incomplete, with a limit or without (`shamap/compare.go:222`). Differences still on the
  stack are then lost: an unlimited comparison can miss some. `Comparison.CompareUnsafe`
  states exactly when it is complete and when it has told everything, `EarlyStop` gives
  inputs. `DeepEqual` is exact nevertheless.
- The searches leave a stack whose frames below the last one have the branch -1
  (`shamap/iterator.go:182`). Next may deliver items of the top frame, and panics when it
  comes to such a frame. `Search.UpperBound` and `Search.LowerBound` state exactly when
  none is left, so that Next gets to the end, and `Search.UpperContinues` when it then
  delivers all that follows. `Search.CannotGoOn` and `Search.PassesOver` are inputs where
  that fails.
- firstBelow and lastBelow give no error for a node that cannot be loaded
  (`shamap/iterator.go:409`), so a search can silently give a wrong entry.
  `Seeking.SeekExact` states exactly when it does not.
- Received leaves are clean, and only inner nodes that got a child are dirty
  (`shamap/sync.go:305`). A map that is put over a store after its synchronization and
  written out (`internal/ledger/ledger.go:872`) leaves its leaves behind;
  `Durability.KeepReceived` states which entries survive.
- Decoding base 58 indexes a table of 256 by the runes of a chunk of ten bytes
  (`codec/addresscodec/base58.go:106`), which panics for some strings.
  `Base58.DecodeBase58` states for which.
- `ApplyManifest` does not compare a manifest's signing key with its own master key.
  Parsing does, and the invariant of the cache holds exactly for what parsing lets
  through.
- `bytesLessThan` fills the shorter string at its end, not in front. The one caller
  passes strings of equal length, for which that makes no difference.

## Model

| member | source | states |
|---|---|---|
| `Structure.ProperIffCanonical` | shamap/shamap.go:553-623 | a tree meets the structural invariant (a leaf extends its path, an inner node below the root has at least two leaves) if and only if it is the canonical tree of the entries it holds |
| `Structure.CanonicalHolds` | shamap/shamap.go:553-623 | the canonical tree of a map holds exactly the entries of the map and meets the structural invariant |
| `LeafOrder.RootLeaves` | shamap/shamap.go:553-623 | the leaves of the canonical tree are exactly the entries of the map |
| `Merkle.HashPinsLeaves` | shamap/inner_node.go:152-190 | without a collision among the hashed inputs, equal hashes mean equal leaves below, and equal trees if no inner node is empty |
| `Merkle.RootHashPinsContents` | shamap/shamap.go:245-254 | equal root hashes mean equal contents, barring a collision |
| `Nodes.InnerNode.UpdateHash` | shamap/inner_node.go:152-190 | the hash is that of the prefix and the sixteen child hashes, zero for a node without branches |
| `Nodes.InnerNode.SetChild` | shamap/inner_node.go:95-114 | one slot changes in pointer, hash and branch bit, the node turns dirty and its hash is recomputed |
| `Nodes.InnerNode.SetChildDirect` | shamap/inner_node.go:119-126 | only the child pointer changes; hash and dirty flag stay |
| `Nodes.ParseFullInner` | shamap/inner_node.go:285-315 | sixteen hashes, of which a zero one is an empty branch, become a clean node that carries them |
| `Nodes.ParseCompressedInner` | shamap/inner_node.go:318-355 | pairs of hash and position; a position out of range is an error, a later pair overrides, and a bit is set even over a zero hash |
| `Nodes.SerializeForWire` | shamap/inner_node.go:192-234 | the compressed form below twelve branches and the full form otherwise; none without branches |
| `Nodes.SerializeWithPrefix` | shamap/inner_node.go:237-263 | the prefix and all sixteen hashes; none without branches |
| `Nodes.DeserializeFromPrefix` | shamap/store.go:25-157 | the object carries exactly the node that the bytes parse to, clean, or there is none; for each prefix, which bytes of the input are data and key of the leaf, and that its hash is that of the whole input; an inner node exactly for 516 bytes behind its prefix |
| `Nodes.DeserializeNodeFromWire` | shamap/node.go:97-118 | the object carries exactly the node that the wire bytes parse to, clean, or there is none; for each type byte, which bytes are data and key of the leaf, and the bytes its hash is over |
| `Nodes.LoadLeaf` | shamap/leaf_node.go:28-45 | a clean leaf with the given kind, key and data and its hash; item data below twelve bytes is refused |
| `Layout.LeafBytes` | shamap/leaf_node.go:84-476 | at the bytes: what the hash of each kind of leaf is over |
| `Layout.InnerBytes` | shamap/inner_node.go:152-190 | at the bytes: prefix and sixteen child hashes in order, and zero without branches |
| `Layout.EntryBytes` | shamap/shamap.go:1145-1193 | at the bytes: what is written to the store, under the hash of exactly these bytes |
| `Layout.StoredLeaf` | shamap/store.go:83-157 | for any key and data behind each prefix, the leaf that is read, or none for short data or a zero key |
| `Layout.StoredInner` | shamap/store.go:50-79 | for any sixteen hashes behind the prefix, the node that is read |
| `Layout.StoredForms` | shamap/store.go:25-47 | whatever is read has one of the four forms, each with its prefix |
| `Layout.WireLeaf` | shamap/leaf_node.go:101-548 | for each kind the wire form of any leaf at the bytes, type byte last, and what any such bytes are read as |
| `Layout.WireFull` | shamap/inner_node.go:285-315 | for any sixteen hashes before the type byte, the node that is read |
| `Layout.WireCompressed` | shamap/inner_node.go:318-355 | up to sixteen pairs are read if and only if every position is below sixteen; the last pair for a branch counts |
| `Layout.WireInner` | shamap/inner_node.go:192-234 | the wire form of any inner node at the bytes: pairs below twelve branches, else all hashes |
| `Layout.WireForms` | shamap/node.go:97-118 | whatever is read from the wire has one of the five forms, each with its type byte |
| `Layout.RootBytes` | shamap/shamap.go:245-254 | the root hash of a map with one entry at the bytes: the leaf's hash sits in the slot of the first half byte of the key |
| `Layout.FirstEntry` | shamap/shamap.go:82-110 | a new map of any type with one entry put in has that root hash, with the kind of leaf that belongs to the type |
| `Codec.PrefixLeafRoundTrip` | shamap/store.go:83-157 | a leaf is read back from its stored form, whose bytes Layout.EntryBytes gives, if and only if it is readable: for account state, a key that is not zero |
| `Codec.PrefixInnerRoundTrip` | shamap/store.go:50-79 | an inner node is read back from its stored form, children by hash, if and only if no branch in use has the zero hash |
| `Codec.WireInnerRoundTrip` | shamap/inner_node.go:266-355 | an inner node is read back from its wire form to its branches and hashes if and only if the form is the compressed one or no branch in use has the zero hash |
| `Codec.WireLeafRoundTrip` | shamap/leaf_node.go:101-172 | a leaf is read back from its wire form with its key exactly if it is readable |
| `Storage.StoredParses` | shamap/shamap.go:163-201 | fetching a stored node by its hash and parsing it gives the node with its children by hash; where the store may lack nodes, that or nothing, and an inner node that is there always parses |
| `Storage.AllVisible` | shamap/shamap.go:163-201 | a store that has every node shows the whole tree |
| `Storage.MemoryFamily.Fetch` | shamap/memory_family.go:22-33 | the stored bytes of a hash, or none |
| `Storage.MemoryFamily.StoreBatch` | shamap/memory_family.go:36-45 | the entries are written over the store in order |
| `Walking.Descend` | shamap/shamap.go:163-201 | the child in memory, or the one loaded from the store, attached without touching hash or dirty flag; the tree stays the same, also when the load fails, which only a store that may lack nodes allows |
| `Walking.WalkToKey` | shamap/shamap.go:318-362 | the nodes on the key's path are collected and the walk ends at a leaf or an empty branch; it fails exactly at the depth limit or where a node on the path is neither in memory nor in the store in a form that parses; tree and reach stay the same |
| `Walking.FindItem` | shamap/shamap.go:365-386 | lookup by the branches of the key, in any tree and loaded or not; it fails exactly for a key whose path has a node out of reach or is too deep, and leaves the tree as it is |
| `Insertion.FindSplitDepth` | shamap/shamap.go:1039-1046 | the first depth from the start on where two keys take different branches |
| `Insertion.CreateSplitStructure` | shamap/shamap.go:1067-1114 | new nodes only, carrying the chain down to the split and both leaves: the canonical subtree of the two entries |
| `Insertion.DirtyUp` | shamap/shamap.go:670-699 | the path is rebuilt bottom up with correct hashes; the result is the tree with the new subtree in the hole |
| `Insertion.PutItem` | shamap/shamap.go:553-623 | the canonical tree of the updated map; a load error exactly where a node on the key's path is out of reach; that and data that is too short change nothing |
| `Removal.OnlyBelow` | shamap/shamap.go:856-899 | the single item below a node, if there is exactly one |
| `Removal.ConsolidateAfterDelete` | shamap/shamap.go:786-852 | the canonical tree of the map without the key, with nodes that keep one item collapsed |
| `Removal.DeleteItem` | shamap/shamap.go:723-781 | the canonical tree of the map without the key; a missing key and nodes that cannot be loaded change nothing; a node out of reach on the key's path is a load error, and for a missing key the only one |
| `ShaMap.SHAMap.New` | shamap/shamap.go:82-110 | an empty map, backed or not |
| `ShaMap.SHAMap.Get` | shamap/shamap.go:401-410 | exactly the entry of the contents, in every map that answers from its contents, canonical or not; contents, tree and hash stay; an error if and only if a node on the way to the key is neither in memory nor to be had from the store |
| `ShaMap.ValidAnswers` | shamap/shamap.go:365-386 | every valid map answers from its contents, within the depth limit |
| `ShaMap.SHAMap.Put` | shamap/shamap.go:537-550 | update of the finite map with the full invariant; which of the errors occurs, a load error if and only if a node on the way to the key is out of reach, and that a failing call keeps contents, tree and root hash |
| `ShaMap.SHAMap.Delete` | shamap/shamap.go:723-748 | removal from the finite map with the full invariant; which of the errors occurs, that a store without gaps gives no load error, and that a failing call keeps contents, tree and root hash |
| `ShaMap.SHAMap.SetImmutable` | shamap/shamap.go:218-228 | the map is frozen unless it is invalid |
| `Histories.Run` | shamap/shamap.go:401-748 | any sequence of operations gives the contents of the steps taken on a finite map, which are all steps unless a node could not be loaded, and the root hash of their canonical tree |
| `Histories.SameContentsSameHash` | shamap/shamap.go:245-254 | two maps of one type with equal contents have the same tree and root hash, whatever their histories and backing |
| `Histories.SameHashSameContents` | shamap/shamap.go:245-254 | two maps of one type with equal root hashes have equal contents, barring a collision |
| `Histories.TwoHistories` | shamap/shamap.go:82-110 | two arbitrary runs from empty maps, each backed or not, that end in equal contents end in the same root hash; without gaps in the stores the contents are those of the runs on finite maps |
| `Flushing.FlushNode` | shamap/shamap.go:1145-1193 | a dirty subtree is written children first; it is then clean, and what was expected of the store, if anything, holds of it; exactly the dirty nodes are written; it fails exactly for a node without branches |
| `Flushing.MarksUnique` | shamap/shamap.go:1145-1161 | the dirty flags of the objects determine what a flush writes |
| `Flushing.FinishInner` | shamap/shamap.go:1163-1193 | the node's entry is appended under its hash, the node turns clean, and its child pointers go if asked |
| `ShaMap.SHAMap.FlushDirty` | shamap/shamap.go:1127-1142 | the batch is exactly the entries of the dirty nodes, children before parents; contents and hash stay; a backed map is valid over the store with the batch as it was before, with whatever was expected of the store; an unbacked one stays valid, or keeps the hashes of its children only if told to release them; an error exactly for the empty map that was not written yet |
| `ShaMap.SHAMap.Save` | shamap/shamap.go:936-950 | flush and store keep map and contents; the store gains exactly the entries of the dirty nodes, and its entries stay under their own hashes |
| `ShaMap.Relaxed` | shamap/shamap.go:1127-1142 | a valid map stays valid when less is expected of its store, so one with items that cannot be read back can be written out as well |
| `ShaMap.SHAMap.SetFamily` | shamap/shamap.go:114-119 | the map is over another store, or over none; what its nodes carry without regard to a store stays |
| `Histories.FlushTwice` | shamap/shamap.go:1127-1142 | after a flush that was stored, a second flush is empty |
| `Histories.SaveBeside` | shamap/shamap.go:936-950 | writing one map out leaves another map over the same store valid and unchanged |
| `ShaMap.NewFromRootHash` | shamap/shamap.go:124-157 | an error exactly if the hash is unknown or not an inner node; a map over the root of a stored tree is valid and has its contents |
| `Cloning.CloneInner` | shamap/inner_node.go:438-460 | new objects only, carrying the same tree |
| `Cloning.CloneTree` | shamap/shamap.go:1196-1248 | new objects only, carrying the same tree |
| `ShaMap.SHAMap.Snapshot` | shamap/shamap.go:902-970 | a map with the same contents, hash and type made of new nodes, for the cloning and the store-backed form; which calls fail |
| `Histories.Interleave` | shamap/shamap.go:902-970 | in any interleaving of operations on two maps without common nodes, each ends with the contents of its own steps as if it had been alone |
| `Histories.SnapshotIsolation` | shamap/shamap.go:902-970 | a snapshot and its source never see each other's operations; an immutable snapshot keeps contents and hash |
| `ProofPaths.GetProofPath` | shamap/proof.go:21-70 | found exactly for keys of the map; the path is the wire forms from the leaf to the root; an error if and only if a node on the way is out of reach |
| `ShaMap.SHAMap.ProofPath` | shamap/proof.go:21-70 | the same on the map object, which stays valid with its contents |
| `Proofs.VerifyProofPath` | shamap/proof.go:82-174 | accepts exactly the paths that prove a value |
| `Proofs.VerifyProofPathWithValue` | shamap/proof.go:185-262 | gives exactly the proven value |
| `Proofs.VerifyProofPathDetailed` | shamap/proof.go:291-425 | accepts exactly the paths the other two accept; otherwise the place reported is that of the first node from the root that does not parse, does not have the hash named above it, or does not go on to the key; no place exactly for a path of the wrong length and one that leads on to its end |
| `Proofs.VerifiedMeans` | shamap/proof.go:82-262 | a path proves the data of the leaf it ends with exactly if every node above has the hash named for it and names the next on the way to the key, and the leaf has the hash and the key |
| `Proofs.ProofSoundness` | shamap/proof.go:185-262 | a path of arbitrary bytes that verifies against the root hash of a map shows an entry of the map with exactly its data, barring a collision |
| `Proofs.ProofCompleteness` | shamap/proof.go:21-70 | the path of an entry verifies with its data if and only if its leaf is readable |
| `Sync.InsertNode` | shamap/sync.go:275-324 | the node is hung into the first place in pre-order that names its hash; nothing else changes; a failure changes nothing; of nodes received only those with a child at hand are dirty |
| `Routes.FilledFirst` | shamap/sync.go:275-324 | of all places that carry the hash the one filled is the first in pre-order, and the rest of the tree stays |
| `Routes.FilledNever` | shamap/sync.go:275-324 | a node is refused exactly if no place within the depth limit carries its hash |
| `Sync.FindMissing` | shamap/sync.go:115-221 | breadth first: the open places level by level and from left to right, without those the filter refuses, cut off at the number wanted |
| `LevelOrder.LevelsAreSites` | shamap/sync.go:144-218 | level order lists every open place of the tree, as often as it occurs |
| `Routes.ReportInOrder` | shamap/sync.go:144-218 | every entry of the report is an open place with its depth, branch and parent; the places come higher ones first and from left to right, none twice, and none is missing |
| `LevelOrder.Reported` | shamap/sync.go:115-221 | every report is of open places that the filter lets through, at most as many as wanted, and all of them if fewer |
| `LevelOrder.ReportedAll` | shamap/sync.go:414-495 | without a filter nothing is reported exactly when nothing is missing |
| `SyncTree.FilledKeepsHash` | shamap/sync.go:275-324 | filling a place keeps every hash, whatever node is filled in |
| `SyncTree.SyncedTree` | shamap/sync.go:393-411 | a complete tree under the root hash of a map has the items of the map, and is its tree if and only if no branch in use carries the zero hash |
| `SyncTree.PhantomBranch` | shamap/inner_node.go:334-346 | with a bit over a zero hash there is a second tree with the same root hash and items |
| `Phantom.PhantomWire` | shamap/inner_node.go:318-355 | the compressed form of any node that has a free branch, with one more entry of a zero hash, parses to the node with that branch set, under the same hash |
| `Phantom.PhantomRun` | shamap/sync.go:231-411 | for every entry and every free branch, a run in which all answers are accepted ends under the right root hash, answers lookups rightly, and is not the canonical tree |
| `SyncLookup.LookupAgrees` | shamap/shamap.go:318-386 | in any complete tree under the hash of a canonical node a lookup finds what it finds there |
| `ShaMap.SyncedAnswers` | shamap/shamap.go:318-386 | a complete tree under the root hash of a map answers every lookup like the map, canonical or not |
| `SyncTree.BareWire` | shamap/inner_node.go:318-355 | the one-byte compressed form parses to an inner node without branches, with hash zero |
| `SyncTree.PartWhole` | shamap/sync.go:115-221 | of a partly loaded tree nothing is missing exactly when as many nodes are loaded as the source has |
| `SyncTree.RootSingle` | shamap/sync.go:275-324 | below the root of a canonical tree a hash names one node only, within the depth that is searched |
| `SyncTree.HonestAnswer` | shamap/sync.go:275-324 | a source node sent for a missing hash is taken, loads exactly one node and leaves the other gaps open |
| `ShaMap.SHAMap.StartSync` | shamap/sync.go:377-389 | synchronizing, unless the map is invalid |
| `ShaMap.SHAMap.AddRootNode` | shamap/sync.go:336-373 | for any bytes, which of the errors occurs, or the root is the parsed node with the given hash |
| `ShaMap.SHAMap.AddKnownNode` | shamap/sync.go:231-272 | for any bytes, which of the errors occurs, and the exact tree after it; the root hash never changes |
| `ShaMap.SHAMap.GetMissingNodes` | shamap/sync.go:115-221 | while synchronizing, exactly that report for the given filter and limit; nothing otherwise |
| `ShaMap.SHAMap.FinishSync` | shamap/sync.go:393-411 | succeeds exactly when nothing is missing; the items are then those of the map with that root hash, lookups answer from them, and the map is valid if and only if no branch in use carries the zero hash |
| `SyncRuns.Synchronize` | shamap/sync.go:231-411 | a root and any answers in any order, on a map backed or not: the root hash stays, and a completed run holds exactly the items of the map with that hash, in clean leaves below dirty inner nodes |
| `SyncRuns.ReportedOnce` | shamap/sync.go:115-221 | no missing hash is reported twice |
| `SyncRuns.Round` | shamap/sync.go:115-324 | every answer of an honest peer is taken and loads one node; nothing is reported exactly when every node is loaded |
| `SyncRuns.FetchAll` | shamap/sync.go:115-411 | with an honest peer the run ends, and the nodes of the map, backed or not, carry the peer's map |
| `Durability.ReceivedWrites` | shamap/shamap.go:1145-1193 | of a map as it was received a flush writes all inner nodes and no leaf |
| `Durability.KeepReceived` | internal/ledger/ledger.go:872-876 | a received map put over a store that may lack nodes is valid there; writing it out adds exactly its inner nodes to the store, and once the children are released a lookup fails if and only if the leaf was not in the store before or cannot be read |
| `Durability.OutOfReach` | shamap/shamap.go:1179-1193 | the same for one entry, in terms of the hash of its leaf |
| `Durability.Reopen` | shamap/shamap.go:124-157 | opened again from its root hash the map has the same contents, and within reach exactly the entries whose leaves the store had before |
| `Durability.FetchAndKeep` | internal/ledger/ledger.go:872-876 | fetched from an honest peer, put over an empty store and written out with its children released, a map has every entry out of reach |
| `Differing.NoDifferences` | shamap/compare.go:366-405 | two maps have no differences exactly when they are equal |
| `Differing.PatchedAll` | shamap/compare.go:32-74 | the differences of two maps, in any order and following their tags alone, turn the first map into the second, and taken back the second into the first |
| `Differing.SplitDifferences` | shamap/compare.go:77-134 | the differences of two maps are those of their sixteen branches together |
| `Differing.WalkTells` | shamap/compare.go:238-362 | walking the items of a subtree against an empty branch or one item tells exactly the differences |
| `Loading.Child` | shamap/shamap.go:163-201 | from any node of a map, the child at a branch, loaded if need be, or an error exactly where the store does not have it; every node at hand stays at hand, and tree and reach stay the same |
| `BranchWalk.WalkBranch` | shamap/compare.go:238-362 | the differences between a subtree and an empty branch or one item in the order of the walk, each once, or the first of them before the output stops or a node cannot be loaded; the other map stays as it is |
| `Comparison.HandleLeaves` | shamap/compare.go:32-74 | the differences between two leaves, in order |
| `Comparison.HandleInner` | shamap/compare.go:77-134 | in order the differences of the branches where one side is empty or a leaf, or the first of them; the pairs left for later are exactly the branches where both sides are present with different hashes |
| `Telling.EqualHashes` | shamap/compare.go:99-110 | subtrees with equal hashes at one place hold the same entries, so skipping them loses nothing |
| `Telling.ToldAll` | shamap/compare.go:138-234 | what the stack of pairs tells if it is never stopped is all that differs, each once |
| `Telling.CompletesIffChained` | shamap/compare.go:222-226 | the stack is worked off to its end if and only if every pair of inner nodes on it leaves pairs for later, all the way down |
| `Telling.StoppedEarly` | shamap/compare.go:222-226 | a run that stops at the first pair of inner nodes that leaves nothing for later tells everything if and only if such a pair is only ever the last one |
| `Telling.ChainedMaps` | shamap/compare.go:77-134 | the first condition on the contents of the two maps alone |
| `Telling.SparedMaps` | shamap/compare.go:77-134 | the second condition on the contents of the two maps alone |
| `EarlyStop.EmptyAgainst` | shamap/compare.go:77-134 | an empty map against any other never meets the first condition and always the second: the result is all there is and called incomplete |
| `EarlyStop.LostBehind` | shamap/compare.go:222-226 | whenever the last branch that parts two maps leaves nothing for later, no difference in the other branches where both have something is told |
| `EarlyStop.LostChange` | shamap/compare.go:15-29 | two maps for which a comparison, with any limit or none, never tells a changed entry |
| `Comparison.CompareUnsafe` | shamap/compare.go:138-234 | the exact list of differences told; complete if and only if the contents are equal, or every pair of inner nodes leaves pairs for later and there are fewer differences than the limit; a complete result applied to the first map gives the second; when all differences are told, complete or not; none exactly for equal contents; only a node that cannot be loaded is an error; both maps stay valid |
| `Comparison.Compare` | shamap/compare.go:17-29 | the same, and an error if one of the maps is invalid |
| `Comparison.DeepEqual` | shamap/compare.go:387-405 | for maps of any types, true exactly when the contents are equal; which errors occur |
| `Comparison.Equal` | shamap/compare.go:366-383 | an error exactly for an invalid map; the root hashes agree exactly when the contents are equal and, unless empty, of one type, barring a collision |
| `Comparison.DifferencesWithError` | shamap/compare.go:456-541 | for maps of any types, without an error every difference was sent exactly once with its tag and both items, and nothing else, and what was sent leads from the first map to the second and back; no error means that the channel took every one; an error means an invalid map, a value the channel refused or a node that cannot be loaded, and what was sent is the first part |
| `KeyOrder.StrictOrder` | shamap/iterator.go:458-462 | the comparison of keys is a strict total order |
| `KeyOrder.RootSorted` | shamap/iterator.go:67-125 | the items of a canonical tree stand in strictly increasing key order |
| `Iteration.Iterator.Begin` | shamap/iterator.go:129-147 | all items are still to come |
| `Iteration.Iterator.Next` | shamap/iterator.go:34-125 | the first of the items to come, or the end exactly when there is none, or for good an error at a node that cannot be loaded, with nothing lost |
| `Iteration.Enumerate` | shamap/iterator.go:34-147 | Begin and repeated Next give every item once in strictly increasing key order, or the first of them before an error |
| `Search.FirstBelow` | shamap/iterator.go:389-421 | what firstBelow gives, as a function of what can be reached below the node |
| `Search.LastBelow` | shamap/iterator.go:424-456 | the same from the other end |
| `Seeking.EndExact` | shamap/iterator.go:389-456 | that is the first or last item if and only if every node on the way to that item can be reached |
| `Nearness.NearestUnique` | shamap/iterator.go:153-386 | there is one nearest entry at most, so each search has one answer |
| `Nearness.SomeNearest` | shamap/iterator.go:153-386 | and there always is an answer, if only that nothing lies beyond the key |
| `Seeking.SeekSound` | shamap/iterator.go:153-386 | whatever a search finds is an entry of the map beyond the key |
| `Seeking.SeekExact` | shamap/iterator.go:153-386 | a search gives the right answer if and only if every node on the way to the key and every node on the way to the answer can be reached |
| `Search.UpperBound` | shamap/iterator.go:153-269 | what is found as a function of what can be reached; never an entry that does not lie above; the least entry above, or none if there is none, exactly if the ways to the key and to that entry can be reached, and always without gaps in the store; Next can walk the stack left to its end if and only if the entry was found below the root and some key shares the first branch of the given one, and what it would deliver |
| `Search.UpperContinues` | shamap/iterator.go:236-262 | that is all that lies above the entry found, if and only if the entry is alone in its first branch |
| `Search.CannotGoOn` | shamap/iterator.go:182-196 | an input where the stack cannot be walked to its end: nothing in the first branch of the key |
| `Search.PassesOver` | shamap/iterator.go:236-262 | an input where it can and Next passes over an entry |
| `Search.LowerBound` | shamap/iterator.go:276-386 | the same downward: the greatest entry below, exactly if the ways to the key and to that entry can be reached; when Next can walk the stack left to its end, which then comes at once |
| `Manifests.Cache.ApplyManifest` | internal/manifest/cache.go:93-149 | what each verdict means: accepted only with signatures that verify, a higher sequence and no key in use; stale exactly for a sequence that is not higher, invalid for signatures that fail, bad for a key in use; an accepted manifest replaces its predecessor and the second map stays the exact inverse; the invariant holds afterwards if and only if what was accepted is well formed |
| `Manifests.Verdict` | internal/manifest/cache.go:93-149 | the same of the verdict as a function of the manifests held |
| `Manifests.Forged` | internal/manifest/cache.go:111-113 | a manifest that does not verify changes nothing |
| `Manifests.RunVerified` | internal/manifest/cache.go:93-149 | whatever is held after any deliveries was held before, or was delivered, verifies and is held under its own master key |
| `Manifests.AllVerified` | internal/manifest/cache.go:76-149 | from an empty cache on every manifest held was delivered and verifies |
| `Manifests.Cache.GetMasterKey` | internal/manifest/cache.go:156-163 | the master of a current signing key, any other key itself |
| `Manifests.Cache.GetSigningKey` | internal/manifest/cache.go:171-179 | the signing key of the manifest held, for a master that is not revoked, and it leads back to the master |
| `Manifests.Cache.Revoked` | internal/manifest/cache.go:220-228 | a revoked master is one that is held and that no current signing key speaks for; no later deliveries change its manifest |
| `Manifests.MasterIdempotent` | internal/manifest/cache.go:156-163 | asking for the master of a master changes nothing |
| `Manifests.InverseUnique` | internal/manifest/cache.go:60-72 | the manifests held determine the second map |
| `Manifests.ApplyAll` | internal/manifest/cache.go:93-149 | any deliveries keep the maps inverse and the key sets disjoint |
| `Manifests.RunSucceeds` | internal/manifest/cache.go:101-105 | over any deliveries a master's manifest stays or gives way to a strictly higher sequence, and a revocation stays forever |
| `Manifests.RunLatest` | internal/manifest/cache.go:101-149 | without conflicts the cache holds the highest sequence of every master delivered |
| `Manifests.Convergence` | internal/manifest/cache.go:101-149 | without conflicts every order of delivery with any repetition ends in the same cache |
| `Base58.EncodeBase58` | codec/addresscodec/base58.go:24-75 | the ten-digit chunks spell the number digit by digit, after a leading r for every zero byte |
| `Base58.AlphabetOrder` | codec/addresscodec/alphabet.go:11 | the 58 characters in their order |
| `Base58.OneByteEncoded` | codec/addresscodec/base58.go:24-75 | the encoding of every single byte, character by character |
| `Base58.EmitChunk` | codec/addresscodec/base58.go:53-57 | ten digits of a chunk below 58^10 continue the digit-at-a-time conversion, with leading zeros |
| `Base58.EmitLast` | codec/addresscodec/base58.go:46-51 | the last chunk ends the conversion without extra zeros |
| `Base58.ReverseAnswer` | codec/addresscodec/base58.go:68-72 | the answer is reversed |
| `Base58.ChunkValue` | codec/addresscodec/base58.go:100-112 | up to ten digits in 64 bits, a character outside the alphabet, or an index outside the table of 256 |
| `Base58.DecodeBase58` | codec/addresscodec/base58.go:78-134 | for any bytes: the number of the digits after a zero byte for every leading r; nothing for a character outside the alphabet; a panic exactly when the first such byte has its high bit set and is not the start of a two-byte character of the same chunk below U+0100 |
| `Base58.PanicInputs` | codec/addresscodec/base58.go:106-107 | two inputs that end in a panic: a character beyond U+00FF, and one below it cut in two by a chunk |
| `Base58.DecodeEncoded` | codec/addresscodec/base58.go:24-134 | decoding an encoding gives the bytes again, for every byte string |
| `Base58.RoundTrip` | codec/addresscodec/base58.go:24-134 | the same for the two loops run one after the other |
| `Base58.EncodeDecoded` | codec/addresscodec/base58.go:24-134 | encoding what was decoded gives the string again, for every string over the alphabet |
| `Signatures.AcceptsSignature` | crypto/canonicality.go:55-110 | the DER form of every pair in range is accepted, fully exactly when s is at most half the order |
| `Signatures.SignatureBytes` | crypto/canonicality.go:248-286 | the form at the bytes: tags, lengths and two contents that hold the numbers, high byte first |
| `Signatures.Orders` | crypto/canonicality.go:22-42 | the group orders |
| `Signatures.AcceptedIsSignature` | crypto/canonicality.go:55-154 | whatever is accepted is the DER form of its pair, which is in range |
| `Signatures.SignatureUnique` | crypto/canonicality.go:248-286 | different pairs have different forms |
| `Signatures.EncodeDerSignature` | crypto/canonicality.go:248-286 | the buffer holds the DER form of the pair |
| `Signatures.MakeSignatureCanonical` | crypto/canonicality.go:211-245 | nothing exactly for what is not accepted; otherwise the form of the same r and the low one of s and its complement, which is fully canonical |
| `Signatures.MakeTwice` | crypto/canonicality.go:211-245 | making canonical twice is making canonical once |
| `Signatures.BytesLessThan` | crypto/canonicality.go:182-206 | compares the numbers, the shorter string filled up with zeros at its end |
| `Signatures.PaddedIsPlain` | crypto/canonicality.go:182-206 | for strings of one length, or with one of them empty, that is the comparison of the plain numbers |
| `Signatures.PaddedIsNotPlain` | crypto/canonicality.go:182-206 | for strings of different lengths it need not be: 2 against 256 |
| `Signatures.Ed25519Canonical` | crypto/canonicality.go:161-178 | 64 bytes whose second half, least byte first, is below the group order |
| `Signatures.HexAgrees` | crypto/der.go:82-127 | on the hexadecimal form of what is accepted, in lower or upper case, the lenient parser gives the same pair, in at most 32 bytes each |
| `Signatures.HexReads` | crypto/der.go:100 | the two digits of every byte, high half first, are read back to the bytes |
| `Signatures.HexExact` | crypto/der.go:100-103 | a string is read exactly if its length is even and every character is a digit in one of the cases |
| `Signatures.SmallestSignature` | crypto/der.go:99-127 | the form of the pair 1 and 1 at the bytes and at its sixteen digits |
| `SkipLists.UpdateSkipListOnMap` | internal/ledger/ledger.go:635-672 | the exact contents after recording a ledger, which UpdatedRecords spells out, or why it fails and that then at most the historical list was written |
| `SkipLists.UpdatedRecords` | internal/ledger/ledger.go:635-672 | the rolling list drops its oldest entry when full and gains the parent's hash; the list of the group gains it at every 256th ledger; both entries byte for byte, with the parent's sequence as the last one; nothing else changes |
| `SkipLists.KeysApart` | keylet/keylet.go:105-124 | barring a collision among the key inputs, the lists have keys of their own |
| `SkipLists.KeyBytes` | keylet/keylet.go:56-124 | the bytes behind the keys of both kinds of list |
| `SkipLists.ReadSkipList` | internal/ledger/ledger.go:676-726 | the list under a key, empty if there is no entry; only a node that cannot be loaded is an error |
| `SkipLists.WriteSkipList` | internal/ledger/ledger.go:729-753 | the entry written under the key, or why not, with the contents kept |
| `SkipLists.ChainStep` | internal/ledger/ledger.go:635-672 | recording one more ledger extends both kinds of list as the chain demands, entries included |
| `SkipLists.ChainRoom` | internal/ledger/ledger.go:644-670 | no list of a chain ever exceeds 256 entries |
| `SkipLists.Every256thAt` | internal/ledger/ledger.go:644-654 | the historical list in closed form: how long it is, and that entry k is the hash of the k-th multiple of 256 in its group of 65536 |
| `SkipLists.ChainRecords` | internal/ledger/ledger.go:635-672 | over a whole chain from the first ledger, the rolling list is the hashes of the last 256 ledgers in order with the last sequence, every historical list those of the multiples of 256 in its group with the last of them, and every other entry that of all the work replayed |
| `SkipLists.NextLedger` | internal/ledger/ledger.go:125-130 | snapshot, operations and list update of one ledger, on maps backed or not: the exact contents of the child, or why there is none; the parent stays as it was |
| `SkipLists.BuildChain` | internal/ledger/ledger.go:485-503 | closing ledger after ledger on maps backed or not gives exactly that chain, with the lists and the other entries as stated |

## Left out

- ShaMap.SHAMap.FlushDirty: the inputs hashed must not collide, and the entries of the store sit under their own hashes.
- ShaMap.SHAMap.Save: the same.
- ShaMap.SHAMap.Snapshot: the store-backed form has the same conditions; ledger sequence and the full flag are not modelled.
- ShaMap.SHAMap.Delete: for a key that is in the map, which siblings must be loaded to collapse nodes is not stated; their failure is only bounded by the store having gaps.
- Comparison.CompareUnsafe: which loads fail over a store with gaps is not stated. Where the types differ, only that a complete result has told everything.
- Comparison.DifferencesWithError: the same of loads; HasDifferences and the goroutine around it are not modelled.
- Iteration.Enumerate: at which item a load fails over a store with gaps is not stated.
- SkipLists.UpdateSkipListOnMap: the binary codec of the entries is an unknown function.
- Signatures.HexAgrees: DERHexFromSig is not modelled.
- Put with an explicit node type: it builds its chain from the top without refreshing hashes, so the hash invariant does not hold for it.
- Delete on trees of transactions with metadata: collapsing rebuilds leaves with the default type of the map.
- FindDifference, ForEach with an early stop, SyncProgress, IsComplete and the full flag.
- NodeID beyond SelectBranch: its serialization, parents and ancestor tests.
- The tree node cache, the full-below cache, filters with a state of their own and concurrency inside a method.
- SHA-512, elliptic curves and manifest signatures: unknown functions.
- The rest of the ledger: headers, fees, closing times, transactions and the negative UNL.
- Everything else in the repository: consensus, peers, RPC, command line, storage back ends.
