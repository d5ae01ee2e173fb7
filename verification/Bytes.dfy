/** Bytes, 256-bit hashes and keys, nibbles of a key, and the hash function. */
module Bytes {
  type byte = b: int | 0 <= b < 256
  type bytes = seq<byte>
  type Hash = h: bytes | |h| == 32 witness seq(32, _ => 0)
  type Key = Hash

  function Zeros(n: nat): (r: bytes)
    ensures |r| == n && forall i :: 0 <= i < n ==> r[i] == 0
  {
    seq(n, _ => 0)
  }

  const ZERO: Hash := Zeros(32)

  /** SHA-512 cut to 256 bits. Nothing is known about it beyond its result size. */
  const Sha512Half: bytes -> Hash

  const MAX_DEPTH := 64
  const BRANCH_FACTOR := 16
  type Branch = b: int | 0 <= b < 16

  datatype Option<+T> = None | Some(value: T)

  /** At most n of them; all if there is no limit. */
  function Limited<T>(xs: seq<T>, n: int): seq<T> {
    if n <= 0 || |xs| <= n then xs else xs[..n]
  }

  /** The branch a key takes below a node at the given depth: one nibble of the key. */
  function SelectBranch(key: Key, depth: nat): Branch {
    if depth >= MAX_DEPTH then 0
    else if depth % 2 == 0 then key[depth / 2] / 16
    else key[depth / 2] % 16
  }

  /** The two keys take the same branches at every depth below d. */
  predicate SamePrefix(a: Key, b: Key, d: nat) {
    forall i :: 0 <= i < d ==> SelectBranch(a, i) == SelectBranch(b, i)
  }

  lemma {:induction false} FullPrefixIsKey(a: Key, b: Key)
    requires SamePrefix(a, b, MAX_DEPTH)
    ensures a == b
  {
    forall i | 0 <= i < 32 ensures a[i] == b[i] {
      assert SelectBranch(a, 2 * i) == SelectBranch(b, 2 * i);
      assert SelectBranch(a, 2 * i + 1) == SelectBranch(b, 2 * i + 1);
    }
  }

  /** Concatenation of hashes. */
  function Flatten(hs: seq<Hash>): (r: bytes)
    ensures |r| == 32 * |hs|
  {
    if hs == [] then [] else hs[0] + Flatten(hs[1..])
  }

  lemma {:induction false} FlattenNone()
    ensures Flatten([]) == []
  {
  }

  lemma {:induction false} FlattenAt(hs: seq<Hash>, i: nat)
    requires i < |hs|
    ensures Flatten(hs)[32 * i..32 * i + 32] == hs[i]
  {
    if i > 0 {
      FlattenAt(hs[1..], i - 1);
      assert Flatten(hs)[32 * i..32 * i + 32] == Flatten(hs[1..])[32 * (i - 1)..32 * (i - 1) + 32];
    }
  }

  lemma {:induction false} FlattenInjective(a: seq<Hash>, b: seq<Hash>)
    requires |a| == |b| && Flatten(a) == Flatten(b)
    ensures a == b
  {
    forall i | 0 <= i < |a| ensures a[i] == b[i] {
      FlattenAt(a, i);
      FlattenAt(b, i);
    }
  }

  lemma {:induction false} FlattenAppend(a: seq<Hash>, h: Hash)
    ensures Flatten(a + [h]) == Flatten(a) + h
  {
    if a == [] {
      assert a + [h] == [h];
    } else {
      assert (a + [h])[1..] == a[1..] + [h];
      FlattenAppend(a[1..], h);
    }
  }
}
