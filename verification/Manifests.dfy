/** The cache of validator manifests. */
module Manifests {
  import opened Bytes

  type PublicKey = k: bytes | |k| == 33 witness Zeros(33)

  const REVOKED_SEQUENCE := 0xFFFF_FFFF

  datatype Manifest = Manifest(masterKey: PublicKey, signingKey: PublicKey, sequence: Sequence, domain: string, serialized: bytes) {
    predicate Revoked() {
      sequence == REVOKED_SEQUENCE
    }
  }

  type Sequence = n: nat | n <= REVOKED_SEQUENCE

  /** The signature checks. */
  const Verifies: Manifest -> bool

  datatype Disposition = Accepted | Stale | Invalid | BadMasterKey | BadEphemeralKey

  type Masters = map<PublicKey, Manifest>

  /** The current signing keys of the masters that are not revoked. */
  ghost function SigningKeys(bm: Masters): set<PublicKey> {
    set k | k in bm && !bm[k].Revoked() :: bm[k].signingKey
  }

  /** What parsing guarantees: a signing key is not its own master key. */
  predicate WellFormed(m: Manifest) {
    !m.Revoked() ==> m.signingKey != m.masterKey
  }

  /** The verdict on a manifest, from the manifests held alone. */
  ghost function Judged(bm: Masters, m: Manifest): Disposition {
    if m.masterKey in bm && m.sequence <= bm[m.masterKey].sequence then Stale
    else if !Verifies(m) then Invalid
    else if m.masterKey in SigningKeys(bm) then BadMasterKey
    else if !m.Revoked() && (m.signingKey in SigningKeys(bm - {m.masterKey}) || m.signingKey in bm) then BadEphemeralKey
    else Accepted
  }

  /** Another master than the given one, not revoked, has the key as its signing key. */
  ghost predicate SpokenFor(bm: Masters, key: PublicKey, master: PublicKey) {
    exists k :: k in bm && k != master && bm[k].sequence != 0xFFFF_FFFF && bm[k].signingKey == key
  }

  /** A manifest at least as new is held for the same master. */
  ghost predicate Outdated(bm: Masters, m: Manifest) {
    m.masterKey in bm && m.sequence <= bm[m.masterKey].sequence
  }

  /** What each verdict means: for the manifest, its signatures and the keys in use. */
  ghost predicate Means(bm: Masters, m: Manifest, r: Disposition) {
    match r
    case Stale => Outdated(bm, m)
    case Invalid => !Outdated(bm, m) && !Verifies(m)
    case BadMasterKey => !Outdated(bm, m) && Verifies(m) && SpokenFor(bm, m.masterKey, m.masterKey)
    case BadEphemeralKey =>
      && !Outdated(bm, m) && Verifies(m) && !SpokenFor(bm, m.masterKey, m.masterKey)
      && m.sequence != 0xFFFF_FFFF && (SpokenFor(bm, m.signingKey, m.masterKey) || m.signingKey in bm)
    case Accepted =>
      && !Outdated(bm, m) && Verifies(m) && !SpokenFor(bm, m.masterKey, m.masterKey)
      && (m.sequence != 0xFFFF_FFFF ==> !SpokenFor(bm, m.signingKey, m.masterKey) && m.signingKey !in bm)
  }

  lemma {:induction false} Verdict(bm: Masters, m: Manifest)
    requires Consistent(bm)
    ensures Means(bm, m, Judged(bm, m))
  {
    SpokenKeys(bm, m.masterKey, m.masterKey);
    SpokenKeys(bm, m.signingKey, m.masterKey);
    if m.masterKey in SigningKeys(bm) {
      var k :| k in bm && !bm[k].Revoked() && bm[k].signingKey == m.masterKey;
      assert k != m.masterKey;
      var rest := bm - {m.masterKey};
      assert k in rest && rest[k].signingKey == m.masterKey;
    }
  }

  lemma {:induction false} SpokenKeys(bm: Masters, key: PublicKey, master: PublicKey)
    ensures SpokenFor(bm, key, master) <==> key in SigningKeys(bm - {master})
    ensures SpokenFor(bm, key, master) ==> key in SigningKeys(bm)
  {
    var rest := bm - {master};
    if SpokenFor(bm, key, master) {
      var k :| k in bm && k != master && bm[k].sequence != 0xFFFF_FFFF && bm[k].signingKey == key;
      assert k in rest && !rest[k].Revoked() && rest[k].signingKey == key;
    }
  }

  /** The second map is the inverse of the current signing keys. */
  ghost predicate Inverse(bm: Masters, sm: map<PublicKey, PublicKey>) {
    && (forall s :: s in sm ==> sm[s] in bm && !bm[sm[s]].Revoked() && bm[sm[s]].signingKey == s)
    && (forall k :: k in bm && !bm[k].Revoked() ==> bm[k].signingKey in sm && sm[bm[k].signingKey] == k)
  }

  /** Manifests sit under their master keys, and no key is both a master key and a signing key. */
  ghost predicate Consistent(bm: Masters) {
    (forall k :: k in bm ==> bm[k].masterKey == k) && SigningKeys(bm) !! bm.Keys
  }

  lemma {:induction false} InverseKeys(bm: Masters, sm: map<PublicKey, PublicKey>)
    requires Inverse(bm, sm)
    ensures sm.Keys == SigningKeys(bm)
    ensures forall s, k :: s in sm && sm[s] != k ==> s in SigningKeys(bm - {k})
    ensures forall s, k :: s in SigningKeys(bm - {k}) ==> s in sm && sm[s] != k
  {
    forall s | s in sm ensures s in SigningKeys(bm) {
      assert bm[sm[s]].signingKey == s;
    }
    forall s, k | s in sm && sm[s] != k ensures s in SigningKeys(bm - {k}) {
      var rest := bm - {k};
      assert sm[s] in rest && rest[sm[s]].signingKey == s;
    }
  }

  /** There is one inverse. */
  lemma {:induction false} InverseUnique(bm: Masters, sm: map<PublicKey, PublicKey>, tm: map<PublicKey, PublicKey>)
    requires Inverse(bm, sm) && Inverse(bm, tm)
    ensures sm == tm
  {
  }

  /** The master a key speaks for: its own if it is no current signing key. */
  ghost function MasterOf(bm: Masters, key: PublicKey): PublicKey {
    if key in SigningKeys(bm) then (var k :| k in bm && !bm[k].Revoked() && bm[k].signingKey == key; k) else key
  }

  lemma {:induction false} MasterUnique(bm: Masters, sm: map<PublicKey, PublicKey>, key: PublicKey)
    requires Inverse(bm, sm) && key in sm
    ensures key in SigningKeys(bm) && MasterOf(bm, key) == sm[key]
  {
  }

  /** The inverse map answers what the verdict asks. */
  lemma {:induction false} KeyUses(bm: Masters, sm: map<PublicKey, PublicKey>, m: Manifest)
    requires Consistent(bm) && Inverse(bm, sm)
    ensures m.masterKey in SigningKeys(bm) <==> m.masterKey in sm && sm[m.masterKey] != m.masterKey
    ensures m.signingKey in SigningKeys(bm - {m.masterKey}) <==> m.signingKey in sm && sm[m.signingKey] != m.masterKey
  {
    InverseKeys(bm, sm);
    if m.masterKey in sm { assert m.masterKey !in bm; }
  }

  /** The inverse map after a manifest is taken. */
  function Rebound(bm: Masters, sm: map<PublicKey, PublicKey>, m: Manifest): map<PublicKey, PublicKey> {
    var dropped := if m.masterKey in bm && !bm[m.masterKey].Revoked() then sm - {bm[m.masterKey].signingKey} else sm;
    if m.Revoked() then dropped else dropped[m.signingKey := m.masterKey]
  }

  lemma {:induction false} AcceptedInverse(bm: Masters, sm: map<PublicKey, PublicKey>, m: Manifest)
    requires Consistent(bm) && Inverse(bm, sm) && Judged(bm, m) == Accepted
    ensures Inverse(bm[m.masterKey := m], Rebound(bm, sm, m))
  {
    hide Consistent, SigningKeys;
    KeyUses(bm, sm, m);
  }

  lemma {:induction false} AcceptedConsistent(bm: Masters, m: Manifest)
    requires Consistent(bm) && Judged(bm, m) == Accepted
    ensures Consistent(bm[m.masterKey := m]) <==> WellFormed(m)
  {
    var next := bm[m.masterKey := m];
    if !m.Revoked() {
      assert next[m.masterKey].signingKey in SigningKeys(next);
    }
    forall s | s in SigningKeys(next) ensures s in SigningKeys(bm) || (!m.Revoked() && s == m.signingKey) {
      var k :| k in next && !next[k].Revoked() && next[k].signingKey == s;
      if k != m.masterKey { assert bm[k].signingKey in SigningKeys(bm); }
    }
  }

  /** A master is spoken for by its signing key, and by none once it is revoked. */
  lemma {:induction false} KeysOfMaster(bm: Masters, sm: map<PublicKey, PublicKey>, k: PublicKey)
    requires Inverse(bm, sm) && k in bm
    ensures bm[k].Revoked() <==> forall s :: s in SigningKeys(bm) ==> MasterOf(bm, s) != k
  {
    InverseKeys(bm, sm);
    forall s | s in SigningKeys(bm) ensures MasterOf(bm, s) == sm[s] {
      MasterUnique(bm, sm, s);
    }
    if !bm[k].Revoked() {
      assert bm[k].signingKey in sm;
    }
  }

  class Cache {
    var byMaster: Masters
    var signingToMaster: map<PublicKey, PublicKey>

    ghost predicate Valid()
      reads this
    {
      Consistent(byMaster) && Inverse(byMaster, signingToMaster)
    }

    constructor ()
      ensures Valid() && byMaster == map[]
    {
      byMaster, signingToMaster := map[], map[];
    }

    /** Takes a manifest that is newer, verifies and does not reuse a key. Validity is lost exactly if it takes one that is not well formed. */
    method ApplyManifest(manifest: Option<Manifest>) returns (r: Disposition)
      requires Valid()
      modifies this
      ensures r == if manifest.None? then Invalid else Judged(old(byMaster), manifest.value)
      ensures manifest.Some? ==> Means(old(byMaster), manifest.value, r)
      ensures r == Accepted ==> Verifies(manifest.value)
      ensures byMaster == if r == Accepted then old(byMaster)[manifest.value.masterKey := manifest.value] else old(byMaster)
      ensures Inverse(byMaster, signingToMaster)
      ensures Valid() <==> (r == Accepted ==> WellFormed(manifest.value))
      ensures r != Accepted ==> signingToMaster == old(signingToMaster)
    {
      hide SigningKeys, Inverse, Consistent, Means;
      if manifest.None? {
        return Invalid;
      }
      var m := manifest.value;
      Verdict(byMaster, m);
      KeyUses(byMaster, signingToMaster, m);
      ghost var bm, sm := byMaster, signingToMaster;
      if m.masterKey in byMaster && m.sequence <= byMaster[m.masterKey].sequence {
        return Stale;
      }
      if !Verifies(m) {
        return Invalid;
      }
      if m.masterKey in signingToMaster && signingToMaster[m.masterKey] != m.masterKey {
        return BadMasterKey;
      }
      if !m.Revoked() {
        if m.signingKey in signingToMaster && signingToMaster[m.signingKey] != m.masterKey {
          return BadEphemeralKey;
        }
        if m.signingKey in byMaster {
          return BadEphemeralKey;
        }
      }
      if m.masterKey in byMaster && !byMaster[m.masterKey].Revoked() {
        signingToMaster := signingToMaster - {byMaster[m.masterKey].signingKey};
      }
      byMaster := byMaster[m.masterKey := m];
      if !m.Revoked() {
        signingToMaster := signingToMaster[m.signingKey := m.masterKey];
      }
      r := Accepted;
      AcceptedInverse(bm, sm, m);
      AcceptedConsistent(bm, m);
    }

    /** The master of a current signing key; any other key stands for itself. */
    method GetMasterKey(key: PublicKey) returns (r: PublicKey)
      requires Valid()
      ensures r == MasterOf(byMaster, key)
    {
      InverseKeys(byMaster, signingToMaster);
      if key in signingToMaster {
        MasterUnique(byMaster, signingToMaster, key);
        return signingToMaster[key];
      }
      r := key;
    }

    method GetSigningKey(masterKey: PublicKey) returns (r: Option<PublicKey>)
      requires Valid()
      ensures r.Some? <==> masterKey in byMaster && !byMaster[masterKey].Revoked()
      ensures r.Some? ==> r.value == byMaster[masterKey].signingKey && MasterOf(byMaster, r.value) == masterKey
    {
      InverseKeys(byMaster, signingToMaster);
      if masterKey !in byMaster || byMaster[masterKey].Revoked() {
        return None;
      }
      r := Some(byMaster[masterKey].signingKey);
      MasterUnique(byMaster, signingToMaster, r.value);
    }

    /** A revoked master is one that is held and that no signing key speaks for; no delivery ever brings it back. */
    method Revoked(masterKey: PublicKey) returns (r: bool)
      requires Valid()
      ensures r <==> masterKey in byMaster && forall k :: k in SigningKeys(byMaster) ==> MasterOf(byMaster, k) != masterKey
      ensures r ==> forall ms :: masterKey in RunOf(byMaster, ms) && RunOf(byMaster, ms)[masterKey] == byMaster[masterKey]
    {
      r := masterKey in byMaster && byMaster[masterKey].Revoked();
      if masterKey in byMaster { KeysOfMaster(byMaster, signingToMaster, masterKey); }
      if r {
        forall ms ensures masterKey in RunOf(byMaster, ms) && RunOf(byMaster, ms)[masterKey] == byMaster[masterKey] {
          RunSucceeds(byMaster, ms, masterKey);
        }
      }
    }
  }

  /** Asking twice changes nothing. */
  lemma {:induction false} MasterIdempotent(bm: Masters, key: PublicKey)
    requires Consistent(bm)
    ensures MasterOf(bm, MasterOf(bm, key)) == MasterOf(bm, key)
  {
  }

  // ---------- runs ----------

  ghost function Applied(bm: Masters, m: Manifest): Masters {
    if Judged(bm, m) == Accepted then bm[m.masterKey := m] else bm
  }

  ghost function RunOf(bm: Masters, ms: seq<Manifest>): Masters {
    if ms == [] then bm else Applied(RunOf(bm, ms[..|ms| - 1]), ms[|ms| - 1])
  }

  /** Any deliveries keep the cache valid: the maps stay inverse and the key sets disjoint. */
  method ApplyAll(cache: Cache, ms: seq<Manifest>)
    requires cache.Valid() && forall m :: m in ms ==> WellFormed(m)
    modifies cache
    ensures cache.Valid() && cache.byMaster == RunOf(old(cache.byMaster), ms)
  {
    hide Judged, Consistent, Inverse;
    for i := 0 to |ms|
      invariant cache.Valid() && cache.byMaster == RunOf(old(cache.byMaster), ms[..i])
    {
      assert ms[..i + 1][..i] == ms[..i];
      var _ := cache.ApplyManifest(Some(ms[i]));
    }
    assert ms[..|ms|] == ms;
  }

  /** What happened to a master's manifest: it stays, or gives way to a higher sequence; a revocation stays for good. */
  ghost predicate Succeeds(old': Manifest, new': Manifest) {
    old' == new' || (old'.sequence < new'.sequence && !old'.Revoked())
  }

  lemma {:induction false} RunSucceeds(bm: Masters, ms: seq<Manifest>, k: PublicKey)
    requires k in bm
    ensures k in RunOf(bm, ms) && Succeeds(bm[k], RunOf(bm, ms)[k])
    ensures bm[k].Revoked() ==> RunOf(bm, ms)[k] == bm[k]
  {
    if ms != [] { RunSucceeds(bm, ms[..|ms| - 1], k); }
  }

  /** A manifest that does not verify changes nothing. */
  lemma {:induction false} Forged(bm: Masters, m: Manifest)
    requires !Verifies(m)
    ensures Applied(bm, m) == bm && (Judged(bm, m) == Stale || Judged(bm, m) == Invalid)
  {
  }

  /** Whatever is held after any deliveries was held before or was delivered, verifies and sits under its master key. */
  lemma {:induction false} RunVerified(bm: Masters, ms: seq<Manifest>, k: PublicKey)
    requires k in RunOf(bm, ms)
    ensures var held := RunOf(bm, ms)[k]; (k in bm && held == bm[k]) || (held in ms && Verifies(held) && held.masterKey == k)
  {
    if ms != [] {
      var before, m := ms[..|ms| - 1], ms[|ms| - 1];
      if !Verifies(m) { Forged(RunOf(bm, before), m); }
      if k in RunOf(bm, before) { RunVerified(bm, before, k); }
    }
  }

  /** From an empty cache on, every manifest held verifies and was delivered. */
  lemma {:induction false} AllVerified(ms: seq<Manifest>)
    ensures forall k :: k in RunOf(map[], ms) ==> RunOf(map[], ms)[k] in ms && Verifies(RunOf(map[], ms)[k])
  {
    forall k | k in RunOf(map[], ms) ensures RunOf(map[], ms)[k] in ms && Verifies(RunOf(map[], ms)[k]) {
      RunVerified(map[], ms, k);
    }
  }

  // ---------- convergence ----------

  /** All verify, no key is used twice, and master and sequence determine the manifest. */
  ghost predicate ConflictFree(ms: seq<Manifest>) {
    && (forall a :: a in ms ==> Verifies(a) && WellFormed(a))
    && (forall a, b :: a in ms && b in ms && !a.Revoked() ==> a.signingKey != b.masterKey)
    && (forall a, b :: a in ms && b in ms && !a.Revoked() && !b.Revoked() && a.signingKey == b.signingKey ==> a.masterKey == b.masterKey)
    && (forall a, b :: a in ms && b in ms && a.masterKey == b.masterKey && a.sequence == b.sequence ==> a == b)
  }

  /** For every master that came up, the manifest with the highest sequence, and nothing else. */
  ghost predicate Latest(bm: Masters, ms: seq<Manifest>) {
    && (forall k :: k in bm ==> bm[k] in ms && bm[k].masterKey == k)
    && (forall m :: m in ms ==> m.masterKey in bm && m.sequence <= bm[m.masterKey].sequence)
  }

  /** Without conflicts nothing is refused but what is stale. */
  lemma {:induction false} NoRefusal(bm: Masters, ms: seq<Manifest>, m: Manifest)
    requires (forall k :: k in bm ==> bm[k] in ms && bm[k].masterKey == k) && ConflictFree(ms) && m in ms
    ensures Judged(bm, m) == if m.masterKey in bm && m.sequence <= bm[m.masterKey].sequence then Stale else Accepted
  {
  }

  lemma {:induction false} RunLatest(ms: seq<Manifest>)
    requires ConflictFree(ms)
    ensures Latest(RunOf(map[], ms), ms)
  {
    hide Judged, ConflictFree, Latest, Applied;
    if ms == [] {
      assert Latest(map[], []) by { LatestNone(); }
    } else {
      var before, m := ms[..|ms| - 1], ms[|ms| - 1];
      assert ms == before + [m];
      ConflictFreePrefix(ms);
      RunLatest(before);
      LatestStep(RunOf(map[], before), before, m);
    }
  }

  lemma {:induction false} LatestNone()
    ensures Latest(map[], [])
  {
  }

  lemma {:induction false} LatestStep(bm: Masters, ms: seq<Manifest>, m: Manifest)
    requires Latest(bm, ms) && ConflictFree(ms + [m])
    ensures Latest(Applied(bm, m), ms + [m])
  {
    hide Judged, ConflictFree;
    NoRefusal(bm, ms + [m], m);
  }

  lemma {:induction false} ConflictFreePrefix(ms: seq<Manifest>)
    requires ConflictFree(ms) && ms != []
    ensures ConflictFree(ms[..|ms| - 1])
  {
  }

  /** Every order of delivery, with any repetition, ends in the same cache. */
  lemma {:induction false} Convergence(xs: seq<Manifest>, ys: seq<Manifest>)
    requires ConflictFree(xs) && forall m :: m in xs <==> m in ys
    ensures RunOf(map[], xs) == RunOf(map[], ys) && Latest(RunOf(map[], xs), xs)
  {
    RunLatest(xs);
    assert ConflictFree(ys);
    RunLatest(ys);
    var a, b := RunOf(map[], xs), RunOf(map[], ys);
    forall k | k in a || k in b ensures k in a && k in b && a[k] == b[k] {
      if k in a { assert a[k] in ys; }
      if k in b { assert b[k] in xs; }
    }
  }
}
