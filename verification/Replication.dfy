/** What a put does to a store, independently of how it loops: per id, the newest entry wins. */
module Replication {
  import opened Bytes
  import opened SealedBoxes
  import opened Enclaves

  // ---------- A merge keeps the newest candidate of every id ----------

  /** A live record for `id` with this content is among `records`. */
  ghost predicate Offered(records: seq<SecretRecord>, now: nat, id: SecretId, s: StoredSecret) {
    exists r :: r in records && r.id == id && Live(r.expiry, now) && Stored(r) == s
  }

  /** `m` holds, for `id`, a newest candidate; a held entry loses only to a strictly newer one. */
  ghost predicate NewestFor(storage: Storage, records: seq<SecretRecord>, now: nat, m: Storage, id: SecretId) {
    && (id in m <==> id in storage || exists s :: Offered(records, now, id, s))
    && (id in m ==>
          && ((id in storage && m[id] == storage[id]) || Offered(records, now, id, m[id]))
          && (forall s :: Offered(records, now, id, s) ==> s.generation <= m[id].generation)
          && (id in storage ==> storage[id].generation <= m[id].generation)
          && (id in storage && storage[id].generation == m[id].generation ==> m[id] == storage[id]))
  }

  lemma OfferedCons(r: SecretRecord, rest: seq<SecretRecord>, now: nat, id: SecretId, s: StoredSecret)
    ensures Offered([r] + rest, now, id, s) <==>
            (r.id == id && Live(r.expiry, now) && Stored(r) == s) || Offered(rest, now, id, s)
  {
    if r.id == id && Live(r.expiry, now) && Stored(r) == s {
      assert r in [r] + rest;
    }
    if Offered(rest, now, id, s) {
      var q :| q in rest && q.id == id && Live(q.expiry, now) && Stored(q) == s;
      assert q in [r] + rest;
    }
  }

  lemma NewestStep(storage: Storage, r: SecretRecord, rest: seq<SecretRecord>, now: nat, m: Storage, id: SecretId)
    requires NewestFor(MergeOne(storage, r, now), rest, now, m, id)
    ensures NewestFor(storage, [r] + rest, now, m, id)
  {
    var all := [r] + rest;
    forall s ensures Offered(all, now, id, s) <==>
      (r.id == id && Live(r.expiry, now) && Stored(r) == s) || Offered(rest, now, id, s) {
      OfferedCons(r, rest, now, id, s);
    }
    if r.id == id && Live(r.expiry, now) {
      assert Offered(all, now, id, Stored(r));
    }
  }

  lemma {:induction false} MergeKeepsNewest(storage: Storage, records: seq<SecretRecord>, now: nat, id: SecretId)
    ensures NewestFor(storage, records, now, Merge(storage, records, now), id)
    decreases |records|
  {
    if records != [] {
      var r, rest := records[0], records[1..];
      MergeKeepsNewest(MergeOne(storage, r, now), rest, now, id);
      assert records == [r] + rest;
      NewestStep(storage, r, rest, now, Merge(storage, records, now), id);
    }
  }

  // ---------- Idempotence and order ----------

  lemma {:induction false} MergeOfOldNews(storage: Storage, records: seq<SecretRecord>, now: nat)
    requires forall r :: r in records && Live(r.expiry, now) ==>
            r.id in storage && r.generation <= storage[r.id].generation
    ensures Merge(storage, records, now) == storage && StoredCount(storage, records, now) == 0
    decreases |records|
  {
    if records != [] {
      assert records[0] in records;
      MergeOfOldNews(storage, records[1..], now);
    }
  }

  /** Repeating a put changes nothing and reports that nothing changed. */
  lemma MergeIdempotent(storage: Storage, records: seq<SecretRecord>, now: nat)
    ensures var m := Merge(storage, records, now);
      Merge(m, records, now) == m && StoredCount(m, records, now) == 0
  {
    var m := Merge(storage, records, now);
    forall r | r in records && Live(r.expiry, now) ensures r.id in m && r.generation <= m[r.id].generation {
      MergeKeepsNewest(storage, records, now, r.id);
      assert Offered(records, now, r.id, Stored(r));
    }
    MergeOfOldNews(m, records, now);
  }

  predicate Clash(p: SecretRecord, q: SecretRecord, now: nat) {
    Live(p.expiry, now) && Live(q.expiry, now) && p.id == q.id && p.generation == q.generation
  }

  /** Live records for one id with one timestamp have one content. */
  ghost predicate Consistent(records: seq<SecretRecord>, now: nat) {
    forall p, q :: p in records && q in records && Clash(p, q, now) ==> Stored(p) == Stored(q)
  }

  lemma NewestAgree(storage: Storage, a: seq<SecretRecord>, b: seq<SecretRecord>, now: nat, id: SecretId)
    requires forall r :: r in a <==> r in b
    requires Consistent(a, now)
    ensures var x, y := Merge(storage, a, now), Merge(storage, b, now);
      (id in x <==> id in y) && (id in x && id in y ==> x[id] == y[id])
  {
    MergeKeepsNewest(storage, a, now, id);
    MergeKeepsNewest(storage, b, now, id);
    forall s ensures Offered(a, now, id, s) <==> Offered(b, now, id, s) {
    }
  }

  /** Convergence: at one clock reading, consistent records give the same store whatever their order
      and repetition. */
  lemma MergeOrderIrrelevant(storage: Storage, a: seq<SecretRecord>, b: seq<SecretRecord>, now: nat)
    requires forall r :: r in a <==> r in b
    requires Consistent(a, now)
    ensures Merge(storage, a, now) == Merge(storage, b, now)
  {
    var x, y := Merge(storage, a, now), Merge(storage, b, now);
    forall id ensures (id in x <==> id in y) && (id in x && id in y ==> x[id] == y[id]) {
      NewestAgree(storage, a, b, now, id);
    }
  }

  /** Consistency is needed: on a tie the first of two differing records stays. */
  lemma TiesAreDecidedByOrder(p: SecretRecord, q: SecretRecord, now: nat)
    requires Clash(p, q, now) && Stored(p) != Stored(q)
    ensures Merge(map[], [p, q], now) == map[p.id := Stored(p)]
    ensures Merge(map[], [q, p], now) == map[p.id := Stored(q)]
  {
    var empty: Storage := map[];
    assert [p, q][1..] == [q] && [q, p][1..] == [p] && [q][1..] == [] && [p][1..] == [];
    assert MergeOne(empty, p, now) == map[p.id := Stored(p)];
    assert MergeOne(empty, q, now) == map[p.id := Stored(q)];
    assert Merge(map[p.id := Stored(p)], [q], now) == map[p.id := Stored(p)];
    assert Merge(map[p.id := Stored(q)], [p], now) == map[p.id := Stored(q)];
  }

  // ---------- Joining stores ----------

  /** Per id the entry with the larger timestamp; the left store keeps ties. */
  function Join(a: Storage, b: Storage): Storage {
    map id | id in a.Keys + b.Keys ::
      if id !in b then a[id]
      else if id !in a then b[id]
      else if b[id].generation > a[id].generation then b[id] else a[id]
  }

  // ---------- From A's store to B's store ----------

  function LivePart(s: Storage, now: nat): Storage {
    map id | id in s && Live(s[id].expiry, now) :: s[id]
  }

  /** The entries a requester is given, as a store. */
  ghost function ReleasedStore(storage: Storage, auths: Authorizations, requester: AttestationBundle,
                               requests: seq<SecretRequest>, now: nat): Storage {
    map id | id in storage && exists k ::
      0 <= k < |requests| && requests[k].id == id && Releasable(storage, auths, requester, requests[k], now)
      :: storage[id]
  }

  lemma {:induction false} ReleasedRecords(storage: Storage, auths: Authorizations, requester: AttestationBundle,
                                           requests: seq<SecretRequest>, now: nat, r: SecretRecord)
    ensures r in Released(storage, auths, requester, requests, now) <==>
      exists k :: 0 <= k < |requests| && requests[k].id == r.id
        && Releasable(storage, auths, requester, requests[k], now) && r == RecordOf(storage, r.id)
    decreases |requests|
  {
    if requests != [] {
      ReleasedRecords(storage, auths, requester, requests[1..], now, r);
      assert forall k :: 0 < k < |requests| ==> requests[k] == requests[1..][k - 1];
    }
  }

  /** A record list that lists exactly the entries of `m`. */
  ghost predicate Lists(records: seq<SecretRecord>, m: Storage) {
    && (forall r :: r in records ==> r.id in m && m[r.id] == Stored(r))
    && (forall id :: id in m ==> exists r :: r in records && r.id == id)
  }

  lemma MergeOfListedStore(storage: Storage, records: seq<SecretRecord>, m: Storage, now: nat)
    requires Lists(records, m)
    ensures Merge(storage, records, now) == Join(storage, LivePart(m, now))
    ensures StoredCount(storage, records, now) > 0 <==>
            exists id :: id in LivePart(m, now) && (id in storage ==> m[id].generation > storage[id].generation)
  {
    var result, live := Merge(storage, records, now), LivePart(m, now);
    forall id, s ensures Offered(records, now, id, s) <==> id in live && live[id] == s {
      if id in live {
        var r :| r in records && r.id == id;
        assert Stored(r) == m[id];
        assert Offered(records, now, id, live[id]);
      }
    }
    forall id ensures (id in result <==> id in Join(storage, live))
      && (id in result ==> result[id] == Join(storage, live)[id]) {
      MergeKeepsNewest(storage, records, now, id);
      assert id in live ==> Offered(records, now, id, live[id]);
    }
    ListedStoreCount(storage, records, m, now);
  }

  lemma ListedStoreCount(storage: Storage, records: seq<SecretRecord>, m: Storage, now: nat)
    requires Lists(records, m)
    ensures StoredCount(storage, records, now) > 0 <==>
            exists id :: id in LivePart(m, now) && (id in storage ==> m[id].generation > storage[id].generation)
  {
    var live := LivePart(m, now);
    CountPositiveExactly(storage, records, now);
    if r :| r in records && Improves(storage, r, now) {
      assert r.id in live;
    }
    if id :| id in live && (id in storage ==> m[id].generation > storage[id].generation) {
      var r :| r in records && r.id == id;
      assert Stored(r) == m[id] && Improves(storage, r, now);
    }
  }

  /** A merge stores something if and only if some record improves on the store it started from. */
  lemma {:induction false} CountPositiveExactly(storage: Storage, records: seq<SecretRecord>, now: nat)
    ensures StoredCount(storage, records, now) > 0 <==> exists r :: r in records && Improves(storage, r, now)
    decreases |records|
  {
    if records != [] {
      CountPositiveExactly(MergeOne(storage, records[0], now), records[1..], now);
      assert records[0] in records;
      assert forall r :: r in records <==> r == records[0] || r in records[1..];
    }
  }

  /** Replication: A seals a box for B; B verifies A and has authorised A's key for every listed id.
      Then B's store becomes, per id, the newer of what it held and what A released and is
      still live, and the put reports a change exactly when some id was new or strictly newer. */
  lemma SealThenPut(
    a: KeyPair, storageA: Storage, authsA: Authorizations, requests: seq<SecretRequest>,
    reportB: AttestationBundle, verifyA: Verifier, nonce: Bytes, sealedAt: nat,
    b: KeyPair, storageB: Storage, authsB: Authorizations,
    reportA: AttestationBundle, consumer: ConsumerInfo, verifyB: Verifier, putAt: nat)
    requires |a.public| == 32 && |b.public| == 32 && |nonce| == AES_NONCE_SIZE
    requires verifyA(reportB) && reportB.ephemeralKey == Some(b.public)
    requires verifyB(reportA) && reportA.ephemeralKey == Some(a.public)
    requires var box := SealFor(a, storageA, authsA, requests, reportB, verifyA, nonce, sealedAt);
             AllAuthorized(authsB, reportA, box.value.containedSecretIds, consumer, putAt)
    ensures var box := SealFor(a, storageA, authsA, requests, reportB, verifyA, nonce, sealedAt);
      var records := Incoming(b, authsB, [Bundle(box.value, reportA, consumer)], verifyB, putAt);
      var news := LivePart(ReleasedStore(storageA, authsA, reportB, requests, sealedAt), putAt);
      && Merge(storageB, records, putAt) == Join(storageB, news)
      && (StoredCount(storageB, records, putAt) > 0 <==>
            exists id :: id in news && (id in storageB ==> news[id].generation > storageB[id].generation))
  {
    var box := SealFor(a, storageA, authsA, requests, reportB, verifyA, nonce, sealedAt).value;
    var released := Released(storageA, authsA, reportB, requests, sealedAt);
    var store := ReleasedStore(storageA, authsA, reportB, requests, sealedAt);
    BoxOpensOnlyForRecipient(a, b.public, b, released, nonce);
    var bundle := Bundle(box, reportA, consumer);
    assert [bundle][1..] == [];
    assert Accepted(b, authsB, bundle, verifyB, putAt) == Some(released);
    assert Incoming(b, authsB, [bundle], verifyB, putAt) == released + [] == released;
    ReleasedListsItsStore(storageA, authsA, reportB, requests, sealedAt);
    MergeOfListedStore(storageB, released, store, putAt);
  }

  lemma ReleasedListsItsStore(storage: Storage, auths: Authorizations, requester: AttestationBundle,
                              requests: seq<SecretRequest>, now: nat)
    ensures Lists(Released(storage, auths, requester, requests, now),
                  ReleasedStore(storage, auths, requester, requests, now))
  {
    var released := Released(storage, auths, requester, requests, now);
    var store := ReleasedStore(storage, auths, requester, requests, now);
    forall r | r in released ensures r.id in store && store[r.id] == Stored(r) {
      ReleasedRecords(storage, auths, requester, requests, now, r);
    }
    forall id | id in store ensures exists r :: r in released && r.id == id {
      ReleasedRecords(storage, auths, requester, requests, now, RecordOf(storage, id));
    }
  }

  /** The same, run on two enclaves. */
  method Replicate(a: Secrets, b: Secrets, requests: seq<SecretRequest>, reportA: AttestationBundle,
                   reportB: AttestationBundle, consumer: ConsumerInfo, verify: Verifier, nonce: Bytes,
                   sealedAt: nat, putAt: nat) returns (changed: bool)
    requires |a.keypair.public| == 32 && |b.keypair.public| == 32 && |nonce| == AES_NONCE_SIZE
    requires verify(reportA) && reportA.ephemeralKey == Some(a.keypair.public)
    requires verify(reportB) && reportB.ephemeralKey == Some(b.keypair.public)
    requires forall k ::
            0 <= k < |requests| && Releasable(a.storage, a.authorizations, reportB, requests[k], sealedAt) ==>
      Authorized(b.authorizations, reportA, requests[k].id, consumer, putAt)
    modifies b`storage
    ensures var news := LivePart(ReleasedStore(old(a.storage), a.authorizations, reportB, requests, sealedAt), putAt);
      && b.storage == Join(old(b.storage), news)
      && (changed <==>
            exists id :: id in news && (id in old(b.storage) ==> news[id].generation > old(b.storage)[id].generation))
  {
    ghost var storageA, storageB := a.storage, b.storage;
    var box := a.GetSecrets(requests, reportB, verify, nonce, sealedAt);
    forall i | 0 <= i < |box.value.containedSecretIds|
      ensures Authorized(b.authorizations, reportA, box.value.containedSecretIds[i], consumer, putAt)
    {
      var released := Released(storageA, a.authorizations, reportB, requests, sealedAt);
      ReleasedRecords(storageA, a.authorizations, reportB, requests, sealedAt, released[i]);
    }
    changed := b.PutSecrets([Bundle(box.value, reportA, consumer)], verify, putAt);
    SealThenPut(a.keypair, storageA, a.authorizations, requests, reportB, verify, nonce, sealedAt,
                b.keypair, storageB, b.authorizations, reportA, consumer, verify, putAt);
  }
}
