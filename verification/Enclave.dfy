/** The secrets store of one enclave (node/enclave/src/secrets/mod.rs) and the policy runs that
    authorise its use (node/enclave/src/runner/execution.rs). */
module Enclaves {
  import opened Bytes
  import opened SealedBoxes

  datatype ConsumerInfo = ConsumerInfo(bundleHash: Bytes, signature: Bytes)

  datatype StoredSecret = StoredSecret(data: Bytes, expiry: nat, generation: nat)

  type Storage = map<SecretId, StoredSecret>

  /** An attestation bundle: platform evidence, and the ephemeral key its user data decodes to
      (`None` when the user data does not decode). */
  datatype AttestationBundle = AttestationBundle(evidence: Bytes, ephemeralKey: Option<Bytes>)

  /** Verification of evidence and of its binding to the user data. */
  type Verifier = AttestationBundle -> bool

  datatype AuthorizationId = AuthorizationId(key: Bytes, id: SecretId, consumer: ConsumerInfo)

  type Authorizations = map<AuthorizationId, nat>

  datatype Bundle = Bundle(box: SecretsBox, attestation: AttestationBundle, consumer: ConsumerInfo)

  datatype SecretRequest = SecretRequest(id: SecretId, consumer: ConsumerInfo)

  datatype PolicyRequest = PolicyRequest(secretIds: seq<SecretId>, consumer: ConsumerInfo,
                                         attestation: AttestationBundle)

  datatype SecretStatus = SecretStatus(id: SecretId, valid: bool, expiry: nat)

  const AUTHORIZATION_TTL: nat := 3600

  // ---------- Rules ----------

  predicate Live(expiry: nat, now: nat) {
    expiry == 0 || expiry > now
  }

  predicate Authorized(auths: Authorizations, bundle: AttestationBundle, id: SecretId, consumer: ConsumerInfo,
                       now: nat) {
    && bundle.ephemeralKey.Some?
    && var aid := AuthorizationId(bundle.ephemeralKey.value, id, consumer);
       aid in auths && auths[aid] > now
  }

  predicate AllAuthorized(auths: Authorizations, bundle: AttestationBundle, ids: seq<SecretId>, consumer: ConsumerInfo,
                          now: nat) {
    forall i :: 0 <= i < |ids| ==> Authorized(auths, bundle, ids[i], consumer, now)
  }

  /** The records one bundle contributes to a put, if it passes every check. */
  function Accepted(own: KeyPair, auths: Authorizations, b: Bundle, verify: Verifier,
                    now: nat): Option<seq<SecretRecord>> {
    if verify(b.attestation) && b.attestation.ephemeralKey == Some(b.box.senderPublicKey)
       && AllAuthorized(auths, b.attestation, b.box.containedSecretIds, b.consumer, now)
    then DecryptSecretsBox(own, b.box)
    else None
  }

  function Incoming(own: KeyPair, auths: Authorizations, bundles: seq<Bundle>, verify: Verifier,
                    now: nat): seq<SecretRecord> {
    if bundles == [] then []
    else
      var rest := Incoming(own, auths, bundles[1..], verify, now);
      match Accepted(own, auths, bundles[0], verify, now)
      case Some(records) => records + rest
      case None => rest
  }

  function Stored(r: SecretRecord): StoredSecret {
    StoredSecret(r.data, r.expiry, r.generation)
  }

  /** Whether a put stores this record: unexpired, and new or strictly newer. */
  predicate Improves(storage: Storage, r: SecretRecord, now: nat) {
    Live(r.expiry, now) && (r.id in storage ==> r.generation > storage[r.id].generation)
  }

  function MergeOne(storage: Storage, r: SecretRecord, now: nat): Storage {
    if Improves(storage, r, now) then storage[r.id := Stored(r)] else storage
  }

  function Merge(storage: Storage, records: seq<SecretRecord>, now: nat): Storage
    decreases |records|
  {
    if records == [] then storage else Merge(MergeOne(storage, records[0], now), records[1..], now)
  }

  /** How many of the records a merge stores, in turn. */
  function StoredCount(storage: Storage, records: seq<SecretRecord>, now: nat): nat
    decreases |records|
  {
    if records == [] then 0
    else
      var one := if Improves(storage, records[0], now) then 1 else 0;
      one + StoredCount(MergeOne(storage, records[0], now), records[1..], now)
  }

  /** Generation in request order: unauthorised requests are skipped; the first authorised request
      for an existing id, or a failing random source, ends it with an error. */
  function Generate(storage: Storage, auths: Authorizations, own: AttestationBundle,
                    requests: seq<SecretRequest>, entropy: seq<Option<Bytes>>, now: nat): (Storage, bool)
    requires |entropy| == |requests|
    decreases |requests|
  {
    if requests == [] then (storage, true)
    else if !Authorized(auths, own, requests[0].id, requests[0].consumer, now) then
      Generate(storage, auths, own, requests[1..], entropy[1..], now)
    else if requests[0].id in storage || entropy[0].None? then (storage, false)
    else Generate(storage[requests[0].id := StoredSecret(entropy[0].value, 0, now)], auths, own, requests[1..],
                  entropy[1..], now)
  }

  predicate Releasable(storage: Storage, auths: Authorizations, bundle: AttestationBundle, r: SecretRequest, now: nat) {
    && Authorized(auths, bundle, r.id, r.consumer, now)
    && r.id in storage && Live(storage[r.id].expiry, now)
  }

  function RecordOf(storage: Storage, id: SecretId): SecretRecord
    requires id in storage
  {
    SecretRecord(id, storage[id].data, storage[id].expiry, storage[id].generation)
  }

  /** The records packed for a requester, in request order. */
  function Released(storage: Storage, auths: Authorizations, bundle: AttestationBundle, requests: seq<SecretRequest>,
                    now: nat): seq<SecretRecord> {
    if requests == [] then []
    else
      var rest := Released(storage, auths, bundle, requests[1..], now);
      if Releasable(storage, auths, bundle, requests[0], now) then [RecordOf(storage, requests[0].id)] + rest else rest
  }

  /** What a local worker is given: under each name, the last releasable secret asked for. */
  function WorkerEnv(storage: Storage, auths: Authorizations, own: AttestationBundle,
                     wanted: seq<(SecretId, string)>, consumer: ConsumerInfo, now: nat): map<string, Bytes> {
    if wanted == [] then map[]
    else
      var n := |wanted| - 1;
      var before, id := WorkerEnv(storage, auths, own, wanted[..n], consumer, now), wanted[n].0;
      if Releasable(storage, auths, own, SecretRequest(id, consumer), now) then before[wanted[n].1 := storage[id].data]
        else before
  }

  /** The box sealed for a requester; `None` is one of the error returns. */
  function SealFor(own: KeyPair, storage: Storage, auths: Authorizations, requests: seq<SecretRequest>,
                   requester: AttestationBundle, verify: Verifier, nonce: Bytes, now: nat): Option<SecretsBox> {
    if verify(requester) && requester.ephemeralKey.Some? && |requester.ephemeralKey.value| == 32 then
      Some(EncryptSecretsBox(own, requester.ephemeralKey.value, Released(storage, auths, requester, requests, now),
                             nonce))
    else None
  }

  function Approvals(key: Bytes, ids: seq<SecretId>, consumer: ConsumerInfo, timestamp: nat): Authorizations {
    map id | id in ids :: AuthorizationId(key, id, consumer) := timestamp + AUTHORIZATION_TTL
  }

  lemma ApprovalsSnoc(key: Bytes, ids: seq<SecretId>, id: SecretId, consumer: ConsumerInfo, timestamp: nat)
    ensures Approvals(key, ids + [id], consumer, timestamp) ==
            var before := Approvals(key, ids, consumer, timestamp);
            before[AuthorizationId(key, id, consumer) := timestamp + AUTHORIZATION_TTL]
  {
    assert forall x :: x in ids + [id] <==> x in ids || x == id;
  }

  /** The authorizations after a policy answered true for `request` at `timestamp`. */
  function Grant(auths: Authorizations, request: PolicyRequest, timestamp: nat): Authorizations {
    match request.attestation.ephemeralKey
    case None => auths
    case Some(key) =>
      auths + Approvals(key, request.secretIds, request.consumer, timestamp)
  }

  function GrantAll(auths: Authorizations, requests: seq<PolicyRequest>, answers: seq<bool>, now: nat): Authorizations
    requires |requests| == |answers|
    decreases |requests|
  {
    if requests == [] then auths
    else GrantAll(if answers[0] then Grant(auths, requests[0], now) else auths, requests[1..], answers[1..], now)
  }

  /** The contexts answered true, in order. */
  function Satisfied(requests: seq<PolicyRequest>, answers: seq<bool>): seq<PolicyRequest>
    requires |requests| == |answers|
    decreases |requests|
  {
    if requests == [] then []
    else if answers[0] then [requests[0]] + Satisfied(requests[1..], answers[1..])
    else Satisfied(requests[1..], answers[1..])
  }

  // ---------- The enclave ----------

  class Secrets {
    const keypair: KeyPair
    var storage: Storage
    var authorizations: Authorizations

    constructor (keypair: KeyPair)
      ensures this.keypair == keypair && storage == map[] && authorizations == map[]
    {
      this.keypair := keypair;
      storage, authorizations := map[], map[];
    }

    method CheckAuthorization(bundle: AttestationBundle, id: SecretId, consumer: ConsumerInfo, now: nat)
      returns (ok: bool)
      ensures ok <==> Authorized(authorizations, bundle, id, consumer, now)
    {
      if bundle.ephemeralKey.None? {
        return false;
      }
      var aid := AuthorizationId(bundle.ephemeralKey.value, id, consumer);
      ok := aid in authorizations && authorizations[aid] > now;
    }

    /** The per-secret loop of `put_secrets`, which stops at the first unauthorised id. */
    method CheckBox(b: Bundle, now: nat) returns (ok: bool)
      ensures ok <==> AllAuthorized(authorizations, b.attestation, b.box.containedSecretIds, b.consumer, now)
    {
      var ids := b.box.containedSecretIds;
      for k := 0 to |ids|
        invariant forall i :: 0 <= i < k ==> Authorized(authorizations, b.attestation, ids[i], b.consumer, now)
      {
        var authorized := CheckAuthorization(b.attestation, ids[k], b.consumer, now);
        if !authorized {
          return false;
        }
      }
      return true;
    }

    /** Stores one bundle's records, each if it is new or strictly newer. */
    method StoreRecords(records: seq<SecretRecord>, now: nat) returns (count: nat)
      modifies this`storage
      ensures storage == Merge(old(storage), records, now)
      ensures count == StoredCount(old(storage), records, now)
    {
      count := 0;
      for k := 0 to |records|
        invariant Merge(storage, records[k..], now) == Merge(old(storage), records, now)
        invariant count + StoredCount(storage, records[k..], now) == StoredCount(old(storage), records, now)
      {
        var r := records[k];
        assert records[k..][1..] == records[k + 1..];
        if r.expiry != 0 && r.expiry <= now {
          continue;
        }
        if r.id in storage {
          if r.generation > storage[r.id].generation {
            storage := storage[r.id := StoredSecret(r.data, r.expiry, r.generation)];
            count := count + 1;
          }
        } else {
          storage := storage[r.id := StoredSecret(r.data, r.expiry, r.generation)];
          count := count + 1;
        }
      }
    }

    /** The first pass of `put_secrets`: bundles whose attestation does not verify are dropped. */
    method VerifyBundles(bundles: seq<Bundle>, verify: Verifier, ghost now: nat) returns (verified: seq<Bundle>)
      ensures Incoming(keypair, authorizations, verified, verify, now) ==
              Incoming(keypair, authorizations, bundles, verify, now)
      ensures forall b :: b in verified ==> verify(b.attestation)
    {
      verified := [];
      for k := 0 to |bundles|
        invariant Incoming(keypair, authorizations, verified, verify, now) ==
                Incoming(keypair, authorizations, bundles[..k], verify, now)
        invariant forall b :: b in verified ==> verify(b.attestation)
      {
        var b := bundles[k];
        IncomingSnoc(keypair, authorizations, verified, b, verify, now);
        IncomingSnoc(keypair, authorizations, bundles[..k], b, verify, now);
        assert bundles[..k + 1] == bundles[..k] + [b];
        if verify(b.attestation) {
          verified := verified + [b];
        }
      }
      assert bundles[..|bundles|] == bundles;
    }

    /** The second pass, for one verified bundle. */
    method ProcessBundle(b: Bundle, ghost verify: Verifier, now: nat)
      returns (count: nat, ghost records: seq<SecretRecord>)
      requires verify(b.attestation)
      modifies this`storage
      ensures records == RecordsOf(keypair, authorizations, b, verify, now)
      ensures storage == Merge(old(storage), records, now)
      ensures count == StoredCount(old(storage), records, now)
    {
      count, records := 0, [];
      if b.attestation.ephemeralKey.None? || b.attestation.ephemeralKey.value != b.box.senderPublicKey {
        return;
      }
      var authorized := CheckBox(b, now);
      if !authorized {
        return;
      }
      var decrypted := DecryptSecretsBox(keypair, b.box);
      if decrypted.None? {
        return;
      }
      records := decrypted.value;
      count := StoreRecords(decrypted.value, now);
    }

    /** The new store is the merge of the records of exactly the accepted bundles; the answer says
        whether anything was stored. */
    method PutSecrets(bundles: seq<Bundle>, verify: Verifier, now: nat) returns (changed: bool)
      modifies this`storage
      ensures var records := Incoming(keypair, authorizations, bundles, verify, now);
        && storage == Merge(old(storage), records, now)
        && (changed <==> StoredCount(old(storage), records, now) > 0)
    {
      var count := 0;
      var verified := VerifyBundles(bundles, verify, now);
      ghost var all := Incoming(keypair, authorizations, bundles, verify, now);
      assert verified[0..] == verified;
      for k := 0 to |verified|
        invariant var rest := Incoming(keypair, authorizations, verified[k..], verify, now);
          && Merge(storage, rest, now) == Merge(old(storage), all, now)
          && count + StoredCount(storage, rest, now) == StoredCount(old(storage), all, now)
      {
        MergeFirst(keypair, authorizations, storage, verified[k..], verify, now);
        assert verified[k..][1..] == verified[k + 1..];
        var stored, _ := ProcessBundle(verified[k], verify, now);
        count := count + stored;
      }
      changed := count > 0;
    }

    /** `entropy[k]` is what the random source yields for request `k`; `own` is this enclave's
        report, whose creation can fail. */
    method GenerateSecrets(requests: seq<SecretRequest>, own: Option<AttestationBundle>, entropy: seq<Option<Bytes>>,
                           now: nat)
      returns (ok: bool)
      requires |entropy| == |requests|
      modifies this`storage
      ensures own.None? ==> !ok && storage == old(storage)
      ensures own.Some? ==> (storage, ok) == Generate(old(storage), authorizations, own.value, requests, entropy, now)
    {
      if own.None? {
        return false;
      }
      for k := 0 to |requests|
        invariant Generate(storage, authorizations, own.value, requests[k..], entropy[k..], now)
               == Generate(old(storage), authorizations, own.value, requests, entropy, now)
      {
        var r := requests[k];
        assert requests[k..][1..] == requests[k + 1..] && entropy[k..][1..] == entropy[k + 1..];
        var authorized := CheckAuthorization(own.value, r.id, r.consumer, now);
        if !authorized {
          continue;
        }
        if r.id in storage {
          return false;
        }
        if entropy[k].None? {
          return false;
        }
        storage := storage[r.id := StoredSecret(entropy[k].value, 0, now)];
      }
      return true;
    }

    method GetSecrets(requests: seq<SecretRequest>, requester: AttestationBundle, verify: Verifier, nonce: Bytes,
                      now: nat)
      returns (box: Option<SecretsBox>)
      ensures box == SealFor(keypair, storage, authorizations, requests, requester, verify, nonce, now)
    {
      if !verify(requester) {
        return None;
      }
      if requester.ephemeralKey.None? {
        return None;
      }
      if |requester.ephemeralKey.value| != 32 {
        return None;
      }
      var toPack: seq<SecretRecord> := [];
      for k := 0 to |requests|
        invariant toPack + Released(storage, authorizations, requester, requests[k..], now)
               == Released(storage, authorizations, requester, requests, now)
      {
        var r := requests[k];
        assert requests[k..][1..] == requests[k + 1..];
        var authorized := CheckAuthorization(requester, r.id, r.consumer, now);
        if !authorized {
          continue;
        }
        if r.id in storage && (storage[r.id].expiry == 0 || storage[r.id].expiry > now) {
          toPack := toPack + [SecretRecord(r.id, storage[r.id].data, storage[r.id].expiry, storage[r.id].generation)];
        }
      }
      assert toPack == Released(storage, authorizations, requester, requests, now);
      return Some(EncryptSecretsBox(keypair, requester.ephemeralKey.value, toPack, nonce));
    }

    method GetSecretsForLocalWorker(wanted: seq<(SecretId, string)>, consumer: ConsumerInfo,
                                    own: Option<AttestationBundle>, now: nat)
      returns (env: Option<map<string, Bytes>>)
      ensures env == if own.None? then None
        else Some(WorkerEnv(storage, authorizations, own.value, wanted, consumer, now))
    {
      if own.None? {
        return None;
      }
      var secrets: map<string, Bytes> := map[];
      for k := 0 to |wanted|
        invariant secrets == WorkerEnv(storage, authorizations, own.value, wanted[..k], consumer, now)
      {
        assert wanted[..k + 1][..k] == wanted[..k];
        var id, name := wanted[k].0, wanted[k].1;
        var authorized := CheckAuthorization(own.value, id, consumer, now);
        if authorized && id in storage && (storage[id].expiry == 0 || storage[id].expiry > now) {
          secrets := secrets[name := storage[id].data];
        }
      }
      assert wanted[..|wanted|] == wanted;
      return Some(secrets);
    }

    /** One status per id, in order: whether it is held and unexpired, and its expiry if it is held. */
    method CheckSecrets(ids: seq<SecretId>, now: nat) returns (statuses: seq<SecretStatus>)
      ensures |statuses| == |ids|
      ensures forall i :: 0 <= i < |ids| ==>
        && statuses[i].id == ids[i]
        && (statuses[i].valid <==>
              ids[i] in storage && (storage[ids[i]].expiry == 0 || now < storage[ids[i]].expiry))
        && statuses[i].expiry == if ids[i] in storage then storage[ids[i]].expiry else 0
    {
      statuses := [];
      for k := 0 to |ids|
        invariant |statuses| == k
        invariant forall i :: 0 <= i < k ==>
          && statuses[i].id == ids[i]
          && (statuses[i].valid <==>
                ids[i] in storage && (storage[ids[i]].expiry == 0 || now < storage[ids[i]].expiry))
          && statuses[i].expiry == if ids[i] in storage then storage[ids[i]].expiry else 0
      {
        if ids[k] in storage {
          var expiry := storage[ids[k]].expiry;
          statuses := statuses + [SecretStatus(ids[k], expiry == 0 || expiry > now, expiry)];
        } else {
          statuses := statuses + [SecretStatus(ids[k], false, 0)];
        }
      }
    }

    method StoreAuthorization(request: PolicyRequest, decision: bool, timestamp: nat)
      modifies this`authorizations
      ensures authorizations == if decision then Grant(old(authorizations), request, timestamp) else old(authorizations)
    {
      if !decision {
        return;
      }
      if request.attestation.ephemeralKey.None? {
        return;
      }
      var key := request.attestation.ephemeralKey.value;
      var expiry := timestamp + 3600;
      var ids := request.secretIds;
      for k := 0 to |ids|
        invariant authorizations == Grant(old(authorizations), request.(secretIds := ids[..k]), timestamp)
      {
        GrantOneMore(old(authorizations), request, k, timestamp);
        authorizations := authorizations[AuthorizationId(key, ids[k], request.consumer) := expiry];
      }
      assert ids[..|ids|] == ids;
    }

    /** `execute_policy` once the worker has answered: a wrong number of answers stores nothing. */
    method ExecutePolicy(requests: seq<PolicyRequest>, answers: seq<bool>, now: nat)
      returns (satisfied: Option<seq<PolicyRequest>>)
      modifies this`authorizations
      ensures |answers| != |requests| ==> satisfied.None? && authorizations == old(authorizations)
      ensures |answers| == |requests| ==>
        && satisfied == Some(Satisfied(requests, answers))
        && authorizations == GrantAll(old(authorizations), requests, answers, now)
    {
      if |answers| != |requests| {
        return None;
      }
      var granted: seq<PolicyRequest> := [];
      for k := 0 to |requests|
        invariant GrantAll(authorizations, requests[k..], answers[k..], now) ==
                GrantAll(old(authorizations), requests, answers, now)
        invariant granted + Satisfied(requests[k..], answers[k..]) == Satisfied(requests, answers)
      {
        assert requests[k..][1..] == requests[k + 1..] && answers[k..][1..] == answers[k + 1..];
        if answers[k] {
          StoreAuthorization(requests[k], true, now);
          granted := granted + [requests[k]];
        }
      }
      assert granted == Satisfied(requests, answers);
      return Some(granted);
    }
  }

  /** The contexts returned are those of the parts in turn, and of a single one exactly if it was answered
      true; so they are the satisfied ones, in order. */
  lemma {:induction false} SatisfiedExactly(a: seq<PolicyRequest>, x: seq<bool>, b: seq<PolicyRequest>, y: seq<bool>,
                                            c: PolicyRequest, answer: bool)
    requires |a| == |x| && |b| == |y|
    ensures Satisfied(a + b, x + y) == Satisfied(a, x) + Satisfied(b, y)
    ensures Satisfied([c], [answer]) == if answer then [c] else []
    decreases |a|
  {
    assert [c][1..] == [] && [answer][1..] == [];
    if a == [] {
      assert a + b == b && x + y == y;
    } else {
      assert (a + b)[1..] == a[1..] + b && (x + y)[1..] == x[1..] + y;
      SatisfiedExactly(a[1..], x[1..], b, y, c, answer);
    }
  }

  lemma GrantOneMore(auths: Authorizations, request: PolicyRequest, k: nat, timestamp: nat)
    requires k < |request.secretIds| && request.attestation.ephemeralKey.Some?
    ensures var ids, key := request.secretIds, request.attestation.ephemeralKey.value;
      Grant(auths, request.(secretIds := ids[..k + 1]), timestamp) ==
      var before := Grant(auths, request.(secretIds := ids[..k]), timestamp);
      before[AuthorizationId(key, ids[k], request.consumer) := timestamp + AUTHORIZATION_TTL]
  {
    var ids := request.secretIds;
    assert ids[..k + 1] == ids[..k] + [ids[k]];
    ApprovalsSnoc(request.attestation.ephemeralKey.value, ids[..k], ids[k], request.consumer, timestamp);
  }

  /** The records of one more bundle. */
  function RecordsOf(own: KeyPair, auths: Authorizations, b: Bundle, verify: Verifier, now: nat): seq<SecretRecord> {
    var accepted := Accepted(own, auths, b, verify, now);
    if accepted.Some? then accepted.value else []
  }

  lemma {:induction false} IncomingAppend(own: KeyPair, auths: Authorizations, a: seq<Bundle>, b: seq<Bundle>,
                                          verify: Verifier, now: nat)
    ensures Incoming(own, auths, a + b, verify, now) ==
            Incoming(own, auths, a, verify, now) + Incoming(own, auths, b, verify, now)
    decreases |a|
  {
    if a == [] {
      assert a + b == b;
    } else {
      assert (a + b)[1..] == a[1..] + b;
      IncomingAppend(own, auths, a[1..], b, verify, now);
    }
  }

  lemma IncomingSnoc(own: KeyPair, auths: Authorizations, a: seq<Bundle>, b: Bundle, verify: Verifier, now: nat)
    ensures Incoming(own, auths, a + [b], verify, now) ==
            Incoming(own, auths, a, verify, now) + RecordsOf(own, auths, b, verify, now)
  {
    IncomingAppend(own, auths, a, [b], verify, now);
    assert [b][1..] == [];
    assert RecordsOf(own, auths, b, verify, now) + [] == RecordsOf(own, auths, b, verify, now);
  }

  lemma {:induction false} MergeAppend(storage: Storage, a: seq<SecretRecord>, b: seq<SecretRecord>, now: nat)
    ensures Merge(storage, a + b, now) == Merge(Merge(storage, a, now), b, now)
    ensures StoredCount(storage, a + b, now) ==
            StoredCount(storage, a, now) + StoredCount(Merge(storage, a, now), b, now)
    decreases |a|
  {
    if a == [] {
      assert a + b == b;
    } else {
      assert (a + b)[1..] == a[1..] + b;
      MergeAppend(MergeOne(storage, a[0], now), a[1..], b, now);
    }
  }

  /** Bundles may be put one at a time. */
  lemma {:induction false} MergeFirst(own: KeyPair, auths: Authorizations, storage: Storage, bundles: seq<Bundle>,
                                      verify: Verifier, now: nat)
    requires bundles != []
    ensures var all, rest := Incoming(own, auths, bundles, verify, now), Incoming(own, auths, bundles[1..], verify, now);
      var first := RecordsOf(own, auths, bundles[0], verify, now);
      && Merge(storage, all, now) == Merge(Merge(storage, first, now), rest, now)
      && StoredCount(storage, all, now) ==
         StoredCount(storage, first, now) + StoredCount(Merge(storage, first, now), rest, now)
  {
    var first, rest := RecordsOf(own, auths, bundles[0], verify, now), Incoming(own, auths, bundles[1..], verify, now);
    assert Incoming(own, auths, bundles, verify, now) == first + rest;
    MergeAppend(storage, first, rest, now);
  }
}
