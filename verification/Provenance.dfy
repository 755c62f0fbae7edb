/** What holds of one enclave over every run: its store only grows and gets newer, and nothing leaves
    it without a recent approval. */
module Provenance {
  import opened Bytes
  import opened SealedBoxes
  import opened Enclaves
  import opened Replication

  datatype Enclave = Enclave(storage: Storage, auths: Authorizations)

  datatype Action =
    | RunPolicy(now: nat, requests: seq<PolicyRequest>, answers: seq<bool>)
    | Put(now: nat, bundles: seq<Bundle>, verify: Verifier)
    | GenerateNew(now: nat, generated: seq<SecretRequest>, self: Option<AttestationBundle>, entropy: seq<Option<Bytes>>)
    | Seal(now: nat, asked: seq<SecretRequest>, requester: AttestationBundle, nonce: Bytes, verify: Verifier)
    | GiveWorker(now: nat, wanted: seq<(SecretId, string)>, consumer: ConsumerInfo, self: Option<AttestationBundle>)

  predicate ActionOk(a: Action) {
    a.GenerateNew? ==> |a.entropy| == |a.generated|
  }

  /** The effect of one operation of the enclave, as the methods of `Secrets` compute it. */
  function Next(own: KeyPair, e: Enclave, a: Action): Enclave
    requires ActionOk(a)
  {
    match a
    case RunPolicy(now, requests, answers) =>
      if |answers| == |requests| then e.(auths := GrantAll(e.auths, requests, answers, now)) else e
    case Put(now, bundles, verify) =>
      e.(storage := Merge(e.storage, Incoming(own, e.auths, bundles, verify, now), now))
    case GenerateNew(now, requests, self, entropy) =>
      if self.Some? then e.(storage := Generate(e.storage, e.auths, self.value, requests, entropy, now).0) else e
    case Seal(_, _, _, _, _) => e
    case GiveWorker(_, _, _, _) => e
  }

  /** A run from an empty enclave, with a clock that never goes back. */
  ghost predicate IsRun(own: KeyPair, states: seq<Enclave>, actions: seq<Action>) {
    && |states| == |actions| + 1 && states[0] == Enclave(map[], map[])
    && (forall i :: 0 <= i < |actions| ==>
          ActionOk(actions[i]) && states[i + 1] == Next(own, states[i], actions[i]))
    && (forall i, j :: 0 <= i < j < |actions| ==> actions[i].now <= actions[j].now)
  }

  /** The class performs exactly these steps. */
  method Perform(secrets: Secrets, a: Action)
    requires ActionOk(a)
    modifies secrets
    ensures Enclave(secrets.storage, secrets.authorizations) ==
            Next(secrets.keypair, Enclave(old(secrets.storage), old(secrets.authorizations)), a)
  {
    match a
    case RunPolicy(now, requests, answers) =>
      var _ := secrets.ExecutePolicy(requests, answers, now);
    case Put(now, bundles, verify) =>
      var _ := secrets.PutSecrets(bundles, verify, now);
    case GenerateNew(now, requests, self, entropy) =>
      var _ := secrets.GenerateSecrets(requests, self, entropy, now);
    case Seal(now, requests, requester, nonce, verify) =>
      var _ := secrets.GetSecrets(requests, requester, verify, nonce, now);
    case GiveWorker(now, wanted, consumer, self) =>
      var _ := secrets.GetSecretsForLocalWorker(wanted, consumer, self, now);
  }

  // ---------- The store only grows, and entries only get newer ----------

  /** Nothing is removed; an entry changes only to a strictly newer one. */
  ghost predicate Grows(s: Storage, t: Storage) {
    forall id :: id in s ==> id in t && (t[id] == s[id] || t[id].generation > s[id].generation)
  }

  lemma {:induction false} MergeGrows(storage: Storage, records: seq<SecretRecord>, now: nat)
    ensures Grows(storage, Merge(storage, records, now))
    decreases |records|
  {
    if records != [] {
      MergeGrows(MergeOne(storage, records[0], now), records[1..], now);
    }
  }

  /** Generation leaves every existing entry as it is, also when it stops half-way with an error;
      what it adds never expires, is stamped now, and was authorised for this enclave's key. */
  lemma {:induction false} GenerateOnlyAdds(storage: Storage, auths: Authorizations, self: AttestationBundle,
                                            requests: seq<SecretRequest>, entropy: seq<Option<Bytes>>, now: nat)
    requires |entropy| == |requests|
    ensures var t := Generate(storage, auths, self, requests, entropy, now).0;
      && (forall id :: id in storage ==> id in t && t[id] == storage[id])
      && (forall id :: id in t && id !in storage ==>
            && t[id].expiry == 0 && t[id].generation == now
            && exists k ::
                0 <= k < |requests| && requests[k].id == id && Authorized(auths, self, id, requests[k].consumer, now)
                 && entropy[k] == Some(t[id].data))
    decreases |requests|
  {
    if requests != [] {
      var r, rest, more := requests[0], requests[1..], entropy[1..];
      assert forall k :: 0 <= k < |rest| ==> rest[k] == requests[k + 1] && more[k] == entropy[k + 1];
      if !Authorized(auths, self, r.id, r.consumer, now) {
        GenerateOnlyAdds(storage, auths, self, rest, more, now);
      } else if r.id !in storage && entropy[0].Some? {
        GenerateOnlyAdds(storage[r.id := StoredSecret(entropy[0].value, 0, now)], auths, self, rest, more, now);
      }
    }
  }

  /** Generation succeeds if and only if every authorised request names a new id, no two of them the
      same one, and the random source answers for each. */
  ghost predicate GenerationFits(storage: Storage, auths: Authorizations, self: AttestationBundle,
                                 requests: seq<SecretRequest>, entropy: seq<Option<Bytes>>, now: nat)
    requires |entropy| == |requests|
  {
    forall k :: 0 <= k < |requests| && Authorized(auths, self, requests[k].id, requests[k].consumer, now) ==>
      && requests[k].id !in storage && entropy[k].Some?
      && forall j :: 0 <= j < k && Authorized(auths, self, requests[j].id, requests[j].consumer, now) ==>
          requests[j].id != requests[k].id
  }

  lemma {:induction false} GenerateSucceedsExactly(storage: Storage, auths: Authorizations, self: AttestationBundle,
                                                   requests: seq<SecretRequest>, entropy: seq<Option<Bytes>>, now: nat)
    requires |entropy| == |requests|
    ensures Generate(storage, auths, self, requests, entropy, now).1 <==>
            GenerationFits(storage, auths, self, requests, entropy, now)
    decreases |requests|
  {
    if requests != [] {
      var r, rest, more := requests[0], requests[1..], entropy[1..];
      assert forall k :: 0 <= k < |rest| ==> rest[k] == requests[k + 1] && more[k] == entropy[k + 1];
      assert forall k :: 0 < k < |requests| ==> requests[k] == rest[k - 1] && entropy[k] == more[k - 1];
      if !Authorized(auths, self, r.id, r.consumer, now) {
        GenerateSucceedsExactly(storage, auths, self, rest, more, now);
      } else if r.id !in storage && entropy[0].Some? {
        GenerateSucceedsExactly(storage[r.id := StoredSecret(entropy[0].value, 0, now)], auths, self, rest, more, now);
      }
    }
  }

  lemma NextGrows(own: KeyPair, e: Enclave, a: Action)
    requires ActionOk(a)
    ensures Grows(e.storage, Next(own, e, a).storage)
  {
    match a
    case Put(now, bundles, verify) => MergeGrows(e.storage, Incoming(own, e.auths, bundles, verify, now), now);
    case GenerateNew(now, requests, self, entropy) =>
      if self.Some? {
        GenerateOnlyAdds(e.storage, e.auths, self.value, requests, entropy, now);
      }
    case _ =>
  }

  /** Store monotonicity, between any two points of any run. */
  lemma {:induction false} StoreMonotone(own: KeyPair, states: seq<Enclave>, actions: seq<Action>,
                                         i: nat, j: nat)
    requires IsRun(own, states, actions) && i <= j <= |actions|
    ensures Grows(states[i].storage, states[j].storage)
    decreases j - i
  {
    if i < j {
      StoreMonotone(own, states, actions, i, j - 1);
      NextGrows(own, states[j - 1], actions[j - 1]);
    }
  }

  // ---------- Approvals ----------

  /** Action `a` is a policy run that answered true for this key, secret and consumer. */
  ghost predicate Approves(a: Action, aid: AuthorizationId) {
    && a.RunPolicy? && |a.answers| == |a.requests|
    && exists c :: 0 <= c < |a.requests| && a.answers[c]
         && a.requests[c].attestation.ephemeralKey == Some(aid.key)
         && aid.id in a.requests[c].secretIds && a.requests[c].consumer == aid.consumer
  }

  /** Granting touches exactly the approved ids and stamps them with the time of the run. */
  lemma {:induction false} GrantAllEntries(auths: Authorizations, requests: seq<PolicyRequest>, answers: seq<bool>,
                                           now: nat, aid: AuthorizationId)
    requires |requests| == |answers|
    ensures var after := GrantAll(auths, requests, answers, now);
      if Approves(RunPolicy(now, requests, answers), aid) then aid in after && after[aid] == now + AUTHORIZATION_TTL
      else (aid in after <==> aid in auths) && (aid in after ==> after[aid] == auths[aid])
    decreases |requests|
  {
    if requests != [] {
      var first := if answers[0] then Grant(auths, requests[0], now) else auths;
      GrantAllEntries(first, requests[1..], answers[1..], now, aid);
      ApprovesFirstOrRest(requests, answers, now, aid);
    }
  }

  lemma ApprovesFirstOrRest(requests: seq<PolicyRequest>, answers: seq<bool>, now: nat, aid: AuthorizationId)
    requires |requests| == |answers| > 0
    ensures Approves(RunPolicy(now, requests, answers), aid) <==>
      || (answers[0] && requests[0].attestation.ephemeralKey == Some(aid.key)
          && aid.id in requests[0].secretIds && requests[0].consumer == aid.consumer)
      || Approves(RunPolicy(now, requests[1..], answers[1..]), aid)
  {
    var run, tail := RunPolicy(now, requests, answers), RunPolicy(now, requests[1..], answers[1..]);
    if Approves(tail, aid) {
      var c :| 0 <= c < |requests| - 1 && answers[1..][c]
        && requests[1..][c].attestation.ephemeralKey == Some(aid.key)
        && aid.id in requests[1..][c].secretIds && requests[1..][c].consumer == aid.consumer;
      assert answers[c + 1] && requests[c + 1] == requests[1..][c];
      assert Approves(run, aid);
    }
    if Approves(run, aid) {
      var c :| 0 <= c < |requests| && answers[c] && requests[c].attestation.ephemeralKey == Some(aid.key)
        && aid.id in requests[c].secretIds && requests[c].consumer == aid.consumer;
      assert c > 0 ==> answers[1..][c - 1] && requests[1..][c - 1] == requests[c];
    }
  }

  /** Every stored authorization is the trace of an approval in the past of the run. */
  ghost predicate Backed(actions: seq<Action>, k: nat, auths: Authorizations)
    requires k <= |actions|
  {
    forall aid :: aid in auths ==>
      exists p :: 0 <= p < k && Approves(actions[p], aid) && auths[aid] == actions[p].now + AUTHORIZATION_TTL
  }

  lemma {:induction false} AuthorizationsBacked(own: KeyPair, states: seq<Enclave>,
                                                actions: seq<Action>, k: nat)
    requires IsRun(own, states, actions) && k <= |actions|
    ensures Backed(actions, k, states[k].auths)
  {
    if k > 0 {
      AuthorizationsBacked(own, states, actions, k - 1);
      var a, before, after := actions[k - 1], states[k - 1].auths, states[k].auths;
      forall aid | aid in after
        ensures exists p :: 0 <= p < k && Approves(actions[p], aid) && after[aid] == actions[p].now + AUTHORIZATION_TTL
      {
        if a.RunPolicy? && |a.answers| == |a.requests| {
          GrantAllEntries(before, a.requests, a.answers, a.now, aid);
        }
        if a.RunPolicy? && Approves(a, aid) {
          assert after[aid] == actions[k - 1].now + AUTHORIZATION_TTL;
        } else {
          assert aid in before && before[aid] == after[aid];
        }
      }
    }
  }

  /** An approval lasts: whatever happens later, it is stored with its own time or a later one. */
  lemma {:induction false} ApprovalLasts(own: KeyPair, states: seq<Enclave>, actions: seq<Action>, p: nat, k: nat,
                                         aid: AuthorizationId)
    requires IsRun(own, states, actions) && p < k <= |actions| && Approves(actions[p], aid)
    ensures aid in states[k].auths && states[k].auths[aid] >= actions[p].now + AUTHORIZATION_TTL
    decreases k
  {
    var a := actions[k - 1];
    if p < k - 1 {
      ApprovalLasts(own, states, actions, p, k - 1, aid);
    }
    if a.RunPolicy? && |a.answers| == |a.requests| {
      GrantAllEntries(states[k - 1].auths, a.requests, a.answers, a.now, aid);
    }
  }

  /** In every run, at any time after step `k`: authorised is exactly what a policy run before it approved,
      less than 3600 seconds earlier. */
  lemma AuthorizedExactly(own: KeyPair, states: seq<Enclave>, actions: seq<Action>, k: nat, bundle: AttestationBundle,
                          id: SecretId, consumer: ConsumerInfo, now: nat)
    requires IsRun(own, states, actions) && k <= |actions|
    ensures Authorized(states[k].auths, bundle, id, consumer, now) <==>
            && bundle.ephemeralKey.Some?
            && exists p :: 0 <= p < k && Approves(actions[p], AuthorizationId(bundle.ephemeralKey.value, id, consumer))
                 && now < actions[p].now + AUTHORIZATION_TTL
  {
    if bundle.ephemeralKey.Some? {
      var aid := AuthorizationId(bundle.ephemeralKey.value, id, consumer);
      AuthorizationsBacked(own, states, actions, k);
      if p :| 0 <= p < k && Approves(actions[p], aid) && now < actions[p].now + AUTHORIZATION_TTL {
        ApprovalLasts(own, states, actions, p, k, aid);
      }
    }
  }

  /** A policy run of the past, less than an hour ago, answered true for this key, secret and consumer. */
  ghost predicate RecentlyApproved(actions: seq<Action>, k: nat, key: Bytes, id: SecretId, consumer: ConsumerInfo)
    requires k < |actions|
  {
    exists p :: 0 <= p < k && Approves(actions[p], AuthorizationId(key, id, consumer))
      && actions[p].now <= actions[k].now < actions[p].now + AUTHORIZATION_TTL
  }

  lemma AuthorizedIsApproved(own: KeyPair, states: seq<Enclave>, actions: seq<Action>, k: nat,
                             bundle: AttestationBundle, id: SecretId, consumer: ConsumerInfo)
    requires IsRun(own, states, actions) && k < |actions|
    ensures Authorized(states[k].auths, bundle, id, consumer, actions[k].now) <==>
            && bundle.ephemeralKey.Some?
            && RecentlyApproved(actions, k, bundle.ephemeralKey.value, id, consumer)
  {
    AuthorizedExactly(own, states, actions, k, bundle, id, consumer, actions[k].now);
  }

  // ---------- What a put takes in ----------

  /** Bundle `b` passes every check of put `k` that comes before its box is opened: its sender verifies, the
      box is under the sender's key, and every id it lists was approved, less than 3600 seconds earlier, for
      that key and the bundle's consumer. */
  ghost predicate Vouched(actions: seq<Action>, k: nat, b: Bundle)
    requires k < |actions| && actions[k].Put?
  {
    && actions[k].verify(b.attestation) && b.attestation.ephemeralKey == Some(b.box.senderPublicKey)
    && forall i :: 0 <= i < |b.box.containedSecretIds| ==>
        RecentlyApproved(actions, k, b.box.senderPublicKey, b.box.containedSecretIds[i], b.consumer)
  }

  /** The box of `b` opens here to a record for `id` with this content, unexpired at put `k`. */
  ghost predicate Brings(own: KeyPair, actions: seq<Action>, k: nat, b: Bundle, id: SecretId, s: StoredSecret)
    requires k < |actions|
  {
    var content := DecryptSecretsBox(own, b.box);
    && content.Some? && SecretRecord(id, s.data, s.expiry, s.generation) in content.value
    && (s.expiry == 0 || actions[k].now < s.expiry)
  }

  /** A vouched bundle of put `k` brings this entry. */
  ghost predicate Arrives(own: KeyPair, actions: seq<Action>, k: nat, id: SecretId, s: StoredSecret)
    requires k < |actions| && actions[k].Put?
  {
    exists b :: b in actions[k].bundles && Vouched(actions, k, b) && Brings(own, actions, k, b, id, s)
  }

  lemma VouchedExactly(own: KeyPair, states: seq<Enclave>, actions: seq<Action>, k: nat, b: Bundle)
    requires IsRun(own, states, actions) && k < |actions| && actions[k].Put?
    ensures Accepted(own, states[k].auths, b, actions[k].verify, actions[k].now) ==
            if Vouched(actions, k, b) then DecryptSecretsBox(own, b.box) else None
  {
    var ids := b.box.containedSecretIds;
    if b.attestation.ephemeralKey == Some(b.box.senderPublicKey) {
      forall i | 0 <= i < |ids|
        ensures Authorized(states[k].auths, b.attestation, ids[i], b.consumer, actions[k].now) <==>
                RecentlyApproved(actions, k, b.box.senderPublicKey, ids[i], b.consumer)
      {
        AuthorizedIsApproved(own, states, actions, k, b.attestation, ids[i], b.consumer);
      }
    }
  }

  lemma {:induction false} IncomingRecords(own: KeyPair, auths: Authorizations, bundles: seq<Bundle>, verify: Verifier,
                                           now: nat, r: SecretRecord)
    ensures r in Incoming(own, auths, bundles, verify, now) <==>
            exists b :: b in bundles && r in RecordsOf(own, auths, b, verify, now)
    decreases |bundles|
  {
    if bundles != [] {
      IncomingRecords(own, auths, bundles[1..], verify, now, r);
      assert Incoming(own, auths, bundles, verify, now) ==
        RecordsOf(own, auths, bundles[0], verify, now) + Incoming(own, auths, bundles[1..], verify, now);
      assert forall b :: b in bundles <==> b == bundles[0] || b in bundles[1..];
    }
  }

  lemma ArrivingIsOffered(own: KeyPair, states: seq<Enclave>, actions: seq<Action>, k: nat, id: SecretId,
                          s: StoredSecret)
    requires IsRun(own, states, actions) && k < |actions| && actions[k].Put?
    ensures var a := actions[k];
      Offered(Incoming(own, states[k].auths, a.bundles, a.verify, a.now), a.now, id, s) <==>
      Arrives(own, actions, k, id, s)
  {
    var a, r := actions[k], SecretRecord(id, s.data, s.expiry, s.generation);
    var records := Incoming(own, states[k].auths, a.bundles, a.verify, a.now);
    assert Offered(records, a.now, id, s) <==> r in records && Live(s.expiry, a.now);
    IncomingRecords(own, states[k].auths, a.bundles, a.verify, a.now, r);
    forall b ensures r in RecordsOf(own, states[k].auths, b, a.verify, a.now) <==>
      Vouched(actions, k, b) && DecryptSecretsBox(own, b.box).Some? && r in DecryptSecretsBox(own, b.box).value {
      VouchedExactly(own, states, actions, k, b);
    }
  }

  /** In every run, a put leaves for each id a newest of the entry held and the entries that vouched bundles
      bring, and nothing else; the held entry loses only to a strictly newer one. */
  lemma PutExactly(own: KeyPair, states: seq<Enclave>, actions: seq<Action>, k: nat, id: SecretId)
    requires IsRun(own, states, actions) && k < |actions| && actions[k].Put?
    ensures var s, t := states[k].storage, states[k + 1].storage;
      && (id in t <==> id in s || exists x :: Arrives(own, actions, k, id, x))
      && (id in t ==> (id in s && t[id] == s[id]) || Arrives(own, actions, k, id, t[id]))
      && (id in t ==> forall x :: Arrives(own, actions, k, id, x) ==> x.generation <= t[id].generation)
      && (id in s ==> s[id].generation < t[id].generation || t[id] == s[id])
  {
    var a := actions[k];
    var records := Incoming(own, states[k].auths, a.bundles, a.verify, a.now);
    MergeKeepsNewest(states[k].storage, records, a.now, id);
    forall x ensures Offered(records, a.now, id, x) <==> Arrives(own, actions, k, id, x) {
      ArrivingIsOffered(own, states, actions, k, id, x);
    }
  }

  /** And it reports a change if and only if a vouched bundle brings an entry for an id that was not held, or
      a strictly newer one. */
  lemma PutReportsExactly(own: KeyPair, states: seq<Enclave>, actions: seq<Action>, k: nat)
    requires IsRun(own, states, actions) && k < |actions| && actions[k].Put?
    ensures var a, s := actions[k], states[k].storage;
      StoredCount(s, Incoming(own, states[k].auths, a.bundles, a.verify, a.now), a.now) > 0 <==>
      exists id, x ::
        Arrives(own, actions, k, id, x) && (id in s ==> x.generation > s[id].generation)
  {
    var a, s := actions[k], states[k].storage;
    var records := Incoming(own, states[k].auths, a.bundles, a.verify, a.now);
    CountPositiveExactly(s, records, a.now);
    if r :| r in records && Improves(s, r, a.now) {
      assert Offered(records, a.now, r.id, Stored(r));
      ArrivingIsOffered(own, states, actions, k, r.id, Stored(r));
    }
    if id, x :| Arrives(own, actions, k, id, x) && (id in s ==> x.generation > s[id].generation) {
      ArrivingIsOffered(own, states, actions, k, id, x);
      var r :| r in records && r.id == id && Live(r.expiry, a.now) && Stored(r) == x;
      assert Improves(s, r, a.now);
    }
  }

  /** A bundle that is not vouched for, for instance because one listed id was not recently approved, changes
      nothing: the put does the same without it. */
  lemma UnvouchedIsIgnored(own: KeyPair, states: seq<Enclave>, actions: seq<Action>, k: nat, before: seq<Bundle>,
                           b: Bundle, after: seq<Bundle>)
    requires IsRun(own, states, actions) && k < |actions| && actions[k].Put?
    requires actions[k].bundles == before + [b] + after && !Vouched(actions, k, b)
    ensures states[k + 1] == Next(own, states[k], actions[k].(bundles := before + after))
  {
    var a, auths := actions[k], states[k].auths;
    VouchedExactly(own, states, actions, k, b);
    IncomingSnoc(own, auths, before, b, a.verify, a.now);
    IncomingAppend(own, auths, before + [b], after, a.verify, a.now);
    IncomingAppend(own, auths, before, after, a.verify, a.now);
    var records := Incoming(own, auths, before, a.verify, a.now);
    assert records + [] == records;
  }

  /** Generated at step `p`: never expiring, stamped with the time, for an id recently approved for the
      enclave's own key. */
  ghost predicate GeneratedAt(actions: seq<Action>, p: nat, id: SecretId, s: StoredSecret)
    requires p < |actions|
  {
    && actions[p].GenerateNew? && actions[p].self.Some? && actions[p].self.value.ephemeralKey.Some?
    && s.expiry == 0 && s.generation == actions[p].now
    && exists consumer :: SecretRequest(id, consumer) in actions[p].generated
         && RecentlyApproved(actions, p, actions[p].self.value.ephemeralKey.value, id, consumer)
  }

  ghost predicate CameAt(own: KeyPair, actions: seq<Action>, p: nat, id: SecretId, s: StoredSecret) {
    && p < |actions|
    && (GeneratedAt(actions, p, id, s) || (actions[p].Put? && Arrives(own, actions, p, id, s)))
  }

  lemma GeneratedOrHeld(own: KeyPair, states: seq<Enclave>, actions: seq<Action>, p: nat, id: SecretId)
    requires IsRun(own, states, actions) && p < |actions| && actions[p].GenerateNew? && id in states[p + 1].storage
    ensures (id in states[p].storage && states[p + 1].storage[id] == states[p].storage[id])
            || GeneratedAt(actions, p, id, states[p + 1].storage[id])
  {
    var a, e := actions[p], states[p];
    if a.self.Some? {
      GenerateOnlyAdds(e.storage, e.auths, a.self.value, a.generated, a.entropy, a.now);
      if id !in e.storage {
        var i :| 0 <= i < |a.generated| && a.generated[i].id == id
          && Authorized(e.auths, a.self.value, id, a.generated[i].consumer, a.now);
        AuthorizedIsApproved(own, states, actions, p, a.self.value, id, a.generated[i].consumer);
        assert a.generated[i] == SecretRequest(id, a.generated[i].consumer);
      }
    }
  }

  /** Whatever an enclave holds at any point of any run was generated in it, or came in the box of a vouched
      bundle. */
  lemma {:induction false} EveryEntryVouched(own: KeyPair, states: seq<Enclave>, actions: seq<Action>, k: nat,
                                             id: SecretId)
    requires IsRun(own, states, actions) && k <= |actions| && id in states[k].storage
    ensures exists p :: 0 <= p < k && CameAt(own, actions, p, id, states[k].storage[id])
  {
    if k > 0 {
      var p := k - 1;
      var kept := id in states[p].storage && states[p].storage[id] == states[k].storage[id];
      if actions[p].Put? {
        PutExactly(own, states, actions, p, id);
      } else if actions[p].GenerateNew? {
        GeneratedOrHeld(own, states, actions, p, id);
      }
      assert kept || CameAt(own, actions, p, id, states[k].storage[id]);
      if kept {
        EveryEntryVouched(own, states, actions, p, id);
      }
    }
  }

  // ---------- Release provenance ----------

  /** In every run, exactly what leaves in a box: there is one if and only if the requester verifies, its
      user data decodes and its key has 32 bytes; and a record is in it if and only if it is the stored
      entry of its id, unexpired, asked for under a consumer for which a policy run, less than 3600 seconds
      earlier, approved the key the box is sealed to. */
  lemma SealedProvenance(own: KeyPair, states: seq<Enclave>, actions: seq<Action>, k: nat,
                         r: SecretRecord)
    requires IsRun(own, states, actions) && k < |actions| && actions[k].Seal?
    ensures var a, e := actions[k], states[k];
      var box := SealFor(own, e.storage, e.auths, a.asked, a.requester, a.verify, a.nonce, a.now);
      && (box.Some? <==>
            a.verify(a.requester) && a.requester.ephemeralKey.Some? && |a.requester.ephemeralKey.value| == 32)
      && (box.Some? ==>
            (r in box.value.payload.ciphertext.plaintext <==>
              && r.id in e.storage && Stored(r) == e.storage[r.id] && (r.expiry == 0 || a.now < r.expiry)
              && exists consumer :: SecretRequest(r.id, consumer) in a.asked
                   && RecentlyApproved(actions, k, a.requester.ephemeralKey.value, r.id, consumer)))
  {
    var a, e := actions[k], states[k];
    ReleasedRecords(e.storage, e.auths, a.requester, a.asked, a.now, r);
    forall consumer ensures Authorized(e.auths, a.requester, r.id, consumer, a.now) <==>
      a.requester.ephemeralKey.Some? && RecentlyApproved(actions, k, a.requester.ephemeralKey.value, r.id, consumer) {
      AuthorizedIsApproved(own, states, actions, k, a.requester, r.id, consumer);
    }
    assert forall i :: 0 <= i < |a.asked| ==> a.asked[i] == SecretRequest(a.asked[i].id, a.asked[i].consumer);
  }

  /** Entry `i` of what is wanted is for `name` and can be given. */
  ghost predicate Givable(storage: Storage, auths: Authorizations, self: AttestationBundle,
                          wanted: seq<(SecretId, string)>, consumer: ConsumerInfo, now: nat, name: string, i: nat) {
    && i < |wanted| && wanted[i].1 == name
    && Releasable(storage, auths, self, SecretRequest(wanted[i].0, consumer), now)
  }

  lemma {:induction false} WorkerEnvExactly(storage: Storage, auths: Authorizations, self: AttestationBundle,
                                            wanted: seq<(SecretId, string)>, consumer: ConsumerInfo,
                                            now: nat, name: string)
    ensures var env := WorkerEnv(storage, auths, self, wanted, consumer, now);
      && (forall i: nat :: Givable(storage, auths, self, wanted, consumer, now, name, i) ==> name in env)
      && (name in env ==>
            exists i: nat :: Givable(storage, auths, self, wanted, consumer, now, name, i)
              && env[name] == storage[wanted[i].0].data
              && forall j: nat :: Givable(storage, auths, self, wanted, consumer, now, name, j) ==> j <= i)
    decreases |wanted|
  {
    if wanted != [] {
      var n := |wanted| - 1;
      WorkerEnvExactly(storage, auths, self, wanted[..n], consumer, now, name);
      assert forall i: nat :: i < n ==>
        (Givable(storage, auths, self, wanted, consumer, now, name, i) <==>
         Givable(storage, auths, self, wanted[..n], consumer, now, name, i));
      if Givable(storage, auths, self, wanted, consumer, now, name, n) {
        assert forall j: nat :: Givable(storage, auths, self, wanted, consumer, now, name, j) ==> j <= n;
      }
    }
  }

  /** At step `k`, entry `i` of what a worker wants is for `name`, held and unexpired, and was approved, less
      than 3600 seconds earlier, for this enclave's key and the worker. */
  ghost predicate GivenAt(states: seq<Enclave>, actions: seq<Action>, k: nat, name: string, i: nat)
    requires k < |actions| < |states| && actions[k].GiveWorker?
  {
    var a, e := actions[k], states[k];
    && a.self.Some? && a.self.value.ephemeralKey.Some? && i < |a.wanted| && a.wanted[i].1 == name
    && a.wanted[i].0 in e.storage
    && (e.storage[a.wanted[i].0].expiry == 0 || a.now < e.storage[a.wanted[i].0].expiry)
    && RecentlyApproved(actions, k, a.self.value.ephemeralKey.value, a.wanted[i].0, a.consumer)
  }

  /** In every run, exactly what a local worker is given: a value under each name for which some secret can be
      given, namely the data of the last such. */
  lemma WorkerProvenance(own: KeyPair, states: seq<Enclave>, actions: seq<Action>, k: nat,
                         name: string)
    requires IsRun(own, states, actions) && k < |actions| && actions[k].GiveWorker? && actions[k].self.Some?
    ensures var a, e := actions[k], states[k];
      var env := WorkerEnv(e.storage, e.auths, a.self.value, a.wanted, a.consumer, a.now);
      && (name in env <==> exists i: nat :: GivenAt(states, actions, k, name, i))
      && (name in env ==>
            exists i: nat :: GivenAt(states, actions, k, name, i) && env[name] == e.storage[a.wanted[i].0].data
              && forall j: nat :: GivenAt(states, actions, k, name, j) ==> j <= i)
  {
    var a, e := actions[k], states[k];
    WorkerEnvExactly(e.storage, e.auths, a.self.value, a.wanted, a.consumer, a.now, name);
    forall i: nat ensures GivenAt(states, actions, k, name, i) <==>
      Givable(e.storage, e.auths, a.self.value, a.wanted, a.consumer, a.now, name, i) {
      if i < |a.wanted| {
        AuthorizedIsApproved(own, states, actions, k, a.self.value, a.wanted[i].0, a.consumer);
      }
    }
  }
}
