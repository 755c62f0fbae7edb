/** A peer's answer to a request, and what it does to the store of the node that asked: the daemons
    and enclaves of both nodes together. */
module PeerAnswers {
  import opened Bytes
  import opened SealedBoxes
  import opened Enclaves
  import opened Replication
  import opened Daemons
  import opened Nodes
  import opened ResponseApprovals

  /** Entry `i` of what is asked is granted for this id and its first consumer. */
  ghost predicate GrantedFor(storage: Storage, asked: seq<Asked>, verdicts: seq<Verdict>, now: nat, i: nat,
                             r: SecretRequest) {
    && i < |asked| && i < |verdicts| && Granted(storage, asked[i], verdicts[i], now)
    && r == SecretRequest(asked[i].id, asked[i].consumers[0])
  }

  /** Approved afresh by the policy runs for a requester are exactly its key with the ids that are held, live
      and allowed, each for the first consumer named. */
  lemma {:induction false} PeerPlanApproves(storage: Storage, auths: Authorizations, asked: seq<Asked>,
                                            requester: AttestationBundle, verdicts: seq<Verdict>, now: nat,
                                            aid: AuthorizationId)
    requires |verdicts| == |asked|
    ensures var after, r := PeerPlan(storage, auths, asked, requester, verdicts, now).0,
                            SecretRequest(aid.id, aid.consumer);
      if requester.ephemeralKey == Some(aid.key) && exists i: nat :: GrantedFor(storage, asked, verdicts, now, i, r)
      then aid in after && after[aid] == now + AUTHORIZATION_TTL
      else (aid in after <==> aid in auths) && (aid in after ==> after[aid] == auths[aid])
    decreases |asked|
  {
    if asked != [] {
      var r, rest, more := SecretRequest(aid.id, aid.consumer), asked[1..], verdicts[1..];
      var first := Granted(storage, asked[0], verdicts[0], now);
      var next := if first then Grant(auths, PolicyRequest([asked[0].id], asked[0].consumers[0], requester), now)
                  else auths;
      assert forall id :: id in [asked[0].id] <==> id == asked[0].id;
      PeerPlanApproves(storage, next, rest, requester, more, now, aid);
      GrantedForCons(storage, asked, verdicts, now, r);
    }
  }

  lemma GrantedForCons(storage: Storage, asked: seq<Asked>, verdicts: seq<Verdict>, now: nat, r: SecretRequest)
    requires asked != [] && |verdicts| == |asked|
    ensures (exists i: nat :: GrantedFor(storage, asked, verdicts, now, i, r)) <==>
            || GrantedFor(storage, asked, verdicts, now, 0, r)
            || exists i: nat :: GrantedFor(storage, asked[1..], verdicts[1..], now, i, r)
  {
    if i: nat :| GrantedFor(storage, asked[1..], verdicts[1..], now, i, r) {
      assert GrantedFor(storage, asked, verdicts, now, i + 1, r);
    }
    if i: nat :| GrantedFor(storage, asked, verdicts, now, i, r) && i > 0 {
      assert GrantedFor(storage, asked[1..], verdicts[1..], now, i - 1, r);
    }
  }

  /** The requests of a peer that may be passed on, in the order asked. */
  function Grantable(storage: Storage, asked: seq<Asked>, verdicts: seq<Verdict>, now: nat): seq<SecretRequest>
    requires |verdicts| == |asked|
    decreases |asked|
  {
    if asked == [] then []
    else
      var rest := Grantable(storage, asked[1..], verdicts[1..], now);
      if Granted(storage, asked[0], verdicts[0], now)
      then [SecretRequest(asked[0].id, asked[0].consumers[0])] + rest else rest
  }

  lemma {:induction false} PlanIsGrantable(storage: Storage, auths: Authorizations, asked: seq<Asked>,
                                           requester: AttestationBundle, verdicts: seq<Verdict>, now: nat)
    requires |verdicts| == |asked|
    ensures PeerPlan(storage, auths, asked, requester, verdicts, now).1 == Grantable(storage, asked, verdicts, now)
    decreases |asked|
  {
    if asked != [] {
      var next := if Granted(storage, asked[0], verdicts[0], now)
                  then Grant(auths, PolicyRequest([asked[0].id], asked[0].consumers[0], requester), now) else auths;
      PlanIsGrantable(storage, next, asked[1..], requester, verdicts[1..], now);
    }
  }

  lemma {:induction false} GrantableExactly(storage: Storage, asked: seq<Asked>, verdicts: seq<Verdict>, now: nat,
                                            r: SecretRequest)
    requires |verdicts| == |asked|
    ensures r in Grantable(storage, asked, verdicts, now) <==>
            exists i: nat :: GrantedFor(storage, asked, verdicts, now, i, r)
    decreases |asked|
  {
    if asked != [] {
      GrantableExactly(storage, asked[1..], verdicts[1..], now, r);
      GrantedForCons(storage, asked, verdicts, now, r);
    }
  }

  ghost predicate AllReleasable(storage: Storage, auths: Authorizations, requester: AttestationBundle,
                                requests: seq<SecretRequest>, now: nat) {
    forall k :: 0 <= k < |requests| ==> Releasable(storage, auths, requester, requests[k], now)
  }

  /** Every request that the policies allow is one the enclave then releases. */
  lemma PlannedIsReleasable(storage: Storage, auths: Authorizations, asked: seq<Asked>,
                            requester: AttestationBundle, verdicts: seq<Verdict>, now: nat)
    requires |verdicts| == |asked| && requester.ephemeralKey.Some?
    ensures var plan := PeerPlan(storage, auths, asked, requester, verdicts, now);
      AllReleasable(storage, plan.0, requester, plan.1, now)
  {
    var plan := PeerPlan(storage, auths, asked, requester, verdicts, now);
    PlanIsGrantable(storage, auths, asked, requester, verdicts, now);
    forall k | 0 <= k < |plan.1| ensures Releasable(storage, plan.0, requester, plan.1[k], now) {
      var r := plan.1[k];
      GrantableExactly(storage, asked, verdicts, now, r);
      PeerPlanApproves(storage, auths, asked, requester, verdicts, now,
                       AuthorizationId(requester.ephemeralKey.value, r.id, r.consumer));
    }
  }

  lemma {:induction false} AllReleased(storage: Storage, auths: Authorizations, requester: AttestationBundle,
                                       requests: seq<SecretRequest>, now: nat)
    requires AllReleasable(storage, auths, requester, requests, now)
    ensures var records := Released(storage, auths, requester, requests, now);
      && |records| == |requests|
      && forall k :: 0 <= k < |requests| ==>
           requests[k].id in storage && records[k] == RecordOf(storage, requests[k].id)
    decreases |requests|
  {
    if requests != [] {
      assert Releasable(storage, auths, requester, requests[0], now);
      assert forall k :: 0 <= k < |requests| - 1 ==> requests[1..][k] == requests[k + 1];
      AllReleased(storage, auths, requester, requests[1..], now);
    }
  }

  /** A peer answers if and only if its own report could be made, the requester verifies, its user data
      decodes to a 32-byte key, and some id is held, unexpired and allowed.  Its box then lists exactly those
      ids, in the order asked, with the stored entries; so it is never empty. */
  lemma AnswerIsComplete(own: KeyPair, storage: Storage, auths: Authorizations, asked: seq<Asked>,
                         requester: AttestationBundle, verdicts: seq<Verdict>, verify: Verifier, nonce: Bytes,
                         reportOk: bool, now: nat)
    requires |verdicts| == |asked|
    ensures var box := PeerAnswer(own, storage, auths, asked, requester, verdicts, verify, nonce, reportOk, now);
      var granted := Grantable(storage, asked, verdicts, now);
      && (box.Some? <==>
            && reportOk && verify(requester) && requester.ephemeralKey.Some? && |requester.ephemeralKey.value| == 32
            && exists i :: 0 <= i < |asked| && Granted(storage, asked[i], verdicts[i], now))
      && (box.Some? ==>
            && |box.value.containedSecretIds| == |box.value.payload.ciphertext.plaintext| == |granted|
            && forall k :: 0 <= k < |granted| ==>
                && granted[k].id in storage && box.value.containedSecretIds[k] == granted[k].id
                && box.value.payload.ciphertext.plaintext[k] == RecordOf(storage, granted[k].id))
  {
    var plan := PeerPlan(storage, auths, asked, requester, verdicts, now);
    PlanIsGrantable(storage, auths, asked, requester, verdicts, now);
    SomethingGrantable(storage, asked, verdicts, now);
    if requester.ephemeralKey.Some? {
      PlannedIsReleasable(storage, auths, asked, requester, verdicts, now);
      AllReleased(storage, plan.0, requester, plan.1, now);
    }
  }

  lemma SomethingGrantable(storage: Storage, asked: seq<Asked>, verdicts: seq<Verdict>, now: nat)
    requires |verdicts| == |asked|
    ensures Grantable(storage, asked, verdicts, now) != [] <==>
            exists i :: 0 <= i < |asked| && Granted(storage, asked[i], verdicts[i], now)
  {
    var granted := Grantable(storage, asked, verdicts, now);
    if granted != [] {
      GrantableExactly(storage, asked, verdicts, now, granted[0]);
    }
    if i :| 0 <= i < |asked| && Granted(storage, asked[i], verdicts[i], now) {
      var r := SecretRequest(asked[i].id, asked[i].consumers[0]);
      GrantableExactly(storage, asked, verdicts, now, r);
      assert GrantedFor(storage, asked, verdicts, now, i, r);
    }
  }

  // ---------- End to end ----------

  /** Who sealed a response, from which store, for which requests, and when. */
  datatype Origin = Origin(
    peer: KeyPair, storage: Storage, auths: Authorizations, requests: seq<SecretRequest>,
    requester: AttestationBundle, verify: Verifier, nonce: Bytes, sealedAt: nat)

  function RecordsFrom(o: Origin): seq<SecretRecord> {
    Released(o.storage, o.auths, o.requester, o.requests, o.sealedAt)
  }

  ghost function StoreFrom(o: Origin): Storage {
    ReleasedStore(o.storage, o.auths, o.requester, o.requests, o.sealedAt)
  }

  /** What the peer released and is still live. */
  ghost function News(o: Origin, now: nat): Storage {
    LivePart(StoreFrom(o), now)
  }

  ghost function JoinAll(s: Storage, origins: seq<Origin>, now: nat): Storage
    decreases |origins|
  {
    if origins == [] then s else JoinAll(Join(s, News(origins[0], now)), origins[1..], now)
  }

  /** The response is the box that the verified peer of `o` sealed for this enclave. */
  ghost predicate SentFor(env: Env, verify: Verifier, c: Collected, o: Origin) {
    && |o.peer.public| == 32 && |env.own.public| == 32 && |o.nonce| == AES_NONCE_SIZE
    && o.requester.ephemeralKey == Some(env.own.public)
    && SealFor(o.peer, o.storage, o.auths, o.requests, o.requester, o.verify, o.nonce, o.sealedAt) == Some(c.box)
    && verify(c.attestation) && c.attestation.ephemeralKey == Some(o.peer.public)
  }

  ghost function Sealings(origins: seq<Origin>): (r: seq<Sealing>)
    ensures |r| == |origins|
    ensures forall i :: 0 <= i < |r| ==> r[i] == Sealing(origins[i].peer, RecordsFrom(origins[i]), origins[i].nonce)
  {
    if origins == [] then []
    else [Sealing(origins[0].peer, RecordsFrom(origins[0]), origins[0].nonce)] + Sealings(origins[1..])
  }

  lemma {:induction false} MergeAllIsJoinAll(s: Storage, origins: seq<Origin>, now: nat)
    ensures Merge(s, AllRecords(Sealings(origins)), now) == JoinAll(s, origins, now)
    decreases |origins|
  {
    if origins != [] {
      var o, rest := origins[0], AllRecords(Sealings(origins[1..]));
      assert Sealings(origins)[1..] == Sealings(origins[1..]);
      MergeAppend(s, RecordsFrom(o), rest, now);
      ReleasedListsItsStore(o.storage, o.auths, o.requester, o.requests, o.sealedAt);
      MergeOfListedStore(s, RecordsFrom(o), StoreFrom(o), now);
      MergeAllIsJoinAll(Join(s, News(o, now)), origins[1..], now);
    }
  }

  /** The peer released an id that was new here or strictly newer. */
  ghost predicate ImprovedBy(s: Storage, o: Origin, now: nat) {
    exists id :: id in News(o, now) && (id in s ==> News(o, now)[id].generation > s[id].generation)
  }

  ghost predicate Improved(s: Storage, origins: seq<Origin>, now: nat) {
    exists i :: 0 <= i < |origins| && ImprovedBy(s, origins[i], now)
  }

  lemma ImprovedByRecords(s: Storage, o: Origin, now: nat)
    ensures ImprovedBy(s, o, now) <==> exists r :: r in RecordsFrom(o) && Improves(s, r, now)
  {
    ReleasedListsItsStore(o.storage, o.auths, o.requester, o.requests, o.sealedAt);
    ListedStoreCount(s, RecordsFrom(o), StoreFrom(o), now);
    CountPositiveExactly(s, RecordsFrom(o), now);
  }

  lemma {:induction false} RecordsOfAll(origins: seq<Origin>, r: SecretRecord)
    ensures r in AllRecords(Sealings(origins)) <==> exists i :: 0 <= i < |origins| && r in RecordsFrom(origins[i])
    decreases |origins|
  {
    if origins != [] {
      assert Sealings(origins)[1..] == Sealings(origins[1..]);
      RecordsOfAll(origins[1..], r);
      assert forall i :: 0 < i < |origins| ==> origins[i] == origins[1..][i - 1];
    }
  }

  lemma StoredExactlyIfImproved(s: Storage, origins: seq<Origin>, now: nat)
    ensures StoredCount(s, AllRecords(Sealings(origins)), now) > 0 <==> Improved(s, origins, now)
  {
    var records := AllRecords(Sealings(origins));
    CountPositiveExactly(s, records, now);
    if r :| r in records && Improves(s, r, now) {
      RecordsOfAll(origins, r);
      var i :| 0 <= i < |origins| && r in RecordsFrom(origins[i]);
      ImprovedByRecords(s, origins[i], now);
    }
    if i :| 0 <= i < |origins| && ImprovedBy(s, origins[i], now) {
      ImprovedByRecords(s, origins[i], now);
      var r :| r in RecordsFrom(origins[i]) && Improves(s, r, now);
      RecordsOfAll(origins, r);
    }
  }

  /** End to end: in every run of the node that asked, when the collected responses, however many, were
      sealed for it by verified peers, a put that reaches the enclave within 3600 seconds of the start of
      their checks makes the store the per-id newest of what it held and what the peers released and is
      still live; the request goes on to its final check exactly if some id was new or strictly newer
      and the answer got back, and is answered with an error otherwise. */
  lemma ResponsesReplicate(env: Env, states: seq<Node>, events: seq<Event>, k: nat, r: nat, origins: seq<Origin>,
                           verify: Verifier, reply: Reply)
    requires IsRun(env, states, events) && k <= |events| && !reply.NotSent?
    requires r in states[k].table.tasks && states[k].table.tasks[r].PutTask?
    requires var p := states[k].table.tasks[r].p;
      && |origins| == |p.collected|
      && forall i :: 0 <= i < |origins| ==>
          SentFor(env, verify, p.collected[i], origins[i]) && Timely(p, p.collected[i], states[k].now)
    ensures var n := states[k];
      && Next(env, n, RunPut(r, verify, reply)).enclave.storage == JoinAll(n.enclave.storage, origins, n.now)
      && Next(env, n, RunPut(r, verify, reply)).table ==
        Advanced(n.table, r, reply.Answered? && Improved(n.enclave.storage, origins, n.now))
  {
    var n := states[k];
    var p := n.table.tasks[r].p;
    forall i | 0 <= i < |origins| ensures SealedFor(env, verify, p.collected[i], Sealings(origins)[i]) {
      assert SentFor(env, verify, p.collected[i], origins[i]);
    }
    AcceptedResponsesAreStored(env, states, events, k, r, Sealings(origins), verify, reply);
    MergeAllIsJoinAll(n.enclave.storage, origins, n.now);
    StoredExactlyIfImproved(n.enclave.storage, origins, n.now);
  }
}
