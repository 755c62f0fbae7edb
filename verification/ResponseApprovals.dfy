/** The daemon's policy checks on a response leave in the enclave exactly the approvals its own put
    will look for (secrets.rs, runner.rs and execution.rs of daemon and enclave together). */
module ResponseApprovals {
  import opened Bytes
  import opened SealedBoxes
  import opened Enclaves
  import opened Daemons
  import opened PendingTables
  import opened Nodes
  import opened NodeEnclaves

  // ---------- Approvals are only ever prolonged ----------

  ghost predicate Prolonged(a: Authorizations, b: Authorizations) {
    forall aid :: aid in a ==> aid in b && a[aid] <= b[aid]
  }

  ghost predicate Bounded(auths: Authorizations, now: nat) {
    forall aid :: aid in auths ==> auths[aid] <= now + AUTHORIZATION_TTL
  }

  lemma GrantAllProlongs(auths: Authorizations, requests: seq<PolicyRequest>, answers: seq<bool>, now: nat)
    requires Bounded(auths, now) && |requests| == |answers|
    ensures var after := GrantAll(auths, requests, answers, now); Prolonged(auths, after) && Bounded(after, now)
  {
    var after := GrantAll(auths, requests, answers, now);
    forall aid ensures (aid in auths ==> aid in after && auths[aid] <= after[aid])
      && (aid in after ==> after[aid] <= now + AUTHORIZATION_TTL) {
      Provenance.GrantAllEntries(auths, requests, answers, now, aid);
    }
  }

  lemma NextProlongs(env: Env, n: Node, e: Event)
    requires Bounded(n.enclave.auths, n.now)
    ensures var m := Next(env, n, e);
      Prolonged(n.enclave.auths, m.enclave.auths) && Bounded(m.enclave.auths, m.now) && n.now <= m.now
  {
    var a := ActionOf(n, e);
    EnclaveSteps(env, n, e);
    ClockStep(env, n, e);
    if a.RunPolicy? && |a.answers| == |a.requests| {
      GrantAllProlongs(n.enclave.auths, a.requests, a.answers, n.now);
    }
  }

  // ---------- Every collected bundle stays covered ----------

  /** For each id, under the consumer the request names for it, the sender's key is approved until at
      least an hour after `since`. */
  ghost predicate Covered(auths: Authorizations, sender: AttestationBundle, ids: seq<SecretId>,
                          consumers: map<SecretId, ConsumerInfo>, since: nat) {
    forall i :: 0 <= i < |ids| ==>
      && ids[i] in consumers
      && (sender.ephemeralKey.Some? ==>
            var aid := AuthorizationId(sender.ephemeralKey.value, ids[i], consumers[ids[i]]);
            aid in auths && auths[aid] >= since + AUTHORIZATION_TTL)
  }

  ghost predicate BundlesCovered(auths: Authorizations, p: Pending, now: nat) {
    forall c :: c in p.collected ==>
      c.since <= now && Covered(auths, c.attestation, c.box.containedSecretIds, p.consumersById, c.since)
  }

  ghost predicate TableCovered(auths: Authorizations, t: Table, now: nat) {
    && (forall r :: r in t.reserved ==> BundlesCovered(auths, t.reserved[r], now))
    && (forall r :: r in t.pending ==> BundlesCovered(auths, t.pending[r], now))
    && (forall r :: r in t.tasks && t.tasks[r].PutTask? ==> BundlesCovered(auths, t.tasks[r].p, now))
  }

  /** The handler at work has covered the ids it has passed. */
  ghost predicate LockCovered(n: Node) {
    n.lock.Some? ==>
      var h := n.lock.value;
      && h.rid in n.table.pending && h.next <= |h.box.containedSecretIds| && h.since <= n.now
      && Covered(n.enclave.auths, h.sender, h.box.containedSecretIds[..h.next], n.table.pending[h.rid].consumersById,
                 h.since)
  }

  lemma StillCovered(a: Authorizations, b: Authorizations, t: Table, now: nat, later: nat)
    requires TableCovered(a, t, now) && Prolonged(a, b) && now <= later
    ensures TableCovered(b, t, later)
  {
  }

  lemma MoveKeepsCovered(auths: Authorizations, t: Table, m: Move, now: nat)
    requires TableCovered(auths, t, now) && Enabled(t, m)
    requires m.Collecting? ==>
      m.c.since <= now
        && Covered(auths, m.c.attestation, m.c.box.containedSecretIds, t.pending[m.r].consumersById, m.c.since)
    ensures TableCovered(auths, Moved(t, m), now)
  {
    if m.Collecting? {
      CollectKeepsCovered(auths, t.pending[m.r], m.c, now);
    }
  }

  lemma CollectKeepsCovered(auths: Authorizations, p: Pending, c: Collected, now: nat)
    requires BundlesCovered(auths, p, now)
    requires c.since <= now && Covered(auths, c.attestation, c.box.containedSecretIds, p.consumersById, c.since)
    ensures BundlesCovered(auths, Collect(p, c), now)
  {
  }

  lemma CheckCovers(n: Node, h: Handling, verdict: Verdict)
    requires n.lock == Some(h) && LockCovered(n) && Bounded(n.enclave.auths, n.now)
    requires Prolonged(n.enclave.auths, CheckOne(n, h, verdict).enclave.auths)
    ensures LockCovered(CheckOne(n, h, verdict))
  {
    var m, ids := CheckOne(n, h, verdict), h.box.containedSecretIds;
    if m.lock.Some? && m != n {
      assert ids[..h.next + 1] == ids[..h.next] + [ids[h.next]];
    }
  }

  lemma NextKeepsLockCovered(env: Env, n: Node, e: Event)
    requires env.threshold > 0 && Inv(n) && LockCovered(n) && Bounded(n.enclave.auths, n.now)
    ensures LockCovered(Next(env, n, e))
  {
    NextProlongs(env, n, e);
    var m := Next(env, n, e);
    if e.CheckNext? && n.lock.Some? {
      CheckCovers(n, n.lock.value, e.verdict);
    } else if n.lock.Some? && m.lock.Some? {
      HeldLockFreezesTable(env, n, e);
      SameLockStaysCovered(n, m);
    }
  }

  lemma SameLockStaysCovered(n: Node, m: Node)
    requires LockCovered(n) && m.lock == n.lock && m.table.pending == n.table.pending
    requires Prolonged(n.enclave.auths, m.enclave.auths) && n.now <= m.now
    ensures LockCovered(m)
  {
  }

  /** While a handler keeps the lock, nothing else touches the pending entries. */
  lemma HeldLockFreezesTable(env: Env, n: Node, e: Event)
    requires env.threshold > 0 && Inv(n) && n.lock.Some? && Next(env, n, e).lock.Some? && !e.CheckNext?
    ensures Next(env, n, e).lock == n.lock && Next(env, n, e).table.pending == n.table.pending
  {
    LockStays(env, n, e);
    var m := NextMoves(env, n, e);
    OnlyTwoMovesTakeOut(n.table, m);
  }

  lemma LockStays(env: Env, n: Node, e: Event)
    requires n.lock.Some? && Next(env, n, e).lock.Some? && !e.CheckNext?
    ensures Next(env, n, e).lock == n.lock
  {
  }

  ghost predicate ApprovalInv(n: Node) {
    Inv(n) && Bounded(n.enclave.auths, n.now) && LockCovered(n) && TableCovered(n.enclave.auths, n.table, n.now)
  }

  lemma NextKeepsApprovals(env: Env, n: Node, e: Event)
    requires env.threshold > 0 && ApprovalInv(n)
    ensures ApprovalInv(Next(env, n, e))
  {
    NextKeepsInv(env, n, e);
    NextProlongs(env, n, e);
    NextKeepsLockCovered(env, n, e);
    var m := NextMoves(env, n, e);
    if m.Collecting? {
      assert m.c.box.containedSecretIds[..n.lock.value.next] == m.c.box.containedSecretIds;
    }
    MoveKeepsCovered(n.enclave.auths, n.table, m, n.now);
    StillCovered(n.enclave.auths, Next(env, n, e).enclave.auths, Moved(n.table, m), n.now, Next(env, n, e).now);
  }

  lemma {:induction false} RunKeepsApprovals(env: Env, states: seq<Node>, events: seq<Event>, k: nat)
    requires IsRun(env, states, events) && k <= |events|
    ensures ApprovalInv(states[k])
  {
    if k > 0 {
      RunKeepsApprovals(env, states, events, k - 1);
      NextKeepsApprovals(env, states[k - 1], events[k - 1]);
    }
  }

  // ---------- Approvals suffice ----------

  ghost predicate OneConsumer(ids: seq<SecretId>, consumers: map<SecretId, ConsumerInfo>) {
    forall i :: 0 <= i < |ids| ==> ids[0] in consumers && ids[i] in consumers && consumers[ids[i]] == consumers[ids[0]]
  }

  /** In every run, whatever happened between the daemon's checks and its put: for a collected
      response whose user data decodes and whose ids share one consumer, within 3600 seconds of the
      start of its checks, the enclave's authorization loop accepts every id in the box. */
  lemma ApprovalsSuffice(env: Env, states: seq<Node>, events: seq<Event>, k: nat, r: nat, c: Collected)
    requires IsRun(env, states, events) && k <= |events|
    requires var n := states[k];
      && r in n.table.tasks && n.table.tasks[r].PutTask? && c in n.table.tasks[r].p.collected
      && c.attestation.ephemeralKey.Some? && n.now < c.since + AUTHORIZATION_TTL
      && c.box.containedSecretIds != [] && OneConsumer(c.box.containedSecretIds, n.table.tasks[r].p.consumersById)
    ensures var n := states[k];
      AllAuthorized(n.enclave.auths, c.attestation, c.box.containedSecretIds,
                    n.table.tasks[r].p.consumersById[c.box.containedSecretIds[0]], n.now)
  {
    RunKeepsApprovals(env, states, events, k);
  }

  /** What a peer sealed into a box. */
  datatype Sealing = Sealing(peer: KeyPair, records: seq<SecretRecord>, nonce: Bytes)

  /** The response carries a box that a verified peer sealed for this enclave. */
  ghost predicate SealedFor(env: Env, verify: Verifier, c: Collected, s: Sealing) {
    && |s.peer.public| == 32 && |env.own.public| == 32 && |s.nonce| == AES_NONCE_SIZE
    && c.box == EncryptSecretsBox(s.peer, env.own.public, s.records, s.nonce)
    && verify(c.attestation) && c.attestation.ephemeralKey == Some(s.peer.public)
  }

  /** At `now` the response is less than an hour from the start of its checks, and for one consumer. */
  ghost predicate Timely(p: Pending, c: Collected, now: nat) {
    now < c.since + AUTHORIZATION_TTL && OneConsumer(c.box.containedSecretIds, p.consumersById)
  }

  ghost function AllRecords(sealings: seq<Sealing>): seq<SecretRecord> {
    if sealings == [] then [] else sealings[0].records + AllRecords(sealings[1..])
  }

  /** The enclave's authorization loop passes the response. */
  ghost predicate Passes(auths: Authorizations, consumers: map<SecretId, ConsumerInfo>, c: Collected, now: nat) {
    var ids := c.box.containedSecretIds;
    ids != [] ==> ids[0] in consumers && AllAuthorized(auths, c.attestation, ids, consumers[ids[0]], now)
  }

  /** Boxes that pass are opened, all of them, to what was sealed. */
  lemma {:induction false} BoxesOpen(env: Env, verify: Verifier, auths: Authorizations,
                                     consumers: map<SecretId, ConsumerInfo>,
                                     collected: seq<Collected>, sealings: seq<Sealing>, now: nat)
    requires |sealings| == |collected|
    requires forall i :: 0 <= i < |collected| ==>
            SealedFor(env, verify, collected[i], sealings[i]) && Passes(auths, consumers, collected[i], now)
    ensures Incoming(env.own, auths, BundlesFor(collected, consumers), verify, now) == AllRecords(sealings)
    decreases |collected|
  {
    if collected != [] {
      var c, s := collected[0], sealings[0];
      assert SealedFor(env, verify, c, s) && Passes(auths, consumers, c, now);
      BoxesOpen(env, verify, auths, consumers, collected[1..], sealings[1..], now);
      BoxOpensOnlyForRecipient(s.peer, env.own.public, env.own, s.records, s.nonce);
      var bundles := BundlesFor(collected, consumers);
      if s.records != [] {
        assert bundles[1..] == BundlesFor(collected[1..], consumers);
        assert Accepted(env.own, auths, bundles[0], verify, now) == Some(s.records);
      } else {
        assert s.records + AllRecords(sealings[1..]) == AllRecords(sealings[1..]);
      }
    }
  }

  /** So, in every run, when the collected responses were sealed for this enclave by verified peers, however
      many they are, a put that reaches the enclave in time opens them all and merges their records; the
      request goes on to its final check exactly if something was stored and the answer got back. */
  lemma AcceptedResponsesAreStored(env: Env, states: seq<Node>, events: seq<Event>, k: nat, r: nat,
                                   sealings: seq<Sealing>, verify: Verifier, reply: Reply)
    requires IsRun(env, states, events) && k <= |events| && !reply.NotSent?
    requires r in states[k].table.tasks && states[k].table.tasks[r].PutTask?
    requires var p := states[k].table.tasks[r].p;
      && |sealings| == |p.collected|
      && forall i :: 0 <= i < |sealings| ==>
          SealedFor(env, verify, p.collected[i], sealings[i]) && Timely(p, p.collected[i], states[k].now)
    ensures var n, records := states[k], AllRecords(sealings);
      && Next(env, n, RunPut(r, verify, reply)).enclave.storage == Merge(n.enclave.storage, records, n.now)
      && Next(env, n, RunPut(r, verify, reply)).table ==
           Advanced(n.table, r, reply.Answered? && StoredCount(n.enclave.storage, records, n.now) > 0)
  {
    var n := states[k];
    var p := n.table.tasks[r].p;
    forall i | 0 <= i < |p.collected| ensures Passes(n.enclave.auths, p.consumersById, p.collected[i], n.now) {
      assert SealedFor(env, verify, p.collected[i], sealings[i]);
      TimelyPasses(env, states, events, k, r, p.collected[i]);
    }
    BoxesOpen(env, verify, n.enclave.auths, p.consumersById, p.collected, sealings, n.now);
    RunKeepsInv(env, states, events, k);
    PutMerges(env, n, r, AllRecords(sealings), verify, reply);
  }

  lemma TimelyPasses(env: Env, states: seq<Node>, events: seq<Event>, k: nat, r: nat, c: Collected)
    requires IsRun(env, states, events) && k <= |events|
    requires r in states[k].table.tasks && states[k].table.tasks[r].PutTask?
    requires var p := states[k].table.tasks[r].p;
      c in p.collected && c.attestation.ephemeralKey.Some? && Timely(p, c, states[k].now)
    ensures Passes(states[k].enclave.auths, states[k].table.tasks[r].p.consumersById, c, states[k].now)
  {
    if c.box.containedSecretIds != [] {
      ApprovalsSuffice(env, states, events, k, r, c);
    }
  }

  lemma PutMerges(env: Env, n: Node, r: nat, records: seq<SecretRecord>, verify: Verifier, reply: Reply)
    requires r in n.table.tasks && n.table.tasks[r].PutTask? && n.table.tasks[r].p.collected != [] && !reply.NotSent?
    requires var p := n.table.tasks[r].p;
      records == Incoming(env.own, n.enclave.auths, BundlesFor(p.collected, p.consumersById), verify, n.now)
    ensures Next(env, n, RunPut(r, verify, reply)).enclave.storage == Merge(n.enclave.storage, records, n.now)
    ensures Next(env, n, RunPut(r, verify, reply)).table ==
            Advanced(n.table, r, reply.Answered? && StoredCount(n.enclave.storage, records, n.now) > 0)
  {
  }

  // ---------- Exactly when they suffice ----------

  /** The first `n` ids have a consumer and are allowed. */
  ghost predicate Passing(consumers: map<SecretId, ConsumerInfo>, ids: seq<SecretId>, verdicts: seq<Verdict>, n: nat) {
    && n <= |ids| && n <= |verdicts|
    && forall j :: 0 <= j < n ==> verdicts[j].Allowed? && ids[j] in consumers
  }

  /** The handler's loop came to this id, for this key and consumer, and it passed. */
  ghost predicate PassedFor(consumers: map<SecretId, ConsumerInfo>, sender: AttestationBundle, ids: seq<SecretId>,
                            verdicts: seq<Verdict>, aid: AuthorizationId) {
    && sender.ephemeralKey == Some(aid.key)
    && exists i :: 0 <= i < |ids| && Passing(consumers, ids, verdicts, i + 1)
         && ids[i] == aid.id && consumers[ids[i]] == aid.consumer
  }

  lemma PassingCons(consumers: map<SecretId, ConsumerInfo>, ids: seq<SecretId>, verdicts: seq<Verdict>)
    requires ids != [] && |verdicts| == |ids|
    ensures forall n: nat ::
      Passing(consumers, ids, verdicts, n + 1) <==>
      Passing(consumers, ids, verdicts, 1) && Passing(consumers, ids[1..], verdicts[1..], n)
  {
    forall n: nat ensures Passing(consumers, ids, verdicts, n + 1) <==>
      Passing(consumers, ids, verdicts, 1) && Passing(consumers, ids[1..], verdicts[1..], n) {
      if Passing(consumers, ids, verdicts, 1) && Passing(consumers, ids[1..], verdicts[1..], n) {
        assert forall j :: 0 < j < n + 1 ==> verdicts[j] == verdicts[1..][j - 1] && ids[j] == ids[1..][j - 1];
      }
    }
  }

  lemma PassedForCons(consumers: map<SecretId, ConsumerInfo>, sender: AttestationBundle, ids: seq<SecretId>,
                      verdicts: seq<Verdict>, aid: AuthorizationId)
    requires ids != [] && |verdicts| == |ids| && Passing(consumers, ids, verdicts, 1)
    ensures PassedFor(consumers, sender, ids, verdicts, aid) <==>
            || PassedFor(consumers, sender, ids[1..], verdicts[1..], aid)
            || (sender.ephemeralKey == Some(aid.key) && ids[0] == aid.id && consumers[ids[0]] == aid.consumer)
  {
    PassingCons(consumers, ids, verdicts);
    var rest, more := ids[1..], verdicts[1..];
    if i :| 0 <= i < |rest| && Passing(consumers, rest, more, i + 1) && rest[i] == aid.id
            && consumers[rest[i]] == aid.consumer {
      assert Passing(consumers, ids, verdicts, (i + 1) + 1) && ids[i + 1] == rest[i];
    }
    if i :| 0 < i < |ids| && Passing(consumers, ids, verdicts, i + 1) && ids[i] == aid.id
            && consumers[ids[i]] == aid.consumer {
      assert Passing(consumers, rest, more, (i - 1) + 1) && rest[i - 1] == ids[i];
    }
  }

  /** What the handler's loop comes to: the response is valid if and only if every id has a consumer and is
      allowed; and approved afresh are exactly the (key, id, consumer) triples it passed before it stopped. */
  lemma {:induction false} CheckedEntries(auths: Authorizations, consumers: map<SecretId, ConsumerInfo>,
                                          sender: AttestationBundle,
                                          ids: seq<SecretId>, verdicts: seq<Verdict>, now: nat, aid: AuthorizationId)
    requires |verdicts| == |ids|
    ensures var checked := CheckResponse(auths, consumers, sender, ids, verdicts, now);
      && (checked.outcome.Valid? <==> Passing(consumers, ids, verdicts, |ids|))
      && if PassedFor(consumers, sender, ids, verdicts, aid) then
           aid in checked.auths && checked.auths[aid] == now + AUTHORIZATION_TTL
         else (aid in checked.auths <==> aid in auths) && (aid in checked.auths ==> checked.auths[aid] == auths[aid])
    decreases |ids|
  {
    if ids != [] {
      PassingCons(consumers, ids, verdicts);
      if Passing(consumers, ids, verdicts, 1) {
        var first := Grant(auths, PolicyRequest([ids[0]], consumers[ids[0]], sender), now);
        assert forall id :: id in [ids[0]] <==> id == ids[0];
        CheckedEntries(first, consumers, sender, ids[1..], verdicts[1..], now, aid);
        PassedForCons(consumers, sender, ids, verdicts, aid);
      } else {
        assert !verdicts[0].Allowed? || ids[0] !in consumers;
      }
    }
  }

  /** Of a valid response every triple was passed. */
  lemma ValidEntries(auths: Authorizations, consumers: map<SecretId, ConsumerInfo>, sender: AttestationBundle,
                     ids: seq<SecretId>, verdicts: seq<Verdict>, now: nat, aid: AuthorizationId)
    requires |verdicts| == |ids| && CheckResponse(auths, consumers, sender, ids, verdicts, now).outcome.Valid?
    ensures forall i :: 0 <= i < |ids| ==> ids[i] in consumers
    ensures var after := CheckResponse(auths, consumers, sender, ids, verdicts, now).auths;
      if sender.ephemeralKey == Some(aid.key) && aid.id in ids && consumers[aid.id] == aid.consumer then
        aid in after && after[aid] == now + AUTHORIZATION_TTL
      else (aid in after <==> aid in auths) && (aid in after ==> after[aid] == auths[aid])
  {
    CheckedEntries(auths, consumers, sender, ids, verdicts, now, aid);
    if aid.id in ids {
      var i :| 0 <= i < |ids| && ids[i] == aid.id;
      assert Passing(consumers, ids, verdicts, i + 1);
    }
  }

  /** After a response passed every check, the put accepts it if and only if the user data decodes, less
      than 3600 seconds have passed, and every id has the consumer of the first or was approved for it
      before.  In particular, from an enclave that knows nothing of the sender, a box with ids for two
      consumers passes the daemon's checks and is then refused by the enclave. */
  lemma ApprovalsExact(auths: Authorizations, consumers: map<SecretId, ConsumerInfo>, sender: AttestationBundle,
                       ids: seq<SecretId>, verdicts: seq<Verdict>, now: nat, later: nat)
    requires |verdicts| == |ids| && ids != []
    requires CheckResponse(auths, consumers, sender, ids, verdicts, now).outcome.Valid?
    ensures forall i :: 0 <= i < |ids| ==> ids[i] in consumers
    ensures AllAuthorized(CheckResponse(auths, consumers, sender, ids, verdicts, now).auths, sender, ids,
                          consumers[ids[0]], later) <==>
            && sender.ephemeralKey.Some? && later < now + AUTHORIZATION_TTL
            && forall i :: 0 <= i < |ids| ==>
                 consumers[ids[i]] == consumers[ids[0]] || Authorized(auths, sender, ids[i], consumers[ids[0]], later)
  {
    var after := CheckResponse(auths, consumers, sender, ids, verdicts, now).auths;
    ValidEntries(auths, consumers, sender, ids, verdicts, now, AuthorizationId([], ids[0], ConsumerInfo([], [])));
    forall i | 0 <= i < |ids|
      ensures Authorized(after, sender, ids[i], consumers[ids[0]], later) <==>
              if consumers[ids[i]] == consumers[ids[0]]
                then sender.ephemeralKey.Some? && later < now + AUTHORIZATION_TTL
              else Authorized(auths, sender, ids[i], consumers[ids[0]], later)
    {
      if sender.ephemeralKey.Some? {
        ValidEntries(auths, consumers, sender, ids, verdicts, now,
                       AuthorizationId(sender.ephemeralKey.value, ids[i], consumers[ids[0]]));
      }
    }
    if AllAuthorized(after, sender, ids, consumers[ids[0]], later) {
      assert Authorized(after, sender, ids[0], consumers[ids[0]], later);
    }
  }

  // ---------- Exactly what is authorised in a run ----------

  /** Some policy run before step `k`, less than 3600 seconds ago, allowed this key, id and consumer. */
  ghost predicate RecentlyAllowed(states: seq<Node>, events: seq<Event>, k: nat, key: Bytes, id: SecretId,
                                  consumer: ConsumerInfo) {
    exists i :: 0 <= i < k && AllowedAt(states, events, i, AuthorizationId(key, id, consumer))
      && k < |states| && states[k].now < states[i].now + AUTHORIZATION_TTL
  }

  ghost predicate AllowedAt(states: seq<Node>, events: seq<Event>, i: nat, aid: AuthorizationId) {
    i < |states| && i < |events| && Provenance.Approves(ActionOf(states[i], events[i]), aid)
  }

  /** In every run, exactly what a policy run allowed less than 3600 seconds before is authorised. */
  lemma AuthorizedExactly(env: Env, states: seq<Node>, events: seq<Event>, k: nat, b: AttestationBundle,
                          id: SecretId, consumer: ConsumerInfo)
    requires IsRun(env, states, events) && k <= |events|
    ensures Authorized(states[k].enclave.auths, b, id, consumer, states[k].now) <==>
            b.ephemeralKey.Some? && RecentlyAllowed(states, events, k, b.ephemeralKey.value, id, consumer)
  {
    var actions := ActionsOf(states, events);
    NodeRunIsEnclaveRun(env, states, events);
    Provenance.AuthorizedExactly(env.own, EnclavesOf(states), actions, k, b, id, consumer, states[k].now);
    forall i | 0 <= i < k ensures actions[i].now == states[i].now {
      EnclaveSteps(env, states[i], events[i]);
    }
    if b.ephemeralKey.Some? {
      var aid := AuthorizationId(b.ephemeralKey.value, id, consumer);
      assert forall i :: 0 <= i < k ==> (AllowedAt(states, events, i, aid) <==> Provenance.Approves(actions[i], aid));
    }
  }

  /** In every run, with anything between the daemon's checks and the put: the enclave's authorization loop
      accepts a collected response if and only if its user data decodes and each of its ids was allowed,
      less than 3600 seconds before, to its key for the consumer of the first. */
  lemma CollectedPassesExactly(env: Env, states: seq<Node>, events: seq<Event>, k: nat, r: nat, c: Collected)
    requires IsRun(env, states, events) && k <= |events|
    requires r in states[k].table.tasks && states[k].table.tasks[r].PutTask?
    requires c in states[k].table.tasks[r].p.collected && c.box.containedSecretIds != []
    ensures var n, ids, consumers := states[k], c.box.containedSecretIds, states[k].table.tasks[r].p.consumersById;
      && ids[0] in consumers
      && (AllAuthorized(n.enclave.auths, c.attestation, ids, consumers[ids[0]], n.now) <==>
            && c.attestation.ephemeralKey.Some?
            && forall i :: 0 <= i < |ids| ==>
                 RecentlyAllowed(states, events, k, c.attestation.ephemeralKey.value, ids[i], consumers[ids[0]]))
  {
    var n, ids, consumers := states[k], c.box.containedSecretIds, states[k].table.tasks[r].p.consumersById;
    RunKeepsApprovals(env, states, events, k);
    assert ids[0] in consumers;
    forall i | 0 <= i < |ids|
      ensures Authorized(n.enclave.auths, c.attestation, ids[i], consumers[ids[0]], n.now) <==>
              c.attestation.ephemeralKey.Some?
              && RecentlyAllowed(states, events, k, c.attestation.ephemeralKey.value, ids[i], consumers[ids[0]])
    {
      AuthorizedExactly(env, states, events, k, c.attestation, ids[i], consumers[ids[0]]);
    }
    assert Authorized(n.enclave.auths, c.attestation, ids[0], consumers[ids[0]], n.now) ==>
      c.attestation.ephemeralKey.Some?;
  }

  // ---------- The handler as its steps ----------

  function Checks(verdicts: seq<Verdict>): (r: seq<Event>)
    ensures |r| == |verdicts|
  {
    if verdicts == [] then [] else [CheckNext(verdicts[0])] + Checks(verdicts[1..])
  }

  lemma {:induction false} RunFromAppend(env: Env, n: Node, a: seq<Event>, b: seq<Event>)
    ensures RunFrom(env, n, a + b) == RunFrom(env, RunFrom(env, n, a), b)
    decreases |a|
  {
    if a == [] {
      assert a + b == b;
    } else {
      assert (a + b)[0] == a[0] && (a + b)[1..] == a[1..] + b;
      RunFromAppend(env, Next(env, n, a[0]), a[1..], b);
    }
  }

  lemma {:induction false} ChecksWithoutLock(env: Env, n: Node, verdicts: seq<Verdict>)
    requires n.lock.None?
    ensures RunFrom(env, n, Checks(verdicts)) == n.(step := n.step + |verdicts|)
    decreases |verdicts|
  {
    if verdicts != [] {
      assert Checks(verdicts)[1..] == Checks(verdicts[1..]);
      ChecksWithoutLock(env, n.(step := n.step + 1), verdicts[1..]);
    }
  }

  lemma {:induction false} ChecksWithLock(env: Env, n: Node, h: Handling, verdicts: seq<Verdict>)
    requires n.lock == Some(h) && h.rid in n.table.pending && h.next + |verdicts| == |h.box.containedSecretIds|
    ensures var ids := h.box.containedSecretIds;
      var checked := CheckResponse(n.enclave.auths, n.table.pending[h.rid].consumersById, h.sender, ids[h.next..],
                                   verdicts, n.now);
      RunFrom(env, n, Checks(verdicts)) == n.(
        step := n.step + |verdicts|, enclave := n.enclave.(auths := checked.auths),
        lock := if checked.outcome.Valid? then Some(h.(next := |ids|)) else None)
    decreases |verdicts|
  {
    var ids := h.box.containedSecretIds;
    if verdicts != [] {
      var rest := verdicts[1..];
      assert Checks(verdicts)[0] == CheckNext(verdicts[0]) && Checks(verdicts)[1..] == Checks(rest);
      var m := Next(env, n, CheckNext(verdicts[0]));
      assert ids[h.next..][0] == ids[h.next] && ids[h.next..][1..] == ids[h.next + 1..];
      if m.lock.Some? {
        ChecksWithLock(env, m, h.(next := h.next + 1), rest);
      } else {
        ChecksWithoutLock(env, m, rest);
      }
    }
  }

  /** Left alone, a handler's steps do what `HandleIncomingResponse` does in one go. */
  lemma HandlerIsItsSteps(env: Env, n: Node, r: nat, box: SecretsBox, sender: AttestationBundle, verdicts: seq<Verdict>)
    requires n.lock.None? && r in n.table.pending && |verdicts| == |box.containedSecretIds|
    ensures var end := RunFrom(env, n, [Receive(r, box, sender)] + (Checks(verdicts) + [Conclude]));
      var checked := CheckResponse(n.enclave.auths, n.table.pending[r].consumersById, sender, box.containedSecretIds,
                                   verdicts, n.now);
      && end.lock.None? && end.enclave == n.enclave.(auths := checked.auths)
      && end.table == if checked.outcome.Valid? then AfterValidResponse(n.table, r, Collected(box, sender, n.now))
        else n.table
  {
    var first := Receive(r, box, sender);
    var locked := Next(env, n, first);
    assert ([first] + (Checks(verdicts) + [Conclude]))[1..] == Checks(verdicts) + [Conclude];
    RunFromAppend(env, locked, Checks(verdicts), [Conclude]);
    ChecksWithLock(env, locked, locked.lock.value, verdicts);
    assert box.containedSecretIds[0..] == box.containedSecretIds;
    assert [Conclude][1..] == [];
  }

  /** A response with no ids passes the checks, counts towards the threshold, and with the code's
      threshold of one ends the request in an error, without an attempt at generation. */
  lemma EmptyBoxFailsRequest(env: Env, n: Node, r: nat, box: SecretsBox, sender: AttestationBundle, verify: Verifier)
    requires Inv(n) && n.lock.None? && r in n.table.pending && n.table.pending[r].threshold == RESPONSE_THRESHOLD
    requires box.containedSecretIds == []
    ensures var finalising := Next(env, Next(env, n, Receive(r, box, sender)), Conclude);
      var end := Next(env, finalising, RunPut(r, verify, Answered));
      end.enclave == n.enclave && r in end.table.answers && end.table.answers[r] == [AnswerErr]
  {
    var p, c := n.table.pending[r], Collected(box, sender, n.now);
    EmptyBoxIsCollected(env, n, r, box, sender);
    NothingToPut(env, Next(env, Next(env, n, Receive(r, box, sender)), Conclude), r, Collect(p, c), c, verify);
  }

  lemma EmptyBoxIsCollected(env: Env, n: Node, r: nat, box: SecretsBox, sender: AttestationBundle)
    requires Inv(n) && n.lock.None? && r in n.table.pending && n.table.pending[r].threshold == RESPONSE_THRESHOLD
    requires box.containedSecretIds == []
    ensures var c, b := Collected(box, sender, n.now), Next(env, Next(env, n, Receive(r, box, sender)), Conclude);
      && b.enclave == n.enclave && r in b.table.tasks && r !in b.table.answers
      && b.table.tasks[r] == PutTask(Collect(n.table.pending[r], c))
      && Collect(n.table.pending[r], c).collected == [c]
  {
    assert n.table.pending[r].collected == [];
  }

  lemma NothingToPut(env: Env, n: Node, r: nat, p: Pending, c: Collected, verify: Verifier)
    requires r in n.table.tasks && n.table.tasks[r] == PutTask(p) && r !in n.table.answers
    requires p.collected == [c] && c.box.containedSecretIds == []
    ensures var end := Next(env, n, RunPut(r, verify, Answered));
      end.enclave == n.enclave && r in end.table.answers && end.table.answers[r] == [AnswerErr]
  {
    assert p.collected[1..] == [];
    assert BundlesFor(p.collected, p.consumersById) == [];
  }
}
