/** How a request goes from the table to its answer: which finaliser it is handed to, exactly what each of
    its calls into the enclave does, and what its caller is told
    (node/daemon/src/services/secrets.rs over node/enclave/src/secrets/mod.rs). */
module RequestOutcomes {
  import opened Bytes
  import opened SealedBoxes
  import opened Enclaves
  import opened Daemons
  import opened PendingTables
  import opened Nodes
  import opened NodeEnclaves
  import opened ResponseApprovals
  import opened GenerationFlow
  import opened Callers

  // ---------- From the table to a finaliser ----------

  /** From step `i` until before step `j`, request `r` takes no step of its own. */
  ghost predicate Rests(states: seq<Node>, events: seq<Event>, r: nat, i: nat, j: nat) {
    j <= |events| < |states| && forall x :: i <= x < j ==> !OwnStep(states[x], r, events[x])
  }

  /** Only a request's own steps change what it has to do next. */
  lemma TaskWaits(env: Env, n: Node, e: Event, r: nat)
    requires env.threshold > 0 && Inv(n) && r in n.table.tasks && !OwnStep(n, r, e)
    ensures var t := Next(env, n, e).table; r in t.tasks && t.tasks[r] == n.table.tasks[r]
  {
    var m := NextMoves(env, n, e);
    MoveKeepsTask(n.table, m, r);
  }

  lemma {:induction false} TaskRests(env: Env, states: seq<Node>, events: seq<Event>, r: nat, i: nat, j: nat)
    requires IsRun(env, states, events) && i <= j <= |events| && Rests(states, events, r, i, j)
    requires r in states[i].table.tasks
    ensures r in states[j].table.tasks && states[j].table.tasks[r] == states[i].table.tasks[r]
    decreases j - i
  {
    if i < j {
      TaskRests(env, states, events, r, i, j - 1);
      RunKeepsInv(env, states, events, j - 1);
      TaskWaits(env, states[j - 1], events[j - 1], r);
    }
  }

  /** In every run: a timer that finds its request in the table and the lock free hands it to generation.  Its
      next own step, whenever that comes, is the generation call, for exactly its ids and consumers. */
  lemma TimerLeadsToGeneration(env: Env, states: seq<Node>, events: seq<Event>, t: nat, k: nat, r: nat)
    requires IsRun(env, states, events) && t < k < |events|
    requires r in states[t].table.pending && states[t].lock.None? && events[t] == Timer(r)
    requires Rests(states, events, r, t + 1, k)
    ensures r in states[k].table.tasks && states[k].table.tasks[r] == TimeoutTask(states[t].table.pending[r])
    ensures OwnStep(states[k], r, events[k]) ==> events[k].RunTimeout?
  {
    RunKeepsInv(env, states, events, t);
    RunKeepsInv(env, states, events, k);
    TaskRests(env, states, events, r, t + 1, k);
  }

  /** In every run: a handler that has passed every id of a response collects it; if with it the node's
      threshold is reached, the request is handed to the put, with exactly the responses collected, this one
      last, and otherwise it stays in the table. */
  lemma ResponseLeadsToPut(env: Env, states: seq<Node>, events: seq<Event>, t: nat, k: nat, h: Handling)
    requires IsRun(env, states, events) && t < k < |events|
    requires states[t].lock == Some(h) && events[t].Conclude? && h.next == |h.box.containedSecretIds|
    requires Rests(states, events, h.rid, t + 1, k)
    ensures h.rid in states[t].table.pending
    ensures var p := states[t].table.pending[h.rid];
      && (|p.collected| + 1 < env.threshold ==>
            && h.rid in states[t + 1].table.pending
            && states[t + 1].table.pending[h.rid].collected == p.collected + [Collected(h.box, h.sender, h.since)])
      && (|p.collected| + 1 >= env.threshold ==>
        && h.rid in states[k].table.tasks && states[k].table.tasks[h.rid].PutTask?
        && states[k].table.tasks[h.rid].p.collected == p.collected + [Collected(h.box, h.sender, h.since)]
        && states[k].table.tasks[h.rid].p.consumersById == p.consumersById
        && (OwnStep(states[k], h.rid, events[k]) ==> events[k].RunPut?))
  {
    RunKeepsInv(env, states, events, t);
    RunKeepsInv(env, states, events, k);
    OneThreshold(env, states, events, t);
    var p := states[t].table.pending[h.rid];
    if |p.collected| + 1 >= env.threshold {
      assert h.rid in states[t + 1].table.tasks;
      TaskRests(env, states, events, h.rid, t + 1, k);
    }
  }

  // ---------- The generation call ----------

  /** In every run, for every outcome: after its generation call a request goes on to its final check if and
      only if its policies could be run, the enclave had its report, the authorised requests fit and the
      answer got back; otherwise it is answered with an error.  A call that does not get there stores nothing. */
  lemma GenerationCallExactly(env: Env, states: seq<Node>, events: seq<Event>, k: nat, r: nat)
    requires IsRun(env, states, events) && k < |events| && events[k].RunTimeout? && events[k].r == r
    requires OwnStep(states[k], r, events[k])
    ensures var n, m, e := states[k], states[k + 1], events[k];
      var p := n.table.tasks[r].p;
      var reached := e.flowOk && e.own.Some? && !e.reply.NotSent?;
      var requests := GenerationRequests(e.order, p.consumersById);
      var onward := reached && e.reply.Answered?
        && Provenance.GenerationFits(n.enclave.storage, n.enclave.auths, e.own.value, requests, e.entropy, n.now);
      && (!reached ==> m.enclave == n.enclave)
      && m.enclave.auths == n.enclave.auths
      && (onward ==> r in m.table.tasks && m.table.tasks[r] == CheckTask(p.requestedIds))
      && (!onward ==> r in m.table.answers && m.table.answers[r] == [AnswerErr])
  {
    var n, e := states[k], events[k];
    var p := n.table.tasks[r].p;
    var requests := GenerationRequests(e.order, p.consumersById);
    RunKeepsInv(env, states, events, k);
    assert p.requestedIds != {} && p.consumersById.Keys == p.requestedIds;
    RequestsFollowOrder(e.order, p.consumersById);
    assert e.order != [];
    assert r !in n.table.answers;
    if e.own.Some? {
      Provenance.GenerateSucceedsExactly(n.enclave.storage, n.enclave.auths, e.own.value, requests, e.entropy, n.now);
    }
  }

  // ---------- The put call ----------

  /** At step `k` the put takes response `c`: it lists an id, its sender verifies, the box is under the
      sender's key, and each listed id was allowed, less than 3600 seconds before, to that key for the consumer
      of the first. */
  ghost predicate Taken(states: seq<Node>, events: seq<Event>, k: nat, consumers: map<SecretId, ConsumerInfo>,
                        verify: Verifier, c: Collected) {
    var ids := c.box.containedSecretIds;
    && ids != [] && ids[0] in consumers
    && verify(c.attestation) && c.attestation.ephemeralKey == Some(c.box.senderPublicKey)
    && forall i :: 0 <= i < |ids| ==>
        RecentlyAllowed(states, events, k, c.box.senderPublicKey, ids[i], consumers[ids[0]])
  }

  /** A response the put takes opens to this entry for `id`, unexpired. */
  ghost predicate Delivers(env: Env, states: seq<Node>, events: seq<Event>, k: nat, p: Pending, verify: Verifier,
                           id: SecretId, s: StoredSecret) {
    && k < |states| && (s.expiry == 0 || states[k].now < s.expiry)
    && exists c :: c in p.collected && Taken(states, events, k, p.consumersById, verify, c)
         && Opens(env, c.box, SecretRecord(id, s.data, s.expiry, s.generation))
  }

  ghost predicate Opens(env: Env, box: SecretsBox, r: SecretRecord) {
    var content := DecryptSecretsBox(env.own, box);
    content.Some? && r in content.value
  }

  lemma {:induction false} BundlesExactly(collected: seq<Collected>, consumers: map<SecretId, ConsumerInfo>, b: Bundle)
    ensures b in BundlesFor(collected, consumers) <==>
            exists c :: c in collected && BundleOf(consumers, c, b)
  {
    if collected != [] {
      BundlesExactly(collected[1..], consumers, b);
      var ids, rest := collected[0].box.containedSecretIds, BundlesFor(collected[1..], consumers);
      assert b in BundlesFor(collected, consumers) <==> BundleOf(consumers, collected[0], b) || b in rest;
      assert forall c :: c in collected <==> c == collected[0] || c in collected[1..];
    }
  }

  ghost predicate BundleOf(consumers: map<SecretId, ConsumerInfo>, c: Collected, b: Bundle) {
    var ids := c.box.containedSecretIds;
    ids != [] && ids[0] in consumers && b == Bundle(c.box, c.attestation, consumers[ids[0]])
  }

  lemma ApprovedIsAllowed(env: Env, states: seq<Node>, events: seq<Event>, k: nat, key: Bytes, id: SecretId,
                          consumer: ConsumerInfo)
    requires IsRun(env, states, events) && k < |events|
    ensures Provenance.RecentlyApproved(ActionsOf(states, events), k, key, id, consumer) <==>
            RecentlyAllowed(states, events, k, key, id, consumer)
  {
    var actions, aid := ActionsOf(states, events), AuthorizationId(key, id, consumer);
    forall i | 0 <= i <= k ensures actions[i].now == states[i].now <= states[k].now {
      EnclaveSteps(env, states[i], events[i]);
      ClockMoves(env, states, events, i, k);
    }
    assert forall i :: 0 <= i < k ==> (AllowedAt(states, events, i, aid) <==> Provenance.Approves(actions[i], aid));
  }

  /** Step `k` is the put call of request `r`, and it reaches the enclave. */
  ghost predicate PutsAt(states: seq<Node>, events: seq<Event>, k: nat, r: nat) {
    && k < |events| < |states| && events[k].RunPut? && events[k].r == r && !events[k].reply.NotSent?
    && OwnStep(states[k], r, events[k])
  }

  lemma PutIsAction(env: Env, states: seq<Node>, events: seq<Event>, k: nat, r: nat)
    requires IsRun(env, states, events) && PutsAt(states, events, k, r)
    ensures var p := states[k].table.tasks[r].p;
      ActionsOf(states, events)[k] ==
      Provenance.Put(states[k].now, BundlesFor(p.collected, p.consumersById), events[k].verify)
  {
    RunKeepsInv(env, states, events, k);
  }

  lemma TakenIsVouched(env: Env, states: seq<Node>, events: seq<Event>, k: nat, r: nat, c: Collected, b: Bundle)
    requires IsRun(env, states, events) && PutsAt(states, events, k, r)
    requires BundleOf(states[k].table.tasks[r].p.consumersById, c, b)
    requires ActionsOf(states, events)[k].Put? && ActionsOf(states, events)[k].verify == events[k].verify
    ensures Taken(states, events, k, states[k].table.tasks[r].p.consumersById, events[k].verify, c) <==>
            Provenance.Vouched(ActionsOf(states, events), k, b)
  {
    var ids := c.box.containedSecretIds;
    forall i | 0 <= i < |ids|
      ensures Provenance.RecentlyApproved(ActionsOf(states, events), k, c.box.senderPublicKey, ids[i], b.consumer) <==>
              RecentlyAllowed(states, events, k, c.box.senderPublicKey, ids[i], b.consumer)
    {
      ApprovedIsAllowed(env, states, events, k, c.box.senderPublicKey, ids[i], b.consumer);
    }
  }

  lemma DeliversIsArrives(env: Env, states: seq<Node>, events: seq<Event>, k: nat, r: nat, id: SecretId,
                          s: StoredSecret)
    requires IsRun(env, states, events) && PutsAt(states, events, k, r)
    requires ActionsOf(states, events)[k].Put?
    ensures Delivers(env, states, events, k, states[k].table.tasks[r].p, events[k].verify, id, s) <==>
            Provenance.Arrives(env.own, ActionsOf(states, events), k, id, s)
  {
    var p, actions := states[k].table.tasks[r].p, ActionsOf(states, events);
    PutIsAction(env, states, events, k, r);
    if Delivers(env, states, events, k, p, events[k].verify, id, s) {
      var c :| c in p.collected && Taken(states, events, k, p.consumersById, events[k].verify, c)
        && Opens(env, c.box, SecretRecord(id, s.data, s.expiry, s.generation));
      var b := Bundle(c.box, c.attestation, p.consumersById[c.box.containedSecretIds[0]]);
      assert BundleOf(p.consumersById, c, b);
      BundlesExactly(p.collected, p.consumersById, b);
      TakenIsVouched(env, states, events, k, r, c, b);
      assert Provenance.Brings(env.own, actions, k, b, id, s);
    }
    if Provenance.Arrives(env.own, actions, k, id, s) {
      var b :| b in actions[k].bundles && Provenance.Vouched(actions, k, b)
        && Provenance.Brings(env.own, actions, k, b, id, s);
      BundlesExactly(p.collected, p.consumersById, b);
      var c :| c in p.collected && BundleOf(p.consumersById, c, b);
      TakenIsVouched(env, states, events, k, r, c, b);
      assert Opens(env, c.box, SecretRecord(id, s.data, s.expiry, s.generation));
    }
  }

  /** In every run, whatever was collected: a put that reaches the enclave leaves for each id a newest of the
      entry held and the entries that the responses it takes deliver, and nothing else. */
  lemma PutCallStores(env: Env, states: seq<Node>, events: seq<Event>, k: nat, r: nat, id: SecretId)
    requires IsRun(env, states, events) && PutsAt(states, events, k, r)
    ensures var s, t := states[k].enclave.storage, states[k + 1].enclave.storage;
      var p, verify := states[k].table.tasks[r].p, events[k].verify;
      && (id in t <==> id in s || exists x :: Delivers(env, states, events, k, p, verify, id, x))
      && (id in t ==> (id in s && t[id] == s[id]) || Delivers(env, states, events, k, p, verify, id, t[id]))
      && (id in t ==> forall x :: Delivers(env, states, events, k, p, verify, id, x) ==> x.generation <= t[id].generation)
      && (id in s ==> s[id].generation < t[id].generation || t[id] == s[id])
  {
    NodeRunIsEnclaveRun(env, states, events);
    PutIsAction(env, states, events, k, r);
    Provenance.PutExactly(env.own, EnclavesOf(states), ActionsOf(states, events), k, id);
    forall x ensures Delivers(env, states, events, k, states[k].table.tasks[r].p, events[k].verify, id, x) <==>
      Provenance.Arrives(env.own, ActionsOf(states, events), k, id, x) {
      DeliversIsArrives(env, states, events, k, r, id, x);
    }
  }

  /** Some response that the put takes delivers an id that was not held, or a strictly newer entry. */
  ghost predicate Improved(env: Env, states: seq<Node>, events: seq<Event>, k: nat, p: Pending, verify: Verifier) {
    k < |states| &&
    exists id, x :: Delivers(env, states, events, k, p, verify, id, x)
      && (id in states[k].enclave.storage ==> x.generation > states[k].enclave.storage[id].generation)
  }

  /** And the request goes on to its final check if and only if the put brought something new or newer and its
      answer got back; otherwise, as when the call does not get there, it is answered with an error. */
  lemma PutCallExactly(env: Env, states: seq<Node>, events: seq<Event>, k: nat, r: nat)
    requires IsRun(env, states, events) && k < |events| && events[k].RunPut? && events[k].r == r
    requires OwnStep(states[k], r, events[k])
    ensures var n, m, e, p := states[k], states[k + 1], events[k], states[k].table.tasks[r].p;
      var onward := e.reply.Answered? && Improved(env, states, events, k, p, e.verify);
      && (e.reply.NotSent? ==> m.enclave == n.enclave)
      && (onward ==> r in m.table.tasks && m.table.tasks[r] == CheckTask(p.requestedIds))
      && (!onward ==> r in m.table.answers && m.table.answers[r] == [AnswerErr])
  {
    var n, e, p := states[k], events[k], states[k].table.tasks[r].p;
    RunKeepsInv(env, states, events, k);
    assert r !in n.table.answers;
    if !e.reply.NotSent? {
      PutCounts(env, states, events, k, r);
    }
  }

  /** The enclave counts something stored exactly then. */
  lemma PutCounts(env: Env, states: seq<Node>, events: seq<Event>, k: nat, r: nat)
    requires IsRun(env, states, events) && PutsAt(states, events, k, r)
    ensures var n, p, verify := states[k], states[k].table.tasks[r].p, events[k].verify;
      var records := Incoming(env.own, n.enclave.auths, BundlesFor(p.collected, p.consumersById), verify, n.now);
      StoredCount(n.enclave.storage, records, n.now) > 0 <==> Improved(env, states, events, k, p, verify)
  {
    var p, actions := states[k].table.tasks[r].p, ActionsOf(states, events);
    NodeRunIsEnclaveRun(env, states, events);
    PutIsAction(env, states, events, k, r);
    Provenance.PutReportsExactly(env.own, EnclavesOf(states), actions, k);
    forall id, x ensures Delivers(env, states, events, k, p, events[k].verify, id, x) <==>
      Provenance.Arrives(env.own, actions, k, id, x) {
      DeliversIsArrives(env, states, events, k, r, id, x);
    }
  }

  // ---------- The final check ----------

  /** In every run: the final check answers Ok if and only if it gets an answer and every id is held and
      unexpired. */
  lemma FinalCheckExactly(env: Env, states: seq<Node>, events: seq<Event>, k: nat, r: nat, ids: set<SecretId>)
    requires IsRun(env, states, events) && k < |events| && events[k].RunCheck? && events[k].r == r
    requires r in states[k].table.tasks && states[k].table.tasks[r] == CheckTask(ids)
    ensures r in states[k + 1].table.answers
    ensures states[k + 1].table.answers[r] ==
            [if events[k].rpcOk && AllHeldAt(states, k, ids) then AnswerOk else AnswerErr]
  {
    RunKeepsInv(env, states, events, k);
    assert r !in states[k].table.answers;
    AllHeldIsHeldLive(states, k, ids);
  }

  lemma AllHeldIsHeldLive(states: seq<Node>, k: nat, ids: set<SecretId>)
    requires k < |states|
    ensures AllHeldAt(states, k, ids) <==> HeldLive(states[k].enclave.storage, ids, states[k].now) == ids
  {
    var held := HeldLive(states[k].enclave.storage, ids, states[k].now);
    forall id | id in ids ensures id in held <==> HeldAt(states, k, id) {
    }
  }

  // ---------- End to end ----------

  /** Step `k` is a generation call for these ids and consumers: every policy was run and the call answered,
      randomness was available, and each id was allowed to the enclave's key less than 3600 seconds before. */
  ghost predicate CallsGeneration(states: seq<Node>, events: seq<Event>, k: nat, r: nat,
                                  consumers: map<SecretId, ConsumerInfo>) {
    && k < |events| && events[k].RunTimeout? && events[k].r == r && events[k].flowOk && events[k].reply.Answered?
    && events[k].own.Some? && events[k].own.value.ephemeralKey.Some?
    && Enumerates(events[k].order, consumers.Keys) && |events[k].entropy| == |events[k].order|
    && (forall i :: 0 <= i < |events[k].entropy| ==> events[k].entropy[i].Some?)
    && forall id :: id in consumers ==>
        RecentlyAllowed(states, events, k, events[k].own.value.ephemeralKey.value, id, consumers[id])
  }

  /** The store had none of the ids at step `k`, and no put since has spoiled what was generated then. */
  ghost predicate NewAndKept(states: seq<Node>, k: nat, j: nat, ids: set<SecretId>) {
    && k < |states| && ids !! states[k].enclave.storage.Keys
    && forall id :: id in ids ==> !Spoiled(states, k + 1, j, id)
  }

  lemma TimerMeetsGeneration(env: Env, states: seq<Node>, events: seq<Event>, t: nat, k: nat, r: nat)
    requires IsRun(env, states, events) && t < k < |events|
    requires r in states[t].table.pending && states[t].lock.None? && events[t] == Timer(r)
    requires Rests(states, events, r, t + 1, k)
    requires CallsGeneration(states, events, k, r, states[t].table.pending[r].consumersById)
    ensures GeneratesAt(states, events, k, r)
    ensures states[k].table.tasks[r] == TimeoutTask(states[t].table.pending[r])
    ensures states[t].table.pending[r].requestedIds == states[t].table.pending[r].consumersById.Keys
  {
    RunKeepsInv(env, states, events, t);
    TimerLeadsToGeneration(env, states, events, t, k, r);
    RequestsFollowOrder(events[k].order, states[t].table.pending[r].consumersById);
  }

  /** From the timer to the answer, in every run and with anything else in between: a request that times out,
      is generated for and checked is answered Ok if and only if none of its ids was in the store and nothing
      that was generated has since been replaced by something expired. */
  lemma TimedOutRequestAnswered(env: Env, states: seq<Node>, events: seq<Event>, t: nat, k: nat, j: nat, r: nat)
    requires IsRun(env, states, events) && t < k < j < |events|
    requires r in states[t].table.pending && states[t].lock.None? && events[t] == Timer(r)
    requires Rests(states, events, r, t + 1, k) && Rests(states, events, r, k + 1, j)
    requires CallsGeneration(states, events, k, r, states[t].table.pending[r].consumersById)
    requires events[j] == RunCheck(r, true)
    ensures r in states[j + 1].table.answers
    ensures states[j + 1].table.answers[r] ==
            [if NewAndKept(states, k, j, states[t].table.pending[r].requestedIds) then AnswerOk else AnswerErr]
  {
    var ids := states[t].table.pending[r].requestedIds;
    TimerMeetsGeneration(env, states, events, t, k, r);
    GenerationAnswered(env, states, events, k, j, r, ids);
  }

  lemma GenerationAnswered(env: Env, states: seq<Node>, events: seq<Event>, k: nat, j: nat, r: nat, ids: set<SecretId>)
    requires IsRun(env, states, events) && k < j < |events| && GeneratesAt(states, events, k, r)
    requires states[k].table.tasks[r].p.requestedIds == ids
    requires Rests(states, events, r, k + 1, j) && events[j] == RunCheck(r, true)
    ensures r in states[j + 1].table.answers
    ensures states[j + 1].table.answers[r] == [if NewAndKept(states, k, j, ids) then AnswerOk else AnswerErr]
  {
    RunKeepsInv(env, states, events, k);
    GenerationInRun(env, states, events, k, r, states[j].now);
    AfterGeneration(states[k].table, r, ids !! states[k].enclave.storage.Keys);
    if ids !! states[k].enclave.storage.Keys {
      TaskRests(env, states, events, r, k + 1, j);
      FinalCheckExactly(env, states, events, j, r, ids);
      HeldUnlessSpoiled(env, states, events, k + 1, j, ids);
      AllHeldIsHeldLive(states, j, ids);
    } else {
      RequestsMoveOn(env, states, events, k + 1, j + 1, r);
    }
  }

  /** So, for a caller: a call whose request times out while the lock is free, and for whose missing ids, each
      under the first consumer the caller named, generation is allowed, is told Ok exactly then. */
  lemma TimedOutCallAnswered(env: Env, states: seq<Node>, events: seq<Event>, t: nat, k: nat, j: nat, q: nat, c: nat)
    requires IsRun(env, states, events) && t < k < j < q < |events|
    requires c < |states[t].calls| && states[t].calls[c].rid.Some?
    requires var call, r := states[t].calls[c], states[t].calls[c].rid.value;
      && r in states[t].table.pending && states[t].lock.None? && events[t] == Timer(r)
      && Rests(states, events, r, t + 1, k) && Rests(states, events, r, k + 1, j)
      && HasConsumers(call) && CallsGeneration(states, events, k, r, MissingConsumers(call))
      && events[j] == RunCheck(r, true)
    requires events[q] == Return(c) && Open(states[q], c)
    ensures c < |states[q + 1].calls|
    ensures states[q + 1].calls[c].result ==
            Some(if NewAndKept(states, k, j, states[t].calls[c].missing) then AnswerOk else AnswerErr)
  {
    var call, r := states[t].calls[c], states[t].calls[c].rid.value;
    RequestOfCall(env, states, events, t, c);
    TimedOutRequestAnswered(env, states, events, t, k, j, r);
    AnswerReturned(env, states, events, t, j + 1, q, c, r);
  }

  /** A pending request is for the missing ids of its call, each for the first consumer named. */
  lemma RequestOfCall(env: Env, states: seq<Node>, events: seq<Event>, t: nat, c: nat)
    requires IsRun(env, states, events) && t <= |events| && c < |states[t].calls| && states[t].calls[c].rid.Some?
    ensures var call, r := states[t].calls[c], states[t].calls[c].rid.value;
      && 1 <= r <= states[t].table.counter && HasConsumers(call)
      && (r in states[t].table.pending ==>
            && states[t].table.pending[r].requestedIds == call.missing
            && states[t].table.pending[r].consumersById == MissingConsumers(call)
            && forall id :: id in call.missing ==> states[t].table.pending[r].consumersById[id] == call.requests[id][0])
  {
    RunKeepsCalls(env, states, events, t);
    assert CallOk(states, states[t], states[t].calls[c]);
  }

  /** What a request was sent, its call returns. */
  lemma AnswerReturned(env: Env, states: seq<Node>, events: seq<Event>, t: nat, j: nat, q: nat, c: nat, r: nat)
    requires IsRun(env, states, events) && t <= j <= q < |events|
    requires c < |states[t].calls| && states[t].calls[c].rid == Some(r)
    requires r in states[j].table.answers && |states[j].table.answers[r]| == 1
    requires events[q] == Return(c) && Open(states[q], c)
    ensures c < |states[q + 1].calls| && states[q + 1].calls[c].result == Some(states[j].table.answers[r][0])
  {
    RunKeepsInv(env, states, events, j);
    RequestsMoveOn(env, states, events, j, q, r);
    CallKeepsRequest(env, states, events, t, q, c);
    ReturnExactly(env, states, events, q, c);
  }

  /** A call keeps the request it was given. */
  lemma {:induction false} CallKeepsRequest(env: Env, states: seq<Node>, events: seq<Event>, i: nat, j: nat, c: nat)
    requires IsRun(env, states, events) && i <= j <= |events| && c < |states[i].calls| && states[i].calls[c].rid.Some?
    ensures c < |states[j].calls| && states[j].calls[c].rid == states[i].calls[c].rid
    decreases j - i
  {
    if i < j {
      CallKeepsRequest(env, states, events, i, j - 1, c);
      CallChange(env, states[j - 1], events[j - 1], c);
    }
  }

  /** From the last response to the answer, in every run and with anything else in between: a request that
      reaches its threshold, is put and is checked is answered Ok if and only if the put brought something new
      or newer and every id it asked for is held and unexpired at the check. */
  lemma RespondedRequestAnswered(env: Env, states: seq<Node>, events: seq<Event>, t: nat, k: nat, j: nat, h: Handling)
    requires IsRun(env, states, events) && t < k < j < |events|
    requires states[t].lock == Some(h) && events[t].Conclude? && h.next == |h.box.containedSecretIds|
    requires h.rid in states[t].table.pending
    requires |states[t].table.pending[h.rid].collected| + 1 >= env.threshold
    requires Rests(states, events, h.rid, t + 1, k) && Rests(states, events, h.rid, k + 1, j)
    requires events[k].RunPut? && events[k].r == h.rid && events[k].reply.Answered?
    requires events[j] == RunCheck(h.rid, true)
    ensures h.rid in states[j + 1].table.answers
    ensures var p := Collect(states[t].table.pending[h.rid], Collected(h.box, h.sender, h.since));
      states[j + 1].table.answers[h.rid] ==
      [if Improved(env, states, events, k, p, events[k].verify) && AllHeldAt(states, j, p.requestedIds)
       then AnswerOk else AnswerErr]
  {
    var r := h.rid;
    var p := Collect(states[t].table.pending[r], Collected(h.box, h.sender, h.since));
    RunKeepsInv(env, states, events, t);
    OneThreshold(env, states, events, t);
    TaskRests(env, states, events, r, t + 1, k);
    assert states[k].table.tasks[r] == PutTask(p);
    PutCallExactly(env, states, events, k, r);
    if Improved(env, states, events, k, p, events[k].verify) {
      TaskRests(env, states, events, r, k + 1, j);
      FinalCheckExactly(env, states, events, j, r, p.requestedIds);
    } else {
      RunKeepsInv(env, states, events, k);
      RequestsMoveOn(env, states, events, k + 1, j + 1, r);
    }
  }

  /** And so for its caller: Ok exactly if the put brought something new or newer and every id that was missing
      is held and unexpired at the check. */
  lemma RespondedCallAnswered(env: Env, states: seq<Node>, events: seq<Event>, t: nat, k: nat, j: nat, q: nat, c: nat,
                              h: Handling)
    requires IsRun(env, states, events) && t < k < j < q < |events|
    requires c < |states[t].calls| && states[t].calls[c].rid == Some(h.rid)
    requires states[t].lock == Some(h) && events[t].Conclude? && h.next == |h.box.containedSecretIds|
    requires h.rid in states[t].table.pending
    requires |states[t].table.pending[h.rid].collected| + 1 >= env.threshold
    requires Rests(states, events, h.rid, t + 1, k) && Rests(states, events, h.rid, k + 1, j)
    requires events[k].RunPut? && events[k].r == h.rid && events[k].reply.Answered?
    requires events[j] == RunCheck(h.rid, true)
    requires events[q] == Return(c) && Open(states[q], c)
    ensures c < |states[q + 1].calls|
    ensures var p := Collect(states[t].table.pending[h.rid], Collected(h.box, h.sender, h.since));
      states[q + 1].calls[c].result ==
      Some(if Improved(env, states, events, k, p, events[k].verify) && AllHeldAt(states, j, states[t].calls[c].missing)
           then AnswerOk else AnswerErr)
  {
    RequestOfCall(env, states, events, t, c);
    RespondedRequestAnswered(env, states, events, t, k, j, h);
    AnswerReturned(env, states, events, t, j + 1, q, c, h.rid);
  }
}
