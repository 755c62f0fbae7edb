/** The daemon's side of secret replication (node/daemon/src/services/secrets.rs): a table of pending
    requests in which peer responses race a timer, and the finalisers that drive the enclave. */
module Daemons {
  import opened Bytes
  import opened SealedBoxes
  import opened Enclaves

  /** The threshold the code passes for every request; the table is proved for any positive one. */
  const RESPONSE_THRESHOLD: nat := 1

  datatype Answer = AnswerOk | AnswerErr

  /** A response that passed the policy checks, and when the checks began. */
  datatype Collected = Collected(box: SecretsBox, attestation: AttestationBundle, since: nat)

  datatype Pending = Pending(
    requestedIds: set<SecretId>,
    consumersById: map<SecretId, ConsumerInfo>,
    collected: seq<Collected>,
    responseCount: nat,
    threshold: nat)

  /** A finaliser at its next call into the enclave. */
  datatype Task = PutTask(p: Pending) | TimeoutTask(p: Pending) | CheckTask(ids: set<SecretId>)

  /** The shared state: ids handed out but not yet in the table, the table, armed timers, running
      finalisers, what each responder was sent, and the ids that left the table, in order. */
  datatype Table = Table(
    counter: nat,
    reserved: map<nat, Pending>,
    pending: map<nat, Pending>,
    timers: set<nat>,
    tasks: map<nat, Task>,
    answers: map<nat, seq<Answer>>,
    departed: seq<nat>)

  const EMPTY_TABLE := Table(0, map[], map[], {}, map[], map[], [])

  /** What the daemon learns about one id of a response. */
  datatype Verdict = Allowed | Denied | ExecutionFailed | NoPolicy

  /** What the policy's worker returned, seen from the verdict. */
  function WorkerAnswer(v: Verdict): Option<seq<bool>> {
    match v
    case Allowed => Some([true])
    case Denied => Some([false])
    case _ => None
  }

  datatype Outcome = Valid | Invalid | Aborted

  datatype Checked = Checked(auths: Authorizations, outcome: Outcome)

  // ---------- Table moves ----------

  function NewRequest(ids: set<SecretId>, consumers: map<SecretId, ConsumerInfo>, threshold: nat): Pending {
    Pending(ids, consumers, [], 0, threshold)
  }

  function Reserved(t: Table, p: Pending): Table {
    t.(counter := t.counter + 1, reserved := t.reserved[t.counter + 1 := p])
  }

  /** Into the table, with its timer armed. */
  function Inserted(t: Table, r: nat): Table {
    if r in t.reserved then
      t.(reserved := t.reserved - {r}, pending := t.pending[r := t.reserved[r]], timers := t.timers + {r})
    else t
  }

  /** Out of the table, into a finaliser. */
  function Departed(t: Table, r: nat, task: Task): Table {
    t.(pending := t.pending - {r}, tasks := t.tasks[r := task], departed := t.departed + [r])
  }

  function Replied(t: Table, r: nat, answer: Answer): Table {
    t.(tasks := t.tasks - {r},
       answers := t.answers[r := (if r in t.answers then t.answers[r] else []) + [answer]])
  }

  /** A finaliser after its first call into the enclave: on to the final check, or failed. */
  function Advanced(t: Table, r: nat, ok: bool): Table
    requires r in t.tasks && !t.tasks[r].CheckTask?
  {
    if ok then t.(tasks := t.tasks[r := CheckTask(t.tasks[r].p.requestedIds)]) else Replied(t, r, AnswerErr)
  }

  function Collect(p: Pending, c: Collected): Pending {
    p.(collected := p.collected + [c], responseCount := p.responseCount + 1)
  }

  function AfterValidResponse(t: Table, r: nat, c: Collected): Table
    requires r in t.pending
  {
    var p := Collect(t.pending[r], c);
    if p.responseCount >= p.threshold then Departed(t, r, PutTask(p)) else t.(pending := t.pending[r := p])
  }

  function AfterTimer(t: Table, r: nat): Table {
    var u := t.(timers := t.timers - {r});
    if r in t.pending && t.pending[r].responseCount < t.pending[r].threshold
      then Departed(u, r, TimeoutTask(t.pending[r])) else u
  }

  // ---------- Policy checks on a response ----------

  /** The handler's loop: every allowed id leaves an authorization behind in the enclave, also when a
      later id ends the loop. */
  function CheckResponse(auths: Authorizations, consumers: map<SecretId, ConsumerInfo>, sender: AttestationBundle,
                         ids: seq<SecretId>, verdicts: seq<Verdict>, now: nat): Checked
    requires |verdicts| == |ids|
    decreases |ids|
  {
    if ids == [] then Checked(auths, Valid)
    else if verdicts[0].NoPolicy? || ids[0] !in consumers then Checked(auths, Aborted)
    else if !verdicts[0].Allowed? then Checked(auths, Invalid)
    else CheckResponse(Grant(auths, PolicyRequest([ids[0]], consumers[ids[0]], sender), now), consumers, sender,
                       ids[1..], verdicts[1..], now)
  }

  /** One bundle per collected box, all of it under the consumer of its first id; empty boxes and
      boxes whose first id is unknown are dropped. */
  function BundlesFor(collected: seq<Collected>, consumers: map<SecretId, ConsumerInfo>): seq<Bundle> {
    if collected == [] then []
    else
      var c, rest := collected[0], BundlesFor(collected[1..], consumers);
      var ids := c.box.containedSecretIds;
      if ids != [] && ids[0] in consumers then [Bundle(c.box, c.attestation, consumers[ids[0]])] + rest else rest
  }

  /** The generation requests of a timed-out request, in the order its ids are visited. */
  function GenerationRequests(order: seq<SecretId>, consumers: map<SecretId, ConsumerInfo>): seq<SecretRequest> {
    if order == [] then []
    else
      var rest := GenerationRequests(order[1..], consumers);
      if order[0] in consumers then [SecretRequest(order[0], consumers[order[0]])] + rest else rest
  }

  /** `order` visits every element of the set once. */
  predicate Enumerates(order: seq<SecretId>, ids: set<SecretId>) {
    |order| == |ids| && ids == set id | id in order
  }

  /** Ids the enclave reports present and unexpired, and the daemon finds unexpired too. */
  function HeldLive(storage: Storage, ids: set<SecretId>, now: nat): set<SecretId> {
    set id | id in ids && id in storage && Live(storage[id].expiry, now)
  }

  // ---------- Finalisers ----------

  /** What becomes of a call into the enclave: answered, failed before it got there, or failed after the
      enclave had acted. */
  datatype Reply = Answered | NotSent | Lost

  /** `finalize_request_threshold` up to and including the put. */
  function PutStep(own: KeyPair, verify: Verifier, storage: Storage, auths: Authorizations, t: Table, r: nat,
                   reply: Reply, now: nat): (Storage, Table)
    requires r in t.tasks && t.tasks[r].PutTask?
  {
    var p := t.tasks[r].p;
    if p.collected == [] || reply.NotSent? then (storage, Advanced(t, r, false))
    else
      var records := Incoming(own, auths, BundlesFor(p.collected, p.consumersById), verify, now);
      (Merge(storage, records, now), Advanced(t, r, reply.Answered? && StoredCount(storage, records, now) > 0))
  }

  /** The policy runs by which this node authorises itself before generating; a denial is passed over,
      an error ends them. */
  function SelfAuthorize(auths: Authorizations, requests: seq<SecretRequest>, own: AttestationBundle,
                         verdicts: seq<Verdict>, now: nat): (Authorizations, bool)
    requires |verdicts| == |requests|
    decreases |requests|
  {
    if requests == [] then (auths, true)
    else if verdicts[0].NoPolicy? || verdicts[0].ExecutionFailed? then (auths, false)
    else
      var first := PolicyRequest([requests[0].id], requests[0].consumer, own);
      SelfAuthorize(if verdicts[0].Allowed? then Grant(auths, first, now) else auths, requests[1..], own, verdicts[1..],
                    now)
  }

  /** `finalize_request_timeout` from the end of the policy runs: `flowOk` says that they ended without
      an error, and `own` is the report the enclave makes for itself. */
  function TimeoutStep(storage: Storage, auths: Authorizations, t: Table, r: nat, order: seq<SecretId>, flowOk: bool,
                       own: Option<AttestationBundle>, entropy: seq<Option<Bytes>>,
                       reply: Reply, now: nat): (Storage, Table)
    requires r in t.tasks && t.tasks[r].TimeoutTask?
    requires |entropy| == |GenerationRequests(order, t.tasks[r].p.consumersById)|
  {
    var requests := GenerationRequests(order, t.tasks[r].p.consumersById);
    if requests == [] then (storage, Advanced(t, r, order == []))
    else if !flowOk || own.None? || reply.NotSent? then (storage, Advanced(t, r, false))
    else
      var (after, ok) := Generate(storage, auths, own.value, requests, entropy, now);
      (after, Advanced(t, r, ok && reply.Answered?))
  }

  /** `check_and_respond`: Ok only if the enclave reports every requested id held and unexpired. */
  function CheckStep(storage: Storage, t: Table, r: nat, rpcOk: bool, now: nat): Table
    requires r in t.tasks && t.tasks[r].CheckTask?
  {
    var ids := t.tasks[r].ids;
    Replied(t, r, if rpcOk && HeldLive(storage, ids, now) == ids then AnswerOk else AnswerErr)
  }

  // ---------- Answering a peer ----------

  /** One entry of a peer's request: an id and who consumes it. */
  datatype Asked = Asked(id: SecretId, consumers: seq<ConsumerInfo>)

  /** Held and unexpired here, with a consumer named, and allowed by its policy. */
  predicate Granted(storage: Storage, a: Asked, verdict: Verdict, now: nat) {
    a.id in storage && Live(storage[a.id].expiry, now) && a.consumers != [] && verdict.Allowed?
  }

  /** The policy runs for a requester, and the requests they allow to pass on to the enclave. */
  function PeerPlan(storage: Storage, auths: Authorizations, asked: seq<Asked>, requester: AttestationBundle,
                    verdicts: seq<Verdict>, now: nat)
    : (Authorizations, seq<SecretRequest>)
    requires |verdicts| == |asked|
    decreases |asked|
  {
    if asked == [] then (auths, [])
    else if Granted(storage, asked[0], verdicts[0], now) then
      var r := SecretRequest(asked[0].id, asked[0].consumers[0]);
      var (after, rest) :=
        PeerPlan(storage, Grant(auths, PolicyRequest([r.id], r.consumer, requester), now), asked[1..], requester,
                 verdicts[1..], now);
      (after, [r] + rest)
    else PeerPlan(storage, auths, asked[1..], requester, verdicts[1..], now)
  }

  /** The box a peer answers with, if any; `reportOk` says whether its own report could be made. */
  function PeerAnswer(own: KeyPair, storage: Storage, auths: Authorizations, asked: seq<Asked>,
                      requester: AttestationBundle, verdicts: seq<Verdict>, verify: Verifier, nonce: Bytes,
                      reportOk: bool, now: nat): Option<SecretsBox>
    requires |verdicts| == |asked|
  {
    var plan := PeerPlan(storage, auths, asked, requester, verdicts, now);
    if plan.1 == [] || !reportOk then None
    else SealFor(own, storage, plan.0, plan.1, requester, verify, nonce, now)
  }

  // ---------- The service ----------

  class SecretsService {
    const enclave: Secrets
    const threshold: nat
    var requestCounter: nat
    var pending: map<nat, Pending>
    var timers: set<nat>
    var tasks: map<nat, Task>
    var answers: map<nat, seq<Answer>>
    ghost var departed: seq<nat>

    /** The class reserves and inserts in one method, so nothing is ever only reserved here. */
    ghost function View(): Table
      reads this
    {
      Table(requestCounter, map[], pending, timers, tasks, answers, departed)
    }

    constructor (enclave: Secrets, threshold: nat)
      ensures View() == EMPTY_TABLE && this.enclave == enclave && this.threshold == threshold
    {
      this.enclave := enclave;
      this.threshold := threshold;
      requestCounter, pending, timers, tasks, answers, departed := 0, map[], {}, map[], map[], [];
    }

    /** `check_local`: which ids the enclave holds. */
    method CheckLocal(ids: seq<SecretId>, now: nat) returns (local: set<SecretId>, missing: set<SecretId>)
      ensures local == HeldLive(enclave.storage, (set id | id in ids), now)
      ensures missing == (set id | id in ids) - local
    {
      var statuses := enclave.CheckSecrets(ids, now);
      local := {};
      for k := 0 to |statuses|
        invariant local == HeldLive(enclave.storage, (set id | id in ids[..k]), now)
      {
        assert ids[..k + 1] == ids[..k] + [ids[k]];
        var s := statuses[k];
        if s.valid && (s.expiry == 0 || s.expiry > now) {
          local := local + {s.id};
        }
      }
      assert ids[..|ids|] == ids;
      missing := {};
      for k := 0 to |ids|
        invariant missing == (set id | id in ids[..k]) - local
      {
        assert ids[..k + 1] == ids[..k] + [ids[k]];
        if ids[k] !in local {
          missing := missing + {ids[k]};
        }
      }
    }

    method OpenRequest(ids: set<SecretId>, consumers: map<SecretId, ConsumerInfo>) returns (requestId: nat)
      modifies this
      ensures requestId == old(requestCounter) + 1
      ensures View() == Inserted(Reserved(old(View()), NewRequest(ids, consumers, threshold)), requestId)
    {
      requestId := requestCounter + 1;
      requestCounter := requestId;
      pending := pending[requestId := Pending(ids, consumers, [], 0, threshold)];
      timers := timers + {requestId};
      assert View().reserved ==
        Inserted(Reserved(old(View()), NewRequest(ids, consumers, threshold)), requestId).reserved;
    }

    /** `check_policy_for_env`: runs the policy in the enclave for one id.  `worker` is what the policy's
        worker returns, if it can be run; anything but one answer is an error, and stores nothing. */
    method CheckPolicyForEnv(sender: AttestationBundle, id: SecretId, consumer: ConsumerInfo,
                             worker: Option<seq<bool>>, now: nat)
      returns (result: Option<bool>)
      modifies enclave`authorizations
      ensures result == if worker.Some? && |worker.value| == 1 then Some(worker.value[0]) else None
      ensures enclave.authorizations ==
        if result == Some(true) then Grant(old(enclave.authorizations), PolicyRequest([id], consumer, sender), now)
        else old(enclave.authorizations)
    {
      if worker.None? {
        return None;
      }
      var requests, answers := [PolicyRequest([id], consumer, sender)], worker.value;
      var satisfied := enclave.ExecutePolicy(requests, answers, now);
      if satisfied.None? {
        return None;
      }
      assert requests[1..] == [] && answers[1..] == [];
      result := Some(satisfied.value != []);
    }

    method HandleIncomingResponse(requestId: nat, box: SecretsBox, sender: AttestationBundle, verdicts: seq<Verdict>,
                                  now: nat)
      requires |verdicts| == |box.containedSecretIds|
      modifies this, enclave`authorizations
      ensures requestId !in old(pending) ==>
              View() == old(View()) && enclave.authorizations == old(enclave.authorizations)
      ensures requestId in old(pending) ==>
        var checked := CheckResponse(old(enclave.authorizations), old(pending)[requestId].consumersById, sender,
                                     box.containedSecretIds, verdicts, now);
        && enclave.authorizations == checked.auths
        && View() == if checked.outcome.Valid?
          then AfterValidResponse(old(View()), requestId, Collected(box, sender, now)) else old(View())
    {
      if requestId !in pending {
        return;
      }
      var p := pending[requestId];
      var outcome := CheckIds(p.consumersById, box.containedSecretIds, sender, verdicts, now);
      if outcome != Valid {
        return;
      }
      p := p.(collected := p.collected + [Collected(box, sender, now)], responseCount := p.responseCount + 1);
      if p.responseCount >= p.threshold {
        pending := pending - {requestId};
        tasks := tasks[requestId := PutTask(p)];
        departed := departed + [requestId];
      } else {
        pending := pending[requestId := p];
      }
    }

    method CheckIds(consumers: map<SecretId, ConsumerInfo>, ids: seq<SecretId>, sender: AttestationBundle,
                    verdicts: seq<Verdict>, now: nat)
      returns (outcome: Outcome)
      requires |verdicts| == |ids|
      modifies enclave`authorizations
      ensures Checked(enclave.authorizations, outcome) ==
              CheckResponse(old(enclave.authorizations), consumers, sender, ids, verdicts, now)
    {
      for k := 0 to |ids|
        invariant CheckResponse(enclave.authorizations, consumers, sender, ids[k..], verdicts[k..], now)
               == CheckResponse(old(enclave.authorizations), consumers, sender, ids, verdicts, now)
      {
        assert ids[k..][1..] == ids[k + 1..] && verdicts[k..][1..] == verdicts[k + 1..];
        if verdicts[k].NoPolicy? {
          return Aborted;
        }
        if ids[k] !in consumers {
          return Aborted;
        }
        var result := CheckPolicyForEnv(sender, ids[k], consumers[ids[k]], WorkerAnswer(verdicts[k]), now);
        if result != Some(true) {
          return Invalid;
        }
      }
      return Valid;
    }

    /** `handle_incoming_secret_batch_request`; `reportOk` says whether this node's own report, sent
        along with the box, could be made. */
    method HandleIncomingRequest(asked: seq<Asked>, requester: AttestationBundle, verdicts: seq<Verdict>,
                                 verify: Verifier, nonce: Bytes, reportOk: bool, now: nat)
      returns (answer: Option<SecretsBox>)
      requires |verdicts| == |asked|
      modifies enclave`authorizations
      ensures enclave.authorizations ==
              PeerPlan(enclave.storage, old(enclave.authorizations), asked, requester, verdicts, now).0
      ensures answer == PeerAnswer(enclave.keypair, enclave.storage, old(enclave.authorizations), asked, requester,
                                   verdicts, verify, nonce, reportOk, now)
    {
      var ids := seq(|asked|, i requires 0 <= i < |asked| => asked[i].id);
      var statuses := enclave.CheckSecrets(ids, now);
      var authorized: seq<SecretRequest> := [];
      ghost var plan := PeerPlan(enclave.storage, enclave.authorizations, asked, requester, verdicts, now);
      assert asked[0..] == asked && verdicts[0..] == verdicts;
      for k := 0 to |asked|
        invariant var rest :=
            PeerPlan(enclave.storage, enclave.authorizations, asked[k..], requester, verdicts[k..], now);
          rest.0 == plan.0 && authorized + rest.1 == plan.1
      {
        assert asked[k..][1..] == asked[k + 1..] && verdicts[k..][1..] == verdicts[k + 1..];
        var s := statuses[k];
        if s.valid && (s.expiry == 0 || s.expiry > now) {
          if asked[k].consumers == [] || verdicts[k].NoPolicy? {
            continue;
          }
          var consumer := asked[k].consumers[0];
          var result := CheckPolicyForEnv(requester, s.id, consumer, WorkerAnswer(verdicts[k]), now);
          if result == Some(true) {
            authorized := authorized + [SecretRequest(s.id, consumer)];
          }
        }
      }
      assert authorized == plan.1;
      if authorized == [] {
        return None;
      }
      answer := enclave.GetSecrets(authorized, requester, verify, nonce, now);
      if !reportOk {
        return None;
      }
    }

    /** The timer task. */
    method TimeoutElapsed(requestId: nat)
      modifies this
      ensures View() == AfterTimer(old(View()), requestId)
    {
      timers := timers - {requestId};
      if requestId in pending {
        var p := pending[requestId];
        if p.responseCount < p.threshold {
          pending := pending - {requestId};
          tasks := tasks[requestId := TimeoutTask(p)];
          departed := departed + [requestId];
        }
      }
    }

    method Respond(requestId: nat, answer: Answer)
      modifies this`tasks, this`answers
      ensures View() == Replied(old(View()), requestId, answer)
    {
      tasks := tasks - {requestId};
      var sofar := if requestId in answers then answers[requestId] else [];
      answers := answers[requestId := sofar + [answer]];
    }

    method FinalizeThreshold(requestId: nat, verify: Verifier, reply: Reply, now: nat)
      requires requestId in tasks && tasks[requestId].PutTask?
      modifies this, enclave`storage
      ensures (enclave.storage, View()) ==
        PutStep(enclave.keypair, verify, old(enclave.storage), enclave.authorizations, old(View()), requestId, reply,
                now)
    {
      var p := tasks[requestId].p;
      if p.collected == [] || reply.NotSent? {
        Respond(requestId, AnswerErr);
        return;
      }
      var bundles: seq<Bundle> := [];
      for k := 0 to |p.collected|
        invariant bundles + BundlesFor(p.collected[k..], p.consumersById) == BundlesFor(p.collected, p.consumersById)
        invariant View() == old(View()) && enclave.storage == old(enclave.storage)
        invariant enclave.authorizations == old(enclave.authorizations)
      {
        assert p.collected[k..][1..] == p.collected[k + 1..];
        var c := p.collected[k];
        var ids := c.box.containedSecretIds;
        if ids != [] {
          if ids[0] in p.consumersById {
            bundles := bundles + [Bundle(c.box, c.attestation, p.consumersById[ids[0]])];
          }
        }
      }
      assert bundles == BundlesFor(p.collected, p.consumersById);
      var success := enclave.PutSecrets(bundles, verify, now);
      if !success || reply.Lost? {
        Respond(requestId, AnswerErr);
        return;
      }
      tasks := tasks[requestId := CheckTask(p.requestedIds)];
    }

    /** `generate_secrets_flow`: the policies see the report the daemon asked for, `mine`; generation
        checks the one the enclave makes for itself then, `own`. */
    method GenerateSecretsFlow(requests: seq<SecretRequest>, mine: Option<AttestationBundle>, verdicts: seq<Verdict>,
                               own: Option<AttestationBundle>, entropy: seq<Option<Bytes>>, reply: Reply, now: nat)
      returns (ok: bool)
      requires |verdicts| == |requests| == |entropy|
      modifies enclave
      ensures requests == [] ==> ok
      ensures requests == [] || mine.None? ==> enclave.authorizations == old(enclave.authorizations)
      ensures requests != [] && mine.Some? ==>
        enclave.authorizations == SelfAuthorize(old(enclave.authorizations), requests, mine.value, verdicts, now).0
      ensures var reached := && requests != [] && mine.Some? && own.Some? && !reply.NotSent?
                             && SelfAuthorize(old(enclave.authorizations), requests, mine.value, verdicts, now).1;
        if reached then
          var (after, generated) :=
            Generate(old(enclave.storage), enclave.authorizations, own.value, requests, entropy, now);
          enclave.storage == after && ok == (generated && reply.Answered?)
        else enclave.storage == old(enclave.storage) && (requests != [] ==> !ok)
    {
      if requests == [] {
        return true;
      }
      if mine.None? {
        return false;
      }
      for k := 0 to |requests|
        invariant enclave.storage == old(enclave.storage)
        invariant SelfAuthorize(enclave.authorizations, requests[k..], mine.value, verdicts[k..], now)
               == SelfAuthorize(old(enclave.authorizations), requests, mine.value, verdicts, now)
      {
        assert requests[k..][1..] == requests[k + 1..] && verdicts[k..][1..] == verdicts[k + 1..];
        if verdicts[k].NoPolicy? {
          return false;
        }
        var r := requests[k];
        var result := CheckPolicyForEnv(mine.value, r.id, r.consumer, WorkerAnswer(verdicts[k]), now);
        if result.None? {
          return false;
        }
      }
      if reply.NotSent? {
        return false;
      }
      ok := enclave.GenerateSecrets(requests, own, entropy, now);
      ok := ok && reply.Answered?;
    }

    /** `finalize_request_timeout`; `order` is how the set of ids is iterated. */
    method FinalizeTimeout(requestId: nat, order: seq<SecretId>, mine: Option<AttestationBundle>,
                           verdicts: seq<Verdict>,
                           own: Option<AttestationBundle>, entropy: seq<Option<Bytes>>, reply: Reply, now: nat)
      requires requestId in tasks && tasks[requestId].TimeoutTask?
      requires Enumerates(order, tasks[requestId].p.requestedIds)
      requires |verdicts| == |GenerationRequests(order, tasks[requestId].p.consumersById)| == |entropy|
      modifies this, enclave
      ensures var requests := GenerationRequests(order, old(tasks)[requestId].p.consumersById);
        var flow := if mine.Some? then SelfAuthorize(old(enclave.authorizations), requests, mine.value, verdicts, now)
                    else (old(enclave.authorizations), false);
        && enclave.authorizations == flow.0
        && (enclave.storage, View()) ==
             TimeoutStep(old(enclave.storage), flow.0, old(View()), requestId, order, flow.1, own, entropy, reply, now)
    {
      var p := tasks[requestId].p;
      var requests: seq<SecretRequest> := [];
      for k := 0 to |order|
        invariant requests + GenerationRequests(order[k..], p.consumersById) ==
                GenerationRequests(order, p.consumersById)
        invariant View() == old(View()) && enclave.storage == old(enclave.storage)
        invariant enclave.authorizations == old(enclave.authorizations)
      {
        assert order[k..][1..] == order[k + 1..];
        if order[k] in p.consumersById {
          requests := requests + [SecretRequest(order[k], p.consumersById[order[k]])];
        }
      }
      assert requests == GenerationRequests(order, p.consumersById);
      if requests == [] && order != [] {
        Respond(requestId, AnswerErr);
        return;
      }
      var ok := GenerateSecretsFlow(requests, mine, verdicts, own, entropy, reply, now);
      if !ok {
        Respond(requestId, AnswerErr);
        return;
      }
      tasks := tasks[requestId := CheckTask(p.requestedIds)];
    }

    method CheckAndRespond(requestId: nat, order: seq<SecretId>, rpcOk: bool, now: nat)
      requires requestId in tasks && tasks[requestId].CheckTask?
      requires Enumerates(order, tasks[requestId].ids)
      modifies this
      ensures View() == CheckStep(enclave.storage, old(View()), requestId, rpcOk, now)
    {
      if !rpcOk {
        Respond(requestId, AnswerErr);
        return;
      }
      ghost var ids := tasks[requestId].ids;
      var found, _ := CheckLocal(order, now);
      var allFound := true;
      for k := 0 to |order|
        invariant allFound <==> forall i :: 0 <= i < k ==> order[i] in found
        invariant View() == old(View())
      {
        if order[k] !in found {
          allFound := false;
        }
      }
      assert allFound <==> found == ids;
      Respond(requestId, if allFound then AnswerOk else AnswerErr);
    }
  }
}
