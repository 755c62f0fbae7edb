/** Seen from its enclave, every run of a node is a run of that enclave, so what holds over all enclave
    runs holds inside the node. */
module NodeEnclaves {
  import opened SealedBoxes
  import opened Enclaves
  import opened Daemons
  import opened Nodes

  /** The enclave operation behind an event; a put of nothing when there is none. */
  ghost function ActionOf(n: Node, e: Event): Provenance.Action {
    var idle := Provenance.Put(n.now, [], _ => false);
    match e
    case Operate(a) => if Provenance.ActionOk(a) && a.now == n.now then a else idle
    case CheckNext(verdict) => if n.lock.Some? then PolicyRunOf(n, n.lock.value, verdict) else idle
    case RunPut(r, verify, reply) =>
      if r in n.table.tasks && n.table.tasks[r].PutTask? && n.table.tasks[r].p.collected != [] && !reply.NotSent?
      then Provenance.Put(n.now, BundlesFor(n.table.tasks[r].p.collected, n.table.tasks[r].p.consumersById), verify)
      else idle
    case RunTimeout(r, order, flowOk, own, entropy, reply) =>
      if CanRunTimeout(n, r, order, entropy) && flowOk && own.Some? && !reply.NotSent?
      then Provenance.GenerateNew(n.now, GenerationRequests(order, n.table.tasks[r].p.consumersById), own, entropy)
      else idle
    case _ => idle
  }

  ghost function PolicyRunOf(n: Node, h: Handling, verdict: Verdict): Provenance.Action {
    var ids := h.box.containedSecretIds;
    if h.rid in n.table.pending && h.next < |ids| && verdict.Allowed?
      && ids[h.next] in n.table.pending[h.rid].consumersById then
      var request := PolicyRequest([ids[h.next]], n.table.pending[h.rid].consumersById[ids[h.next]], h.sender);
      Provenance.RunPolicy(n.now, [request], [true])
    else Provenance.Put(n.now, [], _ => false)
  }

  lemma GrantIsPolicyRun(auths: Authorizations, request: PolicyRequest, now: nat)
    ensures GrantAll(auths, [request], [true], now) == Grant(auths, request, now)
  {
    assert [request][1..] == [] && [true][1..] == [];
  }

  lemma PolicyRunSteps(env: Env, n: Node, h: Handling, verdict: Verdict)
    ensures Provenance.ActionOk(PolicyRunOf(n, h, verdict))
    ensures CheckOne(n, h, verdict).enclave ==
            Provenance.Next(env.own, n.enclave, PolicyRunOf(n, h, verdict))
  {
    var a := PolicyRunOf(n, h, verdict);
    if a.RunPolicy? {
      GrantIsPolicyRun(n.enclave.auths, a.requests[0], n.now);
    }
  }

  lemma EnclaveSteps(env: Env, n: Node, e: Event)
    ensures ActionOf(n, e).now == n.now && Provenance.ActionOk(ActionOf(n, e))
    ensures Next(env, n, e).enclave == Provenance.Next(env.own, n.enclave, ActionOf(n, e))
  {
    if e.CheckNext? && n.lock.Some? {
      PolicyRunSteps(env, n, n.lock.value, e.verdict);
    }
  }

  ghost function EnclavesOf(states: seq<Node>): (r: seq<Provenance.Enclave>)
    ensures |r| == |states| && forall i :: 0 <= i < |r| ==> r[i] == states[i].enclave
  {
    seq(|states|, i requires 0 <= i < |states| => states[i].enclave)
  }

  ghost function ActionsOf(states: seq<Node>, events: seq<Event>): (r: seq<Provenance.Action>)
    requires |states| == |events| + 1
    ensures |r| == |events| && forall i :: 0 <= i < |r| ==> r[i] == ActionOf(states[i], events[i])
  {
    seq(|events|, i requires 0 <= i < |events| => ActionOf(states[i], events[i]))
  }

  lemma {:induction false} ClockMoves(env: Env, states: seq<Node>, events: seq<Event>, i: nat, j: nat)
    requires IsRun(env, states, events) && i <= j <= |events|
    ensures states[i].now <= states[j].now
    decreases j - i
  {
    if i < j {
      ClockMoves(env, states, events, i, j - 1);
      ClockStep(env, states[j - 1], events[j - 1]);
    }
  }

  lemma ClockStep(env: Env, n: Node, e: Event)
    ensures n.now <= Next(env, n, e).now
  {
  }

  /** Every run of a node, projected to its enclave, is a run of the enclave. */
  lemma NodeRunIsEnclaveRun(env: Env, states: seq<Node>, events: seq<Event>)
    requires IsRun(env, states, events)
    ensures Provenance.IsRun(env.own, EnclavesOf(states), ActionsOf(states, events))
  {
    var enclaves, actions := EnclavesOf(states), ActionsOf(states, events);
    forall i | 0 <= i < |actions|
      ensures Provenance.ActionOk(actions[i])
      ensures enclaves[i + 1] == Provenance.Next(env.own, enclaves[i], actions[i])
    {
      EnclaveSteps(env, states[i], events[i]);
    }
    forall i, j | 0 <= i < j < |actions| ensures actions[i].now <= actions[j].now {
      EnclaveSteps(env, states[i], events[i]);
      EnclaveSteps(env, states[j], events[j]);
      ClockMoves(env, states, events, i, j);
    }
  }

  /** Release provenance inside a node: whatever the daemon does, a box leaves if and only if the requester
      verifies, its user data decodes and its key has 32 bytes, and a record is in it if and only if it is the
      live stored entry, approved less than 3600 seconds before for that key and a consumer asked for. */
  lemma NodeReleasesApproved(env: Env, states: seq<Node>, events: seq<Event>, k: nat, r: SecretRecord)
    requires IsRun(env, states, events) && k < |events| && events[k].Operate? && events[k].action.Seal?
    requires events[k].action.now == states[k].now
    ensures var a, s := events[k].action, states[k].enclave;
      var box := SealFor(env.own, s.storage, s.auths, a.asked, a.requester, a.verify, a.nonce, a.now);
      && (box.Some? <==>
            a.verify(a.requester) && a.requester.ephemeralKey.Some? && |a.requester.ephemeralKey.value| == 32)
      && (box.Some? ==>
            (r in box.value.payload.ciphertext.plaintext <==>
              && r.id in s.storage && Stored(r) == s.storage[r.id] && (r.expiry == 0 || states[k].now < r.expiry)
              && exists consumer :: SecretRequest(r.id, consumer) in a.asked
                   && Provenance.RecentlyApproved(ActionsOf(states, events), k, a.requester.ephemeralKey.value, r.id,
                                                  consumer)))
  {
    NodeRunIsEnclaveRun(env, states, events);
    assert ActionsOf(states, events)[k] == events[k].action;
    Provenance.SealedProvenance(env.own, EnclavesOf(states), ActionsOf(states, events), k, r);
  }

  /** Entry provenance inside a node: whatever the daemon does, an entry of the store was generated here with
      a recent approval, or came in the box of a verified sender, under its key, all of whose listed ids had
      been approved for it. */
  lemma NodeEntriesVouched(env: Env, states: seq<Node>, events: seq<Event>, k: nat, id: SecretId)
    requires IsRun(env, states, events) && k <= |events| && id in states[k].enclave.storage
    ensures exists p ::
      0 <= p < k && Provenance.CameAt(env.own, ActionsOf(states, events), p, id, states[k].enclave.storage[id])
  {
    NodeRunIsEnclaveRun(env, states, events);
    Provenance.EveryEntryVouched(env.own, EnclavesOf(states), ActionsOf(states, events), k, id);
  }

  /** Store monotonicity inside a node. */
  lemma NodeStoreGrows(env: Env, states: seq<Node>, events: seq<Event>, i: nat, j: nat)
    requires IsRun(env, states, events) && i <= j <= |events|
    ensures Provenance.Grows(states[i].enclave.storage, states[j].enclave.storage)
  {
    NodeRunIsEnclaveRun(env, states, events);
    Provenance.StoreMonotone(env.own, EnclavesOf(states), ActionsOf(states, events), i, j);
  }
}
