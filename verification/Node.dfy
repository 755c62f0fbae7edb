/** One node: a daemon with its enclave, as a state machine whose steps interleave in any order
    (node/daemon/src/services/secrets.rs over node/enclave/src/secrets/mod.rs). */
module Nodes {
  import opened Bytes
  import opened SealedBoxes
  import opened Enclaves
  import Provenance
  import opened Daemons
  import opened PendingTables

  /** What does not change: the enclave's keys and the response threshold. */
  datatype Env = Env(own: KeyPair, threshold: nat)

  /** A response handler holding the lock on the table, with `next` ids checked. */
  datatype Handling = Handling(rid: nat, box: SecretsBox, sender: AttestationBundle, next: nat, since: nat)

  /** A call of `get_secrets`: what it asks for, what `check_local` found missing, at which step. */
  datatype Call = Call(
    requests: map<SecretId, seq<ConsumerInfo>>,
    missing: set<SecretId>,
    started: nat,
    rid: Option<nat>,
    result: Option<Answer>)

  /** `step` counts the steps taken; `confirmed` records at which step a final check found every id. */
  datatype Node = Node(
    step: nat,
    now: nat,
    enclave: Provenance.Enclave,
    table: Table,
    lock: Option<Handling>,
    confirmed: map<nat, nat>,
    calls: seq<Call>)

  datatype Event =
    | Tick(to: nat)
    | Operate(action: Provenance.Action)
    | Begin(requests: map<SecretId, seq<ConsumerInfo>>)
    | Abandon(c: nat)
    | Reserve(c: nat)
    | Insert(r: nat)
    | PublishFails(c: nat)
    | Receive(r: nat, box: SecretsBox, sender: AttestationBundle)
    | CheckNext(verdict: Verdict)
    | Conclude
    | Timer(r: nat)
    | RunPut(r: nat, verify: Verifier, reply: Reply)
    | RunTimeout(r: nat, order: seq<SecretId>, flowOk: bool, own: Option<AttestationBundle>,
                 entropy: seq<Option<Bytes>>, reply: Reply)
    | RunCheck(r: nat, rpcOk: bool)
    | Return(c: nat)

  // ---------- Steps ----------

  predicate Open(n: Node, c: nat) {
    c < |n.calls| && n.calls[c].result.None?
  }

  function Ended(n: Node, c: nat, answer: Answer): Node
    requires c < |n.calls|
  {
    n.(calls := n.calls[c := n.calls[c].(result := Some(answer))])
  }

  predicate HasConsumers(c: Call) {
    forall id :: id in c.missing ==> id in c.requests && c.requests[id] != []
  }

  function MissingConsumers(c: Call): map<SecretId, ConsumerInfo>
    requires HasConsumers(c)
  {
    map id | id in c.missing :: c.requests[id][0]
  }

  function BeginCall(n: Node, requests: map<SecretId, seq<ConsumerInfo>>): Call {
    var missing := requests.Keys - HeldLive(n.enclave.storage, requests.Keys, n.now);
    Call(requests, missing, n.step, None, if missing == {} then Some(AnswerOk) else None)
  }

  function ReserveFor(env: Env, n: Node, c: nat): Node {
    if Open(n, c) && n.calls[c].rid.None? && n.calls[c].missing != {} && HasConsumers(n.calls[c]) then
      var p := NewRequest(n.calls[c].missing, MissingConsumers(n.calls[c]), env.threshold);
      n.(table := Reserved(n.table, p), calls := n.calls[c := n.calls[c].(rid := Some(n.table.counter + 1))])
    else n
  }

  /** One id of a response: a missing policy or consumer, a denial and a failed run all end the handler. */
  function CheckOne(n: Node, h: Handling, verdict: Verdict): Node {
    var ids := h.box.containedSecretIds;
    if h.next >= |ids| || h.rid !in n.table.pending then n
    else
      var consumers, id := n.table.pending[h.rid].consumersById, ids[h.next];
      if !verdict.Allowed? || id !in consumers then n.(lock := None)
      else
        n.(enclave := n.enclave.(auths := Grant(n.enclave.auths, PolicyRequest([id], consumers[id], h.sender), n.now)),
           lock := Some(h.(next := h.next + 1)))
  }

  function ConcludeHandling(n: Node, h: Handling): Node {
    if h.next == |h.box.containedSecretIds| && h.rid in n.table.pending then
      n.(table := AfterValidResponse(n.table, h.rid, Collected(h.box, h.sender, h.since)), lock := None)
    else n
  }

  predicate CanRunTimeout(n: Node, r: nat, order: seq<SecretId>, entropy: seq<Option<Bytes>>) {
    && r in n.table.tasks && n.table.tasks[r].TimeoutTask?
    && Enumerates(order, n.table.tasks[r].p.requestedIds)
    && |entropy| == |GenerationRequests(order, n.table.tasks[r].p.consumersById)|
  }

  function FinalCheck(n: Node, r: nat, rpcOk: bool): Node
    requires r in n.table.tasks && n.table.tasks[r].CheckTask?
  {
    var ids, table := n.table.tasks[r].ids, CheckStep(n.enclave.storage, n.table, r, rpcOk, n.now);
    n.(table := table,
       confirmed := if HeldLive(n.enclave.storage, ids, n.now) == ids then n.confirmed[r := n.step] else n.confirmed)
  }

  /** Steps that are not enabled change nothing; inserting and the timer wait for the table's lock. */
  function Effect(env: Env, n: Node, e: Event): Node {
    match e
    case Tick(to) => if to >= n.now then n.(now := to) else n
    case Operate(a) =>
      if Provenance.ActionOk(a) && a.now == n.now then n.(enclave := Provenance.Next(env.own, n.enclave, a))
        else n
    case Begin(requests) => n.(calls := n.calls + [BeginCall(n, requests)])
    case Abandon(c) => if Open(n, c) && n.calls[c].rid.None? then Ended(n, c, AnswerErr) else n
    case Reserve(c) => ReserveFor(env, n, c)
    case Insert(r) => if n.lock.None? then n.(table := Inserted(n.table, r)) else n
    case PublishFails(c) =>
      if Open(n, c) && n.calls[c].rid.Some? && n.calls[c].rid.value !in n.table.reserved then Ended(n, c, AnswerErr)
        else n
    case Receive(r, box, sender) =>
      if n.lock.None? && r in n.table.pending then n.(lock := Some(Handling(r, box, sender, 0, n.now))) else n
    case CheckNext(verdict) => if n.lock.Some? then CheckOne(n, n.lock.value, verdict) else n
    case Conclude => if n.lock.Some? then ConcludeHandling(n, n.lock.value) else n
    case Timer(r) => if n.lock.None? && r in n.table.timers then n.(table := AfterTimer(n.table, r)) else n
    case RunPut(r, verify, reply) =>
      if r in n.table.tasks && n.table.tasks[r].PutTask? then
        var (storage, table) :=
          PutStep(env.own, verify, n.enclave.storage, n.enclave.auths, n.table, r, reply, n.now);
        n.(enclave := n.enclave.(storage := storage), table := table)
      else n
    case RunTimeout(r, order, flowOk, own, entropy, reply) =>
      if CanRunTimeout(n, r, order, entropy) then
        var (storage, table) :=
          TimeoutStep(n.enclave.storage, n.enclave.auths, n.table, r, order, flowOk, own, entropy, reply, n.now);
        n.(enclave := n.enclave.(storage := storage), table := table)
      else n
    case RunCheck(r, rpcOk) =>
      if r in n.table.tasks && n.table.tasks[r].CheckTask? then FinalCheck(n, r, rpcOk) else n
    case Return(c) =>
      if Open(n, c) && n.calls[c].rid.Some? then
        var r := n.calls[c].rid.value;
        if r in n.table.answers && n.table.answers[r] != [] then Ended(n, c, n.table.answers[r][0]) else n
      else n
  }

  function Next(env: Env, n: Node, e: Event): Node {
    Effect(env, n, e).(step := n.step + 1)
  }

  const START := Node(0, 0, Provenance.Enclave(map[], map[]), EMPTY_TABLE, None, map[], [])

  ghost predicate IsRun(env: Env, states: seq<Node>, events: seq<Event>) {
    && env.threshold > 0
    && |states| == |events| + 1 && states[0] == START
    && forall i :: 0 <= i < |events| ==> states[i + 1] == Next(env, states[i], events[i])
  }

  function RunFrom(env: Env, n: Node, events: seq<Event>): Node
    decreases |events|
  {
    if events == [] then n else RunFrom(env, Next(env, n, events[0]), events[1..])
  }

  // ---------- Exactly once ----------

  /** While a handler holds the lock, its request cannot leave the table. */
  ghost predicate LockOk(n: Node) {
    n.lock.Some? ==> n.lock.value.rid in n.table.pending && n.lock.value.next <= |n.lock.value.box.containedSecretIds|
  }

  ghost predicate Inv(n: Node) {
    TableInv(n.table) && LockOk(n)
  }

  lemma PutAdvances(env: Env, n: Node, r: nat, verify: Verifier, reply: Reply) returns (ok: bool)
    requires r in n.table.tasks && n.table.tasks[r].PutTask?
    ensures PutStep(env.own, verify, n.enclave.storage, n.enclave.auths, n.table, r, reply, n.now).1 ==
            Advanced(n.table, r, ok)
  {
    ok := PutStep(env.own, verify, n.enclave.storage, n.enclave.auths, n.table, r, reply, n.now).1 ==
      Advanced(n.table, r, true);
  }

  lemma TimeoutAdvances(n: Node, r: nat, order: seq<SecretId>, flowOk: bool, own: Option<AttestationBundle>,
                        entropy: seq<Option<Bytes>>, reply: Reply) returns (ok: bool)
    requires CanRunTimeout(n, r, order, entropy)
    ensures TimeoutStep(n.enclave.storage, n.enclave.auths, n.table, r, order, flowOk, own, entropy, reply, n.now).1 ==
            Advanced(n.table, r, ok)
  {
    ok := TimeoutStep(n.enclave.storage, n.enclave.auths, n.table, r, order, flowOk, own, entropy, reply, n.now).1 ==
      Advanced(n.table, r, true);
  }

  /** Move `m` is what event `e` does to the table, and why. */
  ghost predicate Explains(env: Env, n: Node, e: Event, m: Move) {
    && Enabled(n.table, m) && Next(env, n, e).table == Moved(n.table, m)
    && (m.Reserving? ==>
          e.Reserve? && Open(n, e.c) && m.p.requestedIds == n.calls[e.c].missing && m.p.threshold == env.threshold)
    && (m.Collecting? ==>
          && n.lock.Some? && Next(env, n, e).lock.None? && m.r == n.lock.value.rid
          && n.lock.value.next == |n.lock.value.box.containedSecretIds|
          && m.c == Collected(n.lock.value.box, n.lock.value.sender, n.lock.value.since))
    && (m.Inserting? ==> n.lock.None?)
    && (m.TimingOut? ==> n.lock.None? && Next(env, n, e).lock.None?)
    && (m.Advancing? || m.Replying? ==> OwnStep(n, m.r, e))
    && (m.Replying? && m.answer.AnswerOk? ==>
          && e.RunCheck? && e.r == m.r
          && HeldLive(n.enclave.storage, n.table.tasks[m.r].ids, n.now) == n.table.tasks[m.r].ids)
  }

  lemma FinaliserMoves(env: Env, n: Node, e: Event) returns (m: Move)
    requires e.RunPut? || e.RunTimeout? || e.RunCheck?
    ensures Explains(env, n, e, m)
  {
    m := Stay;
    match e
    case RunPut(r, verify, reply) =>
      if r in n.table.tasks && n.table.tasks[r].PutTask? {
        var ok := PutAdvances(env, n, r, verify, reply);
        m := Advancing(r, ok);
      }
    case RunTimeout(r, order, flowOk, own, entropy, reply) =>
      if CanRunTimeout(n, r, order, entropy) {
        var ok := TimeoutAdvances(n, r, order, flowOk, own, entropy, reply);
        m := Advancing(r, ok);
      }
    case RunCheck(r, rpcOk) =>
      if r in n.table.tasks && n.table.tasks[r].CheckTask? {
        var ids := n.table.tasks[r].ids;
        m := Replying(r, if rpcOk && HeldLive(n.enclave.storage, ids, n.now) == ids then AnswerOk else AnswerErr);
      }
  }

  lemma ReserveMoves(env: Env, n: Node, c: nat) returns (m: Move)
    requires env.threshold > 0
    ensures Explains(env, n, Reserve(c), m)
  {
    m := Stay;
    if Open(n, c) && n.calls[c].rid.None? && n.calls[c].missing != {} && HasConsumers(n.calls[c]) {
      m := Reserving(NewRequest(n.calls[c].missing, MissingConsumers(n.calls[c]), env.threshold));
      assert m.p.consumersById.Keys == m.p.requestedIds;
    }
  }

  lemma NextMoves(env: Env, n: Node, e: Event) returns (m: Move)
    requires env.threshold > 0 && Inv(n)
    ensures Explains(env, n, e, m)
  {
    if e.RunPut? || e.RunTimeout? || e.RunCheck? {
      m := FinaliserMoves(env, n, e);
    } else if e.Reserve? {
      m := ReserveMoves(env, n, e.c);
    } else if e.Insert? && n.lock.None? {
      m := Inserting(e.r);
    } else if e.Timer? && n.lock.None? && e.r in n.table.timers {
      m := TimingOut(e.r);
    } else if e.Conclude? && n.lock.Some? && n.lock.value.next == |n.lock.value.box.containedSecretIds| {
      m := Collecting(n.lock.value.rid, Collected(n.lock.value.box, n.lock.value.sender, n.lock.value.since));
    } else {
      m := Stay;
    }
  }

  lemma NextKeepsInv(env: Env, n: Node, e: Event)
    requires env.threshold > 0 && Inv(n)
    ensures Inv(Next(env, n, e))
  {
    var m := NextMoves(env, n, e);
    MoveKeepsInv(n.table, m);
    LockKept(env, n, e, m);
  }

  lemma LockKept(env: Env, n: Node, e: Event, m: Move)
    requires Inv(n) && Explains(env, n, e, m)
    ensures LockOk(Next(env, n, e))
  {
    LockNeedsPending(env, n, e);
    if !m.TimingOut? && !m.Collecting? {
      OnlyTwoMovesTakeOut(n.table, m);
    }
  }

  lemma LockNeedsPending(env: Env, n: Node, e: Event)
    requires LockOk(n)
    ensures var lock := Next(env, n, e).lock;
      lock.Some? ==> lock.value.rid in n.table.pending && lock.value.next <= |lock.value.box.containedSecretIds|
  {
  }

  lemma {:induction false} RunKeepsInv(env: Env, states: seq<Node>, events: seq<Event>, k: nat)
    requires IsRun(env, states, events) && k <= |events|
    ensures Inv(states[k])
  {
    if k > 0 {
      RunKeepsInv(env, states, events, k - 1);
      NextKeepsInv(env, states[k - 1], events[k - 1]);
    }
  }

  /** Nothing is left to happen by itself: no id in hand, no armed timer, no finaliser. */
  ghost predicate Quiescent(t: Table) {
    t.reserved == map[] && t.timers == {} && t.tasks == map[]
  }

  /** In every interleaving of responses and timers: no id leaves the table twice, no responder is
      sent two answers, answers go only to ids that left; pending entries count exactly their bundles
      and stay below the threshold, so a timer that finds its request always takes it out; and once
      nothing is left to happen, every id ever handed out has left and has its one answer. */
  lemma ExactlyOnce(env: Env, states: seq<Node>, events: seq<Event>, k: nat)
    requires IsRun(env, states, events) && k <= |events|
    ensures var t := states[k].table;
      && (forall i, j :: 0 <= i < j < |t.departed| ==> t.departed[i] != t.departed[j])
      && (forall r :: r in t.answers ==> |t.answers[r]| == 1 && r in t.departed && r !in t.pending)
      && (forall r :: r in t.pending ==>
            t.pending[r].responseCount == |t.pending[r].collected| < t.pending[r].threshold)
      && (forall r :: r in t.pending ==>
            r in t.timers && r !in t.departed && AfterTimer(t, r).departed == t.departed + [r])
      && (Quiescent(t) ==> forall r :: 1 <= r <= t.counter ==> r in t.departed && r in t.answers && |t.answers[r]| == 1)
  {
    RunKeepsInv(env, states, events, k);
    var t := states[k].table;
    if Quiescent(t) {
      assert t.pending.Keys == {};
    }
  }

  /** A request only ever moves on: once out of the table it never returns, and an answer once sent
      is never changed or repeated. */
  lemma {:induction false} RequestsMoveOn(env: Env, states: seq<Node>, events: seq<Event>, i: nat, j: nat, r: nat)
    requires IsRun(env, states, events) && i <= j <= |events| && 1 <= r <= states[i].table.counter
    ensures Onward(states[i].table, states[j].table, r)
    decreases j - i
  {
    if i < j {
      RequestsMoveOn(env, states, events, i, j - 1, r);
      RunKeepsInv(env, states, events, j - 1);
      var m := NextMoves(env, states[j - 1], events[j - 1]);
      MoveIsOnward(states[j - 1].table, m, r);
    }
  }

  /** The request has been in the table and its timer has gone off. */
  ghost predicate WentOff(t: Table, r: nat) {
    1 <= r <= t.counter && r !in t.reserved && r !in t.timers
  }

  lemma GoesOff(env: Env, n: Node, r: nat)
    requires TableInv(n.table) && n.lock.None? && r in n.table.timers
    ensures WentOff(Next(env, n, Timer(r)).table, r)
  {
  }

  lemma StaysOff(env: Env, n: Node, e: Event, r: nat)
    requires env.threshold > 0 && Inv(n) && WentOff(n.table, r)
    ensures WentOff(Next(env, n, e).table, r)
  {
    var m := NextMoves(env, n, e);
    MoveRearmsNothing(n.table, m, r);
  }

  /** In every run a timer goes off at most once: after it has, it is never armed again. */
  lemma {:induction false} TimerGoesOffOnce(env: Env, states: seq<Node>, events: seq<Event>, i: nat, j: nat, r: nat)
    requires IsRun(env, states, events) && i < j <= |events|
    requires events[i] == Timer(r) && states[i].lock.None? && r in states[i].table.timers
    ensures r !in states[j].table.timers && WentOff(states[j].table, r)
    decreases j - i
  {
    RunKeepsInv(env, states, events, j - 1);
    if i + 1 == j {
      GoesOff(env, states[i], r);
    } else {
      TimerGoesOffOnce(env, states, events, i, j - 1, r);
      StaysOff(env, states[j - 1], events[j - 1], r);
    }
  }

  /** In every run each request in the table waits for as many responses as the node is set to. */
  lemma {:induction false} OneThreshold(env: Env, states: seq<Node>, events: seq<Event>, k: nat)
    requires IsRun(env, states, events) && k <= |events|
    ensures AllAwait(states[k].table, env.threshold)
  {
    if k > 0 {
      OneThreshold(env, states, events, k - 1);
      RunKeepsInv(env, states, events, k - 1);
      var m := NextMoves(env, states[k - 1], events[k - 1]);
      MoveKeepsThreshold(states[k - 1].table, m, env.threshold);
    }
  }

  // ---------- Nothing gets stuck ----------

  /** A step that request `r` is waiting for, with any outcome of the calls it makes. */
  ghost predicate OwnStep(n: Node, r: nat, e: Event) {
    match e
    case Insert(q) => q == r && r in n.table.reserved && n.lock.None?
    case Timer(q) => q == r && r in n.table.pending && r in n.table.timers && n.lock.None?
    case RunPut(q, _, _) => q == r && r in n.table.tasks && n.table.tasks[r].PutTask?
    case RunTimeout(q, order, _, _, entropy, _) => q == r && CanRunTimeout(n, r, order, entropy)
    case RunCheck(q, _) => q == r && r in n.table.tasks && n.table.tasks[r].CheckTask?
    case _ => false
  }

  /** A step of the handler that holds the lock, with any verdict. */
  ghost predicate HandlerStep(n: Node, e: Event) {
    && n.lock.Some?
    && if n.lock.value.next < |n.lock.value.box.containedSecretIds| then e.CheckNext? else e.Conclude?
  }

  /** How many steps the handler can still take. */
  ghost function Remaining(n: Node): nat {
    if n.lock.None? || n.lock.value.next > |n.lock.value.box.containedSecretIds| then 0
    else |n.lock.value.box.containedSecretIds| - n.lock.value.next + 1
  }

  /** Whatever the calls return, an own step brings the request closer to its answer. */
  lemma OwnStepAdvances(env: Env, n: Node, r: nat, e: Event)
    requires Inv(n) && OwnStep(n, r, e)
    ensures Stage(Next(env, n, e).table, r) < Stage(n.table, r)
  {
    match e
    case Insert(_) =>
    case Timer(_) =>
    case RunPut(_, verify, reply) =>
      var ok := PutAdvances(env, n, r, verify, reply);
      AdvancedLowersStage(n.table, r, ok);
    case RunTimeout(_, order, flowOk, own, entropy, reply) =>
      var ok := TimeoutAdvances(n, r, order, flowOk, own, entropy, reply);
      AdvancedLowersStage(n.table, r, ok);
    case RunCheck(_, _) =>
  }

  /** While a request is unanswered and the lock is free, such a step is enabled, for every outcome. */
  lemma OwnStepEnabled(n: Node, r: nat, verify: Verifier, reply: Reply, rpcOk: bool, flowOk: bool,
                       own: Option<AttestationBundle>,
                       source: nat -> Option<Bytes>) returns (e: Event)
    requires Inv(n) && n.lock.None? && 1 <= r <= n.table.counter && r !in n.table.answers
    ensures OwnStep(n, r, e)
    ensures e.RunPut? ==> e.verify == verify && e.reply == reply
    ensures e.RunCheck? ==> e.rpcOk == rpcOk
    ensures e.RunTimeout? ==> e.reply == reply && e.flowOk == flowOk && e.own == own
    ensures e.RunTimeout? ==> forall i: nat :: i < |e.entropy| ==> e.entropy[i] == source(i)
  {
    if r in n.table.reserved {
      e := Insert(r);
    } else if r in n.table.pending {
      e := Timer(r);
    } else if n.table.tasks[r].CheckTask? {
      e := RunCheck(r, rpcOk);
    } else if n.table.tasks[r].PutTask? {
      e := RunPut(r, verify, reply);
    } else {
      var p := n.table.tasks[r].p;
      var order := SomeOrder(p.requestedIds);
      var entropy := seq(|GenerationRequests(order, p.consumersById)|, i requires 0 <= i => source(i));
      e := RunTimeout(r, order, flowOk, own, entropy, reply);
    }
  }

  lemma SomeOrder(ids: set<SecretId>) returns (order: seq<SecretId>)
    ensures Enumerates(order, ids)
  {
    order := [];
    var rest := ids;
    while rest != {}
      invariant rest <= ids && |order| + |rest| == |ids|
      invariant forall id :: id in order <==> id in ids && id !in rest
      decreases |rest|
    {
      var id :| id in rest;
      rest, order := rest - {id}, order + [id];
    }
  }

  /** Whatever the verdict, a handler's step leaves it fewer; nothing else touches a held lock. */
  lemma HandlerStepShortens(env: Env, n: Node, e: Event)
    requires Inv(n) && n.lock.Some?
    ensures HandlerStep(n, e) ==> Remaining(Next(env, n, e)) < Remaining(n)
    ensures !HandlerStep(n, e) ==> Next(env, n, e).lock == n.lock
  {
  }

  /** Step `k` of the run leaves the handler that much less to do. */
  ghost predicate Shortens(states: seq<Node>, events: seq<Event>, k: nat) {
    && k < |events| && k + 1 < |states|
    && (if HandlerStep(states[k], events[k]) then 1 else 0) + Remaining(states[k + 1]) <= Remaining(states[k])
  }

  lemma HandlerStepInRun(env: Env, states: seq<Node>, events: seq<Event>, k: nat)
    requires IsRun(env, states, events) && k < |events| && states[k].lock.Some?
    ensures Shortens(states, events, k)
  {
    RunKeepsInv(env, states, events, k);
    HandlerStepShortens(env, states[k], events[k]);
  }

  ghost function OwnSteps(states: seq<Node>, events: seq<Event>, r: nat, i: nat, j: nat): nat
    requires i <= j <= |events| && |states| == |events| + 1
    decreases j - i
  {
    if i == j then 0
    else OwnSteps(states, events, r, i, j - 1) + (if OwnStep(states[j - 1], r, events[j - 1]) then 1 else 0)
  }

  ghost function HandlerSteps(states: seq<Node>, events: seq<Event>, i: nat, j: nat): nat
    requires i <= j <= |events| && |states| == |events| + 1
    decreases j - i
  {
    if i == j then 0
    else HandlerSteps(states, events, i, j - 1) + (if HandlerStep(states[j - 1], events[j - 1]) then 1 else 0)
  }

  lemma {:induction false} OwnStepsAreFew(env: Env, states: seq<Node>, events: seq<Event>, r: nat, i: nat, j: nat)
    requires IsRun(env, states, events) && i <= j <= |events| && 1 <= r <= states[i].table.counter
    ensures Stage(states[j].table, r) + OwnSteps(states, events, r, i, j) <= Stage(states[i].table, r)
    ensures r <= states[j].table.counter
    decreases j - i
  {
    if i < j {
      OwnStepsAreFew(env, states, events, r, i, j - 1);
      RunKeepsInv(env, states, events, j - 1);
      var n, e := states[j - 1], events[j - 1];
      if OwnStep(n, r, e) {
        OwnStepAdvances(env, n, r, e);
      }
      var m := NextMoves(env, n, e);
      MoveIsOnward(n.table, m, r);
    }
  }

  /** In every run, whatever the environment answers: a request that has taken the steps it had left, four
      at most, has its one answer. */
  lemma EveryRequestFinishes(env: Env, states: seq<Node>, events: seq<Event>, r: nat, i: nat, j: nat)
    requires IsRun(env, states, events) && i <= j <= |events| && 1 <= r <= states[i].table.counter
    requires OwnSteps(states, events, r, i, j) >= Stage(states[i].table, r)
    ensures r in states[j].table.answers && |states[j].table.answers[r]| == 1
  {
    OwnStepsAreFew(env, states, events, r, i, j);
    RunKeepsInv(env, states, events, j);
  }

  lemma {:induction false} HandlerStepsAreFew(states: seq<Node>, events: seq<Event>, i: nat, j: nat)
    requires i <= j <= |events| && |states| == |events| + 1
    requires forall k :: i <= k < j ==> Shortens(states, events, k)
    ensures HandlerSteps(states, events, i, j) + Remaining(states[j]) <= Remaining(states[i])
    decreases j - i
  {
    if i < j {
      HandlerStepsAreFew(states, events, i, j - 1);
      assert Shortens(states, events, j - 1);
    }
  }

  /** And a handler that has taken one step for each id it had left, and one more, has released the lock. */
  lemma EveryHandlerFinishes(env: Env, states: seq<Node>, events: seq<Event>, i: nat, j: nat)
    requires IsRun(env, states, events) && i <= j <= |events|
    requires HandlerSteps(states, events, i, j) >= Remaining(states[i])
    ensures exists k :: i <= k <= j && states[k].lock.None?
  {
    if forall k :: i <= k <= j ==> states[k].lock.Some? {
      forall k | i <= k < j ensures Shortens(states, events, k) {
        HandlerStepInRun(env, states, events, k);
      }
      HandlerStepsAreFew(states, events, i, j);
      RunKeepsInv(env, states, events, j);
    }
  }
}
