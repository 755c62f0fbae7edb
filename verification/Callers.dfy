/** What a caller of `get_secrets` may rely on when it is answered Ok. */
module Callers {
  import opened Bytes
  import opened SealedBoxes
  import opened Enclaves
  import opened Daemons
  import opened PendingTables
  import opened Nodes
  import opened NodeEnclaves

  /** At step `i` of the run the enclave holds `id`, unexpired. */
  ghost predicate HeldAt(states: seq<Node>, i: nat, id: SecretId) {
    && i < |states| && id in states[i].enclave.storage
    && (states[i].enclave.storage[id].expiry == 0 || states[i].now < states[i].enclave.storage[id].expiry)
  }

  ghost predicate AllHeldAt(states: seq<Node>, i: nat, ids: set<SecretId>) {
    forall id :: id in ids ==> HeldAt(states, i, id)
  }

  /** Request `r`, opened by a call begun at step `started`, asks for these ids and consumers; if it was
      answered Ok then the ids were all held at the recorded step, which lies within the call. */
  ghost predicate Serves(states: seq<Node>, n: Node, r: nat, consumers: map<SecretId, ConsumerInfo>, started: nat) {
    && 1 <= r <= n.table.counter && AsksFor(n.table, r, consumers)
    && (r in n.table.answers && n.table.answers[r] == [AnswerOk] ==>
          r in n.confirmed && started <= n.confirmed[r] < n.step && AllHeldAt(states, n.confirmed[r], consumers.Keys))
  }

  ghost predicate CallOk(states: seq<Node>, n: Node, c: Call) {
    && c.started < n.step
    && AllHeldAt(states, c.started, c.requests.Keys - c.missing)
    && (c.rid.Some? ==> HasConsumers(c) && Serves(states, n, c.rid.value, MissingConsumers(c), c.started))
    && (c.result == Some(AnswerOk) ==>
          if c.rid.None? then c.missing == {}
            else c.rid.value in n.table.answers && n.table.answers[c.rid.value] == [AnswerOk])
  }

  ghost predicate CallsOk(states: seq<Node>, n: Node) {
    forall c :: 0 <= c < |n.calls| ==> CallOk(states, n, n.calls[c])
  }

  /** A request keeps serving its call across one step. */
  lemma StillServes(env: Env, states: seq<Node>, n: Node, e: Event, r: nat, consumers: map<SecretId, ConsumerInfo>,
                    started: nat)
    requires env.threshold > 0 && Inv(n) && n.step < |states| && states[n.step] == n
    requires Serves(states, n, r, consumers, started) && started < n.step
    ensures Serves(states, Next(env, n, e), r, consumers, started)
  {
    var n' := Next(env, n, e);
    var m := NextMoves(env, n, e);
    MoveIsOnward(n.table, m, r);
    MoveKeepsIds(n.table, m, r, consumers);
    if r in n.table.answers {
      AnsweredStaysConfirmed(env, n, e, r);
    } else if r in n'.table.answers && n'.table.answers[r] == [AnswerOk] {
      AnsweredOkByCheck(n.table, m, r);
      assert n.table.tasks[r] == CheckTask(consumers.Keys);
    }
  }

  lemma AnsweredStaysConfirmed(env: Env, n: Node, e: Event, r: nat)
    requires Inv(n) && r in n.table.answers
    ensures r in n.confirmed ==> r in Next(env, n, e).confirmed && Next(env, n, e).confirmed[r] == n.confirmed[r]
  {
    assert r !in n.table.tasks;
  }

  /** Only the final check answers Ok. */
  lemma AnsweredOkByCheck(t: Table, m: Move, r: nat)
    requires TableInv(t) && Enabled(t, m) && r !in t.answers
    requires r in Moved(t, m).answers && Moved(t, m).answers[r] == [AnswerOk]
    ensures m == Replying(r, AnswerOk)
  {
    FirstAnswer(t, m, r);
    assert Moved(t, m).answers[r][0] == AnswerOk;
  }

  /** A first answer is the final check's, or an error. */
  lemma FirstAnswer(t: Table, m: Move, r: nat)
    requires Enabled(t, m) && r !in t.answers && r in Moved(t, m).answers
    ensures Moved(t, m).answers[r] != []
    ensures (m.Replying? && m.r == r && Moved(t, m).answers[r][0] == m.answer) || Moved(t, m).answers[r][0] == AnswerErr
  {
  }

  lemma BeginIsOk(states: seq<Node>, n: Node, requests: map<SecretId, seq<ConsumerInfo>>)
    requires n.step < |states| && states[n.step] == n
    ensures CallOk(states, n.(step := n.step + 1), BeginCall(n, requests))
  {
  }

  lemma ReservedServes(env: Env, states: seq<Node>, n: Node, c: nat)
    requires env.threshold > 0 && Inv(n) && Open(n, c) && n.calls[c].rid.None? && n.calls[c].missing != {}
    requires HasConsumers(n.calls[c])
    ensures Serves(states, Next(env, n, Reserve(c)), n.table.counter + 1, MissingConsumers(n.calls[c]),
                   n.calls[c].started)
  {
    var r := n.table.counter + 1;
    assert r !in n.table.pending && r !in n.table.tasks && r !in n.table.answers;
  }

  /** What one step can do to a call: give it a request id, fail it, or return its answer. */
  lemma CallChange(env: Env, n: Node, e: Event, c: nat)
    requires c < |n.calls|
    ensures c < |Next(env, n, e).calls|
    ensures var call, call' := n.calls[c], Next(env, n, e).calls[c];
      && call' == call.(rid := call'.rid, result := call'.result)
      && (call'.rid != call.rid ==>
            && e == Reserve(c) && Open(n, c) && call.rid.None? && call.missing != {} && HasConsumers(call)
            && call'.rid == Some(n.table.counter + 1))
      && (call'.result != call.result && call'.result == Some(AnswerOk) ==>
            && e == Return(c) && call.rid.Some? && call.rid.value in n.table.answers
              && n.table.answers[call.rid.value] != []
            && n.table.answers[call.rid.value][0] == AnswerOk)
  {
  }

  lemma CallStaysOk(env: Env, states: seq<Node>, n: Node, e: Event, c: nat)
    requires env.threshold > 0 && Inv(n) && n.step < |states| && states[n.step] == n
    requires CallsOk(states, n) && c < |Next(env, n, e).calls|
    ensures CallOk(states, Next(env, n, e), Next(env, n, e).calls[c])
  {
    if c == |n.calls| {
      BeginIsOk(states, n, e.requests);
    } else {
      OldCallStaysOk(env, states, n, e, c);
    }
  }

  lemma OldCallStaysOk(env: Env, states: seq<Node>, n: Node, e: Event, c: nat)
    requires env.threshold > 0 && Inv(n) && n.step < |states| && states[n.step] == n
    requires c < |n.calls| && CallOk(states, n, n.calls[c])
    ensures c < |Next(env, n, e).calls| && CallOk(states, Next(env, n, e), Next(env, n, e).calls[c])
  {
    CallChange(env, n, e, c);
    var call, call' := n.calls[c], Next(env, n, e).calls[c];
    if call.rid.Some? {
      StillServes(env, states, n, e, call.rid.value, MissingConsumers(call), call.started);
      var m := NextMoves(env, n, e);
      MoveIsOnward(n.table, m, call.rid.value);
    } else if call'.rid.Some? {
      ReservedServes(env, states, n, c);
    }
    if call'.result != call.result && call'.result == Some(AnswerOk) {
      assert |n.table.answers[call.rid.value]| == 1;
    }
  }

  ghost predicate CallsOkAt(states: seq<Node>, k: nat) {
    k < |states| && states[k].step == k && Inv(states[k]) && CallsOk(states, states[k])
  }

  lemma StepKeepsCalls(env: Env, states: seq<Node>, k: nat, e: Event)
    requires env.threshold > 0 && CallsOkAt(states, k) && k + 1 < |states| && states[k + 1] == Next(env, states[k], e)
    ensures CallsOkAt(states, k + 1)
  {
    var n, m := states[k], states[k + 1];
    NextKeepsInv(env, n, e);
    forall c | 0 <= c < |m.calls| ensures CallOk(states, m, m.calls[c]) {
      CallStaysOk(env, states, n, e, c);
    }
  }

  lemma {:induction false} RunKeepsCalls(env: Env, states: seq<Node>, events: seq<Event>, k: nat)
    requires IsRun(env, states, events) && k <= |events|
    ensures CallsOkAt(states, k)
  {
    if k == 0 {
      RunKeepsInv(env, states, events, k);
    } else {
      RunKeepsCalls(env, states, events, k - 1);
      StepKeepsCalls(env, states, k - 1, events[k - 1]);
    }
  }

  // ---------- Caller soundness ----------

  /** In every run, when a call has been answered Ok: each id it asked for was reported held and
      unexpired by the enclave at some step since the call began, and is in the store now, as it was
      then or as something strictly newer. */
  lemma CallerSound(env: Env, states: seq<Node>, events: seq<Event>, k: nat, c: nat, id: SecretId)
    requires IsRun(env, states, events) && k <= |events| && c < |states[k].calls|
    requires states[k].calls[c].result == Some(AnswerOk) && id in states[k].calls[c].requests
    ensures exists i: nat ::
      && states[k].calls[c].started <= i < k && HeldAt(states, i, id)
      && id in states[k].enclave.storage
      && (states[k].enclave.storage[id] == states[i].enclave.storage[id]
          || states[k].enclave.storage[id].generation > states[i].enclave.storage[id].generation)
  {
    RunKeepsCalls(env, states, events, k);
    var n, call := states[k], states[k].calls[c];
    assert CallOk(states, n, call);
    var i: nat := if id in call.missing then n.confirmed[call.rid.value] else call.started;
    assert HeldAt(states, i, id);
    NodeStoreGrows(env, states, events, i, k);
  }

  // ---------- How a call begins and returns ----------

  /** In every run, a call whose ids are all held and unexpired is answered Ok at once; any other stays open,
      with exactly the ids missing that are not. */
  lemma BeginExactly(env: Env, states: seq<Node>, events: seq<Event>, k: nat)
    requires IsRun(env, states, events) && k < |events| && events[k].Begin?
    ensures var requests, c := events[k].requests, |states[k].calls|;
      && |states[k + 1].calls| == c + 1
      && var call := states[k + 1].calls[c];
         && call.requests == requests && call.rid.None?
         && (forall id :: id in call.missing <==> id in requests && !HeldAt(states, k, id))
         && call.result == if forall id :: id in requests ==> HeldAt(states, k, id) then Some(AnswerOk) else None
  {
    var requests, n := events[k].requests, states[k];
    var call := BeginCall(n, requests);
    forall id ensures id in call.missing <==> id in requests && !HeldAt(states, k, id) {
    }
    if forall id :: id in requests ==> HeldAt(states, k, id) {
      assert call.missing == {};
    }
  }

  /** And a call that waits for its request returns exactly the one answer the request was sent. */
  lemma ReturnExactly(env: Env, states: seq<Node>, events: seq<Event>, k: nat, c: nat)
    requires IsRun(env, states, events) && k < |events| && events[k] == Return(c)
    requires Open(states[k], c) && states[k].calls[c].rid.Some?
    ensures c < |states[k + 1].calls|
    ensures var r, answers := states[k].calls[c].rid.value, states[k].table.answers;
      && (r in answers ==> |answers[r]| == 1)
      && states[k + 1].calls[c].result == if r in answers then Some(answers[r][0]) else None
  {
    RunKeepsInv(env, states, events, k);
  }

  lemma CallEnds(env: Env, n: Node, e: Event, c: nat)
    requires Open(n, c)
    ensures c < |Next(env, n, e).calls|
    ensures var rid, result := n.calls[c].rid, Next(env, n, e).calls[c].result;
      result ==
      if (e == Abandon(c) && rid.None?) || (e == PublishFails(c) && rid.Some? && rid.value !in n.table.reserved)
        then Some(AnswerErr)
      else if e == Return(c) && rid.Some? && rid.value in n.table.answers && n.table.answers[rid.value] != []
        then Some(n.table.answers[rid.value][0])
      else None
  {
  }

  /** In every run, nothing else ends an open call: it fails if it is given up before it has a request or its
      broadcast fails once the request is in the table, and otherwise ends only with its request's answer. */
  lemma CallEndsExactly(env: Env, states: seq<Node>, events: seq<Event>, k: nat, c: nat)
    requires IsRun(env, states, events) && k < |events| && Open(states[k], c)
    ensures c < |states[k + 1].calls|
    ensures var t, rid, result := states[k].table, states[k].calls[c].rid, states[k + 1].calls[c].result;
      var fails := (events[k] == Abandon(c) && rid.None?)
        || (events[k] == PublishFails(c) && rid.Some?
            && (rid.value in t.pending || rid.value in t.tasks || rid.value in t.answers));
      var done := events[k] == Return(c) && rid.Some? && rid.value in t.answers;
      && (fails ==> result == Some(AnswerErr))
      && (done ==> |t.answers[rid.value]| == 1 && result == Some(t.answers[rid.value][0]))
      && (!fails && !done ==> result.None?)
  {
    RunKeepsInv(env, states, events, k);
    RunKeepsCalls(env, states, events, k);
    assert CallOk(states, states[k], states[k].calls[c]);
    CallEnds(env, states[k], events[k], c);
  }
}
