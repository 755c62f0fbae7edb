/** What a timed-out request comes to: self-authorisation, generation and the final check
    (node/daemon/src/services/secrets.rs over node/enclave/src/secrets/mod.rs). */
module GenerationFlow {
  import opened Bytes
  import opened SealedBoxes
  import opened Enclaves
  import opened Daemons
  import opened PendingTables
  import opened Nodes
  import opened NodeEnclaves
  import opened ResponseApprovals

  lemma {:induction false} RequestsFollowOrder(order: seq<SecretId>, consumers: map<SecretId, ConsumerInfo>)
    requires forall i :: 0 <= i < |order| ==> order[i] in consumers
    ensures var requests := GenerationRequests(order, consumers);
      && |requests| == |order|
      && forall i :: 0 <= i < |order| ==> requests[i] == SecretRequest(order[i], consumers[order[i]])
    decreases |order|
  {
    if order != [] {
      assert order[0] in consumers;
      assert forall i :: 0 <= i < |order| - 1 ==> order[1..][i] == order[i + 1];
      RequestsFollowOrder(order[1..], consumers);
    }
  }

  lemma {:induction false} SetOfSeq(s: seq<SecretId>)
    ensures |set id | id in s| <= |s|
    ensures |set id | id in s| == |s| ==> forall i, j :: 0 <= i < j < |s| ==> s[i] != s[j]
    decreases |s|
  {
    if s != [] {
      var n := |s| - 1;
      SetOfSeq(s[..n]);
      var before := set id | id in s[..n];
      assert s == s[..n] + [s[n]];
      assert (set id | id in s) == before + {s[n]};
      assert s[n] in s[..n] ==> before + {s[n]} == before;
      assert forall i :: 0 <= i < n ==> s[i] == s[..n][i];
    }
  }

  /** The first `n` policies could be run. */
  ghost predicate Ran(verdicts: seq<Verdict>, n: nat) {
    n <= |verdicts| && forall j :: 0 <= j < n ==> verdicts[j].Allowed? || verdicts[j].Denied?
  }

  /** The flow allowed this key, id and consumer before any error. */
  ghost predicate SelfAllowed(requests: seq<SecretRequest>, own: AttestationBundle, verdicts: seq<Verdict>,
                              aid: AuthorizationId) {
    && own.ephemeralKey == Some(aid.key)
    && exists i :: 0 <= i < |requests| && Ran(verdicts, i + 1) && verdicts[i].Allowed?
         && requests[i] == SecretRequest(aid.id, aid.consumer)
  }

  /** What the flow's policy runs come to: they succeed if and only if every policy could be run, a denial
      being no error; and approved afresh are exactly the requests allowed before the first error. */
  lemma {:induction false} SelfAuthorized(auths: Authorizations, requests: seq<SecretRequest>, own: AttestationBundle,
                                          verdicts: seq<Verdict>, now: nat, aid: AuthorizationId)
    requires |verdicts| == |requests|
    ensures var (after, ok) := SelfAuthorize(auths, requests, own, verdicts, now);
      && (ok <==> Ran(verdicts, |verdicts|))
      && if SelfAllowed(requests, own, verdicts, aid) then aid in after && after[aid] == now + AUTHORIZATION_TTL
         else (aid in after <==> aid in auths) && (aid in after ==> after[aid] == auths[aid])
    decreases |requests|
  {
    if requests != [] {
      var r, rest, more := requests[0], requests[1..], verdicts[1..];
      RanCons(verdicts);
      if Ran(verdicts, 1) {
        var next := if verdicts[0].Allowed? then Grant(auths, PolicyRequest([r.id], r.consumer, own), now) else auths;
        assert forall id :: id in [r.id] <==> id == r.id;
        SelfAuthorized(next, rest, own, more, now, aid);
        SelfAllowedCons(requests, own, verdicts, aid);
      } else {
        assert verdicts[0].NoPolicy? || verdicts[0].ExecutionFailed?;
      }
    }
  }

  lemma RanCons(verdicts: seq<Verdict>)
    requires verdicts != []
    ensures forall n: nat :: Ran(verdicts, n + 1) <==> Ran(verdicts, 1) && Ran(verdicts[1..], n)
  {
    forall n: nat ensures Ran(verdicts, n + 1) <==> Ran(verdicts, 1) && Ran(verdicts[1..], n) {
      if Ran(verdicts, 1) && Ran(verdicts[1..], n) {
        assert forall j :: 0 < j < n + 1 ==> verdicts[j] == verdicts[1..][j - 1];
      }
    }
  }

  lemma SelfAllowedCons(requests: seq<SecretRequest>, own: AttestationBundle, verdicts: seq<Verdict>,
                        aid: AuthorizationId)
    requires requests != [] && |verdicts| == |requests| && Ran(verdicts, 1)
    ensures SelfAllowed(requests, own, verdicts, aid) <==>
            || SelfAllowed(requests[1..], own, verdicts[1..], aid)
            || (own.ephemeralKey == Some(aid.key) && verdicts[0].Allowed?
                && requests[0] == SecretRequest(aid.id, aid.consumer))
  {
    RanCons(verdicts);
    var rest, more := requests[1..], verdicts[1..];
    if i :| 0 <= i < |rest| && Ran(more, i + 1) && more[i].Allowed? && rest[i] == SecretRequest(aid.id, aid.consumer) {
      assert Ran(verdicts, (i + 1) + 1) && verdicts[i + 1].Allowed? && requests[i + 1] == rest[i];
    }
    if i :| 0 < i < |requests| && Ran(verdicts, i + 1) && verdicts[i].Allowed?
            && requests[i] == SecretRequest(aid.id, aid.consumer) {
      assert Ran(more, (i - 1) + 1) && more[i - 1].Allowed? && rest[i - 1] == requests[i];
    }
  }

  /** When every id is authorised for its consumer and randomness is available, generation succeeds if and
      only if the store has no entry at all for any of the ids; then all of them are held, and live at
      any later time. */
  lemma GenerationExact(storage: Storage, auths: Authorizations, own: AttestationBundle, ids: set<SecretId>,
                        order: seq<SecretId>,
                        consumers: map<SecretId, ConsumerInfo>, entropy: seq<Option<Bytes>>, now: nat, later: nat)
    requires Enumerates(order, ids) && consumers.Keys == ids
    requires forall id :: id in ids ==> Authorized(auths, own, id, consumers[id], now)
    requires |entropy| == |GenerationRequests(order, consumers)| && forall i :: 0 <= i < |entropy| ==> entropy[i].Some?
    ensures var (after, ok) := Generate(storage, auths, own, GenerationRequests(order, consumers), entropy, now);
      && (ok <==> ids !! storage.Keys)
      && (ok ==> HeldLive(after, ids, later) == ids)
  {
    var requests := GenerationRequests(order, consumers);
    RequestsFollowOrder(order, consumers);
    SetOfSeq(order);
    forall i | 0 <= i < |order| ensures Authorized(auths, own, requests[i].id, requests[i].consumer, now) {
      assert order[i] in ids;
    }
    NewIdsFit(storage, auths, own, ids, order, requests, entropy, now);
    Provenance.GenerateSucceedsExactly(storage, auths, own, requests, entropy, now);
    if Generate(storage, auths, own, requests, entropy, now).1 {
      NewIdsHeld(storage, auths, own, ids, order, requests, entropy, now, later);
    }
  }

  /** `requests` asks for the ids of `order`, all authorised. */
  ghost predicate AsksInOrder(auths: Authorizations, own: AttestationBundle, order: seq<SecretId>,
                              requests: seq<SecretRequest>, now: nat) {
    && |requests| == |order|
    && forall i :: 0 <= i < |order| ==>
        requests[i].id == order[i] && Authorized(auths, own, requests[i].id, requests[i].consumer, now)
  }

  lemma NewIdsFit(storage: Storage, auths: Authorizations, own: AttestationBundle, ids: set<SecretId>,
                  order: seq<SecretId>,
                  requests: seq<SecretRequest>, entropy: seq<Option<Bytes>>, now: nat)
    requires Enumerates(order, ids) && AsksInOrder(auths, own, order, requests, now)
    requires forall i, j :: 0 <= i < j < |order| ==> order[i] != order[j]
    requires |entropy| == |requests| && forall i :: 0 <= i < |entropy| ==> entropy[i].Some?
    ensures Provenance.GenerationFits(storage, auths, own, requests, entropy, now) <==> ids !! storage.Keys
  {
    if ids !! storage.Keys {
      assert forall k :: 0 <= k < |order| ==> order[k] in ids;
    } else {
      var id :| id in ids && id in storage;
      var k :| 0 <= k < |order| && order[k] == id;
      assert requests[k].id in storage;
    }
  }

  lemma NewIdsHeld(storage: Storage, auths: Authorizations, own: AttestationBundle, ids: set<SecretId>,
                   order: seq<SecretId>,
                   requests: seq<SecretRequest>, entropy: seq<Option<Bytes>>, now: nat, later: nat)
    requires Enumerates(order, ids) && AsksInOrder(auths, own, order, requests, now) && |entropy| == |requests|
    requires Generate(storage, auths, own, requests, entropy, now).1 && ids !! storage.Keys
    ensures HeldLive(Generate(storage, auths, own, requests, entropy, now).0, ids, later) == ids
  {
    var after := Generate(storage, auths, own, requests, entropy, now).0;
    GenerateAll(storage, auths, own, requests, entropy, now);
    Provenance.GenerateOnlyAdds(storage, auths, own, requests, entropy, now);
    forall id | id in ids ensures id in after && after[id].expiry == 0 {
      var k :| 0 <= k < |order| && order[k] == id;
      assert requests[k].id in after;
    }
  }

  /** A successful generation leaves every authorised request's id in the store. */
  lemma {:induction false} GenerateAll(storage: Storage, auths: Authorizations, own: AttestationBundle,
                                       requests: seq<SecretRequest>, entropy: seq<Option<Bytes>>, now: nat)
    requires |entropy| == |requests|
    ensures var (after, ok) := Generate(storage, auths, own, requests, entropy, now);
      && storage.Keys <= after.Keys
      && (ok ==>
            forall k :: 0 <= k < |requests| && Authorized(auths, own, requests[k].id, requests[k].consumer, now) ==>
              requests[k].id in after)
    decreases |requests|
  {
    if requests != [] {
      var r, rest, more := requests[0], requests[1..], entropy[1..];
      assert forall k :: 0 < k < |requests| ==> requests[k] == rest[k - 1];
      if !Authorized(auths, own, r.id, r.consumer, now) {
        GenerateAll(storage, auths, own, rest, more, now);
      } else if r.id !in storage && entropy[0].Some? {
        GenerateAll(storage[r.id := StoredSecret(entropy[0].value, 0, now)], auths, own, rest, more, now);
      }
    }
  }

  // ---------- In a run ----------

  lemma TimeoutGenerates(env: Env, n: Node, r: nat, order: seq<SecretId>, own: AttestationBundle,
                         entropy: seq<Option<Bytes>>, later: nat)
    requires CanRunTimeout(n, r, order, entropy) && Waiting(n.table.tasks[r].p)
    requires forall i :: 0 <= i < |entropy| ==> entropy[i].Some?
    requires var p := n.table.tasks[r].p;
      forall id :: id in p.requestedIds ==> Authorized(n.enclave.auths, own, id, p.consumersById[id], n.now)
    ensures var ids := n.table.tasks[r].p.requestedIds;
      var m := Next(env, n, RunTimeout(r, order, true, Some(own), entropy, Answered));
      && m.table == Advanced(n.table, r, ids !! n.enclave.storage.Keys)
      && (ids !! n.enclave.storage.Keys ==> HeldLive(m.enclave.storage, ids, later) == ids)
  {
    var p := n.table.tasks[r].p;
    RequestsFollowOrder(order, p.consumersById);
    GenerationExact(n.enclave.storage, n.enclave.auths, own, p.requestedIds, order, p.consumersById, entropy, n.now,
                    later);
  }

  lemma {:induction false} RunKeepsIds(env: Env, states: seq<Node>, events: seq<Event>, i: nat, j: nat,
                                       r: nat, consumers: map<SecretId, ConsumerInfo>)
    requires IsRun(env, states, events) && i <= j <= |events|
    requires 1 <= r <= states[i].table.counter && AsksFor(states[i].table, r, consumers)
    ensures r <= states[j].table.counter && AsksFor(states[j].table, r, consumers)
    decreases j - i
  {
    if i < j {
      RunKeepsIds(env, states, events, i, j - 1, r, consumers);
      RunKeepsInv(env, states, events, j - 1);
      var m := NextMoves(env, states[j - 1], events[j - 1]);
      MoveKeepsIds(states[j - 1].table, m, r, consumers);
      MoveIsOnward(states[j - 1].table, m, r);
    }
  }

  /** Since step `i` a put has replaced the entry for `id` by one that has expired by step `j`. */
  ghost predicate Spoiled(states: seq<Node>, i: nat, j: nat, id: SecretId) {
    && i < |states| && j < |states| && id in states[i].enclave.storage && id in states[j].enclave.storage
    && states[j].enclave.storage[id] != states[i].enclave.storage[id]
    && !Live(states[j].enclave.storage[id].expiry, states[j].now)
  }

  /** Entries that would be live are held live later exactly if none was spoiled. */
  lemma HeldUnlessSpoiled(env: Env, states: seq<Node>, events: seq<Event>, i: nat, j: nat, ids: set<SecretId>)
    requires IsRun(env, states, events) && i <= j <= |events|
    requires HeldLive(states[i].enclave.storage, ids, states[j].now) == ids
    ensures HeldLive(states[j].enclave.storage, ids, states[j].now) == ids <==>
            forall id :: id in ids ==> !Spoiled(states, i, j, id)
  {
    NodeStoreGrows(env, states, events, i, j);
    var before := HeldLive(states[i].enclave.storage, ids, states[j].now);
    var held := HeldLive(states[j].enclave.storage, ids, states[j].now);
    forall id | id in ids ensures id in held <==> !Spoiled(states, i, j, id) {
      assert id in before;
    }
  }

  /** Step `k` is the generation call of timed-out request `r`, with randomness available and every id
      allowed to the enclave's key less than 3600 seconds before. */
  ghost predicate GeneratesAt(states: seq<Node>, events: seq<Event>, k: nat, r: nat) {
    && k < |events| && k < |states| && events[k].RunTimeout? && events[k].r == r
    && events[k].flowOk && events[k].reply.Answered? && events[k].own.Some? && events[k].own.value.ephemeralKey.Some?
    && CanRunTimeout(states[k], r, events[k].order, events[k].entropy)
    && (forall i :: 0 <= i < |events[k].entropy| ==> events[k].entropy[i].Some?)
    && var consumers, key := states[k].table.tasks[r].p.consumersById, events[k].own.value.ephemeralKey.value;
       forall id :: id in consumers ==> RecentlyAllowed(states, events, k, key, id, consumers[id])
  }

  lemma GenerationInRun(env: Env, states: seq<Node>, events: seq<Event>, k: nat, r: nat, later: nat)
    requires IsRun(env, states, events) && GeneratesAt(states, events, k, r)
    ensures var ids := states[k].table.tasks[r].p.requestedIds;
      && states[k + 1].table == Advanced(states[k].table, r, ids !! states[k].enclave.storage.Keys)
      && (ids !! states[k].enclave.storage.Keys ==> HeldLive(states[k + 1].enclave.storage, ids, later) == ids)
  {
    var n, own := states[k], events[k].own.value;
    var p := n.table.tasks[r].p;
    RunKeepsInv(env, states, events, k);
    assert Waiting(p);
    forall id | id in p.requestedIds ensures Authorized(n.enclave.auths, own, id, p.consumersById[id], n.now) {
      AuthorizedExactly(env, states, events, k, own, id, p.consumersById[id]);
    }
    TimeoutGenerates(env, n, r, events[k].order, own, events[k].entropy, later);
    assert events[k] == RunTimeout(r, events[k].order, true, Some(own), events[k].entropy, Answered);
  }

  lemma AfterGeneration(t: Table, r: nat, ok: bool)
    requires TableInv(t) && r in t.tasks && t.tasks[r].TimeoutTask?
    ensures 1 <= r <= t.counter == Advanced(t, r, ok).counter
    ensures ok ==> r in Advanced(t, r, ok).tasks && Advanced(t, r, ok).tasks[r] == CheckTask(t.tasks[r].p.requestedIds)
    ensures !ok ==> r in Advanced(t, r, ok).answers && Advanced(t, r, ok).answers[r] == [AnswerErr]
  {
    assert r !in t.answers;
  }

  /** A request at its final check stays there until it is answered. */
  lemma CheckTaskStays(env: Env, states: seq<Node>, events: seq<Event>, i: nat, j: nat, r: nat, ids: set<SecretId>)
    requires IsRun(env, states, events) && i <= j <= |events| && 1 <= r <= states[i].table.counter
    requires r in states[i].table.tasks && states[i].table.tasks[r] == CheckTask(ids)
    ensures r in states[j].table.tasks ==> states[j].table.tasks[r] == CheckTask(ids)
  {
    RunKeepsInv(env, states, events, i);
    RunKeepsInv(env, states, events, j);
    var consumers := map id | id in ids :: ConsumerInfo([], []);
    assert consumers.Keys == ids;
    RunKeepsIds(env, states, events, i, j, r, consumers);
    RequestsMoveOn(env, states, events, i, j, r);
    assert Stage(states[i].table, r) == 1;
  }

  lemma FinalCheckAnswers(env: Env, n: Node, r: nat, ids: set<SecretId>)
    requires r in n.table.tasks && n.table.tasks[r] == CheckTask(ids)
    ensures Next(env, n, RunCheck(r, true)).table ==
            Replied(n.table, r, if HeldLive(n.enclave.storage, ids, n.now) == ids then AnswerOk else AnswerErr)
  {
  }

  /** In every run, with any steps between generation and check: if the store had an entry for any id of
      the timed-out request, its answer is an error.  Otherwise it goes on to its final check, and that
      answers Ok if and only if no put has meanwhile replaced a generated entry by one that has expired.
      So an expired entry makes an id missing for the caller and yet blocks it. */
  lemma TimeoutAnswerExact(env: Env, states: seq<Node>, events: seq<Event>, k: nat, j: nat, r: nat)
    requires IsRun(env, states, events) && GeneratesAt(states, events, k, r) && k < j <= |events|
    ensures var ids := states[k].table.tasks[r].p.requestedIds;
      if ids !! states[k].enclave.storage.Keys then ConfirmsExactly(env, states, k + 1, j, r, ids)
      else r in states[j].table.answers && states[j].table.answers[r] == [AnswerErr]
  {
    var ids := states[k].table.tasks[r].p.requestedIds;
    var ok := ids !! states[k].enclave.storage.Keys;
    RunKeepsInv(env, states, events, k);
    GenerationInRun(env, states, events, k, r, states[j].now);
    AfterGeneration(states[k].table, r, ok);
    if ok {
      GeneratedIsConfirmed(env, states, events, k + 1, j, r, ids);
    } else {
      RequestsMoveOn(env, states, events, k + 1, j, r);
    }
  }

  /** While the request awaits its final check at step `j`, that check answers Ok if and only if no entry
      generated by step `i` was spoiled. */
  ghost predicate ConfirmsExactly(env: Env, states: seq<Node>, i: nat, j: nat, r: nat, ids: set<SecretId>) {
    j < |states| && r in states[j].table.tasks ==>
      && states[j].table.tasks[r] == CheckTask(ids)
      && var spoiled := exists id :: id in ids && Spoiled(states, i, j, id);
         Next(env, states[j], RunCheck(r, true)).table ==
           Replied(states[j].table, r, if spoiled then AnswerErr else AnswerOk)
  }

  lemma GeneratedIsConfirmed(env: Env, states: seq<Node>, events: seq<Event>, i: nat, j: nat, r: nat,
                             ids: set<SecretId>)
    requires IsRun(env, states, events) && i <= j <= |events| && 1 <= r <= states[i].table.counter
    requires r in states[i].table.tasks && states[i].table.tasks[r] == CheckTask(ids)
    requires HeldLive(states[i].enclave.storage, ids, states[j].now) == ids
    ensures ConfirmsExactly(env, states, i, j, r, ids)
  {
    CheckTaskStays(env, states, events, i, j, r, ids);
    HeldUnlessSpoiled(env, states, events, i, j, ids);
    if r in states[j].table.tasks {
      FinalCheckAnswers(env, states[j], r, ids);
    }
  }
}
