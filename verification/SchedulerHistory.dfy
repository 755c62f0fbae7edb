/** What holds of the scheduler over whole firing histories. */
module SchedulerHistory {
  import opened Bytes
  import opened Schedulers

  datatype Action =
    | Add(now: nat, workOrder: WorkOrderId, handler: string, rate: RateMode)
    | Remove(now: nat, workOrder: WorkOrderId)
    | Fire(now: nat, order: seq<nat>)

  ghost predicate Step(minInterval: nat, s: State, a: Action, s': State) {
    match a
    case Add(now, wo, handler, rate) =>
      s' == if ValidateSchedule(rate, minInterval, now).Some? then s else Added(s, now, wo, handler, rate)
    case Remove(_, wo) => s' == Removed(s, wo)
    case Fire(now, order) => FireStep(s, now, order, s')
  }

  /** A run: a first state, then one state per action, with a clock that never goes back. */
  ghost predicate IsRun(minInterval: nat, states: seq<State>, actions: seq<Action>) {
    && |states| == |actions| + 1 && states[0] == INITIAL
    && (forall i :: 0 <= i < |actions| ==> Step(minInterval, states[i], actions[i], states[i + 1]))
    && (forall i, j :: 0 <= i < j < |actions| ==> actions[i].now <= actions[j].now)
  }

  /** When event `t` fired. */
  function Times(log: seq<Firing>, t: nat): seq<nat> {
    if log == [] then []
    else
      var f, before := log[|log| - 1], Times(log[..|log| - 1], t);
      if f.tag == t then before + [f.at] else before
  }

  /** When an accepted event is first due: its phase after its start, or, with no start ahead, a period
      after it was accepted. */
  function FirstDue(a: Acceptance): nat {
    if a.rate.startAt.Some? && a.at < a.rate.startAt.value then a.rate.startAt.value + a.rate.phaseMs
    else a.at + a.rate.periodMs
  }

  predicate Spaced(times: seq<nat>, period: nat) {
    forall i :: 0 < i < |times| ==> times[i - 1] + period <= times[i]
  }

  /** Only the last firing may be at or past the end time. */
  predicate StopsAtEnd(times: seq<nat>, endAt: Option<nat>) {
    endAt.Some? ==> forall i :: 0 <= i < |times| - 1 ==> times[i] < endAt.value
  }

  /** The promises of a schedule about the firings of one event. */
  ghost predicate HistoryOk(a: Acceptance, times: seq<nat>) {
    && Spaced(times, a.rate.periodMs)
    && (times != [] ==> FirstDue(a) <= times[0])
    && (a.rate.maxOccurrences.Some? ==> |times| <= a.rate.maxOccurrences.value)
    && StopsAtEnd(times, a.rate.endAt)
  }

  /** What the heap entry of an event knows about its history. */
  ghost predicate EntryOk(a: Acceptance, times: seq<nat>, e: ScheduledEvent) {
    && e.rate == a.rate && e.workOrder == a.workOrder && e.handler == a.handler
    && e.occurrences == |times|
    && (a.rate.maxOccurrences.Some? ==> |times| < a.rate.maxOccurrences.value)
    && FirstDue(a) <= e.nextFire
    && (times != [] ==> e.nextFire == times[|times| - 1] + a.rate.periodMs)
    && (times != [] && a.rate.endAt.Some? ==> times[|times| - 1] < a.rate.endAt.value)
  }

  ghost predicate TagOk(s: State, now: nat, t: nat) {
    if t in s.accepted then
      && t < s.nextTag && s.accepted[t].at <= now
      && HistoryOk(s.accepted[t], Times(s.log, t))
      && (t in s.queue ==> s.queue[t].workOrder in s.tracked && EntryOk(s.accepted[t], Times(s.log, t), s.queue[t]))
    else
      t !in s.queue && Times(s.log, t) == []
  }

  ghost predicate Inv(s: State, now: nat) {
    forall t: nat :: TagOk(s, now, t)
  }

  // ---------- Firing steps ----------

  predicate Contains(fs: seq<Firing>, t: nat) {
    exists i :: 0 <= i < |fs| && fs[i].tag == t
  }

  lemma TimesSnoc(log: seq<Firing>, f: Firing, t: nat)
    ensures Times(log + [f], t) == if f.tag == t then Times(log, t) + [f.at] else Times(log, t)
  {
    assert (log + [f])[..|log|] == log;
  }

  lemma {:induction false} TimesAppend(log: seq<Firing>, fs: seq<Firing>, t: nat, now: nat)
    requires forall i :: 0 <= i < |fs| ==> fs[i].at == now
    requires forall i, j :: 0 <= i < j < |fs| ==> fs[i].tag != fs[j].tag
    ensures Times(log + fs, t) == if Contains(fs, t) then Times(log, t) + [now] else Times(log, t)
    decreases |fs|
  {
    if fs == [] {
      assert log + fs == log;
    } else {
      var n := |fs| - 1;
      var init, f := fs[..n], fs[n];
      TimesAppend(log, init, t, now);
      TimesSnoc(log + init, f, t);
      assert (log + init) + [f] == log + fs;
      if f.tag == t {
        assert !Contains(init, t);
      } else if Contains(fs, t) {
        var i :| 0 <= i < |fs| && fs[i].tag == t;
        assert init[i].tag == t;
      }
    }
  }

  lemma TimesAfterFirings(s: State, now: nat, order: seq<nat>, t: nat)
    requires FiringOrder(s, now, order)
    ensures Times(s.log + Firings(s, now, order), t) == if t in order then Times(s.log, t) + [now] else Times(s.log, t)
  {
    var fs := Firings(s, now, order);
    TimesAppend(s.log, fs, t, now);
    if t in order {
      var i :| 0 <= i < |order| && order[i] == t;
      assert fs[i].tag == t;
    }
  }

  /** One more firing at `now` of an event that was due. */
  lemma FiringKeepsHistory(a: Acceptance, times: seq<nat>, e: ScheduledEvent, now: nat)
    requires HistoryOk(a, times) && EntryOk(a, times, e)
    requires e.nextFire <= now && a.at <= now
    ensures HistoryOk(a, times + [now])
    ensures ShouldReschedule(Fired(e), now) ==> EntryOk(a, times + [now], Rescheduled(e, now))
  {
    var more := times + [now];
    assert a.rate.startAt.Some? ==> a.rate.startAt.value <= now;
    assert forall i :: 0 <= i < |times| ==> more[i] == times[i];
  }

  lemma FireKeepsTag(s: State, before: nat, now: nat, order: seq<nat>, s': State, t: nat)
    requires TagOk(s, before, t) && before <= now && FireStep(s, now, order, s')
    ensures TagOk(s', now, t)
  {
    TimesAfterFirings(s, now, order, t);
    if Due(s, t, now) {
      FiringKeepsHistory(s.accepted[t], Times(s.log, t), s.queue[t], now);
    }
  }

  lemma FireKeepsInv(s: State, before: nat, now: nat, order: seq<nat>, s': State)
    requires Inv(s, before) && before <= now && FireStep(s, now, order, s')
    ensures Inv(s', now)
  {
    forall t: nat ensures TagOk(s', now, t) {
      assert TagOk(s, before, t);
      FireKeepsTag(s, before, now, order, s', t);
    }
  }

  lemma AddKeepsInv(s: State, before: nat, now: nat, wo: WorkOrderId, handler: string, rate: RateMode, minInterval: nat)
    requires Inv(s, before) && before <= now
    requires ValidateSchedule(rate, minInterval, now).None?
    ensures Inv(Added(s, now, wo, handler, rate), now)
  {
    var s' := Added(s, now, wo, handler, rate);
    forall t: nat ensures TagOk(s', now, t) {
      assert TagOk(s, before, t);
    }
  }

  lemma StepKeepsInv(minInterval: nat, s: State, before: nat, a: Action, s': State)
    requires Inv(s, before) && before <= a.now && Step(minInterval, s, a, s')
    ensures Inv(s', a.now)
  {
    match a
    case Add(now, wo, handler, rate) =>
      if ValidateSchedule(rate, minInterval, now).None? {
        AddKeepsInv(s, before, now, wo, handler, rate, minInterval);
      } else {
        forall t: nat ensures TagOk(s', now, t) {
          assert TagOk(s, before, t);
        }
      }
    case Remove(now, wo) =>
      forall t: nat ensures TagOk(s', now, t) {
        assert TagOk(s, before, t);
      }
    case Fire(now, order) =>
      FireKeepsInv(s, before, now, order, s');
  }

  lemma {:induction false} RunKeepsInv(minInterval: nat, states: seq<State>, actions: seq<Action>, k: nat)
    requires IsRun(minInterval, states, actions) && k <= |actions|
    ensures Inv(states[k], if k == 0 then 0 else actions[k - 1].now)
  {
    if k > 0 {
      RunKeepsInv(minInterval, states, actions, k - 1);
      StepKeepsInv(minInterval, states[k - 1], if k == 1 then 0 else actions[k - 2].now, actions[k - 1], states[k]);
    }
  }

  /** Over every run, at every point, every accepted event, queued, finished or removed: it has
      fired at most `maxOccurrences` times, consecutive firings are at least one period apart, it
      never fired before it was first due, and at most one firing, the last, is at or past its
      end time. */
  lemma FiringHistoryBounds(minInterval: nat, states: seq<State>, actions: seq<Action>, k: nat, t: nat)
    requires IsRun(minInterval, states, actions) && k <= |actions|
    requires t in states[k].accepted
    ensures HistoryOk(states[k].accepted[t], Times(states[k].log, t))
  {
    RunKeepsInv(minInterval, states, actions, k);
    assert TagOk(states[k], if k == 0 then 0 else actions[k - 1].now, t);
  }

  // ---------- Completeness of one call ----------

  /** In a run, one call fires every due event exactly once and nothing else, keeps every other event
      as it was, and, when periods are positive, leaves only events strictly in the future.  A due
      event leaves the heap only on reaching its limit or its end time: the guard for removed work
      orders never drops one. */
  lemma FireIsComplete(s: State, before: nat, now: nat, order: seq<nat>, s': State)
    requires Inv(s, before) && before <= now && FireStep(s, now, order, s')
    ensures forall t :: t in order <==> Due(s, t, now)
    ensures forall t :: t in s.queue && !Due(s, t, now) ==> t in s'.queue && s'.queue[t] == s.queue[t]
    ensures forall t :: t in s'.queue ==> t in s.queue
    ensures (forall t :: t in s.queue ==> s.queue[t].rate.periodMs > 0) ==>
              forall t :: t in s'.queue ==> s'.queue[t].nextFire > now
    ensures forall t :: Due(s, t, now) && t !in s'.queue ==>
              var rate, n := s.queue[t].rate, |Times(s'.log, t)|;
              || (rate.maxOccurrences.Some? && n == rate.maxOccurrences.value)
              || (rate.endAt.Some? && rate.endAt.value <= now)
  {
    assert forall t :: t in s.queue ==> TagOk(s, before, t);
    forall t | Due(s, t, now) ensures |Times(s'.log, t)| == s.queue[t].occurrences + 1 {
      TimesAfterFirings(s, now, order, t);
    }
    forall t | Due(s, t, now) && t in s'.queue ensures s'.queue[t].nextFire == now + s.queue[t].rate.periodMs {
      FiringKeepsHistory(s.accepted[t], Times(s.log, t), s.queue[t], now);
    }
  }

  /** A positive minimum interval makes every queued period positive. */
  lemma {:induction false} PeriodsAtLeastMinimum(minInterval: nat, states: seq<State>, actions: seq<Action>, k: nat)
    requires IsRun(minInterval, states, actions) && k <= |actions|
    ensures forall t :: t in states[k].queue ==> states[k].queue[t].rate.periodMs >= minInterval
  {
    if k > 0 {
      PeriodsAtLeastMinimum(minInterval, states, actions, k - 1);
      assert Step(minInterval, states[k - 1], actions[k - 1], states[k]);
    }
  }

  /** With a positive minimum interval, every `fire_ready_events` call of every run is complete. */
  lemma CallsInARunAreComplete(minInterval: nat, states: seq<State>, actions: seq<Action>, i: nat)
    requires IsRun(minInterval, states, actions) && minInterval > 0
    requires i < |actions| && actions[i].Fire?
    ensures var s, s', now, order := states[i], states[i + 1], actions[i].now, actions[i].order;
      && (forall t :: t in order <==> Due(s, t, now))
      && EarliestFirst(s.queue, order) && s'.log == s.log + Firings(s, now, order)
      && (forall t :: t in s.queue && !Due(s, t, now) ==> t in s'.queue && s'.queue[t] == s.queue[t])
      && (forall t :: t in s'.queue ==> t in s.queue && s'.queue[t].nextFire > now)
  {
    RunKeepsInv(minInterval, states, actions, i);
    PeriodsAtLeastMinimum(minInterval, states, actions, i);
    FireIsComplete(states[i], if i == 0 then 0 else actions[i - 1].now, actions[i].now, actions[i].order,
                   states[i + 1]);
  }

  // ---------- Removal ----------

  ghost predicate NoneQueued(s: State, wo: WorkOrderId) {
    forall t :: t in s.queue ==> s.queue[t].workOrder != wo
  }

  /** An addition that passes validation. */
  predicate Accepts(minInterval: nat, a: Action) {
    a.Add? && ValidateSchedule(a.rate, minInterval, a.now).None?
  }

  /** After a work order is removed, and until an addition for it is accepted again, none of its events fires. */
  lemma {:induction false} RemovedNeverFires(
    minInterval: nat, states: seq<State>, actions: seq<Action>, r: nat, k: nat, wo: WorkOrderId)
    requires IsRun(minInterval, states, actions) && r < k <= |actions|
    requires actions[r].Remove? && actions[r].workOrder == wo
    requires forall i :: r < i < k ==> !(Accepts(minInterval, actions[i]) && actions[i].workOrder == wo)
    ensures NoneQueued(states[k], wo) && wo !in states[k].tracked
    ensures |states[r].log| <= |states[k].log|
    ensures forall i :: |states[r].log| <= i < |states[k].log| ==> states[k].log[i].workOrder != wo
  {
    assert Step(minInterval, states[k - 1], actions[k - 1], states[k]);
    if k > r + 1 {
      RemovedNeverFires(minInterval, states, actions, r, k - 1, wo);
    }
  }

  // ---------- Exactly when an event fires ----------

  /** What a schedule makes of the times at which `fire_ready_events` was called: when the event has
      fired, and when it is due next, if ever again. */
  datatype Plan = Plan(fired: seq<nat>, due: Option<nat>)

  /** These firings are all: the limit is reached, or the last is at or past the end time. */
  predicate Exhausted(rate: RateMode, fired: seq<nat>)
    requires fired != []
  {
    || (rate.maxOccurrences.Some? && |fired| >= rate.maxOccurrences.value)
    || (rate.endAt.Some? && fired[|fired| - 1] >= rate.endAt.value)
  }

  function Planned(a: Acceptance, calls: seq<nat>): Plan {
    if calls == [] then Plan([], Some(FirstDue(a)))
    else
      var n := |calls| - 1;
      AfterCall(a, Planned(a, calls[..n]), calls[n])
  }

  function AfterCall(a: Acceptance, plan: Plan, call: nat): Plan {
    if plan.due.None? || call < plan.due.value then plan
    else
      var fired := plan.fired + [call];
      Plan(fired, if Exhausted(a.rate, fired) then None else Some(call + a.rate.periodMs))
  }

  ghost predicate RemovedBetween(actions: seq<Action>, i: nat, k: nat, wo: WorkOrderId) {
    exists x :: i < x < k <= |actions| && actions[x].Remove? && actions[x].workOrder == wo
  }

  /** The calls after step `i` and before step `k`, as long as the work order is not removed. */
  ghost function CallTimes(actions: seq<Action>, i: nat, k: nat, wo: WorkOrderId): seq<nat>
    requires i < k <= |actions|
    decreases k
  {
    if k == i + 1 then []
    else
      var before, last := CallTimes(actions, i, k - 1, wo), actions[k - 1];
      if last.Fire? && !RemovedBetween(actions, i, k - 1, wo) then before + [last.now] else before
  }

  /** The heap entry of event `t` and its firings are as planned; a removed event is gone. */
  ghost predicate AsPlanned(s: State, t: nat, a: Acceptance, plan: Plan, removed: bool) {
    && t in s.accepted && s.accepted[t] == a && Times(s.log, t) == plan.fired
    && (t in s.queue <==> !removed && plan.due.Some?)
    && (t in s.queue ==> s.queue[t].nextFire == plan.due.value)
  }

  lemma {:induction false} PlannedOneMore(a: Acceptance, calls: seq<nat>, call: nat)
    ensures Planned(a, calls + [call]) == AfterCall(a, Planned(a, calls), call)
  {
    assert (calls + [call])[..|calls|] == calls;
  }

  /** A firing of a due event, in the schedule's own terms. */
  lemma DueFiresAsPlanned(s: State, before: nat, now: nat, t: nat)
    requires TagOk(s, before, t) && before <= now && Due(s, t, now) && t in s.accepted
    ensures var a, fired := s.accepted[t], Times(s.log, t) + [now];
      && s.queue[t].workOrder in s.tracked
      && (t in QueueAfterFiring(s, now) <==> !Exhausted(a.rate, fired))
      && (t in QueueAfterFiring(s, now) ==> QueueAfterFiring(s, now)[t].nextFire == now + a.rate.periodMs)
  {
    var a := s.accepted[t];
    FiringKeepsHistory(a, Times(s.log, t), s.queue[t], now);
  }

  lemma FireAsPlanned(s: State, before: nat, now: nat, order: seq<nat>, s': State, t: nat, a: Acceptance,
                      calls: seq<nat>, removed: bool)
    requires Inv(s, before) && before <= now && FireStep(s, now, order, s')
    requires AsPlanned(s, t, a, Planned(a, calls), removed)
    ensures AsPlanned(s', t, a, Planned(a, if removed then calls else calls + [now]), removed)
  {
    assert TagOk(s, before, t);
    TimesAfterFirings(s, now, order, t);
    PlannedOneMore(a, calls, now);
    if Due(s, t, now) {
      DueFiresAsPlanned(s, before, now, t);
    }
  }

  lemma OtherStepsAsPlanned(minInterval: nat, s: State, before: nat, action: Action, s': State, t: nat, a: Acceptance,
                            plan: Plan, removed: bool)
    requires Inv(s, before) && Step(minInterval, s, action, s') && !action.Fire?
    requires AsPlanned(s, t, a, plan, removed)
    ensures AsPlanned(s', t, a, plan, removed || (action.Remove? && action.workOrder == a.workOrder))
  {
    assert TagOk(s, before, t) && TagOk(s, before, s.nextTag);
  }

  /** What was accepted by step `i`. */
  function AcceptedAt(actions: seq<Action>, i: nat): Acceptance
    requires i < |actions| && actions[i].Add?
  {
    Acceptance(actions[i].workOrder, actions[i].handler, actions[i].rate, actions[i].now)
  }

  ghost predicate KeepsPlan(states: seq<State>, actions: seq<Action>, i: nat, k: nat) {
    && i < k <= |actions| < |states| && actions[i].Add?
    && var a := AcceptedAt(actions, i);
       AsPlanned(states[k], states[i].nextTag, a, Planned(a, CallTimes(actions, i, k, a.workOrder)),
                 RemovedBetween(actions, i, k, a.workOrder))
  }

  lemma StepInRun(minInterval: nat, states: seq<State>, actions: seq<Action>, k: nat) returns (before: nat)
    requires IsRun(minInterval, states, actions) && k < |actions|
    ensures Inv(states[k], before) && before <= actions[k].now
    ensures Step(minInterval, states[k], actions[k], states[k + 1])
  {
    before := if k == 0 then 0 else actions[k - 1].now;
    RunKeepsInv(minInterval, states, actions, k);
  }

  lemma PlanBegins(minInterval: nat, states: seq<State>, actions: seq<Action>, i: nat, before: nat)
    requires i < |actions| < |states| && Accepts(minInterval, actions[i])
    requires Inv(states[i], before) && Step(minInterval, states[i], actions[i], states[i + 1])
    ensures KeepsPlan(states, actions, i, i + 1)
  {
    assert TagOk(states[i], before, states[i].nextTag);
  }

  lemma PlanGoesOn(minInterval: nat, states: seq<State>, actions: seq<Action>, i: nat, k: nat, before: nat)
    requires KeepsPlan(states, actions, i, k) && k < |actions| && Inv(states[k], before) && before <= actions[k].now
    requires Step(minInterval, states[k], actions[k], states[k + 1])
    ensures KeepsPlan(states, actions, i, k + 1)
  {
    var a, t := AcceptedAt(actions, i), states[i].nextTag;
    var calls, removed := CallTimes(actions, i, k, a.workOrder), RemovedBetween(actions, i, k, a.workOrder);
    if actions[k].Fire? {
      FireAsPlanned(states[k], before, actions[k].now, actions[k].order, states[k + 1], t, a, calls, removed);
    } else {
      OtherStepsAsPlanned(minInterval, states[k], before, actions[k], states[k + 1], t, a, Planned(a, calls), removed);
    }
    RemovedOneMore(actions, i, k + 1, a.workOrder);
  }

  /** Step `x` of the run, from a state that keeps the invariant. */
  ghost predicate GoodStep(minInterval: nat, states: seq<State>, actions: seq<Action>, x: nat) {
    && x < |actions| < |states|
    && exists before: nat :: Inv(states[x], before) && before <= actions[x].now
         && Step(minInterval, states[x], actions[x], states[x + 1])
  }

  lemma {:induction false} PlanKept(minInterval: nat, states: seq<State>, actions: seq<Action>, i: nat, k: nat)
    requires i < k <= |actions| && Accepts(minInterval, actions[i])
    requires forall x :: i <= x < k ==> GoodStep(minInterval, states, actions, x)
    ensures KeepsPlan(states, actions, i, k)
    decreases k
  {
    assert GoodStep(minInterval, states, actions, k - 1);
    var before: nat :| Inv(states[k - 1], before) && before <= actions[k - 1].now;
    if k == i + 1 {
      PlanBegins(minInterval, states, actions, i, before);
    } else {
      PlanKept(minInterval, states, actions, i, k - 1);
      PlanGoesOn(minInterval, states, actions, i, k - 1, before);
    }
  }

  /** In every run, for every accepted event and at every later point: it has fired at exactly the times
      that its schedule makes of the calls since, up to the removal of its work order, and it is queued
      exactly if it was not removed and is due again. */
  lemma FiringHistoryExact(minInterval: nat, states: seq<State>, actions: seq<Action>, i: nat, k: nat)
    requires IsRun(minInterval, states, actions) && i < k <= |actions|
    requires Accepts(minInterval, actions[i])
    ensures KeepsPlan(states, actions, i, k)
  {
    forall x | i <= x < k ensures GoodStep(minInterval, states, actions, x) {
      var before := StepInRun(minInterval, states, actions, x);
    }
    PlanKept(minInterval, states, actions, i, k);
  }

  lemma RemovedOneMore(actions: seq<Action>, i: nat, k: nat, wo: WorkOrderId)
    requires i + 1 < k <= |actions|
    ensures RemovedBetween(actions, i, k, wo) <==>
            || RemovedBetween(actions, i, k - 1, wo)
            || (actions[k - 1].Remove? && actions[k - 1].workOrder == wo)
  {
  }

  predicate AllBefore(calls: seq<nat>, due: nat) {
    forall j :: 0 <= j < |calls| ==> calls[j] < due
  }

  lemma {:induction false} NothingPlannedBeforeDue(a: Acceptance, calls: seq<nat>)
    requires AllBefore(calls, FirstDue(a))
    ensures Planned(a, calls) == Plan([], Some(FirstDue(a)))
  {
    if calls != [] {
      NothingPlannedBeforeDue(a, calls[..|calls| - 1]);
    }
  }

  lemma {:induction false} CallTimesBefore(actions: seq<Action>, i: nat, k: nat, wo: WorkOrderId, due: nat)
    requires i < k <= |actions|
    requires forall x :: i < x < k && actions[x].Fire? ==> actions[x].now < due
    ensures AllBefore(CallTimes(actions, i, k, wo), due)
    decreases k
  {
    if k > i + 1 {
      CallTimesBefore(actions, i, k - 1, wo, due);
    }
  }

  lemma FirstFiringPlanned(states: seq<State>, actions: seq<Action>, i: nat, k: nat)
    requires KeepsPlan(states, actions, i, k) && k < |actions| && KeepsPlan(states, actions, i, k + 1)
    requires actions[k].Fire? && !RemovedBetween(actions, i, k, actions[i].workOrder)
    requires forall x :: i < x < k && actions[x].Fire? ==> actions[x].now < FirstDue(AcceptedAt(actions, i))
    ensures Times(states[k].log, states[i].nextTag) == []
    ensures Times(states[k + 1].log, states[i].nextTag) ==
            if actions[k].now < FirstDue(AcceptedAt(actions, i)) then [] else [actions[k].now]
  {
    var a := AcceptedAt(actions, i);
    var calls := CallTimes(actions, i, k, a.workOrder);
    CallTimesBefore(actions, i, k, a.workOrder, FirstDue(a));
    NothingPlannedBeforeDue(a, calls);
    assert (calls + [actions[k].now])[..|calls|] == calls;
  }

  /** In particular, an event whose work order is not removed fires in the first call at or after
      `startAt + phaseMs`, if it was accepted before its start, or else `periodMs` after it was accepted,
      and in no earlier call. */
  lemma FirstFiringExact(minInterval: nat, states: seq<State>, actions: seq<Action>, i: nat, k: nat, due: nat)
    requires IsRun(minInterval, states, actions) && i < k < |actions| && actions[k].Fire?
    requires Accepts(minInterval, actions[i])
    requires !RemovedBetween(actions, i, k, actions[i].workOrder)
    requires var rate, at := actions[i].rate, actions[i].now;
      due == if rate.startAt.Some? && at < rate.startAt.value then rate.startAt.value + rate.phaseMs
             else at + rate.periodMs
    requires forall x :: i < x < k && actions[x].Fire? ==> actions[x].now < due
    ensures Times(states[k].log, states[i].nextTag) == []
    ensures Times(states[k + 1].log, states[i].nextTag) == if actions[k].now < due then [] else [actions[k].now]
  {
    FiringHistoryExact(minInterval, states, actions, i, k);
    FiringHistoryExact(minInterval, states, actions, i, k + 1);
    FirstFiringPlanned(states, actions, i, k);
  }

  ghost predicate NamesItsEvent(s: State, f: Firing) {
    f.tag in s.accepted && f.workOrder == s.accepted[f.tag].workOrder && f.handler == s.accepted[f.tag].handler
  }

  lemma NewFiringsNameTheirEvent(s: State, before: nat, now: nat, order: seq<nat>)
    requires Inv(s, before) && FiringOrder(s, now, order)
    ensures forall f :: f in Firings(s, now, order) ==> NamesItsEvent(s, f)
  {
    var fs := Firings(s, now, order);
    forall j | 0 <= j < |fs| ensures NamesItsEvent(s, fs[j]) {
      assert TagOk(s, before, order[j]);
    }
  }

  /** What goes out for an event is the work order and the handler it was accepted for. */
  lemma {:induction false} FiringsNameTheirEvent(minInterval: nat, states: seq<State>, actions: seq<Action>, k: nat)
    requires IsRun(minInterval, states, actions) && k <= |actions|
    ensures forall f :: f in states[k].log ==> NamesItsEvent(states[k], f)
  {
    if k > 0 {
      FiringsNameTheirEvent(minInterval, states, actions, k - 1);
      var before := StepInRun(minInterval, states, actions, k - 1);
      assert TagOk(states[k - 1], before, states[k - 1].nextTag);
      if actions[k - 1].Fire? {
        NewFiringsNameTheirEvent(states[k - 1], before, actions[k - 1].now, actions[k - 1].order);
      }
    }
  }

  /** An addition is accepted if and only if the period respects the minimum, the start is not in the
      past, the end is after the start, and at least one occurrence is allowed; otherwise nothing changes. */
  lemma AcceptedExactly(minInterval: nat, states: seq<State>, actions: seq<Action>, k: nat)
    requires IsRun(minInterval, states, actions) && k < |actions| && actions[k].Add?
    ensures var s, s', rate, now := states[k], states[k + 1], actions[k].rate, actions[k].now;
      var fine := && minInterval <= rate.periodMs
                  && (rate.startAt.Some? ==> now <= rate.startAt.value)
                  && (rate.startAt.Some? && rate.endAt.Some? ==> rate.startAt.value < rate.endAt.value)
                  && (rate.maxOccurrences.Some? ==> 0 < rate.maxOccurrences.value);
      && (s.nextTag in s'.accepted <==> fine)
      && (fine ==> Accepts(minInterval, actions[k]))
      && (!fine ==> s' == s)
  {
    var before := StepInRun(minInterval, states, actions, k);
    assert TagOk(states[k], before, states[k].nextTag);
  }

  // ---------- The start boundary ----------

  /** The earliest firing is attained: accept at `at`, fire at `FirstDue`. */
  lemma EarliestFiringAttained(minInterval: nat, wo: WorkOrderId, handler: string, rate: RateMode, at: nat)
    requires ValidateSchedule(rate, minInterval, at).None?
    ensures var due := FirstDue(Acceptance(wo, handler, rate, at));
      var s1 := Added(INITIAL, at, wo, handler, rate);
      var s2 := s1.(queue := QueueAfterFiring(s1, due), log := [Firing(0, wo, handler, due)]);
      IsRun(minInterval, [INITIAL, s1, s2], [Add(at, wo, handler, rate), Fire(due, [0])])
  {
    var due := FirstDue(Acceptance(wo, handler, rate, at));
    var s1 := Added(INITIAL, at, wo, handler, rate);
    assert FiringOrder(s1, due, [0]);
    assert [] + Firings(s1, due, [0]) == [Firing(0, wo, handler, due)];
  }

  /** In this run, event `t` was accepted as `a` and has fired. */
  ghost predicate HasFired(minInterval: nat, states: seq<State>, actions: seq<Action>, t: nat, a: Acceptance) {
    && IsRun(minInterval, states, actions)
    && var end := states[|actions|];
       t in end.accepted && end.accepted[t] == a && Times(end.log, t) != []
  }

  /** "Never before `startAt` plus the phase" is not unconditional: the phase is ignored when the
      schedule is accepted exactly at its start time.  The promise holds, for every run, if and
      only if the schedule is accepted before its start or its phase is no longer than its
      period. */
  lemma StartPhaseExact(minInterval: nat, wo: WorkOrderId, handler: string, rate: RateMode, at: nat)
    requires ValidateSchedule(rate, minInterval, at).None? && rate.startAt.Some?
    ensures (at < rate.startAt.value || rate.phaseMs <= rate.periodMs) <==>
            forall states: seq<State>, actions: seq<Action>, t: nat ::
              HasFired(minInterval, states, actions, t, Acceptance(wo, handler, rate, at)) ==>
              rate.startAt.value + rate.phaseMs <= Times(states[|actions|].log, t)[0]
  {
    var bound, a := rate.startAt.value + rate.phaseMs, Acceptance(wo, handler, rate, at);
    if at < rate.startAt.value || rate.phaseMs <= rate.periodMs {
      forall states: seq<State>, actions: seq<Action>, t: nat | HasFired(minInterval, states, actions, t, a)
        ensures bound <= Times(states[|actions|].log, t)[0]
      {
        FiringHistoryBounds(minInterval, states, actions, |actions|, t);
      }
    } else {
      EarliestFiringAttained(minInterval, wo, handler, rate, at);
      var due := FirstDue(a);
      var s1 := Added(INITIAL, at, wo, handler, rate);
      var s2 := s1.(queue := QueueAfterFiring(s1, due), log := [Firing(0, wo, handler, due)]);
      assert s2.log[..0] == [];
      assert Times(s2.log, 0) == [due] && due < bound;
      assert HasFired(minInterval, [INITIAL, s1, s2], [Add(at, wo, handler, rate), Fire(due, [0])], 0, a);
    }
  }
}
