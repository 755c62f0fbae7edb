/** The scheduler of recurring events (node/daemon/src/services/scheduler.rs).  Time is one
    clock in milliseconds that both `Instant::now()` and `Utc::now()` read, once per step. */
module Schedulers {
  import opened Bytes

  type WorkOrderId = string

  datatype RateMode = RateMode(
    periodMs: nat, phaseMs: nat, startAt: Option<nat>, endAt: Option<nat>, maxOccurrences: Option<nat>)

  datatype ScheduledEvent = ScheduledEvent(
    workOrder: WorkOrderId, handler: string, nextFire: nat, rate: RateMode, occurrences: nat)

  datatype SchedulerError = IntervalTooFast | StartTimeInPast | EndTimeBeforeStart | ZeroMaxOccurrences

  /** What goes out on the event channel, with the tag of the event and the time for observation. */
  datatype Firing = Firing(tag: nat, workOrder: WorkOrderId, handler: string, at: nat)

  /** What was accepted under a tag, and when. */
  datatype Acceptance = Acceptance(workOrder: WorkOrderId, handler: string, rate: RateMode, at: nat)

  // ---------- The pure rules ----------

  function ValidateSchedule(rate: RateMode, minInterval: nat, now: nat): Option<SchedulerError> {
    if rate.periodMs < minInterval then Some(IntervalTooFast)
    else if rate.startAt.Some? && rate.startAt.value < now then Some(StartTimeInPast)
    else if rate.startAt.Some? && rate.endAt.Some? && rate.endAt.value <= rate.startAt.value
      then Some(EndTimeBeforeStart)
    else if rate.maxOccurrences == Some(0) then Some(ZeroMaxOccurrences)
    else None
  }

  function NextFire(rate: RateMode, now: nat): nat {
    if rate.startAt.Some? && now < rate.startAt.value
    then now + (rate.startAt.value - now) + rate.phaseMs
    else now + rate.periodMs
  }

  predicate ShouldReschedule(e: ScheduledEvent, now: nat) {
    && (e.rate.maxOccurrences.Some? ==> e.occurrences < e.rate.maxOccurrences.value)
    && (e.rate.endAt.Some? ==> now < e.rate.endAt.value)
  }

  /** The event after one firing. */
  function Fired(e: ScheduledEvent): ScheduledEvent {
    e.(occurrences := e.occurrences + 1)
  }

  function Rescheduled(e: ScheduledEvent, now: nat): ScheduledEvent {
    Fired(e).(nextFire := NextFire(e.rate, now))
  }

  // ---------- States and steps ----------

  /** The heap as a tag-indexed collection (the tag is the order of acceptance), the keys of the
      work-order map, and two observations: what was accepted and what was sent. */
  datatype State = State(
    queue: map<nat, ScheduledEvent>,
    tracked: set<WorkOrderId>,
    nextTag: nat,
    accepted: map<nat, Acceptance>,
    log: seq<Firing>)

  const INITIAL := State(map[], {}, 0, map[], [])

  function Added(s: State, now: nat, wo: WorkOrderId, handler: string, rate: RateMode): State {
    State(
      s.queue[s.nextTag := ScheduledEvent(wo, handler, NextFire(rate, now), rate, 0)],
      s.tracked + {wo}, s.nextTag + 1,
      s.accepted[s.nextTag := Acceptance(wo, handler, rate, now)], s.log)
  }

  function Removed(s: State, wo: WorkOrderId): State {
    s.(queue := map t | t in s.queue && s.queue[t].workOrder != wo :: s.queue[t],
       tracked := s.tracked - {wo})
  }

  predicate Due(s: State, t: nat, now: nat) {
    t in s.queue && s.queue[t].nextFire <= now
  }

  /** The heap after firing: future events stay, due ones stay only if rescheduled. */
  function QueueAfterFiring(s: State, now: nat): map<nat, ScheduledEvent> {
    map t | t in s.queue
      && (Due(s, t, now) ==> s.queue[t].workOrder in s.tracked && ShouldReschedule(Fired(s.queue[t]), now))
      :: if Due(s, t, now) then Rescheduled(s.queue[t], now) else s.queue[t]
  }

  /** Tags of `queue`, once each and earliest first. */
  ghost predicate EarliestFirst(queue: map<nat, ScheduledEvent>, order: seq<nat>) {
    && (forall i :: 0 <= i < |order| ==> order[i] in queue)
    && (forall i, j :: 0 <= i < j < |order| ==>
          order[i] != order[j] && queue[order[i]].nextFire <= queue[order[j]].nextFire)
  }

  /** `order` lists, earliest first and once each, the due events whose work order is tracked. */
  ghost predicate FiringOrder(s: State, now: nat, order: seq<nat>) {
    && EarliestFirst(s.queue, order)
    && (forall t :: t in order <==> Due(s, t, now) && s.queue[t].workOrder in s.tracked)
  }

  function FiringOf(s: State, now: nat, t: nat): Firing
    requires t in s.queue
  {
    Firing(t, s.queue[t].workOrder, s.queue[t].handler, now)
  }

  function Firings(s: State, now: nat, order: seq<nat>): (r: seq<Firing>)
    requires forall t :: t in order ==> t in s.queue
    ensures |r| == |order|
    ensures forall i :: 0 <= i < |r| ==> r[i] == FiringOf(s, now, order[i])
  {
    seq(|order|, i requires 0 <= i < |order| => FiringOf(s, now, order[i]))
  }

  ghost predicate FireStep(s: State, now: nat, order: seq<nat>, s': State) {
    && FiringOrder(s, now, order)
    && s' == s.(queue := QueueAfterFiring(s, now), log := s.log + Firings(s, now, order))
  }

  // ---------- The service ----------

  class SchedulerService {
    const minInterval: nat
    var scheduledEvents: map<nat, ScheduledEvent>
    var workOrderEvents: map<WorkOrderId, seq<nat>>
    var nextTag: nat
    var sent: seq<Firing>
    ghost var accepted: map<nat, Acceptance>

    ghost function View(): State
      reads this
    {
      State(scheduledEvents, workOrderEvents.Keys, nextTag, accepted, sent)
    }

    constructor (minInterval: nat)
      ensures View() == INITIAL && this.minInterval == minInterval
    {
      this.minInterval := minInterval;
      scheduledEvents, workOrderEvents, nextTag, sent, accepted := map[], map[], 0, [], map[];
    }

    method AddScheduledEvent(now: nat, wo: WorkOrderId, handler: string, rate: RateMode)
      returns (error: Option<SchedulerError>)
      modifies this
      ensures error == ValidateSchedule(rate, minInterval, now)
      ensures View() == if error.Some? then old(View()) else Added(old(View()), now, wo, handler, rate)
    {
      error := ValidateSchedule(rate, minInterval, now);
      if error.Some? {
        return;
      }
      var event := ScheduledEvent(wo, handler, NextFire(rate, now), rate, 0);
      scheduledEvents := scheduledEvents[nextTag := event];
      var tags := if wo in workOrderEvents then workOrderEvents[wo] else [];
      workOrderEvents := workOrderEvents[wo := tags + [|scheduledEvents| - 1]];
      accepted := accepted[nextTag := Acceptance(wo, handler, rate, now)];
      nextTag := nextTag + 1;
    }

    /** Pops everything and keeps the events of other work orders. */
    method RemoveWorkOrder(wo: WorkOrderId)
      modifies this
      ensures View() == Removed(old(View()), wo)
    {
      workOrderEvents := workOrderEvents - {wo};
      var heap := scheduledEvents;
      var newHeap: map<nat, ScheduledEvent> := map[];
      while heap != map[]
        invariant View() == old(View()).(tracked := old(View()).tracked - {wo})
        invariant heap.Keys <= scheduledEvents.Keys
        invariant newHeap == OthersPopped(scheduledEvents, heap.Keys, wo)
        decreases |heap|
      {
        var tag := Earliest(heap);
        var event := scheduledEvents[tag];
        OthersPoppedOne(scheduledEvents, heap, wo, tag);
        heap := heap - {tag};
        if event.workOrder != wo {
          newHeap := newHeap[tag := event];
        }
      }
      scheduledEvents := newHeap;
      assert heap.Keys == {};
      RemovedIsOthers(old(View()), wo);
      assert workOrderEvents.Keys == old(workOrderEvents.Keys) - {wo};
    }

    method FireReadyEvents(now: nat) returns (ghost order: seq<nat>)
      modifies this
      ensures FireStep(old(View()), now, order, View())
    {
      ghost var s := View();
      var sweep := Sweep(scheduledEvents, [], map[]);
      ghost var popped: set<nat> := {};
      order := [];
      StartSweep(s, now);
      while sweep.heap != map[]
        invariant View() == s
        invariant Sweeping(s, now, popped, order, sweep)
        decreases |sweep.heap|
      {
        var tag := Earliest(sweep.heap);
        if sweep.heap[tag].nextFire > now {
          break;
        }
        SweepOne(s, now, popped, order, sweep, tag);
        var event := sweep.heap[tag];
        sweep := sweep.Pop(tag, event.workOrder in workOrderEvents, now);
        popped := popped + {tag};
        if event.workOrder in workOrderEvents {
          order := order + [tag];
        }
      }
      EndSweep(s, now, popped, order, sweep);
      scheduledEvents := sweep.heap + sweep.toReschedule;
      sent := sent + sweep.toFire;
    }
  }

  /** The locals of `fire_ready_events`. */
  datatype Sweep = Sweep(heap: map<nat, ScheduledEvent>, toFire: seq<Firing>, toReschedule: map<nat, ScheduledEvent>) {
    /** One round of its loop: pop, and fire and reschedule unless the work order is gone. */
    function Pop(tag: nat, tracked: bool, now: nat): Sweep
      requires tag in heap
    {
      var event, rest := heap[tag], heap - {tag};
      if !tracked then this.(heap := rest)
      else
        var fired := Fired(event);
        Sweep(rest, toFire + [Firing(tag, event.workOrder, event.handler, now)],
              if ShouldReschedule(fired, now) then toReschedule[tag := fired.(nextFire := NextFire(fired.rate, now))]
              else toReschedule)
    }
  }

  ghost predicate Sweeping(s: State, now: nat, popped: set<nat>, order: seq<nat>, sweep: Sweep) {
    && Popping(s, now, popped, order)
    && sweep.heap == s.queue - popped
    && sweep.toFire == Firings(s, now, order)
    && sweep.toReschedule == Recurring(s, now, popped)
  }

  lemma StartSweep(s: State, now: nat)
    ensures Sweeping(s, now, {}, [], Sweep(s.queue, [], map[]))
  {
  }

  lemma SweepOne(s: State, now: nat, popped: set<nat>, order: seq<nat>, sweep: Sweep, tag: nat)
    requires Sweeping(s, now, popped, order, sweep)
    requires tag in sweep.heap && sweep.heap[tag].nextFire <= now
    requires forall t :: t in sweep.heap ==> sweep.heap[tag].nextFire <= sweep.heap[t].nextFire
    ensures var tracked := s.queue[tag].workOrder in s.tracked;
            && sweep.heap[tag] == s.queue[tag]
            && Sweeping(s, now, popped + {tag}, if tracked then order + [tag] else order, sweep.Pop(tag, tracked, now))
    ensures |sweep.heap - {tag}| < |sweep.heap|
  {
    PopShrinks(s.queue, popped, sweep.heap, tag);
    PoppingOne(s, now, popped, order, tag);
    RecurringOne(s, now, popped, tag);
    FiringsSnoc(s, now, order, tag);
  }

  lemma FiringsSnoc(s: State, now: nat, order: seq<nat>, tag: nat)
    requires tag in s.queue && forall t :: t in order ==> t in s.queue
    ensures Firings(s, now, order + [tag]) == Firings(s, now, order) + [FiringOf(s, now, tag)]
  {
  }

  lemma PopShrinks(queue: map<nat, ScheduledEvent>, popped: set<nat>, heap: map<nat, ScheduledEvent>, tag: nat)
    requires heap == queue - popped && tag in heap
    requires forall t :: t in heap ==> heap[tag].nextFire <= heap[t].nextFire
    ensures queue - (popped + {tag}) == heap - {tag}
    ensures |heap - {tag}| < |heap|
    ensures tag in queue && tag !in popped
    ensures forall t :: t in queue && t !in popped ==> queue[tag].nextFire <= queue[t].nextFire
  {
    assert (heap - {tag}).Keys == heap.Keys - {tag};
    forall t | t in queue && t !in popped ensures queue[tag].nextFire <= queue[t].nextFire {
      assert t in heap;
    }
  }

  lemma EndSweep(s: State, now: nat, popped: set<nat>, order: seq<nat>, sweep: Sweep)
    requires Sweeping(s, now, popped, order, sweep)
    requires forall t :: t in sweep.heap ==> sweep.heap[t].nextFire > now
    ensures FireStep(s, now, order, s.(queue := sweep.heap + sweep.toReschedule, log := s.log + sweep.toFire))
  {
    forall t | t in s.queue && t !in popped ensures s.queue[t].nextFire > now {
      assert t in sweep.heap;
    }
    PoppedAllDue(s, now, popped, order);
  }

  /** The kept events of a heap from which all but `remaining` have been popped. */
  ghost function OthersPopped(all: map<nat, ScheduledEvent>, remaining: set<nat>, wo: WorkOrderId)
    : map<nat, ScheduledEvent>
  {
    map t | t in all && t !in remaining && all[t].workOrder != wo :: all[t]
  }

  lemma OthersPoppedOne(all: map<nat, ScheduledEvent>, heap: map<nat, ScheduledEvent>, wo: WorkOrderId, tag: nat)
    requires heap.Keys <= all.Keys && tag in heap
    ensures var before := OthersPopped(all, heap.Keys, wo);
      OthersPopped(all, (heap - {tag}).Keys, wo) == if all[tag].workOrder != wo then before[tag := all[tag]] else before
    ensures (heap - {tag}).Keys == heap.Keys - {tag} && |heap - {tag}| < |heap|
  {
    assert (heap - {tag}).Keys == heap.Keys - {tag};
  }

  lemma RemovedIsOthers(s: State, wo: WorkOrderId)
    ensures Removed(s, wo).queue == OthersPopped(s.queue, {}, wo)
  {
  }

  /** The popped events that go back on the heap. */
  ghost function Recurring(s: State, now: nat, popped: set<nat>): map<nat, ScheduledEvent> {
    map t | t in s.queue && t in popped && s.queue[t].workOrder in s.tracked && ShouldReschedule(Fired(s.queue[t]), now)
      :: Rescheduled(s.queue[t], now)
  }

  /** Part-way through popping: the popped events are due, no later than the rest, and those of a
      tracked work order are listed in `order`. */
  ghost predicate Popping(s: State, now: nat, popped: set<nat>, order: seq<nat>) {
    && (forall t :: t in popped ==> Due(s, t, now))
    && (forall t :: t in order <==> t in popped && t in s.queue && s.queue[t].workOrder in s.tracked)
    && EarliestFirst(s.queue, order)
    && (order != [] ==> forall t :: t in s.queue && t !in popped ==>
          s.queue[order[|order| - 1]].nextFire <= s.queue[t].nextFire)
  }

  lemma PoppingOne(s: State, now: nat, popped: set<nat>, order: seq<nat>, tag: nat)
    requires Popping(s, now, popped, order)
    requires tag !in popped && Due(s, tag, now)
    requires forall t :: t in s.queue && t !in popped ==> s.queue[tag].nextFire <= s.queue[t].nextFire
    ensures var tracked := s.queue[tag].workOrder in s.tracked;
            Popping(s, now, popped + {tag}, if tracked then order + [tag] else order)
  {
    if s.queue[tag].workOrder in s.tracked {
      AppendLatest(s.queue, order, tag);
    }
  }

  lemma AppendLatest(queue: map<nat, ScheduledEvent>, order: seq<nat>, tag: nat)
    requires EarliestFirst(queue, order) && tag in queue && tag !in order
    requires order != [] ==> queue[order[|order| - 1]].nextFire <= queue[tag].nextFire
    ensures EarliestFirst(queue, order + [tag])
  {
  }

  lemma RecurringOne(s: State, now: nat, popped: set<nat>, tag: nat)
    requires tag in s.queue
    ensures var before, e := Recurring(s, now, popped), s.queue[tag];
            Recurring(s, now, popped + {tag}) ==
              if e.workOrder in s.tracked && ShouldReschedule(Fired(e), now) then before[tag := Rescheduled(e, now)]
                else before
  {
  }

  lemma PoppedAllDue(s: State, now: nat, popped: set<nat>, order: seq<nat>)
    requires Popping(s, now, popped, order)
    requires forall t :: t in s.queue && t !in popped ==> s.queue[t].nextFire > now
    ensures FiringOrder(s, now, order)
    ensures (s.queue - popped) + Recurring(s, now, popped) == QueueAfterFiring(s, now)
  {
  }

  /** `peek`: some event with the least `nextFire`. */
  method Earliest(heap: map<nat, ScheduledEvent>) returns (tag: nat)
    requires heap != map[]
    ensures tag in heap
    ensures forall t :: t in heap ==> heap[tag].nextFire <= heap[t].nextFire
  {
    var rest := heap.Keys;
    assert rest != {};
    tag :| tag in rest;
    while rest != {}
      invariant rest <= heap.Keys && tag in heap
      invariant forall t :: t in heap && t !in rest ==> heap[tag].nextFire <= heap[t].nextFire
      decreases |rest|
    {
      var t :| t in rest;
      if heap[t].nextFire < heap[tag].nextFire {
        tag := t;
      }
      rest := rest - {t};
    }
  }
}
