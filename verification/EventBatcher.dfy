/** The task that batches daemon events for the enclave (node/daemon/src/main.rs, lines 230-269). */
module EventBatcher {

  const EVENT_BATCH_SIZE: nat := 100

  /** One step of the world around the task, or of the task itself.  `Select` is one pass through
      the biased `select!`; `Flush` is the size and emptiness test below it.  Producers may run
      between the two. */
  datatype Step<E> =
    | Send(event: E)
    | CloseSenders
    | SignalShutdown
    | Select(ticked: bool)
    | Flush

  datatype Phase = Selecting | Flushing | StoppedByShutdown | StoppedByClose

  /** The task's locals and the channel it reads. */
  datatype State<E> = State(
    delivered: seq<seq<E>>,
    batch: seq<E>,
    queue: seq<E>,
    closed: bool,
    shutdown: bool,
    phase: Phase)

  function Start<E>(): State<E> {
    State([], [], [], false, false, Selecting)
  }

  /** `deliver_batch_events(mem::take(&mut batch))`, unless there is nothing to deliver. */
  function HandOver<E>(s: State<E>): State<E> {
    if s.batch == [] then s else s.(delivered := s.delivered + [s.batch], batch := [])
  }

  function Next<E>(s: State<E>, step: Step<E>): State<E> {
    match step
    case Send(e) => if s.closed then s else s.(queue := s.queue + [e])
    case CloseSenders => s.(closed := true)
    case SignalShutdown => s.(shutdown := true)
    case Select(ticked) =>
      if !s.phase.Selecting? then s
      else if s.shutdown then HandOver(s).(phase := StoppedByShutdown)
      else if s.queue != [] then s.(batch := s.batch + [s.queue[0]], queue := s.queue[1..], phase := Flushing)
      else if s.closed then s.(phase := StoppedByClose)
      else if ticked && s.batch != [] then s.(phase := Flushing)
      else s
    case Flush =>
      if !s.phase.Flushing? then s
      else if |s.batch| >= EVENT_BATCH_SIZE || s.queue == [] then HandOver(s).(phase := Selecting)
      else s.(phase := Selecting)
  }

  function Run<E>(script: seq<Step<E>>): State<E> {
    if script == [] then Start() else Next(Run(script[..|script| - 1]), script[|script| - 1])
  }

  function Concat<E>(batches: seq<seq<E>>): seq<E> {
    if batches == [] then [] else Concat(batches[..|batches| - 1]) + batches[|batches| - 1]
  }

  /** The events a script puts on the channel: those sent before the senders are dropped. */
  function Sent<E>(script: seq<Step<E>>): seq<E> {
    if script == [] then []
    else match script[0]
      case Send(e) => [e] + Sent(script[1..])
      case CloseSenders => []
      case _ => Sent(script[1..])
  }

  predicate Closed<E(!new)>(script: seq<Step<E>>) {
    exists i :: 0 <= i < |script| && script[i].CloseSenders?
  }

  lemma {:induction false} SentSnoc<E(!new)>(script: seq<Step<E>>, step: Step<E>)
    ensures Sent(script + [step]) ==
            if step.Send? && !Closed(script) then Sent(script) + [step.event] else Sent(script)
  {
    if script == [] {
      assert script + [step] == [step] && [step][1..] == [];
    } else {
      assert (script + [step])[0] == script[0] && (script + [step])[1..] == script[1..] + [step];
      if !script[0].CloseSenders? {
        SentSnoc(script[1..], step);
        assert Closed(script) <==> Closed(script[1..]) by {
          if Closed(script) {
            var i :| 0 <= i < |script| && script[i].CloseSenders?;
            assert script[1..][i - 1].CloseSenders?;
          }
          if Closed(script[1..]) {
            var i :| 0 <= i < |script[1..]| && script[1..][i].CloseSenders?;
            assert script[i + 1].CloseSenders?;
          }
        }
      }
    }
  }

  /** The task and its channel. */
  class Task<E> {
    var delivered: seq<seq<E>>
    var batch: seq<E>
    var queue: seq<E>
    var closed: bool
    var shutdown: bool
    var phase: Phase

    ghost function View(): State<E>
      reads this
    {
      State(delivered, batch, queue, closed, shutdown, phase)
    }

    constructor ()
      ensures View() == Start()
    {
      delivered, batch, queue := [], [], [];
      closed, shutdown, phase := false, false, Selecting;
    }

    method Deliver()
      modifies this
      ensures View() == HandOver(old(View()))
    {
      if batch != [] {
        delivered := delivered + [batch];
        batch := [];
      }
    }

    method Select(ticked: bool)
      modifies this
      ensures View() == Next(old(View()), Step.Select(ticked))
    {
      if phase != Selecting {
        return;
      }
      if shutdown {
        Deliver();
        phase := StoppedByShutdown;
      } else if queue != [] {
        batch, queue := batch + [queue[0]], queue[1..];
        phase := Flushing;
      } else if closed {
        phase := StoppedByClose;
      } else if ticked && batch != [] {
        phase := Flushing;
      }
    }

    method Flush()
      modifies this
      ensures View() == Next(old(View()), Step.Flush)
    {
      if phase != Flushing {
        return;
      }
      if |batch| >= EVENT_BATCH_SIZE || (batch != [] && queue == []) {
        Deliver();
      }
      phase := Selecting;
    }

    method Perform(step: Step<E>)
      modifies this
      ensures View() == Next(old(View()), step)
    {
      match step
      case Send(e) =>
        if !closed {
          queue := queue + [e];
        }
      case CloseSenders => closed := true;
      case SignalShutdown => shutdown := true;
      case Select(ticked) => Select(ticked);
      case Flush => Flush();
    }
  }

  /** The task under any interleaving takes the steps of the state machine. */
  method RunTask<E>(script: seq<Step<E>>) returns (r: State<E>)
    ensures r == Run(script)
  {
    var t := new Task<E>();
    for k := 0 to |script|
      invariant fresh(t) && t.View() == Run(script[..k])
    {
      assert script[..k + 1][..k] == script[..k];
      t.Perform(script[k]);
    }
    assert script[..|script|] == script;
    r := State(t.delivered, t.batch, t.queue, t.closed, t.shutdown, t.phase);
  }

  // ---------- Conservation ----------

  /** What was handed over, then the open batch, then the channel. */
  function Held<E>(s: State<E>): seq<E> {
    Concat(s.delivered) + (s.batch + s.queue)
  }

  /** Batches have 1 to 100 events; a batch is left open at the `select!` only if the channel is not empty,
      and by a task that has stopped never. */
  ghost predicate InBounds<E>(s: State<E>) {
    && (forall b :: b in s.delivered ==> 0 < |b| <= EVENT_BATCH_SIZE)
    && (s.phase.Selecting? ==> |s.batch| < EVENT_BATCH_SIZE && (s.batch != [] ==> s.queue != []))
    && (s.phase.Flushing? ==> 0 < |s.batch| <= EVENT_BATCH_SIZE)
    && (s.phase.StoppedByShutdown? ==> s.batch == [])
    && (s.phase.StoppedByClose? ==> s.batch == [] && s.queue == [] && s.closed)
  }

  lemma Regroup<E>(a: seq<E>, b: seq<E>, c: seq<E>)
    ensures (a + b) + c == a + (b + c)
  {
  }

  lemma HandOverKeeps<E>(s: State<E>)
    ensures Held(HandOver(s)) == Held(s) && HandOver(s).batch == []
  {
    ConcatSnoc(s.delivered, s.batch);
    Regroup(Concat(s.delivered), s.batch, s.queue);
    assert [] + s.queue == s.queue;
  }

  lemma ReceiveKeeps<E>(batch: seq<E>, queue: seq<E>)
    requires queue != []
    ensures (batch + [queue[0]]) + queue[1..] == batch + queue
  {
  }

  lemma StepKeepsHeld<E>(s: State<E>, step: Step<E>)
    ensures Held(Next(s, step)) == if step.Send? && !s.closed then Held(s) + [step.event] else Held(s)
  {
    match step
    case Send(e) =>
      Regroup(s.batch, s.queue, [e]);
      Regroup(Concat(s.delivered), s.batch + s.queue, [e]);
    case Select(_) =>
      HandOverKeeps(s);
      if s.queue != [] {
        ReceiveKeeps(s.batch, s.queue);
      }
    case Flush => HandOverKeeps(s);
    case _ =>
  }

  lemma StepKeepsBounds<E>(s: State<E>, step: Step<E>)
    requires InBounds(s)
    ensures InBounds(Next(s, step))
  {
    if Next(s, step).delivered != s.delivered {
      assert forall b :: b in s.delivered + [s.batch] <==> b in s.delivered || b == s.batch;
    }
  }

  ghost predicate AllSentIsHeld<E(!new)>(script: seq<Step<E>>) {
    Held(Run(script)) == Sent(script) && (Run(script).closed <==> Closed(script))
  }

  lemma HeldOneMore<E(!new)>(script: seq<Step<E>>, step: Step<E>)
    requires AllSentIsHeld(script)
    ensures AllSentIsHeld(script + [step])
  {
    var s := Run(script);
    RunSnoc(script, step);
    SentSnoc(script, step);
    ClosedSnoc(script, step);
    StepKeepsHeld(s, step);
    assert Next(s, step).closed == (s.closed || step.CloseSenders?);
  }

  lemma {:induction false} HeldIsSent<E(!new)>(script: seq<Step<E>>)
    ensures AllSentIsHeld(script)
  {
    if script != [] {
      var n := |script| - 1;
      HeldIsSent(script[..n]);
      HeldOneMore(script[..n], script[n]);
      assert script[..n] + [script[n]] == script;
    }
  }

  lemma {:induction false} RunInBounds<E>(script: seq<Step<E>>)
    ensures InBounds(Run(script))
  {
    if script != [] {
      var n := |script| - 1;
      RunInBounds(script[..n]);
      StepKeepsBounds(Run(script[..n]), script[n]);
    }
  }

  /** Conservation over every interleaving: handed over, open and still in the channel is exactly what was
      sent, in order.  So when the task stops because the channel closed, nothing is left behind; a shutdown
      can leave events only in the channel; and whenever the guard of the ticker arm holds, the receive arm,
      which comes first, is taken instead. */
  lemma Conservation<E(!new)>(script: seq<Step<E>>)
    ensures Held(Run(script)) == Sent(script) && (Run(script).closed <==> Closed(script)) && InBounds(Run(script))
  {
    HeldIsSent(script);
    RunInBounds(script);
  }

  lemma ClosedSnoc<E(!new)>(script: seq<Step<E>>, step: Step<E>)
    ensures Closed(script + [step]) <==> Closed(script) || step.CloseSenders?
  {
    var longer := script + [step];
    assert longer[|script|] == step;
    if i :| 0 <= i < |script| && script[i].CloseSenders? {
      assert longer[i].CloseSenders?;
    }
  }

  lemma ConcatSnoc<E>(batches: seq<seq<E>>, b: seq<E>)
    ensures Concat(batches + [b]) == Concat(batches) + b
  {
    assert (batches + [b])[..|batches|] == batches;
  }

  // ---------- When a batch is handed over ----------

  lemma RunSnoc<E>(script: seq<Step<E>>, step: Step<E>)
    ensures Run(script + [step]) == Next(Run(script), step)
  {
    assert (script + [step])[..|script|] == script;
  }

  /** At any point of any script: one step hands over the open batch or nothing; it does so exactly when a
      test finds the batch full or the channel empty, or on shutdown.  So a batch of fewer than 100 leaves
      only with the last event sent so far, or on shutdown. */
  lemma HandoverExactly<E(!new)>(script: seq<Step<E>>, step: Step<E>)
    ensures var s, s' := Run(script), Run(script + [step]);
      var full := step.Flush? && s.phase.Flushing? && |s.batch| == EVENT_BATCH_SIZE;
      var idle := step.Flush? && s.phase.Flushing? && s.queue == [];
      var last := step.Select? && s.phase.Selecting? && s.shutdown && s.batch != [];
      && s'.delivered == (if full || idle || last then s.delivered + [s.batch] else s.delivered)
      && (idle ==> Concat(s'.delivered) == Sent(script))
      && (last ==> s'.phase.StoppedByShutdown?)
  {
    var s := Run(script);
    Conservation(script);
    RunSnoc(script, step);
    StepKeepsHeld(s, step);
    if step.Flush? && s.phase.Flushing? && s.queue == [] {
      NothingWaits(Next(s, step));
    }
  }

  lemma NothingWaits<E>(s: State<E>)
    requires s.batch == [] && s.queue == []
    ensures Held(s) == Concat(s.delivered)
  {
  }

  /** The events in hundreds, and what is left. */
  function Chunks<E>(events: seq<E>): seq<seq<E>> {
    if events == [] then []
    else if |events| <= EVENT_BATCH_SIZE then [events]
    else [events[..EVENT_BATCH_SIZE]] + Chunks(events[EVENT_BATCH_SIZE..])
  }

  /** `n` rounds of the loop. */
  function Rounds<E>(n: nat): seq<Step<E>> {
    if n == 0 then [] else [Step.Select(false), Step.Flush] + Rounds(n - 1)
  }

  function RunFrom<E>(s: State<E>, script: seq<Step<E>>): State<E>
    decreases |script|
  {
    if script == [] then s else RunFrom(Next(s, script[0]), script[1..])
  }

  lemma {:induction false} RunsOn<E>(script: seq<Step<E>>, more: seq<Step<E>>)
    ensures Run(script + more) == RunFrom(Run(script), more)
    decreases |more|
  {
    if more == [] {
      assert script + more == script;
    } else {
      assert script + more == (script + [more[0]]) + more[1..];
      RunSnoc(script, more[0]);
      RunsOn(script + [more[0]], more[1..]);
    }
  }

  predicate Ready<E>(s: State<E>) {
    s.phase.Selecting? && !s.shutdown && |s.batch| < EVENT_BATCH_SIZE && (s.batch != [] ==> s.queue != [])
  }

  /** One round: what it hands over is the first chunk of what is waiting, or nothing yet. */
  lemma OneRound<E>(s: State<E>) returns (t: State<E>)
    requires Ready(s) && s.queue != []
    ensures t == Next(Next(s, Step.Select(false)), Step.Flush)
    ensures Ready(t) && t.queue == s.queue[1..]
    ensures s.delivered + Chunks(s.batch + s.queue) == t.delivered + Chunks(t.batch + t.queue)
    ensures t == s.(delivered := t.delivered, batch := t.batch, queue := t.queue)
  {
    var all, batch, rest := s.batch + s.queue, s.batch + [s.queue[0]], s.queue[1..];
    t := Next(Next(s, Step.Select(false)), Step.Flush);
    assert all == batch + rest;
    if t.batch == [] {
      assert [] + rest == rest;
      ChunkFirst(batch, rest);
      assert t.delivered + Chunks(rest) == s.delivered + ([batch] + Chunks(rest));
    }
  }

  lemma ChunkFirst<E>(first: seq<E>, rest: seq<E>)
    requires |first| == EVENT_BATCH_SIZE || (0 < |first| < EVENT_BATCH_SIZE && rest == [])
    ensures Chunks(first + rest) == [first] + Chunks(rest)
  {
    var all := first + rest;
    if rest == [] {
      assert all == first && [first] + [] == [first];
    } else {
      assert all[..EVENT_BATCH_SIZE] == first && all[EVENT_BATCH_SIZE..] == rest;
    }
  }

  lemma {:induction false} RoundsChunk<E>(s: State<E>)
    requires Ready(s)
    ensures RunFrom(s, Rounds(|s.queue|)) ==
            s.(delivered := s.delivered + Chunks(s.batch + s.queue), batch := [], queue := [])
    decreases |s.queue|
  {
    if s.queue == [] {
      assert s.batch + s.queue == [] && s.delivered + [] == s.delivered;
    } else {
      var t := OneRound(s);
      var rounds := Rounds<E>(|s.queue|);
      assert rounds[0] == Step.Select(false) && rounds[1..][0] == Step.Flush;
      assert rounds[1..][1..] == Rounds(|s.queue| - 1);
      RoundsChunk(t);
    }
  }

  /** Left alone, the task hands over everything that was sent: from any point at the `select!` of any
      script without a shutdown, one round per event in the channel hands over what is waiting, in hundreds
      and one last batch with the rest, and leaves nothing. */
  lemma EverythingIsHandedOver<E(!new)>(script: seq<Step<E>>)
    requires Run(script).phase.Selecting? && !Run(script).shutdown
    ensures var s := Run(script);
      var end := Run(script + Rounds(|s.queue|));
      && end.delivered == s.delivered + Chunks(s.batch + s.queue)
      && end.batch == [] && end.queue == [] && Concat(end.delivered) == Sent(script)
  {
    var s := Run(script);
    Conservation(script);
    RunsOn(script, Rounds(|s.queue|));
    RoundsChunk(s);
    WaitingIsChunked(s);
  }

  lemma WaitingIsChunked<E>(s: State<E>)
    ensures Concat(s.delivered + Chunks(s.batch + s.queue)) == Held(s)
  {
    ConcatChunks(s.delivered, s.batch + s.queue);
  }

  lemma {:induction false} ConcatChunks<E>(delivered: seq<seq<E>>, events: seq<E>)
    ensures Concat(delivered + Chunks(events)) == Concat(delivered) + events
    decreases |events|
  {
    if events == [] {
      assert delivered + [] == delivered;
    } else if |events| <= EVENT_BATCH_SIZE {
      ConcatSnoc(delivered, events);
    } else {
      var first, rest := events[..EVENT_BATCH_SIZE], events[EVENT_BATCH_SIZE..];
      assert delivered + ([first] + Chunks(rest)) == (delivered + [first]) + Chunks(rest);
      ConcatSnoc(delivered, first);
      ConcatChunks(delivered + [first], rest);
      assert events == first + rest;
    }
  }

  /** One pass of the `select!`: a shutdown stops the task before anything else is looked at; otherwise it
      takes exactly the next event, if there is one; otherwise it stops exactly if the channel closed. */
  lemma SelectExactly<E(!new)>(script: seq<Step<E>>, ticked: bool)
    requires Run(script).phase.Selecting?
    ensures var s, s' := Run(script), Run(script + [Step.Select(ticked)]);
      && (s.shutdown ==> s'.phase.StoppedByShutdown? && s'.queue == s.queue)
      && (!s.shutdown && s.queue != [] ==> s'.phase.Flushing? && |s'.batch| == |s.batch| + 1)
      && (!s.shutdown && s.queue == [] ==> s' == s.(phase := if Closed(script) then StoppedByClose else Selecting))
  {
    Conservation(script);
    RunSnoc(script, Step.Select(ticked));
  }
}
