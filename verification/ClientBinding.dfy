/** Binding a service to the first client that connects (node/vm/base/src/binding.rs).  A request
    first asks whether its certificate is the bound one and, if not, tries to bind it; the two
    steps lock the shared state separately, so other requests run in between. */
module ClientBinding {
  import opened Bytes

  type Cert = Bytes

  class BoundClient {
    var inner: Option<Cert>

    constructor ()
      ensures inner == None
    {
      inner := None;
    }

    method BindClient(cert: Cert) returns (ok: bool)
      modifies this
      ensures ok <==> old(inner).None?
      ensures inner == if ok then Some(cert) else old(inner)
    {
      if inner.None? {
        inner := Some(cert);
        ok := true;
      } else {
        ok := false;
      }
    }

    method IsBoundClient(cert: Cert) returns (ok: bool)
      ensures ok <==> inner == Some(cert)
    {
      ok := inner.Some? && inner.value == cert;
    }
  }

  // ---------- Interleavings ----------

  datatype Progress = Arrived | NotBound | Accepted | Rejected

  datatype Request = Request(cert: Option<Cert>, progress: Progress)

  /** `binds` lists every certificate ever written to the shared state. */
  datatype World = World(bound: Option<Cert>, requests: seq<Request>, binds: seq<Cert>)

  datatype Step = Arrive(cert: Option<Cert>) | Check(i: nat) | Bind(i: nat)

  const EMPTY_WORLD := World(None, [], [])

  /** A request without a certificate is refused before any lock is taken. */
  function Next(w: World, step: Step): World {
    match step
    case Arrive(cert) =>
      w.(requests := w.requests + [Request(cert, if cert.None? then Rejected else Arrived)])
    case Check(i) =>
      if i < |w.requests| && w.requests[i].progress.Arrived? then
        var r := w.requests[i];
        w.(requests := w.requests[i := r.(progress := if w.bound == r.cert then Accepted else NotBound)])
      else w
    case Bind(i) =>
      if i < |w.requests| && w.requests[i].progress.NotBound? && w.requests[i].cert.Some? then
        var r := w.requests[i];
        if w.bound.None? then
          World(r.cert, w.requests[i := r.(progress := Accepted)], w.binds + [r.cert.value])
        else
          w.(requests := w.requests[i := r.(progress := Rejected)])
      else w
  }

  function Run(w: World, steps: seq<Step>): World
    decreases |steps|
  {
    if steps == [] then w else Run(Next(w, steps[0]), steps[1..])
  }

  /** The class, driven by any interleaving, is the state machine. */
  method Drive(client: BoundClient, steps: seq<Step>) returns (w: World)
    requires client.inner == None
    modifies client
    ensures w == Run(EMPTY_WORLD, steps) && client.inner == w.bound
  {
    var requests: seq<Request> := [];
    var binds: seq<Cert> := [];
    for k := 0 to |steps|
      invariant Run(World(client.inner, requests, binds), steps[k..]) == Run(EMPTY_WORLD, steps)
      invariant forall r :: r in requests && r.cert.None? ==> r.progress.Rejected?
    {
      assert steps[k..][1..] == steps[k + 1..];
      match steps[k]
      case Arrive(cert) =>
        requests := requests + [Request(cert, if cert.None? then Rejected else Arrived)];
      case Check(i) =>
        if i < |requests| && requests[i].progress.Arrived? {
          var r := requests[i];
          var isBound := client.IsBoundClient(r.cert.value);
          requests := requests[i := r.(progress := if isBound then Accepted else NotBound)];
        }
      case Bind(i) =>
        if i < |requests| && requests[i].progress.NotBound? {
          var r := requests[i];
          var bound := client.BindClient(r.cert.value);
          requests := requests[i := r.(progress := if bound then Accepted else Rejected)];
          binds := if bound then binds + [r.cert.value] else binds;
        }
    }
    w := World(client.inner, requests, binds);
  }

  // ---------- Safety ----------

  ghost predicate Safe(w: World) {
    && |w.binds| <= 1
    && w.bound == (if w.binds == [] then None else Some(w.binds[0]))
    && (forall i :: 0 <= i < |w.requests| && w.requests[i].progress.Accepted? ==>
          w.bound.Some? && w.requests[i].cert == w.bound)
    && (forall i :: 0 <= i < |w.requests| && w.requests[i].cert.None? ==> w.requests[i].progress.Rejected?)
  }

  lemma SafeNext(w: World, step: Step)
    requires Safe(w)
    ensures Safe(Next(w, step))
    ensures w.bound.Some? ==> Next(w, step).bound == w.bound
  {
  }

  lemma {:induction false} SafeRun(w: World, steps: seq<Step>)
    requires Safe(w)
    ensures Safe(Run(w, steps))
    ensures w.bound.Some? ==> Run(w, steps).bound == w.bound
    decreases |steps|
  {
    if steps != [] {
      SafeNext(w, steps[0]);
      SafeRun(Next(w, steps[0]), steps[1..]);
    }
  }

  lemma {:induction false} RunAppend(w: World, a: seq<Step>, b: seq<Step>)
    ensures Run(w, a + b) == Run(Run(w, a), b)
    decreases |a|
  {
    if a == [] {
      assert a + b == b;
    } else {
      assert (a + b)[1..] == a[1..] + b;
      RunAppend(Next(w, a[0]), a[1..], b);
    }
  }

  /** Over every interleaving: the shared state is written at most once, never changes after that,
      and every accepted request, early or late, carries the one bound certificate. */
  lemma BindingSafety(steps: seq<Step>, more: seq<Step>)
    ensures |Run(EMPTY_WORLD, steps).binds| <= 1
    ensures Run(EMPTY_WORLD, steps).bound.Some? ==>
      Run(EMPTY_WORLD, steps + more).bound == Run(EMPTY_WORLD, steps).bound
    ensures var w := Run(EMPTY_WORLD, steps);
      forall i :: 0 <= i < |w.requests| && w.requests[i].progress.Accepted? ==>
        w.bound.Some? && w.requests[i].cert == w.bound
  {
    SafeRun(EMPTY_WORLD, steps);
    SafeRun(Run(EMPTY_WORLD, steps), more);
    RunAppend(EMPTY_WORLD, steps, more);
  }

  // ---------- Which requests are turned away ----------

  predicate Touches(step: Step, i: nat) {
    (step.Check? || step.Bind?) && step.i == i
  }

  lemma {:induction false} UntouchedStays(w: World, steps: seq<Step>, i: nat)
    requires i < |w.requests|
    requires forall s :: s in steps ==> !Touches(s, i)
    ensures i < |Run(w, steps).requests| && Run(w, steps).requests[i] == w.requests[i]
    decreases |steps|
  {
    if steps != [] {
      assert steps[0] in steps;
      UntouchedStays(Next(w, steps[0]), steps[1..], i);
    }
  }

  /** Exact outcome of a request under any interference between its two steps: it is accepted if
      and only if its certificate was the bound one when it checked, or nothing was bound when
      it came to bind. */
  lemma RequestOutcome(w: World, between: seq<Step>, i: nat)
    requires Safe(w) && i < |w.requests| && w.requests[i].progress.Arrived?
    requires forall s :: s in between ==> !Touches(s, i)
    ensures var middle := Run(Next(w, Check(i)), between);
            var end := Next(middle, Bind(i));
            && i < |end.requests|
            && (end.requests[i].progress.Accepted? <==> w.bound == w.requests[i].cert || middle.bound.None?)
            && (end.requests[i].progress.Accepted? || end.requests[i].progress.Rejected?)
  {
    SafeNext(w, Check(i));
    SafeRun(Next(w, Check(i)), between);
    UntouchedStays(Next(w, Check(i)), between, i);
  }

  /** With nothing in between, exactly the first client and its own later requests get in. */
  lemma UndisturbedRequestOutcome(w: World, i: nat)
    requires Safe(w) && i < |w.requests| && w.requests[i].progress.Arrived?
    ensures var end := Next(Next(w, Check(i)), Bind(i));
            end.requests[i].progress.Accepted? <==> w.bound.None? || w.bound == w.requests[i].cert
  {
    RequestOutcome(w, [], i);
  }

  lemma RunPair(w: World, a: Step, b: Step, rest: seq<Step>)
    ensures Run(w, [a, b] + rest) == Run(Next(Next(w, a), b), rest)
  {
    assert ([a, b] + rest)[1..] == [b] + rest;
    assert ([b] + rest)[1..] == rest;
  }

  /** The bound client itself can be refused: two of its first requests check before either
      binds, and the slower one is told that another client is bound. */
  lemma OwnRequestCanBeRefused(cert: Cert)
    ensures var w := Run(EMPTY_WORLD, [Arrive(Some(cert)), Arrive(Some(cert)), Check(0), Check(1), Bind(0), Bind(1)]);
            w.bound == Some(cert) && |w.requests| == 2
            && w.requests[1].cert == w.bound && w.requests[1].progress.Rejected?
  {
    var c := Some(cert);
    RunPair(EMPTY_WORLD, Arrive(c), Arrive(c), [Check(0), Check(1), Bind(0), Bind(1)]);
    var both := World(None, [Request(c, Arrived), Request(c, Arrived)], []);
    RunPair(both, Check(0), Check(1), [Bind(0), Bind(1)]);
    var checked := World(None, [Request(c, NotBound), Request(c, NotBound)], []);
    RunPair(checked, Bind(0), Bind(1), []);
  }
}
