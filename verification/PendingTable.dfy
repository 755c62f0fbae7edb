/** What every move of the pending-request table keeps (node/daemon/src/services/secrets.rs). */
module PendingTables {
  import opened SealedBoxes
  import opened Enclaves
  import opened Daemons

  ghost predicate Counted(p: Pending) {
    && p.responseCount == |p.collected| && p.threshold > 0
    && p.requestedIds != {} && p.consumersById.Keys == p.requestedIds
  }

  ghost predicate Waiting(p: Pending) {
    Counted(p) && p.responseCount < p.threshold
  }

  ghost predicate TaskOk(task: Task) {
    match task
    case PutTask(p) => Counted(p) && p.collected != []
    case TimeoutTask(p) => Waiting(p)
    case CheckTask(_) => true
  }

  /** Every id handed out is in exactly one of four places. */
  ghost predicate OnePlace(t: Table) {
    && t.reserved.Keys !! t.pending.Keys !! t.tasks.Keys !! t.answers.Keys
    && forall r :: r in t.reserved || r in t.pending || r in t.tasks || r in t.answers <==> 1 <= r <= t.counter
  }

  ghost predicate EntriesOk(t: Table) {
    && (forall r :: r in t.reserved ==> Waiting(t.reserved[r]))
    && (forall r :: r in t.pending ==> Waiting(t.pending[r]))
    && (forall r :: r in t.tasks ==> TaskOk(t.tasks[r]))
  }

  /** Ids leave the table once; those that left are with a finaliser or answered, once. */
  ghost predicate LeftOnce(t: Table) {
    && (forall i, j :: 0 <= i < j < |t.departed| ==> t.departed[i] != t.departed[j])
    && (forall r :: r in t.departed <==> r in t.tasks || r in t.answers)
    && (forall r :: r in t.answers ==> |t.answers[r]| == 1)
  }

  ghost predicate TableInv(t: Table) {
    && OnePlace(t) && EntriesOk(t) && LeftOnce(t)
    && t.pending.Keys <= t.timers && t.timers !! t.reserved.Keys
    && (forall r :: r in t.timers ==> 1 <= r <= t.counter)
  }

  lemma ReservedKeeps(t: Table, p: Pending)
    requires TableInv(t) && Waiting(p)
    ensures TableInv(Reserved(t, p))
  {
  }

  lemma InsertedKeeps(t: Table, r: nat)
    requires TableInv(t)
    ensures TableInv(Inserted(t, r))
  {
  }

  lemma DepartedKeeps(t: Table, r: nat, task: Task)
    requires TableInv(t) && r in t.pending && TaskOk(task)
    ensures TableInv(Departed(t, r, task))
  {
    DepartedLeavesOnce(t, r, task);
    DepartedOnePlace(t, r, task);
  }

  lemma DepartedOnePlace(t: Table, r: nat, task: Task)
    requires OnePlace(t) && r in t.pending
    ensures OnePlace(Departed(t, r, task))
  {
  }

  lemma DepartedLeavesOnce(t: Table, r: nat, task: Task)
    requires OnePlace(t) && LeftOnce(t) && r in t.pending
    ensures LeftOnce(Departed(t, r, task))
  {
    var u := Departed(t, r, task);
    assert forall x :: x in u.departed <==> x in t.departed || x == r;
  }

  lemma ValidResponseKeeps(t: Table, r: nat, c: Collected)
    requires TableInv(t) && r in t.pending
    ensures TableInv(AfterValidResponse(t, r, c))
  {
    var p := Collect(t.pending[r], c);
    assert Counted(p);
    if p.responseCount >= p.threshold {
      DepartedKeeps(t, r, PutTask(p));
    }
  }

  lemma TimerKeeps(t: Table, r: nat)
    requires TableInv(t)
    ensures TableInv(AfterTimer(t, r))
  {
    if r in t.pending {
      DepartedKeeps(t, r, TimeoutTask(t.pending[r]));
    }
  }

  lemma RepliedKeeps(t: Table, r: nat, answer: Answer)
    requires TableInv(t) && r in t.tasks
    ensures TableInv(Replied(t, r, answer))
  {
  }

  lemma AdvancedKeeps(t: Table, r: nat, ok: bool)
    requires TableInv(t) && r in t.tasks && !t.tasks[r].CheckTask?
    ensures TableInv(Advanced(t, r, ok))
  {
    if !ok {
      RepliedKeeps(t, r, AnswerErr);
    }
  }

  // ---------- Moves ----------

  /** Everything that can happen to the table. */
  datatype Move =
    | Stay
    | Reserving(p: Pending)
    | Inserting(r: nat)
    | Collecting(r: nat, c: Collected)
    | TimingOut(r: nat)
    | Advancing(r: nat, ok: bool)
    | Replying(r: nat, answer: Answer)

  ghost predicate Enabled(t: Table, m: Move) {
    match m
    case Reserving(p) => Waiting(p) && p.collected == []
    case Collecting(r, _) => r in t.pending
    case Advancing(r, _) => r in t.tasks && !t.tasks[r].CheckTask?
    case Replying(r, _) => r in t.tasks && t.tasks[r].CheckTask?
    case _ => true
  }

  ghost function Moved(t: Table, m: Move): Table
    requires Enabled(t, m)
  {
    match m
    case Stay => t
    case Reserving(p) => Reserved(t, p)
    case Inserting(r) => Inserted(t, r)
    case Collecting(r, c) => AfterValidResponse(t, r, c)
    case TimingOut(r) => AfterTimer(t, r)
    case Advancing(r, ok) => Advanced(t, r, ok)
    case Replying(r, answer) => Replied(t, r, answer)
  }

  lemma MoveKeepsInv(t: Table, m: Move)
    requires TableInv(t) && Enabled(t, m)
    ensures TableInv(Moved(t, m))
  {
    match m
    case Stay =>
    case Reserving(p) => ReservedKeeps(t, p);
    case Inserting(r) => InsertedKeeps(t, r);
    case Collecting(r, c) => ValidResponseKeeps(t, r, c);
    case TimingOut(r) => TimerKeeps(t, r);
    case Advancing(r, ok) => AdvancedKeeps(t, r, ok);
    case Replying(r, answer) => RepliedKeeps(t, r, answer);
  }

  lemma OnlyTwoMovesTakeOut(t: Table, m: Move)
    requires Enabled(t, m) && !m.TimingOut? && !m.Collecting?
    ensures t.pending.Keys <= Moved(t, m).pending.Keys
    ensures !m.Inserting? ==> Moved(t, m).pending == t.pending
  {
  }

  // ---------- Where a request stands ----------

  /** Four steps from the end when reserved, none when answered. */
  ghost function Stage(t: Table, r: nat): nat {
    if r in t.reserved then 4
    else if r in t.pending then 3
    else if r in t.tasks then (if t.tasks[r].CheckTask? then 1 else 2)
    else 0
  }

  /** Between two tables: request `r` came no further from its end, and nothing it was sent changed. */
  ghost predicate Onward(t: Table, u: Table, r: nat) {
    && Stage(u, r) <= Stage(t, r) && t.counter <= u.counter
    && t.departed <= u.departed
    && (r in t.answers ==> r in u.answers && u.answers[r] == t.answers[r])
  }

  lemma MoveIsOnward(t: Table, m: Move, r: nat)
    requires OnePlace(t) && Enabled(t, m) && 1 <= r <= t.counter
    ensures Onward(t, Moved(t, m), r)
  {
    var u := Moved(t, m);
    assert t.departed <= u.departed;
    assert m.Advancing? && m.ok && m.r == r ==> Stage(t, r) == 2 && Stage(u, r) == 1;
  }

  lemma AdvancedLowersStage(t: Table, r: nat, ok: bool)
    requires OnePlace(t) && r in t.tasks && !t.tasks[r].CheckTask?
    ensures Stage(Advanced(t, r, ok), r) < Stage(t, r)
  {
  }

  /** Only its own finaliser's moves change what a request out of the table has to do next. */
  lemma MoveKeepsTask(t: Table, m: Move, r: nat)
    requires OnePlace(t) && Enabled(t, m) && r in t.tasks
    requires m.Advancing? || m.Replying? ==> m.r != r
    ensures r in Moved(t, m).tasks && Moved(t, m).tasks[r] == t.tasks[r]
  {
  }

  // ---------- Timers and thresholds ----------

  /** A timer is armed when its request enters the table, and never again. */
  lemma MoveRearmsNothing(t: Table, m: Move, r: nat)
    requires Enabled(t, m) && 1 <= r <= t.counter && r !in t.reserved && r !in t.timers
    ensures r <= Moved(t, m).counter
    ensures r !in Moved(t, m).reserved && r !in Moved(t, m).timers
  {
  }

  ghost predicate AllAwait(t: Table, threshold: nat) {
    && (forall r :: r in t.reserved ==> t.reserved[r].threshold == threshold)
    && (forall r :: r in t.pending ==> t.pending[r].threshold == threshold)
  }

  lemma MoveKeepsThreshold(t: Table, m: Move, threshold: nat)
    requires Enabled(t, m) && AllAwait(t, threshold) && (m.Reserving? ==> m.p.threshold == threshold)
    ensures AllAwait(Moved(t, m), threshold)
  {
  }

  // ---------- What a request is for ----------

  /** The request is for these ids, each for this consumer. */
  ghost predicate IsFor(p: Pending, consumers: map<SecretId, ConsumerInfo>) {
    p.requestedIds == consumers.Keys && p.consumersById == consumers
  }

  ghost predicate TaskIsFor(task: Task, consumers: map<SecretId, ConsumerInfo>) {
    match task
    case PutTask(p) => IsFor(p, consumers)
    case TimeoutTask(p) => IsFor(p, consumers)
    case CheckTask(ids) => ids == consumers.Keys
  }

  ghost predicate AsksFor(t: Table, r: nat, consumers: map<SecretId, ConsumerInfo>) {
    && (r in t.reserved ==> IsFor(t.reserved[r], consumers))
    && (r in t.pending ==> IsFor(t.pending[r], consumers))
    && (r in t.tasks ==> TaskIsFor(t.tasks[r], consumers))
  }

  lemma MoveKeepsIds(t: Table, m: Move, r: nat, consumers: map<SecretId, ConsumerInfo>)
    requires OnePlace(t) && Enabled(t, m) && 1 <= r <= t.counter && AsksFor(t, r, consumers)
    ensures AsksFor(Moved(t, m), r, consumers)
  {
  }
}
