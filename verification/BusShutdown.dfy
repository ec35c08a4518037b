/** Shutdown of the event bus: it ends, it cannot get stuck, and what it loses. */
module BusShutdown {
  import opened Models
  import opened EventBus

  // ---- Shutdown ends ----

  function Rank(phase: Phase): nat {
    match phase
    case Exited => 0
    case Flushing(ToExit) => 1
    case Draining => 2
    case Flushing(ToDrain) => 3
    case Selecting => 4
    case Flushing(ToSelect) => 5
  }

  function Ranks(workers: seq<Worker>): nat {
    if workers == [] then 0 else Rank(workers[0].phase) + Ranks(workers[1..])
  }

  /** How much is left to do: events still to be received, and how far the workers are from exiting. */
  function Remaining(b: Bus): nat {
    2 * |b.ch| + Ranks(b.workers)
  }

  lemma {:induction false} RanksUpdate(workers: seq<Worker>, w: nat, worker: Worker)
    requires w < |workers|
    ensures Ranks(workers[w := worker]) == Ranks(workers) - Rank(workers[w].phase) + Rank(worker.phase)
  {
    if w == 0 {
      assert workers[w := worker][1..] == workers[1..];
    } else {
      RanksUpdate(workers[1..], w - 1, worker);
      assert workers[w := worker][1..] == workers[1..][w - 1 := worker];
    }
  }

  /** After Stop, every step that is not a tick makes progress, and a tick undoes one step at most. */
  lemma StepProgress(c: Config, b: Bus, a: Action)
    requires b.cancelled && b.closed && Enabled(b, a)
    ensures if a.Tick? then Remaining(Next(c, b, a)) == Remaining(b) + 1 else Remaining(Next(c, b, a)) < Remaining(b)
    ensures Next(c, b, a).cancelled && Next(c, b, a).closed
  {
    RanksUpdate(b.workers, a.w, Next(c, b, a).workers[a.w]);
  }

  function Ticks(steps: seq<Action>): nat {
    if steps == [] then 0 else (if steps[0].Tick? then 1 else 0) + Ticks(steps[1..])
  }

  /** A run after Stop is no longer than the work left allows: only ticks can prolong it. */
  lemma {:induction false} ShutdownEnds(r: Rules, c: Config, b: Bus, steps: seq<Action>, end: Bus)
    requires b.cancelled && b.closed && Runs(r, c, b, steps, end)
    ensures Remaining(end) + |steps| <= Remaining(b) + 2 * Ticks(steps)
    decreases |steps|
  {
    if steps != [] {
      StepProgress(c, b, steps[0]);
      ShutdownEnds(r, c, Next(c, b, steps[0]), steps[1..], end);
    }
  }

  ghost predicate AllExited(b: Bus) {
    forall w :: 0 <= w < |b.workers| ==> b.workers[w].phase.Exited?
  }

  /** A step that worker w can take after Stop without waiting for the ticker. */
  function WayOut(b: Bus, w: nat, ok: bool): Action
    requires w < |b.workers| && !b.workers[w].phase.Exited?
  {
    match b.workers[w].phase
    case Selecting => SeeDone(w)
    case Draining => if b.ch == [] then DrainClosed(w) else DrainReceive(w)
    case Flushing(_) => Flush(w, ok, seq(|b.workers[w].batch|, _ => 0), 0)
  }

  /** After Stop, a worker that has not exited can always move on, whatever the store answers. */
  lemma ShutdownNeverStuck(b: Bus, w: nat, ok: bool)
    requires b.cancelled && b.closed && w < |b.workers| && !b.workers[w].phase.Exited?
    ensures Enabled(b, WayOut(b, w, ok)) && !WayOut(b, w, ok).Tick? && !WayOut(b, w, ok).Submit?
    ensures Permitted(Rules(true, if ok then NeverFails else RefusesCancelled), b, WayOut(b, w, ok))
  {
  }

  // ---- What shutdown loses when the store never fails ----

  /** A worker that is not flushing holds less than a full batch. */
  ghost predicate RoomLeft(c: Config, worker: Worker) {
    |worker.batch| + (if worker.phase.Flushing? then 0 else 1) <= c.batch
  }

  ghost predicate Leaving(worker: Worker) {
    worker.phase.Exited? || worker.phase == Flushing(ToExit)
  }

  /** In an orderly run workers leave only when the channel is empty for good. */
  ghost predicate Orderly(c: Config, b: Bus) {
    (b.closed ==> b.cancelled) && forall w :: 0 <= w < |b.workers| ==> OrderlyWorker(c, b, b.workers[w])
  }

  /** One worker of an orderly bus. */
  ghost predicate OrderlyWorker(c: Config, b: Bus, worker: Worker) {
    && RoomLeft(c, worker)
    && (worker.phase in {Draining, Flushing(ToDrain)} ==> b.cancelled)
    && (Leaving(worker) ==> b.cancelled && b.ch == [])
  }

  lemma OrderlyStep(r: Rules, c: Config, b: Bus, a: Action)
    requires c.batch > 0 && r.orderly && Permitted(r, b, a) && Orderly(c, b)
    ensures Orderly(c, Next(c, b, a))
  {
    var n := Next(c, b, a);
    hide OrderlyWorker;
    forall w | 0 <= w < |n.workers| ensures OrderlyWorker(c, n, n.workers[w]) {
      OrderlyWorkerStep(r, c, b, a, w);
    }
  }

  lemma OrderlyWorkerStep(r: Rules, c: Config, b: Bus, a: Action, w: nat)
    requires c.batch > 0 && r.orderly && Permitted(r, b, a) && w < |b.workers|
    requires (b.closed ==> b.cancelled) && OrderlyWorker(c, b, b.workers[w])
    ensures OrderlyWorker(c, Next(c, b, a), Next(c, b, a).workers[w])
  {
  }

  lemma FailuresStep(r: Rules, c: Config, b: Bus, a: Action)
    requires r.store == NeverFails && Permitted(r, b, a) && Failed(b) == []
    ensures Failed(Next(c, b, a)) == []
  {
    if a.Flush? {
      AttemptsSnoc(b.attempts, Attempt(b.workers[a.w].batch, a.ok, a.clock, a.skipped), false);
    }
  }

  /** How many events the workers hold that are in the drain loop or have exited. */
  function DrainHeld(workers: seq<Worker>): nat {
    if workers == [] then 0 else DrainShare(workers[0]) + DrainHeld(workers[1..])
  }

  function DrainShare(worker: Worker): nat {
    if worker.phase == Draining || worker.phase.Exited? then |worker.batch| else 0
  }

  lemma {:induction false} DrainHeldUpdate(workers: seq<Worker>, w: nat, worker: Worker)
    requires w < |workers|
    ensures DrainHeld(workers[w := worker]) == DrainHeld(workers) - DrainShare(workers[w]) + DrainShare(worker)
  {
    hide DrainShare;
    if w == 0 {
      assert workers[w := worker][1..] == workers[1..];
    } else {
      DrainHeldUpdate(workers[1..], w - 1, worker);
      assert workers[w := worker][1..] == workers[1..][w - 1 := worker];
    }
  }

  /** What the drain loop holds was in the channel when the bus was cancelled. */
  ghost predicate DrainBounded(c: Config, b: Bus) {
    |b.ch| + DrainHeld(b.workers) <= c.buffer && (!b.cancelled ==> DrainHeld(b.workers) == 0)
  }

  lemma DrainStep(r: Rules, c: Config, b: Bus, a: Action)
    requires r.orderly && Permitted(r, b, a) && Orderly(c, b) && DrainBounded(c, b)
    ensures DrainBounded(c, Next(c, b, a))
  {
    hide DrainHeld;
    match a
    case Submit(_) =>
    case Cancel =>
    case Close =>
    case _ =>
      assert OrderlyWorker(c, b, b.workers[a.w]);
      DrainHeldUpdate(b.workers, a.w, Next(c, b, a).workers[a.w]);
  }

  lemma {:induction false} RunOrderly(r: Rules, c: Config, b: Bus, steps: seq<Action>, end: Bus)
    requires c.batch > 0 && r.orderly && Orderly(c, b) && DrainBounded(c, b) && Runs(r, c, b, steps, end)
    ensures Orderly(c, end) && DrainBounded(c, end) && |end.workers| == |b.workers|
    ensures r.store == NeverFails && Failed(b) == [] ==> Failed(end) == []
    decreases |steps|
  {
    if steps != [] {
      SameWorkers(c, b, steps[0]);
      hide Next, Orderly, DrainBounded, Failed;
      OrderlyStep(r, c, b, steps[0]);
      DrainStep(r, c, b, steps[0]);
      if r.store == NeverFails && Failed(b) == [] {
        FailuresStep(r, c, b, steps[0]);
      }
      RunOrderly(r, c, Next(c, b, steps[0]), steps[1..], end);
    }
  }

  lemma SameWorkers(c: Config, b: Bus, a: Action)
    requires Enabled(b, a)
    ensures |Next(c, b, a).workers| == |b.workers|
  {
  }

  lemma {:induction false} ExitedHold(workers: seq<Worker>)
    requires forall w :: 0 <= w < |workers| ==> workers[w].phase.Exited?
    ensures DrainHeld(workers) == Held(workers, true)
  {
    if workers != [] {
      ExitedHold(workers[1..]);
    }
  }

  lemma {:induction false} NothingDrained(workers: seq<Worker>)
    requires forall w :: 0 <= w < |workers| ==> workers[w] == Worker(Selecting, [])
    ensures DrainHeld(workers) == 0
  {
    if workers != [] {
      NothingDrained(workers[1..]);
    }
  }

  lemma {:induction false} HeldBound(c: Config, workers: seq<Worker>)
    requires c.batch > 0
    requires forall w :: 0 <= w < |workers| ==> workers[w].phase.Exited? && RoomLeft(c, workers[w])
    ensures Held(workers, false) == 0
    ensures Held(workers, true) <= |workers| * (c.batch - 1)
  {
    if workers != [] {
      HeldBound(c, workers[1..]);
      OneMoreBatch(|workers|, c.batch - 1);
    }
  }

  lemma OneMoreBatch(n: nat, k: nat)
    requires n > 0
    ensures n * k == k + (n - 1) * k
  {
  }

  /** With a store that never fails and no submission after Stop began: once every worker has exited, the
      channel is empty, and the events left unstored are no more than one batch less one event per worker and
      no more than the channel can hold. */
  lemma ShutdownLossBound(r: Rules, c: Config, workers: int, steps: seq<Action>, end: Bus)
    requires c.batch > 0 && r == Rules(true, NeverFails)
    requires Runs(r, c, Started(workers), steps, end) && AllExited(end)
    ensures end.ch == []
    ensures |end.accepted| - end.total == Held(end.workers, true)
    ensures |end.accepted| - end.total <= |Started(workers).workers| * (c.batch - 1)
    ensures |end.accepted| - end.total <= c.buffer
  {
    NothingDrained(Started(workers).workers);
    ExitedHold(end.workers);
    assert OrderlyWorker(c, Started(workers), Worker(Selecting, []));
    RunOrderly(r, c, Started(workers), steps, end);
    ExactlyOnce(r, c, workers, steps, end);
    forall w | 0 <= w < |end.workers| ensures end.workers[w].phase.Exited? && RoomLeft(c, end.workers[w]) {
      assert OrderlyWorker(c, end, end.workers[w]);
    }
    HeldBound(c, end.workers);
    assert Leaving(end.workers[0]);
  }

  /** A worker leaves with events in its batch only from the drain loop, at the closed channel. */
  lemma OnlyDrainAbandons(c: Config, b: Bus, a: Action, w: nat)
    requires Enabled(b, a) && w < |b.workers| && !b.workers[w].phase.Exited?
    requires Next(c, b, a).workers[w].phase.Exited? && Next(c, b, a).workers[w].batch != []
    ensures a == DrainClosed(w) && b.closed
  {
  }

  // ---- What shutdown loses with the stores at hand, which refuse a cancelled context ----

  lemma CancelledStep(r: Rules, c: Config, b: Bus, a: Action)
    requires r == Rules(true, RefusesCancelled) && Permitted(r, b, a) && b.cancelled
    ensures Next(c, b, a).cancelled && Stored(Next(c, b, a)) == Stored(b)
    ensures Next(c, b, a).accepted == b.accepted && Next(c, b, a).total == b.total
  {
    if a.Flush? {
      AttemptsSnoc(b.attempts, Attempt(b.workers[a.w].batch, a.ok, a.clock, a.skipped), true);
    }
  }

  /** Once cancelled, nothing more is ever stored: every later flush is refused. */
  lemma {:induction false} NothingStoredAfterCancel(r: Rules, c: Config, b: Bus, steps: seq<Action>, end: Bus)
    requires r == Rules(true, RefusesCancelled) && b.cancelled && Runs(r, c, b, steps, end)
    ensures Stored(end) == Stored(b) && end.accepted == b.accepted && end.total == b.total
    decreases |steps|
  {
    if steps != [] {
      CancelledStep(r, c, b, steps[0]);
      hide Stored, Next;
      NothingStoredAfterCancel(r, c, Next(c, b, steps[0]), steps[1..], end);
    }
  }

  /** Nothing waits in the channel or in a live batch, and nothing was lost before. */
  ghost predicate NothingPending(b: Bus) {
    b.ch == [] && Held(b.workers, false) == 0 && Failed(b) == [] && Held(b.workers, true) == 0
  }

  /** The drain at shutdown saves no event: from the moment of cancellation on, the loss is what was
      pending then, so shutdown is free of loss exactly when nothing was. */
  lemma ShutdownIsLossless(r: Rules, c: Config, workers: int, before: seq<Action>, b: Bus, after: seq<Action>, end: Bus)
    requires r == Rules(true, RefusesCancelled)
    requires Runs(r, c, Started(workers), before, b) && b.cancelled
    requires Runs(r, c, b, after, end)
    ensures |end.accepted| - end.total == |b.ch| + Held(b.workers, false) + |Failed(b)| + Held(b.workers, true)
    ensures end.total == |end.accepted| <==> NothingPending(b)
  {
    ExactlyOnce(r, c, workers, before, b);
    NothingStoredAfterCancel(r, c, b, after, end);
  }

  /** One event submitted, then Stop: the worker takes it in the drain loop and leaves with it. */
  lemma StopLosesAnEvent(iv: Interaction, kind: StoreKind)
    ensures exists steps, end ::
      Runs(Rules(true, kind), Config(4096, 64), Started(1), steps, end)
      && AllExited(end) && end.accepted == [iv] && end.total == 0 && Stored(end) == []
  {
    var r, start := Rules(true, kind), Started(1);
    assert start.workers == [Worker(Selecting, [])];
    var b := start.(ch := [iv], accepted := [iv], submitted := 1);
    var steps, end := StopWhilePending(iv, kind, b);
    StepThenRun(r, Config(4096, 64), start, Submit(iv), b, steps, end);
  }

  lemma StopWhilePending(iv: Interaction, kind: StoreKind, b: Bus) returns (steps: seq<Action>, end: Bus)
    requires b == Started(1).(ch := [iv], accepted := [iv], submitted := 1)
    ensures Runs(Rules(true, kind), Config(4096, 64), b, steps, end)
    ensures AllExited(end) && end.accepted == [iv] && end.total == 0 && Stored(end) == []
  {
    hide Runs;
    var c, r := Config(4096, 64), Rules(true, kind);
    var b2 := b.(cancelled := true);
    var b3 := b2.(closed := true);
    var b4 := b3.(workers := [Worker(Flushing(ToDrain), [])]);
    steps, end := DrainWithoutFlush(iv, kind, b4);
    assert b3.workers == [Worker(Selecting, [])];
    StepThenRun(r, c, b3, SeeDone(0), b4, steps, end);
    steps := [SeeDone(0)] + steps;
    StepThenRun(r, c, b2, Close, b3, steps, end);
    steps := [Close] + steps;
    StepThenRun(r, c, b, Cancel, b2, steps, end);
    steps := [Cancel] + steps;
  }

  lemma DrainWithoutFlush(iv: Interaction, kind: StoreKind, b: Bus) returns (steps: seq<Action>, end: Bus)
    requires b.ch == [iv] && b.cancelled && b.closed && b.workers == [Worker(Flushing(ToDrain), [])]
    ensures Runs(Rules(true, kind), Config(4096, 64), b, steps, end)
    ensures end == b.(ch := [], workers := [Worker(Exited, [iv])])
  {
    var c, r := Config(4096, 64), Rules(true, kind);
    var flush := Flush(0, kind != RefusesCancelled, [], 0);
    var b5 := b.(workers := [Worker(Draining, [])]);
    var b6 := b5.(ch := [], workers := [Worker(Draining, [iv])]);
    end := b6.(workers := [Worker(Exited, [iv])]);
    assert Runs(r, c, end, [], end);
    assert b5.ch[1..] == [] && b5.workers[0].batch + [b5.ch[0]] == [iv];
    assert Next(c, b5, DrainReceive(0)) == b6;
    hide Runs;
    StepThenRun(r, c, b6, DrainClosed(0), end, [], end);
    StepThenRun(r, c, b5, DrainReceive(0), b6, [DrainClosed(0)] + [], end);
    steps := [DrainReceive(0)] + ([DrainClosed(0)] + []);
    StepThenRun(r, c, b, flush, b5, steps, end);
    steps := [flush] + steps;
  }

  lemma StepThenRun(r: Rules, c: Config, b: Bus, a: Action, n: Bus, steps: seq<Action>, end: Bus)
    requires Permitted(r, b, a) && Next(c, b, a) == n && Runs(r, c, n, steps, end)
    ensures Runs(r, c, b, [a] + steps, end)
  {
    assert ([a] + steps)[1..] == steps;
  }
}
