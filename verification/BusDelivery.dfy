/** What reaches the store: no event is stuck while a worker is running, and with a store that never fails
    shutdown keeps every batch that was started before it. */
module BusDelivery {
  import opened Models
  import opened EventBus
  import opened BusShutdown
  import opened BusLoss

  /** Flushing a worker's batch adds it to what is stored. */
  lemma FlushStores(c: Config, b: Bus, w: nat) returns (a: Action, end: Bus)
    requires w < |b.workers| && b.workers[w].phase == Flushing(ToSelect)
    ensures Permitted(RULES, b, a) && end == Next(c, b, a)
    ensures end.workers[w] == Worker(Selecting, []) && OthersKept(b, end, w)
    ensures end.ch == b.ch && end.accepted == b.accepted && end.cancelled == b.cancelled && end.closed == b.closed
    ensures end.total == b.total + |b.workers[w].batch| && Stored(end) == Stored(b) + b.workers[w].batch
  {
    hide WithOutcome;
    var batch := b.workers[w].batch;
    a := Flush(w, true, seq(|batch|, _ => 0), 0);
    end := Next(c, b, a);
    StoredGrows(b.attempts, batch, a.clock);
  }

  lemma StoredGrows(attempts: seq<Attempt>, batch: seq<Interaction>, clock: seq<Time>)
    ensures WithOutcome(if batch == [] then attempts else attempts + [Attempt(batch, true, clock, 0)], true)
         == WithOutcome(attempts, true) + batch
  {
    AttemptsSnoc(attempts, Attempt(batch, true, clock, 0), true);
  }

  /** A worker takes one event from the channel, and flushes if that fills its batch. */
  lemma TakeOne(c: Config, b: Bus, w: nat) returns (steps: seq<Action>, end: Bus)
    requires w < |b.workers| && b.workers[w].phase == Selecting && |b.workers[w].batch| < c.batch && b.ch != []
    ensures Runs(RULES, c, b, steps, end) && OthersKept(b, end, w)
    ensures end.workers[w].phase == Selecting && |end.workers[w].batch| < c.batch && end.ch == b.ch[1..]
    ensures end.accepted == b.accepted && end.cancelled == b.cancelled && end.closed == b.closed
    ensures end.total + |end.workers[w].batch| == b.total + |b.workers[w].batch| + 1
    ensures Stored(end) + end.workers[w].batch == Stored(b) + (b.workers[w].batch + [b.ch[0]])
  {
    hide Stored;
    var a := Receive(w);
    var mid := Next(c, b, a);
    OneStep(c, b, a);
    SameStored(b, mid);
    if mid.workers[w].phase == Selecting {
      steps, end := [a], mid;
    } else {
      var f;
      f, end := FlushStores(c, mid, w);
      OneStep(c, mid, f);
      hide Runs;
      RunsAppend(c, b, [a], mid, [f], end);
      steps := [a] + [f];
      assert Stored(end) + [] == Stored(end);
    }
  }

  lemma SameStored(b: Bus, n: Bus)
    requires n.attempts == b.attempts
    ensures Stored(n) == Stored(b)
  {
  }

  /** One running worker can bring its batch and everything in the channel to the store, in order, with the
      next tick: an event that was accepted is stuck nowhere. */
  lemma {:induction false} Deliver(c: Config, b: Bus, w: nat) returns (steps: seq<Action>, end: Bus)
    requires w < |b.workers| && b.workers[w].phase == Selecting && |b.workers[w].batch| < c.batch
    ensures Runs(RULES, c, b, steps, end) && OthersKept(b, end, w)
    ensures end.ch == [] && end.workers[w] == Worker(Selecting, [])
    ensures end.accepted == b.accepted && end.cancelled == b.cancelled && end.closed == b.closed
    ensures end.total == b.total + |b.workers[w].batch| + |b.ch|
    ensures Stored(end) == Stored(b) + b.workers[w].batch + b.ch
    decreases |b.ch|
  {
    hide Stored, Runs;
    if b.ch == [] {
      var a := Tick(w);
      var mid := Next(c, b, a);
      OneStep(c, b, a);
      SameStored(b, mid);
      var f;
      f, end := FlushStores(c, mid, w);
      OneStep(c, mid, f);
      RunsAppend(c, b, [a], mid, [f], end);
      steps := [a] + [f];
    } else {
      var first, mid := TakeOne(c, b, w);
      var rest;
      rest, end := Deliver(c, mid, w);
      RunsAppend(c, b, first, mid, rest, end);
      steps := first + rest;
      assert b.ch == [b.ch[0]] + b.ch[1..];
      assert Stored(b) + (b.workers[w].batch + [b.ch[0]]) + b.ch[1..]
          == Stored(b) + b.workers[w].batch + ([b.ch[0]] + b.ch[1..]);
    }
  }

  // ---- Batches that shutdown keeps ----

  /** How often an event occurs in the batches of the workers outside the drain loop. */
  function Kept(workers: seq<Worker>, iv: Interaction): nat {
    if workers == [] then 0 else KeptShare(workers[0], iv) + Kept(workers[1..], iv)
  }

  function KeptShare(worker: Worker, iv: Interaction): nat {
    if worker.phase == Draining || worker.phase.Exited? then 0 else Times(worker.batch, iv)
  }

  lemma {:induction false} KeptUpdate(workers: seq<Worker>, w: nat, worker: Worker, iv: Interaction)
    requires w < |workers|
    ensures Kept(workers[w := worker], iv) == Kept(workers, iv) - KeptShare(workers[w], iv) + KeptShare(worker, iv)
  {
    hide KeptShare;
    if w == 0 {
      assert workers[w := worker][1..] == workers[1..];
    } else {
      KeptUpdate(workers[1..], w - 1, worker, iv);
      assert workers[w := worker][1..] == workers[1..][w - 1 := worker];
    }
  }

  /** No step gives up an event that a worker holds outside the drain loop. */
  lemma KeptStep(r: Rules, c: Config, b: Bus, a: Action, iv: Interaction)
    requires r.store == NeverFails && Permitted(r, b, a)
    ensures Times(Stored(Next(c, b, a)), iv) + Kept(Next(c, b, a).workers, iv)
         >= Times(Stored(b), iv) + Kept(b.workers, iv)
  {
    hide Times, Kept, WithOutcome;
    var n := Next(c, b, a);
    match a
    case Submit(_) =>
    case Cancel =>
    case Close =>
    case Receive(w) => KeptTaken(b, w, n.workers[w], iv);
    case DrainReceive(w) => KeptTaken(b, w, n.workers[w], iv);
    case Flush(w, _, clock, skipped) =>
      KeptUpdate(b.workers, w, n.workers[w], iv);
      TimesNone(iv);
      OutcomesAfter(b.attempts, Attempt(b.workers[w].batch, true, clock, skipped), true, iv);
    case _ => KeptUpdate(b.workers, a.w, n.workers[a.w], iv);
  }

  lemma KeptTaken(b: Bus, w: nat, worker: Worker, iv: Interaction)
    requires w < |b.workers| && b.ch != [] && worker.batch == b.workers[w].batch + [b.ch[0]]
    requires b.workers[w].phase in {Selecting, Draining}
    requires b.workers[w].phase == Selecting ==> worker.phase != Draining && !worker.phase.Exited?
    ensures Kept(b.workers[w := worker], iv) >= Kept(b.workers, iv)
  {
    hide Times, Kept;
    KeptUpdate(b.workers, w, worker, iv);
    TimesAppend(b.workers[w].batch, [b.ch[0]], iv);
  }

  lemma {:induction false} KeptRun(r: Rules, c: Config, b: Bus, steps: seq<Action>, end: Bus, iv: Interaction)
    requires r.store == NeverFails && Runs(r, c, b, steps, end)
    ensures Times(Stored(end), iv) + Kept(end.workers, iv) >= Times(Stored(b), iv) + Kept(b.workers, iv)
    decreases |steps|
  {
    if steps != [] {
      hide Times, Stored, Kept, Next;
      KeptStep(r, c, b, steps[0], iv);
      KeptRun(r, c, Next(c, b, steps[0]), steps[1..], end, iv);
    }
  }

  /** Workers drain or leave only once the bus is cancelled. */
  ghost predicate LeaveWhenCancelled(b: Bus) {
    && (b.closed ==> b.cancelled)
    && forall w :: 0 <= w < |b.workers| ==>
         b.workers[w].phase in {Selecting, Flushing(ToSelect)} || b.cancelled
  }

  lemma {:induction false} NoneLeavesBefore(r: Rules, c: Config, b: Bus, steps: seq<Action>, end: Bus)
    requires LeaveWhenCancelled(b) && Runs(r, c, b, steps, end)
    ensures LeaveWhenCancelled(end)
    decreases |steps|
  {
    if steps != [] {
      LeaveStep(c, b, steps[0]);
      hide LeaveWhenCancelled, Next;
      NoneLeavesBefore(r, c, Next(c, b, steps[0]), steps[1..], end);
    }
  }

  lemma LeaveStep(c: Config, b: Bus, a: Action)
    requires LeaveWhenCancelled(b) && Enabled(b, a)
    ensures LeaveWhenCancelled(Next(c, b, a))
  {
  }

  lemma {:induction false} AllKept(workers: seq<Worker>, iv: Interaction)
    requires forall w :: 0 <= w < |workers| ==> workers[w].phase in {Selecting, Flushing(ToSelect)}
    ensures Kept(workers, iv) == InBatches(workers, false, iv)
  {
    if workers != [] {
      AllKept(workers[1..], iv);
    }
  }

  lemma {:induction false} NoneKept(workers: seq<Worker>, iv: Interaction)
    requires forall w :: 0 <= w < |workers| ==> workers[w].phase.Exited?
    ensures Kept(workers, iv) == 0
  {
    if workers != [] {
      NoneKept(workers[1..], iv);
    }
  }

  /** With a store that never fails, the batches that the workers held at any moment before Stop are all
      stored once every worker has exited: shutdown can lose only what was in the channel or came later. */
  lemma BatchesAreStored(r: Rules, c: Config, workers: int, before: seq<Action>, b: Bus, after: seq<Action>, end: Bus)
    requires r.store == NeverFails
    requires Runs(r, c, Started(workers), before, b) && !b.cancelled
    requires Runs(r, c, b, after, end) && AllExited(end)
    ensures forall iv :: Times(Stored(end), iv) >= Times(Stored(b), iv) + InBatches(b.workers, false, iv)
  {
    NoneLeavesBefore(r, c, Started(workers), before, b);
    hide Times, Stored, Kept, InBatches;
    forall iv ensures Times(Stored(end), iv) >= Times(Stored(b), iv) + InBatches(b.workers, false, iv) {
      KeptRun(r, c, b, after, end, iv);
      AllKept(b.workers, iv);
      NoneKept(end.workers, iv);
    }
  }

  // ---- Only the closed channel loses events ----

  ghost predicate EmptyHanded(b: Bus) {
    forall w :: 0 <= w < |b.workers| && b.workers[w].phase.Exited? ==> b.workers[w].batch == []
  }

  lemma {:induction false} StaysClosed(r: Rules, c: Config, b: Bus, steps: seq<Action>, end: Bus)
    requires b.closed && Runs(r, c, b, steps, end)
    ensures end.closed
    decreases |steps|
  {
    if steps != [] {
      StaysClosed(r, c, Next(c, b, steps[0]), steps[1..], end);
    }
  }

  lemma {:induction false} RunEmptyHanded(r: Rules, c: Config, b: Bus, steps: seq<Action>, end: Bus)
    requires EmptyHanded(b) && Runs(r, c, b, steps, end) && !end.closed
    ensures EmptyHanded(end)
    decreases |steps|
  {
    if steps != [] {
      var n := Next(c, b, steps[0]);
      if n.closed {
        StaysClosed(r, c, n, steps[1..], end);
      }
      LeavesEmptyHanded(c, b, steps[0]);
      hide EmptyHanded;
      RunEmptyHanded(r, c, n, steps[1..], end);
    }
  }

  lemma LeavesEmptyHanded(c: Config, b: Bus, a: Action)
    requires EmptyHanded(b) && Enabled(b, a) && !Next(c, b, a).closed
    ensures EmptyHanded(Next(c, b, a))
  {
    forall w | 0 <= w < |b.workers| && !b.workers[w].phase.Exited? && Next(c, b, a).workers[w].phase.Exited?
      ensures Next(c, b, a).workers[w].batch == []
    {
      if Next(c, b, a).workers[w].batch != [] {
        OnlyDrainAbandons(c, b, a, w);
      }
    }
  }

  /** With a store that never fails and no submission after cancellation: where the channel is not closed, a
      bus whose workers have all exited has stored every event it accepted. */
  lemma CancelAloneLosesNothing(r: Rules, c: Config, workers: int, steps: seq<Action>, end: Bus)
    requires c.batch > 0 && r == Rules(true, NeverFails)
    requires Runs(r, c, Started(workers), steps, end) && AllExited(end) && !end.closed
    ensures end.total == |end.accepted|
    ensures multiset(Stored(end)) == multiset(end.accepted)
  {
    RunEmptyHanded(r, c, Started(workers), steps, end);
    ShutdownLossBound(r, c, workers, steps, end);
    ExactlyOnce(r, c, workers, steps, end);
    hide Runs, Stored, Failed;
    assert forall w :: 0 <= w < |end.workers| ==> end.workers[w].batch == [];
    var any: Interaction :| true;
    IdleBatches(end.workers, false, any);
    IdleBatches(end.workers, true, any);
    forall iv ensures multiset(Stored(end))[iv] == multiset(end.accepted)[iv] {
      assert AccountedFor(end, iv);
      IdleBatches(end.workers, false, iv);
      IdleBatches(end.workers, true, iv);
    }
  }
}
