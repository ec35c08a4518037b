/** The event bus as a step system: a bounded channel, workers with private batches, a ticker, and
    shutdown. Every step is one atomic move of one goroutine; any interleaving is a run. */
module EventBus {
  import opened Models

  /** Where a worker goes once it has flushed. */
  datatype Then = ToSelect | ToDrain | ToExit

  /** Selecting is the main loop, Draining the inner loop after cancellation. */
  datatype Phase = Selecting | Draining | Flushing(next: Then) | Exited

  /** A batch that an exited worker still holds is abandoned. */
  datatype Worker = Worker(phase: Phase, batch: seq<Interaction>)

  /** One call of the store by a worker. `skipped` ids were taken by other records before it. */
  datatype Attempt = Attempt(events: seq<Interaction>, ok: bool, clock: seq<Time>, skipped: nat)

  /** What is buffered, plus the history: accepted events in order, store calls in order, counters. */
  datatype Bus = Bus(
    ch: seq<Interaction>,
    workers: seq<Worker>,
    cancelled: bool,
    closed: bool,
    submitted: nat,
    dropped: nat,
    total: nat,
    accepted: seq<Interaction>,
    attempts: seq<Attempt>)

  datatype Config = Config(buffer: nat, batch: nat)

  datatype Action =
    | Submit(iv: Interaction)
    | Cancel
    | Close
    | Receive(w: nat)
    | ReceiveClosed(w: nat)
    | Tick(w: nat)
    | SeeDone(w: nat)
    | DrainReceive(w: nat)
    | DrainClosed(w: nat)
    | DrainEmpty(w: nat)
    | Flush(w: nat, ok: bool, clock: seq<Time>, skipped: nat)

  const DEFAULT_BUFFER := 4096
  const DEFAULT_BATCH := 64
  const DEFAULT_WORKERS := 4

  function Configure(buffer: int, batch: int): (c: Config)
    ensures c.buffer > 0 && c.batch > 0
  {
    Config(if buffer <= 0 then DEFAULT_BUFFER else buffer, if batch <= 0 then DEFAULT_BATCH else batch)
  }

  function Started(workers: int): (b: Bus)
    ensures |b.workers| > 0
  {
    var n := if workers <= 0 then DEFAULT_WORKERS else workers;
    Bus([], seq(n, _ => Worker(Selecting, [])), false, false, 0, 0, 0, [], [])
  }

  predicate InPhase(b: Bus, w: nat, phase: Phase) {
    w < |b.workers| && b.workers[w].phase == phase
  }

  /** When a step can happen. Sending on a closed channel panics, so there is no Submit after Close. */
  predicate Enabled(b: Bus, a: Action) {
    match a
    case Submit(_) => !b.closed
    case Cancel => !b.cancelled
    case Close => b.cancelled && !b.closed
    case Receive(w) => InPhase(b, w, Selecting) && b.ch != []
    case ReceiveClosed(w) => InPhase(b, w, Selecting) && b.ch == [] && b.closed
    case Tick(w) => InPhase(b, w, Selecting)
    case SeeDone(w) => InPhase(b, w, Selecting) && b.cancelled
    case DrainReceive(w) => InPhase(b, w, Draining) && b.ch != []
    case DrainClosed(w) => InPhase(b, w, Draining) && b.ch == [] && b.closed
    case DrainEmpty(w) => InPhase(b, w, Draining) && b.ch == [] && !b.closed
    case Flush(w, _, clock, _) =>
      w < |b.workers| && b.workers[w].phase.Flushing? && |clock| == |b.workers[w].batch|
  }

  function Afterwards(next: Then): Phase {
    match next
    case ToSelect => Selecting
    case ToDrain => Draining
    case ToExit => Exited
  }

  function Moved(b: Bus, w: nat, phase: Phase): Bus
    requires w < |b.workers|
  {
    b.(workers := b.workers[w := b.workers[w].(phase := phase)])
  }

  /** Takes the head of the channel into the batch, and flushes once the batch is full. */
  function Taken(c: Config, b: Bus, w: nat, next: Then): Bus
    requires w < |b.workers| && b.ch != []
  {
    var batch := b.workers[w].batch + [b.ch[0]];
    var phase := if |batch| >= c.batch then Flushing(next) else Afterwards(next);
    b.(ch := b.ch[1..], workers := b.workers[w := Worker(phase, batch)])
  }

  /** Empties the batch of a worker into the given store call; an empty batch makes no call. */
  function Flushed(b: Bus, w: nat, attempt: Attempt): Bus
    requires w < |b.workers| && b.workers[w].phase.Flushing?
  {
    var worker := Worker(Afterwards(b.workers[w].phase.next), []);
    b.(workers := b.workers[w := worker],
       attempts := if attempt.events == [] then b.attempts else b.attempts + [attempt],
       total := b.total + if attempt.ok then |attempt.events| else 0)
  }

  function Next(c: Config, b: Bus, a: Action): Bus
    requires Enabled(b, a)
  {
    match a
    case Submit(iv) =>
      if |b.ch| < c.buffer then b.(ch := b.ch + [iv], accepted := b.accepted + [iv], submitted := b.submitted + 1)
      else b.(dropped := b.dropped + 1, submitted := b.submitted + 1)
    case Cancel => b.(cancelled := true)
    case Close => b.(closed := true)
    case Receive(w) => Taken(c, b, w, ToSelect)
    case ReceiveClosed(w) => Moved(b, w, Flushing(ToExit))
    case Tick(w) => Moved(b, w, Flushing(ToSelect))
    case SeeDone(w) => Moved(b, w, Flushing(ToDrain))
    case DrainReceive(w) => Taken(c, b, w, ToDrain)
    case DrainClosed(w) => Moved(b, w, Exited)
    case DrainEmpty(w) => Moved(b, w, Flushing(ToExit))
    case Flush(w, ok, clock, skipped) =>
      Flushed(b, w, Attempt(b.workers[w].batch, ok, clock, skipped))
  }

  /** What is assumed of the store: it never fails, or it refuses calls on a cancelled context. */
  datatype StoreKind = AnyStore | NeverFails | RefusesCancelled

  /** `orderly` means that nothing is submitted once shutdown has begun. */
  datatype Rules = Rules(orderly: bool, store: StoreKind)

  predicate Permitted(r: Rules, b: Bus, a: Action) {
    && Enabled(b, a)
    && (r.orderly && b.cancelled ==> !a.Submit?)
    && (a.Flush? ==> match r.store
                     case AnyStore => true
                     case NeverFails => a.ok
                     case RefusesCancelled => a.ok ==> !b.cancelled)
  }

  ghost predicate Runs(r: Rules, c: Config, b: Bus, steps: seq<Action>, end: Bus)
    decreases |steps|
  {
    if steps == [] then end == b
    else Permitted(r, b, steps[0]) && Runs(r, c, Next(c, b, steps[0]), steps[1..], end)
  }

  /** One more step at the end of a run. */
  lemma {:induction false} RunsSnoc(r: Rules, c: Config, b: Bus, steps: seq<Action>, mid: Bus, a: Action)
    requires Runs(r, c, b, steps, mid) && Permitted(r, mid, a)
    ensures Runs(r, c, b, steps + [a], Next(c, mid, a))
    decreases |steps|
  {
    hide Next, Enabled;
    if steps == [] {
      assert [] + [a] == [a] && [a][1..] == [];
    } else {
      RunsSnoc(r, c, Next(c, b, steps[0]), steps[1..], mid, a);
      assert (steps + [a])[1..] == steps[1..] + [a];
    }
  }

  // ---- Where the events are ----

  function Handed(attempts: seq<Attempt>): seq<Interaction> {
    if attempts == [] then [] else Handed(attempts[..|attempts| - 1]) + attempts[|attempts| - 1].events
  }

  /** The events of the store calls with the given outcome, in call order. */
  function WithOutcome(attempts: seq<Attempt>, ok: bool): seq<Interaction> {
    if attempts == [] then []
    else
      var last := attempts[|attempts| - 1];
      WithOutcome(attempts[..|attempts| - 1], ok) + if last.ok == ok then last.events else []
  }

  function Stored(b: Bus): seq<Interaction> {
    WithOutcome(b.attempts, true)
  }

  function Failed(b: Bus): seq<Interaction> {
    WithOutcome(b.attempts, false)
  }

  /** How often an event occurs in a sequence. */
  function Times(s: seq<Interaction>, iv: Interaction): nat {
    multiset(s)[iv]
  }

  function Share(worker: Worker, exited: bool, iv: Interaction): nat {
    if worker.phase.Exited? == exited then Times(worker.batch, iv) else 0
  }

  /** How often an event occurs in the batches of the workers that have exited, or have not. */
  function InBatches(workers: seq<Worker>, exited: bool, iv: Interaction): nat {
    if workers == [] then 0 else Share(workers[0], exited, iv) + InBatches(workers[1..], exited, iv)
  }

  /** How many events the batches of the workers that have exited, or have not, hold together. */
  function Held(workers: seq<Worker>, exited: bool): nat {
    if workers == [] then 0
    else (if workers[0].phase.Exited? == exited then |workers[0].batch| else 0) + Held(workers[1..], exited)
  }

  /** Each accepted event is in exactly one of: the channel, the batch of a live worker, the stored
      events, the events of a failed flush, an abandoned batch. */
  ghost predicate AccountedFor(b: Bus, iv: Interaction) {
    Times(b.accepted, iv)
    == Times(b.ch, iv) + InBatches(b.workers, false, iv) + Times(Stored(b), iv) + Times(Failed(b), iv)
       + InBatches(b.workers, true, iv)
  }

  ghost predicate Accounted(b: Bus) {
    forall iv :: AccountedFor(b, iv)
  }

  /** Submissions are accepted or counted as dropped, and the total counts what was stored. */
  ghost predicate Balanced(b: Bus) {
    && b.submitted == |b.accepted| + b.dropped
    && b.total == |Stored(b)|
    && |b.accepted| == |b.ch| + Held(b.workers, false) + |Stored(b)| + |Failed(b)| + Held(b.workers, true)
  }

  lemma {:induction false} BatchesUpdate(workers: seq<Worker>, w: nat, worker: Worker, exited: bool, iv: Interaction)
    requires w < |workers|
    ensures InBatches(workers[w := worker], exited, iv)
         == InBatches(workers, exited, iv) - Share(workers[w], exited, iv) + Share(worker, exited, iv)
    ensures Held(workers[w := worker], exited)
         == Held(workers, exited) - (if workers[w].phase.Exited? == exited then |workers[w].batch| else 0)
            + if worker.phase.Exited? == exited then |worker.batch| else 0
  {
    if w == 0 {
      assert workers[w := worker][1..] == workers[1..];
    } else {
      BatchesUpdate(workers[1..], w - 1, worker, exited, iv);
      assert workers[w := worker][1..] == workers[1..][w - 1 := worker];
    }
  }

  lemma TimesAppend(a: seq<Interaction>, b: seq<Interaction>, iv: Interaction)
    ensures Times(a + b, iv) == Times(a, iv) + Times(b, iv)
  {
  }

  lemma AttemptsSnoc(attempts: seq<Attempt>, last: Attempt, ok: bool)
    ensures WithOutcome(attempts + [last], ok) == WithOutcome(attempts, ok) + if last.ok == ok then last.events else []
    ensures Handed(attempts + [last]) == Handed(attempts) + last.events
  {
    assert (attempts + [last])[..|attempts|] == attempts;
  }

  lemma AccountedStep(c: Config, b: Bus, a: Action, iv: Interaction)
    requires Enabled(b, a) && AccountedFor(b, iv) && Balanced(b)
    ensures AccountedFor(Next(c, b, a), iv) && Balanced(Next(c, b, a))
  {
    hide Times;
    match a {
      case Submit(e) => TimesAppend(b.accepted, [e], iv); TimesAppend(b.ch, [e], iv);
      case Cancel =>
      case Close =>
      case Receive(w) => TakenAccounted(c, b, w, ToSelect, iv);
      case DrainReceive(w) => TakenAccounted(c, b, w, ToDrain, iv);
      case Flush(w, ok, clock, skipped) =>
        FlushAccounted(b, w, Attempt(b.workers[w].batch, ok, clock, skipped), iv);
      case _ => MovedAccounted(b, a.w, Next(c, b, a).workers[a.w].phase, iv);
    }
  }

  lemma MovedAccounted(b: Bus, w: nat, phase: Phase, iv: Interaction)
    requires w < |b.workers| && !b.workers[w].phase.Exited? && AccountedFor(b, iv) && Balanced(b)
    ensures AccountedFor(Moved(b, w, phase), iv) && Balanced(Moved(b, w, phase))
  {
    hide Times, InBatches, Held;
    var worker := b.workers[w].(phase := phase);
    BatchesUpdate(b.workers, w, worker, false, iv);
    BatchesUpdate(b.workers, w, worker, true, iv);
  }

  lemma TakenAccounted(c: Config, b: Bus, w: nat, next: Then, iv: Interaction)
    requires w < |b.workers| && b.ch != [] && !b.workers[w].phase.Exited? && next != ToExit
    requires AccountedFor(b, iv) && Balanced(b)
    ensures AccountedFor(Taken(c, b, w, next), iv) && Balanced(Taken(c, b, w, next))
  {
    hide Times, InBatches, Held;
    var worker := Taken(c, b, w, next).workers[w];
    BatchesUpdate(b.workers, w, worker, false, iv);
    BatchesUpdate(b.workers, w, worker, true, iv);
    TimesAppend(b.workers[w].batch, [b.ch[0]], iv);
    TimesAppend([b.ch[0]], b.ch[1..], iv);
    assert b.ch == [b.ch[0]] + b.ch[1..];
  }

  lemma FlushAccounted(b: Bus, w: nat, attempt: Attempt, iv: Interaction)
    requires w < |b.workers| && b.workers[w].phase.Flushing? && attempt.events == b.workers[w].batch
    requires AccountedFor(b, iv) && Balanced(b)
    ensures AccountedFor(Flushed(b, w, attempt), iv) && Balanced(Flushed(b, w, attempt))
  {
    TimesNone(iv);
    hide Times, InBatches, Held, WithOutcome;
    var worker := Flushed(b, w, attempt).workers[w];
    BatchesUpdate(b.workers, w, worker, false, iv);
    BatchesUpdate(b.workers, w, worker, true, iv);
    if attempt.events != [] {
      OutcomesAfter(b.attempts, attempt, true, iv);
      OutcomesAfter(b.attempts, attempt, false, iv);
    }
  }

  lemma TimesNone(iv: Interaction)
    ensures Times([], iv) == 0
  {
  }

  lemma OutcomesAfter(attempts: seq<Attempt>, last: Attempt, ok: bool, iv: Interaction)
    ensures var after := WithOutcome(attempts + [last], ok);
      && Times(after, iv)
         == Times(WithOutcome(attempts, ok), iv) + (if last.ok == ok then Times(last.events, iv) else 0)
      && |after| == |WithOutcome(attempts, ok)| + if last.ok == ok then |last.events| else 0
  {
    AttemptsSnoc(attempts, last, ok);
    TimesAppend(WithOutcome(attempts, ok), if last.ok == ok then last.events else [], iv);
  }

  lemma {:induction false} RunAccounted(r: Rules, c: Config, b: Bus, steps: seq<Action>, end: Bus, iv: Interaction)
    requires AccountedFor(b, iv) && Balanced(b) && Runs(r, c, b, steps, end)
    ensures AccountedFor(end, iv) && Balanced(end)
    decreases |steps|
  {
    if steps != [] {
      hide AccountedFor, Balanced, Next;
      AccountedStep(c, b, steps[0], iv);
      RunAccounted(r, c, Next(c, b, steps[0]), steps[1..], end, iv);
    }
  }

  lemma {:induction false} IdleBatches(workers: seq<Worker>, exited: bool, iv: Interaction)
    requires forall w :: 0 <= w < |workers| ==> workers[w].batch == []
    ensures InBatches(workers, exited, iv) == 0 && Held(workers, exited) == 0
  {
    if workers != [] {
      IdleBatches(workers[1..], exited, iv);
    }
  }

  /** Exactly once, in every reachable state, for any number of workers and any interleaving. */
  lemma ExactlyOnce(r: Rules, c: Config, workers: int, steps: seq<Action>, end: Bus)
    requires Runs(r, c, Started(workers), steps, end)
    ensures Accounted(end) && Balanced(end)
  {
    forall iv ensures AccountedFor(end, iv) && Balanced(end) {
      IdleBatches(Started(workers).workers, false, iv);
      IdleBatches(Started(workers).workers, true, iv);
      RunAccounted(r, c, Started(workers), steps, end, iv);
    }
    var any: Interaction := Interaction(0, "", 0, "", "", "", "", "", "", "", 0);
    assert AccountedFor(end, any);
  }

  // ---- Order, with a single worker ----

  ghost predicate InOrder(b: Bus) {
    |b.workers| == 1 && b.accepted == Handed(b.attempts) + b.workers[0].batch + b.ch
  }

  lemma InOrderStep(c: Config, b: Bus, a: Action)
    requires Enabled(b, a) && InOrder(b)
    ensures InOrder(Next(c, b, a))
  {
    hide Handed, Taken, Flushed;
    match a
    case Submit(iv) => assert Handed(b.attempts) + b.workers[0].batch + b.ch + [iv]
                           == Handed(b.attempts) + b.workers[0].batch + (b.ch + [iv]);
    case Receive(w) => TakenInOrder(c, b, ToSelect);
    case DrainReceive(w) => TakenInOrder(c, b, ToDrain);
    case Flush(w, ok, clock, skipped) => FlushedInOrder(b, Attempt(b.workers[0].batch, ok, clock, skipped));
    case _ =>
  }

  lemma TakenInOrder(c: Config, b: Bus, next: Then)
    requires InOrder(b) && b.ch != []
    ensures InOrder(Taken(c, b, 0, next))
  {
    hide Handed;
    assert b.ch == [b.ch[0]] + b.ch[1..];
    assert Handed(b.attempts) + b.workers[0].batch + ([b.ch[0]] + b.ch[1..])
        == Handed(b.attempts) + (b.workers[0].batch + [b.ch[0]]) + b.ch[1..];
  }

  lemma FlushedInOrder(b: Bus, attempt: Attempt)
    requires InOrder(b) && b.workers[0].phase.Flushing? && attempt.events == b.workers[0].batch
    ensures InOrder(Flushed(b, 0, attempt))
  {
    hide Handed;
    AttemptsSnoc(b.attempts, attempt, true);
    assert Handed(b.attempts) + attempt.events + b.ch == Handed(b.attempts) + attempt.events + [] + b.ch;
  }

  lemma {:induction false} RunInOrder(r: Rules, c: Config, b: Bus, steps: seq<Action>, end: Bus)
    requires InOrder(b) && Runs(r, c, b, steps, end)
    ensures InOrder(end)
    decreases |steps|
  {
    if steps != [] {
      hide InOrder, Next;
      InOrderStep(c, b, steps[0]);
      RunInOrder(r, c, Next(c, b, steps[0]), steps[1..], end);
    }
  }

  lemma {:induction false} HandedIsStored(attempts: seq<Attempt>)
    requires forall i :: 0 <= i < |attempts| ==> attempts[i].ok
    ensures Handed(attempts) == WithOutcome(attempts, true)
  {
    if attempts != [] {
      HandedIsStored(attempts[..|attempts| - 1]);
    }
  }

  /** With one worker, what was handed to the store, the batch and the channel are the accepted events
      in order, at every moment, shutdown included; without failures the first part is what is stored. */
  lemma SingleWorkerOrder(r: Rules, c: Config, steps: seq<Action>, end: Bus)
    requires Runs(r, c, Started(1), steps, end)
    ensures |end.workers| == 1 && end.accepted == Handed(end.attempts) + end.workers[0].batch + end.ch
    ensures (forall i :: 0 <= i < |end.attempts| ==> end.attempts[i].ok) ==>
              end.accepted == Stored(end) + end.workers[0].batch + end.ch
  {
    RunInOrder(r, c, Started(1), steps, end);
    if forall i :: 0 <= i < |end.attempts| ==> end.attempts[i].ok {
      HandedIsStored(end.attempts);
    }
  }
}
