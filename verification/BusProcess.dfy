/** The bus as an object whose steps update its channel, its counters and the workers' batches, and whose
    flush calls the memory store. Each method is one step of the step system, so every state of the object
    is a state that a run of the step system reaches. */
module BusProcess {
  import opened Models
  import opened Sequences
  import opened CapRule
  import opened Arrivals
  import opened MemoryStores
  import opened StoreRuns
  import opened EventBus
  import opened EndToEnd

  /** The cases of a worker's select. */
  datatype Ready = Channel | Ticker | Done

  class EventQueue {
    const config: Config
    const store: MemoryStore
    var ch: seq<Interaction>
    var workers: seq<Worker>
    var cancelled: bool
    var closed: bool
    var dropped: nat
    var total: nat
    ghost var submitted: nat
    ghost var accepted: seq<Interaction>
    ghost var attempts: seq<Attempt>

    /** What is assumed of the callers, the workers asked for, and every step taken so far. */
    ghost const rules: Rules
    ghost const poolSize: int
    /** What the store held when the bus was made. */
    ghost const start: Table
    ghost var steps: seq<Action>

    ghost function State(): Bus
      reads this
    {
      Bus(ch, workers, cancelled, closed, submitted, dropped, total, accepted, attempts)
    }

    /** The bus has taken this step. */
    ghost predicate Took(was: Bus, a: Action)
      reads this
    {
      Enabled(was, a) && State() == Next(config, was, a)
    }

    /** The steps taken are a run of the step system that ends here, and the store, which shares no object
        with the bus, holds what the calls of that run leave. Other records may have drawn ids since. */
    ghost predicate Valid()
      reads this, store, store.orderRepr, store.tokenRepr
    {
      && rules.store == RefusesCancelled
      && Runs(rules, config, Started(poolSize), steps, State())
      && store.Valid() && this !in store.orderRepr && this !in store.tokenRepr
      && Ordered(start) && StoreHolds(start, attempts, store.caps, store.rows, store.nextID)
    }

    /** `orderly` says that the callers submit nothing once the bus has been cancelled. */
    constructor (store: MemoryStore, buffer: int, batch: int, workers: int, ghost orderly: bool)
      requires store.Valid()
      ensures Valid() && start == Table(store.rows, store.nextID) && this.store == store && rules.orderly == orderly
      ensures config == Config(if buffer > 0 then buffer else 4096, if batch > 0 then batch else 64)
      ensures |this.workers| == if workers > 0 then workers else 4
      ensures forall w :: 0 <= w < |this.workers| ==> this.workers[w] == Worker(Selecting, [])
      ensures ch == [] && !cancelled && !closed && dropped == total == 0
    {
      config := Configure(buffer, batch);
      this.store := store;
      rules, poolSize, start := Rules(orderly, RefusesCancelled), workers, Table(store.rows, store.nextID);
      ch, cancelled, closed, dropped, total := [], false, false, 0, 0;
      this.workers := Started(workers).workers;
      submitted, accepted, attempts, steps := 0, [], [], [];
    }

    /** Never blocks: a full channel drops the event. */
    method Submit(iv: Interaction) returns (ok: bool)
      requires Valid() && !closed && (rules.orderly ==> !cancelled)
      modifies this
      ensures Valid() && Took(old(State()), EventBus.Submit(iv))
      ensures ok <==> old(|ch|) < config.buffer
    {
      hide MemoryStore.Valid, Runs, StoreHolds;
      RunsSnoc(rules, config, Started(poolSize), steps, State(), EventBus.Submit(iv));
      steps := steps + [EventBus.Submit(iv)];
      submitted := submitted + 1;
      ok := |ch| < config.buffer;
      if ok {
        ch := ch + [iv];
        accepted := accepted + [iv];
      } else {
        dropped := dropped + 1;
      }
    }

    method Cancel()
      requires Valid() && !cancelled
      modifies this
      ensures Valid() && Took(old(State()), EventBus.Cancel)
    {
      hide MemoryStore.Valid, Runs, StoreHolds;
      RunsSnoc(rules, config, Started(poolSize), steps, State(), EventBus.Cancel);
      steps := steps + [EventBus.Cancel];
      cancelled := true;
    }

    method Close()
      requires Valid() && cancelled && !closed
      modifies this
      ensures Valid() && Took(old(State()), EventBus.Close)
    {
      hide MemoryStore.Valid, Runs, StoreHolds;
      RunsSnoc(rules, config, Started(poolSize), steps, State(), EventBus.Close);
      steps := steps + [EventBus.Close];
      closed := true;
    }

    method Take(w: nat, next: Then)
      requires w < |workers| && ch != []
      modifies `ch, `workers
      ensures State() == Taken(config, old(State()), w, next)
    {
      var batch := workers[w].batch + [ch[0]];
      ch := ch[1..];
      workers := workers[w := Worker(if |batch| >= config.batch then Flushing(next) else Afterwards(next), batch)];
    }

    /** One choice of a worker's main select among the cases that are ready: the channel, closed or not, the
        ticker, or cancellation. */
    method Select(w: nat, ready: Ready) returns (ghost a: Action)
      requires Valid() && w < |workers| && workers[w].phase == Selecting
      requires (ready == Channel ==> ch != [] || closed) && (ready == Done ==> cancelled)
      modifies this
      ensures Valid() && Took(old(State()), a)
      ensures a == match ready
                   case Channel => if old(ch) != [] then Receive(w) else ReceiveClosed(w)
                   case Ticker => Tick(w)
                   case Done => SeeDone(w)
    {
      hide MemoryStore.Valid, Runs, StoreHolds;
      a := match ready
           case Channel => if ch != [] then Receive(w) else ReceiveClosed(w)
           case Ticker => Tick(w)
           case Done => SeeDone(w);
      RunsSnoc(rules, config, Started(poolSize), steps, State(), a);
      steps := steps + [a];
      match ready {
        case Channel =>
          if ch != [] {
            Take(w, ToSelect);
          } else {
            workers := workers[w := workers[w].(phase := Flushing(ToExit))];
          }
        case Ticker => workers := workers[w := workers[w].(phase := Flushing(ToSelect))];
        case Done => workers := workers[w := workers[w].(phase := Flushing(ToDrain))];
      }
    }

    /** One round of the drain loop; the closed channel ends it without a flush. */
    method Drain(w: nat) returns (a: Action)
      requires Valid() && w < |workers| && workers[w].phase == Draining
      modifies this
      ensures Valid() && Took(old(State()), a)
      ensures a == DrainReceive(w) || a == DrainClosed(w) || a == DrainEmpty(w)
    {
      hide MemoryStore.Valid, Runs, StoreHolds;
      a := if ch != [] then DrainReceive(w) else if closed then DrainClosed(w) else DrainEmpty(w);
      RunsSnoc(rules, config, Started(poolSize), steps, State(), a);
      steps := steps + [a];
      if ch != [] {
        Take(w, ToDrain);
      } else if closed {
        workers := workers[w := workers[w].(phase := Exited)];
      } else {
        workers := workers[w := workers[w].(phase := Flushing(ToExit))];
      }
    }

    /** Hands the batch to the memory store, which refuses it once the bus is cancelled. */
    method FlushBatch(w: nat, clock: seq<Time>) returns (ghost a: Action)
      requires Valid() && CanFlush(w, clock)
      modifies this, store`nextID, store`interactions, store`idToElem, store`orderRepr, store`byToken, store`spines
      modifies store`idToTokenElem, store`tokenRepr, store`rows, store.orderRepr, store.tokenRepr
      ensures Valid() && Took(old(State()), a)
      ensures a == EventBus.Flush(w, !old(cancelled), clock, old(SkippedIds(start, attempts, store.caps, store.nextID)))
      ensures fresh(store.orderRepr - old(store.orderRepr)) && fresh(store.tokenRepr - old(store.tokenRepr))
      ensures old(store.AccountIdsHold()) ==> store.AccountIdsHold()
    {
      hide MemoryStore.Valid, Runs, StoreHolds, SkippedIds;
      var batch := workers[w].batch;
      ghost var attempt := Attempt(batch, !cancelled, clock, SkippedIds(start, attempts, store.caps, store.nextID));
      a := EventBus.Flush(w, !cancelled, clock, attempt.skipped);
      RunsSnoc(rules, config, Started(poolSize), steps, State(), a);
      if batch != [] {
        CallStore(batch, clock, attempt);
      }
      workers := workers[w := Worker(Afterwards(workers[w].phase.next), [])];
      steps := steps + [a];
    }

    /** One call of the store with a batch; what it stored is counted. */
    method CallStore(batch: seq<Interaction>, clock: seq<Time>, ghost attempt: Attempt)
      requires batch != [] && |clock| == |batch|
      requires attempt == Attempt(batch, !cancelled, clock, SkippedIds(start, attempts, store.caps, store.nextID))
      requires store.Valid() && this !in store.orderRepr && this !in store.tokenRepr
      requires StoreHolds(start, attempts, store.caps, store.rows, store.nextID)
      modifies `total, `attempts, store`nextID, store`interactions, store`idToElem, store`orderRepr, store`byToken
      modifies store`spines, store`idToTokenElem, store`tokenRepr, store`rows, store.orderRepr, store.tokenRepr
      ensures store.Valid() && this !in store.orderRepr && this !in store.tokenRepr
      ensures fresh(store.orderRepr - old(store.orderRepr)) && fresh(store.tokenRepr - old(store.tokenRepr))
      ensures old(store.AccountIdsHold()) ==> store.AccountIdsHold()
      ensures StoreHolds(start, attempts, store.caps, store.rows, store.nextID)
      ensures attempts == old(attempts) + [attempt]
      ensures total == old(total) + if cancelled then 0 else |batch|
    {
      hide MemoryStore.Valid, StoreHolds, SkippedIds, AddBatch, Stamp, WithinCaps;
      StoreHoldsCall(start, attempts, attempt, store.caps, store.rows, store.nextID);
      var n, err := store.AddInteractions(cancelled, batch, clock);
      if err == None {
        total := total + n;
      }
      attempts := attempts + [attempt];
    }

    ghost predicate CanFlush(w: nat, clock: seq<Time>)
      reads this
    {
      w < |workers| && workers[w].phase.Flushing? && |clock| == |workers[w].batch|
    }

    /** Whatever has happened to the bus: each accepted event is in exactly one place, the counters balance,
        and the store holds the cap rule applied to what it held at first and to everything that was stored
        since, in the order of the calls. */
    lemma NothingLost()
      requires Valid() && WithinCaps(start.rows, store.caps)
      ensures Accounted(State()) && Balanced(State())
      ensures var all := start.rows + Arrived(start, attempts, store.caps);
        store.rows == Last(Capped(all, store.caps.perToken, EveryToken), store.caps.global)
      ensures |Arrived(start, attempts, store.caps)| == total
    {
      hide Runs, Accounted, Balanced, Capped, StoreAfter, Arrived, WithinCaps, Ordered;
      ExactlyOnce(rules, config, poolSize, steps, State());
      StoreHoldsCapRule(rules, config, poolSize, steps, State(), start, store.caps);
    }

    /** With one worker and no refusal, what the store was given is the accepted events in order, less those
        still in the batch and the channel. */
    lemma InOrder()
      requires Valid() && WithinCaps(start.rows, store.caps)
      requires poolSize == 1 && forall i :: 0 <= i < |attempts| ==> attempts[i].ok
      ensures |workers| == 1 && accepted == Stored(State()) + workers[0].batch + ch
      ensures var all := Arrived(start, attempts, store.caps);
        && |all| == |accepted| - |workers[0].batch| - |ch|
        && forall i :: 0 <= i < |all| ==> StoredForm(all[i], accepted[i], store.caps)
    {
      hide Runs, Capped, StoreAfter, Arrived, StoredForm, WithinCaps, Ordered;
      SingleWorkerEndToEnd(rules, config, steps, State(), start, store.caps);
    }
  }
}
