/** From the event bus to the memory store: what the store holds after any run of the bus. */
module EndToEnd {
  import opened Sequences
  import opened Models
  import opened CapRule
  import opened Arrivals
  import opened StoreRuns
  import opened EventBus

  /** One call of the store; a refused call leaves it alone. */
  ghost function AfterCall(t: Table, call: Attempt, caps: Caps): Table
    requires |call.clock| == |call.events|
  {
    if call.ok then MemoryStep(Table(t.rows, t.lastId + call.skipped), Add(call.events, call.clock), caps) else t
  }

  ghost function ArrivedBy(t: Table, call: Attempt, caps: Caps): seq<Interaction>
    requires |call.clock| == |call.events|
  {
    if call.ok then Stamp(call.events, call.clock, t.lastId + call.skipped, caps.bodyLimit) else []
  }

  /** The memory store after the given calls, from what it held at the start. */
  ghost function StoreAfter(start: Table, calls: seq<Attempt>, caps: Caps): Table
    requires Timed(calls)
  {
    if calls == [] then start
    else AfterCall(StoreAfter(start, calls[..|calls| - 1], caps), calls[|calls| - 1], caps)
  }

  /** Each call carries one clock reading per event. */
  ghost predicate Timed(attempts: seq<Attempt>) {
    forall i :: 0 <= i < |attempts| ==> |attempts[i].clock| == |attempts[i].events|
  }

  /** A store holds what the calls leave, and its counter has not fallen behind. */
  ghost predicate StoreHolds(start: Table, calls: seq<Attempt>, caps: Caps, rows: seq<Interaction>, nextID: int) {
    Timed(calls) && rows == StoreAfter(start, calls, caps).rows && StoreAfter(start, calls, caps).lastId <= nextID
  }

  /** How many ids other records have drawn since the last of the calls. */
  ghost function SkippedIds(start: Table, calls: seq<Attempt>, caps: Caps, nextID: int): nat {
    if Timed(calls) && StoreAfter(start, calls, caps).lastId <= nextID
    then nextID - StoreAfter(start, calls, caps).lastId
    else 0
  }

  lemma StoreHoldsCall(start: Table, calls: seq<Attempt>, call: Attempt, caps: Caps, rows: seq<Interaction>,
                       nextID: int)
    requires StoreHolds(start, calls, caps, rows, nextID)
    requires |call.clock| == |call.events| && call.skipped == SkippedIds(start, calls, caps, nextID)
    ensures if call.ok then StoreHolds(start, calls + [call], caps,
              AddBatch(rows, Stamp(call.events, call.clock, nextID, caps.bodyLimit), caps), nextID + |call.events|)
            else StoreHolds(start, calls + [call], caps, rows, nextID)
  {
    hide AddBatch, Stamp;
    assert (calls + [call])[..|calls|] == calls;
  }

  /** Everything that was ever stored, as stamped on arrival. */
  ghost function Arrived(start: Table, calls: seq<Attempt>, caps: Caps): seq<Interaction>
    requires Timed(calls)
  {
    if calls == [] then []
    else
      var before := calls[..|calls| - 1];
      Arrived(start, before, caps) + ArrivedBy(StoreAfter(start, before, caps), calls[|calls| - 1], caps)
  }

  /** The stored form of an event is the event, but for its id, its time and its truncated body. */
  ghost predicate StoredForm(stored: Interaction, event: Interaction, caps: Caps) {
    exists now, id :: stored == StampOne(event, now, id, caps.bodyLimit)
  }

  /** The store is sound and holds the cap rule applied to everything that arrived. */
  ghost predicate HoldsCapRule(t: Table, all: seq<Interaction>, caps: Caps) {
    && Sound(t, caps)
    && Ordered(Table(all, t.lastId))
    && t.rows == Last(Capped(all, caps.perToken, EveryToken), caps.global)
  }

  lemma StartHeld(start: Table, caps: Caps)
    requires Sound(start, caps)
    ensures HoldsCapRule(start, start.rows, caps)
  {
    CappedIdentity(start.rows, caps.perToken, EveryToken);
  }

  lemma {:induction false} ContentsAreCapRule(start: Table, calls: seq<Attempt>, caps: Caps)
    requires Sound(start, caps) && Timed(calls) && caps.perToken > 0
    ensures HoldsCapRule(StoreAfter(start, calls, caps), start.rows + Arrived(start, calls, caps), caps)
    decreases |calls|
  {
    hide HoldsCapRule, AfterCall, ArrivedBy, Sound, StoreAfter, Arrived;
    if calls == [] {
      NothingArrived(start, caps);
      StartHeld(start, caps);
    } else {
      var before, call := calls[..|calls| - 1], calls[|calls| - 1];
      ContentsAreCapRule(start, before, caps);
      CallKeepsCapRule(StoreAfter(start, before, caps), start.rows + Arrived(start, before, caps), call, caps);
      OneMoreArrival(start, calls, caps);
    }
  }

  lemma NothingArrived(start: Table, caps: Caps)
    ensures StoreAfter(start, [], caps) == start && start.rows + Arrived(start, [], caps) == start.rows
  {
  }

  lemma OneMoreArrival(start: Table, calls: seq<Attempt>, caps: Caps)
    requires Timed(calls) && calls != []
    ensures var before, call := calls[..|calls| - 1], calls[|calls| - 1];
      var t := StoreAfter(start, before, caps);
      && StoreAfter(start, calls, caps) == AfterCall(t, call, caps)
      && start.rows + Arrived(start, calls, caps)
         == start.rows + Arrived(start, before, caps) + ArrivedBy(t, call, caps)
  {
    hide AfterCall, ArrivedBy;
  }

  lemma CallKeepsCapRule(t: Table, all: seq<Interaction>, call: Attempt, caps: Caps)
    requires HoldsCapRule(t, all, caps) && |call.clock| == |call.events| && caps.perToken > 0
    ensures HoldsCapRule(AfterCall(t, call, caps), all + ArrivedBy(t, call, caps), caps)
  {
    hide Capped, AddBatch, WithinCaps;
    if call.ok {
      var from := Table(t.rows, t.lastId + call.skipped);
      StampFollows(all, call.events, call.clock, from.lastId, caps.bodyLimit);
      MemoryStepKeepsSound(from, Add(call.events, call.clock), caps);
      OneMoreCall(all, t.rows, ArrivedBy(t, call, caps), caps);
    } else {
      assert all + ArrivedBy(t, call, caps) == all;
    }
  }

  lemma OneMoreCall(all: seq<Interaction>, rows: seq<Interaction>, stamped: seq<Interaction>, caps: Caps)
    requires caps.perToken > 0 && Increasing(all + stamped)
    requires rows == Last(Capped(all, caps.perToken, EveryToken), caps.global)
    ensures AddBatch(rows, stamped, caps) == Last(Capped(all + stamped, caps.perToken, EveryToken), caps.global)
  {
    NothingWithin(caps);
    hide Capped, AddBatch, WithinCaps;
    assert [] + all == all && [] + (all + stamped) == all + stamped;
    IncreasingParts(all, stamped);
    AddBatchIsCapRule([], all, caps);
    BatchAfterBatch([], all, stamped, caps);
    AddBatchIsCapRule([], all + stamped, caps);
  }

  lemma NothingWithin(caps: Caps)
    ensures WithinCaps([], caps)
  {
  }

  ghost predicate StoredForms(stored: seq<Interaction>, events: seq<Interaction>, caps: Caps) {
    |stored| == |events| && forall i :: 0 <= i < |stored| ==> StoredForm(stored[i], events[i], caps)
  }

  lemma StoredFormsAppend(s1: seq<Interaction>, e1: seq<Interaction>, s2: seq<Interaction>, e2: seq<Interaction>,
                          caps: Caps)
    requires StoredForms(s1, e1, caps) && StoredForms(s2, e2, caps)
    ensures StoredForms(s1 + s2, e1 + e2, caps)
  {
  }

  lemma CallStoredForms(t: Table, call: Attempt, caps: Caps)
    requires |call.clock| == |call.events|
    ensures StoredForms(ArrivedBy(t, call, caps), if call.ok then call.events else [], caps)
  {
    var stamped := ArrivedBy(t, call, caps);
    forall i | 0 <= i < |stamped| ensures StoredForm(stamped[i], call.events[i], caps) {
      assert stamped[i] == StampOne(call.events[i], call.clock[i], t.lastId + call.skipped + 1 + i, caps.bodyLimit);
    }
  }

  lemma {:induction false} ArrivedInOrder(start: Table, calls: seq<Attempt>, caps: Caps)
    requires Timed(calls)
    ensures StoredForms(Arrived(start, calls, caps), WithOutcome(calls, true), caps)
    decreases |calls|
  {
    if calls != [] {
      hide StoredForms, ArrivedBy, AfterCall;
      var before, call := calls[..|calls| - 1], calls[|calls| - 1];
      var t := StoreAfter(start, before, caps);
      ArrivedInOrder(start, before, caps);
      CallStoredForms(t, call, caps);
      StoredFormsAppend(Arrived(start, before, caps), WithOutcome(before, true),
                        ArrivedBy(t, call, caps), if call.ok then call.events else [], caps);
    }
  }

  lemma {:induction false} RunTimed(r: Rules, c: Config, b: Bus, steps: seq<Action>, end: Bus)
    requires Timed(b.attempts) && Runs(r, c, b, steps, end)
    ensures Timed(end.attempts)
    decreases |steps|
  {
    if steps != [] {
      RunTimed(r, c, Next(c, b, steps[0]), steps[1..], end);
    }
  }

  /** For any number of workers, any batch size and any tick timing: the store holds the cap rule applied
      to what it held at the start and everything the bus stored since, in the order of the calls. */
  lemma StoreHoldsCapRule(r: Rules, c: Config, workers: int, steps: seq<Action>, end: Bus, start: Table, caps: Caps)
    requires Sound(start, caps) && caps.perToken > 0 && Runs(r, c, Started(workers), steps, end)
    ensures Timed(end.attempts)
    ensures StoreAfter(start, end.attempts, caps).rows
         == Last(Capped(start.rows + Arrived(start, end.attempts, caps), caps.perToken, EveryToken), caps.global)
    ensures |Arrived(start, end.attempts, caps)| == end.total
  {
    RunTimed(r, c, Started(workers), steps, end);
    ContentsAreCapRule(start, end.attempts, caps);
    ArrivedInOrder(start, end.attempts, caps);
    ExactlyOnce(r, c, workers, steps, end);
  }

  /** With one worker and no refused call, the arrivals are the accepted events in order, less those
      still in the batch and the channel. */
  lemma SingleWorkerEndToEnd(r: Rules, c: Config, steps: seq<Action>, end: Bus, start: Table, caps: Caps)
    requires Sound(start, caps) && caps.perToken > 0 && Runs(r, c, Started(1), steps, end)
    requires forall i :: 0 <= i < |end.attempts| ==> end.attempts[i].ok
    ensures Timed(end.attempts) && |end.workers| == 1
    ensures end.accepted == Stored(end) + end.workers[0].batch + end.ch
    ensures var all := Arrived(start, end.attempts, caps);
      && |all| == |end.accepted| - |end.workers[0].batch| - |end.ch|
      && (forall i :: 0 <= i < |all| ==> StoredForm(all[i], end.accepted[i], caps))
      && StoreAfter(start, end.attempts, caps).rows
         == Last(Capped(start.rows + all, caps.perToken, EveryToken), caps.global)
  {
    SingleWorkerOrder(r, c, steps, end);
    StoreHoldsCapRule(r, c, 1, steps, end, start, caps);
    ArrivedInOrder(start, end.attempts, caps);
  }
}
