/** The loss at shutdown can be as large as its bound allows: a run of the bus that attains it. */
module BusLoss {
  import opened EventBus
  import opened BusShutdown
  import opened Models

  /** The step system of a store that never fails, with nothing submitted after Stop. */
  const RULES := Rules(true, NeverFails)

  /** Nothing was accepted or stored in between, and the bus is as far shut down as before. */
  ghost predicate Quiet(b: Bus, end: Bus) {
    && end.total == b.total && end.accepted == b.accepted
    && end.cancelled == b.cancelled && end.closed == b.closed && |end.workers| == |b.workers|
  }

  ghost predicate OthersKept(b: Bus, end: Bus, w: nat) {
    |end.workers| == |b.workers| && forall v :: 0 <= v < |b.workers| && v != w ==> end.workers[v] == b.workers[v]
  }

  lemma {:induction false} RunsAppend(c: Config, b: Bus, first: seq<Action>, mid: Bus, second: seq<Action>, end: Bus)
    requires Runs(RULES, c, b, first, mid) && Runs(RULES, c, mid, second, end)
    ensures Runs(RULES, c, b, first + second, end)
    decreases |first|
  {
    if first == [] {
      assert first + second == second;
    } else {
      hide Next, Permitted;
      RunsAppend(c, Next(c, b, first[0]), first[1..], mid, second, end);
      assert (first + second)[1..] == first[1..] + second;
    }
  }

  lemma OneStep(c: Config, b: Bus, a: Action)
    requires Permitted(RULES, b, a)
    ensures Runs(RULES, c, b, [a], Next(c, b, a))
  {
    assert [a][1..] == [];
  }

  lemma {:induction false} SubmitAll(c: Config, b: Bus, iv: Interaction, k: nat) returns (steps: seq<Action>, end: Bus)
    requires !b.closed && !b.cancelled && |b.ch| + k <= c.buffer
    ensures Runs(RULES, c, b, steps, end)
    ensures end.workers == b.workers && end.total == b.total && !end.closed && !end.cancelled
    ensures |end.ch| == |b.ch| + k && |end.accepted| == |b.accepted| + k
    decreases k
  {
    if k == 0 {
      steps, end := [], b;
    } else {
      var a := Submit(iv);
      OneStep(c, b, a);
      var rest;
      rest, end := SubmitAll(c, Next(c, b, a), iv, k - 1);
      RunsAppend(c, b, [a], Next(c, b, a), rest, end);
      steps := [a] + rest;
    }
  }

  /** A worker with an empty batch sees the cancellation and reaches the drain loop. */
  lemma EnterDrain(c: Config, b: Bus, w: nat) returns (steps: seq<Action>, end: Bus)
    requires b.cancelled && w < |b.workers| && b.workers[w] == Worker(Selecting, [])
    ensures Runs(RULES, c, b, steps, end) && Quiet(b, end) && OthersKept(b, end, w)
    ensures end.ch == b.ch && end.workers[w] == Worker(Draining, [])
  {
    var mid := Next(c, b, SeeDone(w));
    end := Next(c, mid, Flush(w, true, [], 0));
    OneStep(c, b, SeeDone(w));
    OneStep(c, mid, Flush(w, true, [], 0));
    RunsAppend(c, b, [SeeDone(w)], mid, [Flush(w, true, [], 0)], end);
    steps := [SeeDone(w)] + [Flush(w, true, [], 0)];
  }

  /** A worker in the drain loop takes k events without filling its batch. */
  lemma {:induction false} FillOne(c: Config, b: Bus, w: nat, k: nat) returns (steps: seq<Action>, end: Bus)
    requires InPhase(b, w, Draining) && k <= |b.ch| && |b.workers[w].batch| + k < c.batch
    ensures Runs(RULES, c, b, steps, end) && Quiet(b, end) && OthersKept(b, end, w)
    ensures |end.ch| == |b.ch| - k && end.workers[w].phase == Draining
    decreases k
  {
    if k == 0 {
      steps, end := [], b;
    } else {
      var a := DrainReceive(w);
      var n := Next(c, b, a);
      OneStep(c, b, a);
      var rest;
      rest, end := FillOne(c, n, w, k - 1);
      RunsAppend(c, b, [a], n, rest, end);
      steps := [a] + rest;
    }
  }

  /** The first w workers are in the drain loop, the others have not seen the cancellation yet. */
  ghost predicate DrainedUpTo(b: Bus, w: nat) {
    && b.cancelled && b.closed && w <= |b.workers|
    && (forall v :: 0 <= v < w ==> b.workers[v].phase == Draining)
    && (forall v :: w <= v < |b.workers| ==> b.workers[v] == Worker(Selecting, []))
  }

  function Least(a: nat, b: nat): nat {
    if a < b then a else b
  }

  lemma FillNext(c: Config, b: Bus, w: nat, k: nat) returns (steps: seq<Action>, end: Bus)
    requires DrainedUpTo(b, w) && w < |b.workers| && k <= |b.ch| && k < c.batch
    ensures Runs(RULES, c, b, steps, end) && Quiet(b, end)
    ensures |end.ch| == |b.ch| - k && DrainedUpTo(end, w + 1)
  {
    hide Runs;
    var first, mid := EnterDrain(c, b, w);
    var second;
    second, end := FillOne(c, mid, w, k);
    RunsAppend(c, b, first, mid, second, end);
    steps := first + second;
  }

  lemma LeastBounds(a: nat, b: nat)
    ensures Least(a, b) <= a && Least(a, b) <= b
  {
  }

  lemma UpTo(b: Bus, w: nat)
    requires DrainedUpTo(b, w)
    ensures w <= |b.workers|
  {
  }

  lemma ShareLeft(m: nat, n: nat, k: nat)
    requires n > 0 && m <= n * k
    ensures m - Least(m, k) <= (n - 1) * k
  {
    OneMoreBatch(n, k);
  }

  lemma {:induction false} FillAll(c: Config, b: Bus, w: nat) returns (steps: seq<Action>, end: Bus)
    requires c.batch > 0 && DrainedUpTo(b, w) && |b.ch| <= (|b.workers| - w) * (c.batch - 1)
    ensures Runs(RULES, c, b, steps, end) && Quiet(b, end)
    ensures end.ch == [] && DrainedUpTo(end, |end.workers|)
    decreases |b.workers| - w
  {
    if w == |b.workers| {
      assert (|b.workers| - w) * (c.batch - 1) == 0;
      steps, end := [], b;
    } else {
      hide Runs, DrainedUpTo, Least;
      LeastBounds(|b.ch|, c.batch - 1);
      UpTo(b, w);
      ShareLeft(|b.ch|, |b.workers| - w, c.batch - 1);
      var first, mid := FillNext(c, b, w, Least(|b.ch|, c.batch - 1));
      var rest;
      rest, end := FillAll(c, mid, w + 1);
      RunsAppend(c, b, first, mid, rest, end);
      steps := first + rest;
    }
  }

  /** The channel is empty and closed; the first w workers have exited with what they hold. */
  ghost predicate ExitedUpTo(b: Bus, w: nat) {
    && b.cancelled && b.closed && b.ch == [] && w <= |b.workers|
    && (forall v :: 0 <= v < w ==> b.workers[v].phase.Exited?)
    && (forall v :: w <= v < |b.workers| ==> b.workers[v].phase == Draining)
  }

  lemma {:induction false} ExitAll(c: Config, b: Bus, w: nat) returns (steps: seq<Action>, end: Bus)
    requires ExitedUpTo(b, w)
    ensures Runs(RULES, c, b, steps, end) && Quiet(b, end) && AllExited(end)
    decreases |b.workers| - w
  {
    if w == |b.workers| {
      steps, end := [], b;
    } else {
      var a := DrainClosed(w);
      var n := Next(c, b, a);
      OneStep(c, b, a);
      var rest;
      rest, end := ExitAll(c, n, w + 1);
      RunsAppend(c, b, [a], n, rest, end);
      steps := [a] + rest;
    }
  }

  lemma Stop(c: Config, b: Bus) returns (steps: seq<Action>, end: Bus)
    requires !b.cancelled && !b.closed
    ensures Runs(RULES, c, b, steps, end) && end == b.(cancelled := true, closed := true)
  {
    var mid := b.(cancelled := true);
    end := mid.(closed := true);
    OneStep(c, b, Cancel);
    OneStep(c, mid, Close);
    RunsAppend(c, b, [Cancel], mid, [Close], end);
    steps := [Cancel] + [Close];
  }

  /** The bound on the loss at shutdown is attained: for every buffer, batch size and number of workers some
      run loses one batch less one event per worker, or a full channel if that is less. */
  lemma LossBoundIsTight(c: Config, workers: int, iv: Interaction)
    requires c.batch > 0
    ensures exists steps, end ::
      Runs(RULES, c, Started(workers), steps, end) && AllExited(end)
      && |end.accepted| - end.total == Least(c.buffer, |Started(workers).workers| * (c.batch - 1))
  {
    var start := Started(workers);
    hide Runs;
    var k := Least(c.buffer, |start.workers| * (c.batch - 1));
    var s1, b1 := SubmitAll(c, start, iv, k);
    var s2, b2 := Stop(c, b1);
    var s3, b3 := FillAll(c, b2, 0);
    var s4, end := ExitAll(c, b3, 0);
    RunsAppend(c, start, s1, b1, s2, b2);
    RunsAppend(c, start, s1 + s2, b2, s3, b3);
    RunsAppend(c, start, s1 + s2 + s3, b3, s4, end);
  }
}
