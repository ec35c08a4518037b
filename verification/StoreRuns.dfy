/** Runs of the interaction tables of both backends, and the comparison of the two. */
module StoreRuns {
  import opened Sequences
  import opened Models
  import opened CapRule
  import opened Arrivals
  import opened Queries
  import opened Sorting
  import opened SqliteStores

  /** The abstract value of either store: its rows, oldest first, and the last id handed out. */
  datatype Table = Table(rows: seq<Interaction>, lastId: int)

  /** `Remove(n)` deletes the n-th oldest row, if there is one. `TakeId` is any other record of the
      memory store drawing from the shared id counter. */
  datatype Op = Add(batch: seq<Interaction>, clock: seq<Time>) | Remove(n: nat) | Sweep(cutoff: Time) | TakeId

  ghost predicate WellFormed(op: Op) {
    op.Add? ==> |op.clock| == |op.batch|
  }

  function RemoveNth(rows: seq<Interaction>, n: nat): seq<Interaction> {
    if n < |rows| then Without(rows, rows[n].id) else rows
  }

  ghost function MemoryStep(t: Table, op: Op, caps: Caps): Table
    requires WellFormed(op)
  {
    match op
    case Add(batch, clock) =>
      Table(AddBatch(t.rows, Stamp(batch, clock, t.lastId, caps.bodyLimit), caps), t.lastId + |batch|)
    case Remove(n) => t.(rows := RemoveNth(t.rows, n))
    case Sweep(cutoff) => t.(rows := DropOld(t.rows, cutoff))
    case TakeId => t.(lastId := t.lastId + 1)
  }

  ghost function SqlStep(t: Table, op: Op, caps: Caps): Table
    requires WellFormed(op)
  {
    match op
    case Add(batch, clock) =>
      Table(SqlAddBatch(t.rows, Stamp(batch, clock, t.lastId, caps.bodyLimit), caps), t.lastId + |batch|)
    case Remove(n) => t.(rows := RemoveNth(t.rows, n))
    case Sweep(cutoff) => t.(rows := Filter(NotOld(cutoff), t.rows))
    case TakeId => t
  }

  ghost function MemoryRun(t: Table, ops: seq<Op>, caps: Caps): Table
    requires forall op :: op in ops ==> WellFormed(op)
    decreases |ops|
  {
    if ops == [] then t else MemoryRun(MemoryStep(t, ops[0], caps), ops[1..], caps)
  }

  ghost function SqlRun(t: Table, ops: seq<Op>, caps: Caps): Table
    requires forall op :: op in ops ==> WellFormed(op)
    decreases |ops|
  {
    if ops == [] then t else SqlRun(SqlStep(t, ops[0], caps), ops[1..], caps)
  }

  // ---- The invariant of the memory store, over every run ----

  ghost predicate Ordered(t: Table) {
    Increasing(t.rows) && forall iv :: iv in t.rows ==> iv.id <= t.lastId
  }

  ghost predicate Sound(t: Table, caps: Caps) {
    Ordered(t) && WithinCaps(t.rows, caps)
  }

  /** Dropping rows by any test keeps order and caps. */
  lemma FilterKeepsSound(t: Table, p: Interaction -> bool, caps: Caps)
    requires Sound(t, caps)
    ensures Sound(t.(rows := Filter(p, t.rows)), caps)
  {
    FilterKeepsOrder(p, t.rows);
    FilterKeepsCaps(t.rows, p, caps);
  }

  lemma DropOldKeepsSound(t: Table, cutoff: Time, caps: Caps)
    requires Sound(t, caps)
    ensures Sound(t.(rows := DropOld(t.rows, cutoff)), caps)
  {
    DropOldIsPrefix(t.rows, cutoff);
    DropOldKeepsCaps(t.rows, cutoff, caps);
    var n := OldPrefix(t.rows, cutoff);
    assert t.rows == t.rows[..n] + t.rows[n..];
    IncreasingParts(t.rows[..n], t.rows[n..]);
  }

  lemma MemoryStepKeepsSound(t: Table, op: Op, caps: Caps)
    requires Sound(t, caps) && WellFormed(op)
    ensures Sound(MemoryStep(t, op, caps), caps)
  {
    match op
    case Add(batch, clock) =>
      StampFollows(t.rows, batch, clock, t.lastId, caps.bodyLimit);
      AddBatchKeeps(t.rows, Stamp(batch, clock, t.lastId, caps.bodyLimit), caps);
    case Remove(n) =>
      if n < |t.rows| {
        FilterKeepsSound(t, IdIsNot(t.rows[n].id), caps);
      }
    case Sweep(cutoff) => DropOldKeepsSound(t, cutoff, caps);
    case TakeId =>
  }

  /** Over every run: ids grow along the order list, and both caps hold. */
  lemma {:induction false} MemoryRunKeepsSound(t: Table, ops: seq<Op>, caps: Caps)
    requires Sound(t, caps)
    requires forall op :: op in ops ==> WellFormed(op)
    ensures Sound(MemoryRun(t, ops, caps), caps)
    decreases |ops|
  {
    if ops != [] {
      MemoryStepKeepsSound(t, ops[0], caps);
      MemoryRunKeepsSound(MemoryStep(t, ops[0], caps), ops[1..], caps);
    }
  }

  // ---- Runs whose arrivals are stamped by a clock that does not run backwards ----

  ghost predicate Nondecreasing(clock: seq<Time>) {
    forall i, j :: 0 <= i < j < |clock| ==> clock[i] <= clock[j]
  }

  ghost predicate Ticks(op: Op, now: Time) {
    op.Add? ==>
      && |op.clock| == |op.batch|
      && Nondecreasing(op.clock)
      && (forall time :: time in op.clock ==> now <= time)
      && (forall iv :: iv in op.batch ==> iv.createdAt == 0)
  }

  function After(op: Op, now: Time): Time {
    if op.Add? && op.clock != [] then op.clock[|op.clock| - 1] else now
  }

  ghost predicate Ticking(ops: seq<Op>, now: Time) {
    ops != [] ==> Ticks(ops[0], now) && Ticking(ops[1..], After(ops[0], now))
  }

  /** The rows are in time order, and none is later than now. */
  ghost predicate Timely(rows: seq<Interaction>, now: Time) {
    Chronological(rows) && forall iv :: iv in rows ==> iv.createdAt <= now
  }

  lemma AppendKeepsTime(rows: seq<Interaction>, batch: seq<Interaction>, clock: seq<Time>, lastId: int, limit: nat,
                        now: Time)
    requires Timely(rows, now) && Ticks(Add(batch, clock), now)
    ensures Timely(rows + Stamp(batch, clock, lastId, limit), After(Add(batch, clock), now))
  {
    var stamped := Stamp(batch, clock, lastId, limit);
    forall i | 0 <= i < |batch| ensures stamped[i].createdAt == clock[i] && now <= clock[i] {
      assert batch[i] in batch && clock[i] in clock;
    }
    forall i, j | 0 <= i < |rows| && 0 <= j < |stamped| ensures rows[i].createdAt <= stamped[j].createdAt {
      assert rows[i] in rows;
    }
    assert Chronological(stamped);
    ChronologicalJoin(rows, stamped);
  }

  lemma ChronologicalJoin(a: seq<Interaction>, b: seq<Interaction>)
    requires Chronological(a) && Chronological(b)
    requires forall i, j :: 0 <= i < |a| && 0 <= j < |b| ==> a[i].createdAt <= b[j].createdAt
    ensures Chronological(a + b)
  {
  }

  lemma SubsequenceKeepsTime(rows: seq<Interaction>, cap: nat, named: iset<string>, global: nat, now: Time)
    requires Increasing(rows) && Timely(rows, now)
    ensures Timely(Last(Capped(rows, cap, named), global), now)
  {
    var capped := Capped(rows, cap, named);
    CappedIsFilter(rows, cap, named);
    FilterKeepsTime(x => x in capped, rows);
    CappedMembers(rows, cap, named);
  }

  lemma MemoryStepKeepsTime(t: Table, op: Op, caps: Caps, now: Time)
    requires Sound(t, caps) && Timely(t.rows, now) && Ticks(op, now)
    ensures Timely(MemoryStep(t, op, caps).rows, After(op, now))
  {
    match op
    case Add(batch, clock) =>
      var stamped := Stamp(batch, clock, t.lastId, caps.bodyLimit);
      StampFollows(t.rows, batch, clock, t.lastId, caps.bodyLimit);
      AppendKeepsTime(t.rows, batch, clock, t.lastId, caps.bodyLimit, now);
      AddBatchIsCapRule(t.rows, stamped, caps);
      SubsequenceKeepsTime(t.rows + stamped, caps.perToken, EveryToken, caps.global, After(op, now));
    case Remove(n) =>
      if n < |t.rows| {
        FilterKeepsTime(IdIsNot(t.rows[n].id), t.rows);
        FilterMembers(IdIsNot(t.rows[n].id), t.rows);
      }
    case Sweep(cutoff) =>
      DropOldIsPrefix(t.rows, cutoff);
    case TakeId =>
  }

  lemma {:induction false} RunKeepsTime(t: Table, ops: seq<Op>, caps: Caps, now: Time)
    requires Ticking(ops, now) && forall op :: op in ops ==> WellFormed(op)
    requires Sound(t, caps) && Timely(t.rows, now)
    ensures Chronological(MemoryRun(t, ops, caps).rows) && Sound(MemoryRun(t, ops, caps), caps)
    decreases |ops|
  {
    if ops != [] {
      MemoryStepKeepsSound(t, ops[0], caps);
      MemoryStepKeepsTime(t, ops[0], caps, now);
      RunKeepsTime(MemoryStep(t, ops[0], caps), ops[1..], caps, After(ops[0], now));
    }
  }

  /** When arrivals are stamped by a clock that does not run backwards, retention removes every old row and
      the scoped listing is the plain newest-first filter, after any run. */
  lemma StampedRunsAreChronological(ops: seq<Op>, caps: Caps, now: Time, cutoff: Time, f: InteractionFilter)
    requires Ticking(ops, now) && forall op :: op in ops ==> WellFormed(op)
    ensures var rows := MemoryRun(Table([], 0), ops, caps).rows;
      && DropOld(rows, cutoff) == Filter(NotOld(cutoff), rows)
      && Listing(rows, f) == Reverse(Filter(Matches(f), rows))
  {
    RunKeepsTime(Table([], 0), ops, caps, now);
    var rows := MemoryRun(Table([], 0), ops, caps).rows;
    ChronologicalOldFirst(rows, cutoff);
    ScopedListingIsFilter(rows, f);
  }

  // ---- Batching ----

  ghost predicate AllAdds(ops: seq<Op>) {
    forall op :: op in ops ==> op.Add? && WellFormed(op)
  }

  /** One batch with the arrivals of all the given ones, and their clock readings. */
  function Joined(ops: seq<Op>): (r: Op)
    requires forall op :: op in ops ==> op.Add? && |op.clock| == |op.batch|
    ensures r.Add? && |r.clock| == |r.batch|
  {
    if ops == [] then Add([], [])
    else
      var rest := Joined(ops[1..]);
      Add(ops[0].batch + rest.batch, ops[0].clock + rest.clock)
  }

  lemma StampAppend(b1: seq<Interaction>, c1: seq<Time>, b2: seq<Interaction>, c2: seq<Time>, lastId: int, limit: nat)
    requires |b1| == |c1| && |b2| == |c2|
    ensures Stamp(b1 + b2, c1 + c2, lastId, limit) == Stamp(b1, c1, lastId, limit) + Stamp(b2, c2, lastId + |b1|, limit)
  {
  }

  lemma TwoBatchesAreOne(t: Table, first: Op, second: Op, caps: Caps)
    requires Sound(t, caps) && caps.perToken > 0
    requires first.Add? && WellFormed(first) && second.Add? && WellFormed(second)
    ensures MemoryStep(MemoryStep(t, first, caps), second, caps)
         == MemoryStep(t, Add(first.batch + second.batch, first.clock + second.clock), caps)
  {
    hide AddBatch, Stamp, Increasing, WithinCaps;
    StampAppend(first.batch, first.clock, second.batch, second.clock, t.lastId, caps.bodyLimit);
    StampFollows(t.rows, first.batch + second.batch, first.clock + second.clock, t.lastId, caps.bodyLimit);
    JoinedRows(t.rows, Stamp(first.batch, first.clock, t.lastId, caps.bodyLimit),
               Stamp(second.batch, second.clock, t.lastId + |first.batch|, caps.bodyLimit), caps);
  }

  lemma JoinedRows(rows: seq<Interaction>, early: seq<Interaction>, late: seq<Interaction>, caps: Caps)
    requires WithinCaps(rows, caps) && Increasing(rows + (early + late)) && caps.perToken > 0
    ensures AddBatch(AddBatch(rows, early, caps), late, caps) == AddBatch(rows, early + late, caps)
  {
    hide AddBatch, WithinCaps, Increasing;
    assert rows + early + late == rows + (early + late);
    BatchAfterBatch(rows, early, late, caps);
  }

  /** Splitting the arrivals into calls in any way leaves the same rows, with the same ids and times. */
  lemma {:induction false} CallsAreOneCall(t: Table, ops: seq<Op>, caps: Caps)
    requires Sound(t, caps) && caps.perToken > 0 && AllAdds(ops)
    ensures MemoryRun(t, ops, caps) == MemoryStep(t, Joined(ops), caps)
    decreases |ops|
  {
    if ops != [] {
      assert ops[0] in ops;
      MemoryStepKeepsSound(t, ops[0], caps);
      CallsAreOneCall(MemoryStep(t, ops[0], caps), ops[1..], caps);
      TwoBatchesAreOne(t, ops[0], Joined(ops[1..]), caps);
    }
  }

  // ---- The two backends agree ----

  /** Rows compared without their ids, which the two backends draw from different counters. */
  function Anonymous(rows: seq<Interaction>): (r: seq<Interaction>)
    ensures |r| == |rows|
  {
    seq(|rows|, i requires 0 <= i < |rows| => rows[i].(id := 0))
  }

  lemma AnonymousAppend(a: seq<Interaction>, b: seq<Interaction>)
    ensures Anonymous(a + b) == Anonymous(a) + Anonymous(b)
  {
  }

  lemma AnonymousLast(rows: seq<Interaction>, n: nat)
    ensures Last(Anonymous(rows), n) == Anonymous(Last(rows, n))
  {
  }

  lemma {:induction false} AnonymousOfToken(rows: seq<Interaction>, t: string)
    ensures OfToken(Anonymous(rows), t) == Anonymous(OfToken(rows, t))
  {
    if rows != [] {
      AnonymousOfToken(rows[1..], t);
      assert Anonymous(rows)[1..] == Anonymous(rows[1..]);
      AnonymousAppend(if rows[0].token == t then [rows[0]] else [], OfToken(rows[1..], t));
    }
  }

  lemma {:induction false} AnonymousCapped(rows: seq<Interaction>, cap: nat, named: iset<string>)
    ensures Capped(Anonymous(rows), cap, named) == Anonymous(Capped(rows, cap, named))
  {
    if rows != [] {
      AnonymousCapped(rows[1..], cap, named);
      AnonymousOfToken(rows[1..], rows[0].token);
      assert Anonymous(rows)[1..] == Anonymous(rows[1..]);
      assert Fits(Anonymous(rows)[0], Anonymous(rows[1..]), cap, named) == Fits(rows[0], rows[1..], cap, named);
      hide Fits;
      AnonymousAppend([rows[0]], Capped(rows[1..], cap, named));
    }
  }

  lemma {:induction false} AnonymousNotOld(rows: seq<Interaction>, cutoff: Time)
    ensures Filter(NotOld(cutoff), Anonymous(rows)) == Anonymous(Filter(NotOld(cutoff), rows))
  {
    if rows != [] {
      AnonymousNotOld(rows[1..], cutoff);
      assert Anonymous(rows)[1..] == Anonymous(rows[1..]);
      AnonymousAppend(if !IsOld(rows[0], cutoff) then [rows[0]] else [], Filter(NotOld(cutoff), rows[1..]));
    }
  }

  /** Deleting the n-th row depends on the ids only through their being distinct. */
  lemma AnonymousRemoveNth(rows: seq<Interaction>, n: nat)
    requires Increasing(rows)
    ensures Anonymous(RemoveNth(rows, n))
         == if n < |rows| then Anonymous(rows)[..n] + Anonymous(rows)[n + 1..] else Anonymous(rows)
  {
    if n < |rows| {
      WithoutIsRemoveAt(rows, n);
    }
  }

  /** A batch without untokened rows: capping the touched tokens caps them all. */
  lemma SqlAddIsCapRule(rows: seq<Interaction>, batch: seq<Interaction>, caps: Caps)
    requires TokensWithin(rows, caps.perToken, EveryToken)
    requires |OfToken(rows + batch, "")| <= caps.perToken
    ensures SqlAddBatch(rows, batch, caps) == Last(Capped(rows + batch, caps.perToken, EveryToken), caps.global)
  {
    forall t | t !in Named(Touched(batch)) ensures |OfToken(rows + batch, t)| <= caps.perToken {
      UntouchedWithin(rows, batch, caps.perToken, t);
    }
    CappedUnnamed(rows + batch, caps.perToken, Named(Touched(batch)));
  }

  lemma UntouchedWithin(rows: seq<Interaction>, batch: seq<Interaction>, cap: nat, t: string)
    requires TokensWithin(rows, cap, EveryToken)
    requires t !in Touched(batch)
    ensures t != "" ==> |OfToken(rows + batch, t)| <= cap
  {
    if t != "" {
      FilterAppend(TokenIs(t), rows, batch);
      FilterNone(TokenIs(t), batch);
      assert |OfToken(rows, t)| <= cap;
    }
  }

  /** From equal contents within the caps, the backends leave the same rows unless the untokened rows
      outgrow the per-token cap. */
  lemma BackendsAgreeWithinCap(rows: seq<Interaction>, batch: seq<Interaction>, caps: Caps)
    requires WithinCaps(rows, caps) && Increasing(rows + batch)
    requires |OfToken(rows + batch, "")| <= caps.perToken
    ensures SqlAddBatch(rows, batch, caps) == AddBatch(rows, batch, caps)
  {
    SqlAddIsCapRule(rows, batch, caps);
    AddBatchIsCapRule(rows, batch, caps);
  }

  /** When the untokened rows do outgrow the cap, let `surplus` be the newest one too many. The backends
      agree exactly when the rows that arrived after it fill the whole store by themselves; otherwise SQLite
      keeps more untokened rows than the cap allows. */
  lemma BackendsAgreeBeyondCap(rows: seq<Interaction>, batch: seq<Interaction>, caps: Caps,
                               older: seq<Interaction>, surplus: Interaction, newer: seq<Interaction>)
    requires WithinCaps(rows, caps) && Increasing(rows + batch)
    requires rows + batch == older + ([surplus] + newer)
    requires surplus.token == "" && |OfToken(newer, "")| == caps.perToken
    ensures var filled := |Capped(newer, caps.perToken, EveryToken)| >= caps.global;
      && (SqlAddBatch(rows, batch, caps) == AddBatch(rows, batch, caps) <==> filled)
      && (!filled ==> |OfToken(SqlAddBatch(rows, batch, caps), "")| > caps.perToken)
  {
    var cap, named := caps.perToken, Named(Touched(batch));
    var kept := Capped(newer, cap, EveryToken);
    hide Fits, Touched;
    UnnamedWithin(rows, batch, caps.perToken, older, surplus, newer);
    CappedUnnamed(newer, cap, named);
    hide Capped, OfToken, WithinCaps, Increasing, AddBatch, Named, Last;
    CappedCons(surplus, newer, cap, named);
    CappedCons(surplus, newer, cap, EveryToken);
    var sqlOlder := CappedSuffix(older, [surplus] + newer, cap, named);
    var memOlder := CappedSuffix(older, [surplus] + newer, cap, EveryToken);
    AddBatchIsCapRule(rows, batch, caps);
    AddBatchKeeps(rows, batch, caps);
    UntokenedWithin(AddBatch(rows, batch, caps), caps);
    CappedOfToken(newer, cap, EveryToken, "");
    LastIsAll(OfToken(newer, ""), cap);
    SurplusShows(sqlOlder, memOlder, surplus, kept, caps);
  }

  lemma LastIsAll(rows: seq<Interaction>, n: nat)
    requires |rows| <= n
    ensures Last(rows, n) == rows
  {
  }

  /** A surplus row shows in the table unless the rows behind it fill the table. */
  lemma SurplusShows(sqlOlder: seq<Interaction>, memOlder: seq<Interaction>, surplus: Interaction,
                     kept: seq<Interaction>, caps: Caps)
    requires surplus.token == "" && |OfToken(kept, "")| == caps.perToken
    requires |OfToken(Last(memOlder + kept, caps.global), "")| <= caps.perToken
    ensures var sql := Last(sqlOlder + ([surplus] + kept), caps.global);
      if |kept| >= caps.global then sql == Last(memOlder + kept, caps.global)
      else |OfToken(sql, "")| > caps.perToken
  {
    hide OfToken;
    if |kept| < caps.global {
      LastOfAppend(sqlOlder, [surplus] + kept, caps.global);
      var rest := Last(sqlOlder, caps.global - |kept| - 1);
      assert Last(sqlOlder + ([surplus] + kept), caps.global) == rest + ([surplus] + kept);
      SurplusCounts(rest, surplus, kept);
    } else {
      LastOfAppend(sqlOlder + [surplus], kept, caps.global);
      LastOfAppend(memOlder, kept, caps.global);
      assert sqlOlder + ([surplus] + kept) == sqlOlder + [surplus] + kept;
    }
  }

  lemma UntokenedWithin(rows: seq<Interaction>, caps: Caps)
    requires WithinCaps(rows, caps)
    ensures |OfToken(rows, "")| <= caps.perToken
  {
  }

  lemma UnnamedWithin(rows: seq<Interaction>, batch: seq<Interaction>, cap: nat,
                      older: seq<Interaction>, surplus: Interaction, newer: seq<Interaction>)
    requires TokensWithin(rows, cap, EveryToken) && rows + batch == older + ([surplus] + newer)
    requires surplus.token == "" && |OfToken(newer, "")| == cap
    ensures "" !in Named(Touched(batch)) && Fits(surplus, newer, cap, Named(Touched(batch)))
    ensures !Fits(surplus, newer, cap, EveryToken)
    ensures forall t :: t !in Named(Touched(batch)) ==> |OfToken(newer, t)| <= cap
  {
    forall t | t !in Named(Touched(batch)) ensures |OfToken(newer, t)| <= cap {
      UntouchedWithin(rows, batch, cap, t);
      FilterAppend(TokenIs(t), older, [surplus] + newer);
      FilterAppend(TokenIs(t), [surplus], newer);
    }
  }

  lemma SurplusCounts(older: seq<Interaction>, surplus: Interaction, kept: seq<Interaction>)
    requires surplus.token == ""
    ensures |OfToken(older + ([surplus] + kept), "")| >= 1 + |OfToken(kept, "")|
  {
    FilterAppend(TokenIs(""), older, [surplus] + kept);
    OfTokenCons(surplus, kept, "");
  }

  /** The longest suffix with no more untokened rows than the cap allows: what arrived after the newest
      untokened row that is one too many. */
  function SinceSurplus(rows: seq<Interaction>, cap: nat): seq<Interaction> {
    if |OfToken(rows, "")| <= cap then rows else SinceSurplus(rows[1..], cap)
  }

  lemma {:induction false} SurplusSplit(rows: seq<Interaction>, cap: nat)
    returns (older: seq<Interaction>, surplus: Interaction)
    requires |OfToken(rows, "")| > cap
    ensures rows == older + ([surplus] + SinceSurplus(rows, cap))
    ensures surplus.token == "" && |OfToken(SinceSurplus(rows, cap), "")| == cap
  {
    OfTokenSplit(rows, "");
    if |OfToken(rows[1..], "")| <= cap {
      older, surplus := [], rows[0];
    } else {
      older, surplus := SurplusSplit(rows[1..], cap);
      older := [rows[0]] + older;
    }
  }

  /** The untokened rows stay within the per-token cap, or what arrived after the newest surplus one fills
      the whole store by itself. */
  ghost predicate Harmless(rows: seq<Interaction>, caps: Caps) {
    || |OfToken(rows, "")| <= caps.perToken
    || |Capped(SinceSurplus(rows, caps.perToken), caps.perToken, EveryToken)| >= caps.global
  }

  /** The backends agree on a batch exactly when its untokened rows are harmless. Where they are not, SQLite
      is left with more untokened rows than the cap allows. */
  lemma BackendsAgreeExactly(rows: seq<Interaction>, batch: seq<Interaction>, caps: Caps)
    requires WithinCaps(rows, caps) && Increasing(rows + batch)
    ensures SqlAddBatch(rows, batch, caps) == AddBatch(rows, batch, caps) <==> Harmless(rows + batch, caps)
    ensures Harmless(rows + batch, caps) <==> |OfToken(SqlAddBatch(rows, batch, caps), "")| <= caps.perToken
  {
    hide Capped, OfToken, SqlAddBatch, AddBatch, SinceSurplus, Increasing;
    AddBatchKeeps(rows, batch, caps);
    UntokenedWithin(AddBatch(rows, batch, caps), caps);
    if |OfToken(rows + batch, "")| <= caps.perToken {
      BackendsAgreeWithinCap(rows, batch, caps);
    } else {
      var older, surplus := SurplusSplit(rows + batch, caps.perToken);
      BackendsAgreeBeyondCap(rows, batch, caps, older, surplus, SinceSurplus(rows + batch, caps.perToken));
    }
  }

  /** Two untokened events and a cap of one: the memory store keeps one of them, SQLite both. */
  lemma BackendsDisagreeOnUntokened()
    ensures var caps := Caps(10, 1, 512);
      var a := Interaction(1, "", 1, DNS, "10.0.0.1", "", "", "", "", "", 5);
      SqlAddBatch([], [a, a.(id := 2)], caps) != AddBatch([], [a, a.(id := 2)], caps)
  {
    var a := Interaction(1, "", 1, DNS, "10.0.0.1", "", "", "", "", "", 5);
    TwoUntokened(a, a.(id := 2), Caps(10, 1, 512));
  }

  lemma TwoUntokened(a: Interaction, b: Interaction, caps: Caps)
    requires a.token == b.token == "" && a.id < b.id && caps.perToken == 1 < caps.global
    ensures SqlAddBatch([], [a, b], caps) != AddBatch([], [a, b], caps)
  {
    hide SqlAddBatch, AddBatch, OfToken, SinceSurplus, Capped;
    UntokenedPair(a, b);
    assert [] + [a, b] == [a, b];
    BackendsAgreeExactly([], [a, b], caps);
  }

  lemma UntokenedPair(a: Interaction, b: Interaction)
    requires a.token == b.token == ""
    ensures |OfToken([a, b], "")| == 2 && SinceSurplus([a, b], 1) == [b]
    ensures |Capped([b], 1, EveryToken)| <= 1
    ensures forall t :: OfToken([], t) == []
  {
    assert [a, b][1..] == [b] && [b][1..] == [];
    OfTokenCons(b, [], "");
    OfTokenCons(a, [b], "");
    assert [a] + [b] == [a, b] && [b] + [] == [b];
  }

  // ---- Whole runs of both backends ----

  /** Rows in id order are determined by their members, so what SQLite's retention is said to leave is its step. */
  lemma SweptIsSqlStep(q: Table, left: seq<Interaction>, cutoff: Time, caps: Caps)
    requires Ordered(q) && Increasing(left)
    requires forall iv :: iv in left <==> iv in q.rows && !IsOld(iv, cutoff)
    ensures q.(rows := left) == SqlStep(q, Sweep(cutoff), caps)
  {
    FilterKeepsOrder(NotOld(cutoff), q.rows);
    FilterMembers(NotOld(cutoff), q.rows);
    SortedUnique((a: Interaction, b: Interaction) => a.id < b.id, left, Filter(NotOld(cutoff), q.rows));
  }

  /** The two tables hold the same rows up to ids. */
  ghost predicate Agree(m: Table, q: Table) {
    Anonymous(m.rows) == Anonymous(q.rows)
  }

  /** The same number of rows, and at each place the same row but for its id. */
  lemma AgreeInFields(m: Table, q: Table)
    ensures Agree(m, q) <==>
      |m.rows| == |q.rows| && forall i :: 0 <= i < |m.rows| ==> m.rows[i].(id := q.rows[i].id) == q.rows[i]
  {
    var a, b := Anonymous(m.rows), Anonymous(q.rows);
    if |m.rows| == |q.rows| {
      forall i | 0 <= i < |m.rows| ensures a[i] == b[i] <==> m.rows[i].(id := q.rows[i].id) == q.rows[i] {
        assert a[i] == m.rows[i].(id := 0) && b[i] == q.rows[i].(id := 0);
        assert a[i] == b[i] ==> a[i].(id := q.rows[i].id) == b[i].(id := q.rows[i].id);
      }
    }
  }

  /** What one operation asks of the memory table for both backends to do the same. */
  ghost predicate Coincides(m: Table, op: Op, caps: Caps)
    requires WellFormed(op)
  {
    match op
    case Add(batch, clock) => Harmless(m.rows + Stamp(batch, clock, m.lastId, caps.bodyLimit), caps)
    case Sweep(cutoff) => OldRowsFirst(m.rows, cutoff)
    case _ => true
  }

  lemma AnonymousTouched(a: seq<Interaction>, b: seq<Interaction>)
    requires Anonymous(a) == Anonymous(b)
    ensures Touched(a) == Touched(b)
  {
    assert |a| == |b|;
    forall i | 0 <= i < |a| ensures a[i].token == b[i].token {
      assert Anonymous(a)[i] == Anonymous(b)[i];
    }
  }

  lemma AnonymousSqlAdd(mr: seq<Interaction>, ms: seq<Interaction>, qr: seq<Interaction>, qs: seq<Interaction>,
                        caps: Caps)
    requires Anonymous(mr) == Anonymous(qr) && Anonymous(ms) == Anonymous(qs)
    ensures Anonymous(SqlAddBatch(mr, ms, caps)) == Anonymous(SqlAddBatch(qr, qs, caps))
  {
    AnonymousTouched(ms, qs);
    hide Capped, Anonymous, Touched, Last;
    var named := Named(Touched(ms));
    AnonymousAppend(mr, ms);
    AnonymousAppend(qr, qs);
    AnonymousCapped(mr + ms, caps.perToken, named);
    AnonymousCapped(qr + qs, caps.perToken, named);
    AnonymousLast(Capped(mr + ms, caps.perToken, named), caps.global);
    AnonymousLast(Capped(qr + qs, caps.perToken, named), caps.global);
  }

  lemma AgreeAfterInsert(mr: seq<Interaction>, ms: seq<Interaction>, qr: seq<Interaction>, qs: seq<Interaction>,
                         caps: Caps)
    requires Anonymous(mr) == Anonymous(qr) && Anonymous(ms) == Anonymous(qs)
    requires WithinCaps(mr, caps) && Increasing(mr + ms)
    ensures Anonymous(AddBatch(mr, ms, caps)) == Anonymous(SqlAddBatch(qr, qs, caps)) <==> Harmless(mr + ms, caps)
  {
    hide Anonymous, AddBatch, SqlAddBatch, Harmless, OfToken, WithinCaps, Increasing;
    AnonymousSqlAdd(mr, ms, qr, qs, caps);
    BackendsAgreeExactly(mr, ms, caps);
    AddBatchKeeps(mr, ms, caps);
    UntokenedWithin(AddBatch(mr, ms, caps), caps);
    AnonymousOfToken(AddBatch(mr, ms, caps), "");
    AnonymousOfToken(SqlAddBatch(mr, ms, caps), "");
  }

  lemma AgreeAfterAdd(m: Table, q: Table, op: Op, caps: Caps)
    requires op.Add? && WellFormed(op)
    requires Sound(m, caps) && Ordered(q) && Agree(m, q)
    ensures Agree(MemoryStep(m, op, caps), SqlStep(q, op, caps)) <==> Coincides(m, op, caps)
    ensures Ordered(SqlStep(q, op, caps))
  {
    var ms := Stamp(op.batch, op.clock, m.lastId, caps.bodyLimit);
    var qs := Stamp(op.batch, op.clock, q.lastId, caps.bodyLimit);
    assert Anonymous(ms) == Anonymous(qs);
    hide Stamp, Harmless, Capped, WithinCaps, AddBatch, Anonymous;
    StampFollows(m.rows, op.batch, op.clock, m.lastId, caps.bodyLimit);
    StampFollows(q.rows, op.batch, op.clock, q.lastId, caps.bodyLimit);
    AgreeAfterInsert(m.rows, ms, q.rows, qs, caps);
    CappedKeepsOrdered(Table(q.rows + qs, q.lastId + |op.batch|), caps, Named(Touched(qs)));
  }

  lemma CappedKeepsOrdered(t: Table, caps: Caps, named: iset<string>)
    requires Ordered(t)
    ensures Ordered(t.(rows := Last(Capped(t.rows, caps.perToken, named), caps.global)))
  {
    hide Capped;
    CappedMembers(t.rows, caps.perToken, named);
  }

  lemma AgreeAfterSweep(m: Table, q: Table, cutoff: Time, caps: Caps)
    requires Ordered(q) && Agree(m, q)
    ensures Agree(MemoryStep(m, Sweep(cutoff), caps), SqlStep(q, Sweep(cutoff), caps)) <==> OldRowsFirst(m.rows, cutoff)
    ensures Ordered(SqlStep(q, Sweep(cutoff), caps))
  {
    hide Anonymous, OldRowsFirst, DropOld, Filter;
    DropOldIsComplete(m.rows, cutoff);
    DropOldKeepsMore(m.rows, cutoff);
    AnonymousNotOld(m.rows, cutoff);
    AnonymousNotOld(q.rows, cutoff);
    FilterKeepsOrder(NotOld(cutoff), q.rows);
  }

  lemma AgreeAfterRemove(m: Table, q: Table, n: nat, caps: Caps)
    requires Ordered(m) && Ordered(q) && Agree(m, q)
    ensures Agree(MemoryStep(m, Remove(n), caps), SqlStep(q, Remove(n), caps))
    ensures Ordered(SqlStep(q, Remove(n), caps))
  {
    AnonymousRemoveNth(m.rows, n);
    AnonymousRemoveNth(q.rows, n);
    if n < |q.rows| {
      FilterKeepsOrder(IdIsNot(q.rows[n].id), q.rows);
    }
  }

  lemma AgreeAfterStep(m: Table, q: Table, op: Op, caps: Caps)
    requires WellFormed(op) && Sound(m, caps) && Ordered(q) && Agree(m, q)
    ensures Agree(MemoryStep(m, op, caps), SqlStep(q, op, caps)) <==> Coincides(m, op, caps)
    ensures Ordered(SqlStep(q, op, caps))
  {
    hide Agree, MemoryStep, SqlStep;
    match op
    case Add(batch, clock) => AgreeAfterAdd(m, q, op, caps);
    case Remove(n) => AgreeAfterRemove(m, q, n, caps);
    case Sweep(cutoff) => AgreeAfterSweep(m, q, cutoff, caps);
    case TakeId => AgreeAfterTakeId(m, q, caps);
  }

  lemma AgreeAfterTakeId(m: Table, q: Table, caps: Caps)
    requires Ordered(q) && Agree(m, q)
    ensures Agree(MemoryStep(m, TakeId, caps), SqlStep(q, TakeId, caps)) && Ordered(SqlStep(q, TakeId, caps))
  {
  }

  /** Both backends hold the same rows at the start and after every operation. */
  ghost predicate AgreeAlong(m: Table, q: Table, ops: seq<Op>, caps: Caps)
    requires forall op :: op in ops ==> WellFormed(op)
    decreases |ops|
  {
    Agree(m, q) && (ops != [] ==> AgreeAlong(MemoryStep(m, ops[0], caps), SqlStep(q, ops[0], caps), ops[1..], caps))
  }

  /** Whenever a batch arrives its untokened rows are harmless, and whenever old rows are swept none of them
      stands behind one that is not old. */
  ghost predicate CoincideAlong(m: Table, ops: seq<Op>, caps: Caps)
    requires forall op :: op in ops ==> WellFormed(op)
    decreases |ops|
  {
    ops != [] ==> Coincides(m, ops[0], caps) && CoincideAlong(MemoryStep(m, ops[0], caps), ops[1..], caps)
  }

  /** The two backends agree after every operation of a run exactly when the run never brings too many
      untokened rows and never sweeps past a row that hides an old one. */
  lemma {:induction false} BackendsAgree(m: Table, q: Table, ops: seq<Op>, caps: Caps)
    requires forall op :: op in ops ==> WellFormed(op)
    requires Sound(m, caps) && Ordered(q) && Agree(m, q)
    ensures AgreeAlong(m, q, ops, caps) <==> CoincideAlong(m, ops, caps)
    decreases |ops|
  {
    if ops != [] {
      hide Agree, Sound, Ordered, MemoryStep, SqlStep, Coincides;
      assert ops[0] in ops;
      AgreeAfterStep(m, q, ops[0], caps);
      MemoryStepKeepsSound(m, ops[0], caps);
      if Coincides(m, ops[0], caps) {
        BackendsAgree(MemoryStep(m, ops[0], caps), SqlStep(q, ops[0], caps), ops[1..], caps);
      } else {
        NoAgreement(MemoryStep(m, ops[0], caps), SqlStep(q, ops[0], caps), ops[1..], caps);
      }
    }
  }

  lemma NoAgreement(m: Table, q: Table, ops: seq<Op>, caps: Caps)
    requires forall op :: op in ops ==> WellFormed(op)
    requires !Agree(m, q)
    ensures !AgreeAlong(m, q, ops, caps)
  {
  }

  ghost predicate Tokened(op: Op) {
    op.Add? ==> forall iv :: iv in op.batch ==> iv.token != ""
  }

  ghost predicate Untokened(rows: seq<Interaction>) {
    exists iv :: iv in rows && iv.token == ""
  }

  lemma TokenedStep(m: Table, op: Op, caps: Caps, now: Time)
    requires Sound(m, caps) && Timely(m.rows, now) && !Untokened(m.rows)
    requires Ticks(op, now) && WellFormed(op) && Tokened(op)
    ensures Coincides(m, op, caps) && !Untokened(MemoryStep(m, op, caps).rows)
  {
    hide WithinCaps, AddBatch, Capped;
    match op
    case Add(batch, clock) =>
      var stamped := Stamp(batch, clock, m.lastId, caps.bodyLimit);
      StampFollows(m.rows, batch, clock, m.lastId, caps.bodyLimit);
      FilterNone(TokenIs(""), m.rows + stamped);
      AddBatchKeeps(m.rows, stamped, caps);
    case Remove(n) =>
      if n < |m.rows| {
        FilterMembers(IdIsNot(m.rows[n].id), m.rows);
      }
    case Sweep(cutoff) =>
      ChronologicalOldFirst(m.rows, cutoff);
      FilterMembers(NotOld(cutoff), m.rows);
    case TakeId =>
  }

  /** In particular they agree throughout when every arrival carries a token and is stamped by a clock that
      does not run backwards. */
  lemma {:induction false} TokenedRunsAgree(m: Table, ops: seq<Op>, caps: Caps, now: Time)
    requires Ticking(ops, now)
    requires forall op :: op in ops ==> WellFormed(op) && Tokened(op)
    requires Sound(m, caps) && Timely(m.rows, now) && !Untokened(m.rows)
    ensures CoincideAlong(m, ops, caps)
    decreases |ops|
  {
    if ops != [] {
      assert ops[0] in ops;
      TokenedStep(m, ops[0], caps, now);
      MemoryStepKeepsSound(m, ops[0], caps);
      MemoryStepKeepsTime(m, ops[0], caps, now);
      hide Sound, Timely, MemoryStep, Coincides, Untokened;
      TokenedRunsAgree(MemoryStep(m, ops[0], caps), ops[1..], caps, After(ops[0], now));
    }
  }
}
