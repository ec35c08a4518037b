/** The sliding-window limit on failed logins: the limiter itself, and what it guarantees over time. */
module LoginLimiter {
  import opened Sequences
  import opened Models

  const WINDOW: Time := 300_000_000_000
  const MAX_FAIL := 10

  function LaterThan(cutoff: Time): Time -> bool {
    (t: Time) => t > cutoff
  }

  /** The recorded failures that a prune at `now` keeps. */
  function Recent(fails: seq<Time>, now: Time): seq<Time> {
    Filter(LaterThan(now - WINDOW), fails)
  }

  // ---- The limiter ----

  /** A slice over a backing array, which it fills up to len. */
  datatype Slice = Slice(arr: array<Time>, len: nat)

  class Limiter {
    var fails: map<string, Slice>

    ghost predicate Valid()
      reads this
    {
      && (forall ip :: ip in fails ==> 0 < fails[ip].len <= fails[ip].arr.Length)
      && (forall a, b :: a in fails && b in fails && a != b ==> fails[a].arr != fails[b].arr)
    }

    ghost function Arrays(): set<object>
      reads this
    {
      set ip | ip in fails :: fails[ip].arr
    }

    /** The failures on record for an address. */
    ghost function Recorded(ip: string): seq<Time>
      requires Valid()
      reads this, Arrays()
    {
      if ip in fails then fails[ip].arr[..fails[ip].len] else []
    }

    constructor ()
      ensures Valid() && fails == map[]
    {
      fails := map[];
    }

    method Allow(ip: string, now: Time) returns (ok: bool)
      requires Valid()
      modifies this, Arrays()
      ensures Valid() && Arrays() <= old(Arrays())
      ensures Recorded(ip) == Recent(old(Recorded(ip)), now)
      ensures forall t :: t in Recorded(ip) <==> t in old(Recorded(ip)) && now - 300_000_000_000 < t
      ensures forall other :: other != ip ==> Recorded(other) == old(Recorded(other))
      ensures ok <==> |Recorded(ip)| < 10
    {
      FilterMembers(LaterThan(now - WINDOW), Recorded(ip));
      Prune(ip, now - WINDOW);
      return if ip in fails then fails[ip].len < MAX_FAIL else true;
    }

    /** Records a failure; the clock is read once to prune and once more to record. */
    method Fail(ip: string, now: Time, later: Time)
      requires Valid()
      modifies this, Arrays()
      ensures Valid() && fresh(Arrays() - old(Arrays()))
      ensures Recorded(ip) == Recent(old(Recorded(ip)), now) + [later]
      ensures forall t :: t in Recorded(ip) <==>
        (t in old(Recorded(ip)) && now - 300_000_000_000 < t) || t == later
      ensures forall other :: other != ip ==> Recorded(other) == old(Recorded(other))
    {
      FilterMembers(LaterThan(now - WINDOW), Recorded(ip));
      Prune(ip, now - WINDOW);
      Append(ip, later);
    }

    /** One login from start to end: without a configured password or after the right one 303, after a form
        that cannot be read 400, refused 429, wrong 401. In terms of the window bound it is a run of at most
        one handler at a time; where the record holds every failure of the last five minutes, the login is
        refused exactly when there are ten of them. */
    method HandleLogin(authRequired: bool, formOk: bool, ip: string, correct: bool,
                       now: Time, failNow: Time, failLater: Time, ghost s: Address)
      returns (status: int, ghost events: seq<Event>, ghost end: Address)
      requires Valid() && s.kept == Recorded(ip) && s.pending == 0 && s.now <= now <= failNow <= failLater
      modifies this, Arrays()
      ensures Valid() && fresh(Arrays() - old(Arrays()))
      ensures Runs(s, events, end, 1) && end.kept == Recorded(ip) && end.pending == 0
      ensures status == (if !authRequired then 303 else if !formOk then 400
                         else if |Recent(s.kept, now)| >= MAX_FAIL then 429 else if correct then 303 else 401)
      ensures Remembers(s) ==> Remembers(end)
      ensures Remembers(s) && authRequired && formOk ==>
        (status == 429 <==> |Filter(t => t > now - 300_000_000_000, s.history)| >= 10)
      ensures !authRequired || !formOk ==> end == s && Recorded(ip) == old(Recorded(ip))
      ensures end.history == if status == 401 then s.history + [failLater] else s.history
      ensures forall other :: other != ip ==> Recorded(other) == old(Recorded(other))
    {
      hide Remembers, Filter;
      RefusedWhenTen(s, now);
      StepRemembers(s, Enter(now));
      if !authRequired {
        return 303, [], s;
      }
      if !formOk {
        return 400, [], s;
      }
      var ok := Allow(ip, now);
      end := Next(s, Enter(now));
      RunsOne(s, Enter(now), end);
      events := [Enter(now)];
      if !ok {
        return 429, events, end;
      }
      if !correct {
        Fail(ip, failNow, failLater);
        StepRemembers(end, Failed(failNow, failLater));
        RunsTwo(s, Enter(now), Failed(failNow, failLater));
        events, end := [Enter(now), Failed(failNow, failLater)], Next(end, Failed(failNow, failLater));
        return 401, events, end;
      }
      StepRemembers(end, Succeeded);
      RunsTwo(s, Enter(now), Succeeded);
      events, end := [Enter(now), Succeeded], Next(end, Succeeded);
      return 303, events, end;
    }

    method Append(ip: string, t: Time)
      requires Valid()
      modifies this, Arrays()
      ensures Valid() && fresh(Arrays() - old(Arrays()))
      ensures Recorded(ip) == old(Recorded(ip)) + [t]
      ensures forall other :: other != ip ==> Recorded(other) == old(Recorded(other))
    {
      if ip in fails && fails[ip].len < fails[ip].arr.Length {
        var s := fails[ip];
        s.arr[s.len] := t;
        fails := fails[ip := Slice(s.arr, s.len + 1)];
      } else {
        var grown := Grown(ip, t);
        fails := fails[ip := grown];
      }
    }

    /** A larger copy of the slice of an address, with t behind it. */
    method Grown(ip: string, t: Time) returns (s: Slice)
      requires Valid()
      ensures fresh(s.arr) && 0 < s.len <= s.arr.Length
      ensures s.arr[..s.len] == Recorded(ip) + [t]
    {
      var n := if ip in fails then fails[ip].len else 0;
      var arr := new Time[2 * n + 1];
      if ip in fails {
        forall i | 0 <= i < n {
          arr[i] := fails[ip].arr[i];
        }
      }
      arr[n] := t;
      s := Slice(arr, n + 1);
      assert arr[..n] == Recorded(ip);
    }

    /** Drops the failures of an address up to the cutoff, compacting its array in place. */
    method Prune(ip: string, cutoff: Time)
      requires Valid()
      modifies this, Arrays()
      ensures Valid() && Arrays() <= old(Arrays())
      ensures Recorded(ip) == Filter(LaterThan(cutoff), old(Recorded(ip)))
      ensures forall other :: other != ip ==> Recorded(other) == old(Recorded(other))
    {
      if ip !in fails {
        return;
      }
      var s := fails[ip];
      var k := Compact(s.arr, s.len, cutoff);
      if k == 0 {
        fails := fails - {ip};
      } else {
        fails := fails[ip := Slice(s.arr, k)];
      }
    }
  }

  /** Moves the elements later than the cutoff to the front, in order. */
  method Compact(a: array<Time>, n: nat, cutoff: Time) returns (k: nat)
    requires n <= a.Length
    modifies a
    ensures k <= n && a[..k] == Filter(LaterThan(cutoff), old(a[..n]))
  {
    k := 0;
    ghost var was := a[..n];
    for i := 0 to n
      invariant k <= i && a[..k] == Filter(LaterThan(cutoff), was[..i])
      invariant forall j :: i <= j < n ==> a[j] == was[j]
    {
      var t := a[i];
      assert t == was[i] && was[..i + 1] == was[..i] + [t];
      FilterAppend(LaterThan(cutoff), was[..i], [t]);
      if t > cutoff {
        a[k] := t;
        k := k + 1;
      }
    }
    assert was[..n] == was;
  }

  // ---- The window bound ----

  /** One address: the failures still on record, the login handlers that were let through and have not
      finished, every failure ever recorded, and the clock. */
  datatype Address = Address(kept: seq<Time>, pending: nat, history: seq<Time>, now: Time)

  /** A handler asks to be let in; a handler let in records a failure; a handler let in succeeds. */
  datatype Event = Enter(now: Time) | Failed(now: Time, later: Time) | Succeeded

  ghost predicate Possible(s: Address, e: Event) {
    match e
    case Enter(now) => s.now <= now
    case Failed(now, later) => s.pending > 0 && s.now <= now <= later
    case Succeeded => s.pending > 0
  }

  function Next(s: Address, e: Event): Address
    requires e.Enter? || s.pending > 0
  {
    match e
    case Enter(now) =>
      var kept := Recent(s.kept, now);
      s.(kept := kept, now := now, pending := if |kept| < MAX_FAIL then s.pending + 1 else s.pending)
    case Failed(now, later) =>
      Address(Recent(s.kept, now) + [later], s.pending - 1, s.history + [later], later)
    case Succeeded => s.(pending := s.pending - 1)
  }

  /** A run in which the clock does not run backwards and at most K handlers are inside at a time. */
  ghost predicate Runs(s: Address, events: seq<Event>, end: Address, K: nat)
    decreases |events|
  {
    if events == [] then end == s
    else Possible(s, events[0]) && Next(s, events[0]).pending <= K && Runs(Next(s, events[0]), events[1..], end, K)
  }

  lemma RunsOne(s: Address, e: Event, end: Address)
    requires s.pending == 0 && Possible(s, e) && Next(s, e) == end
    ensures Runs(s, [e], end, 1)
  {
  }

  lemma RunsTwo(s: Address, first: Event, second: Event)
    requires s.pending == 0 && Possible(s, first) && Possible(Next(s, first), second) && !second.Enter?
    ensures Runs(s, [first, second], Next(Next(s, first), second), 1)
  {
    assert [first, second][1..] == [second];
    assert [second][1..] == [];
  }

  /** The record holds every failure of the last five minutes. */
  ghost predicate Remembers(s: Address) {
    Filter(t => t > s.now - 300_000_000_000, s.kept) == Filter(t => t > s.now - 300_000_000_000, s.history)
  }

  lemma RecentInNanoseconds(fails: seq<Time>, now: Time)
    ensures Recent(fails, now) == Filter(t => t > now - 300_000_000_000, fails)
  {
    FilterAgree(LaterThan(now - WINDOW), t => t > now - 300_000_000_000, fails);
  }

  lemma RemembersRecent(s: Address)
    ensures Remembers(s) <==> Recent(s.kept, s.now) == Recent(s.history, s.now)
  {
    RecentInNanoseconds(s.kept, s.now);
    RecentInNanoseconds(s.history, s.now);
    hide Filter, Recent;
  }

  /** A handler is let in unless ten failures are less than five minutes old. */
  lemma RefusedWhenTen(s: Address, now: Time)
    requires s.now <= now
    ensures Remembers(s) ==>
      (Next(s, Enter(now)).pending == s.pending <==> |Filter(t => t > now - 300_000_000_000, s.history)| >= 10)
    ensures Remembers(s) ==> |Recent(s.kept, now)| == |Filter(t => t > now - 300_000_000_000, s.history)|
  {
    hide Remembers, Recent;
    RemembersRecent(s);
    RecentInNanoseconds(s.history, now);
    RecentLater(s.kept, s.now, now);
    RecentLater(s.history, s.now, now);
  }

  lemma StepRemembers(s: Address, e: Event)
    requires Possible(s, e)
    ensures Remembers(s) ==> Remembers(Next(s, e))
  {
    hide Remembers, Recent;
    RemembersRecent(s);
    RemembersRecent(Next(s, e));
    match e
    case Enter(now) =>
      RecentLater(s.kept, s.now, now);
      RecentLater(s.history, s.now, now);
      RecentLater(s.kept, now, now);
    case Failed(now, later) =>
      RecentLater(s.kept, s.now, later);
      RecentLater(s.history, s.now, later);
      RecentLater(s.kept, now, later);
      RecentAppend(Recent(s.kept, now), later, later);
      RecentAppend(s.history, later, later);
    case Succeeded =>
  }

  lemma {:induction false} RunRemembers(s: Address, events: seq<Event>, end: Address, K: nat)
    requires Remembers(s) && Runs(s, events, end, K)
    ensures Remembers(end)
    decreases |events|
  {
    if events != [] {
      hide Remembers, Next, Possible;
      StepRemembers(s, events[0]);
      RunRemembers(Next(s, events[0]), events[1..], end, K);
    }
  }

  /** After any run, whatever the number of handlers: the next one is refused exactly when at least ten
      failures of the whole history are less than five minutes old, so a lockout ends by itself. */
  lemma RefusedExactly(events: seq<Event>, end: Address, K: nat, start: Time, now: Time)
    requires Runs(Address([], 0, [], start), events, end, K) && end.now <= now
    ensures Next(end, Enter(now)).pending
         == if |Filter(t => t > now - 300_000_000_000, end.history)| >= 10 then end.pending else end.pending + 1
  {
    RunRemembers(Address([], 0, [], start), events, end, K);
    RefusedWhenTen(end, now);
  }

  function InWindow(start: Time): Time -> bool {
    (t: Time) => start <= t < start + WINDOW
  }

  /** The record holds every failure of the last window, and those plus the handlers inside are bounded. */
  ghost predicate Bounded(s: Address, K: nat) {
    && s.pending <= K
    && (forall t :: t in s.history ==> t <= s.now)
    && Recent(s.kept, s.now) == Recent(s.history, s.now)
    && |Recent(s.history, s.now)| + s.pending <= MAX_FAIL - 1 + K
  }

  lemma RecentLater(fails: seq<Time>, now: Time, later: Time)
    requires now <= later
    ensures Recent(Recent(fails, now), later) == Recent(fails, later)
    ensures |Recent(fails, later)| <= |Recent(fails, now)|
  {
    FilterTwice(LaterThan(later - WINDOW), LaterThan(now - WINDOW), LaterThan(later - WINDOW), fails);
    assert |Filter(LaterThan(later - WINDOW), Recent(fails, now))| <= |Recent(fails, now)|;
  }

  lemma RecentAppend(fails: seq<Time>, t: Time, now: Time)
    requires now - WINDOW < t
    ensures Recent(fails + [t], now) == Recent(fails, now) + [t]
  {
    FilterAppend(LaterThan(now - WINDOW), fails, [t]);
  }

  lemma StepBounded(s: Address, e: Event, K: nat)
    requires Bounded(s, K) && Possible(s, e) && Next(s, e).pending <= K
    ensures Bounded(Next(s, e), K)
  {
    match e
    case Enter(now) =>
      RecentLater(s.kept, s.now, now);
      RecentLater(s.history, s.now, now);
      RecentLater(s.kept, now, now);
    case Failed(now, later) =>
      RecentLater(s.kept, s.now, later);
      RecentLater(s.history, s.now, later);
      RecentLater(s.kept, now, later);
      RecentAppend(Recent(s.kept, now), later, later);
      RecentAppend(s.history, later, later);
    case Succeeded =>
  }

  /** A window that the newest failure falls into lies within the last window before it. */
  lemma WindowIsRecent(history: seq<Time>, start: Time, now: Time)
    requires now < start + WINDOW
    ensures |Filter(InWindow(start), history)| <= |Recent(history, now)|
  {
    var both := (t: Time) => InWindow(start)(t) && LaterThan(now - WINDOW)(t);
    FilterTwice(InWindow(start), LaterThan(now - WINDOW), both, history);
    FilterAgree(InWindow(start), both, history);
    assert |Filter(InWindow(start), Recent(history, now))| <= |Recent(history, now)|;
  }

  lemma {:induction false} RunBounded(s: Address, events: seq<Event>, end: Address, K: nat, start: Time)
    requires Bounded(s, K) && Runs(s, events, end, K)
    requires |Filter(InWindow(start), s.history)| <= MAX_FAIL - 1 + K
    ensures Bounded(end, K)
    ensures |Filter(InWindow(start), end.history)| <= MAX_FAIL - 1 + K
    decreases |events|
  {
    if events != [] {
      var n := Next(s, events[0]);
      StepBounded(s, events[0], K);
      if events[0].Failed? {
        FilterAppend(InWindow(start), s.history, [events[0].later]);
        if InWindow(start)(n.now) {
          WindowIsRecent(n.history, start, n.now);
        }
      }
      RunBounded(n, events[1..], end, K, start);
    }
  }

  /** With at most K handlers of one address inside at a time, no window of five minutes ever holds more
      than 9 + K recorded failures, and no failure of the current window is ever dropped from the record. */
  lemma WindowBound(events: seq<Event>, end: Address, K: nat, now: Time, start: Time)
    requires Runs(Address([], 0, [], now), events, end, K)
    ensures |Filter(t => start <= t < start + 300_000_000_000, end.history)| <= 9 + K
    ensures Remembers(end)
  {
    FilterAgree(InWindow(start), t => start <= t < start + 300_000_000_000, end.history);
    RunRemembers(Address([], 0, [], now), events, end, K);
    RunBounded(Address([], 0, [], now), events, end, K, start);
  }

  // ---- The bound is attained ----

  function Zeros(n: nat): (r: seq<Time>)
    ensures |r| == n && forall i :: 0 <= i < n ==> r[i] == 0
  {
    seq(n, _ => 0)
  }

  lemma RecentZeros(n: nat)
    ensures Recent(Zeros(n), 0) == Zeros(n)
  {
    FilterAll(LaterThan(0 - WINDOW), Zeros(n));
  }

  function Repeat(e: Event, n: nat): seq<Event> {
    if n == 0 then [] else [e] + Repeat(e, n - 1)
  }

  lemma {:induction false} RunsAppend(s: Address, first: seq<Event>, mid: Address, second: seq<Event>, end: Address,
                                      K: nat)
    requires Runs(s, first, mid, K) && Runs(mid, second, end, K)
    ensures Runs(s, first + second, end, K)
    decreases |first|
  {
    if first == [] {
      assert first + second == second;
    } else {
      RunsAppend(Next(s, first[0]), first[1..], mid, second, end, K);
      assert (first + second)[1..] == first[1..] + second;
    }
  }

  /** n login attempts, one after the other, all failing at the same instant. */
  lemma {:induction false} OneByOne(n: nat, K: nat) returns (events: seq<Event>)
    requires n < MAX_FAIL && K > 0
    ensures Runs(Address([], 0, [], 0), events, Address(Zeros(n), 0, Zeros(n), 0), K)
  {
    if n == 0 {
      events := [];
      assert Zeros(0) == [];
    } else {
      var before := OneByOne(n - 1, K);
      RecentZeros(n - 1);
      var s := Address(Zeros(n - 1), 0, Zeros(n - 1), 0);
      var inside := Address(Zeros(n - 1), 1, Zeros(n - 1), 0);
      var end := Address(Zeros(n), 0, Zeros(n), 0);
      assert Zeros(n) == Zeros(n - 1) + [0];
      assert Next(s, Enter(0)) == inside && Next(inside, Failed(0, 0)) == end;
      var last := [Enter(0), Failed(0, 0)];
      assert last[1..] == [Failed(0, 0)] && last[1..][1..] == [];
      assert Runs(inside, last[1..], end, K);
      RunsAppend(Address([], 0, [], 0), before, s, last, end, K);
      events := before + last;
    }
  }

  lemma {:induction false} AllEnter(n: nat, inside: nat, K: nat)
    requires inside + n <= K
    ensures Runs(Address(Zeros(MAX_FAIL - 1), inside, Zeros(MAX_FAIL - 1), 0), Repeat(Enter(0), n),
                 Address(Zeros(MAX_FAIL - 1), inside + n, Zeros(MAX_FAIL - 1), 0), K)
  {
    RecentZeros(MAX_FAIL - 1);
    if n > 0 {
      AllEnter(n - 1, inside + 1, K);
    }
  }

  lemma {:induction false} AllFail(n: nat, m: nat, K: nat)
    requires n <= K
    ensures Runs(Address(Zeros(m), n, Zeros(m), 0), Repeat(Failed(0, 0), n),
                 Address(Zeros(m + n), 0, Zeros(m + n), 0), K)
  {
    RecentZeros(m);
    if n > 0 {
      assert Zeros(m + 1) == Zeros(m) + [0];
      AllFail(n - 1, m + 1, K);
    }
  }

  /** For every K there is a run with 9 + K failures in one window, so the bound cannot be lowered. */
  lemma WindowBoundIsTight(K: nat)
    requires K > 0
    ensures exists events, end ::
      && Runs(Address([], 0, [], 0), events, end, K)
      && |Filter(t => 0 <= t < 300_000_000_000, end.history)| == 9 + K
  {
    var nine := Address(Zeros(MAX_FAIL - 1), 0, Zeros(MAX_FAIL - 1), 0);
    var full := nine.(pending := K);
    var end := Address(Zeros(MAX_FAIL - 1 + K), 0, Zeros(MAX_FAIL - 1 + K), 0);
    var first := OneByOne(MAX_FAIL - 1, K);
    AllEnter(K, 0, K);
    AllFail(K, MAX_FAIL - 1, K);
    RunsAppend(nine, Repeat(Enter(0), K), full, Repeat(Failed(0, 0), K), end, K);
    RunsAppend(Address([], 0, [], 0), first, nine, Repeat(Enter(0), K) + Repeat(Failed(0, 0), K), end, K);
    FilterAll(t => 0 <= t < 300_000_000_000, end.history);
    assert Runs(Address([], 0, [], 0), first + (Repeat(Enter(0), K) + Repeat(Failed(0, 0), K)), end, K);
  }
}
