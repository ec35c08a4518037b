/** What a store does to an arriving interaction before it keeps it, and what retention removes. */
module Arrivals {
  import opened Sequences
  import opened Models
  import opened CapRule

  /** The stored form of an arrival: its id, its truncated body, and a time if it had none. */
  function StampOne(iv: Interaction, now: Time, id: int, bodyLimit: nat): (r: Interaction)
    ensures r.body <= iv.body && |r.body| <= bodyLimit && (r.body != iv.body ==> |r.body| == bodyLimit)
    ensures r.createdAt != iv.createdAt ==> iv.createdAt == 0 && r.createdAt == now
    ensures now != 0 ==> r.createdAt != 0
    ensures r.id == id && r.(id := iv.id, body := iv.body, createdAt := iv.createdAt) == iv
  {
    iv.(id := id, body := First(iv.body, bodyLimit), createdAt := if iv.createdAt == 0 then now else iv.createdAt)
  }

  /** The stored forms of a batch; clock[i] is the time read for arrival i, and the ids follow lastId. */
  function Stamp(batch: seq<Interaction>, clock: seq<Time>, lastId: int, bodyLimit: nat): (r: seq<Interaction>)
    requires |clock| == |batch|
    ensures |r| == |batch|
    ensures forall i :: 0 <= i < |batch| ==> r[i].id == lastId + 1 + i
  {
    seq(|batch|, i requires 0 <= i < |batch| => StampOne(batch[i], clock[i], lastId + 1 + i, bodyLimit))
  }

  lemma StampAt(batch: seq<Interaction>, clock: seq<Time>, lastId: int, bodyLimit: nat, i: nat)
    requires |clock| == |batch| && i < |batch|
    ensures Stamp(batch, clock, lastId, bodyLimit)[i] == StampOne(batch[i], clock[i], lastId + 1 + i, bodyLimit)
  {
  }

  lemma StampFollows(rows: seq<Interaction>, batch: seq<Interaction>, clock: seq<Time>, lastId: int, bodyLimit: nat)
    requires |clock| == |batch|
    requires Increasing(rows) && forall iv :: iv in rows ==> iv.id <= lastId
    ensures Increasing(rows + Stamp(batch, clock, lastId, bodyLimit))
    ensures forall iv :: iv in rows + Stamp(batch, clock, lastId, bodyLimit) ==> iv.id <= lastId + |batch|
  {
    var stamped := Stamp(batch, clock, lastId, bodyLimit);
    assert Increasing(stamped);
    IncreasingJoin(rows, stamped);
  }

  predicate IsOld(iv: Interaction, cutoff: Time) {
    iv.createdAt < cutoff
  }

  function NotOld(cutoff: Time): Interaction -> bool {
    (iv: Interaction) => !IsOld(iv, cutoff)
  }

  /** Rows left after dropping the longest prefix that is older than the cutoff. */
  function DropOld(rows: seq<Interaction>, cutoff: Time): seq<Interaction> {
    if rows != [] && IsOld(rows[0], cutoff) then DropOld(rows[1..], cutoff) else rows
  }

  ghost predicate Chronological(rows: seq<Interaction>) {
    forall i, j :: 0 <= i < j < |rows| ==> rows[i].createdAt <= rows[j].createdAt
  }

  lemma {:induction false} FilterKeepsTime(p: Interaction -> bool, rows: seq<Interaction>)
    requires Chronological(rows)
    ensures Chronological(Filter(p, rows))
  {
    if rows != [] {
      FilterKeepsTime(p, rows[1..]);
      FilterMembers(p, rows[1..]);
      var head := if p(rows[0]) then [rows[0]] else [];
      var all := head + Filter(p, rows[1..]);
      forall i, j | 0 <= i < j < |all| ensures all[i].createdAt <= all[j].createdAt {
        if head != [] && i == 0 {
          assert all[j] in Filter(p, rows[1..]);
        }
      }
    }
  }

  /** No old row stands behind a row that is not old. */
  ghost predicate OldRowsFirst(rows: seq<Interaction>, cutoff: Time) {
    forall i, j :: 0 <= i < j < |rows| && IsOld(rows[j], cutoff) ==> IsOld(rows[i], cutoff)
  }

  /** The prefix walk removes every old row exactly when no old row hides behind a newer one. */
  lemma {:induction false} DropOldIsComplete(rows: seq<Interaction>, cutoff: Time)
    ensures DropOld(rows, cutoff) == Filter(NotOld(cutoff), rows) <==> OldRowsFirst(rows, cutoff)
  {
    if rows != [] {
      if IsOld(rows[0], cutoff) {
        DropOldIsComplete(rows[1..], cutoff);
        if OldRowsFirst(rows[1..], cutoff) {
          assert forall j :: 0 < j < |rows| ==> rows[j] == rows[1..][j - 1];
        }
      } else if OldRowsFirst(rows, cutoff) {
        FilterAll(NotOld(cutoff), rows);
      } else {
        var j :| 0 <= j < |rows| && IsOld(rows[j], cutoff);
        FilterMembers(NotOld(cutoff), rows);
        assert rows[j] in rows && rows[j] !in Filter(NotOld(cutoff), rows);
      }
    }
  }

  /** What the walk leaves holds every row that is not old, and more when an old row hides among them. */
  lemma {:induction false} DropOldKeepsMore(rows: seq<Interaction>, cutoff: Time)
    ensures |Filter(NotOld(cutoff), rows)| <= |DropOld(rows, cutoff)|
    ensures |Filter(NotOld(cutoff), rows)| == |DropOld(rows, cutoff)| <==> OldRowsFirst(rows, cutoff)
  {
    if rows != [] && IsOld(rows[0], cutoff) {
      DropOldKeepsMore(rows[1..], cutoff);
      assert forall j :: 0 < j < |rows| ==> rows[j] == rows[1..][j - 1];
    } else if OldRowsFirst(rows, cutoff) {
      DropOldIsComplete(rows, cutoff);
    } else {
      var j :| 0 <= j < |rows| && IsOld(rows[j], cutoff);
      assert rows[j] in rows && !NotOld(cutoff)(rows[j]);
      FilterShrinks(NotOld(cutoff), rows);
    }
  }

  lemma ChronologicalOldFirst(rows: seq<Interaction>, cutoff: Time)
    requires Chronological(rows)
    ensures OldRowsFirst(rows, cutoff) && DropOld(rows, cutoff) == Filter(NotOld(cutoff), rows)
  {
    DropOldIsComplete(rows, cutoff);
  }

  /** An event that brings its own, earlier time survives the walk although it is old. */
  lemma DropOldMissesBackdated(recent: Interaction, backdated: Interaction, cutoff: Time)
    requires backdated.createdAt < cutoff <= recent.createdAt
    ensures backdated in DropOld([recent, backdated], cutoff)
    ensures backdated !in Filter(NotOld(cutoff), [recent, backdated])
  {
    FilterMembers(NotOld(cutoff), [recent, backdated]);
  }

  /** How many rows the walk drops. */
  function OldPrefix(rows: seq<Interaction>, cutoff: Time): (n: nat)
    ensures n <= |rows|
  {
    if rows != [] && IsOld(rows[0], cutoff) then 1 + OldPrefix(rows[1..], cutoff) else 0
  }

  /** What is dropped is a prefix of old rows, and it stops at a row that is not old. */
  lemma {:induction false} DropOldIsPrefix(rows: seq<Interaction>, cutoff: Time)
    ensures var n := OldPrefix(rows, cutoff);
      && DropOld(rows, cutoff) == rows[n..]
      && (forall i :: 0 <= i < n ==> rows[i].createdAt < cutoff)
      && (n < |rows| ==> rows[n].createdAt >= cutoff)
  {
    if rows != [] && IsOld(rows[0], cutoff) {
      DropOldIsPrefix(rows[1..], cutoff);
      var n := OldPrefix(rows[1..], cutoff);
      assert rows[1..][n..] == rows[n + 1..];
      assert forall i :: 0 < i < n + 1 ==> rows[i] == rows[1..][i - 1];
    }
  }

  lemma DropOldKeepsCaps(rows: seq<Interaction>, cutoff: Time, caps: Caps)
    requires WithinCaps(rows, caps)
    ensures WithinCaps(DropOld(rows, cutoff), caps)
  {
    DropOldIsPrefix(rows, cutoff);
    var n := OldPrefix(rows, cutoff);
    assert rows == rows[..n] + rows[n..];
    TokensWithinSuffix(rows[..n], rows[n..], caps.perToken, EveryToken);
  }
}
