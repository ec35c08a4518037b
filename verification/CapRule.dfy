/** The capacity rule: which interactions survive when batches arrive. */
module CapRule {
  import opened Sequences
  import opened Models

  /** The configured limits. Both stores replace a limit that is not positive by a default. */
  datatype Caps = Caps(global: nat, perToken: nat, bodyLimit: nat)

  const DEFAULT_GLOBAL := 100000
  const DEFAULT_PER_TOKEN := 10000
  const DEFAULT_BODY := 512

  function Configured(maxInteractions: int, maxPerToken: int, bodyTruncate: int): (caps: Caps)
    ensures caps.global > 0 && caps.perToken > 0 && caps.bodyLimit > 0
  {
    Caps(if maxInteractions <= 0 then DEFAULT_GLOBAL else maxInteractions,
         if maxPerToken <= 0 then DEFAULT_PER_TOKEN else maxPerToken,
         if bodyTruncate <= 0 then DEFAULT_BODY else bodyTruncate)
  }

  function TokenIs(t: string): Interaction -> bool {
    (iv: Interaction) => iv.token == t
  }

  function IdIsNot(id: int): Interaction -> bool {
    (iv: Interaction) => iv.id != id
  }

  function OfToken(rows: seq<Interaction>, t: string): seq<Interaction> {
    Filter(TokenIs(t), rows)
  }

  function Without(rows: seq<Interaction>, id: int): seq<Interaction> {
    Filter(IdIsNot(id), rows)
  }

  ghost const EveryToken: iset<string> := iset t: string | true

  /** Does a row that `newer` follows survive? */
  ghost predicate Fits(h: Interaction, newer: seq<Interaction>, cap: nat, named: iset<string>) {
    h.token in named ==> |OfToken(newer, h.token)| < cap
  }

  /** Drops every row of a token in `named` that has `cap` or more newer rows of the same token. */
  ghost function Capped(rows: seq<Interaction>, cap: nat, named: iset<string>): seq<Interaction> {
    if rows == [] then []
    else (if Fits(rows[0], rows[1..], cap, named) then [rows[0]] else []) + Capped(rows[1..], cap, named)
  }

  ghost predicate TokensWithin(rows: seq<Interaction>, cap: nat, named: iset<string>) {
    forall t :: t in named ==> |OfToken(rows, t)| <= cap
  }

  ghost predicate WithinCaps(rows: seq<Interaction>, caps: Caps) {
    |rows| <= caps.global && TokensWithin(rows, caps.perToken, EveryToken)
  }

  lemma {:induction false} FilterKeepsOrder(p: Interaction -> bool, rows: seq<Interaction>)
    requires Increasing(rows)
    ensures Increasing(Filter(p, rows))
    ensures forall iv :: iv in Filter(p, rows) ==> iv in rows
  {
    FilterMembers(p, rows);
    if rows != [] {
      var head := if p(rows[0]) then [rows[0]] else [];
      assert rows == [rows[0]] + rows[1..];
      IncreasingParts([rows[0]], rows[1..]);
      FilterKeepsOrder(p, rows[1..]);
      assert rows[0] in [rows[0]];
      IncreasingJoin(head, Filter(p, rows[1..]));
    }
  }

  /** Deleting by an id removes just the row that carries it. */
  lemma {:induction false} WithoutIsRemoveAt(rows: seq<Interaction>, n: nat)
    requires Increasing(rows) && n < |rows|
    ensures Without(rows, rows[n].id) == rows[..n] + rows[n + 1..]
  {
    var h, rest := rows[0], rows[1..];
    if n == 0 {
      FilterAll(IdIsNot(h.id), rest);
    } else {
      WithoutIsRemoveAt(rest, n - 1);
      assert rows[n].id == rest[n - 1].id != h.id;
      assert rows[..n] == [h] + rest[..n - 1];
    }
  }

  // ---- What one arrival and one batch do in the memory store ----

  /** Appends iv, then evicts the oldest row of its token if that token is now over its cap. */
  function AddOne(rows: seq<Interaction>, iv: Interaction, cap: nat): seq<Interaction> {
    var grown := rows + [iv];
    var mine := OfToken(grown, iv.token);
    if |mine| > cap then Without(grown, mine[0].id) else grown
  }

  function AddEach(rows: seq<Interaction>, batch: seq<Interaction>, cap: nat): seq<Interaction>
    decreases |batch|
  {
    if batch == [] then rows
    else AddOne(AddEach(rows, batch[..|batch| - 1], cap), batch[|batch| - 1], cap)
  }

  /** A whole batch: every arrival in turn, then the global cap once. */
  function AddBatch(rows: seq<Interaction>, batch: seq<Interaction>, caps: Caps): seq<Interaction> {
    if batch == [] then rows else Last(AddEach(rows, batch, caps.perToken), caps.global)
  }

  function AddBatches(rows: seq<Interaction>, batches: seq<seq<Interaction>>, caps: Caps): seq<Interaction>
    decreases |batches|
  {
    if batches == [] then rows
    else AddBatch(AddBatches(rows, batches[..|batches| - 1], caps), batches[|batches| - 1], caps)
  }

  // ---- Facts about Capped ----

  lemma {:induction false} OfTokenSplit(rows: seq<Interaction>, t: string)
    requires rows != []
    ensures OfToken(rows, t) == (if rows[0].token == t then [rows[0]] else []) + OfToken(rows[1..], t)
  {
  }

  /** Capped keeps exactly the newest rows of each named token and all rows of the others. */
  lemma {:induction false} CappedOfToken(rows: seq<Interaction>, cap: nat, named: iset<string>, t: string)
    ensures OfToken(Capped(rows, cap, named), t)
         == if t in named then Last(OfToken(rows, t), cap) else OfToken(rows, t)
  {
    if rows != [] {
      CappedOfToken(rows[1..], cap, named, t);
      hide Capped;
      assert rows == [rows[0]] + rows[1..];
      CappedOfTokenStep(rows[0], rows[1..], cap, named, t);
    }
  }

  lemma CappedOfTokenStep(h: Interaction, rest: seq<Interaction>, cap: nat, named: iset<string>, t: string)
    requires OfToken(Capped(rest, cap, named), t)
          == if t in named then Last(OfToken(rest, t), cap) else OfToken(rest, t)
    ensures OfToken(Capped([h] + rest, cap, named), t)
         == if t in named then Last(OfToken([h] + rest, t), cap) else OfToken([h] + rest, t)
  {
    hide Capped, Filter, OfToken;
    CappedCons(h, rest, cap, named);
    OfTokenCons(h, rest, t);
    OfTokenCons(h, Capped(rest, cap, named), t);
    if h.token == t && t in named {
      LastOfAppend([h], OfToken(rest, t), cap);
    }
  }

  lemma OfTokenCons(h: Interaction, rest: seq<Interaction>, t: string)
    ensures OfToken([h] + rest, t) == if h.token == t then [h] + OfToken(rest, t) else OfToken(rest, t)
  {
    assert ([h] + rest)[1..] == rest;
  }

  lemma {:induction false} CappedIdentity(rows: seq<Interaction>, cap: nat, named: iset<string>)
    requires TokensWithin(rows, cap, named)
    ensures Capped(rows, cap, named) == rows
  {
    if rows != [] {
      forall t | t in named ensures |OfToken(rows[1..], t)| <= cap {
        OfTokenSplit(rows, t);
      }
      OfTokenSplit(rows, rows[0].token);
      CappedIdentity(rows[1..], cap, named);
    }
  }

  lemma CappedWithin(rows: seq<Interaction>, cap: nat, named: iset<string>)
    ensures TokensWithin(Capped(rows, cap, named), cap, named)
  {
    forall t | t in named ensures |OfToken(Capped(rows, cap, named), t)| <= cap {
      CappedOfToken(rows, cap, named, t);
    }
  }

  lemma CappedCons(h: Interaction, rest: seq<Interaction>, cap: nat, named: iset<string>)
    ensures Fits(h, rest, cap, named) ==> Capped([h] + rest, cap, named) == [h] + Capped(rest, cap, named)
    ensures !Fits(h, rest, cap, named) ==> Capped([h] + rest, cap, named) == Capped(rest, cap, named)
  {
    assert ([h] + rest)[1..] == rest;
  }

  /** Capping the older part early does not change the outcome. */
  lemma {:induction false} CappedAbsorbs(a: seq<Interaction>, b: seq<Interaction>, cap: nat, named: iset<string>)
    ensures Capped(Capped(a, cap, named) + b, cap, named) == Capped(a + b, cap, named)
  {
    if a == [] {
      assert Capped(a, cap, named) + b == b && a + b == b;
    } else {
      CappedAbsorbs(a[1..], b, cap, named);
      hide Capped;
      AbsorbStep(a[0], a[1..], b, cap, named);
      assert a == [a[0]] + a[1..];
    }
  }

  lemma AbsorbStep(h: Interaction, rest: seq<Interaction>, b: seq<Interaction>, cap: nat, named: iset<string>)
    requires Capped(Capped(rest, cap, named) + b, cap, named) == Capped(rest + b, cap, named)
    ensures Capped(Capped([h] + rest, cap, named) + b, cap, named) == Capped([h] + rest + b, cap, named)
  {
    hide Capped, Fits;
    CappedCons(h, rest, cap, named);
    CappedCons(h, rest + b, cap, named);
    CappedCons(h, Capped(rest, cap, named) + b, cap, named);
    FitsAfterCapping(h, rest, b, cap, named);
    assert [h] + rest + b == [h] + (rest + b);
    assert [h] + Capped(rest, cap, named) + b == [h] + (Capped(rest, cap, named) + b);
  }

  lemma FitsAfterCapping(h: Interaction, rest: seq<Interaction>, b: seq<Interaction>, cap: nat, named: iset<string>)
    ensures Fits(h, rest + b, cap, named) ==> Fits(h, rest, cap, named)
    ensures Fits(h, rest, cap, named) ==>
      (Fits(h, Capped(rest, cap, named) + b, cap, named) <==> Fits(h, rest + b, cap, named))
  {
    CappedOfToken(rest, cap, named, h.token);
    FilterAppend(TokenIs(h.token), rest, b);
    FilterAppend(TokenIs(h.token), Capped(rest, cap, named), b);
  }

  /** Capping one set of tokens and then another caps their union, in either order. */
  lemma {:induction false} CappedCompose(rows: seq<Interaction>, cap: nat, first: iset<string>, second: iset<string>)
    ensures Capped(Capped(rows, cap, first), cap, second) == Capped(rows, cap, first + second)
  {
    if rows != [] {
      CappedCompose(rows[1..], cap, first, second);
      hide Capped;
      assert rows == [rows[0]] + rows[1..];
      ComposeStep(rows[0], rows[1..], cap, first, second);
    }
  }

  lemma ComposeStep(h: Interaction, rest: seq<Interaction>, cap: nat, first: iset<string>, second: iset<string>)
    requires Capped(Capped(rest, cap, first), cap, second) == Capped(rest, cap, first + second)
    ensures Capped(Capped([h] + rest, cap, first), cap, second) == Capped([h] + rest, cap, first + second)
  {
    hide Capped, OfToken;
    CappedOfToken(rest, cap, first, h.token);
    CappedCons(h, rest, cap, first);
    CappedCons(h, Capped(rest, cap, first), cap, second);
    CappedCons(h, rest, cap, first + second);
  }

  /** Tokens that are within the cap anyway need not be named. */
  lemma {:induction false} CappedUnnamed(rows: seq<Interaction>, cap: nat, named: iset<string>)
    requires forall t :: t !in named ==> |OfToken(rows, t)| <= cap
    ensures Capped(rows, cap, named) == Capped(rows, cap, EveryToken)
  {
    if rows != [] {
      forall t | t !in named ensures |OfToken(rows[1..], t)| <= cap {
        OfTokenSplit(rows, t);
      }
      OfTokenSplit(rows, rows[0].token);
      CappedUnnamed(rows[1..], cap, named);
    }
  }

  /** The decisions on newer rows do not depend on older ones. */
  lemma {:induction false} CappedSuffix(older: seq<Interaction>, newer: seq<Interaction>, cap: nat, named: iset<string>)
    returns (kept: seq<Interaction>)
    ensures Capped(older + newer, cap, named) == kept + Capped(newer, cap, named)
  {
    if older == [] {
      kept := [];
      assert older + newer == newer;
    } else {
      var h := older[0];
      kept := CappedSuffix(older[1..], newer, cap, named);
      assert (older + newer)[1..] == older[1..] + newer;
      if Fits(h, older[1..] + newer, cap, named) {
        kept := [h] + kept;
      }
    }
  }

  /** An arrival adds one row unless its token is full; then it replaces one. */
  lemma {:induction false} CappedGrows(rows: seq<Interaction>, iv: Interaction, cap: nat, named: iset<string>)
    requires cap > 0
    ensures |Capped(rows + [iv], cap, named)|
         == |Capped(rows, cap, named)| + if iv.token in named && |OfToken(rows, iv.token)| >= cap then 0 else 1
  {
    if rows == [] {
      assert rows + [iv] == [iv];
    } else {
      CappedGrows(rows[1..], iv, cap, named);
      assert (rows + [iv])[1..] == rows[1..] + [iv];
      FilterAppend(TokenIs(rows[0].token), rows[1..], [iv]);
    }
  }

  lemma {:induction false} CappedNeverShrinks(rows: seq<Interaction>, more: seq<Interaction>, cap: nat,
                                              named: iset<string>)
    requires cap > 0
    ensures |Capped(rows + more, cap, named)| >= |Capped(rows, cap, named)|
    decreases |more|
  {
    if more == [] {
      assert rows + more == rows;
    } else {
      var n := |more| - 1;
      CappedNeverShrinks(rows, more[..n], cap, named);
      CappedGrows(rows + more[..n], more[n], cap, named);
      assert rows + more == rows + more[..n] + [more[n]];
    }
  }

  /** Dropping stale rows beyond the global cap early does not change what the global cap keeps later. */
  lemma GlobalCapAbsorbs(rows: seq<Interaction>, more: seq<Interaction>, caps: Caps)
    requires caps.perToken > 0
    requires TokensWithin(rows, caps.perToken, EveryToken)
    ensures Last(Capped(Last(rows, caps.global) + more, caps.perToken, EveryToken), caps.global)
         == Last(Capped(rows + more, caps.perToken, EveryToken), caps.global)
  {
    if |rows| > caps.global {
      var recent := Last(rows, caps.global);
      var stale := rows[..|rows| - caps.global];
      assert rows == stale + recent;
      TokensWithinSuffix(stale, recent, caps.perToken, EveryToken);
      CappedIdentity(recent, caps.perToken, EveryToken);
      CappedNeverShrinks(recent, more, caps.perToken, EveryToken);
      var kept := CappedSuffix(stale, recent + more, caps.perToken, EveryToken);
      hide Capped, OfToken;
      assert rows + more == stale + (recent + more);
      LastOfAppend(kept, Capped(recent + more, caps.perToken, EveryToken), caps.global);
    }
  }

  lemma TokensWithinSuffix(older: seq<Interaction>, newer: seq<Interaction>, cap: nat, named: iset<string>)
    requires TokensWithin(older + newer, cap, named)
    ensures TokensWithin(newer, cap, named)
  {
    forall t | t in named ensures |OfToken(newer, t)| <= cap {
      FilterAppend(TokenIs(t), older, newer);
    }
  }

  /** Dropping rows by any test keeps both caps. */
  lemma FilterKeepsCaps(rows: seq<Interaction>, p: Interaction -> bool, caps: Caps)
    requires WithinCaps(rows, caps)
    ensures WithinCaps(Filter(p, rows), caps)
  {
    forall t ensures |OfToken(Filter(p, rows), t)| <= caps.perToken {
      FilterCommutes(TokenIs(t), p, rows);
      assert |OfToken(rows, t)| <= caps.perToken;
    }
  }

  // ---- The memory store's incremental eviction computes Capped ----

  lemma {:induction false} EvictOldestIsCapped(rows: seq<Interaction>, t: string, cap: nat)
    requires Increasing(rows)
    requires |OfToken(rows, t)| == cap + 1
    requires forall u :: u != t ==> |OfToken(rows, u)| <= cap
    ensures Capped(rows, cap, EveryToken) == Without(rows, OfToken(rows, t)[0].id)
  {
    var h, rest := rows[0], rows[1..];
    forall u ensures OfToken(rows, u) == (if h.token == u then [h] else []) + OfToken(rest, u) {
      OfTokenSplit(rows, u);
    }
    FilterMembers(TokenIs(t), rest);
    if h.token == t {
      CappedIdentity(rest, cap, EveryToken);
      FilterAll(IdIsNot(h.id), rest);
    } else {
      EvictOldestIsCapped(rest, t, cap);
      assert OfToken(rows, t)[0] == OfToken(rest, t)[0];
      assert OfToken(rest, t)[0] in rest;
    }
  }

  lemma AddOneIsCapped(rows: seq<Interaction>, iv: Interaction, cap: nat)
    requires Increasing(rows + [iv])
    requires TokensWithin(rows, cap, EveryToken)
    ensures AddOne(rows, iv, cap) == Capped(rows + [iv], cap, EveryToken)
  {
    forall u ensures |OfToken(rows + [iv], u)| == |OfToken(rows, u)| + if u == iv.token then 1 else 0 {
      FilterAppend(TokenIs(u), rows, [iv]);
    }
    if |OfToken(rows + [iv], iv.token)| > cap {
      EvictOldestIsCapped(rows + [iv], iv.token, cap);
    } else {
      CappedIdentity(rows + [iv], cap, EveryToken);
    }
  }

  lemma {:induction false} CappedSubset(rows: seq<Interaction>, cap: nat, named: iset<string>)
    ensures forall iv :: iv in Capped(rows, cap, named) ==> iv in rows
  {
    if rows != [] {
      CappedSubset(rows[1..], cap, named);
    }
  }

  lemma {:induction false} CappedIsFilter(rows: seq<Interaction>, cap: nat, named: iset<string>)
    requires Increasing(rows)
    ensures Capped(rows, cap, named) == Filter(x => x in Capped(rows, cap, named), rows)
  {
    if rows != [] {
      var rest := Capped(rows[1..], cap, named);
      CappedIsFilter(rows[1..], cap, named);
      CappedSubset(rows[1..], cap, named);
      FilterAgree(x => x in rest, x => x in Capped(rows, cap, named), rows[1..]);
    }
  }

  lemma CappedMembers(rows: seq<Interaction>, cap: nat, named: iset<string>)
    requires Increasing(rows)
    ensures forall iv :: iv in Capped(rows, cap, named) ==> iv in rows
    ensures Increasing(Capped(rows, cap, named))
  {
    CappedSubset(rows, cap, named);
    CappedIsFilter(rows, cap, named);
    FilterKeepsOrder(x => x in Capped(rows, cap, named), rows);
  }

  lemma {:induction false} AddEachIsCapped(rows: seq<Interaction>, batch: seq<Interaction>, cap: nat)
    requires Increasing(rows + batch)
    requires TokensWithin(rows, cap, EveryToken)
    ensures AddEach(rows, batch, cap) == Capped(rows + batch, cap, EveryToken)
    decreases |batch|
  {
    hide OfToken, Capped, AddOne;
    if batch == [] {
      assert rows + batch == rows;
      CappedIdentity(rows, cap, EveryToken);
    } else {
      var n := |batch| - 1;
      var before, iv := rows + batch[..n], batch[n];
      assert rows + batch == before + [iv];
      IncreasingParts(before, [iv]);
      assert iv in [iv];
      AddEachIsCapped(rows, batch[..n], cap);
      CappedWithin(before, cap, EveryToken);
      CappedMembers(before, cap, EveryToken);
      var capped := Capped(before, cap, EveryToken);
      IncreasingJoin(capped, [iv]);
      AddOneIsCapped(capped, iv, cap);
      CappedAbsorbs(before, [iv], cap, EveryToken);
    }
  }

  /** One batch leaves the newest rows of each token, and of those the newest overall. */
  lemma AddBatchIsCapRule(rows: seq<Interaction>, batch: seq<Interaction>, caps: Caps)
    requires WithinCaps(rows, caps) && Increasing(rows + batch)
    ensures AddBatch(rows, batch, caps) == Last(Capped(rows + batch, caps.perToken, EveryToken), caps.global)
  {
    AddEachIsCapped(rows, batch, caps.perToken);
    if batch == [] {
      assert rows + batch == rows;
      CappedIdentity(rows, caps.perToken, EveryToken);
    }
  }

  /** A batch keeps both caps and the id order, and every row left was there or has just arrived. */
  lemma AddBatchKeeps(rows: seq<Interaction>, batch: seq<Interaction>, caps: Caps)
    requires WithinCaps(rows, caps) && Increasing(rows + batch)
    ensures WithinCaps(AddBatch(rows, batch, caps), caps)
    ensures Increasing(AddBatch(rows, batch, caps))
    ensures forall iv :: iv in AddBatch(rows, batch, caps) ==> iv in rows + batch
  {
    hide OfToken, Capped, AddBatch;
    var all := Capped(rows + batch, caps.perToken, EveryToken);
    AddBatchIsCapRule(rows, batch, caps);
    CappedWithin(rows + batch, caps.perToken, EveryToken);
    CappedMembers(rows + batch, caps.perToken, EveryToken);
    var cut := |all| - |Last(all, caps.global)|;
    assert all == all[..cut] + Last(all, caps.global);
    TokensWithinSuffix(all[..cut], Last(all, caps.global), caps.perToken, EveryToken);
  }

  lemma {:induction false} ConcatPrefix<T>(parts: seq<seq<T>>)
    requires parts != []
    ensures Concat(parts) == Concat(parts[..|parts| - 1]) + parts[|parts| - 1]
  {
    ConcatSnoc(parts[..|parts| - 1], parts[|parts| - 1]);
    assert parts == parts[..|parts| - 1] + [parts[|parts| - 1]];
  }

  /** Batching does not matter: any split of the arrivals into batches leaves the survivors of the
      capacity rule applied once to everything that arrived. */
  lemma {:induction false} BatchingIrrelevant(rows: seq<Interaction>, batches: seq<seq<Interaction>>, caps: Caps)
    requires caps.perToken > 0
    requires WithinCaps(rows, caps) && Increasing(rows + Concat(batches))
    ensures AddBatches(rows, batches, caps) == AddBatch(rows, Concat(batches), caps)
    ensures AddBatches(rows, batches, caps)
         == Last(Capped(rows + Concat(batches), caps.perToken, EveryToken), caps.global)
    decreases |batches|
  {
    AddBatchIsCapRule(rows, Concat(batches), caps);
    if batches != [] {
      var n := |batches| - 1;
      var early, late := Concat(batches[..n]), batches[n];
      ConcatPrefix(batches);
      assert rows + Concat(batches) == (rows + early) + late;
      IncreasingParts(rows + early, late);
      BatchingIrrelevant(rows, batches[..n], caps);
      assert early + late == Concat(batches);
      BatchAfterBatch(rows, early, late, caps);
    }
  }

  /** Two batches in a row leave what one joint batch leaves. */
  lemma BatchAfterBatch(rows: seq<Interaction>, early: seq<Interaction>, late: seq<Interaction>, caps: Caps)
    requires caps.perToken > 0
    requires WithinCaps(rows, caps) && Increasing(rows + early + late)
    ensures AddBatch(AddBatch(rows, early, caps), late, caps) == AddBatch(rows, early + late, caps)
  {
    hide AddBatch, WithinCaps;
    var mid, cap := AddBatch(rows, early, caps), caps.perToken;
    var all := Capped(rows + early, cap, EveryToken);
    IncreasingParts(rows + early, late);
    AddBatchKeeps(rows, early, caps);
    IncreasingJoin(mid, late);
    assert rows + (early + late) == rows + early + late;
    CappedWithin(rows + early, cap, EveryToken);
    calc {
      AddBatch(mid, late, caps);
      { AddBatchIsCapRule(mid, late, caps); AddBatchIsCapRule(rows, early, caps); }
      Last(Capped(Last(all, caps.global) + late, cap, EveryToken), caps.global);
      { GlobalCapAbsorbs(all, late, caps); CappedAbsorbs(rows + early, late, cap, EveryToken); }
      Last(Capped(rows + early + late, cap, EveryToken), caps.global);
      { AddBatchIsCapRule(rows, early + late, caps); }
      AddBatch(rows, early + late, caps);
    }
  }

  // ---- The survivors, by rank ----

  ghost function IsNewest(rows: seq<Interaction>, cap: nat): Interaction -> bool {
    (iv: Interaction) => iv in Last(OfToken(rows, iv.token), cap)
  }

  /** Capping every token keeps, in order, exactly the rows among the newest `cap` of their token. */
  lemma CappedIsNewestPerToken(rows: seq<Interaction>, cap: nat)
    requires Increasing(rows)
    ensures Capped(rows, cap, EveryToken) == Filter(IsNewest(rows, cap), rows)
  {
    var capped := Capped(rows, cap, EveryToken);
    forall iv | iv in rows ensures iv in capped <==> IsNewest(rows, cap)(iv) {
      CappedOfToken(rows, cap, EveryToken, iv.token);
      FilterMembers(TokenIs(iv.token), capped);
    }
    CappedIsFilter(rows, cap, EveryToken);
    FilterAgree(x => x in capped, IsNewest(rows, cap), rows);
  }
}
