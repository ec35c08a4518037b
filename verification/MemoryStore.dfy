/** The memory backend: one primary map and four index structures over the interactions. */
module MemoryStores {
  import opened Sequences
  import opened Models
  import opened CapRule
  import opened Arrivals
  import opened LinkedLists
  import opened Queries
  import opened Accounts
  import opened Sorting
  import opened StoreIndexes

  lemma NoRecords()
    ensures ExactIndex(map[], map[], UsernameOf, false) && ExactIndex(map[], map[], EmailOf, true)
    ensures ExactIndex(map[], map[], ValueOf, false) && ExactIndex(map[], map[], HashOf, false)
    ensures SelfIds(map[], UserId, 0) && SelfIds(map[], TokenId, 0) && SelfIds(map[], RefreshId, 0)
  {
  }

  lemma NoRows(caps: Caps)
    ensures Primary(map[], []) && Indexed(map[], map[], []) && Ids([]) == {}
    ensures WithinCaps([], caps) && Increasing([]) && IdsUpTo([], 0)
  {
  }

  class MemoryStore {
    const caps: Caps
    var nextID: int

    var interactions: map<int, Interaction>
    var order: LinkedList
    var idToElem: map<int, Element>
    var byToken: map<string, LinkedList>
    var idToTokenElem: map<int, Element>

    var users: map<int, User>
    var byUsername: map<string, int>
    var byEmail: map<string, int>
    var tokens: map<int, Token>
    var tokenByValue: map<string, int>
    var refresh: map<int, RefreshToken>
    var refreshByHash: map<string, int>

    /** The abstract value: every stored interaction, oldest first. */
    ghost var rows: seq<Interaction>
    /** The elements of each per-token list. */
    ghost var spines: map<string, seq<Element>>
    ghost var orderRepr: set<object>
    ghost var tokenRepr: set<object>

    /** `order` lists the ids of rs, and `idToElem` leads from each id to its element. */
    ghost predicate OrderHolds(rs: seq<Interaction>)
      reads `order, `idToElem, `orderRepr, orderRepr
    {
      && this !in orderRepr && order in orderRepr && order.Repr <= orderRepr
      && order.Valid()
      && idToElem.Keys == Ids(rs)
      && Listed(order.spine, idToElem, rs)
    }

    ghost predicate TokensHold(rs: seq<Interaction>)
      reads `byToken, `idToTokenElem, `spines, `tokenRepr, tokenRepr
    {
      this !in tokenRepr && ListsHold(byToken, spines, tokenRepr) && Indexed(spines, idToTokenElem, rs)
    }

    /** All five structures describe the one sequence `rows`, whose ids grow strictly. */
    ghost predicate Valid()
      reads `nextID, `interactions, `order, `idToElem, `orderRepr, `byToken, `spines, `idToTokenElem, `tokenRepr, `rows
      reads orderRepr, tokenRepr
      ensures Valid() ==> this !in orderRepr && this !in tokenRepr && Increasing(rows)
    {
      && caps.perToken > 0 && caps.global > 0 && caps.bodyLimit > 0
      && Primary(interactions, rows)
      && OrderHolds(rows)
      && TokensHold(rows)
      && orderRepr !! tokenRepr
      && Increasing(rows)
      && IdsUpTo(rows, nextID)
    }

    constructor (maxInteractions: int, maxPerToken: int, bodyTruncate: int)
      ensures Valid() && AccountsHold() && AccountIdsHold() && rows == [] && nextID == 0 && WithinCaps(rows, caps)
      ensures users == map[] && tokens == map[] && refresh == map[]
      ensures caps == Caps(if maxInteractions > 0 then maxInteractions else 100_000,
                           if maxPerToken > 0 then maxPerToken else 10_000,
                           if bodyTruncate > 0 then bodyTruncate else 512)
      ensures fresh(orderRepr) && fresh(tokenRepr)
    {
      hide Primary, Indexed, ExactIndex, SelfIds, WithinCaps, Increasing, IdsUpTo, Ids;
      NoRecords();
      NoRows(Configured(maxInteractions, maxPerToken, bodyTruncate));
      caps := Configured(maxInteractions, maxPerToken, bodyTruncate);
      nextID := 0;
      interactions := map[];
      order := new LinkedList();
      idToElem := map[];
      byToken := map[];
      idToTokenElem := map[];
      users, byUsername, byEmail := map[], map[], map[];
      tokens, tokenByValue, refresh, refreshByHash := map[], map[], map[], map[];
      rows, spines := [], map[];
      orderRepr := {order};
      tokenRepr := {};
    }

    // ---- Eviction ----

    method UnlinkOrder(id: int, ghost k: nat)
      requires OrderHolds(rows) && Increasing(rows)
      requires k < |rows| && rows[k].id == id
      modifies `idToElem, orderRepr
      ensures OrderHolds(Without(rows, id))
    {
      hide LinkedList.Valid;
      var elem := idToElem[id];
      order.Remove(elem, k);
      idToElem := idToElem - {id};
      WithoutIsRemoveAt(rows, k);
      IdsAfterRemoval(rows, k);
      ListedAfterRemoval(old(order.spine), old(idToElem), rows, k);
    }

    method UnlinkToken(iv: Interaction, ghost j: nat)
      requires TokensHold(rows) && Increasing(rows)
      requires iv in rows && j < |OfToken(rows, iv.token)| && OfToken(rows, iv.token)[j] == iv
      modifies `byToken, `spines, `idToTokenElem, tokenRepr
      ensures TokensHold(Without(rows, iv.id))
    {
      hide LinkedList.Valid, Indexed, OfToken, Without, Increasing, ListsHold, SpinesWithout;
      TokenFacts(iv, j);
      var telem := idToTokenElem[iv.id];
      byToken, spines := DropFromList(byToken, spines, tokenRepr, iv.token, telem, j);
      idToTokenElem := idToTokenElem - {iv.id};
    }

    lemma TokenFacts(iv: Interaction, j: nat)
      requires TokensHold(rows) && Increasing(rows)
      requires iv in rows && j < |OfToken(rows, iv.token)| && OfToken(rows, iv.token)[j] == iv
      ensures iv.id in idToTokenElem && iv.token in byToken && iv.token in spines
      ensures j < |spines[iv.token]| && idToTokenElem[iv.id] == spines[iv.token][j]
      ensures Indexed(SpinesWithout(spines, iv.token, j), idToTokenElem - {iv.id}, Without(rows, iv.id))
    {
      IndexLeadsTo(spines, idToTokenElem, rows, iv.token, j);
      IndexedAfterRemoval(spines, idToTokenElem, rows, iv, j);
    }

    /** Removes an interaction from the primary map and from every index. */
    method EvictOne(id: int)
      requires Valid()
      modifies `interactions, `idToElem, `byToken, `spines, `idToTokenElem, `rows, orderRepr, tokenRepr
      ensures Valid()
      ensures rows == Without(old(rows), id)
    {
      hide Primary, OrderHolds, TokensHold, IdsUpTo, OfToken, Increasing;
      if id !in interactions {
        NothingToEvict(id);
        return;
      }
      ghost var k, j := EvictionFacts(id);
      var iv := interactions[id];
      interactions := interactions - {id};
      hide Without;
      if id in idToElem {
        UnlinkOrder(id, k);
      }
      if id in idToTokenElem {
        UnlinkToken(iv, j);
      }
      rows := Without(rows, id);
    }

    // ---- Insertion ----

    method PushOrder(iv: Interaction)
      requires OrderHolds(rows) && forall other :: other in rows ==> other.id != iv.id
      modifies `idToElem, `orderRepr, orderRepr
      ensures OrderHolds(rows + [iv])
      ensures orderRepr >= old(orderRepr) && fresh(orderRepr - old(orderRepr))
    {
      hide LinkedList.Valid;
      IdsAfterAppend(rows, iv);
      var elem := order.PushBack(iv.id);
      idToElem := idToElem[iv.id := elem];
      orderRepr := orderRepr + {elem};
      ListedAfterAppend(old(order.spine), old(idToElem), rows, iv, elem);
    }

    method PushToken(iv: Interaction)
      requires TokensHold(rows) && forall other :: other in rows ==> other.id != iv.id
      modifies `byToken, `spines, `idToTokenElem, `tokenRepr, tokenRepr
      ensures TokensHold(rows + [iv])
      ensures tokenRepr >= old(tokenRepr) && fresh(tokenRepr - old(tokenRepr))
    {
      hide Indexed, ListsHold, Listed;
      ghost var before := spines;
      var telem;
      byToken, telem, tokenRepr := PushToList(byToken, spines, tokenRepr, iv.token, iv.id);
      spines := SpinesWith(spines, iv.token, telem);
      IndexedAfterAppend(before, idToTokenElem, rows, iv, telem);
      idToTokenElem := idToTokenElem[iv.id := telem];
    }

    /** Stores one arrival under a new id in the primary map and in every index. */
    method Append(arrival: Interaction, now: Time) returns (iv: Interaction)
      requires Valid()
      modifies `nextID, `interactions, `idToElem, `orderRepr, `byToken, `spines, `idToTokenElem, `tokenRepr, `rows
      modifies orderRepr, tokenRepr
      ensures Valid()
      ensures nextID == old(nextID) + 1
      ensures iv == StampOne(arrival, now, nextID, caps.bodyLimit)
      ensures rows == old(rows) + [iv]
      ensures fresh(orderRepr - old(orderRepr)) && fresh(tokenRepr - old(tokenRepr))
    {
      hide Primary, OrderHolds, TokensHold, IdsUpTo, OfToken, Increasing;
      nextID := nextID + 1;
      iv := StampOne(arrival, now, nextID, caps.bodyLimit);
      AppendFacts(interactions, rows, iv, nextID);
      interactions := interactions[iv.id := iv];
      PushOrder(iv);
      PushToken(iv);
      rows := rows + [iv];
    }

    // ---- Reading the lists ----

    lemma BatchKeepsCaps(batch: seq<Interaction>, clock: seq<Time>)
      requires Valid() && |clock| == |batch|
      ensures WithinCaps(rows, caps) ==>
        WithinCaps(AddBatch(rows, Stamp(batch, clock, nextID, caps.bodyLimit), caps), caps)
    {
      hide WithinCaps, Stamp, OrderHolds, TokensHold, Primary, AddBatch;
      StampFollows(rows, batch, clock, nextID, caps.bodyLimit);
      if WithinCaps(rows, caps) {
        AddBatchKeeps(rows, Stamp(batch, clock, nextID, caps.bodyLimit), caps);
      }
    }

    lemma PrimaryFacts()
      requires Valid()
      ensures Primary(interactions, rows) && interactions.Keys == Ids(rows)
    {
    }

    lemma OrderFacts()
      requires Valid()
      ensures order.Valid() && order.len == |rows| == |order.spine| && Increasing(rows)
      ensures rows == [] ==> order.front == null
      ensures rows != [] ==> order.front != null && order.front.value == rows[0].id
      ensures rows != [] ==> rows[0].id in interactions && interactions[rows[0].id] == rows[0]
    {
      assert rows != [] ==> rows[0] in rows;
    }

    lemma TokenListFacts(t: string)
      requires Valid()
      ensures t in byToken <==> OfToken(rows, t) != []
      ensures t in byToken ==>
        var tl, mine := byToken[t], OfToken(rows, t);
        && tl.Valid() && tl.len == |mine| == |tl.spine|
        && tl.front != null && tl.front.value == mine[0].id
        && forall i :: 0 <= i < |mine| ==> tl.spine[i].value == mine[i].id
    {
      assert IndexedAt(spines, idToTokenElem, rows, t);
      assert t in byToken ==> ListHolds(byToken[t], spines[t], tokenRepr);
    }

    // ---- The operations ----

    /** Stores a batch: each arrival may push out the oldest of its token, and the global cap is
        enforced at the end of the batch. */
    method AddInteractions(cancelled: bool, batch: seq<Interaction>, clock: seq<Time>)
      returns (stored: nat, err: Option<StoreError>)
      requires Valid() && |clock| == |batch|
      modifies `nextID, `interactions, `idToElem, `orderRepr, `byToken, `spines, `idToTokenElem, `tokenRepr, `rows
      modifies orderRepr, tokenRepr
      ensures Valid() && fresh(orderRepr - old(orderRepr)) && fresh(tokenRepr - old(tokenRepr))
      ensures old(AccountIdsHold()) ==> AccountIdsHold()
      ensures batch == [] ==> err == None && stored == 0
      ensures batch != [] && cancelled ==> err == Some(Cancelled) && stored == 0
      ensures batch == [] || cancelled ==> rows == old(rows) && nextID == old(nextID)
      ensures batch != [] && !cancelled ==>
        && err == None && stored == |batch| && nextID == old(nextID) + |batch|
        && rows == AddBatch(old(rows), Stamp(batch, clock, old(nextID), caps.bodyLimit), caps)
      ensures old(WithinCaps(rows, caps)) ==> WithinCaps(rows, caps)
    {
      hide Valid, Increasing, AddOne, WithinCaps, Stamp, StampOne;
      if batch == [] {
        return 0, None;
      }
      if cancelled {
        return 0, Some(Cancelled);
      }
      ghost var stamped := Stamp(batch, clock, nextID, caps.bodyLimit);
      ghost var before := rows;
      BatchKeepsCaps(batch, clock);
      stored := 0;
      while stored < |batch|
        invariant stored <= |batch|
        invariant Valid() && fresh(orderRepr - old(orderRepr)) && fresh(tokenRepr - old(tokenRepr))
        invariant nextID == old(nextID) + stored
        invariant rows == AddEach(before, stamped[..stored], caps.perToken)
      {
        StampAt(batch, clock, old(nextID), caps.bodyLimit, stored);
        AddArrival(batch[stored], clock[stored]);
        assert stamped[..stored + 1][..stored] == stamped[..stored];
        stored := stored + 1;
      }
      assert stamped[..|batch|] == stamped;
      TrimToGlobalCap();
      return stored, None;
    }

    method AddArrival(arrival: Interaction, now: Time)
      requires Valid()
      modifies `nextID, `interactions, `idToElem, `orderRepr, `byToken, `spines, `idToTokenElem, `tokenRepr, `rows
      modifies orderRepr, tokenRepr
      ensures Valid() && fresh(orderRepr - old(orderRepr)) && fresh(tokenRepr - old(tokenRepr))
      ensures nextID == old(nextID) + 1
      ensures rows == AddOne(old(rows), StampOne(arrival, now, nextID, caps.bodyLimit), caps.perToken)
    {
      hide Valid, Increasing, LinkedList.Valid, OfToken, Without;
      var iv := Append(arrival, now);
      TokenListFacts(iv.token);
      LastOfTokenAfterAppend(old(rows), iv);
      var tl := byToken[iv.token];
      if tl.len > caps.perToken {
        EvictOne(tl.front.value);
      }
    }

    method TrimToGlobalCap()
      requires Valid()
      modifies `nextID, `interactions, `idToElem, `orderRepr, `byToken, `spines, `idToTokenElem, `tokenRepr, `rows
      modifies orderRepr, tokenRepr
      ensures Valid() && orderRepr == old(orderRepr) && tokenRepr == old(tokenRepr) && nextID == old(nextID)
      ensures rows == Last(old(rows), caps.global)
    {
      hide Valid, Increasing, LinkedList.Valid, Without;
      OrderFacts();
      while order.len > caps.global
        invariant Valid() && orderRepr == old(orderRepr) && tokenRepr == old(tokenRepr) && nextID == old(nextID)
        invariant order.len == |rows| && (rows != [] ==> order.front != null && order.front.value == rows[0].id)
        invariant Last(rows, caps.global) == Last(old(rows), caps.global)
        decreases |rows|
      {
        DropFirst(rows, caps.global);
        EvictOne(order.front.value);
        OrderFacts();
      }
    }

    method DeleteInteraction(id: int) returns (err: Option<StoreError>)
      requires Valid()
      modifies `nextID, `interactions, `idToElem, `orderRepr, `byToken, `spines, `idToTokenElem, `tokenRepr, `rows
      modifies orderRepr, tokenRepr
      ensures Valid() && orderRepr == old(orderRepr) && tokenRepr == old(tokenRepr) && nextID == old(nextID)
      ensures rows == Without(old(rows), id)
      ensures old(WithinCaps(rows, caps)) ==> WithinCaps(rows, caps)
      ensures err == if id in Ids(old(rows)) then None else Some(NotFound)
    {
      hide Valid, Increasing, Primary, Without, WithinCaps;
      PrimaryFacts();
      if WithinCaps(rows, caps) {
        WithoutKeepsCaps(rows, id, caps);
      }
      if id !in interactions {
        NothingToEvict(id);
        return Some(NotFound);
      }
      EvictOne(id);
      return None;
    }

    /** Walks the order list from its old end and stops at the first row that is not old. */
    method DeleteOldInteractions(cutoff: Time) returns (n: nat)
      requires Valid()
      modifies `nextID, `interactions, `idToElem, `orderRepr, `byToken, `spines, `idToTokenElem, `tokenRepr, `rows
      modifies orderRepr, tokenRepr
      ensures Valid() && orderRepr == old(orderRepr) && tokenRepr == old(tokenRepr) && nextID == old(nextID)
      ensures rows == DropOld(old(rows), cutoff)
      ensures old(WithinCaps(rows, caps)) ==> WithinCaps(rows, caps)
      ensures n == |old(rows)| - |rows|
    {
      hide Valid, Increasing, LinkedList.Valid, Without, WithinCaps;
      if WithinCaps(rows, caps) {
        DropOldKeepsCaps(rows, cutoff, caps);
      }
      n := 0;
      while true
        invariant Valid() && orderRepr == old(orderRepr) && tokenRepr == old(tokenRepr) && nextID == old(nextID)
        invariant DropOld(rows, cutoff) == DropOld(old(rows), cutoff)
        invariant n == |old(rows)| - |rows|
        decreases |rows|
      {
        OrderFacts();
        var front := order.front;
        if front == null {
          break;
        }
        if front.value !in interactions {
          // A stale list element: evicting it changes nothing, so the loop would not advance.
          assert false;
        }
        var iv := interactions[front.value];
        if !IsOld(iv, cutoff) {
          break;
        }
        DropFirst(rows, caps.global);
        EvictOne(iv.id);
        n := n + 1;
      }
    }

    method CountInteractionsByToken(t: string) returns (n: nat)
      requires Valid()
      ensures n == |OfToken(rows, t)|
    {
      TokenListFacts(t);
      if t !in byToken {
        return 0;
      }
      return byToken[t].len;
    }

    method GetInteraction(id: int) returns (r: Option<Interaction>)
      requires Valid()
      ensures r.Some? ==> r.value in rows && r.value.id == id
      ensures r.None? ==> id !in Ids(rows)
    {
      if id !in interactions {
        return None;
      }
      ghost var k, j := Positions(interactions, rows, id);
      return Some(interactions[id]);
    }

    // ---- Queries ----

    /** The elements lead to the given rows. */
    ghost predicate LeadsTo(spine: seq<Element>, mine: seq<Interaction>)
      reads `interactions
    {
      && |spine| == |mine|
      && forall i :: 0 <= i < |mine| ==> spine[i].value in interactions && interactions[spine[i].value] == mine[i]
    }

    lemma OrderLeadsTo()
      requires Valid()
      ensures order.Valid() && LeadsTo(order.spine, rows) && |order.spine| == |rows|
    {
      OrderFacts();
      ValuesLeadTo(order.spine, rows);
    }

    lemma TokenLeadsTo(t: string)
      requires Valid()
      ensures t in byToken <==> OfToken(rows, t) != []
      ensures t in byToken ==>
        var tl, mine := byToken[t], OfToken(rows, t);
        tl.Valid() && LeadsTo(tl.spine, mine) && |tl.spine| == |mine|
      ensures forall iv :: iv in OfToken(rows, t) <==> iv in rows && iv.token == t
    {
      FilterMembers(TokenIs(t), rows);
      hide Valid, LinkedList.Valid, LeadsTo, Primary;
      TokenListFacts(t);
      PrimaryFacts();
      if t in byToken {
        ValuesLeadTo(byToken[t].spine, OfToken(rows, t));
      }
    }

    lemma ValuesLeadTo(spine: seq<Element>, mine: seq<Interaction>)
      requires Primary(interactions, rows) && forall iv :: iv in mine ==> iv in rows
      requires |spine| == |mine| && forall i :: 0 <= i < |mine| ==> spine[i].value == mine[i].id
      ensures LeadsTo(spine, mine)
    {
      assert forall i :: 0 <= i < |mine| ==> mine[i] in mine;
    }

    /** Lists (items, total): total counts every match, items is the requested page. A single token is
        looked up through its own list, an ownership scope merges the lists of its tokens, and
        otherwise the order list is walked from its new end. */
    method ListInteractions(f: InteractionFilter) returns (items: seq<Interaction>, total: nat)
      requires Valid()
      ensures items == ListedPage(rows, f)
      ensures total == |Filter(Matches(f), rows)|
    {
      hide Valid, LinkedList.Valid, Increasing, LeadsTo, OfToken;
      ScopedListingIsFilter(rows, f);
      if f.scope.Some? {
        var cand := Gather(f.scope.value, true);
        GatherSortFilter(rows, cand, f);
        items, total := Select(SortBy(MoreRecent, cand), f);
      } else if f.token != "" {
        TokenLeadsTo(f.token);
        SingleToken(rows, f);
        if f.token !in byToken {
          return [], 0;
        }
        items, total := WalkBack(byToken[f.token], OfToken(rows, f.token), f);
      } else {
        OrderLeadsTo();
        FilterReverse(Matches(f), rows);
        items, total := WalkBack(order, rows, f);
      }
    }

    /** Walks a list from its back, counting the matches and keeping those on the page. */
    method WalkBack(list: LinkedList, ghost mine: seq<Interaction>, f: InteractionFilter)
      returns (items: seq<Interaction>, total: nat)
      requires list.Valid() && LeadsTo(list.spine, mine) && |list.spine| == |mine|
      ensures items == Page(Filter(Matches(f), Reverse(mine)), f.offset, EffectiveLimit(f.limit))
      ensures total == |Filter(Matches(f), Reverse(mine))|
    {
      hide LinkedList.Valid, Page, Filter, Matches, LeadsTo;
      var limit := EffectiveLimit(f.limit);
      ghost var walk, n := Walked(mine, true), 0;
      items, total := [], 0;
      SelectNone(walk, f);
      list.Walk(true, 0);
      var e := list.back;
      while e != null
        invariant n <= |walk| && e == list.Nth(true, n)
        invariant total == |Filter(Matches(f), walk[..n])|
        invariant items == Page(Filter(Matches(f), walk[..n]), f.offset, limit)
        decreases |walk| - n
      {
        NthLeadsTo(list, mine, true, n);
        list.Walk(true, n);
        var iv := interactions[e.value];
        SelectOne(walk, n, f);
        if Matches(f)(iv) {
          total := total + 1;
          if total > f.offset && |items| < limit {
            items := items + [iv];
          }
        }
        e, n := e.prev, n + 1;
      }
      assert walk[..n] == walk;
    }

    lemma NthLeadsTo(list: LinkedList, mine: seq<Interaction>, fromBack: bool, n: nat)
      requires LeadsTo(list.spine, mine)
      ensures |list.spine| == |mine|
      ensures n < |mine| ==>
        var e := list.Nth(fromBack, n);
        && e != null && e.value in interactions
        && interactions[e.value] == Walked(mine, fromBack)[n]
    {
      if n < |mine| {
        var i := if fromBack then |mine| - 1 - n else n;
        assert list.spine[i].value in interactions;
      }
    }

    method Select(sorted: seq<Interaction>, f: InteractionFilter) returns (items: seq<Interaction>, total: nat)
      ensures items == Page(Filter(Matches(f), sorted), f.offset, EffectiveLimit(f.limit))
      ensures total == |Filter(Matches(f), sorted)|
    {
      hide Filter, Page, Matches;
      SelectNone(sorted, f);
      var limit := EffectiveLimit(f.limit);
      items, total := [], 0;
      for n := 0 to |sorted|
        invariant total == |Filter(Matches(f), sorted[..n])|
        invariant items == Page(Filter(Matches(f), sorted[..n]), f.offset, limit)
      {
        SelectOne(sorted, n, f);
        if Matches(f)(sorted[n]) {
          total := total + 1;
          if total > f.offset && |items| < limit {
            items := items + [sorted[n]];
          }
        }
      }
      assert sorted[..|sorted|] == sorted;
    }

    /** Collects the rows of some tokens, each row once, whatever tokens are repeated. */
    method Gather(tokens: seq<string>, fromBack: bool) returns (cand: seq<Interaction>)
      requires Valid()
      ensures NoRepeats(cand) && forall iv :: iv in cand <==> iv in rows && iv.token in tokens
    {
      hide Valid, NoRepeats;
      cand := [];
      var seen := {};
      NoRepeatsEmpty();
      for k := 0 to |tokens|
        invariant NoRepeats(cand) && seen == Ids(cand)
        invariant forall iv :: iv in cand <==> iv in rows && iv.token in tokens[..k]
      {
        cand, seen := GatherToken(tokens[k], cand, seen, fromBack);
        assert tokens[..k + 1] == tokens[..k] + [tokens[k]];
      }
    }

    method GatherToken(t: string, before: seq<Interaction>, seenBefore: set<int>, fromBack: bool)
      returns (cand: seq<Interaction>, seen: set<int>)
      requires Valid()
      requires NoRepeats(before) && seenBefore == Ids(before) && forall iv :: iv in before ==> iv in rows
      ensures NoRepeats(cand) && seen == Ids(cand)
      ensures forall iv :: iv in cand <==> iv in before || (iv in rows && iv.token == t)
    {
      hide Valid, OfToken, Collected, LinkedList.Valid, LeadsTo, Increasing, Walked;
      cand, seen := before, seenBefore;
      TokenLeadsTo(t);
      CollectNone(before, seenBefore);
      if t !in byToken {
        CollectToken(rows, before, cand, seen, t, []);
        return;
      }
      var tl := byToken[t];
      ghost var walk, n := Walked(OfToken(rows, t), fromBack), 0;
      tl.Walk(fromBack, 0);
      var e := if fromBack then tl.back else tl.front;
      while e != null
        invariant n <= |walk| && e == tl.Nth(fromBack, n)
        invariant Collected(before, cand, seen, walk[..n])
        decreases |walk| - n
      {
        NthLeadsTo(tl, OfToken(rows, t), fromBack, n);
        tl.Walk(fromBack, n);
        var iv := interactions[e.value];
        CollectOne(rows, before, cand, seen, walk, n);
        if iv.id !in seen {
          seen := seen + {iv.id};
          cand := cand + [iv];
        }
        e, n := if fromBack then e.prev else e.next, n + 1;
      }
      assert walk[..n] == walk;
      CollectToken(rows, before, cand, seen, t, walk);
    }

    /** Counters and the most recent rows of the given tokens. */
    method InteractionStatsByTokens(tokens: seq<string>) returns (st: Stats)
      requires Valid()
      ensures st == StatsOf(rows, tokens)
    {
      hide Valid, NoRepeats, Increasing, Filter;
      var cand := Gather(tokens, false);
      var all := SortBy(LaterId, cand);
      StatsGathered(rows, tokens, cand);
      var dns, http := 0, 0;
      CountNone(IsKind(DNS), all);
      CountNone(IsKind(HTTP), all);
      for n := 0 to |all|
        invariant dns == |Filter(IsKind(DNS), all[..n])| && http == |Filter(IsKind(HTTP), all[..n])|
      {
        CountOne(IsKind(DNS), all, n);
        CountOne(IsKind(HTTP), all, n);
        if all[n].kind == DNS {
          dns := dns + 1;
        } else if all[n].kind == HTTP {
          http := http + 1;
        }
      }
      assert all[..|all|] == all;
      st := Stats(|all|, dns, http, First(all, RECENT));
    }

    // ---- Users, tokens and refresh tokens ----

    /** Every secondary index is the exact inverse of its key. */
    ghost predicate AccountsHold()
      reads `users, `byUsername, `byEmail, `tokens, `tokenByValue, `refresh, `refreshByHash
    {
      && ExactIndex(users, byUsername, UsernameOf, false)
      && ExactIndex(users, byEmail, EmailOf, true)
      && ExactIndex(tokens, tokenByValue, ValueOf, false)
      && ExactIndex(refresh, refreshByHash, HashOf, false)
    }

    /** Every record carries its own id, which has been handed out. */
    ghost predicate AccountIdsHold()
      reads `users, `tokens, `refresh, `nextID
    {
      && SelfIds(users, UserId, nextID) && SelfIds(tokens, TokenId, nextID) && SelfIds(refresh, RefreshId, nextID)
    }

    /** Hands out the next id; all kinds of records share the counter. */
    method NewId() returns (id: int)
      requires Valid() && AccountIdsHold()
      modifies `nextID
      ensures Valid() && AccountIdsHold()
      ensures id == nextID == old(nextID) + 1
      ensures id !in users && id !in tokens && id !in refresh
    {
      hide Primary, OrderHolds, TokensHold, Increasing, SelfIds;
      LaterIdIsNew(users, UserId, nextID);
      LaterIdIsNew(tokens, TokenId, nextID);
      LaterIdIsNew(refresh, RefreshId, nextID);
      nextID := nextID + 1;
      return nextID;
    }

    method CreateUser(u: User, now: Time) returns (err: Option<StoreError>, stored: User)
      requires Valid() && AccountsHold() && AccountIdsHold()
      modifies `nextID, `users, `byUsername, `byEmail
      ensures Valid() && AccountsHold() && AccountIdsHold()
      ensures err == (if u.username == "" then Some(Validation)
                      else if InUse(old(users), UsernameOf, u.username) then Some(Conflict)
                      else if u.email != "" && InUse(old(users), EmailOf, u.email) then Some(Conflict)
                      else None)
      ensures err != None ==> users == old(users) && nextID == old(nextID) && stored == u
      ensures err == None ==>
        && nextID == old(nextID) + 1 && users == old(users)[nextID := stored]
        && stored == User(nextID, u.username, u.email, u.passwordHash, if u.role == "" then "viewer" else u.role,
                          if u.status == "" then "active" else u.status, u.lastLoginAt, now, now)
    {
      hide Valid, ExactIndex, InUse, SelfIds;
      if u.username == "" {
        return Some(Validation), u;
      }
      IndexTellsUse(users, byUsername, UsernameOf, false, u.username);
      if u.username in byUsername {
        return Some(Conflict), u;
      }
      if u.email != "" {
        IndexTellsUse(users, byEmail, EmailOf, true, u.email);
        if u.email in byEmail {
          return Some(Conflict), u;
        }
      }
      var id := NewId();
      stored := User(id, u.username, u.email, u.passwordHash, if u.role == "" then "viewer" else u.role,
                     if u.status == "" then "active" else u.status, u.lastLoginAt, now, now);
      InsertUser(stored);
      return None, stored;
    }

    /** Stores a user whose name and address are free under the last id handed out. */
    method InsertUser(u: User)
      requires AccountsHold() && AccountIdsHold()
      requires u.id == nextID && u.id !in users && u.username !in byUsername && (u.email != "" ==> u.email !in byEmail)
      modifies `users, `byUsername, `byEmail
      ensures AccountsHold() && AccountIdsHold()
      ensures users == old(users)[u.id := u]
    {
      hide ExactIndex, SelfIds;
      UnindexedNotIn(users, byEmail, EmailOf, true, u.email);
      InsertKeepsIndex(users, byUsername, UsernameOf, false, u.id, u);
      InsertKeepsIndex(users, byEmail, EmailOf, true, u.id, u);
      InsertKeepsIds(users, UserId, nextID, u.id, u);
      users := users[u.id := u];
      byUsername := byUsername[u.username := u.id];
      if u.email != "" {
        byEmail := byEmail[u.email := u.id];
      }
    }

    /** Renames move the keys; the password hash and the creation time stay as they were. */
    method UpdateUser(u: User, now: Time) returns (err: Option<StoreError>)
      requires Valid() && AccountsHold() && AccountIdsHold()
      modifies `users, `byUsername, `byEmail
      ensures Valid() && AccountsHold() && AccountIdsHold()
      ensures err == (if u.id !in old(users) then Some(NotFound)
                      else if u.username != old(users)[u.id].username && InUse(old(users), UsernameOf, u.username)
                        then Some(Conflict)
                      else if u.email != "" && u.email != old(users)[u.id].email && InUse(old(users), EmailOf, u.email)
                        then Some(Conflict)
                      else None)
      ensures err != None ==> users == old(users)
      ensures err == None ==>
        var ex := old(users)[u.id];
        users == old(users)[u.id := User(ex.id, u.username, u.email, ex.passwordHash, u.role, u.status,
                                         u.lastLoginAt, ex.createdAt, now)]
    {
      hide Valid, ExactIndex, InUse, SelfIds;
      if u.id !in users {
        return Some(NotFound);
      }
      var ex := users[u.id];
      IndexTellsUse(users, byUsername, UsernameOf, false, u.username);
      if u.username != ex.username && u.username in byUsername {
        return Some(Conflict);
      }
      if u.email != "" && u.email != ex.email {
        IndexTellsUse(users, byEmail, EmailOf, true, u.email);
        if u.email in byEmail {
          return Some(Conflict);
        }
      }
      assert ex.id == u.id <= nextID by {
        SelfId(users, UserId, nextID, u.id);
      }
      var changed := User(ex.id, u.username, u.email, ex.passwordHash, u.role, u.status, u.lastLoginAt,
                          ex.createdAt, now);
      ReplaceUser(changed);
      return None;
    }

    /** Takes the old keys of a user out of the indexes, replaces the record and puts the new keys in. */
    method ReplaceUser(u: User)
      requires AccountsHold() && AccountIdsHold() && u.id in users && u.id <= nextID
      requires u.username in byUsername ==> u.username == users[u.id].username
      requires u.email != "" && u.email in byEmail ==> u.email == users[u.id].email
      modifies `users, `byUsername, `byEmail
      ensures AccountsHold() && AccountIdsHold()
      ensures users == old(users)[u.id := u]
    {
      hide ExactIndex, SelfIds;
      var ex := users[u.id];
      UserIndexesAfterUpdate(users, byUsername, byEmail, u.id, u);
      InsertKeepsIds(users, UserId, nextID, u.id, u);
      byUsername := byUsername - {ex.username};
      if ex.email != "" {
        byEmail := byEmail - {ex.email};
      }
      users := users[u.id := u];
      byUsername := byUsername[u.username := u.id];
      if u.email != "" {
        byEmail := byEmail[u.email := u.id];
      }
    }

    method GetUserByUsername(username: string) returns (r: Option<User>)
      requires AccountsHold()
      ensures r.Some? ==> Holds(users, r.value) && r.value.username == username
      ensures r.None? ==> !InUse(users, UsernameOf, username)
      ensures forall id :: id in users && users[id].username == username ==> r == Some(users[id])
    {
      IndexTellsUse(users, byUsername, UsernameOf, false, username);
      if username !in byUsername {
        return None;
      }
      return Some(users[byUsername[username]]);
    }

    method CreateToken(t: Token, now: Time) returns (err: Option<StoreError>, stored: Token)
      requires Valid() && AccountsHold() && AccountIdsHold()
      modifies `nextID, `tokens, `tokenByValue
      ensures Valid() && AccountsHold() && AccountIdsHold()
      ensures err == (if t.value == "" then Some(Validation)
                      else if InUse(old(tokens), ValueOf, t.value) then Some(Conflict) else None)
      ensures err != None ==> tokens == old(tokens) && nextID == old(nextID) && stored == t
      ensures err == None ==>
        && nextID == old(nextID) + 1 && tokens == old(tokens)[nextID := stored]
        && stored == t.(id := nextID, createdAt := now, status := if t.status == Unset then Active else t.status)
    {
      hide Valid, ExactIndex, InUse, SelfIds;
      if t.value == "" {
        return Some(Validation), t;
      }
      IndexTellsUse(tokens, tokenByValue, ValueOf, false, t.value);
      if t.value in tokenByValue {
        return Some(Conflict), t;
      }
      var id := NewId();
      stored := t.(id := id, createdAt := now, status := if t.status == Unset then Active else t.status);
      InsertKeepsIndex(tokens, tokenByValue, ValueOf, false, id, stored);
      InsertKeepsIds(tokens, TokenId, nextID, id, stored);
      tokens := tokens[id := stored];
      tokenByValue := tokenByValue[stored.value := id];
      return None, stored;
    }

    method GetTokenByValue(value: string) returns (r: Option<Token>)
      requires AccountsHold()
      ensures r.Some? ==> Holds(tokens, r.value) && r.value.value == value
      ensures r.None? ==> !InUse(tokens, ValueOf, value)
      ensures forall id :: id in tokens && tokens[id].value == value ==> r == Some(tokens[id])
    {
      IndexTellsUse(tokens, tokenByValue, ValueOf, false, value);
      if value !in tokenByValue {
        return None;
      }
      return Some(tokens[tokenByValue[value]]);
    }

    /** The tokens of a user, newest first. */
    method ListTokensByUser(userId: int) returns (out: seq<Token>)
      ensures forall t :: t in out <==> Holds(tokens, t) && t.userId == userId
      ensures |out| == |set id | id in tokens && tokens[id].userId == userId|
      ensures forall i, j :: 0 <= i < j < |out| ==> out[i].createdAt >= out[j].createdAt
    {
      out := Collect(tokens, OfUser(userId));
      assert Chosen(tokens, OfUser(userId)) == set id | id in tokens && tokens[id].userId == userId;
      SortByMembers(CreatedLater, out);
      SortByNoneBefore(CreatedLater, out);
      out := SortBy(CreatedLater, out);
    }

    /** Deleting a token leaves every interaction in place. */
    method DeleteToken(id: int) returns (err: Option<StoreError>)
      requires Valid() && AccountsHold() && AccountIdsHold()
      modifies `tokens, `tokenByValue
      ensures Valid() && AccountsHold() && AccountIdsHold()
      ensures rows == old(rows)
      ensures err == (if id in old(tokens) then None else Some(NotFound))
      ensures tokens == old(tokens) - {id}
    {
      hide Valid, ExactIndex, SelfIds;
      if id !in tokens {
        assert tokens - {id} == tokens;
        return Some(NotFound);
      }
      var t := tokens[id];
      assert Consistent(tokens, tokenByValue, ValueOf, TokenId, nextID);
      RemoveKeepsConsistent(tokens, tokenByValue, ValueOf, TokenId, nextID, id);
      tokens := tokens - {id};
      tokenByValue := tokenByValue - {t.value};
      return None;
    }

    /** Visits every token, in any order, and deletes those marked as expired whose expiry is further back than
        the grace period. All others stay as they were, and so do the interactions. */
    method DeletePurgedTokens(now: Time, grace: Time) returns (n: nat)
      requires Valid() && AccountsHold() && AccountIdsHold()
      modifies `tokens, `tokenByValue
      ensures Valid() && AccountsHold() && AccountIdsHold()
      ensures rows == old(rows)
      ensures forall id :: id in tokens <==>
        id in old(tokens) && !(old(tokens)[id].status == Expired && old(tokens)[id].expiresAt < now - grace)
      ensures forall id :: id in tokens ==> tokens[id] == old(tokens)[id]
      ensures n == |old(tokens)| - |tokens|
    {
      PurgedInFields(tokens, now, grace);
      hide Valid, AccountsHold, AccountIdsHold, Chosen, Purged;
      n := SweepTokens(Purged(now, grace));
    }

    method SweepTokens(test: Token -> bool) returns (n: nat)
      requires AccountsHold() && AccountIdsHold()
      modifies `tokens, `tokenByValue
      ensures AccountsHold() && AccountIdsHold()
      ensures tokens == old(tokens) - Chosen(old(tokens), test)
      ensures n == |old(tokens)| - |tokens|
    {
      hide ExactIndex, SelfIds, Chosen, Consistent;
      ConsistentParts(tokens, tokenByValue, ValueOf, TokenId, nextID);
      tokens, tokenByValue, n := Sweep(tokens, tokenByValue, ValueOf, TokenId, nextID, test);
      ConsistentParts(tokens, tokenByValue, ValueOf, TokenId, nextID);
    }

    method CreateRefreshToken(rt: RefreshToken, now: Time) returns (err: Option<StoreError>, stored: RefreshToken)
      requires Valid() && AccountsHold() && AccountIdsHold()
      modifies `nextID, `refresh, `refreshByHash
      ensures Valid() && AccountsHold() && AccountIdsHold()
      ensures err == (if rt.hash == "" then Some(Validation)
                      else if InUse(old(refresh), HashOf, rt.hash) then Some(Conflict) else None)
      ensures err != None ==> refresh == old(refresh) && nextID == old(nextID) && stored == rt
      ensures err == None ==>
        && nextID == old(nextID) + 1 && refresh == old(refresh)[nextID := stored]
        && stored == rt.(id := nextID, createdAt := now)
    {
      hide Valid, ExactIndex, InUse, SelfIds;
      if rt.hash == "" {
        return Some(Validation), rt;
      }
      IndexTellsUse(refresh, refreshByHash, HashOf, false, rt.hash);
      if rt.hash in refreshByHash {
        return Some(Conflict), rt;
      }
      var id := NewId();
      stored := rt.(id := id, createdAt := now);
      InsertKeepsIndex(refresh, refreshByHash, HashOf, false, id, stored);
      InsertKeepsIds(refresh, RefreshId, nextID, id, stored);
      refresh := refresh[id := stored];
      refreshByHash := refreshByHash[stored.hash := id];
      return None, stored;
    }

    method GetRefreshTokenByHash(hash: string) returns (r: Option<RefreshToken>)
      requires AccountsHold()
      ensures r.Some? ==> Holds(refresh, r.value) && r.value.hash == hash
      ensures r.None? ==> !InUse(refresh, HashOf, hash)
      ensures forall id :: id in refresh && refresh[id].hash == hash ==> r == Some(refresh[id])
    {
      IndexTellsUse(refresh, refreshByHash, HashOf, false, hash);
      if hash !in refreshByHash {
        return None;
      }
      return Some(refresh[refreshByHash[hash]]);
    }

    method DeleteExpiredRefreshTokens(now: Time) returns (n: nat)
      requires Valid() && AccountsHold() && AccountIdsHold()
      modifies `refresh, `refreshByHash
      ensures Valid() && AccountsHold() && AccountIdsHold()
      ensures forall id :: id in refresh <==>
        id in old(refresh) && !(old(refresh)[id].expiresAt < now)
        && !(old(refresh)[id].revokedAt.Some? && old(refresh)[id].revokedAt.value < now - 86_400_000_000_000)
      ensures forall id :: id in refresh ==> refresh[id] == old(refresh)[id]
      ensures n == |old(refresh)| - |refresh|
    {
      StaleInFields(refresh, now);
      hide Valid, AccountsHold, AccountIdsHold, Chosen, Stale;
      n := SweepRefreshTokens(Stale(now));
    }

    method SweepRefreshTokens(test: RefreshToken -> bool) returns (n: nat)
      requires AccountsHold() && AccountIdsHold()
      modifies `refresh, `refreshByHash
      ensures AccountsHold() && AccountIdsHold()
      ensures refresh == old(refresh) - Chosen(old(refresh), test)
      ensures n == |old(refresh)| - |refresh|
    {
      hide ExactIndex, SelfIds, Chosen, Consistent;
      ConsistentParts(refresh, refreshByHash, HashOf, RefreshId, nextID);
      refresh, refreshByHash, n := Sweep(refresh, refreshByHash, HashOf, RefreshId, nextID, test);
      ConsistentParts(refresh, refreshByHash, HashOf, RefreshId, nextID);
    }

    lemma NothingToEvict(id: int)
      requires Primary(interactions, rows) && id !in interactions
      ensures Without(rows, id) == rows
    {
      FilterAll(IdIsNot(id), rows);
    }

    lemma EvictionFacts(id: int) returns (k: nat, j: nat)
      requires Valid() && id in interactions
      ensures this !in orderRepr && this !in tokenRepr && id in idToElem && id in idToTokenElem
      ensures k < |rows| && rows[k].id == id
      ensures var iv := interactions[id];
        iv in rows && iv.id == id && j < |OfToken(rows, iv.token)| && OfToken(rows, iv.token)[j] == iv
      ensures var left := Without(rows, id);
        Increasing(left) && IdsUpTo(left, nextID) && Primary(interactions - {id}, left)
    {
      k, j := Positions(interactions, rows, id);
      LeftAfterEviction(interactions, rows, id, nextID);
    }
  }
}
