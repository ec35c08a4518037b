/** The SQLite backend. Its interaction table is the sequence of its rows in id order, and each SQL
    statement is its meaning on that sequence. */
module SqliteStores {
  import opened Sequences
  import opened Models
  import opened CapRule
  import opened Arrivals
  import opened Queries
  import opened Sorting
  import opened Accounts

  /** WHERE clause of the rows that the per-token DELETE leaves: all but the rows of `token` whose id
      is not among the newest `cap` ids of that token. */
  function NotBeyond(rows: seq<Interaction>, token: string, cap: nat): Interaction -> bool {
    var newest := Ids(Last(OfToken(rows, token), cap));
    (iv: Interaction) => !(iv.token == token && iv.id !in newest)
  }

  /** WHERE clause of the rows that the global DELETE leaves. */
  function AmongNewest(rows: seq<Interaction>, cap: nat): Interaction -> bool {
    var newest := Ids(Last(rows, cap));
    (iv: Interaction) => iv.id in newest
  }

  /** The tokens that one insert marks for the per-token cap: all but the empty one. */
  function Touched(batch: seq<Interaction>): set<string> {
    set iv | iv in batch && iv.token != "" :: iv.token
  }

  lemma TouchedMore(batch: seq<Interaction>, iv: Interaction)
    ensures Touched([]) == {}
    ensures Touched(batch + [iv]) == if iv.token != "" then Touched(batch) + {iv.token} else Touched(batch)
  {
  }

  ghost function Named(tokens: set<string>): iset<string> {
    iset t | t in tokens
  }

  /** The table after one insert: only the touched tokens are capped, then the newest are kept. */
  ghost function SqlAddBatch(rows: seq<Interaction>, batch: seq<Interaction>, caps: Caps): seq<Interaction> {
    Last(Capped(rows + batch, caps.perToken, Named(Touched(batch))), caps.global)
  }

  lemma DeleteBeyondIsCapped(rows: seq<Interaction>, token: string, cap: nat)
    requires Increasing(rows)
    ensures Filter(NotBeyond(rows, token, cap), rows) == Capped(rows, cap, iset{token})
  {
    var capped := Capped(rows, cap, iset{token});
    var newest := Last(OfToken(rows, token), cap);
    FilterMembers(TokenIs(token), rows);
    SameIdSameRow(rows);
    forall iv | iv in rows ensures iv in capped <==> NotBeyond(rows, token, cap)(iv) {
      CappedOfToken(rows, cap, iset{token}, iv.token);
      FilterMembers(TokenIs(iv.token), capped);
      FilterMembers(TokenIs(iv.token), rows);
      assert iv in capped <==> iv in OfToken(capped, iv.token);
      if iv.token == token && iv.id in Ids(newest) {
        var other :| other in newest && other.id == iv.id;
        assert other in OfToken(rows, token);
      }
    }
    CappedIsFilter(rows, cap, iset{token});
    FilterAgree(x => x in capped, NotBeyond(rows, token, cap), rows);
  }

  lemma NewestIsLast(rows: seq<Interaction>, cap: nat)
    requires Increasing(rows)
    ensures Filter(AmongNewest(rows, cap), rows) == Last(rows, cap)
  {
    var recent := Last(rows, cap);
    var stale := rows[..|rows| - |recent|];
    assert rows == stale + recent;
    IncreasingParts(stale, recent);
    FilterAppend(AmongNewest(rows, cap), stale, recent);
    FilterAll(AmongNewest(rows, cap), recent);
    FilterNone(AmongNewest(rows, cap), stale);
  }

  /** One round of the per-token loop: the token's surplus is deleted only if there is one. */
  lemma CapOneMore(before: seq<Interaction>, done: set<string>, tv: string, cap: nat)
    requires Increasing(before)
    ensures var rows := Capped(before, cap, Named(done));
      Capped(before, cap, Named(done + {tv}))
      == if |OfToken(rows, tv)| > cap then Filter(NotBeyond(rows, tv, cap), rows) else rows
  {
    var rows := Capped(before, cap, Named(done));
    CappedMembers(before, cap, Named(done));
    CappedCompose(before, cap, Named(done), iset{tv});
    assert Named(done) + iset{tv} == Named(done + {tv});
    if |OfToken(rows, tv)| > cap {
      DeleteBeyondIsCapped(rows, tv, cap);
    } else {
      CappedIdentity(rows, cap, iset{tv});
    }
  }

  class SqliteStore {
    const caps: Caps
    var rows: seq<Interaction>
    var lastId: int

    /** The token table by primary key, and the last key handed out. */
    var tokens: map<int, Token>
    var lastTokenId: int

    ghost predicate TokensHold()
      reads `tokens, `lastTokenId
    {
      SelfIds(tokens, TokenId, lastTokenId) && UniqueKeys(tokens, ValueOf)
    }

    ghost predicate Valid()
      reads this
    {
      && caps.perToken > 0 && caps.global > 0
      && Increasing(rows)
      && forall iv :: iv in rows ==> iv.id <= lastId
    }

    constructor (maxInteractions: int, maxPerToken: int, bodyTruncate: int)
      ensures Valid() && rows == [] && lastId == 0
      ensures TokensHold() && tokens == map[]
      ensures caps == Caps(if maxInteractions > 0 then maxInteractions else 100_000,
                           if maxPerToken > 0 then maxPerToken else 10_000,
                           if bodyTruncate > 0 then bodyTruncate else 512)
    {
      caps := Configured(maxInteractions, maxPerToken, bodyTruncate);
      rows, lastId := [], 0;
      tokens, lastTokenId := map[], 0;
    }

    /** Inserts a batch in one transaction, then enforces the caps. */
    method AddInteractions(cancelled: bool, batch: seq<Interaction>, clock: seq<Time>)
      returns (stored: nat, err: Option<StoreError>)
      requires Valid() && |clock| == |batch|
      modifies `rows, `lastId
      ensures Valid()
      ensures batch != [] && cancelled ==> err == Some(Cancelled) && stored == 0
      ensures batch == [] || cancelled ==> rows == old(rows) && lastId == old(lastId)
      ensures batch != [] && !cancelled ==>
        && err == None && stored == |batch| && lastId == old(lastId) + |batch|
        && rows == SqlAddBatch(old(rows), Stamp(batch, clock, old(lastId), caps.bodyLimit), caps)
      ensures batch == [] ==> err == None && stored == 0
    {
      hide Capped, Stamp, StampOne, Touched, Increasing;
      if batch == [] {
        return 0, None;
      }
      if cancelled {
        return 0, Some(Cancelled);
      }
      ghost var stamped := Stamp(batch, clock, lastId, caps.bodyLimit);
      ghost var before := rows;
      StampFollows(rows, batch, clock, lastId, caps.bodyLimit);
      var touched: set<string> := {};
      assert stamped[..0] == [];
      TouchedMore([], batch[0]);
      for i := 0 to |batch|
        invariant rows == before + stamped[..i]
        invariant lastId == old(lastId) + i
        invariant touched == Touched(stamped[..i])
      {
        lastId := lastId + 1;
        var iv := StampOne(batch[i], clock[i], lastId, caps.bodyLimit);
        rows := rows + [iv];
        if iv.token != "" {
          touched := touched + {iv.token};
        }
        StampAt(batch, clock, old(lastId), caps.bodyLimit, i);
        assert stamped[..i + 1] == stamped[..i] + [iv];
        TouchedMore(stamped[..i], iv);
      }
      assert stamped[..|batch|] == stamped;
      EnforceCaps(touched);
      return |batch|, None;
    }

    /** The touched tokens may come in any order. */
    method EnforceCaps(touched: set<string>)
      requires Valid()
      modifies this`rows
      ensures Valid()
      ensures rows == Last(Capped(old(rows), caps.perToken, Named(touched)), caps.global)
    {
      hide Capped, OfToken, NotBeyond, AmongNewest;
      ghost var before, done := rows, {};
      var todo := touched;
      CappedIdentity(rows, caps.perToken, Named({}));
      while todo != {}
        invariant done + todo == touched
        invariant rows == Capped(before, caps.perToken, Named(done))
        decreases todo
      {
        var tv :| tv in todo;
        todo := todo - {tv};
        CapOneMore(before, done, tv, caps.perToken);
        if |OfToken(rows, tv)| > caps.perToken {
          rows := Filter(NotBeyond(rows, tv, caps.perToken), rows);
        }
        done := done + {tv};
      }
      CappedMembers(before, caps.perToken, Named(touched));
      assert done == touched;
      if |rows| > caps.global {
        NewestIsLast(rows, caps.global);
        rows := Filter(AmongNewest(rows, caps.global), rows);
      }
    }

    method DeleteInteraction(id: int) returns (err: Option<StoreError>)
      requires Valid()
      modifies this`rows
      ensures Valid()
      ensures rows == Without(old(rows), id)
      ensures err == if id in Ids(old(rows)) then None else Some(NotFound)
    {
      var left := Without(rows, id);
      FilterKeepsOrder(IdIsNot(id), rows);
      err := if |left| == |rows| then Some(NotFound) else None;
      if id in Ids(rows) {
        FilterShrinks(IdIsNot(id), rows);
      } else {
        FilterAll(IdIsNot(id), rows);
      }
      rows := left;
    }

    /** Deletes every old row, wherever it stands. The memory store's walk does the same exactly when no old
        row stands behind one that is not old. */
    method DeleteOldInteractions(cutoff: Time) returns (n: nat)
      requires Valid()
      modifies this`rows
      ensures Valid()
      ensures forall iv :: iv in rows <==> iv in old(rows) && iv.createdAt >= cutoff
      ensures n + |rows| == |old(rows)|
      ensures rows == DropOld(old(rows), cutoff) <==> OldRowsFirst(old(rows), cutoff)
    {
      var left := Filter(NotOld(cutoff), rows);
      n := |rows| - |left|;
      FilterKeepsOrder(NotOld(cutoff), rows);
      FilterMembers(NotOld(cutoff), rows);
      DropOldIsComplete(rows, cutoff);
      rows := left;
    }

    /** Counts the rows that the WHERE clause selects, and returns one page of them ordered by id, newest
        first. An empty scope is answered without a query. The page is the memory store's page when there is
        no scope or the selected rows are in time order. */
    method ListInteractions(f: InteractionFilter) returns (items: seq<Interaction>, total: nat)
      requires Valid()
      ensures IsPageById(items, rows, Matches(f), f.offset, EffectiveLimit(f.limit))
      ensures total == |Listing(rows, f)| && |items| <= EffectiveLimit(f.limit)
      ensures f.scope.None? || Chronological(Filter(Matches(f), rows)) ==> items == ListedPage(rows, f)
    {
      ScopedListingIsFilter(rows, f);
      PageByRank(rows, Matches(f), f.offset, EffectiveLimit(f.limit));
      if f.scope.Some? {
        OrdersCoincide(rows, f);
      }
      hide IsPageById, Filter, Increasing;
      if f.scope == Some([]) {
        FilterNone(Matches(f), rows);
        return [], 0;
      }
      var selected := Filter(Matches(f), rows);
      return Page(Reverse(selected), f.offset, EffectiveLimit(f.limit)), |selected|;
    }

    /** The counters of the memory store, and the same recent rows. */
    method InteractionStatsByTokens(tokens: seq<string>) returns (st: Stats)
      requires Valid()
      ensures st == StatsOf(rows, tokens)
    {
      FilterTwice(IsKind(DNS), InScope(tokens), KindInScope(DNS, tokens), rows);
      FilterTwice(IsKind(HTTP), InScope(tokens), KindInScope(HTTP, tokens), rows);
      if tokens == [] {
        FilterNone(InScope(tokens), rows);
        return Stats(0, 0, 0, []);
      }
      var mine := Filter(InScope(tokens), rows);
      var recent := if |mine| > 0 then First(Reverse(mine), RECENT) else [];
      return Stats(|mine|, |Filter(KindInScope(DNS, tokens), rows)|, |Filter(KindInScope(HTTP, tokens), rows)|, recent);
    }

    // ---- Tokens ----

    /** The value is checked by a count before the insert; the table's UNIQUE constraint then holds. */
    method CreateToken(t: Token, now: Time) returns (err: Option<StoreError>, stored: Token)
      requires TokensHold()
      modifies `tokens, `lastTokenId
      ensures TokensHold()
      ensures err == (if t.value == "" then Some(Validation)
                      else if InUse(old(tokens), ValueOf, t.value) then Some(Conflict) else None)
      ensures err != None ==> tokens == old(tokens) && lastTokenId == old(lastTokenId) && stored == t
      ensures err == None ==>
        && lastTokenId == old(lastTokenId) + 1 && tokens == old(tokens)[lastTokenId := stored]
        && stored == t.(id := lastTokenId, createdAt := now, status := if t.status == Unset then Active else t.status)
    {
      if t.value == "" {
        return Some(Validation), t;
      }
      var n := Collect(tokens, HasValue(t.value));
      FoundIsInUse(tokens, t.value, n);
      if |n| > 0 {
        return Some(Conflict), t;
      }
      lastTokenId := lastTokenId + 1;
      stored := t.(id := lastTokenId, createdAt := now, status := if t.status == Unset then Active else t.status);
      tokens := tokens[lastTokenId := stored];
      return None, stored;
    }

    method DeleteToken(id: int) returns (err: Option<StoreError>)
      requires TokensHold()
      modifies `tokens
      ensures TokensHold()
      ensures err == (if id in old(tokens) then None else Some(NotFound))
      ensures tokens == old(tokens) - {id}
    {
      err := if id in tokens then None else Some(NotFound);
      tokens := tokens - {id};
    }

    method GetTokenByValue(value: string) returns (r: Option<Token>)
      requires TokensHold()
      ensures r.Some? ==> Holds(tokens, r.value) && r.value.value == value
      ensures r.None? ==> !InUse(tokens, ValueOf, value)
      ensures forall id :: id in tokens && tokens[id].value == value ==> r == Some(tokens[id])
    {
      var found := Collect(tokens, HasValue(value));
      FoundIsInUse(tokens, value, found);
      return if found == [] then None else Some(found[0]);
    }

    method ListTokensByUser(userId: int) returns (out: seq<Token>)
      ensures forall t :: t in out <==> Holds(tokens, t) && t.userId == userId
      ensures |out| == |set id | id in tokens && tokens[id].userId == userId|
      ensures forall i, j :: 0 <= i < j < |out| ==>
        out[i].createdAt > out[j].createdAt || (out[i].createdAt == out[j].createdAt && out[i].id >= out[j].id)
    {
      out := Collect(tokens, OfUser(userId));
      assert Chosen(tokens, OfUser(userId)) == set id | id in tokens && tokens[id].userId == userId;
      SortByMembers(CreatedLaterById, out);
      SortByNoneBefore(CreatedLaterById, out);
      out := SortBy(CreatedLaterById, out);
    }
  }

  lemma FoundIsInUse(tokens: map<int, Token>, value: string, found: seq<Token>)
    requires forall t :: t in found <==> Holds(tokens, t) && HasValue(value)(t)
    ensures found != [] <==> InUse(tokens, ValueOf, value)
    ensures found != [] ==> Holds(tokens, found[0]) && found[0].value == value
  {
    if found != [] {
      assert found[0] in found;
      var id :| id in tokens && tokens[id] == found[0];
      assert ValueOf(tokens[id]) == value;
    }
    if InUse(tokens, ValueOf, value) {
      var id :| id in tokens && ValueOf(tokens[id]) == value;
      assert Holds(tokens, tokens[id]);
    }
  }

  function KindInScope(kind: string, tokens: seq<string>): Interaction -> bool {
    (iv: Interaction) => iv.kind == kind && iv.token in tokens
  }
}
