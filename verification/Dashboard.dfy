/** What a visitor of the dashboard gets to see: the interactions of the visitor's own tokens. */
module Dashboards {
  import opened Models
  import opened Sequences
  import opened Sorting
  import opened CapRule
  import opened Accounts
  import opened Queries
  import opened MemoryStores
  import opened SqliteStores

  /** The query parameters of a listing. */
  datatype Query = Query(token: string, kind: string, srcIP: string, limit: int, offset: int)

  /** A visitor owns the rows that carry the value of a live token of the visitor. */
  ghost function OwnedBy(tokens: map<int, Token>, visitor: int): Interaction -> bool {
    (iv: Interaction) => exists id :: id in tokens && tokens[id].userId == visitor && tokens[id].value == iv.token
  }

  /** Only the two known types are a condition; any other text asks for all. */
  function KindOf(q: Query): string {
    if q.kind == DNS || q.kind == HTTP then q.kind else ""
  }

  /** What the visitor asked for, among the rows the visitor owns. */
  ghost function Shown(tokens: map<int, Token>, visitor: int, q: Query): Interaction -> bool {
    (iv: Interaction) =>
      && OwnedBy(tokens, visitor)(iv)
      && (q.token != "" ==> iv.token == q.token)
      && (q.kind == "dns" || q.kind == "http" ==> iv.kind == q.kind)
      && (q.srcIP != "" ==> iv.srcIP == q.srcIP)
  }

  function VisitorFilter(q: Query, vals: seq<string>): InteractionFilter {
    InteractionFilter(q.token, Some(vals), KindOf(q), q.srcIP, 0, None, None, q.limit, q.offset)
  }

  /** A row is shown when it carries the value of some live token of the visitor and meets every condition that
      was asked for; a type other than the two is no condition. */
  lemma ShownInFields(tokens: map<int, Token>, visitor: int, q: Query, iv: Interaction)
    ensures Shown(tokens, visitor, q)(iv) <==>
      && (exists id :: id in tokens && tokens[id].userId == visitor && tokens[id].value == iv.token)
      && (q.token == "" || iv.token == q.token)
      && (q.srcIP == "" || iv.srcIP == q.srcIP)
      && ((q.kind != "dns" && q.kind != "http") || iv.kind == q.kind)
  {
    assert OwnedBy(tokens, visitor)(iv) <==>
      exists id :: id in tokens && tokens[id].userId == visitor && tokens[id].value == iv.token;
    hide OwnedBy;
  }

  // ---- The scope ----

  method ValuesOf(tks: seq<Token>) returns (vals: seq<string>)
    ensures forall v :: v in vals <==> exists t :: t in tks && t.value == v
  {
    vals := [];
    for i := 0 to |tks|
      invariant forall v :: v in vals <==> exists t :: t in tks[..i] && t.value == v
    {
      assert tks[..i + 1] == tks[..i] + [tks[i]];
      vals := vals + [tks[i].value];
    }
    assert tks[..|tks|] == tks;
  }

  /** A scope of these values is the ownership of the visitor. */
  ghost predicate AreValuesOf(vals: seq<string>, tokens: map<int, Token>, visitor: int) {
    forall iv :: InScope(vals)(iv) <==> OwnedBy(tokens, visitor)(iv)
  }

  lemma ScopeIsOwnership(tks: seq<Token>, vals: seq<string>, tokens: map<int, Token>, visitor: int)
    requires forall t :: t in tks <==> Holds(tokens, t) && t.userId == visitor
    requires forall v :: v in vals <==> exists t :: t in tks && t.value == v
    ensures AreValuesOf(vals, tokens, visitor)
  {
    forall iv ensures InScope(vals)(iv) <==> OwnedBy(tokens, visitor)(iv) {
      if OwnedBy(tokens, visitor)(iv) {
        var id :| id in tokens && tokens[id].userId == visitor && tokens[id].value == iv.token;
        assert Holds(tokens, tokens[id]);
      }
      if iv.token in vals {
        var t :| t in tks && t.value == iv.token;
        assert Holds(tokens, t);
      }
    }
  }

  lemma ScopedIsShown(rows: seq<Interaction>, tokens: map<int, Token>, visitor: int, q: Query, vals: seq<string>)
    requires AreValuesOf(vals, tokens, visitor)
    ensures Filter(Matches(VisitorFilter(q, vals)), rows) == Filter(Shown(tokens, visitor, q), rows)
    ensures forall iv :: Matches(VisitorFilter(q, vals))(iv) <==> Shown(tokens, visitor, q)(iv)
  {
    forall iv ensures Matches(VisitorFilter(q, vals))(iv) <==> Shown(tokens, visitor, q)(iv) {
      assert InScope(vals)(iv) <==> OwnedBy(tokens, visitor)(iv);
    }
    hide Matches, Shown;
    FilterAgree(Matches(VisitorFilter(q, vals)), Shown(tokens, visitor, q), rows);
  }

  // ---- The listing ----

  /** The listing handler over the memory store: one page of all the rows shown, most recent first. */
  method ListForVisitor(store: MemoryStore, visitor: int, q: Query) returns (items: seq<Interaction>, total: nat)
    requires store.Valid()
    ensures var shown := Filter(Shown(store.tokens, visitor, q), store.rows);
      items == Page(SortBy(MoreRecent, shown), q.offset, EffectiveLimit(q.limit)) && total == |shown|
  {
    hide MemoryStore.Valid, AreValuesOf, Matches, Shown, Filter, SortBy, Page;
    var tks := store.ListTokensByUser(visitor);
    var vals := ValuesOf(tks);
    ScopeIsOwnership(tks, vals, store.tokens, visitor);
    ScopedIsShown(store.rows, store.tokens, visitor, q, vals);
    items, total := store.ListInteractions(VisitorFilter(q, vals));
  }

  /** The listing handler over SQLite: the page by id, of the same rows. */
  method ListForVisitorSqlite(store: SqliteStore, visitor: int, q: Query) returns (items: seq<Interaction>, total: nat)
    requires store.Valid()
    ensures IsPageById(items, store.rows, Shown(store.tokens, visitor, q), q.offset, EffectiveLimit(q.limit))
    ensures total == |Filter(Shown(store.tokens, visitor, q), store.rows)|
  {
    hide AreValuesOf, Matches, Shown, Filter, IsPageById, Listing, ListedPage, Increasing;
    var tks := store.ListTokensByUser(visitor);
    var vals := ValuesOf(tks);
    ScopeIsOwnership(tks, vals, store.tokens, visitor);
    ScopedIsShown(store.rows, store.tokens, visitor, q, vals);
    var f := VisitorFilter(q, vals);
    ScopedListingIsFilter(store.rows, f);
    items, total := store.ListInteractions(f);
    SamePage(items, store.rows, Matches(f), Shown(store.tokens, visitor, q), q.offset, EffectiveLimit(q.limit));
  }

  lemma SamePage(items: seq<Interaction>, rows: seq<Interaction>, p: Interaction -> bool, q: Interaction -> bool,
                 offset: int, limit: nat)
    requires Filter(p, rows) == Filter(q, rows) && forall iv :: p(iv) <==> q(iv)
    requires IsPageById(items, rows, p, offset, limit)
    ensures IsPageById(items, rows, q, offset, limit)
  {
    hide Filter;
    forall iv ensures OnPage(rows, p, offset, limit, iv) <==> OnPage(rows, q, offset, limit, iv) {
    }
  }

  /** Both pages hold rows of the visitor only. */
  lemma OnlyOwnRowsShown(rows: seq<Interaction>, tokens: map<int, Token>, visitor: int, q: Query, iv: Interaction)
    requires Increasing(rows)
    requires var limit := EffectiveLimit(q.limit);
      || iv in Page(SortBy(MoreRecent, Filter(Shown(tokens, visitor, q), rows)), q.offset, limit)
      || OnPage(rows, Shown(tokens, visitor, q), q.offset, limit, iv)
    ensures iv in rows && OwnedBy(tokens, visitor)(iv)
  {
    var shown := Filter(Shown(tokens, visitor, q), rows);
    FilterMembers(Shown(tokens, visitor, q), rows);
    SortByMembers(MoreRecent, shown);
    assert iv in Page(SortBy(MoreRecent, shown), q.offset, EffectiveLimit(q.limit)) ==> iv in SortBy(MoreRecent, shown);
  }

  /** A visitor without tokens sees nothing on either backend. */
  lemma StrangersSeeNothing(rows: seq<Interaction>, tokens: map<int, Token>, visitor: int, q: Query)
    requires forall id :: id in tokens ==> tokens[id].userId != visitor
    ensures var shown := Filter(Shown(tokens, visitor, q), rows);
      && |shown| == 0
      && Page(SortBy(MoreRecent, shown), q.offset, EffectiveLimit(q.limit)) == []
    ensures forall iv :: !OnPage(rows, Shown(tokens, visitor, q), q.offset, EffectiveLimit(q.limit), iv)
  {
    assert forall iv :: !OwnedBy(tokens, visitor)(iv);
    FilterNone(Shown(tokens, visitor, q), rows);
  }

  /** No row is seen by two visitors: the values of live tokens are unique. */
  lemma VisitorsAreIsolated(tokens: map<int, Token>, a: int, b: int, iv: Interaction)
    requires UniqueKeys(tokens, ValueOf)
    requires OwnedBy(tokens, a)(iv) && OwnedBy(tokens, b)(iv)
    ensures a == b
  {
    var i :| i in tokens && tokens[i].userId == a && tokens[i].value == iv.token;
    var j :| j in tokens && tokens[j].userId == b && tokens[j].value == iv.token;
    assert ValueOf(tokens[i]) == ValueOf(tokens[j]);
  }

  /** Once a token is deleted its rows are still stored, but no visitor is shown them any more. */
  lemma DeletedTokenHidesRows(tokens: map<int, Token>, id: int, visitor: int, iv: Interaction)
    requires UniqueKeys(tokens, ValueOf) && id in tokens && iv.token == tokens[id].value
    ensures !OwnedBy(tokens - {id}, visitor)(iv)
    ensures forall other: Interaction, v: int :: other.token != iv.token ==>
      (OwnedBy(tokens - {id}, v)(other) <==> OwnedBy(tokens, v)(other))
  {
    assert forall j :: j in tokens && ValueOf(tokens[j]) == ValueOf(tokens[id]) ==> j == id;
    forall other: Interaction, v: int | other.token != iv.token && OwnedBy(tokens, v)(other)
      ensures OwnedBy(tokens - {id}, v)(other)
    {
      var j :| j in tokens && tokens[j].userId == v && tokens[j].value == other.token;
      assert j in tokens - {id};
    }
  }

  // ---- Single interactions ----

  lemma LookupTellsOwner(tokens: map<int, Token>, visitor: int, iv: Interaction, tk: Option<Token>)
    requires UniqueKeys(tokens, ValueOf)
    requires tk.Some? ==> Holds(tokens, tk.value) && tk.value.value == iv.token
    requires tk.None? ==> !InUse(tokens, ValueOf, iv.token)
    ensures tk.Some? && tk.value.userId == visitor <==> OwnedBy(tokens, visitor)(iv)
  {
    if OwnedBy(tokens, visitor)(iv) {
      var i :| i in tokens && tokens[i].userId == visitor && tokens[i].value == iv.token;
      assert ValueOf(tokens[i]) == iv.token;
      assert InUse(tokens, ValueOf, iv.token);
      var j :| j in tokens && tokens[j] == tk.value;
      assert ValueOf(tokens[i]) == ValueOf(tokens[j]);
    }
  }

  /** The check made before a single interaction is shown or deleted looks the token up by its value, and
      gives the answer of the listing's scope. */
  method OwnsInteraction(store: MemoryStore, visitor: int, iv: Interaction) returns (owns: bool)
    requires store.AccountsHold()
    ensures owns <==> OwnedBy(store.tokens, visitor)(iv)
  {
    hide ExactIndex, UniqueKeys, OwnedBy;
    var tk := store.GetTokenByValue(iv.token);
    owns := tk.Some? && tk.value.userId == visitor;
    IndexedKeysAreUnique(store.tokens, store.tokenByValue, ValueOf);
    LookupTellsOwner(store.tokens, visitor, iv, tk);
  }

  method OwnsInteractionSqlite(store: SqliteStore, visitor: int, iv: Interaction) returns (owns: bool)
    requires store.TokensHold()
    ensures owns <==> OwnedBy(store.tokens, visitor)(iv)
  {
    hide UniqueKeys, OwnedBy, SelfIds;
    var tk := store.GetTokenByValue(iv.token);
    owns := tk.Some? && tk.value.userId == visitor;
    LookupTellsOwner(store.tokens, visitor, iv, tk);
  }

  lemma IdsApart(store: MemoryStore)
    requires store.Valid()
    ensures forall a, b :: a in store.rows && b in store.rows && a.id == b.id ==> a == b
  {
    SameIdSameRow(store.rows);
  }

  /** The handler that deletes one interaction: 404 unless it is stored and owned by the visitor. Users,
      tokens and refresh tokens are out of its reach. */
  method DeleteForVisitor(store: MemoryStore, visitor: int, id: int) returns (status: int)
    requires store.Valid() && store.AccountsHold()
    modifies store`nextID, store`interactions, store`idToElem, store`orderRepr, store`byToken, store`spines
    modifies store`idToTokenElem, store`tokenRepr, store`rows, store.orderRepr, store.tokenRepr
    ensures store.Valid() && store.AccountsHold()
    ensures store.orderRepr == old(store.orderRepr) && store.tokenRepr == old(store.tokenRepr)
    ensures store.nextID == old(store.nextID)
    ensures status == if exists iv :: iv in old(store.rows) && iv.id == id && OwnedBy(store.tokens, visitor)(iv)
                      then 200 else 404
    ensures store.rows == if status == 200 then Without(old(store.rows), id) else old(store.rows)
  {
    hide MemoryStore.Valid, MemoryStore.AccountsHold, OwnedBy, Without;
    IdsApart(store);
    var iv := store.GetInteraction(id);
    if iv.None? {
      return 404;
    }
    var owns := OwnsInteraction(store, visitor, iv.value);
    if !owns {
      return 404;
    }
    var err := store.DeleteInteraction(id);
    return 200;
  }

  // ---- Statistics ----

  lemma CountedIsOwned(rows: seq<Interaction>, tokens: map<int, Token>, visitor: int, vals: seq<string>)
    requires AreValuesOf(vals, tokens, visitor)
    ensures StatsOf(rows, vals) == StatsOver(Filter(OwnedBy(tokens, visitor), rows))
  {
    hide OwnedBy;
    FilterAgree(InScope(vals), OwnedBy(tokens, visitor), rows);
  }

  /** The statistics handler: counters over the visitor's rows, the newest of them, and how many tokens the
      visitor has. */
  method StatsForVisitor(store: MemoryStore, visitor: int) returns (st: Stats, tokens: nat)
    requires store.Valid()
    ensures st == StatsOver(Filter(OwnedBy(store.tokens, visitor), store.rows))
    ensures tokens == |set id | id in store.tokens && store.tokens[id].userId == visitor|
  {
    hide MemoryStore.Valid, AreValuesOf, OwnedBy, StatsOf, StatsOver;
    var tks := store.ListTokensByUser(visitor);
    var vals := ValuesOf(tks);
    ScopeIsOwnership(tks, vals, store.tokens, visitor);
    CountedIsOwned(store.rows, store.tokens, visitor, vals);
    st := store.InteractionStatsByTokens(vals);
    tokens := |tks|;
  }

  method StatsForVisitorSqlite(store: SqliteStore, visitor: int) returns (st: Stats, tokens: nat)
    requires store.Valid()
    ensures st == StatsOver(Filter(OwnedBy(store.tokens, visitor), store.rows))
    ensures tokens == |set id | id in store.tokens && store.tokens[id].userId == visitor|
  {
    hide AreValuesOf, OwnedBy, StatsOf, StatsOver, Increasing;
    var tks := store.ListTokensByUser(visitor);
    var vals := ValuesOf(tks);
    ScopeIsOwnership(tks, vals, store.tokens, visitor);
    CountedIsOwned(store.rows, store.tokens, visitor, vals);
    st := store.InteractionStatsByTokens(vals);
    tokens := |tks|;
  }
}
