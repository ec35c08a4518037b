/** What the listing and statistics queries mean on the sequence of stored rows. */
module Queries {
  import opened Sequences
  import opened Sorting
  import opened Models
  import opened CapRule
  import opened Arrivals

  const DEFAULT_LIMIT := 50
  const MAX_LIMIT := 500
  const RECENT := 10

  function EffectiveLimit(limit: int): (n: nat)
    ensures n == if 1 <= limit <= 500 then limit else 50
  {
    if limit <= 0 || limit > MAX_LIMIT then DEFAULT_LIMIT else limit
  }

  /** The filter of a listing. Empty strings, 0 and None leave a field unconstrained. */
  function Matches(f: InteractionFilter): Interaction -> bool {
    (iv: Interaction) =>
      && (f.scope.Some? ==> iv.token in f.scope.value)
      && (f.token != "" ==> iv.token == f.token)
      && (f.kind != "" ==> iv.kind == f.kind)
      && (f.srcIP != "" ==> iv.srcIP == f.srcIP)
      && (f.domainId != 0 ==> iv.domainId == f.domainId)
      && (f.start.Some? ==> !(iv.createdAt < f.start.value))
      && (f.end.Some? ==> !(iv.createdAt > f.end.value))
  }

  function InScope(tokens: seq<string>): Interaction -> bool {
    (iv: Interaction) => iv.token in tokens
  }

  function IsKind(kind: string): Interaction -> bool {
    (iv: Interaction) => iv.kind == kind
  }

  /** Newest first by time, then by id. */
  function MoreRecent(a: Interaction, b: Interaction): bool {
    if a.createdAt == b.createdAt then a.id > b.id else a.createdAt > b.createdAt
  }

  function LaterId(a: Interaction, b: Interaction): bool {
    a.id > b.id
  }

  /** Every match of a listing, in the order of the listing, before it is cut into pages. */
  function Listing(rows: seq<Interaction>, f: InteractionFilter): seq<Interaction> {
    if f.scope.Some? then SortBy(MoreRecent, Filter(Matches(f), rows)) else Reverse(Filter(Matches(f), rows))
  }

  function Clamp(offset: int, n: nat): nat {
    if offset < 0 then 0 else if offset > n then n else offset
  }

  function Page(list: seq<Interaction>, offset: int, limit: nat): seq<Interaction> {
    First(list[Clamp(offset, |list|)..], limit)
  }

  lemma PageSnoc(list: seq<Interaction>, iv: Interaction, offset: int, limit: nat)
    ensures Page(list + [iv], offset, limit)
         == if |list| + 1 > offset && |Page(list, offset, limit)| < limit then Page(list, offset, limit) + [iv]
            else Page(list, offset, limit)
  {
    var lo := Clamp(offset, |list|);
    if |list| + 1 > offset {
      assert (list + [iv])[lo..] == list[lo..] + [iv];
    }
  }

  /** What one call returns. */
  function ListedPage(rows: seq<Interaction>, f: InteractionFilter): seq<Interaction> {
    Page(Listing(rows, f), f.offset, EffectiveLimit(f.limit))
  }

  /** All pages from an offset on, in steps of `limit`. */
  function FetchAll(rows: seq<Interaction>, f: InteractionFilter, limit: nat, offset: nat): seq<Interaction>
    requires limit > 0
    decreases |Listing(rows, f)| - offset
  {
    if offset >= |Listing(rows, f)| then []
    else ListedPage(rows, f.(limit := limit, offset := offset)) + FetchAll(rows, f, limit, offset + limit)
  }

  lemma ListingIgnoresPaging(rows: seq<Interaction>, f: InteractionFilter, limit: int, offset: int)
    ensures Listing(rows, f.(limit := limit, offset := offset)) == Listing(rows, f)
  {
    FilterAgree(Matches(f), Matches(f.(limit := limit, offset := offset)), rows);
  }

  /** Every page reports the same total: the length of the whole listing. */
  lemma TotalIgnoresPaging(rows: seq<Interaction>, f: InteractionFilter, limit: int, offset: int)
    requires Increasing(rows)
    ensures |Filter(Matches(f.(limit := limit, offset := offset)), rows)| == |Listing(rows, f)|
  {
    FilterAgree(Matches(f), Matches(f.(limit := limit, offset := offset)), rows);
    ScopedListingIsFilter(rows, f);
  }

  lemma {:induction false} FetchAllSuffix(rows: seq<Interaction>, f: InteractionFilter, limit: nat, offset: nat)
    requires 1 <= limit <= MAX_LIMIT
    ensures FetchAll(rows, f, limit, offset) == Listing(rows, f)[Clamp(offset, |Listing(rows, f)|)..]
    decreases |Listing(rows, f)| - offset
  {
    hide Listing, Page;
    if offset < |Listing(rows, f)| {
      ListingIgnoresPaging(rows, f, limit, offset);
      FetchAllSuffix(rows, f, limit, offset + limit);
      PageThenRest(Listing(rows, f), offset, limit);
    }
  }

  lemma PageThenRest(list: seq<Interaction>, offset: nat, limit: nat)
    requires offset < |list|
    ensures Page(list, offset, limit) + list[Clamp(offset + limit, |list|)..] == list[Clamp(offset, |list|)..]
  {
    if offset + limit <= |list| {
      assert list[offset..] == list[offset..offset + limit] + list[offset + limit..];
    }
  }

  lemma {:induction false} FetchAllBound(rows: seq<Interaction>, f: InteractionFilter, limit: nat, offset: nat)
    requires limit > MAX_LIMIT
    ensures |FetchAll(rows, f, limit, offset)|
         <= if offset <= |Listing(rows, f)| then |Listing(rows, f)| - offset else 0
    decreases |Listing(rows, f)| - offset
  {
    hide Listing;
    if offset < |Listing(rows, f)| {
      ListingIgnoresPaging(rows, f, limit, offset);
      FetchAllBound(rows, f, limit, offset + limit);
    }
  }

  /** The pages at offsets 0, limit, 2 limit and so on tile the listing, without gap or repeat, exactly
      when the limit is not above the maximum or one default page holds everything. */
  lemma PagesTile(rows: seq<Interaction>, f: InteractionFilter, limit: nat)
    requires limit > 0
    ensures FetchAll(rows, f, limit, 0) == Listing(rows, f)
       <==> limit <= MAX_LIMIT || |Listing(rows, f)| <= DEFAULT_LIMIT
  {
    hide Listing;
    if limit <= MAX_LIMIT {
      FetchAllSuffix(rows, f, limit, 0);
    } else if Listing(rows, f) != [] {
      ListingIgnoresPaging(rows, f, limit, 0);
      FetchAllBound(rows, f, limit, limit);
      LongPage(Listing(rows, f), limit);
    }
  }

  lemma LongPage(list: seq<Interaction>, limit: nat)
    requires limit > MAX_LIMIT
    ensures Page(list, 0, EffectiveLimit(limit)) == First(list, DEFAULT_LIMIT)
    ensures |list| <= DEFAULT_LIMIT ==> First(list, DEFAULT_LIMIT) + [] == list
  {
  }

  // ---- The orders ----

  lemma RecencyOrders(rows: seq<Interaction>)
    requires Increasing(rows)
    ensures OrderedOn(MoreRecent, set iv | iv in rows) && OrderedOn(LaterId, set iv | iv in rows)
  {
    SameIdSameRow(rows);
  }

  lemma IncreasingNoRepeats(rows: seq<Interaction>)
    requires Increasing(rows)
    ensures NoRepeats(rows)
  {
    forall i, j | 0 <= i < j < |rows| ensures rows[i] != rows[j] {
      assert rows[i].id < rows[j].id;
    }
  }

  /** When times do not run backwards along the rows, newest first by time is newest first by arrival. */
  lemma SortedIsReversed(rows: seq<Interaction>, p: Interaction -> bool)
    requires Increasing(rows) && Chronological(rows)
    ensures SortBy(MoreRecent, Filter(p, rows)) == Reverse(Filter(p, rows))
  {
    var kept := Filter(p, rows);
    FilterKeepsOrder(p, rows);
    FilterKeepsTime(p, rows);
    RecencyOrders(kept);
    IncreasingNoRepeats(kept);
    SortBySorted(MoreRecent, kept, set iv | iv in kept);
    SortByMembers(MoreRecent, kept);
    ReverseMembers(kept);
    SortedUnique(MoreRecent, SortBy(MoreRecent, kept), Reverse(kept));
  }

  lemma ReverseMembers<T>(s: seq<T>)
    ensures forall x :: x in Reverse(s) <==> x in s
  {
    forall x | x in s ensures x in Reverse(s) {
      var i :| 0 <= i < |s| && s[i] == x;
      assert Reverse(s)[|s| - 1 - i] == x;
    }
  }

  lemma LaterIdIsReversed(rows: seq<Interaction>, sorted: seq<Interaction>)
    requires Increasing(rows) && Sorted(LaterId, sorted) && forall iv :: iv in sorted <==> iv in rows
    ensures sorted == Reverse(rows)
  {
    ReverseMembers(rows);
    SortedUnique(LaterId, sorted, Reverse(rows));
  }

  /** The scoped listing orders by time, the global one by arrival; in time order they coincide. */
  lemma ScopedListingIsFilter(rows: seq<Interaction>, f: InteractionFilter)
    requires Increasing(rows)
    ensures Chronological(rows) ==> Listing(rows, f) == Reverse(Filter(Matches(f), rows))
    ensures |Listing(rows, f)| == |Filter(Matches(f), rows)|
    ensures forall iv :: iv in Listing(rows, f) <==> iv in rows && Matches(f)(iv)
    ensures f.scope.Some? ==> Sorted(MoreRecent, Listing(rows, f))
  {
    var kept := Filter(Matches(f), rows);
    FilterMembers(Matches(f), rows);
    FilterKeepsOrder(Matches(f), rows);
    SortByMembers(MoreRecent, kept);
    ReverseMembers(kept);
    RecencyOrders(kept);
    IncreasingNoRepeats(kept);
    SortBySorted(MoreRecent, kept, set iv | iv in kept);
    if Chronological(rows) {
      SortedIsReversed(rows, Matches(f));
    }
  }

  /** The scoped listing of the memory store, by time, is the listing of SQLite, by id, exactly when the
      matching rows are in time order. */
  lemma OrdersCoincide(rows: seq<Interaction>, f: InteractionFilter)
    requires Increasing(rows) && f.scope.Some?
    ensures Listing(rows, f) == Reverse(Filter(Matches(f), rows)) <==> Chronological(Filter(Matches(f), rows))
  {
    hide Filter, Matches, Increasing, Chronological, Sorted, SortBy;
    var kept := Filter(Matches(f), rows);
    FilterKeepsOrder(Matches(f), rows);
    if Chronological(kept) {
      SortedIsReversed(kept, Matches(f));
      FilterMembers(Matches(f), rows);
      FilterAll(Matches(f), kept);
    }
    ScopedListingIsFilter(rows, f);
    if Sorted(MoreRecent, Reverse(kept)) {
      NewestFirstIsChronological(kept);
    }
  }

  lemma NewestFirstIsChronological(kept: seq<Interaction>)
    requires Sorted(MoreRecent, Reverse(kept))
    ensures Chronological(kept)
  {
    var newest := Reverse(kept);
    forall i, j | 0 <= i < j < |kept| ensures kept[i].createdAt <= kept[j].createdAt {
      assert MoreRecent(newest[|kept| - 1 - j], newest[|kept| - 1 - i]);
    }
  }

  /** Gathering candidates in any order, sorting them and filtering afterwards gives the scoped listing. */
  lemma GatherSortFilter(rows: seq<Interaction>, cand: seq<Interaction>, f: InteractionFilter)
    requires Increasing(rows) && f.scope.Some?
    requires NoRepeats(cand) && forall iv :: iv in cand <==> iv in rows && iv.token in f.scope.value
    ensures Filter(Matches(f), SortBy(MoreRecent, cand)) == Listing(rows, f)
  {
    var sorted := SortBy(MoreRecent, cand);
    RecencyOrders(rows);
    SortBySorted(MoreRecent, cand, set iv | iv in rows);
    SortByMembers(MoreRecent, cand);
    FilterSorted(MoreRecent, Matches(f), sorted);
    FilterMembers(Matches(f), sorted);
    ScopedListingIsFilter(rows, f);
    SortedUnique(MoreRecent, Filter(Matches(f), sorted), Listing(rows, f));
  }

  lemma {:induction false} FilterSorted(before: (Interaction, Interaction) -> bool, p: Interaction -> bool,
                                        s: seq<Interaction>)
    requires Sorted(before, s)
    ensures Sorted(before, Filter(p, s))
  {
    if s != [] {
      FilterSorted(before, p, s[1..]);
      FilterMembers(p, s[1..]);
      var rest := Filter(p, s[1..]);
      forall j | 0 <= j < |rest| ensures before(s[0], rest[j]) {
        assert rest[j] in rest;
        var k :| 0 <= k < |s| - 1 && s[1..][k] == rest[j];
        assert s[k + 1] == rest[j];
      }
    }
  }

  // ---- The listing, field by field ----

  /** What is listed, and in which order: with a scope by time and then by id, without one by id. */
  lemma ListingInFields(rows: seq<Interaction>, f: InteractionFilter)
    requires Increasing(rows)
    ensures forall iv :: iv in Listing(rows, f) <==>
      && iv in rows
      && (f.scope == None || iv.token in f.scope.value)
      && (f.token == "" || iv.token == f.token)
      && (f.kind == "" || iv.kind == f.kind)
      && (f.srcIP == "" || iv.srcIP == f.srcIP)
      && (f.domainId == 0 || iv.domainId == f.domainId)
      && (f.start == None || iv.createdAt >= f.start.value)
      && (f.end == None || iv.createdAt <= f.end.value)
    ensures var list := Listing(rows, f);
      forall i, j :: 0 <= i < j < |list| ==>
        if f.scope == None then list[i].id > list[j].id
        else || list[i].createdAt > list[j].createdAt
             || (list[i].createdAt == list[j].createdAt && list[i].id > list[j].id)
  {
    ScopedListingIsFilter(rows, f);
    FilterKeepsOrder(Matches(f), rows);
    hide Filter, SortBy, Increasing;
    var kept := Filter(Matches(f), rows);
    if f.scope == None {
      ReverseByLaterId(kept);
    }
  }

  /** Sorting by recency puts the latest first; among rows of one time the one stored last. */
  lemma RecentFirst(rows: seq<Interaction>)
    requires Increasing(rows)
    ensures var list := SortBy(MoreRecent, rows);
      && |list| == |rows| && (forall iv :: iv in list <==> iv in rows)
      && forall i, j :: 0 <= i < j < |list| ==>
           list[i].createdAt > list[j].createdAt || (list[i].createdAt == list[j].createdAt && list[i].id > list[j].id)
  {
    RecencyOrders(rows);
    IncreasingNoRepeats(rows);
    SortBySorted(MoreRecent, rows, set iv | iv in rows);
    SortByMembers(MoreRecent, rows);
    hide SortBy;
  }

  /** One page: up to 500 items as asked for, else 50, from the offset on; a negative offset is none. */
  lemma PageInNumbers(list: seq<Interaction>, offset: int, limit: int)
    ensures var page := Page(list, offset, EffectiveLimit(limit));
      var from := if offset < 0 then 0 else offset;
      var asked := if 1 <= limit <= 500 then limit else 50;
      && |page| == (if |list| <= from then 0 else if |list| - from <= asked then |list| - from else asked)
      && forall i :: 0 <= i < |page| ==> page[i] == list[from + i]
  {
  }

  // ---- Pages by rank ----

  function AfterId(id: int): Interaction -> bool {
    (iv: Interaction) => iv.id > id
  }

  /** How many rows that satisfy p have a later id than the given one. */
  function Rank(rows: seq<Interaction>, p: Interaction -> bool, id: int): nat {
    |Filter(AfterId(id), Filter(p, rows))|
  }

  /** A row that satisfies p is on the page when its rank is: `offset` ranks are skipped, the next `limit` shown. */
  ghost predicate OnPage(rows: seq<Interaction>, p: Interaction -> bool, offset: int, limit: nat, iv: Interaction) {
    var skipped := if offset < 0 then 0 else offset;
    iv in rows && p(iv) && skipped <= Rank(rows, p, iv.id) < skipped + limit
  }

  /** Newest first by id, exactly the rows on the page. */
  ghost predicate IsPageById(items: seq<Interaction>, rows: seq<Interaction>, p: Interaction -> bool,
                             offset: int, limit: nat) {
    && (forall i, j :: 0 <= i < j < |items| ==> items[i].id > items[j].id)
    && (forall iv :: iv in items <==> OnPage(rows, p, offset, limit, iv))
  }

  lemma RankOf(kept: seq<Interaction>, k: nat)
    requires Increasing(kept) && k < |kept|
    ensures |Filter(AfterId(kept[k].id), kept)| == |kept| - 1 - k
  {
    var older, newer := kept[..k + 1], kept[k + 1..];
    assert kept == older + newer;
    assert older[k] == kept[k];
    IncreasingParts(older, newer);
    forall iv | iv in older ensures iv.id <= kept[k].id {
    }
    hide Increasing, Filter;
    FilterAppend(AfterId(kept[k].id), older, newer);
    FilterNone(AfterId(kept[k].id), older);
    FilterAll(AfterId(kept[k].id), newer);
  }

  /** Cutting a page out of the selected rows, newest id first, leaves exactly those whose rank is on it. */
  lemma PageByRank(rows: seq<Interaction>, p: Interaction -> bool, offset: int, limit: nat)
    requires Increasing(rows)
    ensures IsPageById(Page(Reverse(Filter(p, rows)), offset, limit), rows, p, offset, limit)
  {
    hide Filter, Page, Increasing;
    var kept := Filter(p, rows);
    var rank := (iv: Interaction) => Rank(rows, p, iv.id);
    FilterKeepsOrder(p, rows);
    FilterMembers(p, rows);
    forall i | 0 <= i < |kept| ensures rank(Reverse(kept)[i]) == i {
      RankOf(kept, |kept| - 1 - i);
    }
    ReverseMembers(kept);
    ReverseByLaterId(kept);
    PageIsRanks(Reverse(kept), rank, offset, limit);
  }

  lemma ReverseByLaterId(rows: seq<Interaction>)
    requires Increasing(rows)
    ensures Sorted(LaterId, Reverse(rows))
  {
  }

  lemma PageIsRanks(list: seq<Interaction>, rank: Interaction -> nat, offset: int, limit: nat)
    requires forall i :: 0 <= i < |list| ==> rank(list[i]) == i
    ensures forall iv :: iv in Page(list, offset, limit) <==>
      iv in list && (if offset < 0 then 0 else offset) <= rank(iv) < (if offset < 0 then 0 else offset) + limit
    ensures Sorted(LaterId, list) ==> Sorted(LaterId, Page(list, offset, limit))
  {
    var lo := Clamp(offset, |list|);
    var hi := Clamp(lo + limit, |list|);
    assert Page(list, offset, limit) == list[lo..hi];
    hide Page;
    SliceMembers(list, rank, lo, hi);
  }

  lemma SliceMembers(list: seq<Interaction>, rank: Interaction -> nat, lo: nat, hi: nat)
    requires lo <= hi <= |list| && forall i :: 0 <= i < |list| ==> rank(list[i]) == i
    ensures forall iv :: iv in list[lo..hi] <==> iv in list && lo <= rank(iv) < hi
    ensures forall iv :: iv in list ==> rank(iv) < |list|
  {
    var page := list[lo..hi];
    forall iv | iv in page ensures iv in list && lo <= rank(iv) < hi {
      var i :| 0 <= i < |page| && page[i] == iv;
      assert list[lo + i] == iv;
    }
    forall iv | iv in list && lo <= rank(iv) < hi ensures iv in page {
      assert page[rank(iv) - lo] == iv;
    }
  }

  // ---- Statistics ----

  datatype Stats = Stats(interactions: nat, dns: nat, http: nat, recent: seq<Interaction>)

  /** The counters over the given rows, and the most recent of them, newest first. */
  function StatsOver(mine: seq<Interaction>): Stats {
    Stats(|mine|, |Filter(IsKind(DNS), mine)|, |Filter(IsKind(HTTP), mine)|, First(Reverse(mine), RECENT))
  }

  /** The counters and the ten newest rows, in the fields of the rows. */
  lemma StatsInFields(mine: seq<Interaction>)
    ensures var st := StatsOver(mine);
      && st.interactions == |mine|
      && st.dns == |Filter((iv: Interaction) => iv.kind == "dns", mine)|
      && st.http == |Filter((iv: Interaction) => iv.kind == "http", mine)|
      && |st.recent| == (if |mine| <= 10 then |mine| else 10)
      && forall i :: 0 <= i < |st.recent| ==> st.recent[i] == mine[|mine| - 1 - i]
  {
    FilterAgree(IsKind(DNS), (iv: Interaction) => iv.kind == "dns", mine);
    FilterAgree(IsKind(HTTP), (iv: Interaction) => iv.kind == "http", mine);
  }

  /** They are about the rows of the given tokens. */
  lemma StatsAreScoped(rows: seq<Interaction>, tokens: seq<string>)
    ensures StatsOf(rows, tokens) == StatsOver(Filter((iv: Interaction) => iv.token in tokens, rows))
  {
    FilterAgree(InScope(tokens), (iv: Interaction) => iv.token in tokens, rows);
  }

  function StatsOf(rows: seq<Interaction>, tokens: seq<string>): Stats {
    StatsOver(Filter(InScope(tokens), rows))
  }

  function ScopeFilter(tokens: seq<string>, kind: string): InteractionFilter {
    InteractionFilter("", Some(tokens), kind, "", 0, None, None, 0, 0)
  }

  /** The statistics report the totals of the listings of the same scope, overall and per type, and
      their recent items are the first listed ones whenever times do not run backwards. */
  lemma StatsAgreeWithListing(rows: seq<Interaction>, tokens: seq<string>)
    requires Increasing(rows)
    ensures var st := StatsOf(rows, tokens);
      && st.interactions == |Listing(rows, ScopeFilter(tokens, ""))|
      && st.dns == |Listing(rows, ScopeFilter(tokens, DNS))|
      && st.http == |Listing(rows, ScopeFilter(tokens, HTTP))|
      && (Chronological(rows) ==> st.recent == First(Listing(rows, ScopeFilter(tokens, "")), RECENT))
  {
    ScopedListingIsFilter(rows, ScopeFilter(tokens, ""));
    ScopedListingIsFilter(rows, ScopeFilter(tokens, DNS));
    ScopedListingIsFilter(rows, ScopeFilter(tokens, HTTP));
    FilterAgree(Matches(ScopeFilter(tokens, "")), InScope(tokens), rows);
    FilterTwice(IsKind(DNS), InScope(tokens), Matches(ScopeFilter(tokens, DNS)), rows);
    FilterTwice(IsKind(HTTP), InScope(tokens), Matches(ScopeFilter(tokens, HTTP)), rows);
  }
}
