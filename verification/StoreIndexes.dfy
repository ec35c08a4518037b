/** The indexes of the memory store as values: what it means that they describe a sequence of rows, and
    how one insertion or removal changes them. */
module StoreIndexes {
  import opened Sequences
  import opened Models
  import opened CapRule
  import opened LinkedLists
  import opened Queries
  import opened Accounts
  import opened Sorting

  /** The primary map holds exactly rs, each row under its id. */
  ghost predicate Primary(interactions: map<int, Interaction>, rs: seq<Interaction>) {
    && interactions.Keys == Ids(rs)
    && forall iv :: iv in rs ==> interactions[iv.id] == iv
  }

  ghost predicate IdsUpTo(rs: seq<Interaction>, lastId: int) {
    forall iv :: iv in rs ==> iv.id <= lastId
  }

  /** The elements carry the ids of rs in order, and `index` leads from each id to its element. */
  ghost predicate Listed(spine: seq<Element>, index: map<int, Element>, rs: seq<Interaction>) {
    && |spine| == |rs|
    && (forall i :: 0 <= i < |rs| ==> spine[i].value == rs[i].id)
    && (forall i :: 0 <= i < |rs| ==> rs[i].id in index && index[rs[i].id] == spine[i])
  }

  lemma ListedAfterRemoval(spine: seq<Element>, index: map<int, Element>, rs: seq<Interaction>, k: nat)
    requires Listed(spine, index, rs) && k < |rs| && Increasing(rs)
    ensures Listed(spine[..k] + spine[k + 1..], index - {rs[k].id}, rs[..k] + rs[k + 1..])
  {
    var left := rs[..k] + rs[k + 1..];
    assert forall i :: 0 <= i < |left| ==> left[i] == rs[if i < k then i else i + 1];
  }

  ghost predicate IndexedAt(spines: map<string, seq<Element>>, index: map<int, Element>, rs: seq<Interaction>,
                            t: string) {
    && (t in spines <==> OfToken(rs, t) != [])
    && (t in spines ==> Listed(spines[t], index, OfToken(rs, t)))
  }

  /** Each token with rows, and no other, has a list, and it holds the ids of its rows in order. */
  ghost predicate Indexed(spines: map<string, seq<Element>>, index: map<int, Element>, rs: seq<Interaction>) {
    && (forall t :: IndexedAt(spines, index, rs, t))
    && index.Keys == Ids(rs)
  }

  lemma IndexedAfterRemoval(spines: map<string, seq<Element>>, index: map<int, Element>, rows: seq<Interaction>,
                            iv: Interaction, j: nat)
    requires Indexed(spines, index, rows) && Increasing(rows) && iv in rows
    requires j < |OfToken(rows, iv.token)| && OfToken(rows, iv.token)[j] == iv
    ensures Indexed(SpinesWithout(spines, iv.token, j), index - {iv.id}, Without(rows, iv.id))
  {
    var shrunk, leadsTo, left := SpinesWithout(spines, iv.token, j), index - {iv.id}, Without(rows, iv.id);
    forall t ensures IndexedAt(shrunk, leadsTo, left, t) {
      assert IndexedAt(spines, index, rows, t);
      IndexedAtAfterRemoval(spines, index, rows, iv, j, t);
    }
    IdsWithout(rows, iv);
  }

  lemma IndexedAtAfterRemoval(spines: map<string, seq<Element>>, index: map<int, Element>, rows: seq<Interaction>,
                              iv: Interaction, j: nat, t: string)
    requires IndexedAt(spines, index, rows, t) && Increasing(rows) && iv in rows
    requires j < |OfToken(rows, iv.token)| && OfToken(rows, iv.token)[j] == iv
    ensures IndexedAt(SpinesWithout(spines, iv.token, j), index - {iv.id}, Without(rows, iv.id), t)
  {
    hide OfToken, Without, Increasing, Listed;
    OfTokenWithout(rows, iv, j, t);
    if t == iv.token {
      ListedAfterRemoval(spines[t], index, OfToken(rows, t), j);
      ListedSameLength(spines[t], index, OfToken(rows, t));
    } else if t in spines {
      ListedUnlessRemoved(spines[t], index, OfToken(rows, t), iv.id);
    }
  }

  lemma ListedSameLength(spine: seq<Element>, index: map<int, Element>, rs: seq<Interaction>)
    requires Listed(spine, index, rs)
    ensures |spine| == |rs|
  {
  }

  lemma IndexLeadsTo(spines: map<string, seq<Element>>, index: map<int, Element>, rows: seq<Interaction>, t: string,
                     j: nat)
    requires Indexed(spines, index, rows) && j < |OfToken(rows, t)|
    ensures t in spines && |spines[t]| == |OfToken(rows, t)|
    ensures OfToken(rows, t)[j].id in index && index[OfToken(rows, t)[j].id] == spines[t][j]
  {
    assert IndexedAt(spines, index, rows, t);
  }

  lemma ListedUnlessRemoved(spine: seq<Element>, index: map<int, Element>, rs: seq<Interaction>, id: int)
    requires Listed(spine, index, rs) && forall iv :: iv in rs ==> iv.id != id
    ensures Listed(spine, index - {id}, rs)
  {
    assert forall i :: 0 <= i < |rs| ==> rs[i] in rs;
  }

  /** Removing one row shortens the list of its token and leaves every other token's list alone. */
  lemma OfTokenWithout(rows: seq<Interaction>, iv: Interaction, j: nat, t: string)
    requires Increasing(rows) && iv in rows
    requires j < |OfToken(rows, iv.token)| && OfToken(rows, iv.token)[j] == iv
    ensures var mine := OfToken(rows, t);
      OfToken(Without(rows, iv.id), t) == if t == iv.token then mine[..j] + mine[j + 1..] else mine
    ensures Increasing(OfToken(rows, t))
    ensures t != iv.token ==> forall other :: other in OfToken(rows, t) ==> other.id != iv.id
  {
    FilterCommutes(TokenIs(t), IdIsNot(iv.id), rows);
    FilterKeepsOrder(TokenIs(t), rows);
    FilterMembers(TokenIs(t), rows);
    if t == iv.token {
      WithoutIsRemoveAt(OfToken(rows, t), j);
    } else {
      SameIdSameRow(rows);
      FilterAll(IdIsNot(iv.id), OfToken(rows, t));
    }
  }

  lemma IdsWithout(rows: seq<Interaction>, iv: Interaction)
    requires iv in rows
    ensures Ids(Without(rows, iv.id)) == Ids(rows) - {iv.id}
  {
    FilterMembers(IdIsNot(iv.id), rows);
  }

  lemma IdsAfterRemoval(rows: seq<Interaction>, k: nat)
    requires Increasing(rows) && k < |rows|
    ensures Ids(rows[..k] + rows[k + 1..]) == Ids(rows) - {rows[k].id}
  {
    var left := rows[..k] + rows[k + 1..];
    assert forall i :: 0 <= i < |left| ==> left[i] == rows[if i < k then i else i + 1];
    forall i | 0 <= i < |rows| && i != k ensures rows[i] in left {
      assert rows[i] == left[if i < k then i else i - 1];
    }
  }

  lemma ListedAfterAppend(spine: seq<Element>, index: map<int, Element>, rs: seq<Interaction>, iv: Interaction,
                          e: Element)
    requires Listed(spine, index, rs) && e.value == iv.id
    requires forall other :: other in rs ==> other.id != iv.id
    ensures Listed(spine + [e], index[iv.id := e], rs + [iv])
  {
    assert forall i :: 0 <= i < |rs| ==> rs[i] in rs;
  }

  lemma IdsAfterAppend(rows: seq<Interaction>, iv: Interaction)
    ensures Ids(rows + [iv]) == Ids(rows) + {iv.id}
  {
  }

  ghost function SpinesWith(spines: map<string, seq<Element>>, t: string, e: Element): map<string, seq<Element>> {
    spines[t := (if t in spines then spines[t] else []) + [e]]
  }

  lemma IndexedAfterAppend(spines: map<string, seq<Element>>, index: map<int, Element>, rows: seq<Interaction>,
                           iv: Interaction, e: Element)
    requires Indexed(spines, index, rows) && e.value == iv.id
    requires forall other :: other in rows ==> other.id != iv.id
    ensures Indexed(SpinesWith(spines, iv.token, e), index[iv.id := e], rows + [iv])
  {
    var grown, leadsTo, all := SpinesWith(spines, iv.token, e), index[iv.id := e], rows + [iv];
    forall t ensures IndexedAt(grown, leadsTo, all, t) {
      assert IndexedAt(spines, index, rows, t);
      IndexedAtAfterAppend(spines, index, rows, iv, e, t);
    }
    IdsAfterAppend(rows, iv);
  }

  lemma IndexedAtAfterAppend(spines: map<string, seq<Element>>, index: map<int, Element>, rows: seq<Interaction>,
                             iv: Interaction, e: Element, t: string)
    requires IndexedAt(spines, index, rows, t) && e.value == iv.id
    requires forall other :: other in rows ==> other.id != iv.id
    ensures IndexedAt(SpinesWith(spines, iv.token, e), index[iv.id := e], rows + [iv], t)
  {
    FilterAppend(TokenIs(t), rows, [iv]);
    FilterMembers(TokenIs(t), rows);
    var mine := OfToken(rows, t);
    if t == iv.token {
      assert OfToken(rows + [iv], t) == mine + [iv];
      ListedAfterAppend(if t in spines then spines[t] else [], index, mine, iv, e);
    } else {
      assert OfToken(rows + [iv], t) == mine;
      assert forall i :: 0 <= i < |mine| ==> mine[i] in mine;
    }
  }

  // ---- The per-token lists ----

  /** The lists are well formed, made of separate objects in repr, and have the given spines. */
  ghost predicate ListsHold(lists: map<string, LinkedList>, spines: map<string, seq<Element>>, repr: set<object>)
    reads repr
  {
    && lists.Keys == spines.Keys
    && (forall t :: t in lists ==> ListHolds(lists[t], spines[t], repr))
    && (forall t, u :: t in lists && u in lists && t != u ==> lists[t].Repr !! lists[u].Repr)
  }

  ghost predicate ListHolds(tl: LinkedList, spine: seq<Element>, repr: set<object>)
    reads repr
  {
    tl in repr && tl.Repr <= repr && tl.Valid() && tl.spine == spine
  }

  /** Removing an element touches its own list only. */
  method RemoveFromList(lists: map<string, LinkedList>, ghost spines: map<string, seq<Element>>,
                        ghost repr: set<object>,
                        t: string, telem: Element, ghost j: nat)
    requires ListsHold(lists, spines, repr) && t in lists
    requires j < |spines[t]| && spines[t][j] == telem
    modifies repr
    ensures ListsHold(lists, spines[t := spines[t][..j] + spines[t][j + 1..]], repr)
  {
    hide LinkedList.Valid;
    var tl := lists[t];
    assert ListHolds(tl, spines[t], repr);
    tl.Remove(telem, j);
    forall u | u in lists && u != t ensures ListHolds(lists[u], spines[u], repr) {
      assert old(ListHolds(lists[u], spines[u], repr));
    }
  }

  lemma ListsHoldWithout(lists: map<string, LinkedList>, spines: map<string, seq<Element>>, repr: set<object>,
                         t: string)
    requires ListsHold(lists, spines, repr)
    ensures ListsHold(lists - {t}, spines - {t}, repr)
  {
  }

  /** Removes an element from the list of t, and that list from the map once it is empty. */
  method DropFromList(lists: map<string, LinkedList>, ghost spines: map<string, seq<Element>>, ghost repr: set<object>,
                      t: string, telem: Element, ghost j: nat)
    returns (left: map<string, LinkedList>, ghost leftSpines: map<string, seq<Element>>)
    requires ListsHold(lists, spines, repr) && t in lists
    requires j < |spines[t]| && spines[t][j] == telem
    modifies repr
    ensures ListsHold(left, leftSpines, repr)
    ensures leftSpines == SpinesWithout(spines, t, j)
  {
    hide LinkedList.Valid;
    RemoveFromList(lists, spines, repr, t, telem, j);
    left, leftSpines := lists, spines[t := spines[t][..j] + spines[t][j + 1..]];
    assert ListHolds(left[t], leftSpines[t], repr);
    if left[t].len == 0 {
      ListsHoldWithout(left, leftSpines, repr, t);
      left, leftSpines := left - {t}, leftSpines - {t};
    }
  }

  ghost function SpinesWithout(spines: map<string, seq<Element>>, t: string, j: nat): map<string, seq<Element>>
  {
    if t !in spines || j >= |spines[t]| then spines
    else
      var mine := spines[t][..j] + spines[t][j + 1..];
      if mine == [] then spines - {t} else spines[t := mine]
  }

  /** Appends an id to the list of t, creating the list if there is none. */
  method PushToList(lists: map<string, LinkedList>, ghost spines: map<string, seq<Element>>, ghost repr: set<object>,
                    t: string, id: int)
    returns (grown: map<string, LinkedList>, e: Element, ghost grownRepr: set<object>)
    requires ListsHold(lists, spines, repr)
    modifies repr
    ensures e.value == id
    ensures ListsHold(grown, SpinesWith(spines, t, e), grownRepr)
    ensures grownRepr >= repr && fresh(grownRepr - repr)
  {
    hide LinkedList.Valid, ListsHold;
    grown, grownRepr := lists, repr;
    ghost var sp := spines;
    ListKeys(lists, spines, repr);
    if t !in grown {
      var tl := new LinkedList();
      ListsHoldWith(lists, spines, repr, t, tl);
      grown := grown[t := tl];
      grownRepr := repr + {tl};
      sp := spines[t := []];
    }
    e, grownRepr := PushToExisting(grown, sp, grownRepr, t, id);
    assert sp[t := sp[t] + [e]] == SpinesWith(spines, t, e);
  }

  lemma ListKeys(lists: map<string, LinkedList>, spines: map<string, seq<Element>>, repr: set<object>)
    requires ListsHold(lists, spines, repr)
    ensures lists.Keys == spines.Keys
  {
  }

  /** A new empty list may join the others. */
  lemma ListsHoldWith(lists: map<string, LinkedList>, spines: map<string, seq<Element>>, repr: set<object>,
                      t: string, tl: LinkedList)
    requires ListsHold(lists, spines, repr)
    requires tl.Valid() && tl.spine == [] && tl.Repr == {tl} && tl !in repr
    ensures ListsHold(lists[t := tl], spines[t := []], repr + {tl})
  {
    hide LinkedList.Valid;
    forall u | u in lists && u != t ensures ListHolds(lists[u], spines[u], repr + {tl}) {
      assert ListHolds(lists[u], spines[u], repr);
    }
  }

  method PushToExisting(lists: map<string, LinkedList>, ghost spines: map<string, seq<Element>>,
                        ghost repr: set<object>,
                        t: string, id: int)
    returns (e: Element, ghost grownRepr: set<object>)
    requires ListsHold(lists, spines, repr) && t in lists
    modifies repr
    ensures e.value == id
    ensures ListsHold(lists, spines[t := spines[t] + [e]], grownRepr)
    ensures grownRepr >= repr && fresh(grownRepr - repr)
  {
    hide LinkedList.Valid;
    var tl := lists[t];
    assert ListHolds(tl, spines[t], repr);
    e := tl.PushBack(id);
    grownRepr := repr + {e};
    forall u | u in lists && u != t ensures ListHolds(lists[u], spines[u], grownRepr) {
      assert old(ListHolds(lists[u], spines[u], repr));
    }
  }

  lemma Positions(interactions: map<int, Interaction>, rows: seq<Interaction>, id: int) returns (k: nat, j: nat)
    requires Primary(interactions, rows) && id in interactions
    ensures var iv := interactions[id];
      && iv in rows && iv.id == id
      && k < |rows| && rows[k] == iv
      && j < |OfToken(rows, iv.token)| && OfToken(rows, iv.token)[j] == iv
  {
    var iv := interactions[id];
    k :| 0 <= k < |rows| && rows[k].id == id;
    assert rows[k] in rows;
    FilterMembers(TokenIs(iv.token), rows);
    j :| 0 <= j < |OfToken(rows, iv.token)| && OfToken(rows, iv.token)[j] == iv;
  }

  lemma LeftAfterEviction(interactions: map<int, Interaction>, rows: seq<Interaction>, id: int, lastId: int)
    requires Primary(interactions, rows) && Increasing(rows) && IdsUpTo(rows, lastId) && id in interactions
    ensures var left := Without(rows, id);
      Increasing(left) && IdsUpTo(left, lastId) && Primary(interactions - {id}, left)
  {
    FilterKeepsOrder(IdIsNot(id), rows);
    FilterMembers(IdIsNot(id), rows);
    var iv :| iv in rows && iv.id == id;
    IdsWithout(rows, iv);
  }

  lemma AppendFacts(interactions: map<int, Interaction>, rows: seq<Interaction>, iv: Interaction, lastId: int)
    requires Primary(interactions, rows) && Increasing(rows) && IdsUpTo(rows, lastId - 1) && iv.id == lastId
    ensures forall other :: other in rows ==> other.id != iv.id
    ensures Increasing(rows + [iv]) && IdsUpTo(rows + [iv], lastId) && Primary(interactions[iv.id := iv], rows + [iv])
  {
    PrimaryAfterAppend(interactions, rows, iv);
    hide Primary;
    IncreasingJoin(rows, [iv]);
  }

  lemma PrimaryAfterAppend(interactions: map<int, Interaction>, rows: seq<Interaction>, iv: Interaction)
    requires Primary(interactions, rows) && forall other :: other in rows ==> other.id != iv.id
    ensures Primary(interactions[iv.id := iv], rows + [iv])
  {
    IdsAfterAppend(rows, iv);
  }

  lemma LastOfTokenAfterAppend(rows: seq<Interaction>, iv: Interaction)
    ensures OfToken(rows + [iv], iv.token) == OfToken(rows, iv.token) + [iv]
  {
    FilterAppend(TokenIs(iv.token), rows, [iv]);
  }

  lemma WithoutKeepsCaps(rows: seq<Interaction>, id: int, caps: Caps)
    requires WithinCaps(rows, caps)
    ensures WithinCaps(Without(rows, id), caps)
  {
    FilterKeepsCaps(rows, IdIsNot(id), caps);
  }

  lemma DropFirst(rows: seq<Interaction>, n: nat)
    requires Increasing(rows) && rows != []
    ensures Without(rows, rows[0].id) == rows[1..]
    ensures |rows| > n ==> Last(rows[1..], n) == Last(rows, n)
  {
    WithoutIsRemoveAt(rows, 0);
  }

  lemma SelectOne(walk: seq<Interaction>, n: nat, f: InteractionFilter)
    requires n < |walk|
    ensures var done, limit := Filter(Matches(f), walk[..n]), EffectiveLimit(f.limit);
      && Filter(Matches(f), walk[..n + 1]) == (if Matches(f)(walk[n]) then done + [walk[n]] else done)
      && Page(done + [walk[n]], f.offset, limit)
         == if |done| + 1 > f.offset && |Page(done, f.offset, limit)| < limit
             then Page(done, f.offset, limit) + [walk[n]]
            else Page(done, f.offset, limit)
  {
    assert walk[..n + 1] == walk[..n] + [walk[n]];
    FilterAppend(Matches(f), walk[..n], [walk[n]]);
    PageSnoc(Filter(Matches(f), walk[..n]), walk[n], f.offset, EffectiveLimit(f.limit));
  }

  /** A token filter may look at the rows of that token only. */
  lemma SingleToken(rows: seq<Interaction>, f: InteractionFilter)
    requires f.token != ""
    ensures Filter(Matches(f), Reverse(OfToken(rows, f.token))) == Reverse(Filter(Matches(f), rows))
  {
    FilterReverse(Matches(f), OfToken(rows, f.token));
    FilterTwice(Matches(f), TokenIs(f.token), Matches(f), rows);
  }

  lemma NoRepeatsEmpty()
    ensures NoRepeats<Interaction>([])
  {
  }

  lemma GatherOne(cand: seq<Interaction>, iv: Interaction)
    requires NoRepeats(cand) && iv.id !in Ids(cand)
    ensures NoRepeats(cand + [iv]) && Ids(cand + [iv]) == Ids(cand) + {iv.id}
  {
    IdsAfterAppend(cand, iv);
  }

  lemma StatsGathered(rows: seq<Interaction>, tokens: seq<string>, cand: seq<Interaction>)
    requires Increasing(rows)
    requires NoRepeats(cand) && forall iv :: iv in cand <==> iv in rows && iv.token in tokens
    ensures var all, mine := SortBy(LaterId, cand), Filter(InScope(tokens), rows);
      && all == Reverse(mine)
      && |Filter(IsKind(DNS), all)| == |Filter(IsKind(DNS), mine)|
      && |Filter(IsKind(HTTP), all)| == |Filter(IsKind(HTTP), mine)|
  {
    var mine := Filter(InScope(tokens), rows);
    FilterKeepsOrder(InScope(tokens), rows);
    FilterMembers(InScope(tokens), rows);
    RecencyOrders(rows);
    SortBySorted(LaterId, cand, set iv | iv in rows);
    SortByMembers(LaterId, cand);
    LaterIdIsReversed(mine, SortBy(LaterId, cand));
    FilterReverse(IsKind(DNS), mine);
    FilterReverse(IsKind(HTTP), mine);
  }

  ghost function Walked(mine: seq<Interaction>, fromBack: bool): (r: seq<Interaction>)
    ensures |r| == |mine|
    ensures forall iv :: iv in r <==> iv in mine
  {
    ReverseMembers(mine);
    if fromBack then Reverse(mine) else mine
  }

  /** cand is `before` plus the rows of `part`, each once, and seen holds its ids. */
  ghost predicate Collected(before: seq<Interaction>, cand: seq<Interaction>, seen: set<int>, part: seq<Interaction>) {
    && NoRepeats(cand) && seen == Ids(cand)
    && forall iv :: iv in cand <==> iv in before || iv in part
  }

  lemma CollectNone(cand: seq<Interaction>, seen: set<int>)
    requires NoRepeats(cand) && seen == Ids(cand)
    ensures forall walk: seq<Interaction> :: Collected(cand, cand, seen, walk[..0])
    ensures Collected(cand, cand, seen, [])
  {
  }

  lemma CollectOne(rows: seq<Interaction>, before: seq<Interaction>, cand: seq<Interaction>, seen: set<int>,
                   walk: seq<Interaction>, n: nat)
    requires Increasing(rows) && n < |walk| && Collected(before, cand, seen, walk[..n])
    requires forall iv :: iv in before || iv in walk ==> iv in rows
    ensures if walk[n].id in seen then Collected(before, cand, seen, walk[..n + 1])
            else Collected(before, cand + [walk[n]], seen + {walk[n].id}, walk[..n + 1])
  {
    var iv := walk[n];
    assert walk[..n + 1] == walk[..n] + [iv];
    if iv.id in seen {
      SeenIsGathered(rows, cand, iv);
    } else {
      GatherOne(cand, iv);
    }
  }

  lemma CollectToken(rows: seq<Interaction>, before: seq<Interaction>, cand: seq<Interaction>, seen: set<int>,
                     t: string, walk: seq<Interaction>)
    requires Collected(before, cand, seen, walk)
    requires forall iv :: iv in walk <==> iv in rows && iv.token == t
    ensures NoRepeats(cand) && seen == Ids(cand)
    ensures forall iv :: iv in cand <==> iv in before || (iv in rows && iv.token == t)
  {
  }

  lemma SelectNone(walk: seq<Interaction>, f: InteractionFilter)
    ensures Filter(Matches(f), walk[..0]) == [] && Page([], f.offset, EffectiveLimit(f.limit)) == []
  {
  }

  lemma SeenIsGathered(rows: seq<Interaction>, cand: seq<Interaction>, iv: Interaction)
    requires Increasing(rows) && iv in rows && (forall other :: other in cand ==> other in rows)
    requires iv.id in Ids(cand)
    ensures iv in cand
  {
    SameIdSameRow(rows);
  }

  lemma CountNone(p: Interaction -> bool, s: seq<Interaction>)
    ensures Filter(p, s[..0]) == []
  {
  }

  lemma CountOne(p: Interaction -> bool, s: seq<Interaction>, n: nat)
    requires n < |s|
    ensures |Filter(p, s[..n + 1])| == |Filter(p, s[..n])| + if p(s[n]) then 1 else 0
  {
    assert s[..n + 1] == s[..n] + [s[n]];
    FilterAppend(p, s[..n], [s[n]]);
  }
}
