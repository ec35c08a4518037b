/** The dashboard's merging of interactions that describe the same callback. */
module Grouping {
  import opened Models
  import opened Sequences
  import opened Sorting
  import opened Tokens

  /** The first of two strings that is not empty. */
  function Or(a: string, b: string): string {
    if a != [] then a else b
  }

  /** What makes two interactions the same callback: type, token, query type or method, name or path. */
  datatype Callback = Callback(kind: string, token: string, op: string, target: string)

  function CallbackOf(iv: Interaction): Callback {
    Callback(iv.kind, iv.token, Or(iv.qtype, iv.httpMethod), Or(iv.qname, iv.path))
  }

  function JoinedKey(c: Callback): string {
    c.kind + "|" + (c.token + "|" + (c.op + "|" + c.target))
  }

  function KeyOf(iv: Interaction): string {
    JoinedKey(CallbackOf(iv))
  }

  function KeyIs(key: string): Interaction -> bool {
    (iv: Interaction) => KeyOf(iv) == key
  }

  function SourceIs(ip: string): Interaction -> bool {
    (iv: Interaction) => iv.srcIP == ip
  }

  ghost predicate Distinct(keys: seq<string>) {
    forall i, j :: 0 <= i < j < |keys| ==> keys[i] != keys[j]
  }

  /** A script's Map: iteration follows the order in which the keys were first set. */
  datatype Dict<V> = Dict(keys: seq<string>, entries: map<string, V>) {
    ghost predicate Valid() {
      Distinct(keys) && forall key :: key in keys <==> key in entries
    }

    function Put(key: string, v: V): (d: Dict<V>)
      ensures Valid() ==> d.Valid()
      ensures d.entries == entries[key := v]
    {
      Dict(if key in entries then keys else keys + [key], entries[key := v])
    }
  }

  datatype Source = Source(ip: string, count: nat, first: Interaction, last: Interaction)

  datatype Group = Group(first: Interaction, last: Interaction, count: nat, events: seq<Interaction>,
                         sources: Dict<Source>)

  /** One row of the dashboard. */
  datatype Row = Row(rep: Interaction, first: Interaction, last: Interaction, count: nat, sources: seq<Source>,
                     events: seq<Interaction>)

  /** The time of an interaction as the dashboard parses it: whole milliseconds. */
  function TimeOf(iv: Interaction): int {
    iv.createdAt / 1_000_000
  }

  predicate Earlier(a: Interaction, b: Interaction) {
    TimeOf(a) < TimeOf(b) || (TimeOf(a) == TimeOf(b) && a.id < b.id)
  }

  /** Sources that hit first come first; addresses that hit at the same time are in the locale's order. */
  function HitBefore(ipBefore: (string, string) -> bool): (Source, Source) -> bool {
    (a: Source, b: Source) =>
      if TimeOf(a.first) == TimeOf(b.first) then ipBefore(a.ip, b.ip) else TimeOf(a.first) < TimeOf(b.first)
  }

  // ---- What the row of given events is ----

  ghost predicate IsFirst(iv: Interaction, events: seq<Interaction>) {
    iv in events && forall other :: other in events ==> !Earlier(other, iv)
  }

  ghost predicate IsLast(iv: Interaction, events: seq<Interaction>) {
    iv in events && forall other :: other in events ==> !Earlier(iv, other)
  }

  /** A source counts its hits and keeps an earliest and a latest one. */
  ghost predicate IsSource(s: Source, events: seq<Interaction>) {
    var hits := Filter(SourceIs(s.ip), events);
    && s.count == |hits|
    && s.first in hits && (forall other :: other in hits ==> TimeOf(s.first) <= TimeOf(other))
    && s.last in hits && (forall other :: other in hits ==> TimeOf(s.last) >= TimeOf(other))
  }

  ghost predicate HasSource(sources: map<string, Source>, ip: string, events: seq<Interaction>) {
    && (ip in sources <==> Filter(SourceIs(ip), events) != [])
    && (ip in sources ==> sources[ip].ip == ip && IsSource(sources[ip], events))
  }

  /** The group of these events: all of them in order, their number, the least and the greatest by time and
      id, and every source address with its own hits. */
  ghost predicate IsGroup(g: Group, events: seq<Interaction>) {
    && g.events == events && g.count == |events|
    && IsFirst(g.first, events) && IsLast(g.last, events)
    && g.sources.Valid() && forall ip :: HasSource(g.sources.entries, ip, events)
  }

  /** Each address that hit is a source of its own, with all its hits, in the order of the dashboard. */
  ghost predicate AreSources(sources: seq<Source>, events: seq<Interaction>, ipBefore: (string, string) -> bool) {
    && Sorted(HitBefore(ipBefore), sources)
    && (forall i, j :: 0 <= i < j < |sources| ==> sources[i].ip != sources[j].ip)
    && (forall i :: 0 <= i < |sources| ==> IsSource(sources[i], events))
    && (forall iv :: iv in events ==> exists i :: 0 <= i < |sources| && sources[i].ip == iv.srcIP)
  }

  ghost predicate IsRow(r: Row, events: seq<Interaction>, ipBefore: (string, string) -> bool) {
    && r.events == events && r.count == |events|
    && IsFirst(r.first, events) && IsLast(r.last, events) && r.rep == r.last
    && AreSources(r.sources, events, ipBefore)
  }

  /** The position of the first item that satisfies p, or |items|. */
  function FirstIndex(p: Interaction -> bool, items: seq<Interaction>): (i: nat)
    ensures i <= |items|
  {
    if items == [] || p(items[0]) then 0 else 1 + FirstIndex(p, items[1..])
  }

  lemma {:induction false} FirstIndexIsFirst(p: Interaction -> bool, items: seq<Interaction>)
    ensures var i := FirstIndex(p, items);
      (i < |items| ==> p(items[i])) && forall j :: 0 <= j < i ==> !p(items[j])
  {
    if items != [] && !p(items[0]) {
      FirstIndexIsFirst(p, items[1..]);
    }
  }

  /** The keys that occur among the items, in the order in which they first occur. */
  ghost predicate AreKeys(keys: seq<string>, items: seq<Interaction>) {
    && (forall i :: 0 <= i < |keys| ==> FirstIndex(KeyIs(keys[i]), items) < |items|)
    && (forall i, j :: 0 <= i < j < |keys| ==> FirstIndex(KeyIs(keys[i]), items) < FirstIndex(KeyIs(keys[j]), items))
    && (forall iv :: iv in items ==> KeyOf(iv) in keys)
  }

  /** The keys of the rows; all events of a row have the key of its first one. */
  ghost function RowKeys(rows: seq<Row>): (keys: seq<string>)
    ensures |keys| == |rows|
  {
    seq(|rows|, i requires 0 <= i < |rows| => KeyOf(rows[i].first))
  }

  /** One row for each key, in the order of the keys, holding exactly the items with that key. */
  ghost predicate AreRows(rows: seq<Row>, items: seq<Interaction>, ipBefore: (string, string) -> bool) {
    && AreKeys(RowKeys(rows), items)
    && forall i :: 0 <= i < |rows| ==> IsRow(rows[i], Filter(KeyIs(RowKeys(rows)[i]), items), ipBefore)
  }

  // ---- The loop ----

  ghost predicate GroupAt(groups: map<string, Group>, key: string, items: seq<Interaction>) {
    && (key in groups <==> FirstIndex(KeyIs(key), items) < |items|)
    && (key in groups ==> IsGroup(groups[key], Filter(KeyIs(key), items)))
  }

  ghost predicate AreGroups(groups: Dict<Group>, items: seq<Interaction>) {
    groups.Valid() && AreKeys(groups.keys, items) && forall key :: GroupAt(groups.entries, key, items)
  }

  /** Merges the items into groups, then turns each group into a row with its sources in order. `ipBefore`
      is the locale's order of addresses. */
  method GroupInteractions(items: seq<Interaction>, ipBefore: (string, string) -> bool)
    returns (rows: seq<Row>)
    requires OrderedOn(ipBefore, set iv | iv in items :: iv.srcIP)
    ensures AreRows(rows, items, ipBefore)
  {
    hide AreGroups, AreRows, OrderedOn;
    var groups := Dict([], map[]);
    NoGroups(items);
    for i := 0 to |items|
      invariant AreGroups(groups, items[..i])
    {
      var iv, key := items[i], KeyOf(items[i]);
      assert items[..i + 1] == items[..i] + [iv];
      Regroup(groups, items[..i], iv);
      var g := if key in groups.entries then groups.entries[key] else Group(iv, iv, 0, [], Dict([], map[]));
      groups := groups.Put(key, Extended(g, iv));
    }
    assert items[..|items|] == items;
    rows := Rows(groups, items, ipBefore);
  }

  method Rows(groups: Dict<Group>, ghost items: seq<Interaction>, ipBefore: (string, string) -> bool)
    returns (rows: seq<Row>)
    requires AreGroups(groups, items) && OrderedOn(ipBefore, set iv | iv in items :: iv.srcIP)
    ensures AreRows(rows, items, ipBefore)
  {
    hide AreGroups, AreKeys, IsRow, IsGroup, OrderedOn, RowKeys, RowOf, Filter, KeyIs;
    rows := [];
    NoRows();
    GroupsHaveKeys(groups, items);
    for i := 0 to |groups.keys|
      invariant |rows| == i && RowKeys(rows) == groups.keys[..i]
      invariant forall j :: 0 <= j < i ==> IsRow(rows[j], Filter(KeyIs(groups.keys[j]), items), ipBefore)
    {
      KeyHasGroup(groups, items, i);
      GroupIsRow(groups.entries[groups.keys[i]], items, groups.keys[i], ipBefore);
      var row := RowOf(groups.entries[groups.keys[i]], ipBefore);
      RowKeysMore(rows, row, items, groups.keys[i], ipBefore);
      assert groups.keys[..i + 1] == groups.keys[..i] + [groups.keys[i]];
      rows := rows + [row];
    }
    assert groups.keys[..|groups.keys|] == groups.keys;
  }

  lemma NoRows()
    ensures RowKeys([]) == []
  {
  }

  lemma RowKeysMore(rows: seq<Row>, row: Row, items: seq<Interaction>, key: string, ipBefore: (string, string) -> bool)
    requires IsRow(row, Filter(KeyIs(key), items), ipBefore)
    ensures RowKeys(rows + [row]) == RowKeys(rows) + [key]
  {
    hide AreSources, IsLast;
    FilterMembers(KeyIs(key), items);
    assert KeyOf(row.first) == key;
  }

  /** One more hit of the address of iv. */
  function ExtendedSource(sources: map<string, Source>, iv: Interaction): Source {
    if iv.srcIP in sources then
      var s := sources[iv.srcIP];
      Source(s.ip, s.count + 1,
             if TimeOf(iv) < TimeOf(s.first) then iv else s.first,
             if TimeOf(iv) > TimeOf(s.last) then iv else s.last)
    else Source(iv.srcIP, 1, iv, iv)
  }

  /** One more event in a group. */
  function Extended(g: Group, iv: Interaction): Group {
    Group(if Earlier(iv, g.first) then iv else g.first, if Earlier(g.last, iv) then iv else g.last,
          g.count + 1, g.events + [iv], g.sources.Put(iv.srcIP, ExtendedSource(g.sources.entries, iv)))
  }

  function SourcesOf(d: Dict<Source>): (s: seq<Source>)
    requires forall key :: key in d.keys ==> key in d.entries
    ensures |s| == |d.keys| && forall i :: 0 <= i < |s| ==> s[i] == d.entries[d.keys[i]]
  {
    seq(|d.keys|, i requires 0 <= i < |d.keys| => d.entries[d.keys[i]])
  }

  function RowOf(g: Group, ipBefore: (string, string) -> bool): Row
    requires forall key :: key in g.sources.keys ==> key in g.sources.entries
  {
    Row(g.last, g.first, g.last, g.count, SortBy(HitBefore(ipBefore), SourcesOf(g.sources)), g.events)
  }

  lemma NoGroups(items: seq<Interaction>)
    ensures AreGroups(Dict([], map[]), items[..0])
  {
  }

  lemma GroupsHaveKeys(groups: Dict<Group>, items: seq<Interaction>)
    requires AreGroups(groups, items)
    ensures AreKeys(groups.keys, items)
  {
  }

  lemma KeyHasGroup(groups: Dict<Group>, items: seq<Interaction>, i: nat)
    requires AreGroups(groups, items) && i < |groups.keys|
    ensures groups.keys[i] in groups.entries
    ensures IsGroup(groups.entries[groups.keys[i]], Filter(KeyIs(groups.keys[i]), items))
  {
    hide IsGroup;
    assert GroupAt(groups.entries, groups.keys[i], items);
  }

  lemma FilterSnoc(p: Interaction -> bool, s: seq<Interaction>, iv: Interaction)
    ensures Filter(p, s + [iv]) == if p(iv) then Filter(p, s) + [iv] else Filter(p, s)
  {
    FilterAppend(p, s, [iv]);
  }

  lemma {:induction false} FirstIndexSnoc(p: Interaction -> bool, s: seq<Interaction>, iv: Interaction)
    ensures FirstIndex(p, s + [iv])
         == if FirstIndex(p, s) < |s| then FirstIndex(p, s) else if p(iv) then |s| else |s| + 1
  {
    if s != [] && !p(s[0]) {
      FirstIndexSnoc(p, s[1..], iv);
      assert (s + [iv])[1..] == s[1..] + [iv];
    }
  }

  /** Adding one item to the group of its key leaves every other group alone. */
  lemma Regroup(groups: Dict<Group>, items: seq<Interaction>, iv: Interaction)
    requires AreGroups(groups, items)
    ensures var key := KeyOf(iv);
      var g := if key in groups.entries then groups.entries[key] else Group(iv, iv, 0, [], Dict([], map[]));
      AreGroups(groups.Put(key, Extended(g, iv)), items + [iv])
  {
    hide IsGroup, Extended, KeyOf, AreKeys, GroupAt;
    var key := KeyOf(iv);
    var g := if key in groups.entries then groups.entries[key] else Group(iv, iv, 0, [], Dict([], map[]));
    var after := groups.Put(key, Extended(g, iv));
    assert GroupAt(groups.entries, key, items);
    KeysMore(groups, items, iv);
    forall k ensures GroupAt(after.entries, k, items + [iv]) {
      assert GroupAt(groups.entries, k, items);
      GroupAtMore(groups.entries, items, iv, g, k);
    }
  }

  lemma KeysMore(groups: Dict<Group>, items: seq<Interaction>, iv: Interaction)
    requires AreKeys(groups.keys, items) && groups.Valid() && GroupAt(groups.entries, KeyOf(iv), items)
    ensures AreKeys(if KeyOf(iv) in groups.entries then groups.keys else groups.keys + [KeyOf(iv)], items + [iv])
  {
    hide IsGroup, KeyOf, FirstIndex, KeyIs;
    var keys, key := groups.keys, KeyOf(iv);
    forall i | 0 <= i < |keys|
      ensures FirstIndex(KeyIs(keys[i]), items + [iv]) == FirstIndex(KeyIs(keys[i]), items)
    {
      FirstIndexSnoc(KeyIs(keys[i]), items, iv);
    }
    FirstIndexSnoc(KeyIs(key), items, iv);
    OwnKey(iv);
  }

  lemma OwnKey(iv: Interaction)
    ensures KeyIs(KeyOf(iv))(iv)
  {
  }

  lemma GroupAtMore(groups: map<string, Group>, items: seq<Interaction>, iv: Interaction, g: Group, k: string)
    requires GroupAt(groups, k, items)
    requires g == if KeyOf(iv) in groups then groups[KeyOf(iv)] else Group(iv, iv, 0, [], Dict([], map[]))
    ensures GroupAt(groups[KeyOf(iv) := Extended(g, iv)], k, items + [iv])
  {
    hide IsGroup, Extended, KeyOf;
    FirstIndexSnoc(KeyIs(k), items, iv);
    FilterSnoc(KeyIs(k), items, iv);
    if k == KeyOf(iv) {
      if k in groups {
        ExtendGroup(g, Filter(KeyIs(k), items), iv);
      } else {
        FirstIndexIsFirst(KeyIs(k), items);
        FilterNone(KeyIs(k), items);
        NewGroup(iv);
      }
    }
  }

  lemma NewGroup(iv: Interaction)
    ensures IsGroup(Extended(Group(iv, iv, 0, [], Dict([], map[])), iv), [] + [iv])
  {
    hide TimeOf;
    forall ip ensures Filter(SourceIs(ip), [iv]) == if ip == iv.srcIP then [iv] else [] {
    }
    assert [] + [iv] == [iv];
  }

  lemma ExtendGroup(g: Group, events: seq<Interaction>, iv: Interaction)
    requires IsGroup(g, events)
    ensures IsGroup(Extended(g, iv), events + [iv])
  {
    hide IsFirst, IsLast, HasSource, ExtendedSource, Earlier;
    var n := Extended(g, iv);
    ExtendEnds(g.first, g.last, events, iv);
    forall ip ensures HasSource(n.sources.entries, ip, events + [iv]) {
      assert HasSource(g.sources.entries, ip, events);
      ExtendSource(g.sources.entries, events, iv, ip);
    }
  }

  lemma ExtendEnds(first: Interaction, last: Interaction, events: seq<Interaction>, iv: Interaction)
    requires IsFirst(first, events) && IsLast(last, events)
    ensures IsFirst(if Earlier(iv, first) then iv else first, events + [iv])
    ensures IsLast(if Earlier(last, iv) then iv else last, events + [iv])
  {
    hide TimeOf;
  }

  lemma ExtendSource(sources: map<string, Source>, events: seq<Interaction>, iv: Interaction, ip: string)
    requires HasSource(sources, ip, events)
    ensures HasSource(sources[iv.srcIP := ExtendedSource(sources, iv)], ip, events + [iv])
  {
    hide TimeOf, Filter, IsSource, ExtendedSource;
    FilterSnoc(SourceIs(ip), events, iv);
    if ip == iv.srcIP {
      SourceGrows(sources, events, iv);
    } else if ip in sources {
      SourceStays(sources[ip], events, iv);
    }
  }

  /** A source with one more hit, or with its first. */
  lemma SourceGrows(sources: map<string, Source>, events: seq<Interaction>, iv: Interaction)
    requires HasSource(sources, iv.srcIP, events)
    ensures ExtendedSource(sources, iv).ip == iv.srcIP && IsSource(ExtendedSource(sources, iv), events + [iv])
  {
    hide TimeOf, Filter;
    FilterSnoc(SourceIs(iv.srcIP), events, iv);
  }

  lemma SourceStays(s: Source, events: seq<Interaction>, iv: Interaction)
    requires IsSource(s, events) && s.ip != iv.srcIP
    ensures IsSource(s, events + [iv])
  {
    hide TimeOf, Filter;
    FilterSnoc(SourceIs(s.ip), events, iv);
  }

  // ---- The rows ----

  lemma GroupIsRow(g: Group, items: seq<Interaction>, key: string, ipBefore: (string, string) -> bool)
    requires IsGroup(g, Filter(KeyIs(key), items))
    requires OrderedOn(ipBefore, set iv | iv in items :: iv.srcIP)
    ensures forall ip :: ip in g.sources.keys ==> ip in g.sources.entries
    ensures IsRow(RowOf(g, ipBefore), Filter(KeyIs(key), items), ipBefore)
  {
    hide IsFirst, IsLast, AreSources, HasSource, OrderedOn;
    var events := Filter(KeyIs(key), items);
    FilterMembers(KeyIs(key), items);
    OrderedOnFewer(ipBefore, set iv | iv in items :: iv.srcIP, set iv | iv in events :: iv.srcIP);
    SourcesSorted(g.sources, events, ipBefore);
  }

  lemma OrderedOnFewer<T(!new)>(before: (T, T) -> bool, all: set<T>, some: set<T>)
    requires OrderedOn(before, all) && some <= all
    ensures OrderedOn(before, some)
  {
  }

  lemma SourcesSorted(d: Dict<Source>, events: seq<Interaction>, ipBefore: (string, string) -> bool)
    requires d.Valid() && forall ip :: HasSource(d.entries, ip, events)
    requires OrderedOn(ipBefore, set iv | iv in events :: iv.srcIP)
    ensures AreSources(SortBy(HitBefore(ipBefore), SourcesOf(d)), events, ipBefore)
  {
    hide OrderedOn, Sorted, IsSource, SourcesOf, HitBefore, HasSource, Distinct, SortBy;
    var all := SourcesOf(d);
    SourceFacts(d, events);
    HitOrder(ipBefore, all, set iv | iv in events :: iv.srcIP);
    SortBySorted(HitBefore(ipBefore), all, set s | s in all);
    SortByMembers(HitBefore(ipBefore), all);
    SortedApart(HitBefore(ipBefore), SortBy(HitBefore(ipBefore), all), set s | s in all);
    SameSources(all, SortBy(HitBefore(ipBefore), all), events, ipBefore);
  }

  lemma SameSources(all: seq<Source>, sorted: seq<Source>, events: seq<Interaction>, ipBefore: (string, string) -> bool)
    requires forall s :: s in sorted <==> s in all
    requires Sorted(HitBefore(ipBefore), sorted)
    requires forall i, j :: 0 <= i < j < |sorted| ==> sorted[i].ip != sorted[j].ip
    requires forall s :: s in all ==> IsSource(s, events)
    requires forall iv :: iv in events ==> exists s :: s in all && s.ip == iv.srcIP
    ensures AreSources(sorted, events, ipBefore)
  {
    hide Sorted, IsSource;
    forall i | 0 <= i < |sorted| ensures IsSource(sorted[i], events) {
      assert sorted[i] in sorted;
    }
    forall iv | iv in events ensures exists i :: 0 <= i < |sorted| && sorted[i].ip == iv.srcIP {
      var s :| s in all && s.ip == iv.srcIP;
      assert s in sorted;
    }
  }

  lemma SourceFacts(d: Dict<Source>, events: seq<Interaction>)
    requires d.Valid() && forall ip :: HasSource(d.entries, ip, events)
    ensures NoRepeats(SourcesOf(d))
    ensures forall a, b :: a in SourcesOf(d) && b in SourcesOf(d) && a.ip == b.ip ==> a == b
    ensures forall s :: s in SourcesOf(d) ==> IsSource(s, events) && s.ip in set iv | iv in events :: iv.srcIP
    ensures forall iv :: iv in events ==> exists s :: s in SourcesOf(d) && s.ip == iv.srcIP
  {
    hide IsSource, HasSource;
    var all := SourcesOf(d);
    forall i | 0 <= i < |all|
      ensures all[i].ip == d.keys[i] && IsSource(all[i], events) && all[i].ip in set iv | iv in events :: iv.srcIP
    {
      SourceOfKey(d.entries, d.keys[i], events);
    }
    forall iv | iv in events ensures exists s :: s in all && s.ip == iv.srcIP {
      KeyOfSource(d.entries, iv, events);
      var i :| 0 <= i < |d.keys| && d.keys[i] == iv.srcIP;
      assert all[i] in all;
    }
  }

  lemma SourceOfKey(sources: map<string, Source>, ip: string, events: seq<Interaction>)
    requires HasSource(sources, ip, events) && ip in sources
    ensures sources[ip].ip == ip && IsSource(sources[ip], events) && ip in set iv | iv in events :: iv.srcIP
  {
    FilterMembers(SourceIs(ip), events);
    assert Filter(SourceIs(ip), events)[0] in Filter(SourceIs(ip), events);
  }

  lemma KeyOfSource(sources: map<string, Source>, iv: Interaction, events: seq<Interaction>)
    requires HasSource(sources, iv.srcIP, events) && iv in events
    ensures iv.srcIP in sources
  {
    FilterMembers(SourceIs(iv.srcIP), events);
    assert iv in Filter(SourceIs(iv.srcIP), events);
  }

  lemma HitOrder(ipBefore: (string, string) -> bool, all: seq<Source>, ips: set<string>)
    requires OrderedOn(ipBefore, ips)
    requires forall s :: s in all ==> s.ip in ips
    requires forall a, b :: a in all && b in all && a.ip == b.ip ==> a == b
    ensures OrderedOn(HitBefore(ipBefore), set s | s in all)
  {
    hide TimeOf;
    var before := HitBefore(ipBefore);
    forall x, y | before(x, y) ensures !before(y, x) {
      assert ipBefore(x.ip, y.ip) ==> !ipBefore(y.ip, x.ip);
    }
    forall x, y, z | before(x, y) && before(y, z) ensures before(x, z) {
      assert TimeOf(x.first) <= TimeOf(y.first) <= TimeOf(z.first);
    }
    forall x, y | x in all && y in all && x != y ensures before(x, y) || before(y, x) {
      assert x.ip != y.ip && x.ip in ips && y.ip in ips;
    }
  }

  lemma SortedApart(before: (Source, Source) -> bool, s: seq<Source>, all: set<Source>)
    requires Sorted(before, s) && OrderedOn(before, all)
    requires forall x :: x in s ==> x in all
    requires forall a, b :: a in all && b in all && a.ip == b.ip ==> a == b
    ensures forall i, j :: 0 <= i < j < |s| ==> s[i].ip != s[j].ip
  {
    forall i, j | 0 <= i < j < |s| ensures s[i].ip != s[j].ip {
      assert s[i] in s && s[j] in s && before(s[i], s[j]);
    }
  }

  // ---- Nothing is lost ----

  /** Sum of the counts of the rows. */
  function CountOf(rows: seq<Row>): nat {
    if rows == [] then 0 else rows[0].count + CountOf(rows[1..])
  }

  function KeyAmong(keys: seq<string>): Interaction -> bool {
    (iv: Interaction) => KeyOf(iv) in keys
  }

  lemma {:induction false} PartCounts(p: Interaction -> bool, q: Interaction -> bool, both: Interaction -> bool,
                                      items: seq<Interaction>)
    requires forall iv :: both(iv) <==> p(iv) || q(iv)
    requires forall iv :: !(p(iv) && q(iv))
    ensures |Filter(both, items)| == |Filter(p, items)| + |Filter(q, items)|
  {
    if items != [] {
      PartCounts(p, q, both, items[1..]);
    }
  }

  lemma KeyParts(keys: seq<string>, items: seq<Interaction>)
    requires keys != [] && keys[0] !in keys[1..]
    ensures |Filter(KeyAmong(keys), items)| == |Filter(KeyIs(keys[0]), items)| + |Filter(KeyAmong(keys[1..]), items)|
  {
    hide KeyOf;
    assert keys == [keys[0]] + keys[1..];
    PartCounts(KeyIs(keys[0]), KeyAmong(keys[1..]), KeyAmong(keys), items);
  }

  lemma {:induction false} CountsOfKeys(rows: seq<Row>, items: seq<Interaction>, keys: seq<string>)
    requires |rows| == |keys| && Distinct(keys)
    requires forall i :: 0 <= i < |rows| ==> rows[i].count == |Filter(KeyIs(keys[i]), items)|
    ensures CountOf(rows) == |Filter(KeyAmong(keys), items)|
  {
    hide KeyIs, KeyAmong, Filter;
    if keys == [] {
      NoKeys(items);
    } else {
      CountsOfKeys(rows[1..], items, keys[1..]);
      KeyParts(keys, items);
    }
  }

  lemma NoKeys(items: seq<Interaction>)
    ensures |Filter(KeyAmong([]), items)| == 0
  {
    FilterNone(KeyAmong([]), items);
  }

  /** The rows partition the items: their counts add up to the number of items, and every item is an event
      of exactly one row, that of its key. */
  lemma RowsPartition(rows: seq<Row>, items: seq<Interaction>, ipBefore: (string, string) -> bool)
    requires AreRows(rows, items, ipBefore)
    ensures CountOf(rows) == |items|
    ensures forall iv, i :: iv in items && 0 <= i < |rows| ==> (iv in rows[i].events <==> RowKeys(rows)[i] == KeyOf(iv))
    ensures forall iv :: iv in items ==> exists i :: 0 <= i < |rows| && iv in rows[i].events
  {
    hide IsRow, KeyOf;
    hide Filter, AreKeys, FirstIndex, RowKeys;
    var keys := RowKeys(rows);
    KeysApart(keys, items);
    forall i | 0 <= i < |rows|
      ensures rows[i].count == |Filter(KeyIs(keys[i]), items)|
      ensures forall iv :: iv in rows[i].events <==> iv in items && keys[i] == KeyOf(iv)
    {
      RowHolds(rows[i], Filter(KeyIs(keys[i]), items), ipBefore);
      FilterMembers(KeyIs(keys[i]), items);
    }
    CountsOfKeys(rows, items, keys);
    FilterAll(KeyAmong(keys), items);
    forall iv | iv in items ensures exists i :: 0 <= i < |rows| && iv in rows[i].events {
      var i :| 0 <= i < |keys| && keys[i] == KeyOf(iv);
      assert iv in rows[i].events;
    }
  }

  lemma KeysApart(keys: seq<string>, items: seq<Interaction>)
    requires AreKeys(keys, items)
    ensures Distinct(keys) && forall iv :: iv in items ==> KeyOf(iv) in keys
  {
    hide FirstIndex, KeyOf, KeyIs;
  }

  lemma RowHolds(r: Row, events: seq<Interaction>, ipBefore: (string, string) -> bool)
    requires IsRow(r, events, ipBefore)
    ensures r.events == events && r.count == |events| && AreSources(r.sources, events, ipBefore)
  {
  }

  /** Sum of the hits of the sources. */
  function HitsOf(sources: seq<Source>): nat {
    if sources == [] then 0 else sources[0].count + HitsOf(sources[1..])
  }

  function SourceAmong(ips: seq<string>): Interaction -> bool {
    (iv: Interaction) => iv.srcIP in ips
  }

  lemma SourceParts(ips: seq<string>, events: seq<Interaction>)
    requires ips != [] && ips[0] !in ips[1..]
    ensures |Filter(SourceAmong(ips), events)|
        == |Filter(SourceIs(ips[0]), events)| + |Filter(SourceAmong(ips[1..]), events)|
  {
    assert ips == [ips[0]] + ips[1..];
    PartCounts(SourceIs(ips[0]), SourceAmong(ips[1..]), SourceAmong(ips), events);
  }

  lemma {:induction false} HitsOfSources(sources: seq<Source>, events: seq<Interaction>, ips: seq<string>)
    requires |ips| == |sources| && Distinct(ips)
    requires forall i :: 0 <= i < |sources| ==> sources[i].count == |Filter(SourceIs(ips[i]), events)|
    ensures HitsOf(sources) == |Filter(SourceAmong(ips), events)|
  {
    hide SourceIs, SourceAmong, Filter;
    if ips == [] {
      NoSources(events);
    } else {
      HitsOfSources(sources[1..], events, ips[1..]);
      SourceParts(ips, events);
    }
  }

  lemma NoSources(events: seq<Interaction>)
    ensures |Filter(SourceAmong([]), events)| == 0
  {
    FilterNone(SourceAmong([]), events);
  }

  /** No source is overwritten by another: the hits of the sources of a row add up to its count. */
  lemma SourcesPartition(r: Row, events: seq<Interaction>, ipBefore: (string, string) -> bool)
    requires IsRow(r, events, ipBefore)
    ensures HitsOf(r.sources) == r.count
  {
    hide IsFirst, IsLast, Sorted;
    var ips := seq(|r.sources|, i requires 0 <= i < |r.sources| => r.sources[i].ip);
    HitsOfSources(r.sources, events, ips);
    forall iv | iv in events ensures iv.srcIP in ips {
      var i :| 0 <= i < |r.sources| && r.sources[i].ip == iv.srcIP;
      assert ips[i] == iv.srcIP;
    }
    FilterAll(SourceAmong(ips), events);
  }

  /** A row in the fields of its events: its ends, what it shows, and the order of its sources. Times are
      compared in whole milliseconds. */
  lemma RowInFields(r: Row, events: seq<Interaction>, ipBefore: (string, string) -> bool)
    requires IsRow(r, events, ipBefore)
    ensures r.events == events && r.count == |events| && r.rep == r.last
    ensures r.first in events && forall iv :: iv in events ==>
      || r.first.createdAt / 1_000_000 < iv.createdAt / 1_000_000
      || (r.first.createdAt / 1_000_000 == iv.createdAt / 1_000_000 && r.first.id <= iv.id)
    ensures r.last in events && forall iv :: iv in events ==>
      || r.last.createdAt / 1_000_000 > iv.createdAt / 1_000_000
      || (r.last.createdAt / 1_000_000 == iv.createdAt / 1_000_000 && r.last.id >= iv.id)
  {
    hide AreSources;
  }

  /** A source in the fields of its events: the number of its hits, and the time of its first and its last. */
  lemma SourceInFields(s: Source, events: seq<Interaction>)
    requires IsSource(s, events)
    ensures s.count == |Filter((iv: Interaction) => iv.srcIP == s.ip, events)|
    ensures s.first in events && s.first.srcIP == s.ip && s.last in events && s.last.srcIP == s.ip
    ensures forall iv :: iv in events && iv.srcIP == s.ip ==>
      s.first.createdAt / 1_000_000 <= iv.createdAt / 1_000_000 <= s.last.createdAt / 1_000_000
  {
    FilterAgree(SourceIs(s.ip), (iv: Interaction) => iv.srcIP == s.ip, events);
    FilterMembers(SourceIs(s.ip), events);
    hide Filter;
  }

  /** Every address is one source, and those that hit first stand in front. */
  lemma SourcesInOrder(r: Row, events: seq<Interaction>, ipBefore: (string, string) -> bool)
    requires IsRow(r, events, ipBefore)
    ensures forall iv :: iv in events ==> exists i :: 0 <= i < |r.sources| && r.sources[i].ip == iv.srcIP
    ensures forall i, j :: 0 <= i < j < |r.sources| ==> r.sources[i].ip != r.sources[j].ip
    ensures forall i, j :: 0 <= i < j < |r.sources| ==>
      var first, second := r.sources[i].first.createdAt / 1_000_000, r.sources[j].first.createdAt / 1_000_000;
      first < second || (first == second && ipBefore(r.sources[i].ip, r.sources[j].ip))
    ensures forall i :: 0 <= i < |r.sources| ==> IsSource(r.sources[i], events)
  {
    hide IsFirst, IsLast, IsSource;
    forall i, j | 0 <= i < j < |r.sources|
      ensures var first, second := r.sources[i].first.createdAt / 1_000_000, r.sources[j].first.createdAt / 1_000_000;
        first < second || (first == second && ipBefore(r.sources[i].ip, r.sources[j].ip))
    {
      assert HitBefore(ipBefore)(r.sources[i], r.sources[j]);
      HitBeforeInFields(ipBefore, r.sources[i], r.sources[j]);
    }
  }

  lemma HitBeforeInFields(ipBefore: (string, string) -> bool, a: Source, b: Source)
    requires HitBefore(ipBefore)(a, b)
    ensures || a.first.createdAt / 1_000_000 < b.first.createdAt / 1_000_000
            || (a.first.createdAt / 1_000_000 == b.first.createdAt / 1_000_000 && ipBefore(a.ip, b.ip))
  {
    var first, second := TimeOf(a.first), TimeOf(b.first);
    assert if first == second then ipBefore(a.ip, b.ip) else first < second;
  }

  // ---- Does a key tell the callback? ----

  lemma BarSplits(x: string, r: string, y: string, s: string)
    requires '|' !in x && '|' !in y
    ensures x + "|" + r == y + "|" + s <==> x == y && r == s
  {
    var a, b := x + "|" + r, y + "|" + s;
    if a == b {
      assert a[|x|] == '|' && b[|y|] == '|';
      assert forall i :: 0 <= i < |x| ==> a[i] == x[i] && x[i] in x;
      assert forall i :: 0 <= i < |y| ==> b[i] == y[i] && y[i] in y;
      assert x == a[..|x|] && y == b[..|y|];
      assert r == a[|x| + 1..] && s == b[|y| + 1..];
    }
  }

  /** Only the last part may hold a bar. */
  predicate Unbarred(c: Callback) {
    '|' !in c.kind && '|' !in c.token && '|' !in c.op
  }

  /** Where type, token and query type or method hold no bar, one key is one callback. */
  lemma KeysTellCallbacks(a: Interaction, b: Interaction)
    requires Unbarred(CallbackOf(a)) && Unbarred(CallbackOf(b))
    ensures KeyOf(a) == KeyOf(b) <==> CallbackOf(a) == CallbackOf(b)
  {
    var c, d := CallbackOf(a), CallbackOf(b);
    BarSplits(c.op, c.target, d.op, d.target);
    BarSplits(c.token, c.op + "|" + c.target, d.token, d.op + "|" + d.target);
    BarSplits(c.kind, c.token + "|" + (c.op + "|" + c.target), d.kind, d.token + "|" + (d.op + "|" + d.target));
  }

  /** A callback as a collector records it for a token without bars: a query type is a name without bars; a
      method holds no slash, while a path starts with one or at least holds no bar. */
  predicate Recorded(c: Callback) {
    && '|' !in c.token
    && (c.kind == DNS || c.kind == HTTP)
    && (c.kind == DNS ==> '|' !in c.op)
    && (c.kind == HTTP ==> '/' !in c.op && IsTarget(c.target))
  }

  /** What stands behind a method: it starts with a slash or holds no bar. */
  predicate IsTarget(t: string) {
    (t != [] && t[0] == '/') || '|' !in t
  }

  /** The part of y behind x, where two ways to cut one text at a bar differ. */
  lemma Between(x: string, r: string, y: string, s: string) returns (m: string)
    requires x + "|" + r == y + "|" + s && |x| < |y|
    ensures y == x + "|" + m && r == m + "|" + s
  {
    m := y[|x| + 1..];
    assert y == (x + "|" + r)[..|y|];
    assert r == (y + "|" + s)[|x| + 1..];
  }

  lemma BarBehindMethod(x: string, m: string, s: string)
    requires '/' !in x + "|" + m
    ensures !IsTarget(m + "|" + s)
  {
    assert (m + "|" + s)[|m|] == '|';
    assert m != [] ==> (x + "|" + m)[|x| + 1] == m[0];
  }

  lemma SlashSplits(x: string, r: string, y: string, s: string)
    requires '/' !in x && IsTarget(r) && '/' !in y && IsTarget(s)
    ensures x + "|" + r == y + "|" + s <==> x == y && r == s
  {
    if x + "|" + r == y + "|" + s {
      if |x| < |y| {
        var m := Between(x, r, y, s);
        BarBehindMethod(x, m, s);
      } else if |y| < |x| {
        var m := Between(y, s, x, r);
        BarBehindMethod(y, m, r);
      } else {
        assert x == (x + "|" + r)[..|x|] && y == (y + "|" + s)[..|y|];
        assert r == (x + "|" + r)[|x| + 1..] && s == (y + "|" + s)[|y| + 1..];
      }
    }
  }

  /** A generated token is such a token. */
  lemma TokensHoldNoBar(token: string)
    requires IsToken(token)
    ensures '|' !in token
  {
    assert !IsSymbol('|');
  }

  /** No two callbacks that the collectors record for such tokens are merged into one row. */
  lemma RecordedKeysTell(a: Interaction, b: Interaction)
    requires Recorded(CallbackOf(a)) && Recorded(CallbackOf(b))
    ensures KeyOf(a) == KeyOf(b) <==> CallbackOf(a) == CallbackOf(b)
  {
    var c, d := CallbackOf(a), CallbackOf(b);
    if c.kind == d.kind == HTTP {
      SlashSplits(c.op, c.target, d.op, d.target);
    } else if c.kind == d.kind {
      BarSplits(c.op, c.target, d.op, d.target);
    }
    BarSplits(c.token, c.op + "|" + c.target, d.token, d.op + "|" + d.target);
    BarSplits(c.kind, c.token + "|" + (c.op + "|" + c.target), d.kind, d.token + "|" + (d.op + "|" + d.target));
  }

  /** Two items are events of the same row. */
  ghost predicate SameRow(rows: seq<Row>, a: Interaction, b: Interaction) {
    exists i :: 0 <= i < |rows| && a in rows[i].events && b in rows[i].events
  }

  lemma SameRowByKey(rows: seq<Row>, items: seq<Interaction>, ipBefore: (string, string) -> bool,
                     a: Interaction, b: Interaction)
    requires AreRows(rows, items, ipBefore) && a in items && b in items
    ensures SameRow(rows, a, b) <==> KeyOf(a) == KeyOf(b)
  {
    hide AreRows, KeyOf, RowKeys;
    RowsPartition(rows, items, ipBefore);
    var i :| 0 <= i < |rows| && a in rows[i].events;
    assert b in rows[i].events <==> RowKeys(rows)[i] == KeyOf(b);
  }

  /** Two requests as the HTTP collector records them, without query name and type: they are merged exactly
      when token, method and path are the same. */
  lemma RequestsMergedExactly(rows: seq<Row>, items: seq<Interaction>, ipBefore: (string, string) -> bool,
                              a: Interaction, b: Interaction)
    requires AreRows(rows, items, ipBefore) && a in items && b in items
    requires a.kind == b.kind == "http" && a.qname == b.qname == a.qtype == b.qtype == ""
    requires '|' !in a.token && '|' !in b.token && '/' !in a.httpMethod && '/' !in b.httpMethod
    requires IsTarget(a.path) && IsTarget(b.path)
    ensures SameRow(rows, a, b) <==> a.token == b.token && a.httpMethod == b.httpMethod && a.path == b.path
  {
    SameRowByKey(rows, items, ipBefore, a, b);
    RecordedKeysTell(a, b);
  }

  /** Two queries as the DNS collector records them: they are merged exactly when token, query type and query
      name are the same. */
  lemma QueriesMergedExactly(rows: seq<Row>, items: seq<Interaction>, ipBefore: (string, string) -> bool,
                             a: Interaction, b: Interaction)
    requires AreRows(rows, items, ipBefore) && a in items && b in items
    requires a.kind == b.kind == "dns" && a.qname != "" && b.qname != "" && a.qtype != "" && b.qtype != ""
    requires '|' !in a.token && '|' !in b.token && '|' !in a.qtype && '|' !in b.qtype
    ensures SameRow(rows, a, b) <==> a.token == b.token && a.qtype == b.qtype && a.qname == b.qname
  {
    SameRowByKey(rows, items, ipBefore, a, b);
    RecordedKeysTell(a, b);
  }

  lemma KeyStartsWithKind(iv: Interaction)
    requires iv.kind != []
    ensures KeyOf(iv) != [] && KeyOf(iv)[0] == iv.kind[0]
  {
  }

  /** A query and a request are never merged. */
  lemma TypesNeverMerged(rows: seq<Row>, items: seq<Interaction>, ipBefore: (string, string) -> bool,
                         a: Interaction, b: Interaction)
    requires AreRows(rows, items, ipBefore) && a in items && b in items
    requires a.kind == "dns" && b.kind == "http"
    ensures !SameRow(rows, a, b)
  {
    hide KeyOf, AreRows, SameRow;
    SameRowByKey(rows, items, ipBefore, a, b);
    KeyStartsWithKind(a);
    KeyStartsWithKind(b);
  }

  /** A method with a slash would be enough: two requests of one token with different methods and paths. */
  lemma SlashInMethodCollides(iv: Interaction)
    ensures var a := WithCallback(iv, Callback(HTTP, iv.token, "GET", "/a|/b"));
      var b := WithCallback(iv, Callback(HTTP, iv.token, "GET|/a", "/b"));
      KeyOf(a) == KeyOf(b) && CallbackOf(a) != CallbackOf(b)
  {
    assert "GET" + "|" + "/a|/b" == "GET|/a" + "|" + "/b";
  }

  function Bars(s: string): nat {
    if s == [] then 0 else (if s[0] == '|' then 1 else 0) + Bars(s[1..])
  }

  lemma {:induction false} BarsAppend(a: string, b: string)
    ensures Bars(a + b) == Bars(a) + Bars(b)
  {
    if a == [] {
      assert a + b == b;
    } else {
      BarsAppend(a[1..], b);
      assert (a + b)[1..] == a[1..] + b;
    }
  }

  lemma {:induction false} BarsNone(s: string)
    ensures Bars(s) == 0 <==> '|' !in s
  {
    if s != [] {
      BarsNone(s[1..]);
      assert s == [s[0]] + s[1..];
    }
  }

  lemma BarsOfKey(c: Callback)
    ensures Bars(JoinedKey(c)) == Bars(c.kind) + Bars(c.token) + Bars(c.op) + Bars(c.target) + 3
  {
    hide Bars;
    BarsAppend(c.kind, "|");
    BarsAppend(c.kind + "|", c.token + "|" + (c.op + "|" + c.target));
    BarsAppend(c.token, "|");
    BarsAppend(c.token + "|", c.op + "|" + c.target);
    BarsAppend(c.op, "|");
    BarsAppend(c.op + "|", c.target);
    OneBar();
  }

  lemma OneBar()
    ensures Bars("|") == 1
  {
    assert "|"[1..] == "";
  }

  function WithCallback(iv: Interaction, c: Callback): (r: Interaction)
    ensures CallbackOf(r) == c
  {
    iv.(kind := c.kind, token := c.token, qtype := c.op, httpMethod := c.op, qname := c.target, path := c.target)
  }

  /** The key of an interaction is shared with no other callback exactly when none of its parts holds a
      bar. Two different callbacks with one key are merged into one row. */
  lemma KeyIsUnambiguous(a: Interaction)
    ensures (forall b :: KeyOf(b) == KeyOf(a) ==> CallbackOf(b) == CallbackOf(a)) <==> Bars(KeyOf(a)) == 3
    ensures Bars(KeyOf(a)) == 3 <==> Unbarred(CallbackOf(a)) && '|' !in CallbackOf(a).target
  {
    var c := CallbackOf(a);
    hide Bars;
    BarsOfKey(c);
    PartsUnbarred(c);
    if Bars(KeyOf(a)) == 3 {
      forall b | KeyOf(b) == KeyOf(a) ensures CallbackOf(b) == c {
        BarsOfKey(CallbackOf(b));
        PartsUnbarred(CallbackOf(b));
        KeysTellCallbacks(a, b);
      }
    } else {
      var d := Regrouped(c);
      assert KeyOf(WithCallback(a, d)) == KeyOf(a);
      assert CallbackOf(WithCallback(a, d)) == d != c;
    }
  }

  lemma PartsUnbarred(c: Callback)
    ensures Bars(c.kind) + Bars(c.token) + Bars(c.op) + Bars(c.target) == 0
       <==> Unbarred(c) && '|' !in c.target
  {
    BarsNone(c.kind);
    BarsNone(c.token);
    BarsNone(c.op);
    BarsNone(c.target);
  }

  lemma CutAtBar(s: string) returns (x: string, y: string)
    requires '|' in s
    ensures s == x + "|" + y && |y| < |s|
  {
    var i :| 0 <= i < |s| && s[i] == '|';
    x, y := s[..i], s[i + 1..];
  }

  /** Another callback with the same key: a bar inside one part read as the bar between two. */
  lemma Regrouped(c: Callback) returns (d: Callback)
    requires !(Unbarred(c) && '|' !in c.target)
    ensures d != c && JoinedKey(d) == JoinedKey(c)
  {
    if '|' in c.kind {
      var x, y := CutAtBar(c.kind);
      d := c.(kind := x, token := y + "|" + c.token);
      assert x + "|" + (y + "|" + c.token + "|" + (c.op + "|" + c.target))
          == x + "|" + y + "|" + (c.token + "|" + (c.op + "|" + c.target));
      assert JoinedKey(d) == JoinedKey(c);
    } else if '|' in c.token {
      var x, y := CutAtBar(c.token);
      d := c.(kind := c.kind + "|" + x, token := y);
    } else if '|' in c.op {
      var x, y := CutAtBar(c.op);
      d := c.(token := c.token + "|" + x, op := y);
    } else {
      var x, y := CutAtBar(c.target);
      d := c.(op := c.op + "|" + x, target := y);
    }
  }
}
