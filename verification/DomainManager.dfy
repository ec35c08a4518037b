/** The zone manager: a trie over reversed labels that finds the zone a host belongs to. */
module DomainManager {
  import opened Models
  import opened Names

  datatype Domain = Domain(id: int, name: string)

  /** The zone a host falls into, and the labels in front of the zone. */
  datatype Match = Match(domain: Domain, prefix: seq<string>)

  function LabelsOf(d: Domain): seq<string> {
    SplitLabels(Normalize(d.name))
  }

  /** The most recently added domain with exactly these labels. */
  function LatestFor(added: seq<Domain>, labels: seq<string>): (r: Option<Domain>)
    ensures r.Some? ==> r.value in added && LabelsOf(r.value) == labels
  {
    if added == [] then None
    else
      var last := added[|added| - 1];
      if LabelsOf(last) == labels then Some(last) else LatestFor(added[..|added| - 1], labels)
  }

  /** The most recently added domain with exactly this normalized name. */
  function LatestNamed(added: seq<Domain>, key: string): (r: Option<Domain>)
    ensures r.Some? ==> r.value in added && Normalize(r.value.name) == key
  {
    if added == [] then None
    else
      var last := added[|added| - 1];
      if Normalize(last.name) == key then Some(last) else LatestNamed(added[..|added| - 1], key)
  }

  /** Longest configured suffix: the whole host if it is configured, else drop its first label. */
  function Zone(added: seq<Domain>, labels: seq<string>): Option<Match> {
    if labels == [] then None
    else if LatestFor(added, labels).Some? then Some(Match(LatestFor(added, labels).value, []))
    else Before([labels[0]], Zone(added, labels[1..]))
  }

  function Before(front: seq<string>, m: Option<Match>): Option<Match> {
    if m.None? then None else Some(m.value.(prefix := front + m.value.prefix))
  }

  lemma {:induction false} LatestForNone(added: seq<Domain>, labels: seq<string>)
    ensures LatestFor(added, labels).None? <==> forall d :: d in added ==> LabelsOf(d) != labels
  {
    hide LabelsOf;
    if added != [] {
      LatestForNone(added[..|added| - 1], labels);
      assert added == added[..|added| - 1] + [added[|added| - 1]];
    }
  }

  lemma {:induction false} LatestNamedNone(added: seq<Domain>, key: string)
    ensures LatestNamed(added, key).None? <==> forall d :: d in added ==> Normalize(d.name) != key
  {
    hide Normalize;
    if added != [] {
      LatestNamedNone(added[..|added| - 1], key);
      assert added == added[..|added| - 1] + [added[|added| - 1]];
    }
  }

  lemma {:induction false} ZoneSkips(added: seq<Domain>, labels: seq<string>, i: nat)
    requires i <= |labels| && forall j :: 0 <= j < i ==> LatestFor(added, labels[j..]).None?
    ensures Zone(added, labels) == Before(labels[..i], Zone(added, labels[i..]))
  {
    hide Zone, LatestFor, Before;
    assert labels[0..] == labels;
    if i == 0 {
      BeforeNothing(Zone(added, labels));
      assert labels[..0] == [];
    } else {
      var rest := labels[1..];
      forall j | 0 <= j < i - 1 ensures LatestFor(added, rest[j..]).None? {
        assert rest[j..] == labels[j + 1..];
      }
      ZoneSkips(added, rest, i - 1);
      assert rest[i - 1..] == labels[i..];
      ZoneMisses(added, labels);
      BeforeTwice([labels[0]], rest[..i - 1], Zone(added, labels[i..]));
      assert [labels[0]] + rest[..i - 1] == labels[..i];
    }
  }

  lemma ZoneMisses(added: seq<Domain>, labels: seq<string>)
    requires labels != [] && LatestFor(added, labels).None?
    ensures Zone(added, labels) == Before([labels[0]], Zone(added, labels[1..]))
  {
  }

  lemma BeforeNothing(m: Option<Match>)
    ensures Before([], m) == m
  {
    if m.Some? {
      assert [] + m.value.prefix == m.value.prefix;
    }
  }

  lemma BeforeTwice(a: seq<string>, b: seq<string>, m: Option<Match>)
    ensures Before(a, Before(b, m)) == Before(a + b, m)
  {
    if m.Some? {
      assert a + (b + m.value.prefix) == a + b + m.value.prefix;
    }
  }

  /** The first position from which the labels are configured, if there is one. */
  lemma FirstConfigured(added: seq<Domain>, labels: seq<string>) returns (j: nat)
    ensures j <= |labels| && forall k :: 0 <= k < j ==> LatestFor(added, labels[k..]).None?
    ensures j < |labels| ==> LatestFor(added, labels[j..]).Some?
  {
    hide LatestFor;
    j := 0;
    while j < |labels| && LatestFor(added, labels[j..]).None?
      invariant j <= |labels| && forall k :: 0 <= k < j ==> LatestFor(added, labels[k..]).None?
    {
      j := j + 1;
    }
  }

  /** What Zone finds is the longest configured suffix, and it finds one exactly when there is one. */
  lemma ZoneIsLongestSuffix(added: seq<Domain>, labels: seq<string>)
    ensures Zone(added, labels).None? <==>
      forall j :: 0 <= j < |labels| ==> LatestFor(added, labels[j..]).None?
    ensures Zone(added, labels).Some? ==>
      var m := Zone(added, labels).value;
      && m.prefix + LabelsOf(m.domain) == labels && LabelsOf(m.domain) != []
      && LatestFor(added, LabelsOf(m.domain)) == Some(m.domain)
      && forall j :: 0 <= j < |m.prefix| ==> LatestFor(added, labels[j..]).None?
  {
    hide LatestFor, LabelsOf, Zone;
    var j := FirstConfigured(added, labels);
    ZoneSkips(added, labels, j);
    if j < |labels| {
      ZoneHere(added, labels[j..]);
      assert labels[..j] + [] == labels[..j];
      assert labels[..j] + labels[j..] == labels;
    } else {
      NoZone(added, labels);
    }
  }

  lemma ZoneHere(added: seq<Domain>, labels: seq<string>)
    requires labels != [] && LatestFor(added, labels).Some?
    ensures Zone(added, labels) == Some(Match(LatestFor(added, labels).value, []))
    ensures LabelsOf(LatestFor(added, labels).value) == labels
  {
  }

  function Deepest(last: Option<Domain>, prefix: seq<string>): Option<Match> {
    if last == None then None else Some(Match(last.value, prefix))
  }

  lemma NoZone(added: seq<Domain>, labels: seq<string>)
    ensures Zone(added, labels[|labels|..]) == Deepest(None, labels[|labels|..|labels|])
  {
  }

  lemma DeepestStep(labels: seq<string>, k: nat, m: nat, last: Option<Domain>)
    requires k < m <= |labels|
    ensures Before([labels[k]], Deepest(last, labels[k + 1..m])) == Deepest(last, labels[k..m])
  {
    assert [labels[k]] + labels[k + 1..m] == labels[k..m];
  }

  lemma DeepestHere(d: Domain, labels: seq<string>, k: nat)
    requires k <= |labels|
    ensures Deepest(Some(d), labels[k..k]) == Some(Match(d, []))
  {
    assert labels[k..k] == [];
  }

  lemma DeepestDone(labels: seq<string>, k: nat, m: nat, last: Option<Domain>)
    requires k <= m <= |labels|
    ensures Before(labels[..k], Deepest(last, labels[k..m]))
         == if last == None then None else Some(Match(last.value, labels[..m]))
  {
    assert labels[..k] + labels[k..m] == labels[..m];
  }

  lemma NothingInFront(added: seq<Domain>, labels: seq<string>)
    ensures Zone(added, labels) == Before(labels[..0], Zone(added, labels[0..]))
  {
    ZoneSkips(added, labels, 0);
  }

  /** A domain just added is the newest for its labels and its name, and for no others. */
  lemma NewestWins(added: seq<Domain>, d: Domain, labels: seq<string>, key: string)
    ensures LatestFor(added + [d], labels) == if labels == LabelsOf(d) then Some(d) else LatestFor(added, labels)
    ensures LatestNamed(added + [d], key) == if key == Normalize(d.name) then Some(d) else LatestNamed(added, key)
    ensures LatestFor([], labels) == None && LatestNamed([], key) == None
  {
    assert (added + [d])[..|added|] == added;
  }

  /** A domain just added is found under its own name, in any mix of case, with nothing in front. */
  lemma AddedIsFound(added: seq<Domain>, d: Domain, host: string)
    requires CaseVariants(host, d.name) && LabelsOf(d) != []
    ensures Zone(added + [d], SplitLabels(Normalize(host))) == Some(Match(d, []))
    ensures LatestNamed(added + [d], Normalize(host)) == Some(d)
  {
    CaseDoesNotMatter(host, d.name);
    NewestWins(added, d, LabelsOf(d), Normalize(d.name));
  }

  /** Hosts that differ in case only fall into the same zone, with the same labels in front, all of them folded. */
  lemma ResolveIgnoresCase(added: seq<Domain>, a: string, b: string)
    requires CaseVariants(a, b)
    ensures Zone(added, SplitLabels(Normalize(a))) == Zone(added, SplitLabels(Normalize(b)))
    ensures forall c :: c in Normalize(a) ==> !('A' <= c <= 'Z')
  {
    CaseDoesNotMatter(a, b);
    NormalizedIsLower(a);
  }

  // ---- The lookup by name ----

  /** Get and Resolve agree on a name: Get finds d exactly when Resolve gives d with nothing in front. */
  ghost predicate LookupsAgree(added: seq<Domain>, name: string) {
    forall d :: LatestNamed(added, Normalize(name)) == Some(d)
           <==> Zone(added, SplitLabels(Normalize(name))) == Some(Match(d, []))
  }

  lemma ZoneExact(added: seq<Domain>, labels: seq<string>, d: Domain)
    ensures Zone(added, labels) == Some(Match(d, [])) <==> labels != [] && LatestFor(added, labels) == Some(d)
  {
  }

  /** They agree exactly when the newest domain with these labels was added under the same spelling, with
      or without the trailing dot; for a name without labels, when nothing was added under it. */
  lemma LookupsAgreeExactly(added: seq<Domain>, name: string)
    ensures var key := Normalize(name); var labels := SplitLabels(key);
      LookupsAgree(added, name) <==>
        if labels == [] then forall d :: d in added ==> Normalize(d.name) != key
        else LatestFor(added, labels).Some? ==> Normalize(LatestFor(added, labels).value.name) == key
  {
    var key := Normalize(name);
    var labels := SplitLabels(key);
    forall d
      ensures Zone(added, labels) == Some(Match(d, [])) <==> labels != [] && LatestFor(added, labels) == Some(d)
    {
      ZoneExact(added, labels, d);
    }
    LatestNamedNone(added, key);
    if labels != [] {
      NamedOfLabels(added, key);
    } else if LatestNamed(added, key).Some? {
      var d := LatestNamed(added, key).value;
      assert Zone(added, labels) != Some(Match(d, []));
    }
  }

  /** A name finds what its labels find, unless a newer domain with those labels is spelled differently. */
  lemma {:induction false} NamedOfLabels(added: seq<Domain>, key: string)
    ensures var r := LatestFor(added, SplitLabels(key));
      (r.None? ==> LatestNamed(added, key).None?)
      && (r.Some? && Normalize(r.value.name) == key ==> LatestNamed(added, key) == r)
      && (r.Some? && Normalize(r.value.name) != key ==> LatestNamed(added, key) != r)
  {
    if added != [] {
      NamedOfLabels(added[..|added| - 1], key);
    }
  }

  /** A zone configured as "oast.test." is found by Resolve under "oast.test", but not by Get. */
  lemma LookupsDisagreeOnDot()
    ensures !LookupsAgree([Domain(1, "oast.test.")], "oast.test")
  {
    hide Split, ToLower, TrimSpace, Zone, LatestNamed;
    var added := [Domain(1, "oast.test.")];
    NormalizePlain("oast.test.");
    NormalizePlain("oast.test");
    assert TrimDot("oast.test.") == "oast.test";
    assert LatestFor(added, SplitLabels("oast.test")) == Some(added[0]);
    JoinSplit("oast.test");
    LookupsAgreeExactly(added, "oast.test");
  }

  predicate Dotless(name: string) {
    name != [] && name[|name| - 1] != '.'
  }

  /** In particular they agree on every name when no name in play ends with a dot. */
  lemma LookupsAgreeWithoutDots(added: seq<Domain>, name: string)
    requires Dotless(Normalize(name)) && forall d :: d in added ==> Dotless(Normalize(d.name))
    ensures LookupsAgree(added, name)
  {
    var key := Normalize(name);
    LookupsAgreeExactly(added, name);
    if LatestFor(added, SplitLabels(key)).Some? {
      SameLabels(Normalize(LatestFor(added, SplitLabels(key)).value.name), key);
    }
  }

  // ---- The trie ----

  function Parent(labels: seq<string>): seq<string>
    requires labels != []
  {
    labels[1..]
  }

  class Node {
    var children: map<string, Node>
    var domain: Option<Domain>

    constructor ()
      ensures children == map[] && domain == None
    {
      children, domain := map[], None;
    }
  }

  /** A child edge drops the first label of the longer sequence, and different sequences have different nodes. */
  ghost predicate TrieShape(root: Node, nodes: map<seq<string>, Node>, kids: map<seq<string>, map<string, Node>>) {
    && [] in nodes && nodes[[]] == root && kids.Keys == nodes.Keys
    && (forall s, t :: s in nodes && t in nodes && s != t ==> nodes[s] != nodes[t])
    && (forall s, l :: s in kids && l in kids[s] ==> [l] + s in nodes && kids[s][l] == nodes[[l] + s])
    && (forall s {:trigger Parent(s)} :: s in nodes && s != [] ==> Parent(s) in kids && s[0] in kids[Parent(s)])
  }

  lemma TrieShapeGrows(root: Node, nodes: map<seq<string>, Node>, kids: map<seq<string>, map<string, Node>>,
                       s: seq<string>, lab: string, c: Node)
    requires TrieShape(root, nodes, kids) && s in nodes && lab !in kids[s] && c !in nodes.Values
    ensures [lab] + s !in nodes
    ensures TrieShape(root, nodes[[lab] + s := c], kids[s := kids[s][lab := c]][[lab] + s := map[]])
  {
    var t := [lab] + s;
    assert Parent(t) == s && t[0] == lab;
    var grownKids := kids[s := kids[s][lab := c]][t := map[]];
    forall p, l | p in grownKids && l in grownKids[p]
      ensures [l] + p in nodes[t := c] && grownKids[p][l] == nodes[t := c][[l] + p]
    {
      if p == s && l == lab {
      } else {
        assert l in kids[p];
        assert ([l] + p)[1..] == p && ([l] + p)[0] == l;
      }
    }
  }

  class Manager {
    const root: Node
    var byName: map<string, Domain>

    /** Every domain added so far, in order. */
    ghost var added: seq<Domain>
    /** The node of each label sequence that the trie holds. */
    ghost var nodes: map<seq<string>, Node>
    /** The edges of each node. */
    ghost var kids: map<seq<string>, map<string, Node>>

    ghost predicate IsTrie()
      reads `nodes, `kids, nodes.Values
    {
      TrieShape(root, nodes, kids) && forall s :: s in nodes ==> nodes[s].children == kids[s]
    }

    /** Each node is marked with the newest domain of its labels. */
    ghost predicate IsMarked()
      reads `added, `nodes, nodes.Values
    {
      && (forall s :: s in nodes ==> nodes[s].domain == LatestFor(added, s))
      && (forall d :: d in added ==> LabelsOf(d) in nodes)
    }

    ghost predicate NamesHold()
      reads `byName, `added
    {
      forall key :: (if key in byName then Some(byName[key]) else None) == LatestNamed(added, key)
    }

    ghost predicate Valid()
      reads this, nodes.Values
    {
      IsTrie() && IsMarked() && NamesHold()
    }

    constructor ()
      ensures Valid() && added == [] && fresh(nodes.Values)
    {
      root := new Node();
      byName, added := map[], [];
      new;
      nodes, kids := map[[] := root], map[[] := map[]];
    }

    /** Registers a domain; the same name again replaces the entry. */
    method Add(d: Domain)
      requires Valid()
      modifies this, nodes.Values
      ensures Valid() && fresh(nodes.Values - old(nodes.Values))
      ensures added == old(added) + [d]
    {
      hide Valid;
      var name := Normalize(d.name);
      var labels := SplitLabels(name);
      var cur := Root(labels);
      var i := |labels|;
      while i > 0
        invariant 0 <= i <= |labels|
        invariant Valid() && fresh(nodes.Values - old(nodes.Values)) && added == old(added)
        invariant labels[i..] in nodes && nodes[labels[i..]] == cur
      {
        i := i - 1;
        assert labels[i..] == [labels[i]] + labels[i + 1..];
        cur := Child(cur, labels[i], labels[i + 1..]);
      }
      assert labels[0..] == labels;
      Mark(cur, d, name);
    }

    method Root(ghost labels: seq<string>) returns (n: Node)
      requires Valid()
      ensures n == root && labels[|labels|..] in nodes && nodes[labels[|labels|..]] == n
    {
      n := root;
      assert labels[|labels|..] == [];
    }

    /** The node one label deeper, created if it is not there yet. */
    method Child(cur: Node, lab: string, ghost s: seq<string>) returns (c: Node)
      requires Valid() && s in nodes && nodes[s] == cur
      modifies `nodes, `kids, nodes.Values
      ensures Valid() && fresh(nodes.Values - old(nodes.Values))
      ensures [lab] + s in nodes && nodes[[lab] + s] == c
    {
      if lab in cur.children {
        c := cur.children[lab];
      } else {
        c := new Node();
        Grow(cur, lab, s, c);
      }
    }

    method Grow(cur: Node, lab: string, ghost s: seq<string>, c: Node)
      requires Valid() && s in nodes && nodes[s] == cur
      requires lab !in cur.children && c !in nodes.Values && c.children == map[] && c.domain == None
      modifies `nodes, `kids, cur`children
      ensures Valid() && nodes == old(nodes)[[lab] + s := c]
    {
      hide LatestFor, LabelsOf, NamesHold, IsTrie;
      Link(cur, lab, s, c);
      NotConfigured([lab] + s);
    }

    /** Puts a new node under an edge of cur. */
    method Link(cur: Node, lab: string, ghost s: seq<string>, c: Node)
      requires IsTrie() && s in nodes && nodes[s] == cur
      requires lab !in cur.children && c !in nodes.Values && c.children == map[]
      modifies `nodes, `kids, cur`children
      ensures IsTrie() && nodes == old(nodes)[[lab] + s := c] && [lab] + s !in old(nodes)
    {
      hide TrieShape;
      OneNodeEach(s);
      TrieShapeGrows(root, nodes, kids, s, lab, c);
      cur.children := cur.children[lab := c];
      nodes := nodes[[lab] + s := c];
      kids := kids[s := kids[s][lab := c]][[lab] + s := map[]];
    }

    lemma NotConfigured(labels: seq<string>)
      requires forall d :: d in added ==> LabelsOf(d) != labels
      ensures LatestFor(added, labels) == None
    {
      LatestForNone(added, labels);
    }

    lemma OneNodeEach(s: seq<string>)
      requires IsTrie() && s in nodes
      ensures forall p :: p in nodes && p != s ==> nodes[p] != nodes[s]
      ensures s in kids && kids.Keys == nodes.Keys && kids[s] == nodes[s].children
    {
    }

    method Mark(cur: Node, d: Domain, name: string)
      requires Valid() && name == Normalize(d.name)
      requires LabelsOf(d) in nodes && nodes[LabelsOf(d)] == cur
      modifies `byName, `added, cur
      ensures Valid()
      ensures added == old(added) + [d]
    {
      cur.domain := Some(d);
      byName := byName[name := d];
      added := added + [d];
      assert added[..|added| - 1] == old(added);
    }

    lemma {:induction false} Descends(labels: seq<string>, j: nat, i: nat)
      requires IsTrie() && j <= i <= |labels| && labels[j..] in nodes
      ensures labels[i..] in nodes
      decreases i - j
    {
      if j < i {
        assert Parent(labels[j..]) == labels[j + 1..];
        Descends(labels, j + 1, i);
      }
    }

    /** Where an edge is missing, no longer suffix is configured. */
    lemma NothingDeeper(labels: seq<string>, i: nat)
      requires Valid() && i < |labels| && labels[i + 1..] in nodes
      requires labels[i] !in nodes[labels[i + 1..]].children
      ensures Zone(added, labels) == Before(labels[..i + 1], Zone(added, labels[i + 1..]))
    {
      assert Parent(labels[i..]) == labels[i + 1..];
      assert labels[i..] !in nodes;
      forall j | 0 <= j < i + 1 ensures LatestFor(added, labels[j..]).None? {
        if labels[j..] in nodes {
          Descends(labels, j, i);
        } else {
          LatestForNone(added, labels[j..]);
        }
      }
      ZoneSkips(added, labels, i + 1);
    }

    /** Walks down from the last label of the host and remembers the deepest marked node. The root is
        never tested, so a domain without labels matches no host. */
    method Resolve(host: string) returns (r: Option<Match>)
      requires Valid()
      ensures r == Zone(added, SplitLabels(Normalize(host)))
    {
      hide Valid, Zone, LatestFor, Deepest, Before;
      var labels := SplitLabels(Normalize(host));
      var cur := Root(labels);
      var last, lastDepth, depth := None, 0, 0;
      ghost var k, m := |labels|, |labels|;
      NoZone(added, labels);
      while depth < |labels|
        invariant 0 <= k <= m <= |labels| && k == |labels| - depth && m == |labels| - lastDepth
        invariant labels[k..] in nodes && nodes[labels[k..]] == cur
        invariant Zone(added, labels[k..]) == Deepest(last, labels[k..m])
      {
        EdgeFacts(labels, k - 1);
        if labels[|labels| - 1 - depth] !in cur.children {
          break;
        }
        cur := cur.children[labels[|labels| - 1 - depth]];
        depth, k := depth + 1, k - 1;
        DeepestStep(labels, k, m, last);
        if cur.domain.Some? {
          last, lastDepth, m := cur.domain, depth, k;
          DeepestHere(last.value, labels, k);
        }
      }
      if k == 0 {
        NothingInFront(added, labels);
      }
      DeepestDone(labels, k, m, last);
      if last == None {
        return None;
      }
      return Some(Match(last.value, labels[..|labels| - lastDepth]));
    }

    /** One edge of the walk: either it leads one label deeper, where the node's mark decides, or no
        longer suffix is configured. */
    lemma EdgeFacts(labels: seq<string>, i: nat)
      requires Valid() && i < |labels| && labels[i + 1..] in nodes
      ensures var n := nodes[labels[i + 1..]];
        if labels[i] in n.children then
          labels[i..] in nodes && nodes[labels[i..]] == n.children[labels[i]]
          && Zone(added, labels[i..])
             == (if nodes[labels[i..]].domain.Some? then Some(Match(nodes[labels[i..]].domain.value, []))
                 else Before([labels[i]], Zone(added, labels[i + 1..])))
        else Zone(added, labels) == Before(labels[..i + 1], Zone(added, labels[i + 1..]))
    {
      if labels[i] in nodes[labels[i + 1..]].children {
        EdgeTaken(labels, i);
        hide Zone, LatestFor, LabelsOf, TrieShape, NamesHold;
        assert labels[i..][1..] == labels[i + 1..];
        if nodes[labels[i..]].domain.Some? {
          ZoneHere(added, labels[i..]);
        } else {
          ZoneMisses(added, labels[i..]);
        }
      } else {
        hide Zone, LatestFor, LabelsOf, Valid;
        NothingDeeper(labels, i);
      }
    }

    lemma EdgeTaken(labels: seq<string>, i: nat)
      requires IsTrie() && i < |labels| && labels[i + 1..] in nodes
      requires labels[i] in nodes[labels[i + 1..]].children
      ensures labels[i..] in nodes && nodes[labels[i..]] == nodes[labels[i + 1..]].children[labels[i]]
    {
      assert labels[i..] == [labels[i]] + labels[i + 1..];
    }

    method Get(name: string) returns (r: Option<Domain>)
      requires Valid()
      ensures r == LatestNamed(added, Normalize(name))
    {
      var key := Normalize(name);
      return if key in byName then Some(byName[key]) else None;
    }
  }
}
