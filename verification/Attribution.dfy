/** From a host to its zone, token and data, for both collectors. */
module Attribution {
  import opened Models
  import opened Names
  import opened DomainManager
  import opened Tokens

  function Occurrences(s: string, c: char): nat {
    if s == [] then 0 else (if s[0] == c then 1 else 0) + Occurrences(s[1..], c)
  }

  /** The last position of c in s, or -1. */
  function LastIndex(s: string, c: char): (i: int)
    ensures -1 <= i < |s|
    ensures i >= 0 ==> s[i] == c
    ensures forall j :: i < j < |s| ==> s[j] != c
  {
    if s == [] then -1
    else if s[|s| - 1] == c then |s| - 1
    else LastIndex(s[..|s| - 1], c)
  }

  /** Removes the port of host:port. A host with more than one colon is a bare IPv6 literal. */
  function StripPort(h: string): string {
    if h == [] then []
    else if h[0] == '[' then
      var i := LastIndex(h, ']');
      if i >= 0 then h[..i + 1] else h
    else
      var i := LastIndex(h, ':');
      if i < 0 then h else if Occurrences(h, ':') > 1 then h else h[..i]
  }

  lemma {:induction false} OccurrencesAppend(a: string, b: string, c: char)
    ensures Occurrences(a + b, c) == Occurrences(a, c) + Occurrences(b, c)
  {
    if a == [] {
      assert a + b == b;
    } else {
      OccurrencesAppend(a[1..], b, c);
      assert (a + b)[1..] == a[1..] + b;
    }
  }

  lemma {:induction false} OccurrencesNone(s: string, c: char)
    requires c !in s
    ensures Occurrences(s, c) == 0
  {
    if s != [] {
      OccurrencesNone(s[1..], c);
    }
  }

  lemma {:induction false} LastIndexNone(s: string, c: char)
    requires c !in s
    ensures LastIndex(s, c) == -1
  {
    if s != [] {
      assert s[|s| - 1] in s;
      LastIndexNone(s[..|s| - 1], c);
    }
  }

  /** An address or name as it stands in front of a port: a name without colons, or a bracketed IPv6 literal. */
  predicate IsHost(h: string) {
    h != [] && if h[0] == '[' then h[|h| - 1] == ']' else ':' !in h
  }

  /** A host keeps its form when a port is put behind it and stripped again, and when there is none. */
  lemma StripPortUndoes(host: string, port: string)
    requires IsHost(host) && ':' !in port && ']' !in port
    ensures StripPort(host + ":" + port) == host && StripPort(host) == host
  {
    if host[0] == '[' {
      BracketedLast(host, port);
    } else {
      ColonLast(host, port);
    }
  }

  lemma ColonLast(host: string, port: string)
    requires ':' !in host && ':' !in port
    ensures LastIndex(host + ":" + port, ':') == |host| && LastIndex(host, ':') == -1
    ensures Occurrences(host + ":" + port, ':') == 1
  {
    var h := host + ":" + port;
    OccurrencesNone(host, ':');
    OccurrencesNone(port, ':');
    OccurrencesAppend(host, ":", ':');
    OccurrencesAppend(host + ":", port, ':');
    assert h[|host|] == ':';
    assert forall j :: |host| < j < |h| ==> h[j] in port;
    LastIndexNone(host, ':');
  }

  lemma BracketedLast(host: string, port: string)
    requires host != [] && host[|host| - 1] == ']' && ']' !in port
    ensures LastIndex(host + ":" + port, ']') == |host| - 1 && LastIndex(host, ']') == |host| - 1
  {
    var h := host + ":" + port;
    assert h[|host| - 1] == ']';
    assert forall j :: |host| < j < |h| ==> h[j] in port;
  }

  /** An unbracketed host with more than one colon is a bare IPv6 literal and stays as it is, so a port
      behind it is not recognized; with one colon, everything from the colon on is the port. */
  lemma StripPortOfColons(h: string)
    requires h != [] && h[0] != '[' && ':' in h
    ensures StripPort(h) == if Occurrences(h, ':') > 1 then h else h[..LastIndex(h, ':')]
    ensures LastIndex(h, ':') >= 0 && (Occurrences(h, ':') == 1 ==> ':' !in StripPort(h))
  {
    var i := LastIndex(h, ':');
    assert h == h[..i] + h[i..];
    OccurrencesAppend(h[..i], h[i..], ':');
    if ':' in h[..i] {
      OccurrencesSome(h[..i], ':');
    }
  }

  lemma {:induction false} OccurrencesSome(s: string, c: char)
    requires c in s
    ensures Occurrences(s, c) > 0
  {
    if s[0] != c {
      OccurrencesSome(s[1..], c);
    }
  }

  /** The host of a request: that of its Host header, else that of the peer. */
  function RequestHost(header: string, remoteAddr: string): string {
    if StripPort(header) == [] then StripPort(remoteAddr) else StripPort(header)
  }

  /** What a collector records for a host: the zone, the token and the data labels. */
  datatype Attributed = Attributed(zone: Domain, token: string, data: seq<string>)

  function Attribute(added: seq<Domain>, registered: set<string>, host: string): Option<Attributed> {
    var m := Zone(added, SplitLabels(Normalize(host)));
    if m.None? then None
    else if m.value.prefix == [] then Some(Attributed(m.value.domain, [], []))
    else
      var prefix := m.value.prefix;
      var k := TokenIndex(registered, prefix);
      Some(Attributed(m.value.domain, prefix[k], prefix[..k] + prefix[k + 1..]))
  }

  /** What both collectors do with a host: resolve the zone, then match the token. */
  method Collect(zones: Manager, registered: set<string>, host: string) returns (r: Option<Attributed>)
    requires zones.Valid()
    ensures r == Attribute(zones.added, registered, host)
  {
    var m := zones.Resolve(host);
    if m.None? {
      return None;
    }
    var token, data := MatchToken(registered, m.value.prefix);
    return Some(Attributed(m.value.domain, token, data));
  }

  /** The HTTP collector takes the host from the request. */
  method CollectRequest(zones: Manager, registered: set<string>, header: string, remoteAddr: string)
    returns (r: Option<Attributed>)
    requires zones.Valid()
    ensures r == Attribute(zones.added, registered, RequestHost(header, remoteAddr))
  {
    var host := StripPort(header);
    if host == "" {
      host := StripPort(remoteAddr);
    }
    r := Collect(zones, registered, host);
  }

  /** Round trip: data labels, a token and a configured zone, joined into a host, come back as that zone, that
      token and that data in order, provided no longer suffix is configured, and either the token is registered
      and no label between it and the zone is, or it stands at the zone and nothing is registered. The DNS form
      with a trailing dot and the HTTP form with a port give the same answer. */
  lemma AttributionRoundTrip(added: seq<Domain>, registered: set<string>, left: seq<string>, token: string,
                             right: seq<string>, zone: Domain, port: string)
    requires var labels := left + [token] + right + LabelsOf(zone);
      && (forall l :: l in labels ==> IsLabel(l))
      && LabelsOf(zone) != [] && LatestFor(added, LabelsOf(zone)) == Some(zone)
      && (forall j :: 0 <= j < |left| + 1 + |right| ==> LatestFor(added, labels[j..]).None?)
    requires || (token in registered && forall l :: l in right ==> l !in registered)
             || (right == [] && forall l :: l in left + [token] ==> l !in registered)
    requires ':' !in port && ']' !in port
    ensures var host := Join(left + [token] + right + LabelsOf(zone));
      var expected := Some(Attributed(zone, token, left + right));
      && Attribute(added, registered, host) == expected
      && Attribute(added, registered, host + ".") == expected
      && (forall peer :: Attribute(added, registered, RequestHost(host + ":" + port, peer)) == expected)
      && (forall peer :: Attribute(added, registered, RequestHost(host, peer)) == expected)
  {
    hide Attribute, StripPort, IsHost, IsLabel;
    var labels := left + [token] + right + LabelsOf(zone);
    HostLabels(labels);
    HostHasNoColon(labels);
    StripPortUndoes(Join(labels), port);
    AttributedTo(added, registered, left, token, right, zone, Join(labels));
    AttributedTo(added, registered, left, token, right, zone, Join(labels) + ".");
  }

  lemma AttributedTo(added: seq<Domain>, registered: set<string>, left: seq<string>, token: string,
                     right: seq<string>, zone: Domain, host: string)
    requires var labels := left + [token] + right + LabelsOf(zone);
      && SplitLabels(Normalize(host)) == labels
      && LabelsOf(zone) != [] && LatestFor(added, LabelsOf(zone)) == Some(zone)
      && (forall j :: 0 <= j < |left| + 1 + |right| ==> LatestFor(added, labels[j..]).None?)
    requires || (token in registered && forall l :: l in right ==> l !in registered)
             || (right == [] && forall l :: l in left + [token] ==> l !in registered)
    ensures Attribute(added, registered, host) == Some(Attributed(zone, token, left + right))
  {
    hide SplitLabels, Normalize, LatestFor, TokenIndex, Zone, LabelsOf;
    var prefix := left + [token] + right;
    var labels := prefix + LabelsOf(zone);
    assert labels[|prefix|..] == LabelsOf(zone) && labels[..|prefix|] == prefix;
    ZoneSkips(added, labels, |prefix|);
    ZoneHere(added, LabelsOf(zone));
    assert prefix + [] == prefix;
    TokenIndexExact(registered, left, token, right);
    assert prefix[..|left|] == left && prefix[|left| + 1..] == right;
  }

  /** A resolver may mix the case of a host as it likes. */
  lemma CaseOfHostDoesNotMatter(added: seq<Domain>, registered: set<string>, a: string, b: string)
    requires CaseVariants(a, b)
    ensures Attribute(added, registered, a) == Attribute(added, registered, b)
  {
    CaseDoesNotMatter(a, b);
  }

  /** A host that is a zone itself has no token and no data. */
  lemma ZoneHasNoToken(added: seq<Domain>, registered: set<string>, d: Domain, host: string)
    requires CaseVariants(host, d.name) && LabelsOf(d) != []
    ensures Attribute(added + [d], registered, host) == Some(Attributed(d, "", []))
  {
    AddedIsFound(added, d, host);
  }

  /** A host outside every zone is attributed to none. */
  lemma OutsideEveryZone(added: seq<Domain>, registered: set<string>, host: string)
    requires var labels := SplitLabels(Normalize(host));
      forall d, j :: d in added && 0 <= j < |labels| ==> LabelsOf(d) != labels[j..]
    ensures Attribute(added, registered, host) == None
  {
    var labels := SplitLabels(Normalize(host));
    ZoneIsLongestSuffix(added, labels);
    forall j | 0 <= j < |labels| ensures LatestFor(added, labels[j..]).None? {
      LatestForNone(added, labels[j..]);
    }
  }

  /** A request without a Host header is attributed by its peer. */
  lemma PeerStandsIn(host: string, port: string)
    requires IsHost(host) && ':' !in port && ']' !in port
    ensures RequestHost("", host + ":" + port) == host
    ensures RequestHost(":" + port, host + ":" + port) == host
  {
    StripPortUndoes(host, port);
    ColonLast("", port);
    assert "" + ":" + port == ":" + port;
  }

  lemma HostHasNoColon(labels: seq<string>)
    requires labels != [] && forall l :: l in labels ==> IsLabel(l)
    ensures IsHost(Join(labels))
  {
    JoinPlain(labels);
  }
}
