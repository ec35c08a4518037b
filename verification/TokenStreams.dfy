/** How many streams of random bytes lead to a token, rejected bytes and redraws included. */
module TokenStreams {
  import opened Models
  import opened Tokens

  ghost predicate AreBytes(s: seq<int>) {
    forall i :: 0 <= i < |s| ==> 0 <= s[i] < VALUE_SPACE
  }

  /** The numbers from lo up to, but not including, hi. */
  ghost function Range(lo: nat, hi: nat): set<int> {
    if hi <= lo then {} else Range(lo, hi - 1) + {hi - 1}
  }

  /** The bytes that are redrawn. */
  ghost function Rejected(): set<int> {
    Range(Reject(|ALPHABET|), VALUE_SPACE)
  }

  lemma {:induction false} RangeFacts(lo: nat, hi: nat)
    ensures forall v :: v in Range(lo, hi) <==> lo <= v < hi
    ensures lo <= hi ==> |Range(lo, hi)| == hi - lo
  {
    if lo < hi {
      RangeFacts(lo, hi - 1);
    }
  }

  ghost function AnyStreams(len: nat): set<seq<int>> {
    if len == 0 then {[]} else Product(Range(0, VALUE_SPACE), AnyStreams(len - 1))
  }

  /** Moves the second byte behind the first n: a buffer of n bytes is drawn before any byte is redrawn. */
  function Behind(n: nat): seq<int> -> seq<int> {
    (u: seq<int>) => if 0 < n < |u| then [u[0]] + u[2..n + 1] + [u[1]] + u[n + 1..] else u
  }

  /** Moves byte n forward to the second place. */
  function Ahead(n: nat): seq<int> -> seq<int> {
    (s: seq<int>) => if 0 < n < |s| then [s[0]] + [s[n]] + s[1..n] + s[n + 1..] else s
  }

  /** The streams of the given length that make the sampler spell these symbols: either the first byte is
      accepted for the first symbol, or it is rejected and the byte behind the buffer takes its place. */
  ghost function Sources(symbols: seq<nat>, len: nat): set<seq<int>>
    decreases len
  {
    if len < |symbols| then {}
    else if symbols == [] then AnyStreams(len)
    else
      var redrawn := Product(Rejected(), Sources(symbols, len - 1));
      Product(BytesOf(symbols[0], |ALPHABET|), Sources(symbols[1..], len - 1))
      + (set u | u in redrawn :: Behind(|symbols|)(u))
  }

  /** How many streams of the given length spell any n symbols. */
  function Count(n: nat, len: nat): nat
    decreases len
  {
    if len < n then 0
    else if n == 0 then Power(VALUE_SPACE, len)
    else 8 * Count(n - 1, len - 1) + 8 * Count(n, len - 1)
  }

  /** The accepted bytes that the sampler draws from the stream stand for these symbols. */
  ghost predicate Gives(s: seq<Byte>, symbols: seq<nat>) {
    && |s| >= |symbols|
    && var r := Redrawn(s[..|symbols|], s[|symbols|..]);
      r.Some? && forall i :: 0 <= i < |symbols| ==> r.value[i] % |ALPHABET| == symbols[i]
  }

  // ---- The set and the sampler agree ----

  lemma GivesAccepted(s: seq<Byte>, symbols: seq<nat>)
    requires s != [] && symbols != [] && s[0] < Reject(|ALPHABET|)
    ensures Gives(s, symbols) <==> s[0] % |ALPHABET| == symbols[0] && Gives(s[1..], symbols[1..])
  {
    var n := |symbols|;
    if |s| >= n {
      assert s[..n][1..] == s[1..][..n - 1] && s[n..] == s[1..][n - 1..];
      var rest := Redrawn(s[1..][..n - 1], s[1..][n - 1..]);
      if rest.Some? {
        var r := [s[0]] + rest.value;
        assert Redrawn(s[..n], s[n..]) == Some(r);
        assert forall i :: 0 < i < n ==> r[i] == rest.value[i - 1];
        assert forall i :: 0 <= i < n - 1 ==> rest.value[i] == r[i + 1] && symbols[1..][i] == symbols[i + 1];
      }
    }
  }

  lemma GivesRejected(s: seq<Byte>, symbols: seq<nat>)
    requires s != [] && symbols != [] && s[0] >= Reject(|ALPHABET|)
    ensures Gives(s, symbols) <==>
      |s| > |symbols| && Gives([s[|symbols|]] + s[1..|symbols|] + s[|symbols| + 1..], symbols)
  {
    var n := |symbols|;
    if |s| > n {
      var t := [s[n]] + s[1..n] + s[n + 1..];
      assert s[n..][0] == s[n] && s[n..][1..] == s[n + 1..];
      assert t[..n] == [s[n]] + s[1..n] && t[n..] == s[n + 1..];
      assert s[..n][1..] == s[1..n] && t[..n][1..] == s[1..n];
      assert FirstAccepted(s[0], s[n..]) == FirstAccepted(s[n], s[n + 1..]);
      assert Redrawn(s[..n], s[n..]) == Redrawn(t[..n], t[n..]);
    }
  }

  lemma BehindAhead(n: nat, u: seq<int>)
    ensures Ahead(n)(Behind(n)(u)) == u && Behind(n)(Ahead(n)(u)) == u
  {
    if 0 < n < |u| {
      Rotated(u[0], u[1], u[2..n + 1], u[n + 1..], n);
      assert u == [u[0]] + [u[1]] + u[2..n + 1] + u[n + 1..];
      Rotated(u[0], u[n], u[1..n], u[n + 1..], n);
      assert u == [u[0]] + u[1..n] + [u[n]] + u[n + 1..];
    }
  }

  lemma Rotated(v: int, w: int, mid: seq<int>, rest: seq<int>, n: nat)
    requires n == |mid| + 1
    ensures Behind(n)([v] + [w] + mid + rest) == [v] + mid + [w] + rest
    ensures Ahead(n)([v] + mid + [w] + rest) == [v] + [w] + mid + rest
  {
    var u, s := [v] + [w] + mid + rest, [v] + mid + [w] + rest;
    assert u[2..n + 1] == mid && u[n + 1..] == rest;
    assert s[1..n] == mid && s[n + 1..] == rest && s[n] == w;
  }

  lemma ProductMembers<T(!new)>(heads: set<T>, tails: set<seq<T>>, s: seq<T>)
    ensures s in Product(heads, tails) <==> s != [] && s[0] in heads && s[1..] in tails
  {
    if s in Product(heads, tails) {
      var h, t :| h in heads && t in tails && s == [h] + t;
      assert s[1..] == t;
    }
    if s != [] && s[0] in heads && s[1..] in tails {
      var h, t := s[0], s[1..];
      assert [h] + t in Product(heads, tails);
      assert s == [h] + t;
    }
  }

  lemma BytesCons(s: seq<int>)
    requires s != []
    ensures AreBytes(s) <==> 0 <= s[0] < VALUE_SPACE && AreBytes(s[1..])
  {
    assert forall i :: 0 < i < |s| ==> s[i] == s[1..][i - 1];
  }

  lemma AnyStep(len: nat)
    ensures AnyStreams(len) == if len == 0 then {[]} else Product(Range(0, VALUE_SPACE), AnyStreams(len - 1))
    ensures Power(VALUE_SPACE, len) == if len == 0 then 1 else VALUE_SPACE * Power(VALUE_SPACE, len - 1)
  {
  }

  lemma {:induction false} AnyMembers(len: nat, s: seq<int>)
    ensures s in AnyStreams(len) <==> |s| == len && AreBytes(s)
  {
    hide AnyStreams, AreBytes, Range, Product;
    AnyStep(len);
    RangeFacts(0, VALUE_SPACE);
    if len == 0 {
      NoBytes();
    } else {
      ProductMembers(Range(0, VALUE_SPACE), AnyStreams(len - 1), s);
      if s != [] {
        AnyMembers(len - 1, s[1..]);
        BytesCons(s);
      }
    }
  }

  lemma NoBytes()
    ensures AreBytes([])
  {
  }

  /** The members whose first byte was rejected are found by undoing the redraw. */
  lemma RedrawnMembers(symbols: seq<nat>, tails: set<seq<int>>, s: seq<int>)
    ensures s in (set u | u in Product(Rejected(), tails) :: Behind(|symbols|)(u))
       <==> Ahead(|symbols|)(s) in Product(Rejected(), tails)
  {
    var n := |symbols|;
    hide Ahead, Behind;
    forall u ensures Ahead(n)(Behind(n)(u)) == u && Behind(n)(Ahead(n)(u)) == u {
      BehindAhead(n, u);
    }
  }

  lemma AheadFacts(n: nat, s: seq<int>)
    ensures |Ahead(n)(s)| == |s| && (s != [] ==> Ahead(n)(s)[0] == s[0])
    ensures 0 < n < |s| ==> Ahead(n)(s)[1..] == [s[n]] + s[1..n] + s[n + 1..]
    ensures s != [] && AreBytes(s) ==> AreBytes(s[1..]) && AreBytes(Ahead(n)(s)[1..])
    ensures s != [] && 0 <= s[0] < VALUE_SPACE && AreBytes(Ahead(n)(s)[1..]) ==> AreBytes(s)
    ensures s != [] && 0 <= s[0] < VALUE_SPACE && AreBytes(s[1..]) ==> AreBytes(s)
  {
    AheadShape(n, s);
    hide Ahead, AreBytes;
    if s != [] {
      BytesCons(s);
    }
    if 0 < n < |s| {
      BytesRotated(s[1..n], s[n], s[n + 1..]);
      assert s[1..] == s[1..n] + [s[n]] + s[n + 1..];
    }
  }

  lemma AheadShape(n: nat, s: seq<int>)
    ensures |Ahead(n)(s)| == |s| && (s != [] ==> Ahead(n)(s)[0] == s[0])
    ensures if 0 < n < |s| then Ahead(n)(s)[1..] == [s[n]] + s[1..n] + s[n + 1..] else Ahead(n)(s) == s
  {
    if 0 < n < |s| {
      assert Ahead(n)(s)[1..] == [s[n]] + s[1..n] + s[n + 1..];
    }
  }

  lemma BytesRotated(a: seq<int>, v: int, b: seq<int>)
    ensures AreBytes(a + [v] + b) <==> AreBytes([v] + a + b)
  {
    var s, t := a + [v] + b, [v] + a + b;
    forall i | 0 <= i < |s| ensures s[i] == t[if i < |a| then i + 1 else if i == |a| then 0 else i] {
    }
    forall i | 0 <= i < |t| ensures t[i] == s[if i == 0 then |a| else if i <= |a| then i - 1 else i] {
    }
  }

  lemma FirstByte(v: int, symbol: nat)
    requires symbol < |ALPHABET|
    ensures v in BytesOf(symbol, |ALPHABET|) <==> 0 <= v < Reject(|ALPHABET|) && v % |ALPHABET| == symbol
    ensures v in Rejected() <==> Reject(|ALPHABET|) <= v < VALUE_SPACE
    ensures 0 < Reject(|ALPHABET|) <= VALUE_SPACE
  {
    RangeFacts(Reject(|ALPHABET|), VALUE_SPACE);
  }

  ghost predicate AreSymbols(symbols: seq<nat>) {
    forall i :: 0 <= i < |symbols| ==> symbols[i] < |ALPHABET|
  }

  /** The set holds exactly the streams of bytes of that length that spell the symbols. */
  lemma {:induction false} SourcesMembers(symbols: seq<nat>, len: nat, s: seq<int>)
    requires AreSymbols(symbols)
    ensures s in Sources(symbols, len) <==> |s| == len && AreBytes(s) && Gives(s, symbols)
    decreases len
  {
    hide Gives, Ahead, MemberByFirst, Sources, AnyStreams, AreSymbols;
    SourcesBase(symbols, len);
    if len < |symbols| {
      if |s| == len && AreBytes(s) {
        TooShort(s, symbols);
      }
    } else if symbols == [] {
      AnyMembers(len, s);
      if |s| == len && AreBytes(s) {
        GivesNothing(s);
      }
    } else {
      SourcesSplit(symbols, len, s);
      AheadFacts(|symbols|, s);
      SymbolsRest(symbols);
      if s != [] {
        SourcesMembers(symbols[1..], len - 1, s[1..]);
        SourcesMembers(symbols, len - 1, Ahead(|symbols|)(s)[1..]);
        FirstByteDecides(symbols, len, s);
      }
    }
  }

  /** Membership in the set, one byte at a time. */
  ghost predicate MemberByFirst(symbols: seq<nat>, len: nat, s: seq<int>)
    requires symbols != [] && len > 0 && s != []
  {
    var a := Ahead(|symbols|)(s);
    && |a| == |s|
    && (s in Sources(symbols, len) <==>
          || (s[0] in BytesOf(symbols[0], |ALPHABET|) && s[1..] in Sources(symbols[1..], len - 1))
          || (s[0] in Rejected() && a[1..] in Sources(symbols, len - 1)))
  }

  lemma SourcesSplit(symbols: seq<nat>, len: nat, s: seq<int>)
    requires symbols != [] && len >= |symbols|
    ensures s != [] ==> MemberByFirst(symbols, len, s)
    ensures s == [] ==> s !in Sources(symbols, len)
  {
    hide Ahead, Behind, Product, BytesOf, Rejected;
    var redraws := Sources(symbols, len - 1);
    ProductMembers(BytesOf(symbols[0], |ALPHABET|), Sources(symbols[1..], len - 1), s);
    RedrawnMembers(symbols, redraws, s);
    ProductMembers(Rejected(), redraws, Ahead(|symbols|)(s));
    AheadFacts(|symbols|, s);
  }

  lemma FirstByteDecides(symbols: seq<nat>, len: nat, s: seq<int>)
    requires symbols != [] && len >= |symbols| && s != [] && AreSymbols(symbols)
    requires MemberByFirst(symbols, len, s)
    requires var t := s[1..];
      t in Sources(symbols[1..], len - 1) <==> |t| == len - 1 && AreBytes(t) && Gives(t, symbols[1..])
    requires var t := Ahead(|symbols|)(s)[1..];
      t in Sources(symbols, len - 1) <==> |t| == len - 1 && AreBytes(t) && Gives(t, symbols)
    ensures s in Sources(symbols, len) <==> |s| == len && AreBytes(s) && Gives(s, symbols)
  {
    FirstByte(s[0], symbols[0]);
    AheadFacts(|symbols|, s);
    hide Sources, Ahead, BytesOf, Rejected, Reject;
    if |s| == len && AreBytes(s) {
      if s[0] < Reject(|ALPHABET|) {
        GivesAccepted(s, symbols);
      } else {
        GivesRejected(s, symbols);
        TooShort(Ahead(|symbols|)(s)[1..], symbols);
      }
    }
  }

  lemma SymbolsRest(symbols: seq<nat>)
    requires symbols != [] && AreSymbols(symbols)
    ensures AreSymbols(symbols[1..])
  {
  }

  lemma GivesNothing(s: seq<Byte>)
    ensures Gives(s, [])
  {
    assert s[..0] == [];
  }

  lemma TooShort(t: seq<Byte>, symbols: seq<nat>)
    ensures Gives(t, symbols) ==> |t| >= |symbols|
  {
  }

  // ---- Counting ----

  lemma {:induction false} ImageSize(s: set<seq<int>>, n: nat)
    ensures |set u | u in s :: Behind(n)(u)| == |s|
    decreases |s|
  {
    hide Behind, Ahead;
    var image := set u | u in s :: Behind(n)(u);
    if s == {} {
      assert image == {};
    } else {
      var u :| u in s;
      var rest := s - {u};
      var less := set w | w in rest :: Behind(n)(w);
      ImageSize(rest, n);
      forall w | w in rest ensures Behind(n)(w) != Behind(n)(u) {
        BehindAhead(n, w);
        BehindAhead(n, u);
      }
      assert image == less + {Behind(n)(u)};
    }
  }

  lemma ByteCounts(symbol: nat)
    requires symbol < |ALPHABET|
    ensures |BytesOf(symbol, |ALPHABET|)| == 8 && |Rejected()| == 8
  {
    hide Range, BytesOf;
    SymbolsAreUniform(|ALPHABET|, symbol);
    RangeFacts(Reject(|ALPHABET|), VALUE_SPACE);
  }

  lemma {:induction false} AnySize(len: nat)
    ensures |AnyStreams(len)| == Power(VALUE_SPACE, len)
  {
    hide AnyStreams, Power, Range, Product;
    AnyStep(len);
    if len > 0 {
      AnySize(len - 1);
      RangeFacts(0, VALUE_SPACE);
      ProductSize(Range(0, VALUE_SPACE), AnyStreams(len - 1));
    }
  }

  lemma FirstByteSeparates(symbols: seq<nat>, a: set<seq<int>>, b: set<seq<int>>)
    requires symbols != [] && symbols[0] < |ALPHABET|
    ensures Product(BytesOf(symbols[0], |ALPHABET|), a) !! (set u | u in Product(Rejected(), b) :: Behind(|symbols|)(u))
  {
    hide Ahead, Behind, Product, Rejected, BytesOf;
    forall s | s in Product(BytesOf(symbols[0], |ALPHABET|), a)
      ensures s !in (set u | u in Product(Rejected(), b) :: Behind(|symbols|)(u))
    {
      ProductMembers(BytesOf(symbols[0], |ALPHABET|), a, s);
      RedrawnMembers(symbols, b, s);
      ProductMembers(Rejected(), b, Ahead(|symbols|)(s));
      AheadFacts(|symbols|, s);
      FirstByte(s[0], symbols[0]);
    }
  }

  lemma PartsSize(symbols: seq<nat>, first: set<seq<int>>, redraws: set<seq<int>>)
    requires symbols != [] && symbols[0] < |ALPHABET|
    ensures |Product(BytesOf(symbols[0], |ALPHABET|), first)
             + (set u | u in Product(Rejected(), redraws) :: Behind(|symbols|)(u))| == 8 * |first| + 8 * |redraws|
  {
    hide Product, BytesOf, Rejected, Behind;
    ByteCounts(symbols[0]);
    ProductSize(BytesOf(symbols[0], |ALPHABET|), first);
    ProductSize(Rejected(), redraws);
    ImageSize(Product(Rejected(), redraws), |symbols|);
    FirstByteSeparates(symbols, first, redraws);
  }

  lemma SourcesParts(symbols: seq<nat>, len: nat)
    requires symbols != [] && len >= |symbols| && AreSymbols(symbols)
    ensures symbols[0] < |ALPHABET|
    ensures var redrawn := Product(Rejected(), Sources(symbols, len - 1));
      Sources(symbols, len) == Product(BytesOf(symbols[0], |ALPHABET|), Sources(symbols[1..], len - 1))
                               + (set u | u in redrawn :: Behind(|symbols|)(u))
  {
  }

  /** The number of streams depends on the number of symbols only. */
  lemma {:induction false} SourcesSize(symbols: seq<nat>, len: nat)
    requires AreSymbols(symbols)
    ensures |Sources(symbols, len)| == Count(|symbols|, len)
    decreases len
  {
    hide Count, Power, Sources, Product, BytesOf, Rejected, Behind, AreSymbols, AnyStreams;
    CountStep(|symbols|, len);
    SourcesBase(symbols, len);
    if symbols == [] {
      AnySize(len);
    } else if len >= |symbols| {
      SourcesParts(symbols, len);
      SymbolsRest(symbols);
      SourcesSize(symbols[1..], len - 1);
      SourcesSize(symbols, len - 1);
      PartsSize(symbols, Sources(symbols[1..], len - 1), Sources(symbols, len - 1));
    }
  }

  lemma CountStep(n: nat, len: nat)
    ensures Count(n, len) == if len < n then 0 else if n == 0 then Power(VALUE_SPACE, len)
                             else 8 * Count(n - 1, len - 1) + 8 * Count(n, len - 1)
  {
  }

  lemma SourcesBase(symbols: seq<nat>, len: nat)
    ensures len < |symbols| ==> Sources(symbols, len) == {}
    ensures symbols == [] ==> Sources(symbols, len) == AnyStreams(len)
  {
  }

  /** The streams of the given length for which the sampler returns this token. */
  ghost function StreamsFor(token: string, len: nat): set<seq<int>>
    requires IsToken(token)
  {
    Sources(Indices(token), len)
  }

  lemma GivesToken(s: seq<Byte>, token: string)
    requires IsToken(token)
    ensures Gives(s, Indices(token)) <==> TokenFrom(s) == Some(token)
  {
    if |s| >= TOKEN_LEN {
      var r := Redrawn(s[..TOKEN_LEN], s[TOKEN_LEN..]);
      if r.Some? {
        hide Redrawn, Symbols;
        SameSymbols(r.value, token, Indices(token));
      }
    }
  }

  /** Generation is uniform: for every number of random bytes, each token is returned for equally many of
      the streams of that length. */
  lemma GenerationIsUniform(token: string, len: nat)
    requires IsToken(token)
    ensures forall s: seq<Byte> :: s in StreamsFor(token, len) <==> |s| == len && TokenFrom(s) == Some(token)
    ensures forall s :: s in StreamsFor(token, len) ==> AreBytes(s)
    ensures |StreamsFor(token, len)| == Count(TOKEN_LEN, len)
  {
    hide Sources, Gives, TokenFrom, IsToken;
    SourcesSize(Indices(token), len);
    forall s: seq<Byte> ensures s in StreamsFor(token, len) <==> |s| == len && TokenFrom(s) == Some(token) {
      SourcesMembers(Indices(token), len, s);
      GivesToken(s, token);
    }
    forall s | s in StreamsFor(token, len) ensures AreBytes(s) {
      SourcesMembers(Indices(token), len, s);
    }
  }
}
