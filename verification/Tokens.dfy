/** Callback tokens: generation by rejection sampling, the shape check, and finding the token among the
    labels of a host. */
module Tokens {
  import opened Models

  const ALPHABET := "23456789abcdefghjkmnpqrstuvwxyz"
  const TOKEN_LEN := 8
  const VALUE_SPACE := 256

  type Byte = b: int | 0 <= b < 256

  /** The first byte value that is rejected for an alphabet of n symbols. */
  function Reject(n: nat): nat
    requires 0 < n <= VALUE_SPACE
  {
    VALUE_SPACE - VALUE_SPACE % n
  }

  predicate IsSymbol(c: char) {
    c in ALPHABET
  }

  predicate IsToken(s: string) {
    |s| == TOKEN_LEN && forall i :: 0 <= i < |s| ==> IsSymbol(s[i])
  }

  /** Eight characters, each a digit from 2 to 9 or a lower-case letter other than i, l and o. */
  lemma TokensInCharacters(s: string)
    ensures IsToken(s) <==>
      |s| == 8 && forall i :: 0 <= i < 8 ==>
        '2' <= s[i] <= '9' || ('a' <= s[i] <= 'z' && s[i] != 'i' && s[i] != 'l' && s[i] != 'o')
  {
    forall c: char
      ensures IsSymbol(c) <==> '2' <= c <= '9' || ('a' <= c <= 'z' && c != 'i' && c != 'l' && c != 'o')
    {
      SymbolInCharacters(c);
    }
    hide IsSymbol;
  }

  lemma SymbolInCharacters(c: char)
    ensures IsSymbol(c) <==> '2' <= c <= '9' || ('a' <= c <= 'z' && c != 'i' && c != 'l' && c != 'o')
  {
    if IsSymbol(c) {
      var i :| 0 <= i < |ALPHABET| && ALPHABET[i] == c;
      SymbolAt(i);
    }
    if '2' <= c <= '9' || ('a' <= c <= 'z' && c != 'i' && c != 'l' && c != 'o') {
      IsOneOfThem(c);
    }
  }

  lemma SymbolAt(i: nat)
    requires i < |ALPHABET|
    ensures var c := ALPHABET[i];
      '2' <= c <= '9' || ('a' <= c <= 'z' && c != 'i' && c != 'l' && c != 'o')
  {
  }

  lemma IsOneOfThem(c: char)
    requires '2' <= c <= '9' || ('a' <= c <= 'z' && c != 'i' && c != 'l' && c != 'o')
    ensures IsSymbol(c)
  {
    var k := c as int;
    var i := if c <= '9' then k - 50 else if c < 'i' then k - 89 else if c < 'l' then k - 90
             else if c < 'o' then k - 91 else k - 92;
    assert ALPHABET[i] == c;
  }

  // ---- Generation ----

  function Symbol(b: int): char
    requires b >= 0
  {
    ALPHABET[b % |ALPHABET|]
  }

  function Symbols(bytes: seq<Byte>): (s: string)
    ensures |s| == |bytes|
  {
    seq(|bytes|, i requires 0 <= i < |bytes| => Symbol(bytes[i]))
  }

  predicate Accepted(bytes: seq<Byte>) {
    forall i :: 0 <= i < |bytes| ==> bytes[i] < Reject(|ALPHABET|)
  }

  /** The first accepted byte of v followed by the stream, and what is left of the stream. */
  function FirstAccepted(v: Byte, stream: seq<Byte>): (r: Option<(Byte, seq<Byte>)>)
    ensures r.Some? ==> r.value.0 < Reject(|ALPHABET|)
    decreases |stream|
  {
    if v < Reject(|ALPHABET|) then Some((v, stream))
    else if stream == [] then None
    else FirstAccepted(stream[0], stream[1..])
  }

  /** The accepted byte at each position: each rejected one is redrawn from the stream, left to right. */
  function Redrawn(buf: seq<Byte>, stream: seq<Byte>): (r: Option<seq<Byte>>)
    ensures r.Some? ==> |r.value| == |buf| && Accepted(r.value)
  {
    if buf == [] then Some([])
    else
      var head := FirstAccepted(buf[0], stream);
      if head.None? then None
      else
        var rest := Redrawn(buf[1..], head.value.1);
        if rest.None? then None else Some([head.value.0] + rest.value)
  }

  /** The token for a stream of random bytes, or None when the source runs dry. */
  function TokenFrom(stream: seq<Byte>): Option<string> {
    if |stream| < TOKEN_LEN then None
    else
      var t := Redrawn(stream[..TOKEN_LEN], stream[TOKEN_LEN..]);
      if t.None? then None else Some(Symbols(t.value))
  }

  /** Eight bytes below 248 make a token by themselves: byte by byte, the symbol at the byte modulo 31. */
  lemma TokenWithoutRedraw(source: seq<Byte>)
    requires |source| >= 8 && forall i :: 0 <= i < 8 ==> source[i] < 248
    ensures TokenFrom(source).Some? && |TokenFrom(source).value| == 8
    ensures forall i :: 0 <= i < 8 ==>
      TokenFrom(source).value[i] == "23456789abcdefghjkmnpqrstuvwxyz"[source[i] % 31]
  {
    AllAccepted(source[..8], source[8..]);
  }

  lemma {:induction false} AllAccepted(buf: seq<Byte>, stream: seq<Byte>)
    requires Accepted(buf)
    ensures Redrawn(buf, stream) == Some(buf)
  {
    if buf != [] {
      AllAccepted(buf[1..], stream);
      assert buf == [buf[0]] + buf[1..];
    }
  }

  /** The first byte from 248 on is replaced by the next random byte; without one there is no token. */
  lemma TokenAfterRedraw(source: seq<Byte>, k: nat)
    requires |source| >= 8 && k < 8 && source[k] >= 248 && forall i :: 0 <= i < k ==> source[i] < 248
    ensures TokenFrom(source)
         == if |source| == 8 then None else TokenFrom(source[..k] + [source[8]] + source[k + 1..8] + source[9..])
  {
    var buf, stream := source[..8], source[8..];
    RedrawAt(buf, stream, k);
    if |source| > 8 {
      var next := source[..k] + [source[8]] + source[k + 1..8] + source[9..];
      assert next[..8] == buf[k := stream[0]] && next[8..] == stream[1..];
    }
  }

  lemma {:induction false} RedrawAt(buf: seq<Byte>, stream: seq<Byte>, k: nat)
    requires k < |buf| && buf[k] >= 248 && forall i :: 0 <= i < k ==> buf[i] < 248
    ensures Redrawn(buf, stream) == if stream == [] then None else Redrawn(buf[k := stream[0]], stream[1..])
  {
    if k > 0 {
      RedrawAt(buf[1..], stream, k - 1);
      if stream != [] {
        assert buf[k := stream[0]][1..] == buf[1..][k - 1 := stream[0]];
      }
    } else if stream != [] {
      assert buf[0 := stream[0]][1..] == buf[1..];
    }
  }

  /** Fewer than eight random bytes make no token. */
  lemma NoTokenFromLess(source: seq<Byte>)
    requires |source| < 8
    ensures TokenFrom(source) == None
  {
  }

  /** Fills a buffer from the random source and redraws each byte until it is accepted. */
  method Generate(source: seq<Byte>) returns (r: Option<string>)
    ensures r == TokenFrom(source)
    ensures r.Some? ==> IsToken(r.value)
  {
    if |source| < TOKEN_LEN {
      return None;
    }
    var reject := Reject(|ALPHABET|);
    var out := new char[TOKEN_LEN](_ => '0');
    var buf := new Byte[TOKEN_LEN](i requires 0 <= i < TOKEN_LEN => source[i]);
    var stream := source[TOKEN_LEN..];
    hide Symbol, Symbols, FirstAccepted, Redrawn, Prepended, IsToken;
    ghost var done: seq<Byte> := [];
    ghost var whole := Redrawn(source[..TOKEN_LEN], stream);
    assert buf[0..] == source[..TOKEN_LEN];
    PrependedNone(whole);
    for i := 0 to TOKEN_LEN
      invariant |done| == i && out[..i] == Symbols(done)
      invariant buf[i..] == source[i..TOKEN_LEN]
      invariant whole == Prepended(done, Redrawn(buf[i..], stream))
    {
      var v := buf[i];
      ghost var head, rest := FirstAccepted(v, stream), buf[i + 1..];
      RedrawnStep(done, buf[i..], stream);
      assert buf[i..][1..] == rest && rest == source[i + 1..TOKEN_LEN];
      while v >= reject
        invariant FirstAccepted(v, stream) == head && v == buf[i]
        invariant buf[i + 1..] == rest && out[..i] == Symbols(done)
        decreases |stream|
      {
        RedrawStep(v, stream);
        if stream == [] {
          return None;
        }
        buf[i] := stream[0];
        stream := stream[1..];
        v := buf[i];
      }
      AcceptStep(v, stream);
      out[i] := Symbol(v);
      SymbolsMore(done, v);
      done := done + [v];
      assert out[..i + 1] == out[..i] + [Symbol(v)];
    }
    SymbolsAreToken(done);
    RedrawnDone(done, stream);
    assert buf[TOKEN_LEN..] == [];
    assert out[..] == out[..TOKEN_LEN];
    return Some(out[..]);
  }

  lemma RedrawStep(v: Byte, stream: seq<Byte>)
    requires v >= Reject(|ALPHABET|)
    ensures FirstAccepted(v, stream) == if stream == [] then None else FirstAccepted(stream[0], stream[1..])
  {
  }

  lemma AcceptStep(v: Byte, stream: seq<Byte>)
    requires v < Reject(|ALPHABET|)
    ensures FirstAccepted(v, stream) == Some((v, stream))
  {
  }

  lemma RedrawnStep(done: seq<Byte>, buf: seq<Byte>, stream: seq<Byte>)
    requires buf != []
    ensures var head := FirstAccepted(buf[0], stream);
      Prepended(done, Redrawn(buf, stream))
      == if head.None? then None else Prepended(done + [head.value.0], Redrawn(buf[1..], head.value.1))
  {
    var head := FirstAccepted(buf[0], stream);
    if head.Some? {
      PrependedMore(done, head.value.0, Redrawn(buf[1..], head.value.1));
    }
  }

  lemma RedrawnDone(done: seq<Byte>, stream: seq<Byte>)
    ensures Prepended(done, Redrawn([], stream)) == Some(done)
  {
    assert done + [] == done;
  }

  lemma PrependedNone(rest: Option<seq<Byte>>)
    ensures Prepended([], rest) == rest
  {
    if rest.Some? {
      assert [] + rest.value == rest.value;
    }
  }

  lemma SymbolsMore(bytes: seq<Byte>, v: Byte)
    ensures Symbols(bytes + [v]) == Symbols(bytes) + [Symbol(v)]
  {
  }

  function Prepended(front: seq<Byte>, rest: Option<seq<Byte>>): Option<seq<Byte>> {
    if rest.None? then None else Some(front + rest.value)
  }

  lemma PrependedMore(front: seq<Byte>, v: Byte, rest: Option<seq<Byte>>)
    ensures Prepended(front, Prepended([v], rest)) == Prepended(front + [v], rest)
  {
    if rest.Some? {
      assert front + ([v] + rest.value) == front + [v] + rest.value;
    }
  }

  lemma SymbolsAreToken(bytes: seq<Byte>)
    requires |bytes| == TOKEN_LEN
    ensures IsToken(Symbols(bytes))
  {
  }

  /** Nil error exactly for eight alphabet symbols. */
  method Validate(v: string) returns (ok: bool)
    ensures ok <==> IsToken(v)
  {
    hide IsSymbol;
    if |v| != TOKEN_LEN {
      return false;
    }
    for i := 0 to |v|
      invariant forall j :: 0 <= j < i ==> IsSymbol(v[j])
    {
      var member := IsAlphabet(v[i]);
      if !member {
        return false;
      }
    }
    return true;
  }

  method IsAlphabet(c: char) returns (member: bool)
    ensures member <==> IsSymbol(c)
  {
    var alphabet := ALPHABET;
    for i := 0 to |alphabet|
      invariant forall j :: 0 <= j < i ==> alphabet[j] != c
    {
      if alphabet[i] == c {
        return true;
      }
    }
    return false;
  }

  // ---- Uniformity ----

  /** The accepted bytes that map onto one symbol of an alphabet of n symbols. */
  ghost function BytesOf(symbol: nat, n: nat): set<int>
    requires 0 < n <= VALUE_SPACE
  {
    set v | 0 <= v < Reject(n) && v % n == symbol
  }

  lemma {:induction false} Residues(n: nat, symbol: nat, q: nat)
    requires symbol < n
    ensures |set v | 0 <= v < q * n && v % n == symbol| == q
  {
    var below := set v | 0 <= v < q * n && v % n == symbol;
    if q == 0 {
      assert below == {};
    } else {
      Residues(n, symbol, q - 1);
      var less := set v | 0 <= v < (q - 1) * n && v % n == symbol;
      var top := (q - 1) * n + symbol;
      forall v | 0 <= v < q * n && v % n == symbol ensures v in less || v == top {
        LastBlock(n, symbol, q, v);
      }
      LastBlock(n, symbol, q, top);
      assert below == less + {top};
    }
  }

  lemma LastBlock(n: nat, symbol: nat, q: nat, v: int)
    requires symbol < n && q > 0
    ensures (q - 1) * n + symbol < q * n && ((q - 1) * n + symbol) % n == symbol
    ensures 0 <= v < q * n && v % n == symbol && v >= (q - 1) * n ==> v == (q - 1) * n + symbol
    ensures (q - 1) * n <= q * n
  {
    assert q * n == (q - 1) * n + n;
    ModOfMultiple(q - 1, n, symbol);
    if 0 <= v < q * n && v % n == symbol && v >= (q - 1) * n {
      ModOfMultiple(q - 1, n, v - (q - 1) * n);
    }
  }

  lemma ModOfMultiple(k: nat, n: nat, r: nat)
    requires r < n
    ensures (k * n + r) % n == r
  {
    var a := k * n + r;
    var d := a / n - k;
    assert a == n * (a / n) + a % n;
    assert n * d == n * (a / n) - n * k;
    MultipleBounds(n, d);
  }

  lemma MultipleBounds(n: nat, d: int)
    ensures d >= 1 ==> n * d >= n
    ensures d <= -1 ==> n * d + n <= 0
  {
  }

  /** Rejection removes the bias: every symbol is hit by equally many accepted bytes. */
  lemma SymbolsAreUniform(n: nat, symbol: nat)
    requires symbol < n <= VALUE_SPACE
    ensures |BytesOf(symbol, n)| == VALUE_SPACE / n
    ensures Reject(n) == VALUE_SPACE / n * n
  {
    var q := VALUE_SPACE / n;
    assert Reject(n) == q * n;
    Residues(n, symbol, q);
    assert BytesOf(symbol, n) == set v | 0 <= v < q * n && v % n == symbol;
  }

  /** All ways to put an element of `heads` in front of an element of `tails`. */
  ghost function Product<T(!new)>(heads: set<T>, tails: set<seq<T>>): set<seq<T>> {
    set h, t | h in heads && t in tails :: [h] + t
  }

  lemma {:induction false} ProductSize<T(!new)>(heads: set<T>, tails: set<seq<T>>)
    ensures |Product(heads, tails)| == |heads| * |tails|
    decreases |heads|
  {
    if heads == {} {
      assert Product(heads, tails) == {};
    } else {
      var h :| h in heads;
      var rest := heads - {h};
      ProductSize(rest, tails);
      SliceSize(h, tails);
      ProductSplit(h, rest, tails);
      assert heads == rest + {h};
      assert |heads| * |tails| == |rest| * |tails| + |tails|;
    }
  }

  lemma ProductSplit<T(!new)>(h: T, rest: set<T>, tails: set<seq<T>>)
    requires h !in rest
    ensures var slice := set t | t in tails :: [h] + t;
      |Product(rest + {h}, tails)| == |Product(rest, tails)| + |slice|
  {
    var slice := set t | t in tails :: [h] + t;
    assert Product(rest + {h}, tails) == Product(rest, tails) + slice;
    forall s | s in Product(rest, tails) ensures s !in slice {
      assert s[0] in rest;
    }
    assert Product(rest, tails) !! slice;
  }

  lemma {:induction false} SliceSize<T(!new)>(h: T, tails: set<seq<T>>)
    ensures |set t | t in tails :: [h] + t| == |tails|
    decreases |tails|
  {
    var slice := set t | t in tails :: [h] + t;
    if tails == {} {
      assert slice == {};
    } else {
      var t :| t in tails;
      var rest := tails - {t};
      SliceSize(h, rest);
      var less := set u | u in rest :: [h] + u;
      forall u | u in rest ensures [h] + u != [h] + t {
        assert ([h] + u)[1..] == u && ([h] + t)[1..] == t;
      }
      assert slice == less + {[h] + t};
    }
  }

  function Power(b: nat, e: nat): nat {
    if e == 0 then 1 else b * Power(b, e - 1)
  }

  /** The tuples of accepted bytes that spell the given symbols of an alphabet of n symbols. */
  ghost function Spellings(symbols: seq<nat>, n: nat): set<seq<int>>
    requires 0 < n <= VALUE_SPACE
  {
    if symbols == [] then {[]} else Product(BytesOf(symbols[0], n), Spellings(symbols[1..], n))
  }

  lemma {:induction false} SpellingsMembers(symbols: seq<nat>, n: nat, t: seq<int>)
    requires 0 < n <= VALUE_SPACE
    ensures t in Spellings(symbols, n) <==>
      |t| == |symbols| && forall i :: 0 <= i < |t| ==> 0 <= t[i] < Reject(n) && t[i] % n == symbols[i]
  {
    if symbols != [] {
      if t != [] {
        SpellingsMembers(symbols[1..], n, t[1..]);
        assert t == [t[0]] + t[1..];
        if t in Spellings(symbols, n) {
          var h, u :| h in BytesOf(symbols[0], n) && u in Spellings(symbols[1..], n) && t == [h] + u;
          assert u == t[1..];
        }
        if |t| == |symbols| && forall i :: 0 <= i < |t| ==> 0 <= t[i] < Reject(n) && t[i] % n == symbols[i] {
          assert t[0] in BytesOf(symbols[0], n);
          assert t[1..] in Spellings(symbols[1..], n);
        }
      }
    }
  }

  /** Every word over the alphabet has equally many spellings. */
  lemma {:induction false} WordsAreUniform(symbols: seq<nat>, n: nat)
    requires 0 < n <= VALUE_SPACE && forall i :: 0 <= i < |symbols| ==> symbols[i] < n
    ensures |Spellings(symbols, n)| == Power(VALUE_SPACE / n, |symbols|)
  {
    if symbols != [] {
      WordsAreUniform(symbols[1..], n);
      SymbolsAreUniform(n, symbols[0]);
      ProductSize(BytesOf(symbols[0], n), Spellings(symbols[1..], n));
    }
  }

  ghost function IndexIn(c: char, s: string): nat
    requires c in s
    ensures IndexIn(c, s) < |s| && s[IndexIn(c, s)] == c
  {
    var i :| 0 <= i < |s| && s[i] == c;
    i
  }

  ghost function Indices(token: string): (r: seq<nat>)
    requires IsToken(token)
    ensures |r| == |token| == TOKEN_LEN && forall i :: 0 <= i < |r| ==> r[i] < |ALPHABET| && ALPHABET[r[i]] == token[i]
  {
    seq(|token|, i requires 0 <= i < |token| => IndexIn(token[i], ALPHABET))
  }

  /** The tuples of accepted bytes that generation turns into this token. */
  ghost function TuplesOf(token: string): set<seq<int>>
    requires IsToken(token)
  {
    Spellings(Indices(token), |ALPHABET|)
  }

  /** Every token is the outcome of exactly 8^8 tuples of accepted bytes. */
  lemma TokensAreUniform(token: string)
    requires IsToken(token)
    ensures forall t: seq<Byte> :: t in TuplesOf(token) <==> |t| == TOKEN_LEN && Accepted(t) && Symbols(t) == token
    ensures |TuplesOf(token)| == 16777216
  {
    hide Spellings, Power, Symbols, Accepted, IsToken;
    WordsAreUniform(Indices(token), |ALPHABET|);
    EightToTheEighth();
    forall t: seq<Byte> ensures t in TuplesOf(token) <==> |t| == TOKEN_LEN && Accepted(t) && Symbols(t) == token {
      SpellsToken(t, token, Indices(token));
    }
  }

  lemma SpellsToken(t: seq<Byte>, token: string, symbols: seq<nat>)
    requires |symbols| == |token| == TOKEN_LEN
    requires forall i :: 0 <= i < |symbols| ==> symbols[i] < |ALPHABET| && ALPHABET[symbols[i]] == token[i]
    ensures t in Spellings(symbols, |ALPHABET|) <==> |t| == TOKEN_LEN && Accepted(t) && Symbols(t) == token
  {
    SpellingsMembers(symbols, |ALPHABET|, t);
    SameSymbols(t, token, symbols);
    hide Spellings, Symbols;
  }

  lemma EightToTheEighth()
    ensures Power(8, 8) == 16777216
  {
    assert Power(8, 4) == 4096;
    assert Power(8, 8) == 8 * (8 * (8 * (8 * Power(8, 4))));
  }

  ghost predicate Ascends(s: string) {
    forall i {:trigger s[i]} :: 0 < i < |s| ==> s[i - 1] < s[i]
  }

  lemma AlphabetAscends()
    ensures Ascends(ALPHABET)
  {
  }

  lemma {:induction false} AscendsFurther(s: string, i: nat, j: nat)
    requires Ascends(s) && i < j < |s|
    ensures s[i] < s[j]
    decreases j
  {
    assert s[j - 1] < s[j];
    if i < j - 1 {
      AscendsFurther(s, i, j - 1);
    }
  }

  lemma AscendsDistinct(s: string)
    requires Ascends(s)
    ensures forall i, j :: 0 <= i < j < |s| ==> s[i] != s[j]
  {
    forall i, j | 0 <= i < j < |s| ensures s[i] != s[j] {
      AscendsFurther(s, i, j);
    }
  }

  lemma AlphabetDistinct()
    ensures forall i, j :: 0 <= i < j < |ALPHABET| ==> ALPHABET[i] != ALPHABET[j]
  {
    AlphabetAscends();
    hide Ascends;
    AscendsDistinct(ALPHABET);
  }

  lemma SameSymbols(t: seq<Byte>, token: string, symbols: seq<nat>)
    requires |symbols| == |token| == TOKEN_LEN
    requires forall i :: 0 <= i < |symbols| ==> symbols[i] < |ALPHABET| && ALPHABET[symbols[i]] == token[i]
    ensures |t| == TOKEN_LEN ==>
      (Symbols(t) == token <==> forall i :: 0 <= i < |t| ==> t[i] % |ALPHABET| == symbols[i])
  {
    AlphabetDistinct();
    if |t| == TOKEN_LEN {
      forall i | 0 <= i < |t| ensures Symbols(t)[i] == token[i] <==> t[i] % |ALPHABET| == symbols[i] {
      }
    }
  }

  // ---- Finding the token in a prefix ----

  /** The position of the registered label nearest to the zone, or -1. */
  function RightmostRegistered(registered: set<string>, prefix: seq<string>): (k: int)
    ensures -1 <= k < |prefix|
  {
    if prefix == [] then -1
    else if prefix[|prefix| - 1] in registered then |prefix| - 1
    else RightmostRegistered(registered, prefix[..|prefix| - 1])
  }

  lemma {:induction false} RightmostIsNearest(registered: set<string>, prefix: seq<string>)
    ensures var k := RightmostRegistered(registered, prefix);
      (k >= 0 ==> prefix[k] in registered) && forall j :: k < j < |prefix| ==> prefix[j] !in registered
  {
    if prefix != [] && prefix[|prefix| - 1] !in registered {
      RightmostIsNearest(registered, prefix[..|prefix| - 1]);
    }
  }

  lemma RightmostStep(registered: set<string>, prefix: seq<string>, i: nat)
    requires i < |prefix|
    ensures RightmostRegistered(registered, prefix[..i + 1])
         == if prefix[i] in registered then i else RightmostRegistered(registered, prefix[..i])
  {
    assert prefix[..i + 1][..i] == prefix[..i];
  }

  lemma RightmostEnds(registered: set<string>, prefix: seq<string>)
    ensures prefix[..|prefix|] == prefix && RightmostRegistered(registered, prefix[..0]) == -1
  {
  }

  /** The label taken for the token: the registered one nearest to the zone, else the one at the zone. */
  function TokenIndex(registered: set<string>, prefix: seq<string>): (k: nat)
    requires prefix != []
    ensures k < |prefix|
  {
    var k := RightmostRegistered(registered, prefix);
    if k < 0 then |prefix| - 1 else k
  }

  /** The first n labels without the one at position k. */
  function Skipping(prefix: seq<string>, k: nat, n: nat): seq<string>
    requires k < |prefix| && n <= |prefix|
  {
    if n <= k then prefix[..n] else prefix[..k] + prefix[k + 1..n]
  }

  lemma SkipOne(prefix: seq<string>, k: nat, n: nat)
    requires k < |prefix| && n < |prefix|
    ensures Skipping(prefix, k, n + 1)
         == if n == k then Skipping(prefix, k, n) else Skipping(prefix, k, n) + [prefix[n]]
  {
  }

  lemma SkipEnds(prefix: seq<string>, k: nat)
    requires k < |prefix|
    ensures Skipping(prefix, k, 0) == []
    ensures Skipping(prefix, k, |prefix|) == prefix[..k] + prefix[k + 1..]
  {
  }

  method MatchToken(registered: set<string>, prefix: seq<string>) returns (token: string, data: seq<string>)
    ensures prefix == [] ==> token == [] && data == []
    ensures prefix != [] ==>
      var k := TokenIndex(registered, prefix);
      token == prefix[k] && data == prefix[..k] + prefix[k + 1..]
  {
    hide RightmostRegistered, Skipping;
    if |prefix| == 0 {
      return [], [];
    }
    if |prefix| == 1 {
      return prefix[0], [];
    }
    RightmostEnds(registered, prefix);
    var tokenIdx, i := -1, |prefix| - 1;
    while i >= 0
      invariant -1 <= i < |prefix| && tokenIdx == -1
      invariant RightmostRegistered(registered, prefix) == RightmostRegistered(registered, prefix[..i + 1])
    {
      RightmostStep(registered, prefix, i);
      if prefix[i] in registered {
        tokenIdx := i;
        break;
      }
      i := i - 1;
    }
    if tokenIdx < 0 {
      tokenIdx := |prefix| - 1;
    }
    SkipEnds(prefix, tokenIdx);
    data := [];
    for n := 0 to |prefix|
      invariant data == Skipping(prefix, tokenIdx, n)
    {
      SkipOne(prefix, tokenIdx, n);
      if n != tokenIdx {
        data := data + [prefix[n]];
      }
    }
    return prefix[tokenIdx], data;
  }

  /** A label is taken for the token exactly when it is registered and none nearer to the zone is, or
      when it stands at the zone and nothing is registered. */
  lemma TokenIndexExact(registered: set<string>, left: seq<string>, token: string, right: seq<string>)
    ensures TokenIndex(registered, left + [token] + right) == |left| <==>
      || (token in registered && forall l :: l in right ==> l !in registered)
      || (right == [] && forall l :: l in left + [token] ==> l !in registered)
  {
    var prefix := left + [token] + right;
    RightmostIsNearest(registered, prefix);
    assert prefix[|left|] == token;
    assert forall j :: 0 <= j < |right| ==> right[j] == prefix[|left| + 1 + j];
    assert forall j :: 0 <= j < |left| ==> left[j] == prefix[j];
  }
}
