/** Host names as text and as label sequences. Names are ASCII; case folding is that of RFC 4343. */
module Names {

  predicate IsSpace(c: char) {
    c == ' ' || '\t' <= c <= '\r'
  }

  function LowerChar(c: char): char {
    if 'A' <= c <= 'Z' then c - 'A' + 'a' else c
  }

  function ToLower(s: string): (r: string)
    ensures |r| == |s|
  {
    seq(|s|, i requires 0 <= i < |s| => LowerChar(s[i]))
  }

  function TrimSpace(s: string): string {
    if s == [] then []
    else if IsSpace(s[0]) then TrimSpace(s[1..])
    else if IsSpace(s[|s| - 1]) then TrimSpace(s[..|s| - 1])
    else s
  }

  function Normalize(s: string): string {
    ToLower(TrimSpace(s))
  }

  /** Removes one trailing dot. */
  function TrimDot(s: string): string {
    if s != [] && s[|s| - 1] == '.' then s[..|s| - 1] else s
  }

  /** The pieces between dots; there is always at least one. */
  function Split(s: string): (labels: seq<string>)
    ensures labels != []
  {
    if s == [] then [[]]
    else
      var rest := Split(s[1..]);
      if s[0] == '.' then [[]] + rest else [[s[0]] + rest[0]] + rest[1..]
  }

  function Join(labels: seq<string>): string
    requires labels != []
  {
    if |labels| == 1 then labels[0] else labels[0] + "." + Join(labels[1..])
  }

  function SplitLabels(name: string): seq<string> {
    var trimmed := TrimDot(name);
    if trimmed == [] then [] else Split(trimmed)
  }

  /** A label as it may appear inside a host: lower case, no dot, colon, space or bracket, not empty. */
  predicate IsLabel(lab: string) {
    && lab != []
    && forall i :: 0 <= i < |lab| ==> PlainChar(lab[i])
  }

  predicate PlainChar(c: char) {
    c != '.' && c != ':' && c != '[' && !IsSpace(c) && !('A' <= c <= 'Z')
  }

  lemma {:induction false} JoinSplit(s: string)
    ensures Join(Split(s)) == s
  {
    if s != [] {
      JoinSplit(s[1..]);
      var rest := Split(s[1..]);
      if s[0] == '.' {
        assert ([[]] + rest)[1..] == rest;
      } else if |rest| > 1 {
        assert ([[s[0]] + rest[0]] + rest[1..])[1..] == rest[1..];
      }
    }
  }

  lemma {:induction false} SplitPlain(lab: string)
    requires '.' !in lab
    ensures Split(lab) == [lab]
  {
    if lab != [] {
      SplitPlain(lab[1..]);
      assert [lab[0]] + lab[1..] == lab;
    }
  }

  lemma {:induction false} SplitCons(lab: string, rest: string)
    requires '.' !in lab
    ensures Split(lab + "." + rest) == [lab] + Split(rest)
  {
    var s := lab + "." + rest;
    if lab == [] {
      assert s[1..] == rest;
    } else {
      SplitCons(lab[1..], rest);
      assert s[1..] == lab[1..] + "." + rest;
      assert [lab[0]] + lab[1..] == lab;
    }
  }

  /** Splitting undoes joining, for any labels without dots, empty ones included. */
  lemma {:induction false} SplitJoin(labels: seq<string>)
    requires labels != [] && forall l :: l in labels ==> '.' !in l
    ensures Split(Join(labels)) == labels
  {
    assert labels[0] in labels;
    if |labels| == 1 {
      SplitPlain(labels[0]);
      assert labels == [labels[0]];
    } else {
      SplitJoin(labels[1..]);
      SplitCons(labels[0], Join(labels[1..]));
    }
  }

  predicate Plain(s: string) {
    forall i :: 0 <= i < |s| ==> PlainChar(s[i]) || s[i] == '.'
  }

  lemma {:induction false} JoinPlain(labels: seq<string>)
    requires labels != [] && forall l :: l in labels ==> IsLabel(l)
    ensures Plain(Join(labels)) && Join(labels) != []
    ensures PlainChar(Join(labels)[0]) && PlainChar(Join(labels)[|Join(labels)| - 1])
  {
    assert labels[0] in labels;
    if |labels| > 1 {
      JoinPlain(labels[1..]);
    }
  }

  lemma NormalizePlain(s: string)
    requires Plain(s)
    ensures Normalize(s) == s
  {
    if s != [] {
      assert !IsSpace(s[0]) && !IsSpace(s[|s| - 1]);
    }
    assert TrimSpace(s) == s;
    forall i | 0 <= i < |s| ensures ToLower(s)[i] == s[i] {
    }
  }

  lemma {:induction false} TrimThenLower(s: string)
    ensures ToLower(TrimSpace(s)) == TrimSpace(ToLower(s))
    decreases |s|
  {
    if s != [] {
      assert ToLower(s)[1..] == ToLower(s[1..]) && ToLower(s)[..|s| - 1] == ToLower(s[..|s| - 1]);
      if IsSpace(s[0]) {
        TrimThenLower(s[1..]);
      } else if IsSpace(s[|s| - 1]) {
        TrimThenLower(s[..|s| - 1]);
      }
    }
  }

  // ---- Case and spaces, character by character ----

  /** The same letter, but possibly one a capital and the other not. */
  ghost predicate SameButCase(a: char, b: char) {
    || a == b
    || ('A' <= a <= 'Z' && b as int == a as int + 32)
    || ('A' <= b <= 'Z' && a as int == b as int + 32)
  }

  ghost predicate CaseVariants(a: string, b: string) {
    |a| == |b| && forall i :: 0 <= i < |a| ==> SameButCase(a[i], b[i])
  }

  /** Names fold alike exactly when they differ in case only. */
  lemma LowerTellsCase(a: string, b: string)
    ensures ToLower(a) == ToLower(b) <==> CaseVariants(a, b)
  {
    if ToLower(a) == ToLower(b) {
      assert |a| == |b|;
      forall i | 0 <= i < |a| ensures SameButCase(a[i], b[i]) {
        assert ToLower(a)[i] == LowerChar(a[i]) && ToLower(b)[i] == LowerChar(b[i]);
      }
    }
    if CaseVariants(a, b) {
      forall i | 0 <= i < |a| ensures ToLower(a)[i] == ToLower(b)[i] {
        assert SameButCase(a[i], b[i]);
      }
    }
  }

  /** Names that differ only in case are the same name. */
  lemma CaseDoesNotMatter(a: string, b: string)
    requires CaseVariants(a, b)
    ensures Normalize(a) == Normalize(b) && SplitLabels(Normalize(a)) == SplitLabels(Normalize(b))
  {
    LowerTellsCase(a, b);
    TrimThenLower(a);
    TrimThenLower(b);
  }

  /** A blank: horizontal or vertical tab, line or form feed, carriage return, or space. */
  ghost predicate IsBlank(c: char) {
    c as int in {9, 10, 11, 12, 13, 32}
  }

  /** No blank at either end. */
  ghost predicate Unpadded(s: string) {
    s != [] ==> !IsBlank(s[0]) && !IsBlank(s[|s| - 1])
  }

  lemma UnpaddedStays(s: string)
    requires Unpadded(s)
    ensures TrimSpace(s) == s
  {
  }

  /** Without blanks around them, names are the same name only if they differ in case only. */
  lemma OnlyCaseDoesNotMatter(a: string, b: string)
    requires Unpadded(a) && Unpadded(b)
    ensures Normalize(a) == Normalize(b) <==> CaseVariants(a, b)
  {
    UnpaddedStays(a);
    UnpaddedStays(b);
    LowerTellsCase(a, b);
  }

  /** Blanks around a name do not belong to it, blanks inside do. */
  lemma {:induction false} BlanksAroundDoNotMatter(left: string, s: string, right: string)
    requires Unpadded(s)
    requires (forall c :: c in left ==> IsBlank(c)) && (forall c :: c in right ==> IsBlank(c))
    ensures TrimSpace(left + s + right) == s && Normalize(left + s + right) == Normalize(s)
    decreases |left| + |right|
  {
    UnpaddedStays(s);
    var all := left + s + right;
    if left != [] {
      BlanksAroundDoNotMatter(left[1..], s, right);
      assert left[0] in left && all[0] == left[0] && all[1..] == left[1..] + s + right;
    } else if right != [] {
      var n := |right| - 1;
      BlanksAroundDoNotMatter(left, s, right[..n]);
      assert right[n] in right && all[|all| - 1] == right[n] && all[..|all| - 1] == left + s + right[..n];
      TrimEnd(all);
    } else {
      assert all == s;
    }
  }

  /** A blank at the end goes, whatever stands in front. */
  lemma {:induction false} TrimEnd(s: string)
    requires s != [] && IsBlank(s[|s| - 1])
    ensures TrimSpace(s) == TrimSpace(s[..|s| - 1])
    decreases |s|
  {
    if |s| > 1 && IsBlank(s[0]) {
      TrimEnd(s[1..]);
      assert s[1..][..|s| - 2] == s[..|s| - 1][1..];
    }
  }

  /** A normalized name holds no capital. */
  lemma NormalizedIsLower(s: string)
    ensures forall c :: c in Normalize(s) ==> !('A' <= c <= 'Z')
  {
    var t := TrimSpace(s);
    assert forall i :: 0 <= i < |t| ==> ToLower(t)[i] == LowerChar(t[i]);
  }

  /** One dot at the end, and no more than one, is not a label boundary. */
  lemma OneDotIsTrimmed(s: string)
    ensures TrimDot(s + ".") == s
    ensures (s == [] || s[|s| - 1] != '.') ==> TrimDot(s) == s
    ensures SplitLabels("") == [] && SplitLabels(".") == []
  {
  }

  /** The plain form of a host and the form with a trailing dot name the same labels. */
  lemma HostLabels(labels: seq<string>)
    requires labels != [] && forall l :: l in labels ==> IsLabel(l)
    ensures SplitLabels(Normalize(Join(labels))) == labels
    ensures SplitLabels(Normalize(Join(labels) + ".")) == labels
  {
    var host := Join(labels);
    JoinPlain(labels);
    assert forall l :: l in labels ==> '.' !in l;
    SplitJoin(labels);
    NormalizePlain(host);
    NormalizePlain(host + ".");
    assert TrimDot(host + ".") == host;
  }

  /** Two names with the same labels differ at most in a trailing dot. */
  lemma SameLabels(a: string, b: string)
    requires SplitLabels(a) == SplitLabels(b)
    ensures TrimDot(a) == TrimDot(b)
  {
    JoinSplit(TrimDot(a));
    JoinSplit(TrimDot(b));
  }
}
