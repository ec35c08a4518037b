/** Sorting by a strict order, standing for the library's sort. */
module Sorting {

  ghost predicate Sorted<T>(before: (T, T) -> bool, s: seq<T>) {
    forall i, j :: 0 <= i < j < |s| ==> before(s[i], s[j])
  }

  /** Any two different elements are ordered one way or the other, but not both, and the order chains. */
  ghost predicate OrderedOn<T(!new)>(before: (T, T) -> bool, elements: set<T>) {
    && (forall x, y :: before(x, y) ==> !before(y, x))
    && (forall x, y, z :: before(x, y) && before(y, z) ==> before(x, z))
    && (forall x, y :: x in elements && y in elements && x != y ==> before(x, y) || before(y, x))
  }

  function Insert<T>(before: (T, T) -> bool, x: T, s: seq<T>): seq<T> {
    if s == [] || before(x, s[0]) then [x] + s else [s[0]] + Insert(before, x, s[1..])
  }

  function SortBy<T>(before: (T, T) -> bool, s: seq<T>): seq<T> {
    if s == [] then [] else Insert(before, s[0], SortBy(before, s[1..]))
  }

  lemma {:induction false} InsertMembers<T>(before: (T, T) -> bool, x: T, s: seq<T>)
    ensures |Insert(before, x, s)| == |s| + 1
    ensures forall y :: y in Insert(before, x, s) <==> y == x || y in s
  {
    if s != [] && !before(x, s[0]) {
      InsertMembers(before, x, s[1..]);
      assert s == [s[0]] + s[1..];
    }
  }

  lemma {:induction false} InsertSorted<T(!new)>(before: (T, T) -> bool, x: T, s: seq<T>, elements: set<T>)
    requires OrderedOn(before, elements) && x in elements && x !in s
    requires Sorted(before, s) && forall y :: y in s ==> y in elements
    ensures Sorted(before, Insert(before, x, s))
  {
    if s != [] && !before(x, s[0]) {
      InsertSorted(before, x, s[1..], elements);
      InsertMembers(before, x, s[1..]);
      var rest := Insert(before, x, s[1..]);
      forall j | 0 <= j < |rest| ensures before(s[0], rest[j]) {
        assert rest[j] in rest;
      }
    }
  }

  ghost predicate NoRepeats<T>(s: seq<T>) {
    forall i, j :: 0 <= i < j < |s| ==> s[i] != s[j]
  }

  lemma {:induction false} SortByMembers<T>(before: (T, T) -> bool, s: seq<T>)
    ensures |SortBy(before, s)| == |s|
    ensures forall y :: y in SortBy(before, s) <==> y in s
  {
    if s != [] {
      SortByMembers(before, s[1..]);
      InsertMembers(before, s[0], SortBy(before, s[1..]));
      assert s == [s[0]] + s[1..];
    }
  }

  /** The result is in order. */
  lemma {:induction false} SortBySorted<T(!new)>(before: (T, T) -> bool, s: seq<T>, elements: set<T>)
    requires OrderedOn(before, elements) && NoRepeats(s) && forall y :: y in s ==> y in elements
    ensures Sorted(before, SortBy(before, s))
  {
    if s != [] {
      SortBySorted(before, s[1..], elements);
      SortByMembers(before, s[1..]);
      InsertSorted(before, s[0], SortBy(before, s[1..]), elements);
    }
  }

  /** There is only one way to put given elements in order, so the sorting algorithm does not matter. */
  lemma {:induction false} SortedUnique<T>(before: (T, T) -> bool, a: seq<T>, b: seq<T>)
    requires forall x, y :: before(x, y) ==> !before(y, x)
    requires Sorted(before, a) && Sorted(before, b)
    requires forall x :: x in a <==> x in b
    ensures a == b
  {
    assert (a != [] ==> a[0] in a) && (b != [] ==> b[0] in b);
    if a != [] {
      assert a[0] == b[0];
      forall x ensures x in a[1..] <==> x in b[1..] {
        TailMember(before, a, x);
        TailMember(before, b, x);
      }
      SortedUnique(before, a[1..], b[1..]);
    }
  }

  lemma TailMember<T>(before: (T, T) -> bool, s: seq<T>, x: T)
    requires forall x, y :: before(x, y) ==> !before(y, x)
    requires Sorted(before, s) && s != []
    ensures x in s[1..] <==> x in s && x != s[0]
  {
    assert s == [s[0]] + s[1..];
  }

  /** No element stands behind one that it comes before. */
  ghost predicate NoneBefore<T>(before: (T, T) -> bool, s: seq<T>) {
    forall i, j :: 0 <= i < j < |s| ==> !before(s[j], s[i])
  }

  /** The elements fall into ranks: elements of one rank are in neither order. */
  ghost predicate Ranks<T(!new)>(before: (T, T) -> bool) {
    && (forall x, y :: before(x, y) ==> !before(y, x))
    && (forall x, y, z :: !before(x, y) && !before(y, z) ==> !before(x, z))
  }

  lemma {:induction false} InsertNoneBefore<T(!new)>(before: (T, T) -> bool, x: T, s: seq<T>)
    requires Ranks(before) && NoneBefore(before, s)
    ensures NoneBefore(before, Insert(before, x, s))
  {
    if s != [] && !before(x, s[0]) {
      InsertNoneBefore(before, x, s[1..]);
      InsertMembers(before, x, s[1..]);
      var rest := Insert(before, x, s[1..]);
      forall j | 0 <= j < |rest| ensures !before(rest[j], s[0]) {
        assert rest[j] in rest;
      }
    }
  }

  /** Where the order leaves ties, the result is in order up to ties. */
  lemma {:induction false} SortByNoneBefore<T(!new)>(before: (T, T) -> bool, s: seq<T>)
    requires Ranks(before)
    ensures NoneBefore(before, SortBy(before, s))
  {
    if s != [] {
      SortByNoneBefore(before, s[1..]);
      InsertNoneBefore(before, s[0], SortBy(before, s[1..]));
    }
  }
}
