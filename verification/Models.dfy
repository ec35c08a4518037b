/** The records shared by the stores, the event bus and the collectors. */
module Models {

  datatype Option<+T> = None | Some(value: T)

  /** Time in nanoseconds since the zero instant, so the zero time is 0. */
  type Time = int

  /** One callback event. Strings are sequences of bytes. */
  datatype Interaction = Interaction(
    id: int,
    token: string,
    domainId: int,
    kind: string,
    srcIP: string,
    httpMethod: string,
    path: string,
    qname: string,
    qtype: string,
    body: string,
    createdAt: Time)

  const DNS := "dns"
  const HTTP := "http"

  datatype StoreError = NotFound | Conflict | Validation | Cancelled

  /** The query parameters of a listing. `scope` is the ownership scope: None means no scoping,
      while an empty scope hides everything. */
  datatype InteractionFilter = InteractionFilter(
    token: string,
    scope: Option<seq<string>>,
    kind: string,
    srcIP: string,
    domainId: int,
    start: Option<Time>,
    end: Option<Time>,
    limit: int,
    offset: int)

  /** Ids grow strictly along rows. */
  ghost predicate Increasing(rows: seq<Interaction>) {
    forall i, j :: 0 <= i < j < |rows| ==> rows[i].id < rows[j].id
  }

  lemma IncreasingParts(older: seq<Interaction>, newer: seq<Interaction>)
    requires Increasing(older + newer)
    ensures Increasing(older) && Increasing(newer)
    ensures forall a, b :: a in older && b in newer ==> a.id < b.id
  {
    var all := older + newer;
    assert forall i :: 0 <= i < |older| ==> older[i] == all[i];
    assert forall j :: 0 <= j < |newer| ==> newer[j] == all[|older| + j];
  }

  lemma IncreasingJoin(older: seq<Interaction>, newer: seq<Interaction>)
    requires Increasing(older) && Increasing(newer)
    requires forall a, b :: a in older && b in newer ==> a.id < b.id
    ensures Increasing(older + newer)
  {
    var all := older + newer;
    forall i, j | 0 <= i < j < |all| ensures all[i].id < all[j].id {
      if i < |older| <= j {
        assert older[i] in older && newer[j - |older|] in newer;
      }
    }
  }

  lemma SameIdSameRow(rows: seq<Interaction>)
    requires Increasing(rows)
    ensures forall a, b :: a in rows && b in rows && a.id == b.id ==> a == b
  {
  }

  function Ids(rows: seq<Interaction>): set<int> {
    set iv | iv in rows :: iv.id
  }
}
