/** Users, tokens and refresh tokens, and the secondary indexes that lead from a unique key to a record. */
module Accounts {
  import opened Models

  datatype User = User(id: int, username: string, email: string, passwordHash: string, role: string,
                       status: string, lastLoginAt: Time, createdAt: Time, updatedAt: Time)

  datatype TokenStatus = Unset | Active | Expired | Revoked

  datatype Token = Token(id: int, value: string, domainId: int, userId: int, projectId: int,
                         status: TokenStatus, expiresAt: Time, createdAt: Time, note: string)

  datatype RefreshToken = RefreshToken(id: int, userId: int, hash: string, expiresAt: Time,
                                       revokedAt: Option<Time>, createdAt: Time)

  const DAY: Time := 86_400_000_000_000

  function UsernameOf(u: User): string { u.username }
  function EmailOf(u: User): string { u.email }
  function ValueOf(t: Token): string { t.value }
  function HashOf(rt: RefreshToken): string { rt.hash }

  /** A key that is not indexed: the empty one, where records may do without. */
  predicate Unindexed(key: string, optional: bool) {
    optional && key == ""
  }

  /** The index is the exact inverse of the key: it leads from each key in use to the one record that has
      it, and from nothing else. */
  ghost predicate ExactIndex<R(!new)>(table: map<int, R>, index: map<string, int>, keyOf: R -> string, optional: bool) {
    && (forall k :: k in index ==> index[k] in table && keyOf(table[index[k]]) == k && !Unindexed(k, optional))
    && (forall id :: id in table && !Unindexed(keyOf(table[id]), optional) ==>
          keyOf(table[id]) in index && index[keyOf(table[id])] == id)
  }

  /** No two records share a key. */
  ghost predicate UniqueKeys<R(!new)>(table: map<int, R>, keyOf: R -> string) {
    forall a, b :: a in table && b in table && keyOf(table[a]) == keyOf(table[b]) ==> a == b
  }

  /** Some record has this key. */
  ghost predicate InUse<R(!new)>(table: map<int, R>, keyOf: R -> string, key: string) {
    exists id :: id in table && keyOf(table[id]) == key
  }

  function Inserted<R>(index: map<string, int>, key: string, id: int, optional: bool): map<string, int> {
    if Unindexed(key, optional) then index else index[key := id]
  }

  lemma IndexTellsUse<R(!new)>(table: map<int, R>, index: map<string, int>, keyOf: R -> string, optional: bool,
                               key: string)
    requires ExactIndex(table, index, keyOf, optional) && !Unindexed(key, optional)
    ensures key in index <==> InUse(table, keyOf, key)
  {
    if key in index {
      var id := index[key];
      assert id in table && keyOf(table[id]) == key;
    }
  }

  lemma InsertKeepsIndex<R(!new)>(table: map<int, R>, index: map<string, int>, keyOf: R -> string,
                                    optional: bool, id: int, r: R)
    requires ExactIndex(table, index, keyOf, optional) && id !in table
    requires keyOf(r) !in index
    ensures ExactIndex(table[id := r], Inserted<R>(index, keyOf(r), id, optional), keyOf, optional)
  {
  }

  lemma RemoveKeepsIndex<R(!new)>(table: map<int, R>, index: map<string, int>, keyOf: R -> string, optional: bool,
                                  id: int)
    requires ExactIndex(table, index, keyOf, optional) && id in table
    ensures ExactIndex(table - {id}, index - {keyOf(table[id])}, keyOf, optional)
  {
  }

  /** Replacing a record under its id moves its key. */
  lemma ReplaceKeepsIndex<R(!new)>(table: map<int, R>, index: map<string, int>, keyOf: R -> string,
                                    optional: bool, id: int, r: R)
    requires ExactIndex(table, index, keyOf, optional) && id in table
    requires keyOf(r) in index ==> keyOf(r) == keyOf(table[id])
    ensures ExactIndex(table[id := r], Inserted<R>(index - {keyOf(table[id])}, keyOf(r), id, optional), keyOf, optional)
  {
    RemoveKeepsIndex(table, index, keyOf, optional, id);
    InsertKeepsIndex(table - {id}, index - {keyOf(table[id])}, keyOf, optional, id, r);
    assert (table - {id})[id := r] == table[id := r];
  }

  lemma IndexedKeysAreUnique<R(!new)>(table: map<int, R>, index: map<string, int>, keyOf: R -> string)
    requires ExactIndex(table, index, keyOf, false)
    ensures UniqueKeys(table, keyOf)
  {
    forall a, b | a in table && b in table && keyOf(table[a]) == keyOf(table[b]) ensures a == b {
      KeysAreUnique(table, index, keyOf, false, a, b);
    }
  }

  /** No two records share an indexed key. */
  lemma KeysAreUnique<R(!new)>(table: map<int, R>, index: map<string, int>, keyOf: R -> string,
                               optional: bool, a: int, b: int)
    requires ExactIndex(table, index, keyOf, optional) && a in table && b in table
    requires keyOf(table[a]) == keyOf(table[b]) && !Unindexed(keyOf(table[a]), optional)
    ensures a == b
  {
    assert index[keyOf(table[a])] == a;
  }

  function OfUser(userId: int): Token -> bool {
    (t: Token) => t.userId == userId
  }

  /** Newest first; tokens of one time are left in any order. */
  function CreatedLater(a: Token, b: Token): bool {
    a.createdAt > b.createdAt
  }

  /** Newest first, then by id. */
  function CreatedLaterById(a: Token, b: Token): bool {
    a.createdAt > b.createdAt || (a.createdAt == b.createdAt && a.id > b.id)
  }

  function HasValue(value: string): Token -> bool {
    (t: Token) => t.value == value
  }

  /** Tokens that expired more than `grace` ago and have been marked so. */
  function Purged(now: Time, grace: Time): Token -> bool {
    (t: Token) => t.status == Expired && now - grace > t.expiresAt
  }

  /** Refresh tokens that have expired, or were revoked more than a day ago. */
  function Stale(now: Time): RefreshToken -> bool {
    (rt: RefreshToken) => now > rt.expiresAt || (rt.revokedAt.Some? && now - rt.revokedAt.value > DAY)
  }

  /** The ids of the records that satisfy a test. */
  ghost function Chosen<R>(table: map<int, R>, test: R -> bool): set<int> {
    set id | id in table && test(table[id])
  }

  /** Which tokens a purge leaves. */
  lemma PurgedInFields(tokens: map<int, Token>, now: Time, grace: Time)
    ensures var left := tokens - Chosen(tokens, Purged(now, grace));
      forall id :: id in left <==>
        id in tokens && !(tokens[id].status == Expired && tokens[id].expiresAt < now - grace)
  {
  }

  /** Which refresh tokens stay: those not expired, and not revoked more than a day ago. */
  lemma StaleInFields(refresh: map<int, RefreshToken>, now: Time)
    ensures var left := refresh - Chosen(refresh, Stale(now));
      forall id :: id in left <==>
        id in refresh && !(refresh[id].expiresAt < now)
        && !(refresh[id].revokedAt.Some? && refresh[id].revokedAt.value < now - 86_400_000_000_000)
  {
  }

  /** One visit of a loop that removes the records in `gone`: `id` has been taken off the list. */
  lemma SweepStep<R(!new)>(was: map<int, R>, table: map<int, R>, gone: set<int>, todo: set<int>, id: int)
    requires table == was - (gone - todo) && todo <= table.Keys && id in todo
    ensures id in table && table[id] == was[id]
    ensures todo - {id} <= (table - {id}).Keys
    ensures (if id in gone then table - {id} else table) == was - (gone - (todo - {id}))
    ensures |table - {id}| == |table| - 1
  {
    assert (table - {id}).Keys == table.Keys - {id};
    assert |table.Keys - {id}| == |table.Keys| - 1;
  }

  lemma SweepEnds<R>(was: map<int, R>, gone: set<int>)
    requires gone <= was.Keys
    ensures was - (gone - was.Keys) == was && was - (gone - {}) == was - gone
  {
    assert gone - {} == gone;
  }

  /** Any element of a set: the order in which a map is ranged over is not fixed. */
  method Choose<T(==)>(s: set<T>) returns (x: T)
    requires s != {}
    ensures x in s
  {
    x :| x in s;
  }

  ghost predicate Holds<R(!new)>(table: map<int, R>, r: R) {
    exists id :: id in table && table[id] == r
  }

  /** Visits every record, in any order, and collects those that satisfy the test. */
  method Collect<R(==,!new)>(table: map<int, R>, test: R -> bool) returns (out: seq<R>)
    ensures forall r :: r in out <==> Holds(table, r) && test(r)
    ensures |out| == |Chosen(table, test)|
  {
    hide Selected;
    out := [];
    var todo := table.Keys;
    ghost var done: set<int> := {};
    SelectedNone(table, test, done);
    while todo != {}
      invariant done + todo == table.Keys && done !! todo
      invariant Selected(table, test, done, out)
      decreases todo
    {
      var id := Choose(todo);
      SelectedMore(table, test, done, out, id);
      if test(table[id]) {
        out := out + [table[id]];
      }
      todo, done := todo - {id}, done + {id};
    }
    assert done == table.Keys;
    SelectedAll(table, test, out);
  }

  /** The records under the ids in `done` that satisfy the test, once for each id. */
  ghost predicate Selected<R(!new)>(table: map<int, R>, test: R -> bool, done: set<int>, out: seq<R>) {
    && |out| == |set id | id in done && id in table && test(table[id])|
    && forall r :: r in out <==> exists id :: id in done && id in table && table[id] == r && test(r)
  }

  lemma SelectedNone<R(!new)>(table: map<int, R>, test: R -> bool, none: set<int>)
    requires none == {}
    ensures Selected(table, test, none, [])
  {
    assert (set id | id in none && id in table && test(table[id])) == {};
  }

  lemma SelectedMore<R(!new)>(table: map<int, R>, test: R -> bool, done: set<int>, out: seq<R>, id: int)
    requires Selected(table, test, done, out) && id in table && id !in done
    ensures Selected(table, test, done + {id}, if test(table[id]) then out + [table[id]] else out)
  {
    var was := set i | i in done && i in table && test(table[i]);
    var now := set i | i in done + {id} && i in table && test(table[i]);
    assert now == if test(table[id]) then was + {id} else was;
  }

  lemma SelectedAll<R(!new)>(table: map<int, R>, test: R -> bool, out: seq<R>)
    requires Selected(table, test, table.Keys, out)
    ensures forall r :: r in out <==> Holds(table, r) && test(r)
    ensures |out| == |Chosen(table, test)|
  {
    assert (set id | id in table.Keys && id in table && test(table[id])) == Chosen(table, test);
  }

  /** Visits every record, in any order, and deletes those that satisfy the test, with their keys. */
  method Sweep<R(!new)>(was: map<int, R>, wasIndex: map<string, int>, keyOf: R -> string, ghost idOf: R -> int,
                        ghost lastId: int, test: R -> bool)
    returns (table: map<int, R>, index: map<string, int>, n: nat)
    requires Consistent(was, wasIndex, keyOf, idOf, lastId)
    ensures Consistent(table, index, keyOf, idOf, lastId)
    ensures table == was - Chosen(was, test)
    ensures n == |was| - |table|
  {
    hide Consistent;
    table, index, n := was, wasIndex, 0;
    var todo := was.Keys;
    ghost var gone := Chosen(was, test);
    SweepEnds(was, gone);
    while todo != {}
      invariant Consistent(table, index, keyOf, idOf, lastId)
      invariant table == was - (gone - todo) && todo <= table.Keys
      invariant n == |was| - |table|
      decreases todo
    {
      var id := Choose(todo);
      SweepStep(was, table, gone, todo, id);
      todo := todo - {id};
      if test(table[id]) {
        RemoveKeepsConsistent(table, index, keyOf, idOf, lastId, id);
        index := index - {keyOf(table[id])};
        table := table - {id};
        n := n + 1;
      }
    }
  }

  /** The e-mail index after a user's address has changed. */
  function EmailMoved(byEmail: map<string, int>, was: string, now: string, id: int): map<string, int> {
    var left := if was != "" then byEmail - {was} else byEmail;
    if now != "" then left[now := id] else left
  }

  lemma UserIndexesAfterUpdate(users: map<int, User>, byUsername: map<string, int>, byEmail: map<string, int>,
                               id: int, changed: User)
    requires ExactIndex(users, byUsername, UsernameOf, false) && ExactIndex(users, byEmail, EmailOf, true)
    requires id in users
    requires changed.username in byUsername ==> changed.username == users[id].username
    requires changed.email != "" && changed.email in byEmail ==> changed.email == users[id].email
    ensures ExactIndex(users[id := changed], (byUsername - {users[id].username})[changed.username := id],
                       UsernameOf, false)
    ensures ExactIndex(users[id := changed], EmailMoved(byEmail, users[id].email, changed.email, id), EmailOf, true)
  {
    assert byEmail - {""} == byEmail;
    ReplaceKeepsIndex(users, byUsername, UsernameOf, false, id, changed);
    ReplaceKeepsIndex(users, byEmail, EmailOf, true, id, changed);
  }

  ghost predicate SelfIds<R(!new)>(table: map<int, R>, idOf: R -> int, lastId: int) {
    forall id :: id in table ==> idOf(table[id]) == id <= lastId
  }

  /** A table whose key is never empty, with its index. */
  ghost predicate Consistent<R(!new)>(table: map<int, R>, index: map<string, int>, keyOf: R -> string,
                                        idOf: R -> int, lastId: int) {
    ExactIndex(table, index, keyOf, false) && SelfIds(table, idOf, lastId)
  }

  lemma ConsistentParts<R(!new)>(table: map<int, R>, index: map<string, int>, keyOf: R -> string, idOf: R -> int,
                                 lastId: int)
    ensures Consistent(table, index, keyOf, idOf, lastId)
       <==> ExactIndex(table, index, keyOf, false) && SelfIds(table, idOf, lastId)
  {
  }

  lemma RemoveKeepsConsistent<R(!new)>(table: map<int, R>, index: map<string, int>, keyOf: R -> string, idOf: R -> int,
                                       lastId: int, id: int)
    requires Consistent(table, index, keyOf, idOf, lastId) && id in table
    ensures Consistent(table - {id}, index - {keyOf(table[id])}, keyOf, idOf, lastId)
  {
    RemoveKeepsIndex(table, index, keyOf, false, id);
  }

  lemma InsertKeepsIds<R(!new)>(table: map<int, R>, idOf: R -> int, lastId: int, id: int, r: R)
    requires SelfIds(table, idOf, lastId) && idOf(r) == id <= lastId
    ensures SelfIds(table[id := r], idOf, lastId)
  {
  }

  lemma LaterIdIsNew<R(!new)>(table: map<int, R>, idOf: R -> int, lastId: int)
    requires SelfIds(table, idOf, lastId)
    ensures lastId + 1 !in table && SelfIds(table, idOf, lastId + 1)
  {
  }

  lemma SelfId<R(!new)>(table: map<int, R>, idOf: R -> int, lastId: int, id: int)
    requires SelfIds(table, idOf, lastId) && id in table
    ensures idOf(table[id]) == id <= lastId
  {
  }

  lemma UnindexedNotIn<R(!new)>(table: map<int, R>, index: map<string, int>, keyOf: R -> string, optional: bool,
                                key: string)
    requires ExactIndex(table, index, keyOf, optional)
    ensures Unindexed(key, optional) ==> key !in index && index - {key} == index
  {
  }

  function UserId(u: User): int { u.id }
  function TokenId(t: Token): int { t.id }
  function RefreshId(rt: RefreshToken): int { rt.id }
}
