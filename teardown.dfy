/**
 * removeData and its helpers: what deleting one row by its business key
 * does, what the find-then-remove loops leave behind, and the round trip
 * from an empty store through prepareData and removeData.
 */
module Teardown {
  import opened Wrappers
  import opened Schema
  import opened Names
  import opened Counts
  import opened Workload
  import opened Populate
  import opened Grants
  import opened Prepare

  /** Does membership m name row `id` of table e? (Resources have no memberships.) */
  predicate MemberOf(m: (int, int), e: Entity, id: int) {
    match e
    case UserEntity => m.0 == id
    case GroupEntity => m.1 == id
    case ResourceEntity => false
  }

  /** The keys of a list, as a set. */
  function KeySet(keys: seq<string>): set<string> {
    set k | k in keys
  }

  /** No key is listed twice. */
  predicate Distinct(keys: seq<string>) {
    forall i, j :: 0 <= i < j < |keys| ==> keys[i] != keys[j]
  }

  /** Deleting by id removes exactly the one key when ids are unique. */
  lemma RowsWithoutKey(m: map<string, int>, key: string)
    requires key in m && IdsUnique(m)
    ensures RowsWithout(m, m[key]) == m - {key}
  {
  }

  /**
   * removeUser / removeGroup / removeResource: a key that is not a row is
   * `sql.ErrNoRows` and nothing changes; otherwise the row is gone, and so
   * is every membership and every ACE that named its id and nothing else.
   */
  lemma RemoveRowSpec(t: Tables, e: Entity, key: string)
    requires Constrained(t)
    ensures RemoveRow(t, e, key).outcome == Pass <==> key in t.Keyed(e)
    ensures key !in t.Keyed(e) ==> RemoveRow(t, e, key) == Step(Fail(NoRows), t)
    ensures key in t.Keyed(e) ==>
      var t' := RemoveRow(t, e, key).tables;
      var id := t.Keyed(e)[key];
      && t'.Keyed(e) == t.Keyed(e) - {key}
      && (forall f :: f != e ==> t'.Keyed(f) == t.Keyed(f))
      && t'.configs == t.configs && t'.nextId == t.nextId
      && (forall m :: m in t'.userGroups <==> m in t.userGroups && !MemberOf(m, e, id))
      && (forall a :: a in t'.aces <==> a in t.aces && !AceRefersTo(t.aces[a], e, id))
      && (forall a :: a in t'.aces ==> t'.aces[a] == t.aces[a])
  {
    if key in t.Keyed(e) {
      ConstrainedKeyed(t, e);
      RowsWithoutKey(t.Keyed(e), key);
    }
  }

  /** Deleting one row keeps what the database enforces. */
  lemma RemoveRowConstrained(t: Tables, e: Entity, key: string)
    requires Constrained(t)
    ensures Constrained(RemoveRow(t, e, key).tables)
  {
    if key in t.Keyed(e) {
      RemoveRowSpec(t, e, key);
      var t' := RemoveRow(t, e, key).tables;
      assert t'.Keyed(e) == t.Keyed(e) - {key};
      assert t'.users.Keys <= t.users.Keys && t'.groups.Keys <= t.groups.Keys && t'.resources.Keys <= t.resources.Keys;
    }
  }

  /**
   * Deleting one row keeps referential integrity: removeUser and removeGroup
   * delete the row's memberships and ACEs first, removeResource its ACEs.
   */
  lemma RemoveRowValid(t: Tables, e: Entity, key: string)
    requires Valid(t)
    ensures Valid(RemoveRow(t, e, key).tables)
  {
    RemoveRowConstrained(t, e, key);
    if key in t.Keyed(e) {
      RemoveRowSpec(t, e, key);
      var t' := RemoveRow(t, e, key).tables;
      var id := t.Keyed(e)[key];
      assert t'.Keyed(e) == RowsWithout(t.Keyed(e), id);
      forall m | m in t'.userGroups
        ensures m.0 in t'.users.Values && m.1 in t'.groups.Values
      {
        var u :| u in t.users && t.users[u] == m.0;
        var g :| g in t.groups && t.groups[g] == m.1;
        assert u in t'.users;
        assert g in t'.groups;
      }
      forall a | a in t'.aces
        ensures Refers(t', t'.aces[a])
      {
        var x := t.aces[a];
        assert Refers(t, x) && !AceRefersTo(x, e, id);
        var r :| r in t.resources && t.resources[r] == x.resourceId;
        assert r in t'.resources;
        if x.userId.Some? {
          var u :| u in t.users && t.users[u] == x.userId.value;
          assert u in t'.users;
        }
        if x.groupId.Some? {
          var g :| g in t.groups && t.groups[g] == x.groupId.value;
          assert g in t'.groups;
        }
      }
    }
  }

  /** The keys of a non-empty list: its head and the keys of its tail. */
  lemma KeySetCons(keys: seq<string>)
    requires keys != []
    ensures KeySet(keys) == {keys[0]} + KeySet(keys[1..])
  {
    forall k | k in KeySet(keys) && k != keys[0]
      ensures k in KeySet(keys[1..])
    {
      var i :| 0 <= i < |keys| && keys[i] == k;
      assert keys[1..][i - 1] == k;
    }
  }

  /** One turn of the remove loop: the head is removed and the rest of the keys are still rows. */
  lemma RemoveHead(t: Tables, e: Entity, keys: seq<string>) returns (t1: Tables)
    requires Constrained(t)
    requires keys != [] && Distinct(keys) && (forall i :: 0 <= i < |keys| ==> keys[i] in t.Keyed(e))
    ensures RemoveRow(t, e, keys[0]) == Step(Pass, t1)
    ensures Constrained(t1) && Distinct(keys[1..])
    ensures forall i :: 0 <= i < |keys[1..]| ==> keys[1..][i] in t1.Keyed(e)
    ensures t1.Keyed(e) == t.Keyed(e) - {keys[0]}
    ensures forall f :: f != e ==> t1.Keyed(f) == t.Keyed(f)
    ensures t1.configs == t.configs && t1.nextId == t.nextId
    ensures t1.userGroups <= t.userGroups && t1.aces.Keys <= t.aces.Keys
  {
    RemoveRowSpec(t, e, keys[0]);
    RemoveRowConstrained(t, e, keys[0]);
    t1 := RemoveRow(t, e, keys[0]).tables;
    forall i | 0 <= i < |keys[1..]|
      ensures keys[1..][i] in t1.Keyed(e)
    {
      assert keys[1..][i] == keys[i + 1] != keys[0];
    }
  }

  /**
   * What the remove loop over `keys` leaves, from t to t': exactly the
   * listed keys leave the table of e, the other two business-key tables are
   * untouched, memberships and ACEs only shrink, and the database's own
   * constraints still hold.
   */
  ghost predicate RemovedAll(t: Tables, t': Tables, e: Entity, keys: seq<string>) {
    && Constrained(t')
    && t'.Keyed(e) == t.Keyed(e) - KeySet(keys)
    && (forall f :: f != e ==> t'.Keyed(f) == t.Keyed(f))
    && t'.configs == t.configs && t'.nextId == t.nextId
    && t'.userGroups <= t.userGroups
    && t'.aces.Keys <= t.aces.Keys
  }

  /** RemovedAll composes one removed head with the rest of the loop. */
  lemma RemovedAllStep(t: Tables, t1: Tables, t': Tables, e: Entity, keys: seq<string>)
    requires keys != []
    requires t1.Keyed(e) == t.Keyed(e) - {keys[0]}
    requires forall f :: f != e ==> t1.Keyed(f) == t.Keyed(f)
    requires t1.configs == t.configs && t1.nextId == t.nextId
    requires t1.userGroups <= t.userGroups && t1.aces.Keys <= t.aces.Keys
    requires RemovedAll(t1, t', e, keys[1..])
    ensures RemovedAll(t, t', e, keys)
  {
    KeySetCons(keys);
  }

  /**
   * The remove loop over distinct keys that are all rows: every removal
   * succeeds, and the loop leaves what RemovedAll describes.
   */
  lemma {:induction false} RemoveEachSpec(t: Tables, e: Entity, keys: seq<string>)
    requires Constrained(t)
    requires Distinct(keys) && (forall i :: 0 <= i < |keys| ==> keys[i] in t.Keyed(e))
    ensures RemoveEach(t, e, keys).outcome == Pass
    ensures RemovedAll(t, RemoveEach(t, e, keys).tables, e, keys)
    decreases |keys|
  {
    if keys == [] {
      assert KeySet(keys) == {};
    } else {
      var t1 := RemoveHead(t, e, keys);
      assert RemoveEach(t, e, keys) == RemoveEach(t1, e, keys[1..]);
      RemoveEachSpec(t1, e, keys[1..]);
      RemovedAllStep(t, t1, RemoveEach(t1, e, keys[1..]).tables, e, keys);
    }
  }

  /** The remove loop keeps referential integrity. */
  lemma {:induction false} RemoveEachValid(t: Tables, e: Entity, keys: seq<string>)
    requires Valid(t)
    ensures Valid(RemoveEach(t, e, keys).tables)
    decreases |keys|
  {
    if keys != [] {
      RemoveRowValid(t, e, keys[0]);
      if RemoveRow(t, e, keys[0]).outcome.Pass? {
        RemoveEachValid(RemoveRow(t, e, keys[0]).tables, e, keys[1..]);
      }
    }
  }

  /**
   * The remove loop stops at the first key that is not a row: the keys
   * before it are removed and the error is `sql.ErrNoRows`.
   */
  lemma {:induction false} RemoveEachMissing(t: Tables, e: Entity, keys: seq<string>, i: int)
    requires Constrained(t)
    requires 0 <= i < |keys| && keys[i] !in t.Keyed(e)
    requires Distinct(keys[..i]) && (forall j :: 0 <= j < i ==> keys[j] in t.Keyed(e))
    ensures RemoveEach(t, e, keys).outcome == Fail(NoRows)
    ensures RemoveEach(t, e, keys).tables == RemoveEach(t, e, keys[..i]).tables
    decreases i
  {
    RemoveRowSpec(t, e, keys[0]);
    if i > 0 {
      var t1 := RemoveRow(t, e, keys[0]).tables;
      assert keys[1..][i - 1] == keys[i];
      assert keys[1..][..i - 1] == keys[..i][1..];
      forall j | 0 <= j < i - 1
        ensures keys[1..][j] in t1.Keyed(e)
      {
        assert keys[..i][j + 1] == keys[1..][j];
        assert keys[..i][0] == keys[0];
      }
      RemoveEachMissing(t1, e, keys[1..], i - 1);
      assert keys[..i][0] == keys[0];
    }
  }

  /** With no users, groups or resources left, integrity leaves no membership and no ACE. */
  lemma EmptiedIsCleared(t: Tables)
    requires Valid(t) && t.users == map[] && t.groups == map[] && t.resources == map[]
    ensures t == Cleared(t)
  {
    assert t.userGroups == {} by {
      forall m | m in t.userGroups ensures false {
      }
    }
    assert t.aces == map[] by {
      forall a | a in t.aces ensures false {
      }
    }
  }

  /** A list that enumerates a table holds distinct keys that are all rows. */
  lemma EnumeratesRows(keys: seq<string>, m: map<string, int>)
    requires Enumerates(keys, m.Keys)
    ensures Distinct(keys) && (forall i :: 0 <= i < |keys| ==> keys[i] in m)
    ensures m - KeySet(keys) == map[]
  {
  }

  /**
   * The `LIKE $1` lookup of removeUser / removeGroup / removeResource with a
   * literal key finds the row of that key, if there is one, and no other
   * row: it is the equality lookup of RemoveRow.
   */
  lemma LookupIsEquality(m: map<string, int>, key: string)
    requires LikeLiteral(key)
    ensures (set k | k in m && Like(key, k)) == (if key in m then {key} else {})
  {
    forall k | k in m ensures Like(key, k) <==> k == key {
      LikeLiteralExact(key, k);
    }
  }

  /**
   * removeData with each find step listing its whole table, on a store
   * whose keys are all literal patterns (so that each lookup finds the row
   * it was given): every removal succeeds and the three business-key
   * tables end empty; when the store had referential integrity, all five
   * generated tables end empty; configs and the id counter are untouched.
   */
  lemma RemoveDataSpec(t: Tables, uids: seq<string>, gids: seq<string>, rids: seq<string>)
    requires Constrained(t) && KeysLiteral(t)
    requires Enumerates(uids, t.users.Keys) && Enumerates(gids, t.groups.Keys) && Enumerates(rids, t.resources.Keys)
    ensures var s := RemoveData(t, uids, gids, rids);
      && s.outcome == Pass
      && s.tables.users == map[] && s.tables.groups == map[] && s.tables.resources == map[]
      && s.tables.configs == t.configs && s.tables.nextId == t.nextId
      && (Valid(t) ==> s.tables == Cleared(t))
  {
    EnumeratesRows(uids, t.users);
    EnumeratesRows(gids, t.groups);
    EnumeratesRows(rids, t.resources);
    RemoveEachSpec(t, UserEntity, uids);
    var t1 := RemoveEach(t, UserEntity, uids).tables;
    assert t1.Keyed(GroupEntity) == t.groups && t1.Keyed(ResourceEntity) == t.resources;
    RemoveEachSpec(t1, GroupEntity, gids);
    var t2 := RemoveEach(t1, GroupEntity, gids).tables;
    assert t2.Keyed(UserEntity) == t1.users && t2.Keyed(ResourceEntity) == t.resources;
    RemoveEachSpec(t2, ResourceEntity, rids);
    var t3 := RemoveEach(t2, ResourceEntity, rids).tables;
    assert t3.Keyed(UserEntity) == t2.users && t3.Keyed(GroupEntity) == t2.groups;
    if Valid(t) {
      RemoveEachValid(t, UserEntity, uids);
      RemoveEachValid(t1, GroupEntity, gids);
      RemoveEachValid(t2, ResourceEntity, rids);
      EmptiedIsCleared(t3);
    }
  }

  /** prepareData from a store with no generated rows leaves only literal keys. */
  lemma GeneratedKeysLiteral(nextId: int, configs: map<string, string>, counts: RecordCount)
    requires Sane(counts)
    ensures KeysLiteral(PrepareData(Empty(nextId, configs), counts).tables)
  {
    EmptyValid(nextId, configs);
    assert forall e :: Empty(nextId, configs).Keyed(e) == map[];
    PrepareDataLiteral(Empty(nextId, configs), counts);
  }

  /**
   * The round trip of one runWithCounts on a sane tuple: prepareData from a
   * store with no generated rows, then removeData over what the find steps
   * list, leaves a store with no generated rows again and configs as it was.
   */
  lemma PrepareThenRemove(nextId: int, configs: map<string, string>, counts: RecordCount,
                          uids: seq<string>, gids: seq<string>, rids: seq<string>)
    requires Sane(counts)
    requires var s := PrepareData(Empty(nextId, configs), counts);
      Enumerates(uids, s.tables.users.Keys) && Enumerates(gids, s.tables.groups.Keys)
      && Enumerates(rids, s.tables.resources.Keys)
    ensures var s := PrepareData(Empty(nextId, configs), counts);
      RemoveData(s.tables, uids, gids, rids) == Step(Pass, Empty(s.tables.nextId, configs))
  {
    PrepareDataFromEmpty(nextId, configs, counts);
    GeneratedKeysLiteral(nextId, configs, counts);
    RemoveDataSpec(PrepareData(Empty(nextId, configs), counts).tables, uids, gids, rids);
  }
}
