/**
 * The load generator against a mutable store: each function of
 * load/load.go is a method, a sequence of statements on the store's
 * tables, with the loops of the source as `while` loops. A method with a
 * counterpart in module Workload is proved to do exactly what that
 * state-transition function does, so the lemmas of modules Populate,
 * Grants, Prepare and Teardown carry over to it. The counterpart has the
 * method's name except for InsertRow (Insert), InsertAceRow (InsertAce),
 * AllowAccess (GrantActions) and AssignPermissions (PermissionsFrom).
 * FindKeys and FindAceRow are specified directly, by the keys listed and
 * the row found; RemoveAll by its listing and Workload.RemoveEach over it;
 * RunWithCounts by the results of prepareData and of the teardown.
 */
module Load {
  import opened Wrappers
  import opened Schema
  import opened Names
  import opened Actions
  import opened Counts
  import Workload
  import Populate
  import Grants
  import Prepare
  import Teardown

  /** The database: the five generated tables, configs, and the unique_rowid() counter. */
  class Store {
    var users: map<string, int>
    var groups: map<string, int>
    var resources: map<string, int>
    var userGroups: set<(int, int)>
    var aces: map<int, Ace>
    var configs: map<string, string>
    var nextId: int

    /** The store as a value. */
    ghost function State(): Tables
      reads this
    {
      Tables(users, groups, resources, userGroups, aces, configs, nextId)
    }

    /** A store with no generated rows. */
    constructor (nextId0: int, configs0: map<string, string>)
      ensures State() == Empty(nextId0, configs0)
    {
      users, groups, resources := map[], map[], map[];
      userGroups, aces := {}, map[];
      configs, nextId := configs0, nextId0;
    }

    /** The business-key table of e. */
    function Keyed(e: Entity): map<string, int>
      reads this
    {
      match e
      case UserEntity => users
      case GroupEntity => groups
      case ResourceEntity => resources
    }

    /** Replace the business-key table of e. */
    method SetKeyed(e: Entity, m: map<string, int>)
      modifies this
      ensures State() == old(State()).WithKeyed(e, m)
    {
      match e
      case UserEntity => users := m;
      case GroupEntity => groups := m;
      case ResourceEntity => resources := m;
    }
  }

  // ----- Entity mutators ---------------------------------------------------

  /** INSERT INTO the table of e a row with business key `key` and a fresh id. */
  method InsertRow(db: Store, e: Entity, key: string) returns (r: Outcome)
    modifies db
    ensures Step(r, db.State()) == Workload.Insert(old(db.State()), e, key)
  {
    if key in db.Keyed(e) {
      return Fail(UniqueViolation(KeyConstraint(e)));
    }
    db.SetKeyed(e, db.Keyed(e)[key := db.nextId]);
    db.nextId := db.nextId + 1;
    r := Pass;
  }

  /** addUser */
  method AddUser(db: Store, userid: int) returns (r: Outcome)
    modifies db
    ensures Step(r, db.State()) == Workload.AddUser(old(db.State()), userid)
  {
    r := InsertRow(db, UserEntity, Itoa(userid));
  }

  /** addGroup */
  method AddGroup(db: Store, groupid: int) returns (r: Outcome)
    modifies db
    ensures Step(r, db.State()) == Workload.AddGroup(old(db.State()), groupid)
  {
    r := InsertRow(db, GroupEntity, Itoa(groupid));
  }

  /** addResource */
  method AddResource(db: Store, resource: string) returns (r: Outcome)
    modifies db
    ensures Step(r, db.State()) == Workload.AddResource(old(db.State()), resource)
  {
    r := InsertRow(db, ResourceEntity, resource);
  }

  /** The loop of addUsers / addGroups: insert the ordinals 0, ..., n - 1, stopping at an error. */
  method InsertOrdinals(db: Store, e: Entity, n: int) returns (r: Outcome)
    modifies db
    ensures Step(r, db.State()) == Workload.InsertOrdinals(old(db.State()), e, 0, n)
  {
    var ii := 0;
    while ii < n
      invariant Workload.InsertOrdinals(old(db.State()), e, 0, n) == Workload.InsertOrdinals(db.State(), e, ii, n)
      decreases n - ii
    {
      r := InsertRow(db, e, Itoa(ii));
      if r.Fail? {
        return;
      }
      ii := ii + 1;
    }
    r := Pass;
  }

  /** addUsers */
  method AddUsers(db: Store, users: int) returns (r: Outcome)
    modifies db
    ensures Step(r, db.State()) == Workload.AddUsers(old(db.State()), users)
  {
    r := InsertOrdinals(db, UserEntity, users);
  }

  /** addGroups */
  method AddGroups(db: Store, groups: int) returns (r: Outcome)
    modifies db
    ensures Step(r, db.State()) == Workload.AddGroups(old(db.State()), groups)
  {
    r := InsertOrdinals(db, GroupEntity, groups);
  }

  // ----- Memberships -------------------------------------------------------

  /** addUserToGroup: two lookups by key, then the INSERT INTO user_groups. */
  method AddUserToGroup(db: Store, group: int, user: int) returns (r: Outcome)
    modifies db
    ensures Step(r, db.State()) == Workload.AddUserToGroup(old(db.State()), group, user)
  {
    var uid := Itoa(user);
    if uid !in db.users {
      return Fail(NoRows);
    }
    var gid := Itoa(group);
    if gid !in db.groups {
      return Fail(NoRows);
    }
    var row := (db.users[uid], db.groups[gid]);
    if row in db.userGroups {
      return Fail(UniqueViolation(UserGroupsPrimary));
    }
    db.userGroups := db.userGroups + {row};
    r := Pass;
  }

  /**
   * assignUsersToGroups: `members` slots per group, filled from a counter
   * that wraps modulo `users`. The source divides by zero when a slot is
   * filled with no users, hence the precondition.
   */
  method AssignUsersToGroups(db: Store, members: int, groups: int, users: int) returns (r: Outcome)
    requires members > 0 && groups > 0 ==> users > 0
    modifies db
    ensures Step(r, db.State()) == Workload.AssignUsersToGroups(old(db.State()), members, groups, users)
  {
    var user := 0;
    var group := 0;
    while group < groups
      invariant 0 <= group
      invariant Workload.AssignUsersToGroups(old(db.State()), members, groups, users)
             == Workload.AssignFrom(db.State(), members, groups, users, group, 0, user)
      decreases groups - group
    {
      var ii := 0;
      while ii < members
        invariant 0 <= ii
        invariant Workload.AssignUsersToGroups(old(db.State()), members, groups, users)
               == Workload.AssignFrom(db.State(), members, groups, users, group, ii, user)
        decreases members - ii
      {
        r := AddUserToGroup(db, group, user);
        if r.Fail? {
          return;
        }
        user := user + 1;
        user := user % users;
        ii := ii + 1;
      }
      group := group + 1;
    }
    r := Pass;
  }

  // ----- ACE upsert --------------------------------------------------------

  /**
   * SELECT actions, id FROM aces WHERE <principal column> = pid AND
   * resource_id = rid: a row of the pair if there is one, and otherwise
   * the knowledge that there is none.
   */
  method FindAceRow(db: Store, e: Entity, pid: int, rid: int) returns (found: Option<int>)
    ensures found.Some? ==> Grants.AceOf(db.aces, found.value, e, pid, rid)
    ensures found.None? ==> Grants.NoAce(db.aces, e, pid, rid)
  {
    if exists id :: id in db.aces && HeldBy(db.aces[id], e, pid) && db.aces[id].resourceId == rid {
      var id :| id in db.aces && HeldBy(db.aces[id], e, pid) && db.aces[id].resourceId == rid;
      found := Some(id);
    } else {
      found := None;
    }
  }

  /** INSERT INTO aces, rejected by user_resource_unique or group_resource_unique. */
  method InsertAceRow(db: Store, x: Ace) returns (r: Outcome)
    modifies db
    ensures Step(r, db.State()) == Workload.InsertAce(old(db.State()), x)
  {
    if exists id :: id in db.aces && SamePair(db.aces[id], x) {
      var constraint := if exists id :: id in db.aces && db.aces[id].resourceId == x.resourceId && x.userId.Some? && db.aces[id].userId == x.userId
                        then UserResourceUnique else GroupResourceUnique;
      return Fail(UniqueViolation(constraint));
    }
    db.aces := db.aces[db.nextId := x];
    db.nextId := db.nextId + 1;
    r := Pass;
  }

  /**
   * One transaction of allowUserAccessToResource / allowGroupAccessToResource.
   * The UNIQUE constraints on aces make the SELECT's row the only one, so
   * the store must satisfy them.
   */
  method GrantAction(db: Store, e: Entity, resource: string, ordinal: int, action: string) returns (r: Outcome)
    requires e != ResourceEntity && Constrained(db.State())
    modifies db
    ensures Step(r, db.State()) == Workload.GrantAction(old(db.State()), e, resource, ordinal, action)
  {
    if resource !in db.resources {
      return Fail(NoRows);
    }
    var rid := db.resources[resource];
    var key := Itoa(ordinal);
    if key !in db.Keyed(e) {
      return Fail(NoRows);
    }
    var pid := db.Keyed(e)[key];
    var found := FindAceRow(db, e, pid, rid);
    if found.Some? {
      Grants.FindAceUnique(db.aces, e, pid, rid, found.value);
    } else {
      Grants.FindAceNone(db.aces, e, pid, rid);
    }
    var actionstr := if found.Some? then db.aces[found.value].actions else "";
    if |actionstr| > 0 {
      db.aces := db.aces[found.value := db.aces[found.value].(actions := AppendAction(actionstr, action))];
      r := Pass;
    } else {
      r := InsertAceRow(db, Workload.NewAce(e, pid, rid, AppendAction(actionstr, action)));
    }
  }

  /** The loop over "create", "read", "update", "delete": one transaction each, stopping at an error. */
  method AllowAccess(db: Store, e: Entity, resource: string, ordinal: int) returns (r: Outcome)
    requires e != ResourceEntity && Constrained(db.State())
    modifies db
    ensures Step(r, db.State()) == Workload.GrantActions(old(db.State()), e, resource, ordinal, Granted)
    ensures Constrained(db.State())
  {
    var i := 0;
    while i < |Granted|
      invariant 0 <= i <= |Granted|
      invariant Constrained(db.State())
      invariant Workload.GrantActions(old(db.State()), e, resource, ordinal, Granted)
             == Workload.GrantActions(db.State(), e, resource, ordinal, Granted[i..])
    {
      ghost var before := db.State();
      Grants.GrantActionValid(before, e, resource, ordinal, Granted[i]);
      assert Granted[i..][0] == Granted[i] && Granted[i..][1..] == Granted[i + 1..];
      r := GrantAction(db, e, resource, ordinal, Granted[i]);
      if r.Fail? {
        return;
      }
      i := i + 1;
    }
    r := Pass;
  }

  /** allowUserAccessToResource */
  method AllowUserAccessToResource(db: Store, resource: string, uid: int) returns (r: Outcome)
    requires Constrained(db.State())
    modifies db
    ensures Step(r, db.State()) == Workload.AllowUserAccessToResource(old(db.State()), resource, uid)
  {
    r := AllowAccess(db, UserEntity, resource, uid);
  }

  /** allowGroupAccessToResource */
  method AllowGroupAccessToResource(db: Store, resource: string, gid: int) returns (r: Outcome)
    requires Constrained(db.State())
    modifies db
    ensures Step(r, db.State()) == Workload.AllowGroupAccessToResource(old(db.State()), resource, gid)
  {
    r := AllowAccess(db, GroupEntity, resource, gid);
  }

  // ----- Permission phases -------------------------------------------------

  /**
   * The loops of assignUserPermissions / assignGroupPermissions: for each
   * permission, add its resource, then grant it to every principal.
   */
  method AssignPermissions(db: Store, e: Entity, permissions: int, principals: int) returns (r: Outcome)
    requires e != ResourceEntity && Constrained(db.State())
    modifies db
    ensures Step(r, db.State()) == Workload.PermissionsFrom(old(db.State()), e, permissions, principals, 0)
  {
    var p := 0;
    while p < permissions
      invariant Constrained(db.State())
      invariant Workload.PermissionsFrom(old(db.State()), e, permissions, principals, 0)
             == Workload.PermissionsFrom(db.State(), e, permissions, principals, p)
      decreases permissions - p
    {
      var resource := Workload.ResourceName(e, p);
      ghost var before := db.State();
      Populate.InsertValid(before, ResourceEntity, resource);
      r := AddResource(db, resource);
      if r.Fail? {
        return;
      }
      ghost var added := db.State();
      var n := 0;
      while n < principals
        invariant Constrained(db.State())
        invariant Workload.GrantEach(added, e, resource, 0, principals)
               == Workload.GrantEach(db.State(), e, resource, n, principals)
        decreases principals - n
      {
        Grants.GrantActionsValid(db.State(), e, resource, n, Granted);
        r := AllowAccess(db, e, resource, n);
        if r.Fail? {
          return;
        }
        n := n + 1;
      }
      p := p + 1;
    }
    r := Pass;
  }

  /** assignUserPermissions */
  method AssignUserPermissions(db: Store, permissions: int, users: int) returns (r: Outcome)
    requires Constrained(db.State())
    modifies db
    ensures Step(r, db.State()) == Workload.AssignUserPermissions(old(db.State()), permissions, users)
  {
    r := AssignPermissions(db, UserEntity, permissions, users);
  }

  /** assignGroupPermissions */
  method AssignGroupPermissions(db: Store, permissions: int, groups: int) returns (r: Outcome)
    requires Constrained(db.State())
    modifies db
    ensures Step(r, db.State()) == Workload.AssignGroupPermissions(old(db.State()), permissions, groups)
  {
    r := AssignPermissions(db, GroupEntity, permissions, groups);
  }

  // ----- Workload executor -------------------------------------------------

  /** prepareData: the five phases in order, stopping at the first error. */
  method PrepareData(db: Store, counts: RecordCount) returns (r: Outcome)
    requires Sane(counts) && Constrained(db.State())
    modifies db
    ensures Step(r, db.State()) == Workload.PrepareData(old(db.State()), counts)
  {
    SaneIff(counts);
    Prepare.UsersKept(db.State(), counts.users);
    r := AddUsers(db, counts.users);
    if r.Fail? {
      return;
    }
    Prepare.GroupsKept(db.State(), counts.groups);
    r := AddGroups(db, counts.groups);
    if r.Fail? {
      return;
    }
    Prepare.MembersKept(db.State(), counts.members, counts.groups, counts.users);
    r := AssignUsersToGroups(db, counts.members, counts.groups, counts.users);
    if r.Fail? {
      return;
    }
    Prepare.PermissionsKept(db.State(), UserEntity, counts.userPermissions, counts.users);
    r := AssignUserPermissions(db, counts.userPermissions, counts.users);
    if r.Fail? {
      return;
    }
    r := AssignGroupPermissions(db, counts.groupPermissions, counts.groups);
  }

  // ----- Teardown ----------------------------------------------------------

  /**
   * findUsers / findGroups / findResources: the rows.Next loop over
   * SELECT <key> FROM <table>, which lists every key once, in an order the
   * database chooses.
   */
  method FindKeys(db: Store, e: Entity) returns (keys: seq<string>)
    ensures Workload.Enumerates(keys, db.State().Keyed(e).Keys)
  {
    var rest := db.Keyed(e).Keys;
    keys := [];
    while rest != {}
      invariant forall k :: k in db.Keyed(e) <==> k in rest || k in keys
      invariant forall k :: k in rest ==> k !in keys
      invariant Teardown.Distinct(keys)
      decreases |rest|
    {
      var k :| k in rest;
      keys := keys + [k];
      rest := rest - {k};
    }
  }

  /**
   * removeUser / removeGroup / removeResource: resolve the key, then delete
   * the memberships (not for resources), the ACEs and the row, by id.
   */
  method RemoveRow(db: Store, e: Entity, key: string) returns (r: Outcome)
    modifies db
    ensures Step(r, db.State()) == Workload.RemoveRow(old(db.State()), e, key)
  {
    if key !in db.Keyed(e) {
      return Fail(NoRows);
    }
    var id := db.Keyed(e)[key];
    if e != ResourceEntity {
      db.userGroups := Workload.MembershipsWithout(db.userGroups, e, id);
    }
    db.aces := Workload.AcesWithout(db.aces, e, id);
    db.SetKeyed(e, Workload.RowsWithout(db.Keyed(e), id));
    r := Pass;
  }

  /** The remove loop over the listed keys, stopping at an error. */
  method RemoveEach(db: Store, e: Entity, keys: seq<string>) returns (r: Outcome)
    modifies db
    ensures Step(r, db.State()) == Workload.RemoveEach(old(db.State()), e, keys)
  {
    var i := 0;
    while i < |keys|
      invariant 0 <= i <= |keys|
      invariant Workload.RemoveEach(old(db.State()), e, keys) == Workload.RemoveEach(db.State(), e, keys[i..])
    {
      assert keys[i..][0] == keys[i] && keys[i..][1..] == keys[i + 1..];
      r := RemoveRow(db, e, keys[i]);
      if r.Fail? {
        return;
      }
      i := i + 1;
    }
    r := Pass;
  }

  /** removeUsers / removeGroups / removeResources: list the keys, then remove each. */
  method RemoveAll(db: Store, e: Entity) returns (r: Outcome, keys: seq<string>)
    modifies db
    ensures Workload.Enumerates(keys, old(db.State()).Keyed(e).Keys)
    ensures Step(r, db.State()) == Workload.RemoveEach(old(db.State()), e, keys)
  {
    keys := FindKeys(db, e);
    r := RemoveEach(db, e, keys);
  }

  /**
   * removeData: users, then groups, then resources, each find step listing
   * the table as the previous phases left it. On a store the database
   * accepts whose keys are all literal `LIKE` patterns (as every generated
   * key is), every removal succeeds and the three business-key tables end
   * empty; with referential integrity all five generated tables do.
   */
  method RemoveData(db: Store) returns (r: Outcome, ghost uids: seq<string>, ghost gids: seq<string>, ghost rids: seq<string>)
    modifies db
    ensures Workload.Enumerates(uids, old(db.State()).users.Keys)
    ensures var s1 := Workload.RemoveEach(old(db.State()), UserEntity, uids);
      s1.outcome.Pass? ==> Workload.Enumerates(gids, s1.tables.groups.Keys)
    ensures var s1 := Workload.RemoveEach(old(db.State()), UserEntity, uids);
      var s2 := Workload.RemoveEach(s1.tables, GroupEntity, gids);
      s1.outcome.Pass? && s2.outcome.Pass? ==> Workload.Enumerates(rids, s2.tables.resources.Keys)
    ensures Step(r, db.State()) == Workload.RemoveData(old(db.State()), uids, gids, rids)
    ensures Constrained(old(db.State())) && Workload.KeysLiteral(old(db.State())) ==>
      && r == Pass
      && db.users == map[] && db.groups == map[] && db.resources == map[]
      && db.configs == old(db.configs) && db.nextId == old(db.nextId)
    ensures Valid(old(db.State())) && Workload.KeysLiteral(old(db.State())) ==> db.State() == Cleared(old(db.State()))
  {
    ghost var t0 := db.State();
    r, uids := RemoveAll(db, UserEntity);
    ghost var t1 := db.State();
    gids, rids := [], [];
    if Constrained(t0) {
      Teardown.EnumeratesRows(uids, t0.users);
      Teardown.RemoveEachSpec(t0, UserEntity, uids);
      assert t1.Keyed(GroupEntity) == t0.Keyed(GroupEntity);
    }
    if r.Fail? {
      return;
    }
    r, gids := RemoveAll(db, GroupEntity);
    ghost var t2 := db.State();
    if Constrained(t0) {
      Teardown.EnumeratesRows(gids, t1.groups);
      Teardown.RemoveEachSpec(t1, GroupEntity, gids);
      assert t2.Keyed(ResourceEntity) == t1.Keyed(ResourceEntity) == t0.Keyed(ResourceEntity);
    }
    if r.Fail? {
      return;
    }
    r, rids := RemoveAll(db, ResourceEntity);
    if Constrained(t0) && Workload.KeysLiteral(t0) {
      Teardown.RemoveDataSpec(t0, uids, gids, rids);
    }
  }

  /** What runWithCounts ends with: its return value, or the panic of a failed teardown. */
  datatype RunResult = Returned(outcome: Outcome) | Panicked(error: Error)

  /**
   * runWithCounts: skip an insane tuple; otherwise prepareData, and then,
   * deferred and whatever prepareData returned, removeData, whose error
   * panics. The result is prepareData's unless the teardown panics. On a
   * store the database accepts whose keys are all literal `LIKE` patterns
   * the teardown always succeeds, so the result is prepareData's and the
   * business-key tables end empty; with referential integrity the store
   * ends with no generated rows.
   */
  method RunWithCounts(db: Store, counts: RecordCount) returns (r: RunResult)
    requires Constrained(db.State())
    modifies db
    ensures !Sane(counts) ==> r == Returned(Pass) && db.State() == old(db.State())
    ensures Sane(counts) ==>
      r == Returned(Workload.PrepareData(old(db.State()), counts).outcome) || r.Panicked?
    ensures Sane(counts) && Workload.KeysLiteral(old(db.State())) ==>
      var s := Workload.PrepareData(old(db.State()), counts);
      && r == Returned(s.outcome)
      && db.users == map[] && db.groups == map[] && db.resources == map[]
      && db.configs == old(db.configs) && db.nextId == s.tables.nextId
      && (Valid(old(db.State())) ==> db.State() == Cleared(s.tables))
  {
    if !Sane(counts) {
      return Returned(Pass);
    }
    Prepare.PrepareDataValid(db.State(), counts);
    if Workload.KeysLiteral(db.State()) {
      Prepare.PrepareDataLiteral(db.State(), counts);
    }
    var prepared := PrepareData(db, counts);
    var removed, _, _, _ := RemoveData(db);
    match removed
    case Fail(err) => r := Panicked(err);
    case Pass => r := Returned(prepared);
  }
}
