/**
 * What each function of load/load.go does to the database, as a function
 * from the tables before to the outcome and the tables after. Every
 * transaction body checks all its failure conditions before it writes, so
 * a body that fails returns the tables unchanged: this is how the model
 * treats crdb.ExecuteTx, as an all-or-nothing application of the body,
 * run once. A retried body leaves no trace in the tables, but the find
 * bodies also append to a slice outside the transaction, so their retries
 * are not invisible; the model leaves retries out. Loops in the source are tail recursions
 * here, one call per iteration, stopping at the first error.
 *
 * The copy-paste pairs of the source (addUser/addGroup, removeUser/
 * removeGroup/removeResource, allowUser/allowGroupAccessToResource,
 * assignUser/assignGroupPermissions) are one function each, with the table
 * as a parameter.
 */
module Workload {
  import opened Wrappers
  import opened Schema
  import opened Names
  import opened Actions
  import opened Counts

  // ----- Entity mutators ---------------------------------------------------

  /**
   * One INSERT of a row with business key `key` (addUser, addGroup,
   * addResource): rejected by the table's UNIQUE index when the key exists.
   */
  function Insert(t: Tables, e: Entity, key: string): Step {
    if key in t.Keyed(e) then Step(Fail(UniqueViolation(KeyConstraint(e))), t)
    else Step(Pass, t.WithKeyed(e, t.Keyed(e)[key := t.nextId]).(nextId := t.nextId + 1))
  }

  /** addUser */
  function AddUser(t: Tables, userid: int): Step {
    Insert(t, UserEntity, Itoa(userid))
  }

  /** addGroup */
  function AddGroup(t: Tables, groupid: int): Step {
    Insert(t, GroupEntity, Itoa(groupid))
  }

  /** addResource */
  function AddResource(t: Tables, resource: string): Step {
    Insert(t, ResourceEntity, resource)
  }

  /** The loop of addUsers / addGroups from ordinal ii on. */
  function InsertOrdinals(t: Tables, e: Entity, ii: int, n: int): Step
    decreases n - ii
  {
    if ii >= n then Step(Pass, t)
    else
      var s := Insert(t, e, Itoa(ii));
      if s.outcome.Fail? then s else InsertOrdinals(s.tables, e, ii + 1, n)
  }

  /** addUsers */
  function AddUsers(t: Tables, users: int): Step {
    InsertOrdinals(t, UserEntity, 0, users)
  }

  /** addGroups */
  function AddGroups(t: Tables, groups: int): Step {
    InsertOrdinals(t, GroupEntity, 0, groups)
  }

  // ----- Memberships -------------------------------------------------------

  /**
   * addUserToGroup: look up the user and the group by key, then insert the
   * membership, which the primary key (user_id, group_id) rejects if present.
   */
  function AddUserToGroup(t: Tables, group: int, user: int): Step {
    var uid := Itoa(user);
    if uid !in t.users then Step(Fail(NoRows), t)
    else
      var gid := Itoa(group);
      if gid !in t.groups then Step(Fail(NoRows), t)
      else
        var row := (t.users[uid], t.groups[gid]);
        if row in t.userGroups then Step(Fail(UniqueViolation(UserGroupsPrimary)), t)
        else Step(Pass, t.(userGroups := t.userGroups + {row}))
  }

  /**
   * The nested loops of assignUsersToGroups, at group `group`, slot `ii`,
   * with the shared counter at `user`. The counter wraps modulo `users`
   * after every assignment; the source divides by zero if that happens with
   * no users, which the precondition rules out.
   */
  function AssignFrom(t: Tables, members: int, groups: int, users: int, group: int, ii: int, user: int): Step
    requires 0 <= group && 0 <= ii
    requires members > 0 && groups > 0 ==> users > 0
    decreases groups - group, members - ii
  {
    if group >= groups then Step(Pass, t)
    else if ii >= members then AssignFrom(t, members, groups, users, group + 1, 0, user)
    else
      var s := AddUserToGroup(t, group, user);
      if s.outcome.Fail? then s
      else AssignFrom(s.tables, members, groups, users, group, ii + 1, (user + 1) % users)
  }

  /** assignUsersToGroups */
  function AssignUsersToGroups(t: Tables, members: int, groups: int, users: int): Step
    requires members > 0 && groups > 0 ==> users > 0
  {
    AssignFrom(t, members, groups, users, 0, 0, 0)
  }

  // ----- ACE upsert --------------------------------------------------------

  /**
   * The ACE row the SELECT on (principal, resource) finds, if any. The
   * UNIQUE constraints make it the only one (AcesUnique).
   */
  ghost function FindAce(aces: map<int, Ace>, e: Entity, pid: int, rid: int): (found: Option<int>)
    ensures found.Some? ==> found.value in aces && HeldBy(aces[found.value], e, pid) && aces[found.value].resourceId == rid
    ensures found.None? ==> forall id :: id in aces ==> !(HeldBy(aces[id], e, pid) && aces[id].resourceId == rid)
  {
    if exists id :: id in aces && HeldBy(aces[id], e, pid) && aces[id].resourceId == rid then
      var id :| id in aces && HeldBy(aces[id], e, pid) && aces[id].resourceId == rid;
      Some(id)
    else None
  }

  /** A new ACE row for principal `pid` of kind e; the other principal column is NULL. */
  function NewAce(e: Entity, pid: int, rid: int, actions: string): Ace {
    if e == UserEntity then Ace(Some(pid), None, rid, actions) else Ace(None, Some(pid), rid, actions)
  }

  /** INSERT INTO aces, checked against both UNIQUE constraints. */
  function InsertAce(t: Tables, x: Ace): Step {
    if exists id :: id in t.aces && SamePair(t.aces[id], x) then
      var constraint := if exists id :: id in t.aces && t.aces[id].resourceId == x.resourceId && x.userId.Some? && t.aces[id].userId == x.userId
                        then UserResourceUnique else GroupResourceUnique;
      Step(Fail(UniqueViolation(constraint)), t)
    else Step(Pass, t.(aces := t.aces[t.nextId := x], nextId := t.nextId + 1))
  }

  /**
   * One transaction of allowUserAccessToResource / allowGroupAccessToResource:
   * resolve the resource and the principal (an error if either is missing),
   * read the existing ACE (absence is not an error), then UPDATE it with the
   * action appended when its actions are non-empty, and INSERT a new row
   * otherwise.
   */
  ghost function GrantAction(t: Tables, e: Entity, resource: string, ordinal: int, action: string): Step
    requires e != ResourceEntity
  {
    if resource !in t.resources then Step(Fail(NoRows), t)
    else
      var rid := t.resources[resource];
      var key := Itoa(ordinal);
      if key !in t.Keyed(e) then Step(Fail(NoRows), t)
      else
        var pid := t.Keyed(e)[key];
        var found := FindAce(t.aces, e, pid, rid);
        var actionstr := if found.Some? then t.aces[found.value].actions else "";
        if |actionstr| > 0 then
          Step(Pass, t.(aces := t.aces[found.value := t.aces[found.value].(actions := AppendAction(actionstr, action))]))
        else InsertAce(t, NewAce(e, pid, rid, AppendAction(actionstr, action)))
  }

  /** The `for _, action := range` loop: one transaction per action, stopping at an error. */
  ghost function GrantActions(t: Tables, e: Entity, resource: string, ordinal: int, actions: seq<string>): Step
    requires e != ResourceEntity
    decreases |actions|
  {
    if actions == [] then Step(Pass, t)
    else
      var s := GrantAction(t, e, resource, ordinal, actions[0]);
      if s.outcome.Fail? then s else GrantActions(s.tables, e, resource, ordinal, actions[1..])
  }

  /** allowUserAccessToResource */
  ghost function AllowUserAccessToResource(t: Tables, resource: string, uid: int): Step {
    GrantActions(t, UserEntity, resource, uid, Granted)
  }

  /** allowGroupAccessToResource */
  ghost function AllowGroupAccessToResource(t: Tables, resource: string, gid: int): Step {
    GrantActions(t, GroupEntity, resource, gid, Granted)
  }

  // ----- Permission phases -------------------------------------------------

  /** userResourceName for users, groupResourceName for groups. */
  function ResourceName(e: Entity, p: int): string {
    if e == UserEntity then UserResourceName(p) else GroupResourceName(p)
  }

  /** The inner loop of assignUserPermissions / assignGroupPermissions. */
  ghost function GrantEach(t: Tables, e: Entity, resource: string, n: int, principals: int): Step
    requires e != ResourceEntity
    decreases principals - n
  {
    if n >= principals then Step(Pass, t)
    else
      var s := GrantActions(t, e, resource, n, Granted);
      if s.outcome.Fail? then s else GrantEach(s.tables, e, resource, n + 1, principals)
  }

  /** The outer loop: add resource p, then grant it to every principal. */
  ghost function PermissionsFrom(t: Tables, e: Entity, permissions: int, principals: int, p: int): Step
    requires e != ResourceEntity
    decreases permissions - p
  {
    if p >= permissions then Step(Pass, t)
    else
      var s := AddResource(t, ResourceName(e, p));
      if s.outcome.Fail? then s
      else
        var g := GrantEach(s.tables, e, ResourceName(e, p), 0, principals);
        if g.outcome.Fail? then g else PermissionsFrom(g.tables, e, permissions, principals, p + 1)
  }

  /** assignUserPermissions */
  ghost function AssignUserPermissions(t: Tables, permissions: int, users: int): Step {
    PermissionsFrom(t, UserEntity, permissions, users, 0)
  }

  /** assignGroupPermissions */
  ghost function AssignGroupPermissions(t: Tables, permissions: int, groups: int): Step {
    PermissionsFrom(t, GroupEntity, permissions, groups, 0)
  }

  // ----- Workload executor -------------------------------------------------

  /**
   * prepareData: the five phases in order, stopping at the first error. The
   * source panics on an insane tuple, hence the precondition.
   */
  ghost function PrepareData(t: Tables, counts: RecordCount): Step
    requires Sane(counts)
  {
    var s1 := AddUsers(t, counts.users);
    if s1.outcome.Fail? then s1
    else
      var s2 := AddGroups(s1.tables, counts.groups);
      if s2.outcome.Fail? then s2
      else
        var s3 := AssignUsersToGroups(s2.tables, counts.members, counts.groups, counts.users);
        if s3.outcome.Fail? then s3
        else
          var s4 := AssignUserPermissions(s3.tables, counts.userPermissions, counts.users);
          if s4.outcome.Fail? then s4
          else AssignGroupPermissions(s4.tables, counts.groupPermissions, counts.groups)
  }

  // ----- Teardown ----------------------------------------------------------

  /** The memberships that survive deleting row `id` of table e. */
  function MembershipsWithout(ug: set<(int, int)>, e: Entity, id: int): set<(int, int)> {
    match e
    case UserEntity => set m | m in ug && m.0 != id
    case GroupEntity => set m | m in ug && m.1 != id
    case ResourceEntity => ug
  }

  /** Does ACE x refer to row `id` of table e? */
  predicate AceRefersTo(x: Ace, e: Entity, id: int) {
    match e
    case UserEntity => x.userId == Some(id)
    case GroupEntity => x.groupId == Some(id)
    case ResourceEntity => x.resourceId == id
  }

  /** DELETE FROM aces where <column of e> = id */
  function AcesWithout(aces: map<int, Ace>, e: Entity, id: int): map<int, Ace> {
    map a | a in aces && !AceRefersTo(aces[a], e, id) :: aces[a]
  }

  /** DELETE FROM <table of e> where id = id */
  function RowsWithout(m: map<string, int>, id: int): map<string, int> {
    map k | k in m && m[k] != id :: m[k]
  }

  /**
   * Every business key is a literal `LIKE` pattern, as every key the
   * program makes up is (NoLikeWildcards). On such a store the `LIKE $1`
   * lookups of removeUser / removeGroup / removeResource match the one row
   * whose key equals the pattern (LikeLiteralExact), which is the lookup
   * RemoveRow makes.
   */
  ghost predicate KeysLiteral(t: Tables) {
    forall e, k :: k in t.Keyed(e) ==> LikeLiteral(k)
  }

  /**
   * removeUser / removeGroup / removeResource: resolve the key to its id (an
   * error if absent), then delete the memberships (users and groups only),
   * the ACEs, and the row, by id.
   */
  function RemoveRow(t: Tables, e: Entity, key: string): Step {
    if key !in t.Keyed(e) then Step(Fail(NoRows), t)
    else
      var id := t.Keyed(e)[key];
      var t' := t.(userGroups := MembershipsWithout(t.userGroups, e, id), aces := AcesWithout(t.aces, e, id));
      Step(Pass, t'.WithKeyed(e, RowsWithout(t.Keyed(e), id)))
  }

  /** The loop of removeUsers / removeGroups / removeResources over the listed keys. */
  function RemoveEach(t: Tables, e: Entity, keys: seq<string>): Step
    decreases |keys|
  {
    if keys == [] then Step(Pass, t)
    else
      var s := RemoveRow(t, e, keys[0]);
      if s.outcome.Fail? then s else RemoveEach(s.tables, e, keys[1..])
  }

  /** `keys` lists every key of `table` once, in some order (as SELECT without ORDER BY does). */
  ghost predicate Enumerates(keys: seq<string>, table: set<string>) {
    && (forall i, j :: 0 <= i < j < |keys| ==> keys[i] != keys[j])
    && (forall k :: k in table <==> k in keys)
  }

  /**
   * removeData: users, then groups, then resources, each phase removing the
   * keys its find step listed.
   */
  function RemoveData(t: Tables, uids: seq<string>, gids: seq<string>, rids: seq<string>): Step {
    var s1 := RemoveEach(t, UserEntity, uids);
    if s1.outcome.Fail? then s1
    else
      var s2 := RemoveEach(s1.tables, GroupEntity, gids);
      if s2.outcome.Fail? then s2 else RemoveEach(s2.tables, ResourceEntity, rids)
  }
}
