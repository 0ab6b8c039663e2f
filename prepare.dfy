/**
 * prepareData from an empty store: what the five phases build together,
 * and how a failing phase stops the later ones.
 */
module Prepare {
  import opened Wrappers
  import opened Schema
  import opened Names
  import opened Actions
  import opened Counts
  import opened Workload
  import opened Populate
  import opened Grants

  /** Itoa(0), ..., Itoa(n - 1) are rows of m when they are its keys. */
  lemma OrdinalsPresent(m: map<string, int>, n: int)
    requires m.Keys == Ordinals(0, n)
    ensures HasOrdinals(m, n)
  {
    forall i | 0 <= i < n
      ensures Itoa(i) in m
    {
      OrdinalsMember(i, 0, n);
    }
  }

  /** The first two phases from an empty store: the users and groups tables hold exactly the ordinals. */
  lemma LoadPrincipals(t: Tables, users: int, groups: int) returns (t2: Tables)
    requires t.users == map[] && t.groups == map[] && Valid(t)
    ensures AddUsers(t, users).outcome == Pass
    ensures AddGroups(AddUsers(t, users).tables, groups) == Step(Pass, t2)
    ensures Valid(t2)
    ensures t2.users.Keys == Ordinals(0, users) && t2.groups.Keys == Ordinals(0, groups)
    ensures t2.resources == t.resources && t2.userGroups == t.userGroups
    ensures t2.aces == t.aces && t2.configs == t.configs
  {
    AddUsersFresh(t, users);
    InsertOrdinalsValid(t, UserEntity, 0, users);
    var t1 := AddUsers(t, users).tables;
    assert t1.Keyed(GroupEntity) == t.Keyed(GroupEntity);
    AddGroupsFresh(t1, groups);
    InsertOrdinalsValid(t1, GroupEntity, 0, groups);
    t2 := AddGroups(t1, groups).tables;
    assert t2.users == t1.users;
    assert t1.Keyed(ResourceEntity) == t.Keyed(ResourceEntity);
    assert t2.Keyed(ResourceEntity) == t1.Keyed(ResourceEntity);
  }

  /** Every user and every group resource name is distinct from the other phase's. */
  lemma PhasesDisjoint(userPermissions: int, groupPermissions: int)
    ensures ResourceNames(UserEntity, 0, userPermissions) !! ResourceNames(GroupEntity, 0, groupPermissions)
  {
    forall r | r in ResourceNames(UserEntity, 0, userPermissions)
      ensures r !in ResourceNames(GroupEntity, 0, groupPermissions)
    {
      var p :| 0 <= p < userPermissions && r == ResourceName(UserEntity, p);
      forall q | 0 <= q < groupPermissions
        ensures r != ResourceName(GroupEntity, q)
      {
        ResourceNamesDistinct(p, q);
      }
    }
  }

  /**
   * The two permission phases after the memberships: each adds its own
   * resources and one full ACE per (principal, resource) pair.
   */
  lemma LoadPermissions(t: Tables, counts: RecordCount) returns (t5: Tables)
    requires Valid(t) && t.resources == map[] && t.aces == map[]
    requires HasOrdinals(t.users, counts.users) && HasOrdinals(t.groups, counts.groups)
    ensures AssignUserPermissions(t, counts.userPermissions, counts.users).outcome == Pass
    ensures AssignGroupPermissions(AssignUserPermissions(t, counts.userPermissions, counts.users).tables,
                                   counts.groupPermissions, counts.groups) == Step(Pass, t5)
    ensures Valid(t5)
    ensures t5.users == t.users && t5.groups == t.groups && t5.userGroups == t.userGroups && t5.configs == t.configs
    ensures t5.resources.Keys == ResourceNames(UserEntity, 0, counts.userPermissions) + ResourceNames(GroupEntity, 0, counts.groupPermissions)
    ensures |t5.aces| == Clamp(counts.userPermissions) * Clamp(counts.users) + Clamp(counts.groupPermissions) * Clamp(counts.groups)
    ensures forall q, j :: 0 <= q < counts.userPermissions && 0 <= j < counts.users ==>
      HasFullGrant(t5, UserEntity, j, UserResourceName(q))
    ensures forall q, j :: 0 <= q < counts.groupPermissions && 0 <= j < counts.groups ==>
      HasFullGrant(t5, GroupEntity, j, GroupResourceName(q))
  {
    var t4 := PermissionPhase(t, UserEntity, counts.userPermissions, counts.users);
    assert t.resources.Keys == {};
    EmptyUnion(ResourceNames(UserEntity, 0, counts.userPermissions));
    GroupNamesAbsent(t4, counts.userPermissions, counts.groupPermissions);
    t5 := PermissionPhase(t4, GroupEntity, counts.groupPermissions, counts.groups);
    UserGrantsKept(t4, t5, counts.userPermissions, counts.users);
    GroupGrantsNamed(t5, counts.groupPermissions, counts.groups);
  }

  /**
   * The two permission phases from a store without ACEs add no ACE but the
   * full grants of the phases' resources to their principals.
   */
  lemma LoadPermissionsRows(t: Tables, counts: RecordCount)
    requires Valid(t) && t.resources == map[] && t.aces == map[]
    requires HasOrdinals(t.users, counts.users) && HasOrdinals(t.groups, counts.groups)
    ensures var t5 := AssignGroupPermissions(AssignUserPermissions(t, counts.userPermissions, counts.users).tables,
                                             counts.groupPermissions, counts.groups).tables;
      forall id :: id in t5.aces ==>
        && t5.aces[id].actions == FullColumn
        && t5.aces[id] in PhaseRows(t5, UserEntity, counts.userPermissions, counts.users)
                          + PhaseRows(t5, GroupEntity, counts.groupPermissions, counts.groups)
  {
    var t4 := PermissionPhase(t, UserEntity, counts.userPermissions, counts.users);
    PermissionsFromNew(t, UserEntity, counts.userPermissions, counts.users, 0);
    assert t.resources.Keys == {};
    EmptyUnion(ResourceNames(UserEntity, 0, counts.userPermissions));
    GroupNamesAbsent(t4, counts.userPermissions, counts.groupPermissions);
    var t5 := PermissionPhase(t4, GroupEntity, counts.groupPermissions, counts.groups);
    PermissionsFromNew(t4, GroupEntity, counts.groupPermissions, counts.groups, 0);
    var users := PhaseRows(t4, UserEntity, counts.userPermissions, counts.users);
    var groups := PhaseRows(t5, GroupEntity, counts.groupPermissions, counts.groups);
    NewRowsCompose(t.aces, t4.aces, t5.aces, users, groups);
    PhaseRowsGrow(t4, t5, UserEntity, counts.userPermissions, counts.users);
    forall id | id in t5.aces
      ensures t5.aces[id].actions == FullColumn
    {
      if t5.aces[id] in users {
        PhaseRowsFull(t4, UserEntity, counts.userPermissions, counts.users, t5.aces[id]);
      } else {
        PhaseRowsFull(t5, GroupEntity, counts.groupPermissions, counts.groups, t5.aces[id]);
      }
    }
  }

  /** After the user phase, none of the group phase's resource names is a row. */
  lemma GroupNamesAbsent(t4: Tables, userPermissions: int, groupPermissions: int)
    requires t4.resources.Keys == ResourceNames(UserEntity, 0, userPermissions)
    ensures forall q :: 0 <= q < groupPermissions ==> ResourceName(GroupEntity, q) !in t4.resources
  {
    PhasesDisjoint(userPermissions, groupPermissions);
    forall q | 0 <= q < groupPermissions
      ensures ResourceName(GroupEntity, q) !in t4.resources
    {
      assert ResourceName(GroupEntity, q) in ResourceNames(GroupEntity, 0, groupPermissions);
    }
  }

  /** The group phase's grants, by the name groupResourceName gives. */
  lemma GroupGrantsNamed(t5: Tables, groupPermissions: int, groups: int)
    requires forall q, j :: 0 <= q < groupPermissions && 0 <= j < groups ==> HasFullGrant(t5, GroupEntity, j, ResourceName(GroupEntity, q))
    ensures forall q, j :: 0 <= q < groupPermissions && 0 <= j < groups ==> HasFullGrant(t5, GroupEntity, j, GroupResourceName(q))
  {
    forall q, j | 0 <= q < groupPermissions && 0 <= j < groups
      ensures HasFullGrant(t5, GroupEntity, j, GroupResourceName(q))
    {
      assert HasFullGrant(t5, GroupEntity, j, ResourceName(GroupEntity, q));
    }
  }

  /** The group phase keeps the grants of the user phase. */
  lemma UserGrantsKept(t4: Tables, t5: Tables, userPermissions: int, users: int)
    requires forall q, j :: 0 <= q < userPermissions && 0 <= j < users ==> HasFullGrant(t4, UserEntity, j, ResourceName(UserEntity, q))
    requires t5.users == t4.users && Extends(t4.resources, t5.resources) && Extends(t4.aces, t5.aces)
    ensures forall q, j :: 0 <= q < userPermissions && 0 <= j < users ==> HasFullGrant(t5, UserEntity, j, UserResourceName(q))
  {
    forall q, j | 0 <= q < userPermissions && 0 <= j < users
      ensures HasFullGrant(t5, UserEntity, j, UserResourceName(q))
    {
      FullGrantKept(t4, t5, UserEntity, j, ResourceName(UserEntity, q));
    }
  }

  /** Clamp is the identity on naturals, so the product commutes into the schedule's length. */
  lemma ClampProduct(a: int, b: int)
    requires a > 0
    ensures Clamp(a) * Clamp(b) == Clamp(b) * a
  {
  }

  /** The membership phase on a roster with no memberships yet. */
  lemma MembersPhase(t2: Tables, counts: RecordCount) returns (t3: Tables)
    requires Sane(counts)
    requires Valid(t2) && t2.userGroups == {}
    requires t2.users.Keys == Ordinals(0, counts.users) && t2.groups.Keys == Ordinals(0, counts.groups)
    ensures AssignUsersToGroups(t2, counts.members, counts.groups, counts.users) == Step(Pass, t3)
    ensures t3 == t2.(userGroups := t3.userGroups) && Valid(t3)
    ensures |t3.userGroups| == Clamp(counts.members) * Clamp(counts.groups)
    ensures counts.members > 0 ==>
      t3.userGroups == Schedule(t3, counts.members, counts.users, 0, counts.groups * counts.members)
  {
    SaneIff(counts);
    OrdinalsPresent(t2.users, counts.users);
    OrdinalsPresent(t2.groups, counts.groups);
    var M, G, U := counts.members, counts.groups, counts.users;
    AssignUsersToGroupsSpec(t2, M, G, U);
    AssignFromValid(t2, M, G, U, 0, 0, 0);
    t3 := AssignUsersToGroups(t2, M, G, U).tables;
    if M <= 0 {
      assert t3.userGroups == {};
    } else {
      ScheduleFrame(t2, t3, M, U, 0, G * M);
      assert t3.userGroups == Schedule(t2, M, U, 0, G * M);
      ClampProduct(M, G);
    }
  }

  /**
   * The first three phases from a store with no generated rows: the
   * principals and the round-robin memberships.
   */
  lemma LoadMembers(t: Tables, counts: RecordCount) returns (t3: Tables)
    requires Sane(counts)
    requires Valid(t) && t.users == map[] && t.groups == map[] && t.resources == map[]
    requires t.userGroups == {} && t.aces == map[]
    ensures var s1 := AddUsers(t, counts.users);
      && s1.outcome == Pass
      && AddGroups(s1.tables, counts.groups).outcome == Pass
      && AssignUsersToGroups(AddGroups(s1.tables, counts.groups).tables, counts.members, counts.groups, counts.users)
         == Step(Pass, t3)
    ensures Valid(t3) && t3.resources == map[] && t3.aces == map[] && t3.configs == t.configs
    ensures t3.users.Keys == Ordinals(0, counts.users) && t3.groups.Keys == Ordinals(0, counts.groups)
    ensures HasOrdinals(t3.users, counts.users) && HasOrdinals(t3.groups, counts.groups)
    ensures |t3.userGroups| == Clamp(counts.members) * Clamp(counts.groups)
    ensures counts.members > 0 ==>
      t3.userGroups == Schedule(t3, counts.members, counts.users, 0, counts.groups * counts.members)
  {
    var t2 := LoadPrincipals(t, counts.users, counts.groups);
    t3 := MembersPhase(t2, counts);
    OrdinalsPresent(t3.users, counts.users);
    OrdinalsPresent(t3.groups, counts.groups);
  }

  /**
   * prepareData on a sane tuple from a store with no generated rows: every
   * phase succeeds; the users table holds exactly the uids "0", ..., "U-1"
   * and the groups table exactly the gids "0", ..., "G-1"; user_groups holds
   * the members * groups rows of the round-robin schedule; the resources are
   * the user and group resource names of the two permission phases; and
   * there is one ACE with the four actions per (principal, resource) pair
   * and no other: every ACE grants the four actions to a principal of a
   * phase on a resource of that phase. configs is left alone.
   */
  lemma PrepareDataFromEmpty(nextId: int, configs: map<string, string>, counts: RecordCount)
    requires Sane(counts)
    ensures var s := PrepareData(Empty(nextId, configs), counts);
      && s.outcome == Pass
      && Valid(s.tables)
      && s.tables.configs == configs
      && s.tables.users.Keys == Ordinals(0, counts.users)
      && s.tables.groups.Keys == Ordinals(0, counts.groups)
      && |s.tables.userGroups| == Clamp(counts.members) * Clamp(counts.groups)
      && (counts.members > 0 ==>
            s.tables.userGroups == Schedule(s.tables, counts.members, counts.users, 0, counts.groups * counts.members))
      && s.tables.resources.Keys
         == ResourceNames(UserEntity, 0, counts.userPermissions) + ResourceNames(GroupEntity, 0, counts.groupPermissions)
      && |s.tables.aces|
         == Clamp(counts.userPermissions) * Clamp(counts.users) + Clamp(counts.groupPermissions) * Clamp(counts.groups)
      && (forall q, j :: 0 <= q < counts.userPermissions && 0 <= j < counts.users ==>
            HasFullGrant(s.tables, UserEntity, j, UserResourceName(q)))
      && (forall q, j :: 0 <= q < counts.groupPermissions && 0 <= j < counts.groups ==>
            HasFullGrant(s.tables, GroupEntity, j, GroupResourceName(q)))
      && (forall id :: id in s.tables.aces ==>
            && s.tables.aces[id].actions == FullColumn
            && s.tables.aces[id] in PhaseRows(s.tables, UserEntity, counts.userPermissions, counts.users)
                                    + PhaseRows(s.tables, GroupEntity, counts.groupPermissions, counts.groups))
  {
    var t := Empty(nextId, configs);
    EmptyValid(nextId, configs);
    var t3 := LoadMembers(t, counts);
    var t5 := LoadPermissions(t3, counts);
    LoadPermissionsRows(t3, counts);
    if counts.members > 0 {
      ScheduleFrame(t3, t5, counts.members, counts.users, 0, counts.groups * counts.members);
    }
  }

  /** t' keeps what t had: the database's constraints, integrity if t had it, and configs. */
  ghost predicate Kept(t: Tables, t': Tables) {
    && Constrained(t')
    && t'.configs == t.configs
    && (Valid(t) ==> Valid(t'))
  }

  lemma UsersKept(t: Tables, users: int)
    requires Constrained(t)
    ensures Kept(t, AddUsers(t, users).tables)
  {
    InsertOrdinalsValid(t, UserEntity, 0, users);
  }

  lemma GroupsKept(t: Tables, groups: int)
    requires Constrained(t)
    ensures Kept(t, AddGroups(t, groups).tables)
  {
    InsertOrdinalsValid(t, GroupEntity, 0, groups);
  }

  lemma MembersKept(t: Tables, members: int, groups: int, users: int)
    requires Constrained(t) && (members > 0 && groups > 0 ==> users > 0)
    ensures Kept(t, AssignUsersToGroups(t, members, groups, users).tables)
  {
    AssignFromValid(t, members, groups, users, 0, 0, 0);
  }

  lemma PermissionsKept(t: Tables, e: Entity, permissions: int, principals: int)
    requires Constrained(t) && e != ResourceEntity
    ensures Kept(t, PermissionsFrom(t, e, permissions, principals, 0).tables)
  {
    PermissionsFromValid(t, e, permissions, principals, 0);
  }

  /** The two permission phases keep the invariants and configs. */
  lemma PermissionPhasesKept(t3: Tables, counts: RecordCount)
    requires Constrained(t3)
    ensures var s4 := AssignUserPermissions(t3, counts.userPermissions, counts.users);
      && Kept(t3, s4.tables)
      && (s4.outcome.Pass? ==> Kept(t3, AssignGroupPermissions(s4.tables, counts.groupPermissions, counts.groups).tables))
  {
    PermissionsKept(t3, UserEntity, counts.userPermissions, counts.users);
    var s4 := AssignUserPermissions(t3, counts.userPermissions, counts.users);
    if s4.outcome.Pass? {
      PermissionsKept(s4.tables, GroupEntity, counts.groupPermissions, counts.groups);
    }
  }

  /**
   * prepareData on any store, succeeding or not: the constraints the
   * database enforces still hold, referential integrity is kept, and
   * configs is left alone.
   */
  lemma PrepareDataValid(t: Tables, counts: RecordCount)
    requires Sane(counts) && Constrained(t)
    ensures Kept(t, PrepareData(t, counts).tables)
  {
    SaneIff(counts);
    UsersKept(t, counts.users);
    var s1 := AddUsers(t, counts.users);
    if s1.outcome.Pass? {
      GroupsKept(s1.tables, counts.groups);
      var s2 := AddGroups(s1.tables, counts.groups);
      if s2.outcome.Pass? {
        MembersKept(s2.tables, counts.members, counts.groups, counts.users);
        var s3 := AssignUsersToGroups(s2.tables, counts.members, counts.groups, counts.users);
        if s3.outcome.Pass? {
          PermissionPhasesKept(s3.tables, counts);
        }
      }
    }
  }

  /**
   * prepareData, succeeding or not, adds only keys the program makes up, so
   * a store whose keys are all literal `LIKE` patterns keeps that property.
   */
  lemma PrepareDataLiteral(t: Tables, counts: RecordCount)
    requires Sane(counts) && Constrained(t) && KeysLiteral(t)
    ensures KeysLiteral(PrepareData(t, counts).tables)
  {
    SaneIff(counts);
    UsersKept(t, counts.users);
    InsertOrdinalsLiteral(t, UserEntity, 0, counts.users);
    var s1 := AddUsers(t, counts.users);
    if s1.outcome.Pass? {
      GroupsKept(s1.tables, counts.groups);
      InsertOrdinalsLiteral(s1.tables, GroupEntity, 0, counts.groups);
      var s2 := AddGroups(s1.tables, counts.groups);
      if s2.outcome.Pass? {
        AssignFromValid(s2.tables, counts.members, counts.groups, counts.users, 0, 0, 0);
        var s3 := AssignUsersToGroups(s2.tables, counts.members, counts.groups, counts.users);
        assert forall f :: s3.tables.Keyed(f) == s2.tables.Keyed(f);
        if s3.outcome.Pass? {
          PermissionPhasesLiteral(s3.tables, counts);
        }
      }
    }
  }

  /** The two permission phases keep every key literal. */
  lemma PermissionPhasesLiteral(t3: Tables, counts: RecordCount)
    requires Constrained(t3) && KeysLiteral(t3)
    ensures var s4 := AssignUserPermissions(t3, counts.userPermissions, counts.users);
      && KeysLiteral(s4.tables)
      && (s4.outcome.Pass? ==> KeysLiteral(AssignGroupPermissions(s4.tables, counts.groupPermissions, counts.groups).tables))
  {
    PermissionsFromLiteral(t3, UserEntity, counts.userPermissions, counts.users, 0);
    PermissionsKept(t3, UserEntity, counts.userPermissions, counts.users);
    var s4 := AssignUserPermissions(t3, counts.userPermissions, counts.users);
    if s4.outcome.Pass? {
      PermissionsFromLiteral(s4.tables, GroupEntity, counts.groupPermissions, counts.groups, 0);
    }
  }

  /**
   * The first failing phase stops the later ones: a failed users phase
   * leaves groups, memberships, resources and ACEs as they were; a failed
   * groups phase leaves memberships, resources and ACEs; a failed
   * membership phase leaves resources and ACEs; a failed user-permission
   * phase is the result, with the principals and memberships of the
   * phases before it, and the group-permission phase does not run.
   */
  lemma PrepareDataStops(t: Tables, counts: RecordCount)
    requires Sane(counts) && Constrained(t)
    ensures var s := PrepareData(t, counts);
      var s1 := AddUsers(t, counts.users);
      var s2 := AddGroups(s1.tables, counts.groups);
      && (s1.outcome.Fail? ==>
            && s.outcome == s1.outcome
            && s.tables.groups == t.groups && s.tables.userGroups == t.userGroups
            && s.tables.resources == t.resources && s.tables.aces == t.aces)
      && (s1.outcome.Pass? && s2.outcome.Fail? ==>
            && s.outcome == s2.outcome
            && s.tables.userGroups == t.userGroups
            && s.tables.resources == t.resources && s.tables.aces == t.aces)
      && (s1.outcome.Pass? && s2.outcome.Pass?
          && AssignUsersToGroups(s2.tables, counts.members, counts.groups, counts.users).outcome.Fail? ==>
            && s.outcome.Fail?
            && s.tables.resources == t.resources && s.tables.aces == t.aces)
      && (s1.outcome.Pass? && s2.outcome.Pass? ==>
            var s3 := AssignUsersToGroups(s2.tables, counts.members, counts.groups, counts.users);
            var s4 := AssignUserPermissions(s3.tables, counts.userPermissions, counts.users);
            s3.outcome.Pass? && s4.outcome.Fail? ==>
              && s == s4
              && s.tables.users == s3.tables.users && s.tables.groups == s3.tables.groups
              && s.tables.userGroups == s3.tables.userGroups)
  {
    SaneIff(counts);
    InsertOrdinalsValid(t, UserEntity, 0, counts.users);
    var s1 := AddUsers(t, counts.users);
    assert s1.tables.Keyed(GroupEntity) == t.Keyed(GroupEntity);
    assert s1.tables.Keyed(ResourceEntity) == t.Keyed(ResourceEntity);
    if s1.outcome.Pass? {
      InsertOrdinalsValid(s1.tables, GroupEntity, 0, counts.groups);
      var s2 := AddGroups(s1.tables, counts.groups);
      assert s2.tables.Keyed(ResourceEntity) == s1.tables.Keyed(ResourceEntity);
      if s2.outcome.Pass? {
        AssignFromValid(s2.tables, counts.members, counts.groups, counts.users, 0, 0, 0);
        var s3 := AssignUsersToGroups(s2.tables, counts.members, counts.groups, counts.users);
        if s3.outcome.Pass? {
          PermissionsFromValid(s3.tables, UserEntity, counts.userPermissions, counts.users, 0);
        }
      }
    }
  }
}
