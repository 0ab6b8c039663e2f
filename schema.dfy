/**
 * The database the load generator talks to, as a value: the five tables of
 * the schema (load/load.go:20-78) plus `configs`, which the program never
 * touches, and the counter behind `unique_rowid()`.
 *
 * A table whose rows carry a business key (users.uid, groups.gid,
 * resources.rid, each under a UNIQUE index) is a map from that key to the
 * row's surrogate id, so the UNIQUE index holds by construction and the
 * PRIMARY KEY on the id is the invariant IdsUnique. The placeholder columns
 * (password hash, user type, description, remote flag) are not modelled.
 */
module Schema {
  import opened Wrappers

  /** The unique constraints an insert can violate, named as in the DDL. */
  datatype Constraint =
    | UsersUidKey
    | GroupsGidKey
    | ResourcesRidKey
    | UserGroupsPrimary
    | UserResourceUnique
    | GroupResourceUnique

  /**
   * The errors a transaction body returns: `sql.ErrNoRows` from a lookup
   * that finds nothing, or a unique-constraint violation from an insert.
   */
  datatype Error = NoRows | UniqueViolation(constraint: Constraint)

  /** What a Go function returning `error` returns: nil or an error. */
  datatype Outcome = Pass | Fail(error: Error)

  /** The tables whose rows have a business key. */
  datatype Entity = UserEntity | GroupEntity | ResourceEntity

  /** A row of `aces`; `userId` and `groupId` are the nullable principal columns. */
  datatype Ace = Ace(userId: Option<int>, groupId: Option<int>, resourceId: int, actions: string)

  datatype Tables = Tables(
    users: map<string, int>,
    groups: map<string, int>,
    resources: map<string, int>,
    userGroups: set<(int, int)>,
    aces: map<int, Ace>,
    configs: map<string, string>,
    nextId: int)
  {
    /** The business-key table of entity e. */
    function Keyed(e: Entity): map<string, int> {
      match e
      case UserEntity => users
      case GroupEntity => groups
      case ResourceEntity => resources
    }

    /** These tables with the business-key table of e replaced by m. */
    function WithKeyed(e: Entity, m: map<string, int>): (t: Tables)
      ensures t.Keyed(e) == m
      ensures forall f :: f != e ==> t.Keyed(f) == Keyed(f)
      ensures t.userGroups == userGroups && t.aces == aces
      ensures t.configs == configs && t.nextId == nextId
    {
      match e
      case UserEntity => this.(users := m)
      case GroupEntity => this.(groups := m)
      case ResourceEntity => this.(resources := m)
    }
  }

  /** What one transaction (or a sequence of them) returns, with the tables it leaves. */
  datatype Step = Step(outcome: Outcome, tables: Tables)

  /** The UNIQUE index on the business key of each table. */
  function KeyConstraint(e: Entity): Constraint {
    match e
    case UserEntity => UsersUidKey
    case GroupEntity => GroupsGidKey
    case ResourceEntity => ResourcesRidKey
  }

  /** Does ACE row x have principal `pid` of kind e (users or groups)? */
  predicate HeldBy(x: Ace, e: Entity, pid: int) {
    if e == UserEntity then x.userId == Some(pid)
    else if e == GroupEntity then x.groupId == Some(pid)
    else false
  }

  /**
   * Would rows x and y violate user_resource_unique or
   * group_resource_unique? NULL principal columns never collide.
   */
  predicate SamePair(x: Ace, y: Ace) {
    && x.resourceId == y.resourceId
    && ((x.userId.Some? && x.userId == y.userId) || (x.groupId.Some? && x.groupId == y.groupId))
  }

  /** PRIMARY KEY (id): no two business keys share a surrogate id. */
  ghost predicate IdsUnique(m: map<string, int>) {
    forall a, b :: a in m && b in m && m[a] == m[b] ==> a == b
  }

  /** Every id handed out so far is below the counter. */
  ghost predicate IdsBelow(m: map<string, int>, bound: int) {
    forall a :: a in m ==> m[a] < bound
  }

  /** The two UNIQUE constraints on aces. */
  ghost predicate AcesUnique(aces: map<int, Ace>) {
    forall a, b :: a in aces && b in aces && SamePair(aces[a], aces[b]) ==> a == b
  }

  /** An ACE names exactly one principal, and every id it names is a row. */
  ghost predicate Refers(t: Tables, x: Ace) {
    && (x.userId.Some? != x.groupId.Some?)
    && (x.userId.Some? ==> x.userId.value in t.users.Values)
    && (x.groupId.Some? ==> x.groupId.value in t.groups.Values)
    && x.resourceId in t.resources.Values
  }

  /**
   * What the database itself enforces: the PRIMARY KEY on each id, the
   * UNIQUE constraints on aces, and unique_rowid() never handing out an id
   * twice. Every store satisfies it.
   */
  ghost predicate Constrained(t: Tables) {
    && IdsUnique(t.users) && IdsUnique(t.groups) && IdsUnique(t.resources)
    && IdsBelow(t.users, t.nextId) && IdsBelow(t.groups, t.nextId) && IdsBelow(t.resources, t.nextId)
    && (forall id :: id in t.aces ==> id < t.nextId)
    && AcesUnique(t.aces)
  }

  /**
   * Referential integrity, which the schema does not enforce (there are no
   * foreign keys) but every store the program builds has: each membership
   * and each ACE refers to existing rows.
   */
  ghost predicate Valid(t: Tables) {
    && Constrained(t)
    && (forall m :: m in t.userGroups ==> m.0 in t.users.Values && m.1 in t.groups.Values)
    && (forall id :: id in t.aces ==> Refers(t, t.aces[id]))
  }

  /** A store with no generated rows. */
  function Empty(nextId: int, configs: map<string, string>): Tables {
    Tables(map[], map[], map[], {}, map[], configs, nextId)
  }

  /** The five generated tables emptied; configs and the id counter kept. */
  function Cleared(t: Tables): Tables {
    t.(users := map[], groups := map[], resources := map[], userGroups := {}, aces := map[])
  }

  lemma EmptyValid(nextId: int, configs: map<string, string>)
    ensures Valid(Empty(nextId, configs))
  {
  }

  /** Constrained, for the business-key table of e. */
  lemma ConstrainedKeyed(t: Tables, e: Entity)
    requires Constrained(t)
    ensures IdsUnique(t.Keyed(e)) && IdsBelow(t.Keyed(e), t.nextId)
  {
  }
}
