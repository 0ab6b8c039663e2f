/**
 * What the loading phases of prepareData do: the inserts of addUsers,
 * addGroups and addResource, and the round-robin membership schedule of
 * assignUsersToGroups.
 */
module Populate {
  import opened Wrappers
  import opened Schema
  import opened Names
  import opened Workload
  import opened Counts

  /** t' differs from t at most in the business-key table of e and the id counter. */
  predicate OnlyKeyedChanged(t: Tables, t': Tables, e: Entity) {
    && (forall f :: f != e ==> t'.Keyed(f) == t.Keyed(f))
    && t'.userGroups == t.userGroups && t'.aces == t.aces && t'.configs == t.configs
  }

  /** m' keeps every row of m, under the same id. */
  predicate Extends<K, V(==)>(m: map<K, V>, m': map<K, V>) {
    forall k :: k in m ==> k in m' && m'[k] == m[k]
  }

  /** Extends is transitive. */
  lemma ExtendsTrans<K, V>(m: map<K, V>, m': map<K, V>, m'': map<K, V>)
    requires Extends(m, m') && Extends(m', m'')
    ensures Extends(m, m'')
  {
  }

  /** The keys of an updated map. */
  lemma KeysUpdate<K, V>(m: map<K, V>, k: K, v: V)
    ensures m[k := v].Keys == m.Keys + {k}
  {
  }

  /** The empty set is a left unit of union. */
  lemma EmptyUnion<T>(a: set<T>)
    ensures {} + a == a
  {
  }

  /** Set union is associative. */
  lemma UnionAssoc<T>(a: set<T>, b: set<T>, c: set<T>)
    ensures (a + b) + c == a + (b + c)
  {
  }

  /** n, or 0 for a negative count (a loop `for i := 0; i < n; i++` runs Clamp(n) times). */
  function Clamp(n: int): nat {
    if n < 0 then 0 else n
  }

  /** The keys strconv.Itoa(0), ..., strconv.Itoa(n - 1) are all rows of m. */
  ghost predicate HasOrdinals(m: map<string, int>, n: int) {
    forall i :: 0 <= i < n ==> Itoa(i) in m
  }

  // ----- Inserts -----------------------------------------------------------

  /** Adding a key with a new id keeps every id that was there. */
  lemma ValuesGrow(m: map<string, int>, key: string, id: int)
    requires key !in m
    ensures m.Values <= m[key := id].Values
  {
    forall v | v in m.Values
      ensures v in m[key := id].Values
    {
      var k :| k in m && m[k] == v;
      assert m[key := id][k] == v;
    }
  }

  /**
   * An insert succeeds exactly when the key is new; it then adds the key
   * under a fresh id. A rejected insert changes nothing.
   */
  lemma InsertSpec(t: Tables, e: Entity, key: string)
    requires Constrained(t)
    ensures var s := Insert(t, e, key);
      && (s.outcome == Pass <==> key !in t.Keyed(e))
      && (s.outcome.Fail? ==> s.outcome.error == UniqueViolation(KeyConstraint(e)) && s.tables == t)
      && (s.outcome == Pass ==> s.tables.Keyed(e).Keys == t.Keyed(e).Keys + {key} && s.tables.Keyed(e)[key] !in t.Keyed(e).Values)
      && Extends(t.Keyed(e), s.tables.Keyed(e))
      && OnlyKeyedChanged(t, s.tables, e)
  {
    if key !in t.Keyed(e) {
      InsertAdds(t, e, key);
    }
  }

  /** The successful case of InsertSpec. */
  lemma InsertAdds(t: Tables, e: Entity, key: string)
    requires Constrained(t) && key !in t.Keyed(e)
    ensures var m := t.Keyed(e)[key := t.nextId];
      && Insert(t, e, key) == Step(Pass, t.WithKeyed(e, m).(nextId := t.nextId + 1))
      && m.Keys == t.Keyed(e).Keys + {key}
      && t.nextId !in t.Keyed(e).Values
      && Extends(t.Keyed(e), m)
  {
    ConstrainedKeyed(t, e);
    KeysUpdate(t.Keyed(e), key, t.nextId);
  }

  /** An insert keeps the database constraints and referential integrity. */
  lemma InsertValid(t: Tables, e: Entity, key: string)
    requires Constrained(t)
    ensures Constrained(Insert(t, e, key).tables)
    ensures Valid(t) ==> Valid(Insert(t, e, key).tables)
  {
    var s := Insert(t, e, key);
    ConstrainedKeyed(t, e);
    if key !in t.Keyed(e) {
      var m := t.Keyed(e)[key := t.nextId];
      assert s.tables == t.WithKeyed(e, m).(nextId := t.nextId + 1);
      assert IdsUnique(m);
      assert IdsBelow(m, t.nextId + 1);
      ValuesGrow(t.Keyed(e), key, t.nextId);
      if Valid(t) {
        assert t.users.Values <= s.tables.users.Values;
        assert t.groups.Values <= s.tables.groups.Values;
        assert t.resources.Values <= s.tables.resources.Values;
        forall id | id in s.tables.aces
          ensures Refers(s.tables, s.tables.aces[id])
        {
          assert Refers(t, t.aces[id]);
        }
      }
    }
  }

  /** An insert of a literal key keeps every key literal. */
  lemma InsertLiteral(t: Tables, e: Entity, key: string)
    requires KeysLiteral(t) && LikeLiteral(key)
    ensures KeysLiteral(Insert(t, e, key).tables)
  {
    var t' := Insert(t, e, key).tables;
    forall f, k | k in t'.Keyed(f) ensures LikeLiteral(k) {
      if k != key {
        assert k in t.Keyed(f);
      }
    }
  }

  /** The insert loop adds only generated, hence literal, keys. */
  lemma {:induction false} InsertOrdinalsLiteral(t: Tables, e: Entity, ii: int, n: int)
    requires KeysLiteral(t)
    ensures KeysLiteral(InsertOrdinals(t, e, ii, n).tables)
    decreases n - ii
  {
    if ii < n {
      NoLikeWildcards(ii);
      InsertLiteral(t, e, Itoa(ii));
      var first := Insert(t, e, Itoa(ii));
      if first.outcome == Pass {
        InsertOrdinalsLiteral(first.tables, e, ii + 1, n);
      }
    }
  }

  /** The insert loop keeps the constraints, referential integrity, and every other table. */
  lemma {:induction false} InsertOrdinalsValid(t: Tables, e: Entity, ii: int, n: int)
    requires Constrained(t)
    ensures var s := InsertOrdinals(t, e, ii, n);
      && Extends(t.Keyed(e), s.tables.Keyed(e))
      && OnlyKeyedChanged(t, s.tables, e)
      && Constrained(s.tables)
      && (Valid(t) ==> Valid(s.tables))
    decreases n - ii
  {
    if ii < n {
      InsertSpec(t, e, Itoa(ii));
      InsertValid(t, e, Itoa(ii));
      var first := Insert(t, e, Itoa(ii));
      if first.outcome == Pass {
        InsertOrdinalsValid(first.tables, e, ii + 1, n);
      }
    }
  }

  /**
   * What the loop of addUsers / addGroups from ordinal ii up to n returns
   * in s, started on t: it succeeds exactly when none of the keys
   * Itoa(ii), ..., Itoa(n - 1) is a row yet, and then adds exactly those
   * keys. When it fails it is at the first ordinal j whose key is a row
   * already, and the keys before j stay inserted: each insert is a
   * transaction of its own.
   */
  ghost predicate OrdinalsLoaded(t: Tables, e: Entity, ii: int, n: int, s: Step) {
    && (s.outcome == Pass <==> Ordinals(ii, n) !! t.Keyed(e).Keys)
    && (s.outcome == Pass ==> s.tables.Keyed(e).Keys == t.Keyed(e).Keys + Ordinals(ii, n))
    && (s.outcome.Fail? ==>
          && s.outcome.error == UniqueViolation(KeyConstraint(e))
          && exists j :: ii <= j < n && Itoa(j) in t.Keyed(e)
               && Ordinals(ii, j) !! t.Keyed(e).Keys
               && s.tables.Keyed(e).Keys == t.Keyed(e).Keys + Ordinals(ii, j))
  }

  /** The insert loop from ordinal ii does what OrdinalsLoaded says. */
  lemma {:induction false} InsertOrdinalsSpec(t: Tables, e: Entity, ii: int, n: int)
    requires Constrained(t)
    ensures OrdinalsLoaded(t, e, ii, n, InsertOrdinals(t, e, ii, n))
    decreases n - ii
  {
    if ii >= n {
      assert Ordinals(ii, n) == {};
    } else if Itoa(ii) in t.Keyed(e) {
      HeadCollision(t, e, ii, n);
    } else {
      var t1 := Insert(t, e, Itoa(ii)).tables;
      InsertValid(t, e, Itoa(ii));
      InsertOrdinalsSpec(t1, e, ii + 1, n);
      InsertOrdinalsStep(t, t1, e, ii, n);
    }
  }

  /** The loop stops at once when the first key is a row already. */
  lemma HeadCollision(t: Tables, e: Entity, ii: int, n: int)
    requires ii < n && Itoa(ii) in t.Keyed(e)
    ensures OrdinalsLoaded(t, e, ii, n, InsertOrdinals(t, e, ii, n))
  {
    assert InsertOrdinals(t, e, ii, n) == Step(Fail(UniqueViolation(KeyConstraint(e))), t);
    assert Ordinals(ii, ii) == {};
    OrdinalsMember(ii, ii, n);
  }

  /** OrdinalsLoaded from ordinal ii + 1 on, after a successful insert of ordinal ii. */
  lemma InsertOrdinalsStep(t: Tables, t1: Tables, e: Entity, ii: int, n: int)
    requires Constrained(t) && ii < n && Itoa(ii) !in t.Keyed(e)
    requires t1 == Insert(t, e, Itoa(ii)).tables
    requires OrdinalsLoaded(t1, e, ii + 1, n, InsertOrdinals(t1, e, ii + 1, n))
    ensures OrdinalsLoaded(t, e, ii, n, InsertOrdinals(t, e, ii, n))
  {
    var s := InsertOrdinals(t1, e, ii + 1, n);
    InsertSpec(t, e, Itoa(ii));
    assert InsertOrdinals(t, e, ii, n) == s;
    OrdinalsAbove(t, t1, e, ii, n);
    if s.outcome.Fail? {
      FirstCollision(t, t1, e, ii, n, s);
    } else {
      NoCollision(t, t1, e, ii, n, s);
    }
  }

  /** The ordinals above ii are rows of t1 exactly when they are rows of t. */
  lemma OrdinalsAbove(t: Tables, t1: Tables, e: Entity, ii: int, n: int)
    requires t1.Keyed(e).Keys == t.Keyed(e).Keys + {Itoa(ii)}
    ensures forall k :: k in Ordinals(ii + 1, n) ==> (k in t1.Keyed(e) <==> k in t.Keyed(e))
  {
    forall k | k in Ordinals(ii + 1, n)
      ensures k in t1.Keyed(e) <==> k in t.Keyed(e)
    {
      var i :| ii + 1 <= i < n && k == Itoa(i);
      ItoaInjective(i, ii);
    }
  }

  /** The succeeding case of InsertOrdinalsSpec, one ordinal down. */
  lemma NoCollision(t: Tables, t1: Tables, e: Entity, ii: int, n: int, s: Step)
    requires ii < n
    requires t1.Keyed(e).Keys == t.Keyed(e).Keys + {Itoa(ii)} && Itoa(ii) !in t.Keyed(e)
    requires forall k :: k in Ordinals(ii + 1, n) ==> (k in t1.Keyed(e) <==> k in t.Keyed(e))
    requires Ordinals(ii + 1, n) !! t1.Keyed(e).Keys
    requires s.tables.Keyed(e).Keys == t1.Keyed(e).Keys + Ordinals(ii + 1, n)
    ensures Ordinals(ii, n) !! t.Keyed(e).Keys
    ensures s.tables.Keyed(e).Keys == t.Keyed(e).Keys + Ordinals(ii, n)
  {
    assert Ordinals(ii, n) == {Itoa(ii)} + Ordinals(ii + 1, n);
  }

  /** The failing case of InsertOrdinalsSpec, one ordinal down. */
  lemma FirstCollision(t: Tables, t1: Tables, e: Entity, ii: int, n: int, s: Step)
    requires ii < n
    requires t1.Keyed(e).Keys == t.Keyed(e).Keys + {Itoa(ii)} && Itoa(ii) !in t.Keyed(e)
    requires forall k :: k in Ordinals(ii + 1, n) ==> (k in t1.Keyed(e) <==> k in t.Keyed(e))
    requires exists j :: ii + 1 <= j < n && Itoa(j) in t1.Keyed(e)
                 && Ordinals(ii + 1, j) !! t1.Keyed(e).Keys
                 && s.tables.Keyed(e).Keys == t1.Keyed(e).Keys + Ordinals(ii + 1, j)
    ensures exists j :: ii <= j < n && Itoa(j) in t.Keyed(e)
                 && Ordinals(ii, j) !! t.Keyed(e).Keys
                 && s.tables.Keyed(e).Keys == t.Keyed(e).Keys + Ordinals(ii, j)
    ensures !(Ordinals(ii, n) !! t.Keyed(e).Keys)
  {
    var j :| ii + 1 <= j < n && Itoa(j) in t1.Keyed(e)
             && Ordinals(ii + 1, j) !! t1.Keyed(e).Keys
             && s.tables.Keyed(e).Keys == t1.Keyed(e).Keys + Ordinals(ii + 1, j);
    assert Ordinals(ii, j) == {Itoa(ii)} + Ordinals(ii + 1, j);
    UnionAssoc(t.Keyed(e).Keys, {Itoa(ii)}, Ordinals(ii + 1, j));
    OrdinalsMember(j, ii + 1, n);
    OrdinalsMember(j, ii, n);
    assert Itoa(j) in t.Keyed(e);
    PrefixAbsent(t, t1, e, ii, j, n);
  }

  /** The keys below the collision are absent from t as they are from t1. */
  lemma PrefixAbsent(t: Tables, t1: Tables, e: Entity, ii: int, j: int, n: int)
    requires j <= n
    requires forall k :: k in Ordinals(ii + 1, n) ==> (k in t1.Keyed(e) <==> k in t.Keyed(e))
    requires Ordinals(ii + 1, j) !! t1.Keyed(e).Keys
    ensures Ordinals(ii + 1, j) !! t.Keyed(e).Keys
  {
    forall k | k in Ordinals(ii + 1, j)
      ensures k !in t.Keyed(e)
    {
      var i :| ii + 1 <= i < j && k == Itoa(i);
      OrdinalsMember(i, ii + 1, n);
    }
  }

  /** addUsers on a store with no user keys "0", ..., "U-1" adds exactly those keys. */
  lemma AddUsersFresh(t: Tables, users: int)
    requires Constrained(t)
    requires Ordinals(0, users) !! t.users.Keys
    ensures var s := AddUsers(t, users);
      s.outcome == Pass && s.tables.users.Keys == t.users.Keys + Ordinals(0, users)
  {
    InsertOrdinalsSpec(t, UserEntity, 0, users);
  }

  /** addGroups on a store with no group keys "0", ..., "G-1" adds exactly those keys. */
  lemma AddGroupsFresh(t: Tables, groups: int)
    requires Constrained(t)
    requires Ordinals(0, groups) !! t.groups.Keys
    ensures var s := AddGroups(t, groups);
      s.outcome == Pass && s.tables.groups.Keys == t.groups.Keys + Ordinals(0, groups)
  {
    InsertOrdinalsSpec(t, GroupEntity, 0, groups);
  }

  // ----- Memberships -------------------------------------------------------

  /** The k-th assignment's user and group keys are rows. */
  ghost predicate Resolves(t: Tables, members: int, users: int, k: int)
    requires members > 0 && users > 0
  {
    Itoa(k % users) in t.users && Itoa(k / members) in t.groups
  }

  /**
   * The membership row of the k-th assignment (k = group * members + slot):
   * user ordinal k mod users in group ordinal k / members.
   */
  ghost function Assignment(t: Tables, members: int, users: int, k: int): (int, int)
    requires members > 0 && users > 0 && Resolves(t, members, users, k)
  {
    (t.users[Itoa(k % users)], t.groups[Itoa(k / members)])
  }

  /** The rows of assignments lo, ..., hi - 1. */
  ghost function Schedule(t: Tables, members: int, users: int, lo: int, hi: int): set<(int, int)>
    requires members > 0 && users > 0
  {
    set k | lo <= k < hi && Resolves(t, members, users, k) :: Assignment(t, members, users, k)
  }

  /** Every user and group ordinal the schedule names is a row, and ids are unique. */
  ghost predicate Roster(t: Tables, users: int, groups: int) {
    HasOrdinals(t.users, users) && HasOrdinals(t.groups, groups) && IdsUnique(t.users) && IdsUnique(t.groups)
  }

  /** The shared counter: stepping the previous user modulo users gives the next assignment's user. */
  lemma CounterStep(k: int, u: int)
    requires u > 0
    ensures (k % u + 1) % u == (k + 1) % u
  {
    var q, r := k / u, k % u;
    if r + 1 == u {
      DivUnique(k + 1, u, q + 1, 0);
      DivUnique(r + 1, u, 1, 0);
    } else {
      DivUnique(k + 1, u, q, r + 1);
      DivUnique(r + 1, u, 0, r + 1);
    }
  }

  /** Slot ii of group g is assignment g * m + ii, which belongs to group g. */
  lemma SlotOfGroup(g: int, ii: int, m: int)
    requires m > 0 && 0 <= ii < m
    ensures (g * m + ii) / m == g && (g * m + ii) % m == ii
  {
    DivUnique(g * m + ii, m, g, ii);
  }

  /** Group ordinals below the group count give assignments below groups * m. */
  lemma GroupBounds(g: int, groups: int, m: int)
    requires m > 0
    ensures g < groups ==> g * m + m <= groups * m
    ensures g >= groups ==> g * m >= groups * m
  {
    var d := groups - g;
    assert d * m == groups * m - g * m;
    if d >= 1 { MulMono(d, m); }
    else if d < 0 { MulMono(-d, m); }
  }

  /** Fewer than u consecutive assignments name distinct users. */
  lemma WithinLap(a: int, b: int, u: int)
    requires u > 0 && a < b < a + u
    ensures a % u != b % u
  {
    var qa, qb := a / u, b / u;
    var d := qb - qa;
    assert d * u == qb * u - qa * u;
    if a % u == b % u {
      if d >= 1 { MulMono(d, u); }
      else if d <= -1 { MulMono(-d, u); }
    }
  }

  /** Two assignments of the same group are fewer than m apart. */
  lemma SameGroupClose(a: int, b: int, m: int)
    requires m > 0 && a < b && a / m == b / m
    ensures b - a < m
  {
  }

  /**
   * When members <= users, distinct assignments give distinct rows: in
   * different groups the group ids differ, and within one group the
   * members are fewer than one lap of the user counter.
   */
  lemma AssignmentInjective(t: Tables, members: int, users: int, a: int, b: int)
    requires 0 < members <= users
    requires IdsUnique(t.users) && IdsUnique(t.groups)
    requires Resolves(t, members, users, a) && Resolves(t, members, users, b)
    requires a != b
    ensures Assignment(t, members, users, a) != Assignment(t, members, users, b)
  {
    var lo, hi := if a < b then a else b, if a < b then b else a;
    if Assignment(t, members, users, a) == Assignment(t, members, users, b) {
      assert Itoa(lo / members) == Itoa(hi / members);
      ItoaInjective(lo / members, hi / members);
      SameGroupClose(lo, hi, members);
      WithinLap(lo, hi, users);
      assert Itoa(lo % users) == Itoa(hi % users);
      ItoaInjective(lo % users, hi % users);
      assert false;
    }
  }

  /** The schedule reads only the users and groups tables. */
  lemma ScheduleFrame(t: Tables, t': Tables, members: int, users: int, lo: int, hi: int)
    requires members > 0 && users > 0
    requires t'.users == t.users && t'.groups == t.groups
    ensures Schedule(t', members, users, lo, hi) == Schedule(t, members, users, lo, hi)
  {
    forall k | lo <= k < hi
      ensures Resolves(t', members, users, k) == Resolves(t, members, users, k)
      ensures Resolves(t, members, users, k) ==> Assignment(t', members, users, k) == Assignment(t, members, users, k)
    {
    }
  }

  /** The first assignment of a non-empty schedule, split off. */
  lemma ScheduleFirst(t: Tables, members: int, users: int, lo: int, hi: int)
    requires members > 0 && users > 0 && lo < hi && Resolves(t, members, users, lo)
    ensures Schedule(t, members, users, lo, hi)
      == {Assignment(t, members, users, lo)} + Schedule(t, members, users, lo + 1, hi)
  {
  }

  /** An assignment below groups * m belongs to one of the groups. */
  lemma DivBelow(k: int, groups: int, m: int)
    requires m > 0 && 0 <= k < groups * m
    ensures 0 <= k / m < groups
  {
    var g := k / m;
    assert k == g * m + k % m;
    GroupBounds(g, groups, m);
    if g < 0 {
      MulMono(-g, m);
    }
  }

  /** Every assignment below groups * members names a user row and a group row. */
  lemma ScheduledResolves(t: Tables, members: int, groups: int, users: int, k: int)
    requires 0 < members && users > 0 && Roster(t, users, groups)
    requires 0 <= k < groups * members
    ensures Resolves(t, members, users, k)
  {
    DivBelow(k, groups, members);
    assert 0 <= k % users < users;
  }

  /** No membership row of assignments lo, ..., hi - 1 is present yet. */
  ghost predicate Unassigned(t: Tables, members: int, users: int, lo: int, hi: int)
    requires members > 0 && users > 0
  {
    forall k :: lo <= k < hi && Resolves(t, members, users, k) ==> Assignment(t, members, users, k) !in t.userGroups
  }

  /**
   * One slot of the inner loop: the insert of assignment k succeeds, and
   * what remains of the schedule is still unassigned afterwards.
   */
  lemma AssignSlot(t: Tables, members: int, groups: int, users: int, group: int, ii: int, user: int)
    requires 0 < members <= users
    requires 0 <= group < groups && 0 <= ii < members
    requires user == (group * members + ii) % users
    requires Roster(t, users, groups)
    requires Unassigned(t, members, users, group * members + ii, groups * members)
    ensures var k := group * members + ii;
      && Resolves(t, members, users, k)
      && var t1 := t.(userGroups := t.userGroups + {Assignment(t, members, users, k)});
      && AddUserToGroup(t, group, user) == Step(Pass, t1)
      && (user + 1) % users == (k + 1) % users
      && Unassigned(t1, members, users, k + 1, groups * members)
      && t.userGroups + Schedule(t, members, users, k, groups * members)
         == t1.userGroups + Schedule(t1, members, users, k + 1, groups * members)
  {
    var k := group * members + ii;
    GroupBounds(group, groups, members);
    SlotOfGroup(group, ii, members);
    ScheduledResolves(t, members, groups, users, k);
    var row := Assignment(t, members, users, k);
    var t1 := t.(userGroups := t.userGroups + {row});
    assert AddUserToGroup(t, group, user) == Step(Pass, t1);
    CounterStep(k, users);
    forall k' | k + 1 <= k' < groups * members && Resolves(t1, members, users, k')
      ensures Assignment(t1, members, users, k') !in t1.userGroups
    {
      AssignmentInjective(t, members, users, k, k');
    }
    ScheduleFrame(t, t1, members, users, k + 1, groups * members);
    ScheduleFirst(t, members, users, k, groups * members);
  }

  /**
   * The nested loops of assignUsersToGroups from group `group`, slot `ii`,
   * with the counter where the schedule puts it: when members <= users and
   * none of the remaining rows is present, every remaining insert succeeds
   * and exactly the remaining assignments are added, the k-th pairing user
   * k mod users with group k / members.
   */
  lemma {:induction false} AssignFromSpec(t: Tables, members: int, groups: int, users: int, group: int, ii: int, user: int)
    requires 0 < members <= users
    requires 0 <= group && 0 <= ii <= members
    requires user == (group * members + ii) % users
    requires Roster(t, users, groups)
    requires Unassigned(t, members, users, group * members + ii, groups * members)
    ensures AssignFrom(t, members, groups, users, group, ii, user)
      == Step(Pass, t.(userGroups := t.userGroups + Schedule(t, members, users, group * members + ii, groups * members)))
    decreases groups - group, members - ii
  {
    if group >= groups {
      GroupBounds(group, groups, members);
      assert Schedule(t, members, users, group * members + ii, groups * members) == {};
    } else if ii >= members {
      NextGroup(group, members, ii);
      AssignFromSpec(t, members, groups, users, group + 1, 0, user);
    } else {
      var t1 := AssignNext(t, members, groups, users, group, ii, user);
      AssignFromSpec(t1, members, groups, users, group, ii + 1, (user + 1) % users);
    }
  }

  /** Slot `members` of group g is slot 0 of group g + 1. */
  lemma NextGroup(g: int, m: int, ii: int)
    requires ii == m
    ensures g * m + ii == (g + 1) * m + 0
  {
  }

  /** The first step of the membership loops, as AssignFromSpec needs it. */
  lemma AssignNext(t: Tables, members: int, groups: int, users: int, group: int, ii: int, user: int) returns (t1: Tables)
    requires 0 < members <= users
    requires 0 <= group < groups && 0 <= ii < members
    requires user == (group * members + ii) % users
    requires Roster(t, users, groups)
    requires Unassigned(t, members, users, group * members + ii, groups * members)
    ensures AssignFrom(t, members, groups, users, group, ii, user)
      == AssignFrom(t1, members, groups, users, group, ii + 1, (user + 1) % users)
    ensures (user + 1) % users == (group * members + (ii + 1)) % users
    ensures Roster(t1, users, groups)
    ensures Unassigned(t1, members, users, group * members + (ii + 1), groups * members)
    ensures t.userGroups + Schedule(t, members, users, group * members + ii, groups * members)
         == t1.userGroups + Schedule(t1, members, users, group * members + (ii + 1), groups * members)
    ensures t1 == t.(userGroups := t1.userGroups)
  {
    AssignSlot(t, members, groups, users, group, ii, user);
    t1 := t.(userGroups := t.userGroups + {Assignment(t, members, users, group * members + ii)});
  }

  /** Distinct assignments give distinct rows, so a schedule of hi - lo assignments has hi - lo rows. */
  lemma {:induction false} ScheduleCount(t: Tables, members: int, groups: int, users: int, lo: int, hi: int)
    requires 0 < members <= users && Roster(t, users, groups)
    requires 0 <= lo <= hi <= groups * members
    ensures |Schedule(t, members, users, lo, hi)| == hi - lo
    decreases hi - lo
  {
    if lo == hi {
      assert Schedule(t, members, users, lo, hi) == {};
    } else {
      ScheduledResolves(t, members, groups, users, lo);
      ScheduleFirst(t, members, users, lo, hi);
      ScheduleCount(t, members, groups, users, lo + 1, hi);
      if Assignment(t, members, users, lo) in Schedule(t, members, users, lo + 1, hi) {
        var k :| lo + 1 <= k < hi && Resolves(t, members, users, k)
                 && Assignment(t, members, users, k) == Assignment(t, members, users, lo);
        AssignmentInjective(t, members, users, lo, k);
      }
    }
  }

  /** With no slots per group the loops insert nothing. */
  lemma {:induction false} AssignFromIdle(t: Tables, members: int, groups: int, users: int, group: int, user: int)
    requires members <= 0 && 0 <= group
    ensures AssignFrom(t, members, groups, users, group, 0, user) == Step(Pass, t)
    decreases groups - group
  {
    if group < groups {
      AssignFromIdle(t, members, groups, users, group + 1, user);
    }
  }

  /**
   * assignUsersToGroups with members <= users (which a sane tuple
   * guarantees) on a store holding the user and group ordinals and none of
   * the scheduled rows: it succeeds, inserting exactly groups * members
   * distinct rows, the k-th pairing user k mod users with group k / members.
   * Every group gets `members` distinct users, so the primary key of
   * user_groups is never violated.
   */
  lemma AssignUsersToGroupsSpec(t: Tables, members: int, groups: int, users: int)
    requires members <= users && (members > 0 && groups > 0 ==> users > 0)
    requires Roster(t, users, groups)
    requires members > 0 ==> Unassigned(t, members, users, 0, groups * members)
    ensures members <= 0 || groups <= 0 ==> AssignUsersToGroups(t, members, groups, users) == Step(Pass, t)
    ensures members > 0 ==>
      && AssignUsersToGroups(t, members, groups, users)
         == Step(Pass, t.(userGroups := t.userGroups + Schedule(t, members, users, 0, groups * members)))
      && |Schedule(t, members, users, 0, groups * members)| == Clamp(groups) * members
  {
    if members <= 0 {
      AssignFromIdle(t, members, groups, users, 0, 0);
    } else {
      assert 0 == (0 * members + 0) % users;
      AssignFromSpec(t, members, groups, users, 0, 0, 0);
      if groups >= 0 {
        GroupBounds(0, groups, members);
        ScheduleCount(t, members, groups, users, 0, groups * members);
      } else {
        GroupBounds(0, groups, members);
        assert Schedule(t, members, users, 0, groups * members) == {};
      }
    }
  }

  /**
   * t' differs from t only in user_groups, which it extends, and keeps the
   * database constraints and, if t had it, referential integrity.
   */
  ghost predicate MembershipsGrown(t: Tables, t': Tables) {
    && t' == t.(userGroups := t'.userGroups)
    && t.userGroups <= t'.userGroups
    && Constrained(t')
    && (Valid(t) ==> Valid(t'))
  }

  lemma MembershipsGrownTrans(t: Tables, t': Tables, t'': Tables)
    requires MembershipsGrown(t, t') && MembershipsGrown(t', t'')
    ensures MembershipsGrown(t, t'')
  {
  }

  /** addUserToGroup changes only user_groups, only grows it, and keeps the invariants. */
  lemma AddUserToGroupValid(t: Tables, group: int, user: int)
    requires Constrained(t)
    ensures MembershipsGrown(t, AddUserToGroup(t, group, user).tables)
  {
  }

  /** The membership loops change only user_groups and keep the invariants. */
  lemma {:induction false} AssignFromValid(t: Tables, members: int, groups: int, users: int, group: int, ii: int, user: int)
    requires Constrained(t)
    requires 0 <= group && 0 <= ii
    requires members > 0 && groups > 0 ==> users > 0
    ensures MembershipsGrown(t, AssignFrom(t, members, groups, users, group, ii, user).tables)
    decreases groups - group, members - ii
  {
    if group < groups {
      if ii >= members {
        AssignFromValid(t, members, groups, users, group + 1, 0, user);
      } else {
        var first := AddUserToGroup(t, group, user);
        AddUserToGroupValid(t, group, user);
        if first.outcome == Pass {
          var next := (user + 1) % users;
          AssignFromValid(first.tables, members, groups, users, group, ii + 1, next);
          MembershipsGrownTrans(t, first.tables, AssignFrom(first.tables, members, groups, users, group, ii + 1, next).tables);
        }
      }
    }
  }
}
