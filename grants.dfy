/**
 * What allowUserAccessToResource / allowGroupAccessToResource do to the
 * aces table, and what the permission phases of prepareData build from it.
 */
module Grants {
  import opened Wrappers
  import opened Schema
  import opened Names
  import opened Actions
  import opened Workload
  import opened Populate

  /** No ACE row gives principal pid of kind e access to resource rid. */
  ghost predicate NoAce(aces: map<int, Ace>, e: Entity, pid: int, rid: int) {
    forall id :: id in aces ==> !(HeldBy(aces[id], e, pid) && aces[id].resourceId == rid)
  }

  /** Row id is the ACE of principal pid of kind e on resource rid. */
  ghost predicate AceOf(aces: map<int, Ace>, id: int, e: Entity, pid: int, rid: int) {
    id in aces && HeldBy(aces[id], e, pid) && aces[id].resourceId == rid
  }

  /** Under the UNIQUE constraints the SELECT finds the one ACE of the pair. */
  lemma FindAceUnique(aces: map<int, Ace>, e: Entity, pid: int, rid: int, id: int)
    requires AcesUnique(aces) && AceOf(aces, id, e, pid, rid)
    ensures FindAce(aces, e, pid, rid) == Some(id)
  {
    var found := FindAce(aces, e, pid, rid);
    assert SamePair(aces[found.value], aces[id]);
  }

  /** The SELECT finds nothing exactly when the pair has no ACE. */
  lemma FindAceNone(aces: map<int, Ace>, e: Entity, pid: int, rid: int)
    ensures FindAce(aces, e, pid, rid).None? <==> NoAce(aces, e, pid, rid)
  {
  }

  /** The principal of kind e with key Itoa(ordinal) and the resource both exist. */
  predicate Resolved(t: Tables, e: Entity, resource: string, ordinal: int) {
    resource in t.resources && Itoa(ordinal) in t.Keyed(e)
  }

  /**
   * When the resource name or the principal key resolves to no row, the
   * first grant transaction fails with sql.ErrNoRows and nothing changes.
   */
  lemma GrantUnresolved(t: Tables, e: Entity, resource: string, ordinal: int, actions: seq<string>)
    requires e != ResourceEntity && actions != []
    requires !Resolved(t, e, resource, ordinal)
    ensures GrantActions(t, e, resource, ordinal, actions) == Step(Fail(NoRows), t)
  {
  }

  /** A grant transaction keeps the database constraints and referential integrity. */
  lemma GrantActionValid(t: Tables, e: Entity, resource: string, ordinal: int, action: string)
    requires e != ResourceEntity && Constrained(t)
    ensures var s := GrantAction(t, e, resource, ordinal, action);
      && s.tables == t.(aces := s.tables.aces, nextId := s.tables.nextId)
      && Constrained(s.tables)
      && (Valid(t) ==> Valid(s.tables))
  {
    if Resolved(t, e, resource, ordinal) {
      var rid := t.resources[resource];
      var pid := t.Keyed(e)[Itoa(ordinal)];
      var found := FindAce(t.aces, e, pid, rid);
      if found.Some? && |t.aces[found.value].actions| > 0 {
        UpdateValid(t, found.value, AppendAction(t.aces[found.value].actions, action));
      } else {
        InsertAceValid(t, NewAce(e, pid, rid, AppendAction("", action)), e, pid, rid);
      }
    }
  }

  /** The UPDATE of one row's actions keeps the constraints and integrity. */
  lemma UpdateValid(t: Tables, id: int, actions: string)
    requires Constrained(t) && id in t.aces
    ensures var t' := t.(aces := t.aces[id := t.aces[id].(actions := actions)]);
      && Constrained(t') && (Valid(t) ==> Valid(t'))
  {
    var t' := t.(aces := t.aces[id := t.aces[id].(actions := actions)]);
    assert AcesUnique(t'.aces) by {
      forall a, b | a in t'.aces && b in t'.aces && SamePair(t'.aces[a], t'.aces[b])
        ensures a == b
      {
        assert SamePair(t.aces[a], t.aces[b]);
      }
    }
    if Valid(t) {
      forall i | i in t'.aces
        ensures Refers(t', t'.aces[i])
      {
        assert Refers(t, t.aces[i]);
      }
    }
  }

  /**
   * The INSERT of a new row x for principal pid of kind e on resource rid
   * keeps the constraints and integrity (when it succeeds at all).
   */
  lemma InsertAceValid(t: Tables, x: Ace, e: Entity, pid: int, rid: int)
    requires Constrained(t) && e != ResourceEntity
    requires x == NewAce(e, pid, rid, x.actions)
    requires pid in t.Keyed(e).Values && rid in t.resources.Values
    ensures var s := InsertAce(t, x);
      && s.tables == t.(aces := s.tables.aces, nextId := s.tables.nextId)
      && Constrained(s.tables) && (Valid(t) ==> Valid(s.tables))
  {
    var s := InsertAce(t, x);
    if s.outcome == Pass {
      assert s.tables == t.(aces := t.aces[t.nextId := x], nextId := t.nextId + 1);
      assert forall id :: id in t.aces ==> !SamePair(t.aces[id], x);
      assert AcesUnique(s.tables.aces) by {
        forall a, b | a in s.tables.aces && b in s.tables.aces && SamePair(s.tables.aces[a], s.tables.aces[b])
          ensures a == b
        {
          if a != t.nextId && b != t.nextId {
            assert SamePair(t.aces[a], t.aces[b]);
          }
        }
      }
      if Valid(t) {
        forall id | id in s.tables.aces
          ensures Refers(s.tables, s.tables.aces[id])
        {
          if id != t.nextId {
            assert Refers(t, t.aces[id]);
          }
        }
      }
    }
  }


  /** The grant loop keeps the database constraints and referential integrity. */
  lemma {:induction false} GrantActionsValid(t: Tables, e: Entity, resource: string, ordinal: int, actions: seq<string>)
    requires e != ResourceEntity && Constrained(t)
    ensures var s := GrantActions(t, e, resource, ordinal, actions);
      && s.tables == t.(aces := s.tables.aces, nextId := s.tables.nextId)
      && Constrained(s.tables)
      && (Valid(t) ==> Valid(s.tables))
    decreases |actions|
  {
    if actions != [] {
      GrantActionValid(t, e, resource, ordinal, actions[0]);
      var first := GrantAction(t, e, resource, ordinal, actions[0]);
      if first.outcome == Pass {
        GrantActionsValid(first.tables, e, resource, ordinal, actions[1..]);
      }
    }
  }

  /**
   * When the pair already has a row with non-empty actions, every grant
   * takes the UPDATE path: the actions are appended to that row, one by
   * one, with no deduplication, and nothing else changes.
   */
  lemma {:induction false} GrantActionsExisting(t: Tables, e: Entity, resource: string, ordinal: int, id: int, actions: seq<string>)
    requires e != ResourceEntity && Constrained(t) && Resolved(t, e, resource, ordinal)
    requires AceOf(t.aces, id, e, t.Keyed(e)[Itoa(ordinal)], t.resources[resource])
    requires t.aces[id].actions != ""
    ensures GrantActions(t, e, resource, ordinal, actions)
      == Step(Pass, t.(aces := t.aces[id := t.aces[id].(actions := GrantAll(t.aces[id].actions, actions))]))
    decreases |actions|
  {
    if actions != [] {
      var rid, pid := t.resources[resource], t.Keyed(e)[Itoa(ordinal)];
      FindAceUnique(t.aces, e, pid, rid, id);
      var x := t.aces[id];
      var t1 := t.(aces := t.aces[id := x.(actions := AppendAction(x.actions, actions[0]))]);
      assert GrantAction(t, e, resource, ordinal, actions[0]) == Step(Pass, t1);
      GrantActionValid(t, e, resource, ordinal, actions[0]);
      GrantActionsExisting(t1, e, resource, ordinal, id, actions[1..]);
      assert t1.aces[id := t1.aces[id].(actions := GrantAll(t1.aces[id].actions, actions[1..]))]
          == t.aces[id := x.(actions := GrantAll(x.actions, actions))];
    } else {
      assert t.aces[id := t.aces[id].(actions := GrantAll(t.aces[id].actions, actions))] == t.aces;
    }
  }

  /** The INSERT path: the first grant on a pair with no row adds one under a fresh id. */
  lemma GrantFresh(t: Tables, e: Entity, resource: string, ordinal: int, action: string)
    requires e != ResourceEntity && Constrained(t) && Resolved(t, e, resource, ordinal)
    requires NoAce(t.aces, e, t.Keyed(e)[Itoa(ordinal)], t.resources[resource])
    ensures t.nextId !in t.aces
    ensures GrantAction(t, e, resource, ordinal, action)
      == Step(Pass, t.(aces := t.aces[t.nextId := NewAce(e, t.Keyed(e)[Itoa(ordinal)], t.resources[resource], AppendAction("", action))],
                       nextId := t.nextId + 1))
  {
    var rid, pid := t.resources[resource], t.Keyed(e)[Itoa(ordinal)];
    FindAceNone(t.aces, e, pid, rid);
    var x := NewAce(e, pid, rid, AppendAction("", action));
    assert forall id :: id in t.aces ==> !SamePair(t.aces[id], x);
  }

  /**
   * When the pair has no row, the first grant INSERTs one under a fresh id,
   * holding the first action and a NULL in the other principal column; the
   * later grants find it and append to it.
   */
  lemma GrantActionsFresh(t: Tables, e: Entity, resource: string, ordinal: int, actions: seq<string>)
    requires e != ResourceEntity && Constrained(t) && Resolved(t, e, resource, ordinal)
    requires NoAce(t.aces, e, t.Keyed(e)[Itoa(ordinal)], t.resources[resource])
    requires actions != [] && IsActionName(actions[0])
    ensures t.nextId !in t.aces
    ensures GrantActions(t, e, resource, ordinal, actions)
      == Step(Pass, t.(aces := t.aces[t.nextId := NewAce(e, t.Keyed(e)[Itoa(ordinal)], t.resources[resource], GrantAll("", actions))],
                       nextId := t.nextId + 1))
  {
    var rid, pid := t.resources[resource], t.Keyed(e)[Itoa(ordinal)];
    GrantFresh(t, e, resource, ordinal, actions[0]);
    var x := NewAce(e, pid, rid, actions[0]);
    var t1 := t.(aces := t.aces[t.nextId := x], nextId := t.nextId + 1);
    GrantActionValid(t, e, resource, ordinal, actions[0]);
    assert GrantActions(t, e, resource, ordinal, actions) == GrantActions(t1, e, resource, ordinal, actions[1..]);
    GrantActionsExisting(t1, e, resource, ordinal, t.nextId, actions[1..]);
    assert GrantAll("", actions) == GrantAll(actions[0], actions[1..]);
  }

  /**
   * The update path is taken only for non-empty actions: a row of the pair
   * whose actions are empty sends the grant down the INSERT path, which the
   * pair's UNIQUE constraint rejects, changing nothing.
   */
  lemma GrantOnEmptyRow(t: Tables, e: Entity, resource: string, ordinal: int, id: int, action: string)
    requires e != ResourceEntity && Constrained(t) && Resolved(t, e, resource, ordinal)
    requires AceOf(t.aces, id, e, t.Keyed(e)[Itoa(ordinal)], t.resources[resource])
    requires t.aces[id].actions == ""
    ensures GrantAction(t, e, resource, ordinal, action)
      == Step(Fail(UniqueViolation(if e == UserEntity then UserResourceUnique else GroupResourceUnique)), t)
  {
    var rid, pid := t.resources[resource], t.Keyed(e)[Itoa(ordinal)];
    FindAceUnique(t.aces, e, pid, rid, id);
    assert SamePair(t.aces[id], NewAce(e, pid, rid, AppendAction("", action)));
  }

  /**
   * allowUserAccessToResource / allowGroupAccessToResource on a pair with
   * no row: exactly one new row, holding "create,read,update,delete", the
   * principal's id, and NULL in the other principal column.
   */
  lemma AllowFresh(t: Tables, e: Entity, resource: string, ordinal: int)
    requires e != ResourceEntity && Constrained(t) && Resolved(t, e, resource, ordinal)
    requires NoAce(t.aces, e, t.Keyed(e)[Itoa(ordinal)], t.resources[resource])
    ensures t.nextId !in t.aces
    ensures GrantActions(t, e, resource, ordinal, Granted)
      == Step(Pass, t.(aces := t.aces[t.nextId := NewAce(e, t.Keyed(e)[Itoa(ordinal)], t.resources[resource], FullColumn)],
                       nextId := t.nextId + 1))
    ensures var x := NewAce(e, t.Keyed(e)[Itoa(ordinal)], t.resources[resource], FullColumn);
      && x.resourceId == t.resources[resource]
      && x.actions == "create,read,update,delete"
      && (e == UserEntity ==> x.userId == Some(t.users[Itoa(ordinal)]) && x.groupId.None?)
      && (e == GroupEntity ==> x.groupId == Some(t.groups[Itoa(ordinal)]) && x.userId.None?)
  {
    assert IsActionName(Granted[0]);
    GrantActionsFresh(t, e, resource, ordinal, Granted);
    GrantedFromEmpty();
  }

  /**
   * The same call on a pair whose row has non-empty actions: the four names
   * are appended to that row, even when it lists them already.
   */
  lemma AllowExisting(t: Tables, e: Entity, resource: string, ordinal: int, id: int)
    requires e != ResourceEntity && Constrained(t) && Resolved(t, e, resource, ordinal)
    requires AceOf(t.aces, id, e, t.Keyed(e)[Itoa(ordinal)], t.resources[resource])
    requires t.aces[id].actions != ""
    ensures GrantActions(t, e, resource, ordinal, Granted)
      == Step(Pass, t.(aces := t.aces[id := t.aces[id].(actions := t.aces[id].actions + "," + FullColumn)]))
  {
    GrantActionsExisting(t, e, resource, ordinal, id, Granted);
    GrantedAppended(t.aces[id].actions);
  }

  // ----- Permission phases -------------------------------------------------

  /** Principal ordinal n of kind e holds "create,read,update,delete" on resource r. */
  ghost predicate HasFullGrant(t: Tables, e: Entity, n: int, r: string) {
    && Resolved(t, e, r, n)
    && exists id :: id in t.aces && t.aces[id] == NewAce(e, t.Keyed(e)[Itoa(n)], t.resources[r], FullColumn)
  }

  /** None of the principal ordinals lo, ..., hi - 1 has an ACE on resource rid. */
  ghost predicate Ungranted(t: Tables, e: Entity, rid: int, lo: int, hi: int) {
    forall n :: lo <= n < hi && Itoa(n) in t.Keyed(e) ==> NoAce(t.aces, e, t.Keyed(e)[Itoa(n)], rid)
  }

  /** The names of resources lo, ..., hi - 1 of phase e. */
  function ResourceNames(e: Entity, lo: int, hi: int): set<string> {
    set q | lo <= q < hi :: ResourceName(e, q)
  }

  /** A grant stays when rows are only added to aces and resources. */
  lemma FullGrantKept(t: Tables, t': Tables, e: Entity, n: int, r: string)
    requires HasFullGrant(t, e, n, r)
    requires t'.Keyed(e) == t.Keyed(e) && Extends(t.resources, t'.resources) && Extends(t.aces, t'.aces)
    ensures HasFullGrant(t', e, n, r)
  {
    var id :| id in t.aces && t.aces[id] == NewAce(e, t.Keyed(e)[Itoa(n)], t.resources[r], FullColumn);
    assert t'.aces[id] == t.aces[id];
  }

  /** The inner permission loop changes only aces and the id counter, and keeps the invariants. */
  lemma {:induction false} GrantEachValid(t: Tables, e: Entity, r: string, n: int, principals: int)
    requires e != ResourceEntity && Constrained(t)
    ensures var s := GrantEach(t, e, r, n, principals);
      && s.tables == t.(aces := s.tables.aces, nextId := s.tables.nextId)
      && Constrained(s.tables)
      && (Valid(t) ==> Valid(s.tables))
    decreases principals - n
  {
    if n < principals {
      GrantActionsValid(t, e, r, n, Granted);
      var first := GrantActions(t, e, r, n, Granted);
      if first.outcome == Pass {
        GrantEachValid(first.tables, e, r, n + 1, principals);
      }
    }
  }

  /**
   * t' keeps the principals, memberships and configs of t, the database
   * constraints, and referential integrity if t had it.
   */
  ghost predicate PrincipalsKept(t: Tables, t': Tables) {
    && t'.users == t.users && t'.groups == t.groups
    && t'.userGroups == t.userGroups && t'.configs == t.configs
    && Constrained(t') && (Valid(t) ==> Valid(t'))
  }

  lemma PrincipalsKeptTrans(t: Tables, t': Tables, t'': Tables)
    requires PrincipalsKept(t, t') && PrincipalsKept(t', t'')
    ensures PrincipalsKept(t, t'')
  {
  }

  /** The permission phases leave users, groups, memberships and configs alone, and keep the invariants. */
  lemma {:induction false} PermissionsFromValid(t: Tables, e: Entity, permissions: int, principals: int, p: int)
    requires e != ResourceEntity && Constrained(t)
    ensures PrincipalsKept(t, PermissionsFrom(t, e, permissions, principals, p).tables)
    decreases permissions - p
  {
    if p < permissions {
      var name := ResourceName(e, p);
      var t1 := AddResource(t, name);
      ResourceStepValid(t, e, name, principals);
      if t1.outcome == Pass {
        var t2 := GrantEach(t1.tables, e, name, 0, principals);
        if t2.outcome == Pass {
          PermissionsFromValid(t2.tables, e, permissions, principals, p + 1);
          PrincipalsKeptTrans(t, t2.tables, PermissionsFrom(t2.tables, e, permissions, principals, p + 1).tables);
        }
      }
    }
  }

  /** The permission phases add only generated, hence literal, resource names. */
  lemma {:induction false} PermissionsFromLiteral(t: Tables, e: Entity, permissions: int, principals: int, p: int)
    requires e != ResourceEntity && Constrained(t) && KeysLiteral(t)
    ensures KeysLiteral(PermissionsFrom(t, e, permissions, principals, p).tables)
    decreases permissions - p
  {
    if p < permissions {
      var name := ResourceName(e, p);
      NoLikeWildcards(p);
      ResourceStepLiteral(t, e, name, principals);
      ResourceStepValid(t, e, name, principals);
      var t1 := AddResource(t, name);
      if t1.outcome == Pass {
        var t2 := GrantEach(t1.tables, e, name, 0, principals);
        if t2.outcome == Pass {
          PermissionsFromLiteral(t2.tables, e, permissions, principals, p + 1);
        }
      }
    }
  }

  /** One outer iteration of the permission loops keeps every key literal. */
  lemma ResourceStepLiteral(t: Tables, e: Entity, name: string, principals: int)
    requires e != ResourceEntity && Constrained(t) && KeysLiteral(t) && LikeLiteral(name)
    ensures var t1 := AddResource(t, name);
      && KeysLiteral(t1.tables)
      && (t1.outcome == Pass ==> KeysLiteral(GrantEach(t1.tables, e, name, 0, principals).tables))
  {
    InsertLiteral(t, ResourceEntity, name);
    InsertValid(t, ResourceEntity, name);
    var t1 := AddResource(t, name);
    if t1.outcome == Pass {
      GrantEachValid(t1.tables, e, name, 0, principals);
      AcesOnlyLiteral(t1.tables, GrantEach(t1.tables, e, name, 0, principals).tables);
    }
  }

  /** Tables that differ only in aces and the id counter have the same keys. */
  lemma AcesOnlyLiteral(t: Tables, t': Tables)
    requires KeysLiteral(t) && t' == t.(aces := t'.aces, nextId := t'.nextId)
    ensures KeysLiteral(t')
  {
    assert forall f :: t'.Keyed(f) == t.Keyed(f);
  }

  /** One outer iteration of the permission loops keeps the invariants of PermissionsFromValid. */
  lemma ResourceStepValid(t: Tables, e: Entity, name: string, principals: int)
    requires e != ResourceEntity && Constrained(t)
    ensures var t1 := AddResource(t, name);
      && PrincipalsKept(t, t1.tables)
      && (t1.outcome == Pass ==> PrincipalsKept(t, GrantEach(t1.tables, e, name, 0, principals).tables))
  {
    InsertSpec(t, ResourceEntity, name);
    InsertValid(t, ResourceEntity, name);
    var t1 := AddResource(t, name);
    if t1.outcome == Pass {
      GrantEachValid(t1.tables, e, name, 0, principals);
    }
  }


  /** One principal of the inner loop: a new full row, and the later principals still have none. */
  lemma GrantEachStep(t: Tables, e: Entity, r: string, n: int, principals: int)
    requires e != ResourceEntity && Constrained(t) && r in t.resources && 0 <= n < principals
    requires HasOrdinals(t.Keyed(e), principals)
    requires Ungranted(t, e, t.resources[r], n, principals)
    ensures var s := GrantActions(t, e, r, n, Granted);
      && s.outcome == Pass
      && s.tables == t.(aces := s.tables.aces, nextId := s.tables.nextId)
      && Extends(t.aces, s.tables.aces)
      && |s.tables.aces| == |t.aces| + 1
      && HasFullGrant(s.tables, e, n, r)
      && Ungranted(s.tables, e, t.resources[r], n + 1, principals)
      && Constrained(s.tables)
  {
    var rid, pid := t.resources[r], t.Keyed(e)[Itoa(n)];
    AllowFresh(t, e, r, n);
    GrantActionsValid(t, e, r, n, Granted);
    var x := NewAce(e, pid, rid, FullColumn);
    var t1 := t.(aces := t.aces[t.nextId := x], nextId := t.nextId + 1);
    assert t1.aces[t.nextId] == x;
    ConstrainedKeyed(t, e);
    forall j | n + 1 <= j < principals && Itoa(j) in t1.Keyed(e)
      ensures NoAce(t1.aces, e, t1.Keyed(e)[Itoa(j)], rid)
    {
      ItoaInjective(j, n);
      assert t.Keyed(e)[Itoa(j)] != pid;
    }
  }

  /**
   * The inner loop of assignUserPermissions / assignGroupPermissions on a
   * resource none of the principals n, ..., principals - 1 has an ACE on:
   * every grant succeeds and each principal gets one new row with the four
   * actions.
   */
  lemma {:induction false} GrantEachSpec(t: Tables, e: Entity, r: string, n: int, principals: int)
    requires e != ResourceEntity && Constrained(t) && r in t.resources && 0 <= n
    requires HasOrdinals(t.Keyed(e), principals)
    requires Ungranted(t, e, t.resources[r], n, principals)
    ensures var s := GrantEach(t, e, r, n, principals);
      && s.outcome == Pass
      && s.tables == t.(aces := s.tables.aces, nextId := s.tables.nextId)
      && Extends(t.aces, s.tables.aces)
      && |s.tables.aces| == |t.aces| + Clamp(principals - n)
      && (forall j :: n <= j < principals ==> HasFullGrant(s.tables, e, j, r))
    decreases principals - n
  {
    if n < principals {
      GrantEachStep(t, e, r, n, principals);
      var t1 := GrantActions(t, e, r, n, Granted).tables;
      GrantEachSpec(t1, e, r, n + 1, principals);
      var s := GrantEach(t1, e, r, n + 1, principals);
      FullGrantKept(t1, s.tables, e, n, r);
    }
  }

  /** The full grants of resource id rid to the principal ordinals lo, ..., hi - 1 of kind e. */
  function GrantRows(t: Tables, e: Entity, rid: int, lo: int, hi: int): set<Ace> {
    set j | lo <= j < hi && Itoa(j) in t.Keyed(e) :: NewAce(e, t.Keyed(e)[Itoa(j)], rid, FullColumn)
  }

  /**
   * The full grants of resources 0, ..., permissions - 1 of phase e to the
   * principal ordinals 0, ..., principals - 1, by the ids of these tables.
   */
  function PhaseRows(t: Tables, e: Entity, permissions: int, principals: int): set<Ace> {
    set q, j | 0 <= q < permissions && 0 <= j < principals && Itoa(j) in t.Keyed(e) && ResourceName(e, q) in t.resources
      :: NewAce(e, t.Keyed(e)[Itoa(j)], t.resources[ResourceName(e, q)], FullColumn)
  }

  /** A phase's rows stay rows of the phase as resources are added. */
  lemma PhaseRowsGrow(t: Tables, t': Tables, e: Entity, permissions: int, principals: int)
    requires t'.Keyed(e) == t.Keyed(e) && Extends(t.resources, t'.resources)
    ensures PhaseRows(t, e, permissions, principals) <= PhaseRows(t', e, permissions, principals)
  {
    forall x | x in PhaseRows(t, e, permissions, principals)
      ensures x in PhaseRows(t', e, permissions, principals)
    {
      var q, j :| 0 <= q < permissions && 0 <= j < principals && Itoa(j) in t.Keyed(e) && ResourceName(e, q) in t.resources
        && x == NewAce(e, t.Keyed(e)[Itoa(j)], t.resources[ResourceName(e, q)], FullColumn);
      assert Itoa(j) in t'.Keyed(e) && ResourceName(e, q) in t'.resources;
    }
  }

  /** Every row of a phase grants all four actions. */
  lemma PhaseRowsFull(t: Tables, e: Entity, permissions: int, principals: int, x: Ace)
    requires x in PhaseRows(t, e, permissions, principals)
    ensures x.actions == FullColumn
  {
  }

  /** Rows added in two steps are rows added by the first step or by the second. */
  lemma NewRowsCompose(a: map<int, Ace>, b: map<int, Ace>, c: map<int, Ace>, first: set<Ace>, second: set<Ace>)
    requires forall id :: id in b && id !in a ==> b[id] in first
    requires Extends(b, c)
    requires forall id :: id in c && id !in b ==> c[id] in second
    ensures forall id :: id in c && id !in a ==> c[id] in first + second
  {
  }

  /**
   * The rows the inner permission loop adds: each is the full grant of
   * resource r to one of the principals n, ..., principals - 1.
   */
  lemma {:induction false} GrantEachNew(t: Tables, e: Entity, r: string, n: int, principals: int)
    requires e != ResourceEntity && Constrained(t) && r in t.resources && 0 <= n
    requires HasOrdinals(t.Keyed(e), principals)
    requires Ungranted(t, e, t.resources[r], n, principals)
    ensures var s := GrantEach(t, e, r, n, principals).tables;
      forall id :: id in s.aces && id !in t.aces ==> s.aces[id] in GrantRows(t, e, t.resources[r], n, principals)
    decreases principals - n
  {
    if n < principals {
      var rid := t.resources[r];
      GrantEachStep(t, e, r, n, principals);
      AllowFresh(t, e, r, n);
      var x := NewAce(e, t.Keyed(e)[Itoa(n)], rid, FullColumn);
      var t1 := GrantActions(t, e, r, n, Granted).tables;
      assert t1.aces == t.aces[t.nextId := x];
      assert x in GrantRows(t, e, rid, n, principals);
      GrantEachNew(t1, e, r, n + 1, principals);
      GrantEachSpec(t1, e, r, n + 1, principals);
      var s := GrantEach(t1, e, r, n + 1, principals).tables;
      NewRowsCompose(t.aces, t1.aces, s.aces, GrantRows(t, e, rid, n, principals), GrantRows(t1, e, rid, n + 1, principals));
      assert GrantRows(t1, e, rid, n + 1, principals) <= GrantRows(t, e, rid, n, principals);
    }
  }

  /** The grants of resource p to the phase's principals are rows of the phase. */
  lemma GrantRowsInPhase(t: Tables, s: Tables, e: Entity, permissions: int, principals: int, p: int)
    requires 0 <= p < permissions && s.Keyed(e) == t.Keyed(e) && ResourceName(e, p) in s.resources && s.resources[ResourceName(e, p)] == t.nextId
    ensures GrantRows(t, e, t.nextId, 0, principals) <= PhaseRows(s, e, permissions, principals)
  {
    forall x | x in GrantRows(t, e, t.nextId, 0, principals)
      ensures x in PhaseRows(s, e, permissions, principals)
    {
      var j :| 0 <= j < principals && Itoa(j) in t.Keyed(e)
        && x == NewAce(e, t.Keyed(e)[Itoa(j)], t.nextId, FullColumn);
      assert 0 <= p < permissions && 0 <= j < principals && Itoa(j) in s.Keyed(e) && ResourceName(e, p) in s.resources;
    }
  }

  /** The rows of one outer iteration and of the rest of the loop are rows of the phase. */
  lemma PhaseNewRows(t: Tables, t2: Tables, s: Tables, e: Entity, permissions: int, principals: int, p: int)
    requires 0 <= p < permissions && s.Keyed(e) == t.Keyed(e)
    requires ResourceName(e, p) in s.resources && s.resources[ResourceName(e, p)] == t.nextId
    requires forall id :: id in t2.aces && id !in t.aces ==> t2.aces[id] in GrantRows(t, e, t.nextId, 0, principals)
    requires Extends(t2.aces, s.aces)
    requires forall id :: id in s.aces && id !in t2.aces ==> s.aces[id] in PhaseRows(s, e, permissions, principals)
    ensures forall id :: id in s.aces && id !in t.aces ==> s.aces[id] in PhaseRows(s, e, permissions, principals)
  {
    GrantRowsInPhase(t, s, e, permissions, principals, p);
    NewRowsCompose(t.aces, t2.aces, s.aces, GrantRows(t, e, t.nextId, 0, principals), PhaseRows(s, e, permissions, principals));
  }

  /** The rows one outer iteration adds: the full grants of the new resource. */
  lemma PermissionStepNew(t: Tables, e: Entity, principals: int, p: int)
    requires e != ResourceEntity && Valid(t) && 0 <= p
    requires HasOrdinals(t.Keyed(e), principals)
    requires ResourceName(e, p) !in t.resources
    ensures var t2 := GrantEach(AddResource(t, ResourceName(e, p)).tables, e, ResourceName(e, p), 0, principals).tables;
      forall id :: id in t2.aces && id !in t.aces ==> t2.aces[id] in GrantRows(t, e, t.nextId, 0, principals)
  {
    var t1 := PermissionStart(t, e, principals, p);
    GrantEachNew(t1, e, ResourceName(e, p), 0, principals);
    assert GrantRows(t1, e, t.nextId, 0, principals) == GrantRows(t, e, t.nextId, 0, principals);
  }

  /**
   * The rows the permission loop from resource p on adds are full grants of
   * the phase's resources to its principals, and nothing else.
   */
  lemma {:induction false} PermissionsFromNew(t: Tables, e: Entity, permissions: int, principals: int, p: int)
    requires e != ResourceEntity && Valid(t) && 0 <= p
    requires HasOrdinals(t.Keyed(e), principals)
    requires forall q :: p <= q < permissions ==> ResourceName(e, q) !in t.resources
    ensures var s := PermissionsFrom(t, e, permissions, principals, p).tables;
      forall id :: id in s.aces && id !in t.aces ==> s.aces[id] in PhaseRows(s, e, permissions, principals)
    decreases permissions - p
  {
    if p < permissions {
      var t2 := PermissionStep(t, e, permissions, principals, p);
      PermissionStepNew(t, e, principals, p);
      PermissionsFromNew(t2, e, permissions, principals, p + 1);
      PermissionsFromSpec(t2, e, permissions, principals, p + 1);
      var s := PermissionsFrom(t2, e, permissions, principals, p + 1).tables;
      PhaseNewRows(t, t2, s, e, permissions, principals, p);
    }
  }

  /** The names of a phase's resources, the first one split off. */
  lemma ResourceNamesFirst(e: Entity, p: int, permissions: int)
    requires p < permissions
    ensures ResourceNames(e, p, permissions) == {ResourceName(e, p)} + ResourceNames(e, p + 1, permissions)
  {
  }

  /**
   * One iteration of the outer permission loop: the resource is inserted
   * and granted to every principal, and the loop goes on from the next
   * resource with the store this leaves.
   */
  lemma PermissionStep(t: Tables, e: Entity, permissions: int, principals: int, p: int) returns (t2: Tables)
    requires e != ResourceEntity && Valid(t) && 0 <= p < permissions
    requires HasOrdinals(t.Keyed(e), principals)
    requires forall q :: p <= q < permissions ==> ResourceName(e, q) !in t.resources
    ensures t2 == GrantEach(AddResource(t, ResourceName(e, p)).tables, e, ResourceName(e, p), 0, principals).tables
    ensures PermissionsFrom(t, e, permissions, principals, p) == PermissionsFrom(t2, e, permissions, principals, p + 1)
    ensures Valid(t2) && t2.Keyed(e) == t.Keyed(e)
    ensures t2.resources == t.resources[ResourceName(e, p) := t.nextId]
    ensures forall q :: p + 1 <= q < permissions ==> ResourceName(e, q) !in t2.resources
    ensures Extends(t.aces, t2.aces) && |t2.aces| == |t.aces| + Clamp(principals)
    ensures forall j :: 0 <= j < principals ==> HasFullGrant(t2, e, j, ResourceName(e, p))
  {
    var name := ResourceName(e, p);
    var t1 := PermissionStart(t, e, principals, p);
    GrantEachSpec(t1, e, name, 0, principals);
    GrantEachValid(t1, e, name, 0, principals);
    t2 := GrantEach(t1, e, name, 0, principals).tables;
    forall q | p + 1 <= q < permissions
      ensures ResourceName(e, q) !in t2.resources
    {
      ResourceNamesDistinct(q, p);
    }
  }

  /** FullGrantKept, for every principal of the phase. */
  lemma FullGrantsKept(t: Tables, t': Tables, e: Entity, principals: int, r: string)
    requires forall j :: 0 <= j < principals ==> HasFullGrant(t, e, j, r)
    requires t'.Keyed(e) == t.Keyed(e) && Extends(t.resources, t'.resources) && Extends(t.aces, t'.aces)
    ensures forall j :: 0 <= j < principals ==> HasFullGrant(t', e, j, r)
  {
    forall j | 0 <= j < principals
      ensures HasFullGrant(t', e, j, r)
    {
      FullGrantKept(t, t', e, j, r);
    }
  }

  /** Counting the rows of the remaining iterations. */
  lemma RowCount(rows: int, permissions: int, principals: int, p: int)
    requires p < permissions
    ensures rows + Clamp(principals) + Clamp(permissions - (p + 1)) * Clamp(principals)
         == rows + Clamp(permissions - p) * Clamp(principals)
  {
  }

  /**
   * What the permission loop from resource p on leaves in s, starting from
   * t: the resources ResourceName(e, p), ..., ResourceName(e, permissions - 1)
   * added, and one ACE with the four actions per (principal, resource) pair,
   * permissions * principals new rows in all, the old rows kept.
   */
  ghost predicate PhaseResult(t: Tables, s: Tables, e: Entity, permissions: int, principals: int, p: int) {
    && s.Keyed(e) == t.Keyed(e)
    && Extends(t.resources, s.resources)
    && s.resources.Keys == t.resources.Keys + ResourceNames(e, p, permissions)
    && Extends(t.aces, s.aces)
    && |s.aces| == |t.aces| + Clamp(permissions - p) * Clamp(principals)
    && (forall q, j :: p <= q < permissions && 0 <= j < principals ==> HasFullGrant(s, e, j, ResourceName(e, q)))
  }

  /** PhaseResult of the first iteration followed by PhaseResult of the rest. */
  lemma PhaseResultStep(t: Tables, t2: Tables, s: Tables, e: Entity, permissions: int, principals: int, p: int)
    requires 0 <= p < permissions
    requires t2.Keyed(e) == t.Keyed(e)
    requires t2.resources == t.resources[ResourceName(e, p) := t.nextId] && ResourceName(e, p) !in t.resources
    requires Extends(t.aces, t2.aces) && |t2.aces| == |t.aces| + Clamp(principals)
    requires forall j :: 0 <= j < principals ==> HasFullGrant(t2, e, j, ResourceName(e, p))
    requires PhaseResult(t2, s, e, permissions, principals, p + 1)
    ensures PhaseResult(t, s, e, permissions, principals, p)
  {
    PhaseGrantsStep(t2, s, e, permissions, principals, p);
    PhaseRowsStep(t, t2, s, e, ResourceName(e, p), ResourceNames(e, p + 1, permissions),
                  Clamp(principals), Clamp(permissions - (p + 1)) * Clamp(principals));
    ResourceNamesFirst(e, p, permissions);
    RowCount(|t.aces|, permissions, principals, p);
  }

  /** The table part of PhaseResultStep: keys and kept rows, a first iteration followed by the rest. */
  lemma PhaseRowsStep(t: Tables, t2: Tables, s: Tables, e: Entity, name: string, rest: set<string>, a: int, b: int)
    requires t2.Keyed(e) == t.Keyed(e) && s.Keyed(e) == t2.Keyed(e)
    requires t2.resources == t.resources[name := t.nextId] && name !in t.resources
    requires Extends(t.aces, t2.aces) && |t2.aces| == |t.aces| + a
    requires Extends(t2.resources, s.resources) && s.resources.Keys == t2.resources.Keys + rest
    requires Extends(t2.aces, s.aces) && |s.aces| == |t2.aces| + b
    ensures s.Keyed(e) == t.Keyed(e)
    ensures Extends(t.resources, s.resources) && s.resources.Keys == t.resources.Keys + ({name} + rest)
    ensures Extends(t.aces, s.aces) && |s.aces| == |t.aces| + (a + b)
  {
    assert Extends(t.resources, t2.resources);
    ExtendsTrans(t.resources, t2.resources, s.resources);
    ExtendsTrans(t.aces, t2.aces, s.aces);
    KeysUpdate(t.resources, name, t.nextId);
    UnionAssoc(t.resources.Keys, {name}, rest);
  }

  /** The grants part of PhaseResultStep: the first resource's grants survive the later iterations. */
  lemma PhaseGrantsStep(t2: Tables, s: Tables, e: Entity, permissions: int, principals: int, p: int)
    requires forall j :: 0 <= j < principals ==> HasFullGrant(t2, e, j, ResourceName(e, p))
    requires PhaseResult(t2, s, e, permissions, principals, p + 1)
    ensures forall q, j :: p <= q < permissions && 0 <= j < principals ==> HasFullGrant(s, e, j, ResourceName(e, q))
  {
    FullGrantsKept(t2, s, e, principals, ResourceName(e, p));
  }

  /**
   * The outer loop of assignUserPermissions / assignGroupPermissions from
   * resource p on, on a store that has none of the resource names yet: every
   * step succeeds, with the PhaseResult above.
   */
  lemma {:induction false} PermissionsFromSpec(t: Tables, e: Entity, permissions: int, principals: int, p: int)
    requires e != ResourceEntity && Valid(t) && 0 <= p
    requires HasOrdinals(t.Keyed(e), principals)
    requires forall q :: p <= q < permissions ==> ResourceName(e, q) !in t.resources
    ensures PermissionsFrom(t, e, permissions, principals, p).outcome == Pass
    ensures PhaseResult(t, PermissionsFrom(t, e, permissions, principals, p).tables, e, permissions, principals, p)
    decreases permissions - p
  {
    if p >= permissions {
      assert ResourceNames(e, p, permissions) == {};
    } else {
      var t2 := PermissionStep(t, e, permissions, principals, p);
      PermissionsFromSpec(t2, e, permissions, principals, p + 1);
      PhaseResultStep(t, t2, PermissionsFrom(t2, e, permissions, principals, p + 1).tables, e, permissions, principals, p);
    }
  }

  /** assignUserPermissions / assignGroupPermissions as a whole, on a store without the phase's resources. */
  lemma PermissionPhase(t: Tables, e: Entity, permissions: int, principals: int) returns (t': Tables)
    requires e != ResourceEntity && Valid(t)
    requires HasOrdinals(t.Keyed(e), principals)
    requires forall q :: 0 <= q < permissions ==> ResourceName(e, q) !in t.resources
    ensures PermissionsFrom(t, e, permissions, principals, 0) == Step(Pass, t')
    ensures PhaseResult(t, t', e, permissions, principals, 0)
    ensures Valid(t')
    ensures t'.users == t.users && t'.groups == t.groups && t'.userGroups == t.userGroups && t'.configs == t.configs
  {
    PermissionsFromSpec(t, e, permissions, principals, 0);
    PermissionsFromValid(t, e, permissions, principals, 0);
    t' := PermissionsFrom(t, e, permissions, principals, 0).tables;
  }

  /** The resource insert at the head of each outer iteration, on a fresh name. */
  lemma PermissionStart(t: Tables, e: Entity, principals: int, p: int) returns (t1: Tables)
    requires e != ResourceEntity && Valid(t)
    requires ResourceName(e, p) !in t.resources
    ensures AddResource(t, ResourceName(e, p)) == Step(Pass, t1)
    ensures t1 == t.(resources := t.resources[ResourceName(e, p) := t.nextId], nextId := t.nextId + 1)
    ensures Valid(t1)
    ensures Ungranted(t1, e, t1.resources[ResourceName(e, p)], 0, principals)
  {
    var name := ResourceName(e, p);
    InsertValid(t, ResourceEntity, name);
    t1 := AddResource(t, name).tables;
    forall n, id | 0 <= n < principals && Itoa(n) in t1.Keyed(e) && id in t1.aces
      ensures !(HeldBy(t1.aces[id], e, t1.Keyed(e)[Itoa(n)]) && t1.aces[id].resourceId == t.nextId)
    {
      assert Refers(t, t.aces[id]);
    }
  }
}
