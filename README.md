# Load generator for an access-control dataset, in Dafny

This project models the workload generator of `load/load.go` and proves properties of the model. The generator is a load tool that grows an access-control dataset (users, groups, memberships, resources and access-control entries, ACEs) iteration by iteration and tears it down after each one. The model covers:

- the record-count tuple of an iteration and its sanity check;
- the single-row mutators and their loops (`addUsers`, `addGroups`, `assignUsersToGroups`);
- the per-action read-modify-write ACE upsert (`allowUserAccessToResource`, `allowGroupAccessToResource`) and the permission phases;
- `prepareData`;
- the teardown (`removeData` with its find and remove helpers);
- `runWithCounts`.

Layout:

- `counts.dfy` (`Counts`): the five-count tuple, `sane`, `recordCountForIteration` and its loops.
- `names.dfy` (`Names`): `strconv.Itoa` on ints and the two resource-naming functions.
- `actions.dfy` (`Actions`): the comma-joined `actions` column and what a sequence of grants does to it.
- `schema.dfy` (`Schema`): the tables as a value (`Tables`), with these pieces:
  - the unique constraints as error values;
  - `Constrained`, what the database enforces: primary keys, the UNIQUE constraints on `aces`, and fresh ids from `unique_rowid()`;
  - `Valid`, which is `Constrained` plus referential integrity. The schema has no foreign keys; the program keeps integrity by its delete order.
- `workload.dfy` (`Workload`): every function of the core as a state-transition function from tables to `Step(outcome, tables)`. There is one recursive call per loop iteration, and the recursion stops at the first error.
- `populate.dfy`, `grants.dfy`, `prepare.dfy`, `teardown.dfy`: lemmas about those functions.
- `load.dfy` (`Load`): the imperative model. `Store` is a class whose fields are the tables. Each function of the source is a method on a `Store`, and its loops are `while` loops. Each method that has a `Workload` counterpart is proved to compute exactly that function, so the lemmas carry over to it; the "## Model" table names the pair (`InsertRow` computes `Insert`, `InsertAceRow` computes `InsertAce`, `AllowAccess` computes `GrantActions`, `AssignPermissions` computes `PermissionsFrom`, and the others share their name). `FindKeys` and `FindAceRow` are specified directly, by the keys listed and the row found. `RemoveAll` is specified by its listing and `Workload.RemoveEach` over it, and `RunWithCounts` by the results of prepareData and of the teardown.

Modelling choices:

- `crdb.ExecuteTx` is an all-or-nothing application of the transaction body. Every body checks its failure conditions before it writes, so a failed body leaves the tables as they were, and a retried body writes the tables as if it ran once. The three find bodies are not retry-safe: they append to a result slice declared outside the transaction (load/load.go:574-592, 640, 695), so a retry would list the keys again. The model runs each body once.
- `LIKE $1` lookups are equality. That is exact for a pattern with no `%`, `_` or `\` (`Names.LikeLiteralExact`), and every generated key is such a pattern (`Names.NoLikeWildcards`), so it is exact for the generated keys. `removeData` looks up every stored key, not only generated ones, so the teardown's promises are stated for stores whose keys are all literal patterns (`Workload.KeysLiteral`), a property prepareData keeps (`Prepare.PrepareDataLiteral`).
- A table with a business key (`users.uid`, `groups.gid`, `resources.rid`) is a map from the key to the row's surrogate id. The UNIQUE index on the key holds by construction.
- `user_groups` is a set of `(user_id, group_id)` pairs, and `aces` a map from id to row.
- `unique_rowid()` is a counter `nextId`. Only its uniqueness is used.
- Go's 64-bit `int` is unbounded `int`. `Counts.IterationNoOverflow` shows that the tuple computation stays within 64 bits.
- Go's `>>` on a signed int is floor division. Bit `rt` of the two's-complement form is `(n / 2^rt) % 2`. Dafny's Euclidean `/` and `%` compute both exactly for the positive divisors used.
- The counter `user % users` in `assignUsersToGroups` is never negative, so Go's truncating `%` and Dafny's agree.

Three facts about the code that follow from its text:

- `recordCountForIteration` returns the zero tuple only for iterations 0 and -1, the two values with `iteration >> 5 == iteration` (load/load.go:265-269; `Counts.BaselineFixedPoints`).
- The components are non-negative multiples of 20 for non-negative iterations (`Counts.IterationBounds`), and all zero for -1. Below -1 the baseline `iteration >> 5` is negative (load/load.go:265, 270-272).
- The action list of an ACE is not a set: a repeated grant appends the same name again (load/load.go:441-448; `Actions.RepeatedGrantDuplicates`, `Grants.AllowExisting`).

## Model

| member | source | states |
|---|---|---|
| Counts.Sane | load/load.go:236-253 | the five checks of `sane` in the source's order; `Counts.SaneIff` states what they accept |
| Counts.SaneIff | load/load.go:236-253 | `sane` holds exactly when members <= users, members > 0 implies groups != 0, user permissions > 0 implies users != 0, and group permissions > 0 implies groups != 0 (the "members > 0 and users == 0" check is implied by "members > users") |
| Counts.SaneExamples | load/load.go:236-253 | the all-zero tuple is sane; each inconsistent mixture is rejected |
| Counts.SaneMembersHaveUsers | load/load.go:236-253 | a sane tuple with members has at least that many users and a non-zero group count |
| Counts.BaselineFixedPoints | load/load.go:265-269 | the shift leaves the iteration unchanged exactly for 0 and -1 |
| Counts.IterationComponent | load/load.go:264-279 | for iterations other than 0 and -1, component rt is 20 * (n >> 5) plus 20 exactly when bit rt is set; otherwise the tuple is all zeros |
| Counts.IterationBounds | load/load.go:260-279 | for a non-negative iteration every component is a non-negative multiple of 20 between 20 * (n >> 5) and 20 * (n >> 5) + 20 |
| Counts.OverflowIncrementsAll | load/load.go:260-279 | iterations 32k+31 and 32k+32 give the same tuple ("an overflow increments all counts") |
| Counts.IterationSaneIff | load/load.go:236-279 | which iterations are skipped as insane, as a condition on their bits |
| Counts.IterationNoOverflow | load/load.go:264-279 | no component leaves the 64-bit range for a 64-bit iteration |
| Counts.RecordCountForIteration | load/load.go:264-279 | the tuple of an iteration: zero when the shift by 5 leaves the iteration unchanged, otherwise 20 * (n >> 5) per count plus 20 for each set bit of the low five; `Counts.IterationComponent` and `Counts.IterationBounds` state it |
| Counts.ComputeRecordCount | load/load.go:264-279 | the two loops over the count array compute exactly `RecordCountForIteration` |
| Names.Itoa | load/load.go:325-336 | `strconv.Itoa`: a minus sign for negatives, then the decimal digits without leading zeros; `Names.ItoaInjective` states that it is injective |
| Names.UserResourceName | load/load.go:412-412 | `userResourceName`: "user-resource-" followed by the ordinal |
| Names.GroupResourceName | load/load.go:487-487 | `groupResourceName`: "group-resource-" followed by the ordinal |
| Names.ItoaInjective | load/load.go:325-336 | two ordinals give the same `strconv.Itoa` key exactly when they are equal |
| Names.OrdinalsCount | load/load.go:314-323 | the keys of ordinals lo, ..., hi - 1 are hi - lo distinct strings |
| Names.OrdinalsMember | load/load.go:314-323 | Itoa(k) is among the keys of ordinals lo, ..., hi - 1 exactly when lo <= k < hi |
| Names.ResourceNamesDistinct | load/load.go:412-487 | `userResourceName` and `groupResourceName` are each injective and never give the same name |
| Names.Like | load/load.go:594-612 | the `LIKE` match of the lookups: `%` any run, `_` any one character, `\` escapes the next, other characters match themselves |
| Names.LikeLiteralExact | load/load.go:596-599 | a pattern with no `%`, `_` or `\` matches exactly the string it spells |
| Names.LikeWildcardMatchesOthers | load/load.go:596-599 | a stored key such as `1_` is not literal and also matches the key `10`, so on a store holding it the lookup can find another row |
| Names.NoLikeWildcards | load/load.go:375-391 | generated keys (ordinals and both resource-name families) contain no `%`, `_` or `\`, so they are literal patterns |
| Actions.AppendAction | load/load.go:441-451 | the new value of the column: "," and the action appended to a non-empty column, the action alone on an empty one; `Actions.AppendActionList` states it as a list |
| Actions.AppendActionList | load/load.go:441-448 | one grant appends exactly its action name to the column's list ("," + action, or the action itself on an empty column) |
| Actions.GrantAllList | load/load.go:414-466 | a sequence of grants appends all its names in order, duplicates included |
| Actions.GrantAllNonEmpty | load/load.go:441-457 | after a grant the column is never empty |
| Actions.GrantedFromEmpty | load/load.go:415-415 | the four grants from no row leave "create,read,update,delete" |
| Actions.GrantedAppended | load/load.go:441-448 | the four grants on a non-empty column append "," and "create,read,update,delete" |
| Actions.GrantedList | load/load.go:414-466 | the list after the four grants is the old list followed by create, read, update, delete |
| Actions.RepeatedGrantDuplicates | load/load.go:441-448 | granting the four actions twice lists each twice: no deduplication |
| Workload.Insert | load/load.go:325-336 | one INSERT by business key: the table's UNIQUE violation when the key exists, otherwise the row under the next id; `Populate.InsertSpec` states it |
| Workload.AddUser | load/load.go:325-336 | addUser: the insert of key Itoa(userid) into users |
| Workload.AddGroup | load/load.go:349-357 | addGroup: the insert of key Itoa(groupid) into groups |
| Workload.AddResource | load/load.go:530-537 | addResource: the insert of the given name into resources |
| Workload.InsertOrdinals | load/load.go:314-323 | the loop of addUsers / addGroups, one transaction per ordinal, stopping at the first error; `Populate.InsertOrdinalsSpec` states it |
| Workload.AddUsers | load/load.go:314-323 | addUsers: the ordinal loop on users from 0 |
| Workload.AddGroups | load/load.go:338-347 | addGroups: the ordinal loop on groups from 0 |
| Workload.AddUserToGroup | load/load.go:375-391 | addUserToGroup: sql.ErrNoRows when the user or the group key is missing, the primary-key violation when the pair is a row, otherwise the new membership |
| Workload.AssignFrom | load/load.go:359-373 | the nested loops of assignUsersToGroups with the shared counter wrapping modulo users; `Populate.AssignFromSpec` states it |
| Workload.AssignUsersToGroups | load/load.go:359-373 | assignUsersToGroups: the loops from group 0, slot 0, counter 0 |
| Workload.FindAce | load/load.go:436-439 | the SELECT of a pair's ACE: a row of that principal and resource, or none exactly when there is no such row |
| Workload.InsertAce | load/load.go:449-457 | INSERT INTO aces, rejected by user_resource_unique or group_resource_unique when the pair has a row |
| Workload.GrantAction | load/load.go:416-463 | one upsert transaction: ErrNoRows on a missing resource or principal, UPDATE with the action appended when the found row's actions are non-empty, INSERT otherwise |
| Workload.GrantActions | load/load.go:414-466 | the loop over the actions, one transaction each, stopping at the first error |
| Workload.AllowUserAccessToResource | load/load.go:414-466 | allowUserAccessToResource: the four grants for a user |
| Workload.AllowGroupAccessToResource | load/load.go:489-528 | allowGroupAccessToResource: the four grants for a group |
| Workload.GrantEach | load/load.go:401-407 | the inner permission loop: the four grants of one resource to principals n, ..., N - 1 |
| Workload.PermissionsFrom | load/load.go:393-410 | the outer permission loop: add resource p, grant it to every principal, go on with p + 1 |
| Workload.AssignUserPermissions | load/load.go:393-410 | assignUserPermissions: the permission loops over user resources and users |
| Workload.AssignGroupPermissions | load/load.go:468-485 | assignGroupPermissions: the permission loops over group resources and groups |
| Workload.PrepareData | load/load.go:282-312 | prepareData: the five phases in order, returning the first error |
| Workload.RemoveRow | load/load.go:594-612 | removeUser / removeGroup / removeResource: ErrNoRows on a missing key, otherwise delete the memberships, the ACEs and the row of its id |
| Workload.RemoveEach | load/load.go:559-572 | the remove loop over the listed keys, stopping at the first error |
| Workload.RemoveData | load/load.go:540-557 | removeData: users, then groups, then resources, returning the first error |
| Populate.InsertSpec | load/load.go:325-336 | an insert succeeds exactly when the business key is new and then adds it under a fresh id; a rejected insert fails with the table's UNIQUE constraint and changes nothing; no other table changes |
| Populate.InsertValid | load/load.go:530-537 | an insert keeps the database constraints and referential integrity |
| Populate.InsertOrdinalsSpec | load/load.go:314-323 | the addUsers/addGroups loop succeeds exactly when none of the keys is present, then adds exactly those keys; on failure it stops at the first present key, with the keys before it inserted |
| Populate.InsertOrdinalsValid | load/load.go:338-347 | the insert loop extends its table, changes no other table, and keeps the constraints and integrity |
| Populate.InsertLiteral | load/load.go:325-336 | inserting a literal key keeps every key of the store literal |
| Populate.InsertOrdinalsLiteral | load/load.go:314-323 | the addUsers / addGroups loop adds only literal keys |
| Populate.AddUsersFresh | load/load.go:314-323 | addUsers on a store without the keys adds exactly "0", ..., "U-1" |
| Populate.AddGroupsFresh | load/load.go:338-347 | addGroups on a store without the keys adds exactly "0", ..., "G-1" |
| Populate.CounterStep | load/load.go:369-370 | stepping the shared counter modulo users gives user (k + 1) mod users |
| Populate.AssignmentInjective | load/load.go:359-373 | with 0 < members <= users, distinct assignments give distinct (user_id, group_id) rows |
| Populate.AssignFromSpec | load/load.go:359-373 | from slot ii of group g the loops succeed and add exactly the remaining schedule, the k-th assignment pairing user k mod users with group k / members |
| Populate.ScheduleCount | load/load.go:359-373 | a schedule of hi - lo assignments holds hi - lo rows |
| Populate.AssignFromIdle | load/load.go:359-373 | with no slots per group the loops add nothing |
| Populate.AssignUsersToGroupsSpec | load/load.go:359-391 | on a roster without memberships, assignUsersToGroups succeeds and adds exactly members * max(groups, 0) rows, the k-th pairing user k mod users with group k / members; it adds nothing when members or groups is not positive |
| Populate.AddUserToGroupValid | load/load.go:375-391 | addUserToGroup changes only user_groups, only grows it, and keeps the constraints and integrity |
| Populate.AssignFromValid | load/load.go:359-373 | the membership loops change only user_groups and keep the constraints and integrity |
| Grants.FindAceUnique | load/load.go:436-439 | under the UNIQUE constraints on aces, the SELECT finds the one row of the pair |
| Grants.FindAceNone | load/load.go:436-439 | the SELECT finds nothing exactly when the pair has no row (not an error) |
| Grants.GrantUnresolved | load/load.go:419-434 | when the resource or the principal key resolves to no row, the grant fails with sql.ErrNoRows and nothing changes |
| Grants.GrantActionValid | load/load.go:416-463 | a grant transaction changes only aces and the id counter, and keeps the constraints and integrity |
| Grants.GrantActionsValid | load/load.go:414-466 | the four-action loop changes only aces and the id counter, and keeps the constraints and integrity |
| Grants.GrantActionsExisting | load/load.go:441-448 | on a pair whose row has non-empty actions each grant takes the UPDATE path, appending to that row only |
| Grants.GrantFresh | load/load.go:449-457 | the first grant on a pair with no row inserts one row under a fresh id |
| Grants.GrantActionsFresh | load/load.go:449-457 | grants on a pair with no row insert one row with the first action, and the later grants append to it |
| Grants.GrantOnEmptyRow | load/load.go:441-457 | the UPDATE path is taken only for non-empty actions: a row with empty actions sends the grant to the INSERT, which the pair's UNIQUE constraint rejects, changing nothing |
| Grants.AllowFresh | load/load.go:414-466 | on a pair with no row, allow*AccessToResource leaves exactly one new row: actions "create,read,update,delete", the principal's id, and NULL in the other principal column |
| Grants.AllowExisting | load/load.go:489-528 | on a pair whose row has non-empty actions, the four names are appended to that row even when already listed |
| Grants.FullGrantKept | load/load.go:393-410 | a full grant stays when rows are only added |
| Grants.GrantEachValid | load/load.go:401-407 | the inner permission loop changes only aces and the id counter and keeps the invariants |
| Grants.PermissionsFromValid | load/load.go:393-410 | the permission phases leave users, groups, memberships and configs alone and keep the invariants |
| Grants.PermissionsFromLiteral | load/load.go:393-410 | the permission phases add only literal resource names |
| Grants.GrantEachSpec | load/load.go:401-407 | granting a resource to principals n, ..., N - 1 that have no ACE on it succeeds and adds one full row per principal |
| Grants.PermissionsFromSpec | load/load.go:393-410 | the outer loop from resource p on succeeds and adds exactly those resources and one full ACE per (principal, resource) pair |
| Grants.GrantEachNew | load/load.go:401-407 | every ACE the inner loop adds is the full grant of its resource to one of principals n, ..., N - 1 |
| Grants.PermissionStepNew | load/load.go:394-407 | every ACE one outer iteration adds is the full grant of the new resource to one of the phase's principals |
| Grants.PermissionsFromNew | load/load.go:393-410 | every ACE the outer loop adds is the full grant of one of the phase's resources to one of its principals |
| Grants.PhaseRowsGrow | load/load.go:393-410 | a phase's grant rows stay its grant rows as further resources are inserted |
| Grants.PermissionPhase | load/load.go:468-485 | assignUserPermissions(P, U) / assignGroupPermissions(P, G) add the resources of the phase and P * U (P * G) full ACEs, one per pair, and keep integrity |
| Prepare.LoadPrincipals | load/load.go:285-294 | the users and groups phases from an empty store succeed and leave exactly the ordinal keys |
| Prepare.MembersPhase | load/load.go:295-299 | the membership phase on the new roster adds the members * groups rows of the round-robin schedule |
| Prepare.LoadMembers | load/load.go:285-299 | the first three phases from an empty store succeed, with those tables |
| Prepare.PhasesDisjoint | load/load.go:412-487 | the resource names of the two permission phases are disjoint |
| Prepare.LoadPermissions | load/load.go:300-309 | the two permission phases succeed, add both phases' resources and one full ACE per pair |
| Prepare.LoadPermissionsRows | load/load.go:300-309 | from a store with no ACEs, every ACE the two permission phases leave grants "create,read,update,delete" to a principal of one phase on a resource of that phase |
| Prepare.PrepareDataFromEmpty | load/load.go:282-312 | prepareData on a sane tuple from an empty store succeeds and leaves exactly: users "0".."U-1"; groups "0".."G-1"; members * groups memberships per the schedule; both phases' resources; one "create,read,update,delete" ACE per (principal, resource) pair, and every ACE is such a grant; and configs unchanged |
| Prepare.PrepareDataValid | load/load.go:282-312 | prepareData, succeeding or not, keeps the database constraints, referential integrity and configs |
| Prepare.PrepareDataLiteral | load/load.go:282-312 | prepareData, succeeding or not, keeps every key of the store a literal pattern |
| Prepare.PrepareDataStops | load/load.go:284-311 | the first failing phase stops the later ones: a failure among the first three phases leaves the tables of the later ones unchanged; a failed user-permission phase is the result, with the principals and memberships of the phases before it, and the group-permission phase does not run |
| Teardown.RowsWithoutKey | load/load.go:594-612 | deleting by id removes exactly the one key when ids are unique |
| Teardown.RemoveRowSpec | load/load.go:594-612 | removeUser/removeGroup/removeResource: a missing key fails with sql.ErrNoRows and changes nothing; otherwise exactly that row and every membership and ACE naming its id are deleted |
| Teardown.RemoveRowConstrained | load/load.go:649-667 | a removal keeps the database constraints |
| Teardown.RemoveRowValid | load/load.go:704-719 | a removal keeps referential integrity because the referencing rows are deleted first |
| Teardown.RemoveEachSpec | load/load.go:559-572 | the remove loop over distinct listed keys succeeds; exactly those keys leave the table and the other key tables are untouched |
| Teardown.RemoveEachValid | load/load.go:614-627 | the remove loop keeps referential integrity |
| Teardown.RemoveEachMissing | load/load.go:669-682 | the loop stops with sql.ErrNoRows at the first key that is not a row, having removed the keys before it |
| Teardown.EmptiedIsCleared | load/load.go:540-557 | with integrity and no users, groups or resources there are no memberships and no ACEs |
| Teardown.LookupIsEquality | load/load.go:594-612 | the `LIKE` lookup with a literal key finds the row of that key, if any, and no other |
| Teardown.GeneratedKeysLiteral | load/load.go:282-312 | prepareData from an empty store leaves only literal keys |
| Teardown.RemoveDataSpec | load/load.go:540-557 | on a store whose keys are all literal patterns, with each find listing its whole table, removeData succeeds and empties the three key tables; with integrity all five generated tables end empty and configs and the counter are kept |
| Teardown.PrepareThenRemove | load/load.go:208-221 | for a sane tuple, prepareData from an empty store then removeData gives the empty store again, with configs unchanged |
| Load.InsertRow | load/load.go:325-336 | the INSERT of a row by business key does exactly `Workload.Insert` |
| Load.AddUser | load/load.go:325-336 | addUser does exactly `Workload.AddUser` |
| Load.AddGroup | load/load.go:349-357 | addGroup does exactly `Workload.AddGroup` |
| Load.AddResource | load/load.go:530-537 | addResource does exactly `Workload.AddResource` |
| Load.InsertOrdinals | load/load.go:314-323 | the ordinal insert loop does exactly `Workload.InsertOrdinals` from 0 |
| Load.AddUsers | load/load.go:314-323 | addUsers does exactly `Workload.AddUsers` |
| Load.AddGroups | load/load.go:338-347 | addGroups does exactly `Workload.AddGroups` |
| Load.AddUserToGroup | load/load.go:375-391 | addUserToGroup does exactly `Workload.AddUserToGroup` |
| Load.AssignUsersToGroups | load/load.go:359-373 | the nested loops with the wrapping counter do exactly `Workload.AssignUsersToGroups` |
| Load.FindAceRow | load/load.go:436-439 | the SELECT of a pair's ACE returns a row of the pair, or None only when the pair has none |
| Load.InsertAceRow | load/load.go:449-457 | the INSERT INTO aces does exactly `Workload.InsertAce` |
| Load.GrantAction | load/load.go:416-463 | one upsert transaction does exactly `Workload.GrantAction` |
| Load.AllowAccess | load/load.go:415-466 | the loop over the four actions does exactly `Workload.GrantActions` and keeps the constraints |
| Load.AllowUserAccessToResource | load/load.go:414-466 | allowUserAccessToResource does exactly `Workload.AllowUserAccessToResource` |
| Load.AllowGroupAccessToResource | load/load.go:489-528 | allowGroupAccessToResource does exactly `Workload.AllowGroupAccessToResource` |
| Load.AssignPermissions | load/load.go:393-410 | the nested permission loops do exactly `Workload.PermissionsFrom` from 0 |
| Load.AssignUserPermissions | load/load.go:393-410 | assignUserPermissions does exactly `Workload.AssignUserPermissions` |
| Load.AssignGroupPermissions | load/load.go:468-485 | assignGroupPermissions does exactly `Workload.AssignGroupPermissions` |
| Load.PrepareData | load/load.go:282-312 | prepareData does exactly `Workload.PrepareData` |
| Load.FindKeys | load/load.go:574-592 | findUsers/findGroups/findResources list every key of the table exactly once |
| Load.RemoveRow | load/load.go:594-612 | removeUser/removeGroup/removeResource do exactly `Workload.RemoveRow` |
| Load.RemoveEach | load/load.go:559-572 | the remove loop does exactly `Workload.RemoveEach` |
| Load.RemoveAll | load/load.go:614-627 | removeUsers/removeGroups/removeResources list the table and then remove what they listed |
| Load.RemoveData | load/load.go:540-557 | removeData does `Workload.RemoveData` over what the three find steps list, each listing its table as the earlier phases left it; on a store the database accepts whose keys are all literal patterns it succeeds and empties the key tables; with integrity the store ends `Cleared` |
| Load.RunWithCounts | load/load.go:208-221 | an insane tuple returns nil and changes nothing; otherwise the result is prepareData's unless the teardown panics; when every key is a literal pattern the teardown never panics and the store ends with empty key tables — with integrity, with no generated rows at all |

## Left out

- `main`, flag parsing, connection-string and TLS assembly, and `sql.Open`: process and network setup.
- The schema DDL as text. Only its primary keys and UNIQUE constraints are modelled, as error conditions of the inserts.
- Logging and timing (`logTiming`, `logTimingV`, `say`, `logprefix`, `logdepth`): wall-clock time and output, with no effect on the data.
- The retry and serialization-conflict logic inside `crdb.ExecuteTx`: it is a foreign library. Each transaction is applied atomically or not at all, and runs once.
- `Load.FindKeys`, `Load.RunWithCounts`: findUsers, findGroups and findResources append to a slice declared outside the `crdb.ExecuteTx` closure, so a retried body would list every key twice. removeUser would then fail with sql.ErrNoRows on the second copy, and runWithCounts would panic (load/load.go:217). The model treats each find as running once, so it does not capture that failure.
- The endless iteration loop of `run`: only the per-iteration function `runWithCounts` and the tuple schedule `recordCountForIteration` are modelled.
- `recordCount.String`: formatting for log output.
- joinquery/joinquery.go: a random query loop with timing. joinquery is not part of this model.
- Placeholder columns (password hash, `utype` and its CHECK constraint, description, `is_remote`): constants that no lookup reads.
- The contents of `configs`: the program never touches them. The model carries them along unchanged.
- Store and driver errors other than `sql.ErrNoRows` and unique violations: failed queries, scan errors, and a NULL `actions` value, which the program never writes. These are not modelled.
- The order in which `SELECT <key> FROM <table>` returns rows is unspecified. `Load.FindKeys` returns the keys in an arbitrary order, and the teardown lemmas hold for every order.
- `Load.AssignUsersToGroups`: requires users > 0 when members > 0 and groups > 0. With no users the source's `user %= users` divides by zero, and panics, only after a first `addUserToGroup` has succeeded; the model leaves that case out. prepareData only calls it on a sane tuple, where members > 0 implies users >= members > 0.
- `Load.PrepareData`: requires a sane tuple. The source panics on an insane one, and `runWithCounts` checks first.
- `Load.GrantAction`, `Load.AllowAccess`, `Load.AssignPermissions`, `Load.PrepareData`, `Load.RunWithCounts`: require `Constrained`, the constraints every real store satisfies (unique ids, the aces UNIQUE constraints, fresh ids). Under them the ACE SELECT has at most one row.
- `Load.RunWithCounts`: the panic of a failed deferred teardown is the result `Panicked(error)`, not a process abort. Under `Constrained`, with every key a literal pattern, it cannot happen.
- `Load.RemoveData`: the model looks keys up by equality, so its success promise is stated only for stores whose keys are all literal `LIKE` patterns (`Workload.KeysLiteral`), which every store built from generated keys is. On a store holding a key such as `1_`, the source's lookup can find the row of `10` instead (`Names.LikeWildcardMatchesOthers`), delete it, and then fail on `10` with sql.ErrNoRows. The model does not capture that behaviour.
- `Load.RunWithCounts`: for the same reason, the promise that the teardown never panics is stated only when every key is literal. For other stores the model states only that the result is prepareData's or a panic.
- NULL business keys: the schema allows a NULL `uid`, `gid` or `rid`, and the find steps' `Scan` into a string fails on one. The model's key tables cannot hold NULL, so that error is not modelled.
