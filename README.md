# GearGuard maintenance requests in Dafny

GearGuard tracks repair and maintenance requests for equipment. A user files a request
against a piece of equipment. The request goes to that equipment's maintenance team and
may be assigned at once to the equipment's default technician. It then moves through four
stages: new, in progress, repaired and scrap. Managers see and change everything.
Technicians work on the requests of the teams they belong to. Any other user sees only
the requests they filed. Scrapping a request marks its equipment unusable.

This project models that engine:

- the stage vocabulary, the normalisation of stored stage names, and the transition table;
- the lazily created stage table. This covers `_stage_map` as written, which every
  request endpoint calls, a corrected variant shown beside it (see "## Findings"), and
  the seeding script's `ensure_stage_map`;
- the request endpoints: list, calendar, create, assign and stage change;
- the equipment endpoints: list with filters and open counts, detail, open-request count,
  and the requests of one equipment;
- the team endpoints: list, create, add member and remove member;
- the seeding script's get-or-create helpers;
- the Kanban board's bucketing, overdue marker, avatar initials and drag-end decision.

The database is a class, `Database.Db`. It has one map per table, a set of (team, user)
pairs for memberships and one key counter. Its `Valid()` invariant states the declared
constraints: unique names, serials and e-mail addresses; the equipment owner check; and
resolvable foreign keys. Every writing endpoint is a method that `modifies` the database;
the read-only ones only read it. Each writing endpoint either commits exactly the change
the route makes, or leaves the rows untouched and returns an error code. Because the
request endpoints call `_stage_map` as written, each of them answers 500 on a stage table
where that map collides, as the source does. Error codes are a `Failure` mapped to their HTTP status. The pure
decision functions of `RequestRules` carry the guards in source order, and the methods are
proved against them.

A query result is a sequence listing each selected row exactly once (`Database.Collect`).
Its order is left open, because the SQL statements have no ORDER BY.

The modules are:

- `Outcomes`, `Text`, `Stages` and `Records`: values and helpers;
- `Database`: the store;
- `StageRegistry`: the stage table;
- `RequestRules` and `RequestRoutes`: backend/app/api/routes/requests.py;
- `EquipmentRoutes`: equipment.py;
- `TeamRoutes`: teams.py;
- `Seed`: seed_demo_data.py;
- `Kanban`: Kanban.tsx.

## Model

| member | source | states |
|---|---|---|
| Outcomes.StatusCode | backend/app/api/routes/requests.py:339-369 | Not found is 404 and only that; a role or team refusal is 403 and only that; constraint failures, several matches and a missing dictionary key are 500; every other refusal is 400. |
| Text.LowerIsLower | backend/app/api/routes/requests.py:188 | Lower-casing leaves no upper-case letter, and lower-casing twice is lower-casing once. |
| Text.LowerOfLower | backend/app/api/routes/requests.py:188 | A string with no upper-case letter is its own lower-case form. |
| Text.NatToStringRoundTrip | backend/app/api/routes/requests.py:376 | Reading back the decimal digits of a rendered number gives the number. |
| Text.IntToStringInjective | backend/app/api/routes/requests.py:376 | Distinct integers render as distinct strings. |
| Text.Split | frontend/src/components/Kanban.tsx:98 | Splitting always yields at least one piece. |
| Text.SplitJoin | frontend/src/components/Kanban.tsx:98 | Joining the pieces of a split with the separator restores the string, and no piece contains the separator. |
| Text.JoinSplit | frontend/src/components/Kanban.tsx:98 | Splitting the join of separator-free pieces gives those pieces back, so split and join are inverses both ways. |
| Text.Lower | backend/app/api/routes/equipment.py:86-90 | ASCII lower-casing, character by character. |
| Text.Like | backend/app/api/routes/equipment.py:86-91 | SQL LIKE: `%` matches any run, `_` any one character, anything else itself. |
| Text.LikePrefix | backend/app/api/routes/equipment.py:86-91 | For a wildcard-free q, the pattern q% matches exactly the strings that start with q. |
| Text.LikeLeadingRun | backend/app/api/routes/equipment.py:86-91 | A leading % matches exactly when the rest of the pattern matches some suffix. |
| Text.ContainsPattern | backend/app/api/routes/equipment.py:86-91 | For a wildcard-free q, the pattern %q% matches exactly the strings that contain q. |
| Stages.ParseKey | backend/app/api/routes/requests.py:63 | A string is accepted exactly when it is one of the four keys, and it is accepted as the stage with that key. |
| Stages.KeyRoundTrip | backend/app/api/routes/requests.py:22-27 | Parsing a stage's key gives that stage back. |
| Stages.KeyInjective | backend/app/api/routes/requests.py:22-27 | Distinct stages have distinct keys. |
| Stages.LabelInjective | backend/app/api/routes/requests.py:22-27 | Distinct stages have distinct labels. |
| Stages.AllStagesEnumerates | backend/app/api/routes/requests.py:22-27 | The vocabulary lists each of the four stages exactly once. |
| Stages.NormalizeStageName | backend/app/api/routes/requests.py:187-195 | The result is lower-case, and is either a stage key or the lower-cased input. |
| Stages.NormalizeStageNameCases | backend/app/api/routes/requests.py:187-195 | "new" in any case gives new. "in progress", "in_progress" and "in-progress" in any case give in_progress. A lower-cased name starting with "repaired" gives repaired, and one starting with "scrap" gives scrap. Anything else comes back lower-cased. |
| Stages.NormalizeIdempotent | backend/app/api/routes/requests.py:187-195 | Normalising twice is normalising once. |
| Stages.LowerLabel | backend/app/api/routes/requests.py:73 | Each label lower-cases to its key, except "In Progress", which lower-cases to "in progress". |
| Stages.NormalizeLabel | backend/app/api/routes/requests.py:187-195 | Both a stage's label and its key normalise to its key. |
| Stages.TransitionTable | backend/app/api/routes/requests.py:29-34 | `ALLOWED_TRANSITIONS` as a dictionary defined for the four keys only. |
| Stages.TransitionPermitted | backend/app/api/routes/requests.py:347-349 | The target is listed for the current stage, a missing entry counting as the empty set, or the target is scrap. |
| Stages.TransitionRules | backend/app/api/routes/requests.py:29-34 | The allowed moves are new to in_progress or scrap, and in_progress to repaired or scrap. Any other current stage, known or not, may only go to scrap. Scrap is always permitted, including from repaired and from scrap. new to repaired is refused. |
| Records.IsTeamMember | backend/app/api/routes/requests.py:91-100 | `_is_team_member`: the (team, user) pair is a stored membership row. |
| Database.Consistent | backend/app/db/models.py:8-121 | The declared constraints: positive keys below the sequence, the unique names, serials and e-mail addresses, the equipment owner check, and resolvable foreign keys. |
| Database.Db.Valid | backend/app/db/models.py:8-121 | The store's tables satisfy those constraints. |
| Database.Collect | backend/app/api/routes/requests.py:149 | The result lists each row that the filter keeps, with its view, exactly once. |
| Database.FreshNameUnique | backend/app/db/models.py:20 | A fresh key that carries a name nobody holds keeps the name column unique. |
| Database.Db.constructor | backend/app/db/models.py:8-122 | An empty database satisfies every declared constraint. |
| Database.Db.InsertRequest | backend/app/api/routes/requests.py:236-237 | The request is added under the next key, and nothing else changes. |
| Database.Db.ReplaceRequest | backend/app/api/routes/requests.py:378-381 | Only that request row is replaced. |
| Database.Db.ReplaceEquipment | backend/app/api/routes/requests.py:372-376 | Only that equipment row is replaced, and its references and serial are kept. |
| Database.Db.InsertNamed | backend/app/api/routes/teams.py:57-59 | A department, category or team with a new name is added under the next key, to that table only. |
| Database.Db.InsertUser | backend/app/scripts/seed_demo_data.py:26-34 | A user with an unused e-mail address is added under the next key. |
| Database.Db.InsertMember | backend/app/api/routes/teams.py:84-85 | The pair is added to the membership set, and nothing else changes. |
| Database.Db.DeleteMember | backend/app/api/routes/teams.py:103-105 | The pair is removed from the membership set, and nothing else changes. |
| StageRegistry.ApiStageRow | backend/app/api/routes/requests.py:78-83 | A created row has the stage's label and sequence 10, 20 or 30, with scrap also getting 30. It is closed exactly for repaired and scrap, and scrap exactly for scrap. |
| StageRegistry.SeedStageRow | backend/app/scripts/seed_demo_data.py:41-46 | A created row has the stage's label and sequence 10, 20, 30 or 40. It is closed exactly for repaired and scrap, and scrap exactly for scrap. |
| StageRegistry.CreatorsAgree | backend/app/scripts/seed_demo_data.py:45 | The API and the seeding script create the same rows, except that scrap's sequence differs (30 against 40). |
| StageRegistry.MissingSpec | backend/app/api/routes/requests.py:75 | A stage is missing exactly when its key is absent from the dictionary, and no stage is listed twice. |
| StageRegistry.StageOrder | backend/app/api/routes/requests.py:75 | The missing stages follow the vocabulary's order. |
| StageRegistry.CreatedRowsSpec | backend/app/api/routes/requests.py:77-86 | The created rows take consecutive keys, one per missing stage, in order. |
| StageRegistry.WantedMapSpec | backend/app/api/routes/requests.py:86 | The entries the fill adds are exactly the missing keys, each pointing at its stage's created row. |
| StageRegistry.IndexStages | backend/app/api/routes/requests.py:72-73 | Every stored row is indexed under the key function of its name, and every entry points at such a row. |
| StageRegistry.InsertMissing | backend/app/api/routes/requests.py:77-86 | Each flush fails when the label is already taken. On success every missing stage has a new row and a dictionary entry. |
| StageRegistry.FillStages | backend/app/api/routes/requests.py:71-88 | Either everything is inserted and committed, or the unique-name violation aborts with the store unchanged. The failure happens exactly when a missing stage's label names a stored row. |
| StageRegistry.AddedEntries | backend/app/api/routes/requests.py:86 | The returned dictionary holds the stored rows' entries untouched, plus one entry per created row. |
| StageRegistry.CommitStages | backend/app/api/routes/requests.py:87 | Only the stage table and the key counter change. |
| StageRegistry.CommitKeepsValid | backend/app/db/models.py:83 | Committing fresh rows with fresh, new names keeps the database valid. |
| StageRegistry.FilledNamesUnique | backend/app/db/models.py:83 | Fresh keys with new, pairwise distinct names keep stage names unique. |
| StageRegistry.RowOrigin | backend/app/api/routes/requests.py:77-86 | A row of the filled table is either a created row carrying its stage's row, or a stored row unchanged. |
| StageRegistry.StagesGrow | backend/app/db/models.py:104 | Adding stage rows keeps every request's stage reference resolvable. |
| StageRegistry.AsWrittenCollision | backend/app/api/routes/requests.py:73-75 | The as-written fill collides exactly when a row is named "In Progress" and no row lower-cases to "in_progress". |
| StageRegistry.StageMap | backend/app/api/routes/requests.py:71-88 | As written: the call fails with a constraint error exactly in that collision case, leaving the store unchanged. Otherwise it appends the rows of the stages whose key no lower-cased name matches. The dictionary is keyed by exactly the lower-cased stored names plus the created keys; each stored name points at a stored row with that lower-cased name, and each of the four keys resolves to such a row or, when there is none, to the row created for it. |
| StageRegistry.AsWrittenEntryStage | backend/app/api/routes/requests.py:73-88 | The row the as-written map resolves for a stage always normalises to that stage's key. |
| StageRegistry.LowerKeyNormalizes | backend/app/api/routes/requests.py:187-195 | A name that lower-cases to a stage key normalises to that key. |
| StageRegistry.AsWrittenResult | backend/app/api/routes/requests.py:73-88 | The as-written dictionary, read off the shared fill: its keys, its stored entries and its four stage entries. |
| StageRegistry.AsWrittenStored | backend/app/api/routes/requests.py:73 | A lower-cased stored name is never a created key, and keeps the entry `by_name` gave it. |
| StageRegistry.AsWrittenKeys | backend/app/api/routes/requests.py:73-86 | The dictionary holds the lower-cased stored names and the created keys, and nothing else. |
| StageRegistry.AsWrittenStoredKey | backend/app/api/routes/requests.py:73 | The same for one stored lower-cased name. |
| StageRegistry.AsWrittenStage | backend/app/api/routes/requests.py:73-86 | Each of the four keys resolves to a stored row with that lower-cased name when there is one, and otherwise to the row created for it under a key that was not stored. |
| StageRegistry.CreatedEntry | backend/app/api/routes/requests.py:77-86 | The j-th missing stage's row sits under the j-th fresh key, which was not stored. |
| StageRegistry.StoredKept | backend/app/api/routes/requests.py:77-86 | A stored row keeps its contents in the filled table. |
| StageRegistry.FilledEmptyTableClashes | backend/app/api/routes/requests.py:73-75 | After any successful call on an empty stage table, whatever keys the rows got, every later call of the map collides, so every later calendar, create, assign or stage change answers 500. |
| StageRegistry.StageMapSecondCallFails | backend/app/api/routes/requests.py:73-75 | On an empty database the first call creates all four rows, and on the table it leaves the second call collides. |
| StageRegistry.StageMapFailsOnSeededTable | backend/app/scripts/seed_demo_data.py:41-54 | The table the seeding script creates makes the as-written map collide too. |
| StageRegistry.StoredRowKept | backend/app/api/routes/requests.py:77-86 | The fill only appends: every stored row keeps its key and contents. |
| StageRegistry.NormalizedNeverCollides | backend/app/api/routes/requests.py:187-195 | Keyed by the normalised name, no missing stage's label is ever already stored. |
| StageRegistry.NormalizedFillComplete | backend/app/api/routes/requests.py:75-76 | After a corrected fill no stage is missing, so a second call creates nothing. |
| StageRegistry.FillComplete | backend/app/api/routes/requests.py:75-86 | A fill whose created rows carry their own key leaves no stage missing afterwards. |
| StageRegistry.FillResolves | backend/app/api/routes/requests.py:86-88 | Every returned entry, and every wanted key, resolves to a row of the new table whose name carries that key. |
| StageRegistry.FillKeys | backend/app/api/routes/requests.py:73-88 | The returned dictionary is keyed by exactly the keys of the new table's names. |
| StageRegistry.StoredEntry | backend/app/api/routes/requests.py:73 | A stored row's dictionary entry survives the fill unchanged. |
| StageRegistry.StageMapNormalized | backend/app/api/routes/requests.py:71-88 | Corrected: the call never fails. It appends exactly the missing rows and resolves each of the four keys to a stored row of that stage. |
| RequestRules.ListVisible | backend/app/api/routes/requests.py:126-146 | The list's role filter: everything for a manager; for a technician the requests assigned to them and those of their teams whose stage row is named exactly "New"; for anyone else their own submissions. |
| RequestRules.CalendarVisible | backend/app/api/routes/requests.py:446-464 | The calendar's role filter: the same, except that "new" is the one row id the stage map resolved. |
| RequestRules.InWindow | backend/app/api/routes/requests.py:441-444 | Both bounds inclusive, an omitted bound imposing nothing, and a request without a start failing every given bound. |
| RequestRules.CalendarSelected | backend/app/api/routes/requests.py:438-464 | Preventive, inside the window, and visible to the caller. |
| RequestRules.TeamsOf | backend/app/api/routes/requests.py:137-141 | The team subquery: the teams a user belongs to. |
| RequestRules.StageIdsNamed | backend/app/api/routes/requests.py:134-136 | The stage subquery: the ids of the rows with that exact name. |
| RequestRules.RoleFilter | backend/app/api/routes/requests.py:126-146 | The role filter as the query builds it, with `in_` subqueries and a NULL assignee failing the comparison. |
| RequestRules.TeamsOfMembers | backend/app/api/routes/requests.py:137-141 | A team is in the subquery exactly when the membership pair is stored. |
| RequestRules.VisibilityIsQuery | backend/app/api/routes/requests.py:126-146 | The list's and the calendar's visibility are the query's role filter over the team subquery; they differ only in the stage subquery (rows named "New" against the resolved "new" id). |
| RequestRules.ListAndCalendarAgree | backend/app/api/routes/requests.py:446-464 | The list and the calendar apply the same filter when the resolved new row is the only row named "New". |
| RequestRules.ListAndCalendarDiverge | backend/app/api/routes/requests.py:135 | A stage row named "NEW" is shown by the calendar to a team technician but hidden by the list. |
| RequestRules.ParseOptional | backend/app/api/routes/requests.py:217-222 | An absent or empty string gives no bound. Otherwise the parser decides, and its failure yields 400 and nothing else does. |
| RequestRules.ParseWindow | backend/app/api/routes/requests.py:419-423 | The call fails exactly when either bound fails to parse, always with 400. Otherwise it yields both parsed bounds. |
| RequestRules.MayChangeStage | backend/app/api/routes/requests.py:352-358 | The role checks of update_stage: a technician must belong to the team, and role "user" is refused. |
| RequestRules.ProgressAssignee | backend/app/api/routes/requests.py:366-367 | The stored assignee is kept when it is set; an unset or zero assignee is replaced by the caller. |
| RequestRules.StageUpdateDecision | backend/app/api/routes/requests.py:343-369 | Each refusal holds exactly under its source-order condition: an invalid transition first, then 403, then a missing duration for repaired, then an assignee outside the team for in_progress. On success it gives the assignee the request ends with. |
| RequestRules.RequesterRefused | backend/app/api/routes/requests.py:347-358 | Role "user" gets 400 for a move the table refuses, and 403 otherwise. |
| RequestRules.ScrapAlwaysAllowed | backend/app/api/routes/requests.py:347-350 | A manager can scrap from any stage, keeping the assignee; new to repaired is refused. |
| RequestRules.RepairedIsFinal | backend/app/api/routes/requests.py:29-34 | From repaired every move except scrap is an invalid transition, whoever asks. |
| RequestRules.ProgressAssigneeIsMember | backend/app/api/routes/requests.py:365-369 | An accepted move to in_progress leaves the request assigned to a member of its team. |
| RequestRules.ScrapReason | backend/app/api/routes/requests.py:376 | The reason starts with "Request ". |
| RequestRules.ScrapReasonInjective | backend/app/api/routes/requests.py:376 | Distinct requests leave distinct unusable reasons. |
| RequestRules.Scrapped | backend/app/api/routes/requests.py:374-376 | The equipment becomes "unusable" with that reason, and no other field changes. |
| RequestRules.AssignDecision | backend/app/api/routes/requests.py:281-297 | 403 holds exactly for role "user" or a technician outside the team. 400 holds exactly for an assignee outside the team. On success the request advances exactly when its stage is new. |
| RequestRules.AssignRoles | backend/app/api/routes/requests.py:281-286 | A manager is never refused for its role, and a technician inside the team is treated like a manager. |
| RequestRules.AutoAssignee | backend/app/api/routes/requests.py:211-215 | A request is assigned exactly when the default technician is set and belongs to the equipment's team, and then to that technician. |
| RequestRules.AutoAssigneeInTeam | backend/app/api/routes/requests.py:211-215 | An automatic assignee is always a member of the equipment's team, and there is none when the default is unset. |
| RequestRoutes.ListRequests | backend/app/api/routes/requests.py:103-184 | The result is each visible request whose equipment joins, once, with its stage normalised (a missing stage row reads as ""). |
| RequestRoutes.ListedIffVisible | backend/app/api/routes/requests.py:123 | On a valid store the join drops nothing, so a request is listed exactly when the caller may see it. |
| RequestRoutes.Calendar | backend/app/api/routes/requests.py:412-486 | A bad bound yields 400 before any stage row is created. Then the as-written stage map runs: where it collides the call answers 500 with the store unchanged. Otherwise the result is each preventive request inside the window that the caller may see, once, with the new-stage id the map resolved. |
| RequestRoutes.JoinsKeepAll | backend/app/api/routes/requests.py:434-436 | Every stored request joins its equipment, team and stage rows. |
| RequestRoutes.CreateRequest | backend/app/api/routes/requests.py:198-263 | A colliding stage map answers 500 first, with the store unchanged. Then unknown equipment yields 404 and a bad start yields 400, with no request stored. Otherwise one request is stored with the equipment's category and team, the caller as requester, the automatic assignee, and the row the map resolved for new. |
| RequestRoutes.AssignRequest | backend/app/api/routes/requests.py:266-325 | A colliding stage map answers 500 with the store unchanged. Then an unknown request yields 404, and the decision's refusals change no request. On success only that request changes: its assignee, and, when it was new, its stage to the row the map resolved for in_progress. |
| RequestRoutes.UpdateStage | backend/app/api/routes/requests.py:328-409 | A colliding stage map answers 500 with the store unchanged. Then an unknown request yields 404, and the decision's refusals change no request or equipment. On success only that request changes: its stage to the row the map resolved for the target, its assignee and, for repaired, its duration. Scrap also marks its equipment unusable. |
| EquipmentRoutes.IsOpenStage | backend/app/api/routes/equipment.py:49 | A stage is open when its row exists with `is_closed` false. |
| EquipmentRoutes.OpenCount | backend/app/api/routes/equipment.py:49-58 | The number of the equipment's requests in an open stage, 0 when there are none. |
| EquipmentRoutes.OpenCountZero | backend/app/api/routes/equipment.py:49-58 | The count is 0 exactly when the equipment has no request in an open stage. |
| EquipmentRoutes.OpenCountAfterFiling | backend/app/api/routes/equipment.py:49-58 | Filing a request in an open stage raises its equipment's count by one and leaves every other count alone. |
| EquipmentRoutes.OpenCountAfterClosing | backend/app/api/routes/equipment.py:49-58 | Moving an open request into a closed stage lowers its equipment's count by one. |
| EquipmentRoutes.SearchIsSubstring | backend/app/api/routes/equipment.py:85-92 | A wildcard-free search matches exactly the equipment whose lower-cased name or serial contains the lower-cased text. |
| EquipmentRoutes.MatchesSearch | backend/app/api/routes/equipment.py:85-92 | The lower-cased name or serial is LIKE `%q%` for the lower-cased q. |
| EquipmentRoutes.EquipmentSelected | backend/app/api/routes/equipment.py:81-92 | Each filter applies only when its argument is truthy: the department, the owner, then the search. |
| EquipmentRoutes.ListEquipment | backend/app/api/routes/equipment.py:40-112 | The result is each equipment that joins its category and team and passes the filters, once, with its open-request count. |
| EquipmentRoutes.EquipmentDetailOf | backend/app/api/routes/equipment.py:115-132 | The detail is found exactly for a stored id and holds that row's fields; any other id yields 404. |
| EquipmentRoutes.DetailAfterScrap | backend/app/api/routes/requests.py:372-376 | After a scrap the detail reports "unusable" and nothing else about the equipment changes. |
| EquipmentRoutes.EquipmentRequestCount | backend/app/api/routes/equipment.py:135-146 | The count is the number of the equipment's requests in open stages, with no role filter. |
| EquipmentRoutes.NoRequestsOfUnknown | backend/app/api/routes/equipment.py:135-146 | An unknown equipment id counts 0. |
| EquipmentRoutes.ListVisibleOnEquipmentPage | backend/app/api/routes/equipment.py:170-171 | Whatever the list shows appears on the equipment page too. |
| EquipmentRoutes.EquipmentPageShowsMore | backend/app/api/routes/equipment.py:153-171 | The converse fails: a technician of no team sees another user's new request on the equipment page but not in the list. |
| EquipmentRoutes.EquipmentPageVisible | backend/app/api/routes/equipment.py:170-171 | The only role filter of the equipment page: role "user" sees its own requests. |
| EquipmentRoutes.EquipmentRequests | backend/app/api/routes/equipment.py:149-193 | The result is each request of the equipment that joins and that the caller may see, once, with its stage normalised. |
| TeamRoutes.TeamMembers | backend/app/api/routes/teams.py:31-35 | The users of a team's membership rows whose user row exists. |
| TeamRoutes.MembersOf | backend/app/api/routes/teams.py:31-35 | The result lists the team's members whose user row exists, each once. |
| TeamRoutes.ListTeams | backend/app/api/routes/teams.py:26-43 | Every team is listed once, with exactly its members. |
| TeamRoutes.MembershipChanges | backend/app/api/routes/teams.py:84-105 | Adding a pair gives that team exactly one more member, and removing it takes exactly that one away; other teams are unaffected. |
| TeamRoutes.CreateTeam | backend/app/api/routes/teams.py:46-61 | A non-manager gets 403, and a taken name gets 400, with nothing stored. Otherwise a memberless team is stored under a fresh key. |
| TeamRoutes.NoMembersYet | backend/app/api/routes/teams.py:61 | A team under a fresh key has no members. |
| TeamRoutes.AddMember | backend/app/api/routes/teams.py:64-85 | The outcome follows the source order: 403, then 404, then an existing pair is a no-op, then an unknown user fails the foreign key. Only a success adds the pair. |
| TeamRoutes.RemoveMember | backend/app/api/routes/teams.py:88-105 | A non-manager gets 403; otherwise the pair is gone afterwards, whether or not it was there. |
| Seed.AtMostOneWithEmail | backend/app/db/models.py:12 | At most one user has a given e-mail address. |
| Seed.EnsureUser | backend/app/scripts/seed_demo_data.py:20-36 | The user with that address is returned unchanged. Otherwise exactly one new active user is added. |
| Seed.SeedKey | backend/app/scripts/seed_demo_data.py:48 | A stage is indexed under its key, except in progress, which is indexed under "in progress". |
| Seed.SeedKeyInjective | backend/app/scripts/seed_demo_data.py:48 | Distinct stages are indexed under distinct names. |
| Seed.SeedNeverCollides | backend/app/scripts/seed_demo_data.py:47-53 | The seed fill never inserts a label that is already stored. |
| Seed.SeedFillComplete | backend/app/scripts/seed_demo_data.py:47-53 | After one call no required stage is missing, so a second call creates nothing. |
| Seed.EnsureStageMap | backend/app/scripts/seed_demo_data.py:39-55 | The call never fails and only appends rows. The dictionary is keyed by every lower-cased stored name and holds "new", "in progress", "repaired" and "scrap". |
| Seed.SeedMapResolves | backend/app/scripts/seed_demo_data.py:53-55 | Every entry of the returned dictionary resolves to a row with that lower-cased name. |
| Seed.EnsureSimple | backend/app/scripts/seed_demo_data.py:58-68 | The one row with that name is returned. Otherwise exactly one new row is added, to that table only. |
| Seed.EnsureTeamMember | backend/app/scripts/seed_demo_data.py:71-81 | The pair is inserted only if it is absent. A missing team or user fails the foreign key. |
| Seed.SeededIsFound | backend/app/scripts/seed_demo_data.py:95-107 | Once inserted, the request is the only match for its subject and equipment, so a second call returns it. |
| Seed.EnsureRequest | backend/app/scripts/seed_demo_data.py:84-123 | Several matches yield a 500 before anything is written. Then the stage map runs and a missing stage name yields a 500. An existing match is returned. Otherwise one request is inserted with the resolved stage, or the foreign keys fail. |
| Seed.SingleMatch | backend/app/scripts/seed_demo_data.py:101 | A lookup with at most one match that finds a row finds exactly that row. |
| Kanban.ColumnsInOrder | frontend/src/components/Kanban.tsx:29-36 | The columns are new, in_progress, repaired and scrap, in that order, titled with the stage labels. The recognised keys are exactly the four stage keys. |
| Kanban.BucketOf | frontend/src/components/Kanban.tsx:171 | A card with a known stage goes to that stage's column, and any other card goes to new. |
| Kanban.ItemsByStage | frontend/src/components/Kanban.tsx:164-173 | All four buckets exist, and each holds exactly the cards of its stage, in input order. |
| Kanban.Bucket | frontend/src/components/Kanban.tsx:170-173 | The cards pushed onto bucket s, in input order. |
| Kanban.BucketMembership | frontend/src/components/Kanban.tsx:170-173 | A card is in a bucket exactly when it is one of the cards and that is its bucket. |
| Kanban.BucketAppend | frontend/src/components/Kanban.tsx:170-173 | Bucketing commutes with concatenation, so each bucket keeps the input order. |
| Kanban.BucketsPartition | frontend/src/components/Kanban.tsx:164-173 | Together the four buckets hold every card exactly as often as the input does. |
| Kanban.BucketSizes | frontend/src/components/Kanban.tsx:164-173 | The bucket sizes sum to the number of cards. |
| Kanban.ShowsOverdue | frontend/src/components/Kanban.tsx:53-56 | The marker: overdue and not in the repaired or scrap stage. |
| Kanban.OverdueOnlyOpen | frontend/src/components/Kanban.tsx:53-56 | The marker shows only in the new and in-progress columns, and always for an overdue card there. |
| Kanban.FirstChars | frontend/src/components/Kanban.tsx:99-100 | At most one character is taken per word. |
| Kanban.FirstCharsOfWords | frontend/src/components/Kanban.tsx:99-100 | When no word is empty, the i-th character is the first character of the i-th word. |
| Kanban.Initials | frontend/src/components/Kanban.tsx:97-102 | The initials have at most two characters. |
| Kanban.InitialsOfWords | frontend/src/components/Kanban.tsx:97-102 | For words joined by single spaces, the initials are the first characters of the non-empty words, cut to two and upper-cased. |
| Kanban.InitialsExample | frontend/src/components/Kanban.tsx:97-102 | "Tech One" has the initials "TO". |
| Kanban.DropTarget | frontend/src/components/Kanban.tsx:179-181 | A non-empty container id is the target. Otherwise a non-empty text id is, and a numeric id gives no target. |
| Kanban.FindCard | frontend/src/components/Kanban.tsx:186 | A card is found exactly when one has the id, and it is the first such card. |
| Kanban.HandleDragEnd | frontend/src/components/Kanban.tsx:175-190 | A stage change is requested exactly when over is present, the target is a stage key, and the card exists in a different stage. It is requested with that card's id and the target stage. |
| Kanban.DropDecisions | frontend/src/components/Kanban.tsx:175-190 | Dropping a known card on a column asks to move it exactly when the column is not its stage. Dropping it on a card of its own column asks nothing. |

## Left out

- Display names are not modelled: the joined equipment, team, assignee, owner, department and category names, and the member names of a team. Each view carries the ids the name lookups start from. The joins themselves are modelled as filters.
- `datetime.fromisoformat` and `isoformat` are library calls. Parsing is a function parameter returning an `Option`, and timestamps are integers that are only compared.
- `Decimal` durations are `real` values that are only stored.
- Authentication is not modelled: JWT decoding, password hashing and verification, and `get_current_user` (backend/app/api/deps.py). The caller arrives as a `Viewer` (an id and a role).
- Users get a role, as the routes and the seeding script use it. The `AppUser` record in backend/app/db/models.py:8-15 declares neither a role nor a password column. The seed's password hash is left out.
- Rows come back in an unspecified order, as the SQL statements have no ORDER BY. Lists are specified as "each selected row exactly once". The later-row-wins choice of `by_name` between rows with the same key is left open the same way.
- Transactions and concurrency are not modelled. Each call is atomic: a refused call leaves every table as it was, apart from the stage rows `_stage_map` already committed.
- Text.Lower: maps ASCII letters only. Python's `str.lower`, SQL `lower()` and JavaScript's `toUpperCase` are Unicode-aware.
- Text.Like: the backslash escape of SQL LIKE is left out. So is any case folding the database applies on its own.
- create_request and update_stage look up a team name after committing, through `select(MaintenanceTeamMember.team.name)` and a join (backend/app/api/routes/requests.py:240-244, 391-395). That lookup is not modelled, and the Ok contracts of RequestRoutes.CreateRequest and RequestRoutes.UpdateStage assume it succeeds. If it raises, the call answers 500 although its change is already committed.
- Primary keys are abstract fresh ids from one counter. A PostgreSQL sequence is consumed by a failed INSERT and may leave gaps. The model keeps the counter on a refused stage fill and hands out consecutive keys (StageRegistry.CreatedRowsSpec).
- Kanban rendering, dnd-kit sensors and `Number(active.id)` are left out; card ids are integers. The other frontend files have only rendering, network and storage code, and the seeding script's `run()` only sequences calls.
- Kanban.Initials: covers ASCII upper-casing only, and treats the first UTF-16 unit of a word as its first character.

## Findings

| source | as written | input that shows it | evidently intended | confidence | as-written member | corrected member |
|---|---|---|---|---|---|---|
| backend/app/api/routes/requests.py:73-75 | `by_name` is keyed by the lower-cased stored name, but missing stages are looked up by logical key. The row "In Progress" is stored as "in progress", so the key "in_progress" is never found, and a second "In Progress" row is inserted. That insert violates the unique stage name (backend/app/db/models.py:83). | A second call of `_stage_map` on an empty database. Its first call creates New, In Progress, Repaired and Scrap, and its second fails with a constraint error. The same happens on the table of seed_demo_data.py. Every later create, assign or stage change then fails. | The stored names are indexed by their normalised key (`_normalize_stage_name`), so existing stages are found and nothing is re-inserted. The endpoints of this model keep calling the map as written, so their contracts show the 500s; the corrected map is proved on its own. | not executed | StageRegistry.StageMap (StageRegistry.StageMapSecondCallFails, StageRegistry.AsWrittenCollision, StageRegistry.FilledEmptyTableClashes) | StageRegistry.StageMapNormalized (StageRegistry.NormalizedNeverCollides, StageRegistry.NormalizedFillComplete) |
