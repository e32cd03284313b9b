/** The get-or-create helpers of backend/app/scripts/seed_demo_data.py. Each looks a row
    up by its natural key and returns it, or inserts exactly one new row. */
module Seed {
  import opened Outcomes
  import opened Text
  import opened Stages
  import opened Records
  import opened Database
  import opened StageRegistry

  // ---------------------------------------------------------------------------
  // ensure_user

  function UsersWithEmail(users: map<Id, AppUser>, email: string): set<Id> {
    set k | k in users && users[k].email == Some(email)
  }

  /** Under the unique e-mail constraint at most one user matches. */
  lemma AtMostOneWithEmail(users: map<Id, AppUser>, email: string, a: Id, b: Id)
    requires UniqueEmails(users)
    requires a in UsersWithEmail(users, email) && b in UsersWithEmail(users, email)
    ensures a == b
  {
  }

  /** The user with that e-mail address, or a new active user with it. */
  method EnsureUser(db: Db, email: string, fullName: string, role: Role) returns (id: Id)
    requires db.Valid()
    modifies db
    ensures db.Valid()
    ensures db.departments == old(db.departments) && db.categories == old(db.categories) && db.teams == old(db.teams)
    ensures db.members == old(db.members) && db.equipment == old(db.equipment)
    ensures db.requests == old(db.requests) && db.stages == old(db.stages)
    ensures id in db.users && db.users[id].email == Some(email)
    ensures UsersWithEmail(old(db.users), email) != {} ==>
      id in old(db.users) && db.users == old(db.users) && db.nextId == old(db.nextId)
    ensures UsersWithEmail(old(db.users), email) == {} ==>
      id !in old(db.users) && db.users == old(db.users)[id := AppUser(fullName, Some(email), role, true)]
  {
    var found := UsersWithEmail(db.users, email);
    if found != {} {
      id := Pick(found);
      return;
    }
    forall k | k in db.users ensures db.users[k].email != Some(email) {
      assert db.users[k].email == Some(email) ==> k in found;
    }
    id := db.InsertUser(AppUser(fullName, Some(email), role, true));
  }

  // ---------------------------------------------------------------------------
  // ensure_stage_map

  /** The key ensure_stage_map indexes a required stage under: its label lower-cased. */
  function SeedKey(s: Stage): (k: string)
    ensures k == if s == InProgress then "in progress" else Key(s)
  {
    LowerLabel(s);
    Lower(Label(s))
  }

  lemma SeedKeyInjective(a: Stage, b: Stage)
    requires SeedKey(a) == SeedKey(b)
    ensures a == b
  {
  }

  /** The seed fill never collides: a stored label is found under its own lower-cased name. */
  lemma SeedNeverCollides(stages: map<Id, StageRow>)
    ensures !Collides(stages, Missing(KeyNames(stages, Lower), SeedKey))
  {
    MissingSpec(KeyNames(stages, Lower), SeedKey);
    forall s | Label(s) in Names(stages) ensures s !in Missing(KeyNames(stages, Lower), SeedKey) {
      LabelIndexed(stages, Lower, s);
    }
  }

  /** The stage table after ensure_stage_map: the missing rows appended under fresh keys. */
  ghost predicate SeedStagesEnsured(before: map<Id, StageRow>, beforeNext: Id, after: map<Id, StageRow>, afterNext: Id) {
    var missing := Missing(KeyNames(before, Lower), SeedKey);
    after == before + CreatedRows(missing, beforeNext, SeedStageRow) && afterNext == beforeNext + |missing|
  }

  /** After one call no required stage is missing, so a second call creates nothing. */
  lemma SeedFillComplete(before: map<Id, StageRow>, beforeNext: Id, after: map<Id, StageRow>, afterNext: Id)
    requires KeysBelow(before, beforeNext)
    requires SeedStagesEnsured(before, beforeNext, after, afterNext)
    ensures Missing(KeyNames(after, Lower), SeedKey) == []
    ensures SeedStagesEnsured(after, afterNext, after, afterNext)
  {
    FillComplete(before, beforeNext, Lower, SeedKey, SeedStageRow);
  }

  /** The dictionary is keyed by every lower-cased stored name, each resolving to a row
      with that name; "new", "in progress", "repaired" and "scrap" are always among them. */
  method EnsureStageMap(db: Db) returns (byName: map<string, Id>)
    requires db.Valid()
    modifies db
    ensures db.Valid()
    ensures db.users == old(db.users) && db.departments == old(db.departments)
    ensures db.categories == old(db.categories) && db.teams == old(db.teams) && db.members == old(db.members)
    ensures db.equipment == old(db.equipment) && db.requests == old(db.requests)
    ensures SeedStagesEnsured(old(db.stages), old(db.nextId), db.stages, db.nextId)
    ensures forall k :: k in byName ==> byName[k] in db.stages && Lower(db.stages[byName[k]].name) == k
    ensures byName.Keys == KeyNames(db.stages, Lower)
    ensures {"new", "in progress", "repaired", "scrap"} <= byName.Keys
  {
    forall a, b | SeedKey(a) == SeedKey(b) ensures a == b { SeedKeyInjective(a, b); }
    SeedNeverCollides(db.stages);
    MissingSpec(KeyNames(db.stages, Lower), SeedKey);
    var r := FillStages(db, Lower, SeedKey, SeedStageRow);
    byName := r.value;
    SeedMapResolves(old(db.stages), old(db.nextId), Missing(KeyNames(old(db.stages), Lower), SeedKey), byName);
  }

  /** What the dictionary of a successful seed fill holds. */
  lemma SeedMapResolves(stages: map<Id, StageRow>, from: Id, missing: seq<Stage>, byName: map<string, Id>)
    requires KeysBelow(stages, from)
    requires forall s :: s in missing <==> SeedKey(s) !in KeyNames(stages, Lower)
    requires IndexedBy(byName - WantedKeys(missing, SeedKey), stages, stages.Keys, Lower)
    requires forall j :: 0 <= j < |missing| ==> SeedKey(missing[j]) in byName && byName[SeedKey(missing[j])] == from + j
    ensures var table := stages + CreatedRows(missing, from, SeedStageRow);
      && (forall k :: k in byName ==> byName[k] in table && Lower(table[byName[k]].name) == k)
      && byName.Keys == KeyNames(table, Lower)
      && {"new", "in progress", "repaired", "scrap"} <= byName.Keys
  {
    FillResolves(stages, from, missing, byName, Lower, SeedKey, SeedStageRow);
    FillKeys(stages, from, missing, byName, Lower, SeedKey, SeedStageRow);
    assert SeedKey(New) in byName && SeedKey(InProgress) in byName;
    assert SeedKey(Repaired) in byName && SeedKey(Scrap) in byName;
  }

  // ---------------------------------------------------------------------------
  // ensure_simple

  function RowsNamed(m: map<Id, string>, name: string): set<Id> {
    set k | k in m && m[k] == name
  }

  /** The department, category or team of that name, or exactly one new row with it. */
  method EnsureSimple(db: Db, t: NamedTable, name: string) returns (id: Id)
    requires db.Valid()
    modifies db
    ensures db.Valid()
    ensures db.users == old(db.users) && db.members == old(db.members) && db.equipment == old(db.equipment)
    ensures db.requests == old(db.requests) && db.stages == old(db.stages)
    ensures id in db.Named(t) && db.Named(t)[id] == name
    ensures RowsNamed(old(db.Named(t)), name) != {} ==>
      && RowsNamed(old(db.Named(t)), name) == {id}
      && db.departments == old(db.departments) && db.categories == old(db.categories) && db.teams == old(db.teams)
      && db.nextId == old(db.nextId)
    ensures RowsNamed(old(db.Named(t)), name) == {} ==>
      && id !in old(db.Named(t))
      && db.departments == (if t == Departments then old(db.departments)[id := name] else old(db.departments))
      && db.categories == (if t == Categories then old(db.categories)[id := name] else old(db.categories))
      && db.teams == (if t == Teams then old(db.teams)[id := name] else old(db.teams))
  {
    var found := RowsNamed(db.Named(t), name);
    if found != {} {
      id := Pick(found);
      assert UniqueNames(db.Named(t));
      forall k | k in found ensures k == id {
      }
      return;
    }
    forall k | k in db.Named(t) ensures db.Named(t)[k] != name {
      assert db.Named(t)[k] == name ==> k in found;
    }
    id := db.InsertNamed(t, name);
  }

  // ---------------------------------------------------------------------------
  // ensure_team_member

  /** Inserts the pair only if it is absent; a pair naming a missing team or user fails the
      foreign keys on commit. */
  method EnsureTeamMember(db: Db, teamId: Id, userId: Id) returns (r: Outcome)
    requires db.Valid()
    modifies db
    ensures db.Valid()
    ensures db.users == old(db.users) && db.departments == old(db.departments) && db.categories == old(db.categories)
    ensures db.teams == old(db.teams) && db.equipment == old(db.equipment)
    ensures db.requests == old(db.requests) && db.stages == old(db.stages) && db.nextId == old(db.nextId)
    ensures r.Refused? <==> (teamId, userId) !in old(db.members) && (teamId !in db.teams || userId !in db.users)
    ensures r.Refused? ==> r.failure == IntegrityError
    ensures db.members == old(db.members) + (if r.Done? then {(teamId, userId)} else {})
  {
    if (teamId, userId) in db.members {
      return Done;
    }
    if teamId !in db.teams || userId !in db.users {
      return Refused(IntegrityError);
    }
    db.InsertMember(teamId, userId);
    r := Done;
  }

  // ---------------------------------------------------------------------------
  // ensure_request

  /** The requests with that subject on that equipment. */
  function Matching(requests: map<Id, MaintenanceRequest>, subject: string, equipmentId: Id): set<Id> {
    set k | k in requests && requests[k].subject == subject && requests[k].equipmentId == equipmentId
  }

  /** The arguments of ensure_request; the equipment is a stored row, passed by its id. */
  datatype SeedRequest = SeedRequest(
    subject: string,
    requestType: RequestType,
    stageName: string,
    equipmentId: Id,
    requesterId: Id,
    assignedToId: Option<Id>,
    scheduledStart: Option<Instant>)

  /** The row ensure_request inserts, with the stage row it resolved. */
  function Seeded(a: SeedRequest, e: Equipment, stageId: Id): MaintenanceRequest {
    MaintenanceRequest(a.requestType, a.subject, None, a.equipmentId, e.categoryId, e.maintenanceTeamId,
                       a.requesterId, a.assignedToId, stageId, a.scheduledStart, None)
  }

  /** Once inserted, the request is the one match for its subject and equipment, so a
      second call returns it. */
  lemma SeededIsFound(requests: map<Id, MaintenanceRequest>, id: Id, a: SeedRequest, e: Equipment, stageId: Id)
    requires Matching(requests, a.subject, a.equipmentId) == {}
    ensures Matching(requests[id := Seeded(a, e, stageId)], a.subject, a.equipmentId) == {id}
  {
    var after := Matching(requests[id := Seeded(a, e, stageId)], a.subject, a.equipmentId);
    forall k | k in after ensures k == id {
      assert k != id ==> k in Matching(requests, a.subject, a.equipmentId);
    }
  }

  /** The existing-request lookup runs first and fails when (subject, equipment) matches
      more than one row; then the stage map is ensured and the stage looked up by
      stage_name.lower() (a missing key fails). Only then is an existing request returned,
      or a new one inserted, whose requester and assignee must exist. */
  method EnsureRequest(db: Db, a: SeedRequest) returns (r: Result<Id>)
    requires db.Valid()
    requires a.equipmentId in db.equipment
    modifies db
    ensures db.Valid()
    ensures db.users == old(db.users) && db.departments == old(db.departments) && db.categories == old(db.categories)
    ensures db.teams == old(db.teams) && db.members == old(db.members) && db.equipment == old(db.equipment)
    ensures |Matching(old(db.requests), a.subject, a.equipmentId)| > 1 ==>
      r == Err(MultipleResults) && db.stages == old(db.stages) && db.requests == old(db.requests) && db.nextId == old(db.nextId)
    ensures |Matching(old(db.requests), a.subject, a.equipmentId)| <= 1 ==>
      var matches := Matching(old(db.requests), a.subject, a.equipmentId);
      var inserted := r.Ok? && r.value !in old(db.requests);
      && SeedStagesEnsured(old(db.stages), old(db.nextId), db.stages, if inserted then db.nextId - 1 else db.nextId)
      && (Lower(a.stageName) !in KeyNames(db.stages, Lower) ==> r == Err(MissingKey))
      && (Lower(a.stageName) in KeyNames(db.stages, Lower) && matches != {} ==> r.Ok? && matches == {r.value})
      && (inserted <==>
            && Lower(a.stageName) in KeyNames(db.stages, Lower) && matches == {}
            && a.requesterId in old(db.users) && (a.assignedToId.Some? ==> a.assignedToId.value in old(db.users)))
      && (Lower(a.stageName) in KeyNames(db.stages, Lower) && matches == {} && !inserted ==> r == Err(IntegrityError))
      && (!inserted ==> db.requests == old(db.requests))
      && (inserted ==>
            && matches == {}
            && r.value in db.requests
            && var stageId := db.requests[r.value].stageId;
            && db.requests == old(db.requests)[r.value := Seeded(a, old(db.equipment)[a.equipmentId], stageId)]
            && stageId in db.stages && Lower(db.stages[stageId].name) == Lower(a.stageName))
      && (r.Ok? ==> r.value in db.requests && Matching(db.requests, a.subject, a.equipmentId) == {r.value})
  {
    var matches := Matching(db.requests, a.subject, a.equipmentId);
    if |matches| > 1 {
      return Err(MultipleResults);
    }
    var stages := EnsureStageMap(db);
    var key := Lower(a.stageName);
    if key !in stages {
      return Err(MissingKey);
    }
    if matches != {} {
      var id := Pick(matches);
      SingleMatch(matches, id);
      return Ok(id);
    }
    if a.requesterId !in db.users || (a.assignedToId.Some? && a.assignedToId.value !in db.users) {
      return Err(IntegrityError);
    }
    var e := db.equipment[a.equipmentId];
    var req := Seeded(a, e, stages[key]);
    var id := db.InsertRequest(req);
    SeededIsFound(old(db.requests), id, a, e, stages[key]);
    r := Ok(id);
  }

  lemma SingleMatch(s: set<Id>, id: Id)
    requires |s| <= 1 && id in s
    ensures s == {id}
  {
    assert |s - {id}| == |s| - 1;
    assert s - {id} == {};
  }
}
