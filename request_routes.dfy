/** The endpoints of backend/app/api/routes/requests.py over the store: listing, the
    preventive calendar, filing a request, assigning it and moving it between stages.
    Every endpoint that resolves stages calls _stage_map as written, so each of them
    answers 500 on a stage table where that map collides. */
module RequestRoutes {
  import opened Outcomes
  import opened Text
  import opened Stages
  import opened Records
  import opened Database
  import opened StageRegistry
  import opened RequestRules

  /** RequestOut without the joined display names (equipment, team, assignee). */
  datatype RequestView = RequestView(
    id: Id,
    subject: string,
    requestType: RequestType,
    stage: string,
    equipmentId: Id,
    teamId: Id,
    assignedToId: Option<Id>,
    scheduledStart: Option<Instant>)

  /** The body of POST /requests. */
  datatype RequestCreate = RequestCreate(
    subject: string,
    description: Option<string>,
    requestType: RequestType,
    equipmentId: Id,
    scheduledStart: Option<string>)

  function ViewOf(id: Id, r: MaintenanceRequest, stage: string): RequestView {
    RequestView(id, r.subject, r.requestType, stage, r.equipmentId, r.teamId, r.assignedToId, r.scheduledStart)
  }

  /** stage_lookup.get(stage_id, ""). */
  function StageNameOf(stages: map<Id, StageRow>, id: Id): string {
    if id in stages then stages[id].name else ""
  }

  // ---------------------------------------------------------------------------
  // GET /requests

  /** Every request the caller may see whose equipment row joins, once each, with its
      stage normalised. The stage table is read but never filled here. */
  method ListRequests(db: Db, viewer: Viewer) returns (out: seq<RequestView>, ids: seq<Id>)
    ensures |out| == |ids|
    ensures forall i :: 0 <= i < |ids| ==>
      && ids[i] in db.requests
      && db.requests[ids[i]].equipmentId in db.equipment
      && ListVisible(viewer, db.members, db.stages, db.requests[ids[i]])
      && out[i] == ViewOf(ids[i], db.requests[ids[i]], NormalizeStageName(StageNameOf(db.stages, db.requests[ids[i]].stageId)))
    ensures forall i, j :: 0 <= i < j < |ids| ==> ids[i] != ids[j]
    ensures forall k :: k in db.requests ==>
      (db.requests[k].equipmentId in db.equipment && ListVisible(viewer, db.members, db.stages, db.requests[k]) ==> k in ids)
  {
    var equipment, members, stages := db.equipment, db.members, db.stages;
    out, ids := Collect(db.requests,
      (id: Id, r: MaintenanceRequest) => r.equipmentId in equipment && ListVisible(viewer, members, stages, r),
      (id: Id, r: MaintenanceRequest) => ViewOf(id, r, NormalizeStageName(StageNameOf(stages, r.stageId))));
  }

  /** On a consistent store the equipment join drops nothing: the list is exactly the
      visible requests. */
  lemma ListedIffVisible(db: Db, viewer: Viewer, out: seq<RequestView>, ids: seq<Id>, k: Id)
    requires db.Valid()
    requires forall i :: 0 <= i < |ids| ==> ids[i] in db.requests && ListVisible(viewer, db.members, db.stages, db.requests[ids[i]])
    requires forall k :: k in db.requests ==>
      (db.requests[k].equipmentId in db.equipment && ListVisible(viewer, db.members, db.stages, db.requests[k]) ==> k in ids)
    ensures k in ids <==> k in db.requests && ListVisible(viewer, db.members, db.stages, db.requests[k])
  {
    if k in db.requests {
      assert RequestResolves(db.requests[k], db.equipment, db.categories, db.teams, db.users, db.stages);
    }
  }

  // ---------------------------------------------------------------------------
  // GET /requests/calendar

  /** The preventive requests in the window the caller may see. The bounds are parsed
      before the stage map runs, so a bad bound leaves the store untouched; then a
      colliding stage map fails the call; newStageId is the row the map resolved for "new". */
  method Calendar(db: Db, viewer: Viewer, start: Option<string>, end: Option<string>, parse: string -> Option<Instant>)
    returns (r: Result<seq<RequestView>>, ids: seq<Id>, newStageId: Id)
    requires db.Valid()
    modifies db
    ensures db.Valid()
    ensures db.users == old(db.users) && db.departments == old(db.departments) && db.categories == old(db.categories)
    ensures db.teams == old(db.teams) && db.members == old(db.members)
    ensures db.equipment == old(db.equipment) && db.requests == old(db.requests)
    ensures r.Err? <==> ParseWindow(start, end, parse).Err? || InProgressClash(old(db.stages))
    ensures r.Err? ==> r.failure == (if ParseWindow(start, end, parse).Err? then InvalidDate else IntegrityError)
    ensures r.Err? ==> db.stages == old(db.stages) && db.nextId == old(db.nextId)
    ensures r.Ok? ==>
      var window := ParseWindow(start, end, parse).value;
      && StagesFilled(old(db.stages), old(db.nextId), db.stages, db.nextId, Lower)
      && AsWrittenEntry(old(db.stages), db.stages, newStageId, New)
      && |r.value| == |ids|
      && (forall i :: 0 <= i < |ids| ==>
            && ids[i] in db.requests
            && CalendarSelected(viewer, db.members, newStageId, window.0, window.1, db.requests[ids[i]])
            && r.value[i] == ViewOf(ids[i], db.requests[ids[i]], NormalizeStageName(db.stages[db.requests[ids[i]].stageId].name)))
      && (forall i, j :: 0 <= i < j < |ids| ==> ids[i] != ids[j])
      && (forall k :: k in db.requests && CalendarSelected(viewer, db.members, newStageId, window.0, window.1, db.requests[k]) ==> k in ids)
  {
    var window := ParseWindow(start, end, parse);
    if window.Err? {
      return Err(window.failure), [], 0;
    }
    var byName := StageMap(db);
    if byName.Err? {
      return Err(byName.failure), [], 0;
    }
    newStageId := byName.value[Key(New)];
    var lo, hi := window.value.0, window.value.1;
    var equipment, teams, members, stages := db.equipment, db.teams, db.members, db.stages;
    var rows;
    rows, ids := Collect(db.requests,
      (id: Id, q: MaintenanceRequest) =>
        q.equipmentId in equipment && q.teamId in teams && q.stageId in stages
        && CalendarSelected(viewer, members, newStageId, lo, hi, q),
      (id: Id, q: MaintenanceRequest) =>
        ViewOf(id, q, NormalizeStageName(if q.stageId in stages then stages[q.stageId].name else "")));
    JoinsKeepAll(db);
    r := Ok(rows);
  }

  /** Every stored request joins its equipment, team and stage rows. */
  lemma JoinsKeepAll(db: Db)
    requires db.Valid()
    ensures forall k :: k in db.requests ==>
      db.requests[k].equipmentId in db.equipment && db.requests[k].teamId in db.teams && db.requests[k].stageId in db.stages
  {
    forall k | k in db.requests
      ensures db.requests[k].equipmentId in db.equipment && db.requests[k].teamId in db.teams && db.requests[k].stageId in db.stages
    {
      assert RequestResolves(db.requests[k], db.equipment, db.categories, db.teams, db.users, db.stages);
    }
  }

  // ---------------------------------------------------------------------------
  // POST /requests

  /** The row create_request stores, before its stage id is known. */
  function Filed(payload: RequestCreate, e: Equipment, members: Memberships, requester: Id,
                 stageId: Id, scheduled: Option<Instant>): MaintenanceRequest {
    MaintenanceRequest(payload.requestType, payload.subject, payload.description, payload.equipmentId,
                       e.categoryId, e.maintenanceTeamId, requester, AutoAssignee(e, members), stageId, scheduled, None)
  }

  /** Files a request in stage new against the equipment's category and team, assigned to
      the default technician when that technician belongs to the team. The stage map runs
      first (500 when it collides), then the equipment lookup (404), then the scheduled
      start is parsed (400). */
  method CreateRequest(db: Db, viewer: Viewer, payload: RequestCreate, parse: string -> Option<Instant>)
    returns (r: Result<RequestView>)
    requires db.Valid()
    requires viewer.id in db.users
    modifies db
    ensures db.Valid()
    ensures db.users == old(db.users) && db.departments == old(db.departments) && db.categories == old(db.categories)
    ensures db.teams == old(db.teams) && db.members == old(db.members) && db.equipment == old(db.equipment)
    ensures r.Err? <==>
      (InProgressClash(old(db.stages)) || payload.equipmentId !in old(db.equipment) ||
       ParseOptional(payload.scheduledStart, parse).Err?)
    ensures r.Err? ==>
      r.failure == (if InProgressClash(old(db.stages)) then IntegrityError
                    else if payload.equipmentId !in old(db.equipment) then NotFound else InvalidDate)
    ensures r.Err? ==> db.requests == old(db.requests)
    ensures InProgressClash(old(db.stages)) ==> db.stages == old(db.stages) && db.nextId == old(db.nextId)
    ensures r.Err? && !InProgressClash(old(db.stages)) ==>
      StagesFilled(old(db.stages), old(db.nextId), db.stages, db.nextId, Lower)
    ensures r.Ok? ==>
      var id := r.value.id;
      var e := old(db.equipment)[payload.equipmentId];
      var scheduled := ParseOptional(payload.scheduledStart, parse).value;
      && StagesFilled(old(db.stages), old(db.nextId), db.stages, db.nextId - 1, Lower)
      && id !in old(db.requests) && id in db.requests
      && db.requests == old(db.requests)[id := Filed(payload, e, db.members, viewer.id, db.requests[id].stageId, scheduled)]
      && AsWrittenEntry(old(db.stages), db.stages, db.requests[id].stageId, New)
      && r.value == ViewOf(id, db.requests[id], Key(New))
  {
    var byName := StageMap(db);
    if byName.Err? {
      return Err(byName.failure);
    }
    var stages := byName.value;
    if payload.equipmentId !in db.equipment {
      return Err(NotFound);
    }
    var e := db.equipment[payload.equipmentId];
    var assignee := AutoAssignee(e, db.members);
    var scheduled := ParseOptional(payload.scheduledStart, parse);
    if scheduled.Err? {
      return Err(InvalidDate);
    }
    var req := Filed(payload, e, db.members, viewer.id, stages[Key(New)], scheduled.value);
    assert e.categoryId in db.categories && e.maintenanceTeamId in db.teams && e.defaultTechnicianId in db.users by {
      assert payload.equipmentId in db.equipment;
    }
    var id := db.InsertRequest(req);
    r := Ok(ViewOf(id, req, Key(New)));
  }

  // ---------------------------------------------------------------------------
  // PATCH /requests/{id}/assign

  /** The request after assign_request accepted: the new assignee, and the stage row the
      stage map resolved for in_progress when the request was new. */
  ghost predicate Assigned(before: MaintenanceRequest, after: MaintenanceRequest, assignee: Id,
                           advance: bool, stored: map<Id, StageRow>, stages: map<Id, StageRow>)
  {
    && after == before.(assignedToId := Some(assignee), stageId := after.stageId)
    && (advance ==> AsWrittenEntry(stored, stages, after.stageId, InProgress))
    && (!advance ==> after.stageId == before.stageId)
  }

  /** Order of the guards: the stage map (500 when it collides), the lookup (404), the
      caller's role and team (403), the assignee's team (400). */
  method AssignRequest(db: Db, viewer: Viewer, requestId: Id, assignee: Id) returns (r: Result<RequestView>)
    requires db.Valid()
    modifies db
    ensures db.Valid()
    ensures db.users == old(db.users) && db.departments == old(db.departments) && db.categories == old(db.categories)
    ensures db.teams == old(db.teams) && db.members == old(db.members) && db.equipment == old(db.equipment)
    ensures InProgressClash(old(db.stages)) ==>
      r == Err(IntegrityError) && db.requests == old(db.requests)
      && db.stages == old(db.stages) && db.nextId == old(db.nextId)
    ensures !InProgressClash(old(db.stages)) ==> StagesFilled(old(db.stages), old(db.nextId), db.stages, db.nextId, Lower)
    ensures !InProgressClash(old(db.stages)) && requestId !in old(db.requests) ==>
      r == Err(NotFound) && db.requests == old(db.requests)
    ensures !InProgressClash(old(db.stages)) && requestId in old(db.requests) ==>
      var req := old(db.requests)[requestId];
      var current := NormalizeStageName(old(db.stages)[req.stageId].name);
      var d := AssignDecision(current, viewer, req.teamId, assignee, old(db.members));
      && (d.Err? ==> r == Err(d.failure) && db.requests == old(db.requests))
      && (d.Ok? ==>
            && requestId in db.requests
            && db.requests == old(db.requests)[requestId := db.requests[requestId]]
            && Assigned(req, db.requests[requestId], assignee, d.value, old(db.stages), db.stages)
            && r == Ok(ViewOf(requestId, db.requests[requestId], NormalizeStageName(db.stages[db.requests[requestId].stageId].name))))
  {
    var byName := StageMap(db);
    if byName.Err? {
      return Err(byName.failure);
    }
    var stages := byName.value;
    if requestId !in db.requests {
      return Err(NotFound);
    }
    var req := db.requests[requestId];
    StoredRowKept(old(db.stages), old(db.nextId), db.stages, db.nextId, Lower, req.stageId);
    if viewer.role == Requester {
      return Err(Forbidden);
    }
    if viewer.role == Technician && !IsTeamMember(db.members, req.teamId, viewer.id) {
      return Err(Forbidden);
    }
    if !IsTeamMember(db.members, req.teamId, assignee) {
      return Err(AssigneeNotInTeam);
    }
    var updated := req.(assignedToId := Some(assignee));
    var current := NormalizeStageName(db.stages[req.stageId].name);
    if current == Key(New) {
      updated := updated.(stageId := stages[Key(InProgress)]);
    }
    db.ReplaceRequest(requestId, updated);
    r := Ok(ViewOf(requestId, updated, NormalizeStageName(db.stages[updated.stageId].name)));
  }

  // ---------------------------------------------------------------------------
  // PATCH /requests/{id}/stage

  /** The request after update_stage accepted a move to target. */
  ghost predicate Moved(before: MaintenanceRequest, after: MaintenanceRequest, target: Stage,
                        assignee: Option<Id>, duration: Option<Hours>, stored: map<Id, StageRow>, stages: map<Id, StageRow>)
  {
    && after == before.(assignedToId := assignee, stageId := after.stageId,
                        actualDurationHours := if target == Repaired then duration else before.actualDurationHours)
    && AsWrittenEntry(stored, stages, after.stageId, target)
  }

  /** The guards run in the order of StageUpdateDecision; an accepted move stores the new
      stage, the assignee the decision settled on and, for repaired, the duration; a move
      to scrap also marks the equipment unusable. A colliding stage map fails the call
      before anything else (500); any other refusal commits nothing beyond the stage rows
      the stage map created. */
  method UpdateStage(db: Db, viewer: Viewer, requestId: Id, target: Stage, duration: Option<Hours>)
    returns (r: Result<RequestView>)
    requires db.Valid()
    modifies db
    ensures db.Valid()
    ensures db.users == old(db.users) && db.departments == old(db.departments) && db.categories == old(db.categories)
    ensures db.teams == old(db.teams) && db.members == old(db.members)
    ensures InProgressClash(old(db.stages)) ==>
      r == Err(IntegrityError) && db.requests == old(db.requests) && db.equipment == old(db.equipment)
      && db.stages == old(db.stages) && db.nextId == old(db.nextId)
    ensures !InProgressClash(old(db.stages)) ==> StagesFilled(old(db.stages), old(db.nextId), db.stages, db.nextId, Lower)
    ensures !InProgressClash(old(db.stages)) && requestId !in old(db.requests) ==>
      r == Err(NotFound) && db.requests == old(db.requests) && db.equipment == old(db.equipment)
    ensures !InProgressClash(old(db.stages)) && requestId in old(db.requests) ==>
      var req := old(db.requests)[requestId];
      var current := NormalizeStageName(old(db.stages)[req.stageId].name);
      var d := StageUpdateDecision(current, target, viewer, req.teamId, req.assignedToId, duration.Some?, old(db.members));
      && (d.Err? ==> r == Err(d.failure) && db.requests == old(db.requests) && db.equipment == old(db.equipment))
      && (d.Ok? ==>
            && requestId in db.requests
            && db.requests == old(db.requests)[requestId := db.requests[requestId]]
            && Moved(req, db.requests[requestId], target, d.value, duration, old(db.stages), db.stages)
            && db.equipment == (if target == Scrap && req.equipmentId in old(db.equipment)
                                then old(db.equipment)[req.equipmentId := Scrapped(old(db.equipment)[req.equipmentId], requestId)]
                                else old(db.equipment))
            && r == Ok(ViewOf(requestId, db.requests[requestId], Key(target))))
  {
    var byName := StageMap(db);
    if byName.Err? {
      return Err(byName.failure);
    }
    var stages := byName.value;
    if requestId !in db.requests {
      return Err(NotFound);
    }
    var req := db.requests[requestId];
    StoredRowKept(old(db.stages), old(db.nextId), db.stages, db.nextId, Lower, req.stageId);
    var current := NormalizeStageName(db.stages[req.stageId].name);
    if !TransitionPermitted(current, target) {
      return Err(InvalidTransition);
    }
    if viewer.role == Technician && !IsTeamMember(db.members, req.teamId, viewer.id) {
      return Err(Forbidden);
    }
    if viewer.role == Requester {
      return Err(Forbidden);
    }
    if target == Repaired && duration.None? {
      return Err(DurationRequired);
    }
    var assignee := req.assignedToId;
    if target == InProgress {
      if !Present(assignee) {
        assignee := Some(viewer.id);
      }
      if !IsTeamMember(db.members, req.teamId, assignee.value) {
        return Err(AssigneeNotInTeam);
      }
    }
    if target == Scrap && req.equipmentId in db.equipment {
      db.ReplaceEquipment(req.equipmentId, Scrapped(db.equipment[req.equipmentId], requestId));
    }
    var updated := req.(assignedToId := assignee, stageId := stages[Key(target)],
                        actualDurationHours := if target == Repaired then duration else req.actualDurationHours);
    db.ReplaceRequest(requestId, updated);
    r := Ok(ViewOf(requestId, updated, Key(target)));
  }
}
