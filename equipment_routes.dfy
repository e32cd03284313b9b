/** The endpoints of backend/app/api/routes/equipment.py: the equipment list with its
    filters and open-request counts, the detail lookup, the open-request count and the
    requests of one equipment. None of them writes to the store. */
module EquipmentRoutes {
  import opened Outcomes
  import opened Text
  import opened Stages
  import opened Records
  import opened Database
  import opened RequestRules
  import opened RequestRoutes

  // ---------------------------------------------------------------------------
  // Open requests

  /** A stage whose row exists with is_closed false. */
  predicate IsOpenStage(stages: map<Id, StageRow>, stageId: Id) {
    stageId in stages && !stages[stageId].isClosed
  }

  /** The requests of one equipment that sit in an open stage. */
  function OpenRequestIds(requests: map<Id, MaintenanceRequest>, stages: map<Id, StageRow>, equipmentId: Id): set<Id> {
    set k | k in requests && requests[k].equipmentId == equipmentId && IsOpenStage(stages, requests[k].stageId)
  }

  /** maintenance_open_count and open_requests: the grouped count, 0 when there is no group. */
  function OpenCount(requests: map<Id, MaintenanceRequest>, stages: map<Id, StageRow>, equipmentId: Id): nat {
    |OpenRequestIds(requests, stages, equipmentId)|
  }

  /** The count is zero exactly when the equipment has no request in an open stage. */
  lemma OpenCountZero(requests: map<Id, MaintenanceRequest>, stages: map<Id, StageRow>, equipmentId: Id)
    ensures OpenCount(requests, stages, equipmentId) == 0 <==>
      forall k :: k in requests && requests[k].equipmentId == equipmentId ==> !IsOpenStage(stages, requests[k].stageId)
  {
    var ids := OpenRequestIds(requests, stages, equipmentId);
    forall k | k in requests && requests[k].equipmentId == equipmentId
      ensures IsOpenStage(stages, requests[k].stageId) ==> k in ids
    {
    }
    if forall k :: k in requests && requests[k].equipmentId == equipmentId ==> !IsOpenStage(stages, requests[k].stageId) {
      assert ids == {};
    }
  }

  /** Filing a request under a fresh key in an open stage raises its equipment's count by
      one and leaves every other equipment's count alone. */
  lemma OpenCountAfterFiling(requests: map<Id, MaintenanceRequest>, stages: map<Id, StageRow>, id: Id,
                             r: MaintenanceRequest, equipmentId: Id)
    requires id !in requests
    requires IsOpenStage(stages, r.stageId)
    ensures OpenCount(requests[id := r], stages, equipmentId) ==
      OpenCount(requests, stages, equipmentId) + (if r.equipmentId == equipmentId then 1 else 0)
  {
    var before := OpenRequestIds(requests, stages, equipmentId);
    var after := OpenRequestIds(requests[id := r], stages, equipmentId);
    if r.equipmentId == equipmentId {
      assert after == before + {id};
    } else {
      assert after == before;
    }
  }

  /** Moving an open request of the equipment into a closed stage lowers the count by one. */
  lemma OpenCountAfterClosing(requests: map<Id, MaintenanceRequest>, stages: map<Id, StageRow>, id: Id,
                              r: MaintenanceRequest)
    requires id in requests && IsOpenStage(stages, requests[id].stageId)
    requires r.equipmentId == requests[id].equipmentId && !IsOpenStage(stages, r.stageId)
    ensures OpenCount(requests[id := r], stages, r.equipmentId) + 1 == OpenCount(requests, stages, r.equipmentId)
  {
    var before := OpenRequestIds(requests, stages, r.equipmentId);
    var after := OpenRequestIds(requests[id := r], stages, r.equipmentId);
    assert id in before && id !in after;
    assert after == before - {id};
  }

  // ---------------------------------------------------------------------------
  // GET /equipment

  /** The search: the lower-cased name or serial number is LIKE %q% for the lower-cased q. */
  predicate MatchesSearch(e: Equipment, q: string) {
    var pattern := "%" + Lower(q) + "%";
    Like(Lower(e.name), pattern) || Like(Lower(e.serialNumber), pattern)
  }

  /** The filters of list_equipment; each applies only when its argument is truthy. */
  predicate EquipmentSelected(e: Equipment, departmentId: Option<Id>, ownerUserId: Option<Id>, q: Option<string>) {
    && (Present(departmentId) ==> e.departmentId == departmentId)
    && (Present(ownerUserId) ==> e.ownerUserId == ownerUserId)
    && (q.Some? && q.value != "" ==> MatchesSearch(e, q.value))
  }

  /** A search text without % or _ matches exactly the equipment whose lower-cased name or
      serial number contains it, lower-cased. */
  lemma SearchIsSubstring(e: Equipment, q: string)
    requires NoWildcards(Lower(q))
    ensures MatchesSearch(e, q) <==> IsSubstring(Lower(q), Lower(e.name)) || IsSubstring(Lower(q), Lower(e.serialNumber))
  {
    ContainsPattern(Lower(e.name), Lower(q));
    ContainsPattern(Lower(e.serialNumber), Lower(q));
  }

  /** EquipmentOut without the joined display names. */
  datatype EquipmentView = EquipmentView(
    id: Id, name: string, serialNumber: string, teamId: Id, defaultTechnicianId: Id, openCount: nat)

  /** Every equipment that joins its category and team and passes the filters, once each,
      with its open-request count. */
  method ListEquipment(db: Db, departmentId: Option<Id>, ownerUserId: Option<Id>, q: Option<string>)
    returns (out: seq<EquipmentView>, ids: seq<Id>)
    ensures |out| == |ids|
    ensures forall i :: 0 <= i < |ids| ==>
      && ids[i] in db.equipment
      && EquipmentSelected(db.equipment[ids[i]], departmentId, ownerUserId, q)
      && out[i].id == ids[i]
      && out[i].name == db.equipment[ids[i]].name && out[i].serialNumber == db.equipment[ids[i]].serialNumber
      && out[i].teamId == db.equipment[ids[i]].maintenanceTeamId
      && out[i].defaultTechnicianId == db.equipment[ids[i]].defaultTechnicianId
      && out[i].openCount == OpenCount(db.requests, db.stages, ids[i])
    ensures forall i, j :: 0 <= i < j < |ids| ==> ids[i] != ids[j]
    ensures forall k :: k in db.equipment ==>
      ((db.equipment[k].categoryId in db.categories && db.equipment[k].maintenanceTeamId in db.teams &&
        EquipmentSelected(db.equipment[k], departmentId, ownerUserId, q)) ==> k in ids)
  {
    var categories, teams, requests, stages := db.categories, db.teams, db.requests, db.stages;
    out, ids := Collect(db.equipment,
      (id: Id, e: Equipment) =>
        e.categoryId in categories && e.maintenanceTeamId in teams && EquipmentSelected(e, departmentId, ownerUserId, q),
      (id: Id, e: Equipment) =>
        EquipmentView(id, e.name, e.serialNumber, e.maintenanceTeamId, e.defaultTechnicianId, OpenCount(requests, stages, id)));
  }

  // ---------------------------------------------------------------------------
  // GET /equipment/{id}

  /** The stored fields equipment_detail returns; unusable_reason is not among them. */
  datatype EquipmentDetail = EquipmentDetail(
    id: Id, name: string, serialNumber: string, departmentId: Option<Id>, ownerUserId: Option<Id>,
    categoryId: Id, maintenanceTeamId: Id, defaultTechnicianId: Id, status: string)

  function DetailOf(id: Id, e: Equipment): EquipmentDetail {
    EquipmentDetail(id, e.name, e.serialNumber, e.departmentId, e.ownerUserId, e.categoryId,
                    e.maintenanceTeamId, e.defaultTechnicianId, e.status)
  }

  function EquipmentDetailOf(equipment: map<Id, Equipment>, id: Id): (r: Result<EquipmentDetail>)
    ensures r.Err? <==> id !in equipment
    ensures r.Err? ==> r.failure == NotFound
    ensures r.Ok? ==>
      var e := equipment[id];
      && r.value.id == id && r.value.name == e.name && r.value.serialNumber == e.serialNumber
      && r.value.departmentId == e.departmentId && r.value.ownerUserId == e.ownerUserId
      && r.value.categoryId == e.categoryId && r.value.maintenanceTeamId == e.maintenanceTeamId
      && r.value.defaultTechnicianId == e.defaultTechnicianId && r.value.status == e.status
  {
    if id in equipment then Ok(DetailOf(id, equipment[id])) else Err(NotFound)
  }

  /** After a request of the equipment is scrapped, its detail reports it unusable and
      nothing else about it changes. */
  lemma DetailAfterScrap(equipment: map<Id, Equipment>, id: Id, requestId: Id)
    requires id in equipment
    ensures var after := equipment[id := Scrapped(equipment[id], requestId)];
      && EquipmentDetailOf(after, id).Ok?
      && EquipmentDetailOf(after, id).value == EquipmentDetailOf(equipment, id).value.(status := UnusableStatus)
  {
  }

  // ---------------------------------------------------------------------------
  // GET /equipment/{id}/requests/count

  datatype OpenRequests = OpenRequests(equipmentId: Id, openRequests: nat)

  /** No role filter applies, and an unknown equipment id counts 0. */
  method EquipmentRequestCount(db: Db, equipmentId: Id) returns (r: OpenRequests)
    ensures r.equipmentId == equipmentId
    ensures r.openRequests == OpenCount(db.requests, db.stages, equipmentId)
    ensures equipmentId !in db.equipment && db.Valid() ==> r.openRequests == 0
  {
    r := OpenRequests(equipmentId, OpenCount(db.requests, db.stages, equipmentId));
    if equipmentId !in db.equipment && db.Valid() {
      NoRequestsOfUnknown(db, equipmentId);
    }
  }

  lemma NoRequestsOfUnknown(db: Db, equipmentId: Id)
    requires db.Valid()
    requires equipmentId !in db.equipment
    ensures OpenCount(db.requests, db.stages, equipmentId) == 0
  {
    forall k | k in db.requests ensures db.requests[k].equipmentId != equipmentId {
      assert RequestResolves(db.requests[k], db.equipment, db.categories, db.teams, db.users, db.stages);
    }
    OpenCountZero(db.requests, db.stages, equipmentId);
  }

  // ---------------------------------------------------------------------------
  // GET /equipment/{id}/requests

  /** The only role filter on the equipment page: role "user" sees its own requests. */
  predicate EquipmentPageVisible(viewer: Viewer, r: MaintenanceRequest) {
    viewer.role == Requester ==> r.requesterId == viewer.id
  }

  /** Whatever list_requests shows is shown on its equipment's page too. */
  lemma ListVisibleOnEquipmentPage(viewer: Viewer, members: Memberships, stages: map<Id, StageRow>, r: MaintenanceRequest)
    requires ListVisible(viewer, members, stages, r)
    ensures EquipmentPageVisible(viewer, r)
  {
  }

  /** The converse fails: a technician of no team sees on the equipment page a new request
      that neither list_requests nor the calendar shows them. */
  lemma EquipmentPageShowsMore()
    ensures var tech := Viewer(3, Technician);
      var stages := map[7 := StageRow("New", 10, false, false)];
      var r := MaintenanceRequest(Corrective, "Leak", None, 1, 1, 5, 9, None, 7, None, None);
      && EquipmentPageVisible(tech, r)
      && !ListVisible(tech, {}, stages, r)
      && !CalendarVisible(tech, {}, 7, r)
  {
  }

  /** The requests of one equipment that join their equipment, stage and team rows and that
      the caller may see, once each, with the stage normalised. */
  method EquipmentRequests(db: Db, viewer: Viewer, equipmentId: Id) returns (out: seq<RequestView>, ids: seq<Id>)
    ensures |out| == |ids|
    ensures forall i :: 0 <= i < |ids| ==>
      && ids[i] in db.requests
      && db.requests[ids[i]].equipmentId == equipmentId
      && db.requests[ids[i]].stageId in db.stages
      && EquipmentPageVisible(viewer, db.requests[ids[i]])
      && out[i] == ViewOf(ids[i], db.requests[ids[i]], NormalizeStageName(db.stages[db.requests[ids[i]].stageId].name))
    ensures forall i, j :: 0 <= i < j < |ids| ==> ids[i] != ids[j]
    ensures db.Valid() ==> forall k :: k in db.requests ==>
      (db.requests[k].equipmentId == equipmentId && EquipmentPageVisible(viewer, db.requests[k]) ==> k in ids)
  {
    var equipment, teams, stages := db.equipment, db.teams, db.stages;
    out, ids := Collect(db.requests,
      (id: Id, q: MaintenanceRequest) =>
        q.equipmentId in equipment && q.stageId in stages && q.teamId in teams
        && q.equipmentId == equipmentId && EquipmentPageVisible(viewer, q),
      (id: Id, q: MaintenanceRequest) => ViewOf(id, q, NormalizeStageName(StageNameOf(stages, q.stageId))));
    forall i | 0 <= i < |ids|
      ensures out[i] == ViewOf(ids[i], db.requests[ids[i]], NormalizeStageName(db.stages[db.requests[ids[i]].stageId].name))
    {
    }
    if db.Valid() {
      JoinsKeepAll(db);
    }
  }
}
