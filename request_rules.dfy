/** The decisions of backend/app/api/routes/requests.py that do not touch the store:
    who sees which request, which guard of update_stage or assign_request refuses a
    call, whom create_request assigns, and how a query bound is parsed. */
module RequestRules {
  import opened Outcomes
  import opened Text
  import opened Stages
  import opened Records

  // ---------------------------------------------------------------------------
  // Visibility

  /** list_requests: a manager sees every request; a technician those assigned to them
      and those of their teams whose stage row is named exactly "New"; any other role the
      requests it submitted. */
  predicate ListVisible(viewer: Viewer, members: Memberships, stages: map<Id, StageRow>, r: MaintenanceRequest) {
    match viewer.role
    case Manager => true
    case Technician =>
      || r.assignedToId == Some(viewer.id)
      || (r.stageId in stages && stages[r.stageId].name == Label(New) && IsTeamMember(members, r.teamId, viewer.id))
    case _ => r.requesterId == viewer.id
  }

  /** The calendar's role filter: as in list_requests, except that "new" is the stage id
      the stage map resolved for the key "new". */
  predicate CalendarVisible(viewer: Viewer, members: Memberships, newStageId: Id, r: MaintenanceRequest) {
    match viewer.role
    case Manager => true
    case Technician =>
      || r.assignedToId == Some(viewer.id)
      || (r.stageId == newStageId && IsTeamMember(members, r.teamId, viewer.id))
    case _ => r.requesterId == viewer.id
  }

  /** start <= scheduled_start <= end, both inclusive; an omitted bound imposes nothing,
      and a request without a scheduled start fails every given bound (SQL NULL). */
  predicate InWindow(r: MaintenanceRequest, start: Option<Instant>, end: Option<Instant>) {
    && (start.Some? ==> r.scheduledStart.Some? && start.value <= r.scheduledStart.value)
    && (end.Some? ==> r.scheduledStart.Some? && r.scheduledStart.value <= end.value)
  }

  /** The rows the calendar query selects. */
  predicate CalendarSelected(viewer: Viewer, members: Memberships, newStageId: Id,
                             start: Option<Instant>, end: Option<Instant>, r: MaintenanceRequest) {
    r.requestType == Preventive && InWindow(r, start, end) && CalendarVisible(viewer, members, newStageId, r)
  }

  /** The subquery select(MaintenanceTeamMember.team_id).where(user_id == userId): the
      teams the user belongs to. */
  function TeamsOf(members: Memberships, userId: Id): set<Id> {
    set p | p in members && p.1 == userId :: p.0
  }

  /** The subquery select(RequestStage.id).where(name == name). */
  function StageIdsNamed(stages: map<Id, StageRow>, name: string): set<Id> {
    set id | id in stages && stages[id].name == name
  }

  /** The role filter as both queries build it: nothing for a manager; for a technician
      `assigned_to_id == me OR (stage_id IN stageIds AND team_id IN teams)`, a NULL
      assignee failing the comparison; for anyone else `requester_id == me`. */
  predicate RoleFilter(viewer: Viewer, stageIds: set<Id>, teams: set<Id>, r: MaintenanceRequest) {
    if viewer.role == Manager then true
    else if viewer.role == Technician then
      r.assignedToId == Some(viewer.id) || (r.stageId in stageIds && r.teamId in teams)
    else r.requesterId == viewer.id
  }

  /** The team subquery holds a team exactly when the membership pair is stored. */
  lemma TeamsOfMembers(members: Memberships, userId: Id, teamId: Id)
    ensures teamId in TeamsOf(members, userId) <==> IsTeamMember(members, teamId, userId)
  {
    if IsTeamMember(members, teamId, userId) {
      var p := (teamId, userId);
      assert p in members && p.1 == userId;
    }
  }

  /** Both visibility predicates are the query's role filter, and they differ only in the
      stage subquery: the list takes the ids of the rows named exactly "New", the calendar
      the single id the stage map resolved for "new". */
  lemma VisibilityIsQuery(viewer: Viewer, members: Memberships, stages: map<Id, StageRow>, newStageId: Id,
                          r: MaintenanceRequest)
    ensures ListVisible(viewer, members, stages, r) <==>
      RoleFilter(viewer, StageIdsNamed(stages, Label(New)), TeamsOf(members, viewer.id), r)
    ensures CalendarVisible(viewer, members, newStageId, r) <==>
      RoleFilter(viewer, {newStageId}, TeamsOf(members, viewer.id), r)
  {
    TeamsOfMembers(members, viewer.id, r.teamId);
  }

  /** The list and the calendar agree when the row the stage map resolved for "new" is the
      one and only row named "New". */
  lemma ListAndCalendarAgree(viewer: Viewer, members: Memberships, stages: map<Id, StageRow>, newStageId: Id, r: MaintenanceRequest)
    requires r.stageId in stages
    requires forall id :: id in stages ==> (stages[id].name == "New" <==> id == newStageId)
    ensures ListVisible(viewer, members, stages, r) <==> CalendarVisible(viewer, members, newStageId, r)
  {
  }

  /** They can disagree: a stage row named "NEW" normalises to "new", so the stage map
      resolves it for the calendar, but the list's exact test of the name "New" misses it. */
  lemma ListAndCalendarDiverge()
    ensures var stages := map[7 := StageRow("NEW", 10, false, false)];
      var tech := Viewer(3, Technician);
      var members := {(5, 3)};
      var r := MaintenanceRequest(Preventive, "Oil change", None, 1, 1, 5, 9, None, 7, None, None);
      && NormalizeStageName(stages[7].name) == Key(New)
      && CalendarVisible(tech, members, 7, r)
      && !ListVisible(tech, members, stages, r)
  {
    assert Lower("NEW") == "new";
    NormalizeStageNameCases("NEW");
  }

  // ---------------------------------------------------------------------------
  // Parsing optional timestamps

  /** `datetime.fromisoformat(raw) if raw else None`: an absent or empty string gives no
      bound; otherwise the injected parser decides, and its failure is a 400. */
  function ParseOptional(raw: Option<string>, parse: string -> Option<Instant>): (r: Result<Option<Instant>>)
    ensures r == Err(InvalidDate) <==> raw.Some? && raw.value != "" && parse(raw.value).None?
    ensures r == Ok(None) <==> raw.None? || raw.value == ""
    ensures r.Ok? && r.value.Some? ==> raw.Some? && parse(raw.value) == r.value
  {
    if raw.None? || raw.value == "" then Ok(None)
    else match parse(raw.value)
      case None => Err(InvalidDate)
      case Some(t) => Ok(Some(t))
  }

  /** The calendar's two bounds: start is parsed first, and either failure is the same 400. */
  function ParseWindow(start: Option<string>, end: Option<string>, parse: string -> Option<Instant>)
    : (r: Result<(Option<Instant>, Option<Instant>)>)
    ensures r.Err? <==> ParseOptional(start, parse).Err? || ParseOptional(end, parse).Err?
    ensures r.Err? ==> r.failure == InvalidDate
    ensures r.Ok? ==> Ok(r.value.0) == ParseOptional(start, parse) && Ok(r.value.1) == ParseOptional(end, parse)
  {
    match ParseOptional(start, parse)
    case Err(f) => Err(f)
    case Ok(s) =>
      match ParseOptional(end, parse)
      case Err(f) => Err(f)
      case Ok(e) => Ok((s, e))
  }

  // ---------------------------------------------------------------------------
  // update_stage

  /** The role checks of update_stage: a technician must belong to the request's team and
      role "user" is refused; managers and every other role pass. */
  predicate MayChangeStage(viewer: Viewer, teamId: Id, members: Memberships) {
    !(viewer.role == Technician && !IsTeamMember(members, teamId, viewer.id)) && viewer.role != Requester
  }

  /** The assignee a move to in_progress works with: the stored one unless it is unset
      (None or 0), in which case the caller. */
  function ProgressAssignee(stored: Option<Id>, viewerId: Id): (a: Id)
    ensures Present(stored) ==> a == stored.value
    ensures !Present(stored) ==> a == viewerId
  {
    if Present(stored) then stored.value else viewerId
  }

  /** The guards of update_stage in source order, given the normalised current stage.
      On success the result is the assignee the request ends up with. */
  function StageUpdateDecision(current: string, target: Stage, viewer: Viewer, teamId: Id,
                               stored: Option<Id>, durationGiven: bool, members: Memberships)
    : (r: Result<Option<Id>>)
    ensures r == Err(InvalidTransition) <==> !TransitionPermitted(current, target)
    ensures r == Err(Forbidden) <==> TransitionPermitted(current, target) && !MayChangeStage(viewer, teamId, members)
    ensures r == Err(DurationRequired) <==>
      TransitionPermitted(current, target) && MayChangeStage(viewer, teamId, members) &&
      target == Repaired && !durationGiven
    ensures r == Err(AssigneeNotInTeam) <==>
      TransitionPermitted(current, target) && MayChangeStage(viewer, teamId, members) &&
      target == InProgress && !IsTeamMember(members, teamId, ProgressAssignee(stored, viewer.id))
    ensures r.Err? ==> r.failure in {InvalidTransition, Forbidden, DurationRequired, AssigneeNotInTeam}
    ensures r.Ok? && target == InProgress ==> r.value == Some(ProgressAssignee(stored, viewer.id))
    ensures r.Ok? && target != InProgress ==> r.value == stored
  {
    if !TransitionPermitted(current, target) then Err(InvalidTransition)
    else if viewer.role == Technician && !IsTeamMember(members, teamId, viewer.id) then Err(Forbidden)
    else if viewer.role == Requester then Err(Forbidden)
    else if target == Repaired && !durationGiven then Err(DurationRequired)
    else if target == InProgress then
      var assignee := ProgressAssignee(stored, viewer.id);
      if IsTeamMember(members, teamId, assignee) then Ok(Some(assignee)) else Err(AssigneeNotInTeam)
    else Ok(stored)
  }

  /** The transition check comes first: role "user" asking for a move the table does not
      allow gets 400, and only a permitted move gets its 403. */
  lemma RequesterRefused(current: string, target: Stage, viewer: Viewer, teamId: Id,
                         stored: Option<Id>, durationGiven: bool, members: Memberships)
    requires viewer.role == Requester
    ensures var r := StageUpdateDecision(current, target, viewer, teamId, stored, durationGiven, members);
      r == (if TransitionPermitted(current, target) then Err(Forbidden) else Err(InvalidTransition))
  {
  }

  /** A manager can always scrap a request, from any stage and without touching its assignee;
      new -> repaired is always refused. */
  lemma ScrapAlwaysAllowed(current: string, viewer: Viewer, teamId: Id, stored: Option<Id>,
                           durationGiven: bool, members: Memberships)
    requires viewer.role == Manager
    ensures StageUpdateDecision(current, Scrap, viewer, teamId, stored, durationGiven, members) == Ok(stored)
    ensures StageUpdateDecision("new", Repaired, viewer, teamId, stored, durationGiven, members) == Err(InvalidTransition)
  {
    TransitionRules(current, Scrap);
    TransitionRules("new", Repaired);
  }

  /** Repaired has no way out except scrap, for every caller. */
  lemma RepairedIsFinal(target: Stage, viewer: Viewer, teamId: Id, stored: Option<Id>,
                        durationGiven: bool, members: Memberships)
    requires target != Scrap
    ensures StageUpdateDecision("repaired", target, viewer, teamId, stored, durationGiven, members) == Err(InvalidTransition)
  {
    TransitionRules("repaired", target);
  }

  /** A request the move to in_progress accepts is assigned to a member of its team. */
  lemma ProgressAssigneeIsMember(current: string, viewer: Viewer, teamId: Id, stored: Option<Id>,
                                 durationGiven: bool, members: Memberships)
    requires StageUpdateDecision(current, InProgress, viewer, teamId, stored, durationGiven, members).Ok?
    ensures var r := StageUpdateDecision(current, InProgress, viewer, teamId, stored, durationGiven, members);
      r.value.Some? && IsTeamMember(members, teamId, r.value.value) && Present(r.value) == (Present(stored) || Truthy(viewer.id))
  {
  }

  /** equipment.status and unusable_reason after the request is scrapped. */
  function ScrapReason(requestId: Id): (reason: string)
    ensures StartsWith(reason, "Request ")
  {
    "Request " + IntToString(requestId) + " moved to scrap"
  }

  /** The reason names the request: distinct requests leave distinct reasons. */
  lemma ScrapReasonInjective(a: Id, b: Id)
    requires ScrapReason(a) == ScrapReason(b)
    ensures a == b
  {
    var sa, sb := IntToString(a), IntToString(b);
    var ra, rb := ScrapReason(a), ScrapReason(b);
    assert ra == "Request " + sa + " moved to scrap";
    assert rb == "Request " + sb + " moved to scrap";
    assert |sa| == |sb|;
    assert sa == ra[8..8 + |sa|];
    assert sb == rb[8..8 + |sb|];
    IntToStringInjective(a, b);
  }

  function Scrapped(e: Equipment, requestId: Id): (s: Equipment)
    ensures s == e.(status := s.status, unusableReason := s.unusableReason)
    ensures s.status == UnusableStatus && s.unusableReason == Some(ScrapReason(requestId))
  {
    e.(status := UnusableStatus, unusableReason := Some(ScrapReason(requestId)))
  }

  // ---------------------------------------------------------------------------
  // assign_request

  /** The guards of assign_request in source order. On success the result says whether
      the request advances from new to in_progress. */
  function AssignDecision(current: string, viewer: Viewer, teamId: Id, assignee: Id, members: Memberships)
    : (r: Result<bool>)
    ensures r == Err(Forbidden) <==>
      viewer.role == Requester || (viewer.role == Technician && !IsTeamMember(members, teamId, viewer.id))
    ensures r == Err(AssigneeNotInTeam) <==>
      r != Err(Forbidden) && !IsTeamMember(members, teamId, assignee)
    ensures r.Err? ==> r.failure in {Forbidden, AssigneeNotInTeam}
    ensures r.Ok? ==> IsTeamMember(members, teamId, assignee) && (r.value <==> current == "new")
  {
    if viewer.role == Requester then Err(Forbidden)
    else if viewer.role == Technician && !IsTeamMember(members, teamId, viewer.id) then Err(Forbidden)
    else if !IsTeamMember(members, teamId, assignee) then Err(AssigneeNotInTeam)
    else Ok(current == "new")
  }

  /** Assigning never refuses a manager for its role, and a technician may assign within
      their own team exactly like a manager. */
  lemma AssignRoles(current: string, viewer: Viewer, teamId: Id, assignee: Id, members: Memberships)
    ensures viewer.role == Manager ==> AssignDecision(current, viewer, teamId, assignee, members) != Err(Forbidden)
    ensures viewer.role == Technician && IsTeamMember(members, teamId, viewer.id) ==>
      AssignDecision(current, viewer, teamId, assignee, members) ==
      AssignDecision(current, Viewer(viewer.id, Manager), teamId, assignee, members)
  {
  }

  // ---------------------------------------------------------------------------
  // create_request

  /** The default technician, when set (non-zero) and a member of the equipment's team. */
  function AutoAssignee(e: Equipment, members: Memberships): (a: Option<Id>)
    ensures a.Some? <==> Truthy(e.defaultTechnicianId) && IsTeamMember(members, e.maintenanceTeamId, e.defaultTechnicianId)
    ensures a.Some? ==> a.value == e.defaultTechnicianId
  {
    if Truthy(e.defaultTechnicianId) && IsTeamMember(members, e.maintenanceTeamId, e.defaultTechnicianId)
    then Some(e.defaultTechnicianId) else None
  }

  /** A request create_request assigns is assigned to a member of the team it is filed with. */
  lemma AutoAssigneeInTeam(e: Equipment, members: Memberships)
    ensures AutoAssignee(e, members).Some? ==> IsTeamMember(members, e.maintenanceTeamId, AutoAssignee(e, members).value)
    ensures !Truthy(e.defaultTechnicianId) ==> AutoAssignee(e, members) == None
  {
  }
}
