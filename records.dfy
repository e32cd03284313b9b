/** The record shapes of backend/app/db/models.py and the table constraints declared
    on them, stated as predicates over table values. */
module Records {
  import opened Outcomes

  /** Primary keys (SERIAL columns, so stored keys start at 1; ids supplied by a
      caller may be any integer). */
  type Id = int

  /** A timezone-aware timestamp, only ever compared. */
  type Instant = int

  /** Numeric(10, 2) hours, only ever stored and returned. */
  type Hours = real

  /** The role string the authorisation checks compare against: "manager",
      "technician", "user", or any other value. */
  datatype Role = Manager | Technician | Requester | OtherRole

  /** The authenticated caller, as the authentication layer supplies it. */
  datatype Viewer = Viewer(id: Id, role: Role)

  datatype AppUser = AppUser(fullName: string, email: Option<string>, role: Role, isActive: bool)

  datatype Equipment = Equipment(
    name: string,
    serialNumber: string,
    categoryId: Id,
    departmentId: Option<Id>,
    ownerUserId: Option<Id>,
    maintenanceTeamId: Id,
    defaultTechnicianId: Id,
    status: string,
    unusableReason: Option<string>)

  /** The status column's default. */
  const ActiveStatus: string := "active"
  const UnusableStatus: string := "unusable"

  datatype StageRow = StageRow(name: string, sequence: int, isClosed: bool, isScrap: bool)

  /** The request_type_check constraint admits exactly these two values. */
  datatype RequestType = Corrective | Preventive

  datatype MaintenanceRequest = MaintenanceRequest(
    requestType: RequestType,
    subject: string,
    description: Option<string>,
    equipmentId: Id,
    categoryId: Id,
    teamId: Id,
    requesterId: Id,
    assignedToId: Option<Id>,
    stageId: Id,
    scheduledStart: Option<Instant>,
    actualDurationHours: Option<Hours>)

  /** Team membership rows, keyed by the composite primary key (team_id, user_id): a
      set holds each pair at most once. */
  type Memberships = set<(Id, Id)>

  /** _is_team_member. */
  predicate IsTeamMember(members: Memberships, teamId: Id, userId: Id) {
    (teamId, userId) in members
  }

  /** Python truthiness of an integer id: 0 is false. */
  predicate Truthy(id: Id) {
    id != 0
  }

  /** Truthiness of an optional id: None and 0 are false. */
  predicate Present(id: Option<Id>) {
    id.Some? && Truthy(id.value)
  }

  // ---------------------------------------------------------------------------
  // Table constraints

  /** Stored keys are positive and below the next key the sequence hands out. */
  ghost predicate KeysBelow<V>(m: map<Id, V>, next: Id) {
    forall k :: k in m ==> 1 <= k < next
  }

  /** A unique name column (department, equipment_category, maintenance_team). */
  ghost predicate UniqueNames(m: map<Id, string>) {
    forall a, b :: a in m && b in m && m[a] == m[b] ==> a == b
  }

  ghost predicate UniqueStageNames(stages: map<Id, StageRow>) {
    forall a, b :: a in stages && b in stages && stages[a].name == stages[b].name ==> a == b
  }

  ghost predicate UniqueSerials(equipment: map<Id, Equipment>) {
    forall a, b ::
      a in equipment && b in equipment && equipment[a].serialNumber == equipment[b].serialNumber ==> a == b
  }

  ghost predicate UniqueEmails(users: map<Id, AppUser>) {
    forall a, b ::
      a in users && b in users && users[a].email.Some? && users[a].email == users[b].email ==> a == b
  }

  /** equipment_owner_check: a department or an owner is set. */
  predicate OwnerCheck(e: Equipment) {
    e.departmentId.Some? || e.ownerUserId.Some?
  }

  /** Foreign keys of team membership rows. */
  ghost predicate MembersResolve(members: Memberships, teams: map<Id, string>, users: map<Id, AppUser>) {
    forall p :: p in members ==> p.0 in teams && p.1 in users
  }

  /** Foreign keys and the owner check of equipment rows. */
  ghost predicate EquipmentResolves(
    equipment: map<Id, Equipment>, categories: map<Id, string>, departments: map<Id, string>,
    users: map<Id, AppUser>, teams: map<Id, string>)
  {
    forall k :: k in equipment ==>
      var e := equipment[k];
      && e.categoryId in categories
      && (e.departmentId.Some? ==> e.departmentId.value in departments)
      && (e.ownerUserId.Some? ==> e.ownerUserId.value in users)
      && e.maintenanceTeamId in teams
      && e.defaultTechnicianId in users
      && OwnerCheck(e)
  }

  /** Foreign keys of maintenance requests; only the assignee may be null. */
  ghost predicate RequestResolves(
    r: MaintenanceRequest, equipment: map<Id, Equipment>, categories: map<Id, string>,
    teams: map<Id, string>, users: map<Id, AppUser>, stages: map<Id, StageRow>)
  {
    && r.equipmentId in equipment
    && r.categoryId in categories
    && r.teamId in teams
    && r.requesterId in users
    && (r.assignedToId.Some? ==> r.assignedToId.value in users)
    && r.stageId in stages
  }

  ghost predicate RequestsResolve(
    requests: map<Id, MaintenanceRequest>, equipment: map<Id, Equipment>, categories: map<Id, string>,
    teams: map<Id, string>, users: map<Id, AppUser>, stages: map<Id, StageRow>)
  {
    forall k :: k in requests ==> RequestResolves(requests[k], equipment, categories, teams, users, stages)
  }
}
