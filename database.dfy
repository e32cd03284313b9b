/** The relational store every route works against: one map per table, the set of
    team-membership pairs, and the sequence that hands out primary keys. Its
    invariant is the set of constraints declared in backend/app/db/models.py. */
module Database {
  import opened Outcomes
  import opened Records

  /** All declared constraints, over the table values. */
  ghost predicate Consistent(
    users: map<Id, AppUser>, departments: map<Id, string>, categories: map<Id, string>,
    teams: map<Id, string>, members: Memberships, equipment: map<Id, Equipment>,
    stages: map<Id, StageRow>, requests: map<Id, MaintenanceRequest>, nextId: Id)
  {
    // primary keys
    && 1 <= nextId
    && KeysBelow(users, nextId) && KeysBelow(departments, nextId) && KeysBelow(categories, nextId)
    && KeysBelow(teams, nextId) && KeysBelow(equipment, nextId) && KeysBelow(stages, nextId)
    && KeysBelow(requests, nextId)
    // unique columns
    && UniqueEmails(users) && UniqueNames(departments) && UniqueNames(categories)
    && UniqueNames(teams) && UniqueSerials(equipment) && UniqueStageNames(stages)
    // foreign keys and check constraints
    && MembersResolve(members, teams, users)
    && EquipmentResolves(equipment, categories, departments, users, teams)
    && RequestsResolve(requests, equipment, categories, teams, users, stages)
  }

  /** Some element of a non-empty set: the order in which a query yields rows is not
      specified, so iteration over a table takes its keys in any order. */
  method Pick<K>(s: set<K>) returns (k: K)
    requires s != {}
    ensures k in s
  {
    k :| k in s;
  }

  /** A query over one table: the rows it selects, each exactly once, in some order.
      ids says which row each result came from. */
  method Collect<V, W>(rows: map<Id, V>, keep: (Id, V) -> bool, view: (Id, V) -> W)
    returns (out: seq<W>, ids: seq<Id>)
    ensures |out| == |ids|
    ensures forall i :: 0 <= i < |ids| ==>
      ids[i] in rows && keep(ids[i], rows[ids[i]]) && out[i] == view(ids[i], rows[ids[i]])
    ensures forall i, j :: 0 <= i < j < |ids| ==> ids[i] != ids[j]
    ensures forall k :: k in rows && keep(k, rows[k]) ==> k in ids
  {
    out, ids := [], [];
    var rest := rows.Keys;
    while rest != {}
      invariant rest <= rows.Keys
      invariant |out| == |ids|
      invariant forall i :: 0 <= i < |ids| ==>
        ids[i] in rows && ids[i] !in rest && keep(ids[i], rows[ids[i]]) && out[i] == view(ids[i], rows[ids[i]])
      invariant forall i, j :: 0 <= i < j < |ids| ==> ids[i] != ids[j]
      invariant forall k :: k in rows && k !in rest && keep(k, rows[k]) ==> k in ids
      decreases |rest|
    {
      var k := Pick(rest);
      if keep(k, rows[k]) {
        out, ids := out + [view(k, rows[k])], ids + [k];
      }
      rest := rest - {k};
    }
  }

  /** A fresh key with a name nobody holds keeps a name column unique. */
  lemma FreshNameUnique(m: map<Id, string>, id: Id, name: string)
    requires UniqueNames(m)
    requires id !in m
    requires forall k :: k in m ==> m[k] != name
    ensures UniqueNames(m[id := name])
  {
  }

  /** department, equipment_category and maintenance_team. */
  datatype NamedTable = Departments | Categories | Teams

  class Db {
    var users: map<Id, AppUser>
    var departments: map<Id, string>
    var categories: map<Id, string>
    var teams: map<Id, string>
    var members: Memberships
    var equipment: map<Id, Equipment>
    var stages: map<Id, StageRow>
    var requests: map<Id, MaintenanceRequest>
    /** The next primary key to hand out (one sequence serves every table). */
    var nextId: Id

    ghost predicate Valid()
      reads this
    {
      Consistent(users, departments, categories, teams, members, equipment, stages, requests, nextId)
    }

    /** An empty database. */
    constructor ()
      ensures Valid()
      ensures users == map[] && departments == map[] && categories == map[] && teams == map[]
      ensures members == {} && equipment == map[] && stages == map[] && requests == map[]
      ensures nextId == 1
    {
      users, departments, categories, teams := map[], map[], map[], map[];
      members, equipment, stages, requests := {}, map[], map[], map[];
      nextId := 1;
    }
  
    // -------------------------------------------------------------------------
    // Row writes a route performs before db.commit(); each keeps the constraints.

    /** db.add of a request: it takes the next key. */
    method InsertRequest(req: MaintenanceRequest) returns (id: Id)
      requires Valid()
      requires RequestResolves(req, equipment, categories, teams, users, stages)
      modifies this
      ensures Valid()
      ensures id == old(nextId) && id !in old(requests) && nextId == old(nextId) + 1
      ensures requests == old(requests)[id := req]
      ensures users == old(users) && departments == old(departments) && categories == old(categories)
      ensures teams == old(teams) && members == old(members) && equipment == old(equipment) && stages == old(stages)
    {
      id := nextId;
      requests := requests[id := req];
      nextId := nextId + 1;
    }

    /** Field assignments on a loaded request. */
    method ReplaceRequest(id: Id, req: MaintenanceRequest)
      requires Valid()
      requires id in requests
      requires RequestResolves(req, equipment, categories, teams, users, stages)
      modifies this
      ensures Valid()
      ensures requests == old(requests)[id := req]
      ensures users == old(users) && departments == old(departments) && categories == old(categories)
      ensures teams == old(teams) && members == old(members) && equipment == old(equipment) && stages == old(stages)
      ensures nextId == old(nextId)
    {
      requests := requests[id := req];
    }

    /** Field assignments on a loaded equipment row that leave its references and serial alone. */
    method ReplaceEquipment(id: Id, e: Equipment)
      requires Valid()
      requires id in equipment
      requires e == equipment[id].(status := e.status, unusableReason := e.unusableReason)
      modifies this
      ensures Valid()
      ensures equipment == old(equipment)[id := e]
      ensures users == old(users) && departments == old(departments) && categories == old(categories)
      ensures teams == old(teams) && members == old(members) && requests == old(requests) && stages == old(stages)
      ensures nextId == old(nextId)
    {
      equipment := equipment[id := e];
    }

    /** The three tables that hold nothing but a unique name. */
    function Named(t: NamedTable): map<Id, string>
      reads this
    {
      match t
      case Departments => departments
      case Categories => categories
      case Teams => teams
    }

    /** db.add of a row with a name its table does not hold yet. */
    method InsertNamed(t: NamedTable, name: string) returns (id: Id)
      requires Valid()
      requires forall k :: k in Named(t) ==> Named(t)[k] != name
      modifies this
      ensures Valid()
      ensures id == old(nextId) && id !in old(Named(t)) && nextId == old(nextId) + 1
      ensures Named(t) == old(Named(t))[id := name]
      ensures departments == (if t == Departments then old(departments)[id := name] else old(departments))
      ensures categories == (if t == Categories then old(categories)[id := name] else old(categories))
      ensures teams == (if t == Teams then old(teams)[id := name] else old(teams))
      ensures users == old(users) && members == old(members) && equipment == old(equipment)
      ensures requests == old(requests) && stages == old(stages)
    {
      id := nextId;
      FreshNameUnique(Named(t), id, name);
      match t {
        case Departments => departments := departments[id := name];
        case Categories => categories := categories[id := name];
        case Teams => teams := teams[id := name];
      }
      nextId := nextId + 1;
    }

    /** db.add of a user whose e-mail address no user has. */
    method InsertUser(u: AppUser) returns (id: Id)
      requires Valid()
      requires u.email.Some? ==> forall k :: k in users ==> users[k].email != u.email
      modifies this
      ensures Valid()
      ensures id == old(nextId) && id !in old(users) && nextId == old(nextId) + 1
      ensures users == old(users)[id := u]
      ensures departments == old(departments) && categories == old(categories) && teams == old(teams)
      ensures members == old(members) && equipment == old(equipment) && requests == old(requests) && stages == old(stages)
    {
      id := nextId;
      users := users[id := u];
      nextId := nextId + 1;
    }

    /** db.add of a membership row whose team and user exist. */
    method InsertMember(teamId: Id, userId: Id)
      requires Valid()
      requires teamId in teams && userId in users
      modifies this
      ensures Valid()
      ensures members == old(members) + {(teamId, userId)}
      ensures users == old(users) && departments == old(departments) && categories == old(categories)
      ensures teams == old(teams) && equipment == old(equipment) && requests == old(requests) && stages == old(stages)
      ensures nextId == old(nextId)
    {
      members := members + {(teamId, userId)};
    }

    /** db.delete of a membership row. */
    method DeleteMember(teamId: Id, userId: Id)
      requires Valid()
      modifies this
      ensures Valid()
      ensures members == old(members) - {(teamId, userId)}
      ensures users == old(users) && departments == old(departments) && categories == old(categories)
      ensures teams == old(teams) && equipment == old(equipment) && requests == old(requests) && stages == old(stages)
      ensures nextId == old(nextId)
    {
      members := members - {(teamId, userId)};
    }
  }
}
