/** The endpoints of backend/app/api/routes/teams.py: listing teams with their members,
    creating a team, and adding or removing one (team, user) membership pair. */
module TeamRoutes {
  import opened Outcomes
  import opened Records
  import opened Database

  /** TeamOut, with members as user ids (the joined full names are left out). */
  datatype TeamView = TeamView(id: Id, name: string, members: seq<Id>)

  /** The users the membership query of one team yields: its pairs whose user row joins. */
  function TeamMembers(members: Memberships, users: map<Id, AppUser>, teamId: Id): set<Id> {
    set p | p in members && p.0 == teamId && p.1 in users :: p.1
  }

  /** xs lists the elements of s, each exactly once. */
  predicate ListsExactly(xs: seq<Id>, s: set<Id>) {
    && (forall i :: 0 <= i < |xs| ==> xs[i] in s)
    && (forall x :: x in s ==> x in xs)
    && (forall i, j :: 0 <= i < j < |xs| ==> xs[i] != xs[j])
  }

  /** The member query of list_teams, in an unspecified order. */
  method MembersOf(members: Memberships, users: map<Id, AppUser>, teamId: Id) returns (ids: seq<Id>)
    ensures ListsExactly(ids, TeamMembers(members, users, teamId))
  {
    ids := [];
    var rest := members;
    while rest != {}
      invariant rest <= members
      invariant forall i :: 0 <= i < |ids| ==> (teamId, ids[i]) in members && (teamId, ids[i]) !in rest && ids[i] in users
      invariant forall u :: (teamId, u) in members && (teamId, u) !in rest && u in users ==> u in ids
      invariant forall i, j :: 0 <= i < j < |ids| ==> ids[i] != ids[j]
      decreases |rest|
    {
      var p := Pick(rest);
      if p.0 == teamId && p.1 in users {
        ids := ids + [p.1];
      }
      rest := rest - {p};
    }
    forall x | x in TeamMembers(members, users, teamId) ensures x in ids {
      var p :| p in members && p.0 == teamId && p.1 in users && p.1 == x;
      assert (teamId, x) == p;
    }
  }

  /** Every team once, each with exactly its members. */
  method ListTeams(db: Db) returns (out: seq<TeamView>, ids: seq<Id>)
    ensures |out| == |ids|
    ensures forall i :: 0 <= i < |ids| ==>
      && ids[i] in db.teams
      && out[i].id == ids[i] && out[i].name == db.teams[ids[i]]
      && ListsExactly(out[i].members, TeamMembers(db.members, db.users, ids[i]))
    ensures forall i, j :: 0 <= i < j < |ids| ==> ids[i] != ids[j]
    ensures forall k :: k in db.teams ==> k in ids
  {
    out, ids := [], [];
    var rest := db.teams.Keys;
    while rest != {}
      invariant rest <= db.teams.Keys
      invariant |out| == |ids|
      invariant forall i :: 0 <= i < |ids| ==>
        && ids[i] in db.teams && ids[i] !in rest
        && out[i].id == ids[i] && out[i].name == db.teams[ids[i]]
        && ListsExactly(out[i].members, TeamMembers(db.members, db.users, ids[i]))
      invariant forall i, j :: 0 <= i < j < |ids| ==> ids[i] != ids[j]
      invariant forall k :: k in db.teams && k !in rest ==> k in ids
      decreases |rest|
    {
      var t := Pick(rest);
      var ms := MembersOf(db.members, db.users, t);
      out, ids := out + [TeamView(t, db.teams[t], ms)], ids + [t];
      rest := rest - {t};
    }
  }

  /** Adding a pair gives its team exactly that one more member (when the user exists)
      and leaves every other team's members alone; removing takes exactly that one away. */
  lemma MembershipChanges(members: Memberships, users: map<Id, AppUser>, teamId: Id, userId: Id, other: Id)
    requires other != teamId
    ensures userId in users ==> TeamMembers(members + {(teamId, userId)}, users, teamId) == TeamMembers(members, users, teamId) + {userId}
    ensures TeamMembers(members - {(teamId, userId)}, users, teamId) == TeamMembers(members, users, teamId) - {userId}
    ensures TeamMembers(members + {(teamId, userId)}, users, other) == TeamMembers(members, users, other)
    ensures TeamMembers(members - {(teamId, userId)}, users, other) == TeamMembers(members, users, other)
  {
    var added, removed := members + {(teamId, userId)}, members - {(teamId, userId)};
    if userId in users {
      forall u | u in TeamMembers(members, users, teamId) + {userId} ensures u in TeamMembers(added, users, teamId) {
        assert (teamId, u) in added;
      }
    }
    forall u | u in TeamMembers(members, users, teamId) - {userId} ensures u in TeamMembers(removed, users, teamId) {
      assert (teamId, u) in removed;
    }
    forall u | u in TeamMembers(members, users, other) ensures u in TeamMembers(added, users, other) && u in TeamMembers(removed, users, other) {
      assert (other, u) in added && (other, u) in removed;
    }
  }

  // ---------------------------------------------------------------------------
  // Writes; each is refused with 403 unless the caller is a manager

  /** A new team with no members, unless a team of that name exists (400). */
  method CreateTeam(db: Db, viewer: Viewer, name: string) returns (r: Result<TeamView>)
    requires db.Valid()
    modifies db
    ensures db.Valid()
    ensures db.users == old(db.users) && db.departments == old(db.departments) && db.categories == old(db.categories)
    ensures db.members == old(db.members) && db.equipment == old(db.equipment)
    ensures db.requests == old(db.requests) && db.stages == old(db.stages)
    ensures viewer.role != Manager ==> r == Err(Forbidden)
    ensures viewer.role == Manager && (exists t :: t in old(db.teams) && old(db.teams)[t] == name) ==> r == Err(TeamExists)
    ensures r.Err? ==> db.teams == old(db.teams) && db.nextId == old(db.nextId)
    ensures r.Ok? ==>
      && r.value.id !in old(db.teams)
      && db.teams == old(db.teams)[r.value.id := name]
      && r.value == TeamView(r.value.id, name, [])
      && TeamMembers(db.members, db.users, r.value.id) == {}
    ensures viewer.role == Manager && (forall t :: t in old(db.teams) ==> old(db.teams)[t] != name) ==> r.Ok?
  {
    if viewer.role != Manager {
      return Err(Forbidden);
    }
    if exists t :: t in db.teams && db.teams[t] == name {
      return Err(TeamExists);
    }
    var id := db.InsertNamed(Teams, name);
    NoMembersYet(db.members, db.users, id, old(db.teams));
    r := Ok(TeamView(id, name, []));
  }

  lemma NoMembersYet(members: Memberships, users: map<Id, AppUser>, id: Id, before: map<Id, string>)
    requires MembersResolve(members, before, users)
    requires id !in before
    ensures TeamMembers(members, users, id) == {}
  {
    forall p | p in members ensures p.0 != id {
    }
  }

  /** Adds the pair when the team exists (404 otherwise); an existing pair is left as it is,
      and a user that does not exist fails the foreign key on commit. */
  method AddMember(db: Db, viewer: Viewer, teamId: Id, userId: Id) returns (r: Outcome)
    requires db.Valid()
    modifies db
    ensures db.Valid()
    ensures db.users == old(db.users) && db.departments == old(db.departments) && db.categories == old(db.categories)
    ensures db.teams == old(db.teams) && db.equipment == old(db.equipment)
    ensures db.requests == old(db.requests) && db.stages == old(db.stages) && db.nextId == old(db.nextId)
    ensures r == (if viewer.role != Manager then Refused(Forbidden)
                  else if teamId !in old(db.teams) then Refused(NotFound)
                  else if (teamId, userId) in old(db.members) then Done
                  else if userId !in old(db.users) then Refused(IntegrityError)
                  else Done)
    ensures db.members == (if r == Done then old(db.members) + {(teamId, userId)} else old(db.members))
  {
    if viewer.role != Manager {
      return Refused(Forbidden);
    }
    if teamId !in db.teams {
      return Refused(NotFound);
    }
    if (teamId, userId) in db.members {
      return Done;
    }
    if userId !in db.users {
      return Refused(IntegrityError);
    }
    db.InsertMember(teamId, userId);
    r := Done;
  }

  /** Deletes the pair if it is there; an absent pair, or an unknown team, is a silent no-op. */
  method RemoveMember(db: Db, viewer: Viewer, teamId: Id, userId: Id) returns (r: Outcome)
    requires db.Valid()
    modifies db
    ensures db.Valid()
    ensures db.users == old(db.users) && db.departments == old(db.departments) && db.categories == old(db.categories)
    ensures db.teams == old(db.teams) && db.equipment == old(db.equipment)
    ensures db.requests == old(db.requests) && db.stages == old(db.stages) && db.nextId == old(db.nextId)
    ensures r == (if viewer.role != Manager then Refused(Forbidden) else Done)
    ensures db.members == (if r == Done then old(db.members) - {(teamId, userId)} else old(db.members))
  {
    if viewer.role != Manager {
      return Refused(Forbidden);
    }
    if (teamId, userId) in db.members {
      db.DeleteMember(teamId, userId);
    }
    r := Done;
  }
}
