/** The writer and the aggregator over mutable tables. */
module RolesStore {
  import opened Wrappers
  import opened RoleTables
  import Spec = RolesWriter
  import Codec = RoleIdCodec

  class RoleDatabase {
    const world: World
    var users: map<int, User>
    var processRoles: set<Row>
    var assemblyRoles: set<Row>
    var conferenceRoles: set<Row>
    var members: set<Member>

    ghost function Snapshot(): Tables
      reads this
    {
      Tables(users, processRoles, assemblyRoles, conferenceRoles, members)
    }

    constructor (world: World, users: map<int, User>)
      ensures this.world == world
      ensures Snapshot() == Tables(users, {}, {}, {}, {})
    {
      this.world := world;
      this.users := users;
      processRoles, assemblyRoles, conferenceRoles, members := {}, {}, {}, {};
    }

    predicate OwnUser(id: int)
      reads this
    {
      id in users && users[id].organization == world.organization
    }

    function UserInvitation(id: int): Option<string>
      reads this
    {
      if id in users then users[id].invitation else None
    }

    method CreateGeneralAdmin(a: Spec.Attributes, accepted: bool) returns (r: Result<RoleView, Spec.Error>)
      modifies `users
      ensures var o := Spec.CreateGeneralAdmin(world, old(Snapshot()), a, accepted);
              Snapshot() == o.tables && r == o.result
    {
      if ResourceOf(a.resourceType) != Some(Organization) || a.resourceId != world.organization {
        return Failure(Spec.ArgumentError);
      }
      if !OwnUser(a.userId) {
        return Failure(Spec.RecordNotFound);
      }
      if !accepted {
        return Failure(Spec.RecordInvalid);
      }
      users := users[a.userId := users[a.userId].(admin := true)];
      r := Success(AdminView(world, a.userId));
    }

    method CreateProcessRole(a: Spec.Attributes, kind: Kind, accepted: bool) returns (r: Result<RoleView, Spec.Error>)
      modifies `processRoles
      ensures var o := Spec.CreateProcessRole(world, old(Snapshot()), a, kind, accepted);
              Snapshot() == o.tables && r == o.result
    {
      if !world.Owns(world.processes, a.resourceId) {
        return Failure(Spec.RecordNotFound);
      }
      var row := Row(a.resourceId, a.userId, world.DecidimRole(kind).GetOr(Collaborator));
      if !accepted || row in processRoles {
        return Failure(Spec.RecordInvalid);
      }
      processRoles := processRoles + {row};
      r := Success(RoleView(RoleKind(row.role), Process, row.space, row.user, UserInvitation(row.user)));
    }

    method CreateAssemblyRole(a: Spec.Attributes, kind: Kind, accepted: bool) returns (r: Result<RoleView, Spec.Error>)
      modifies `assemblyRoles, `members
      ensures var o := Spec.CreateAssemblyRole(world, old(Snapshot()), a, kind, accepted);
              Snapshot() == o.tables && r == o.result
    {
      if !world.Owns(world.assemblies, a.resourceId) {
        return Failure(Spec.RecordNotFound);
      }
      if kind == SpacePrivateMember && world.hasMembers {
        var member := Member(a.resourceId, a.userId);
        if !OwnUser(a.userId) {
          return Failure(Spec.RecordNotFound);
        }
        if !accepted || member in members {
          return Failure(Spec.RecordInvalid);
        }
        members := members + {member};
        return Success(MemberView(member));
      }
      var row := Row(a.resourceId, a.userId, world.DecidimRole(kind).GetOr(Collaborator));
      if !accepted || row in assemblyRoles {
        return Failure(Spec.RecordInvalid);
      }
      assemblyRoles := assemblyRoles + {row};
      r := Success(RoleView(RoleKind(row.role), Assembly, row.space, row.user, UserInvitation(row.user)));
    }

    method CreateConferenceRole(
      a: Spec.Attributes, kind: Kind, accepted: bool
    ) returns (r: Result<RoleView, Spec.Error>)
      modifies `conferenceRoles
      ensures var o := Spec.CreateConferenceRole(world, old(Snapshot()), a, kind, accepted);
              Snapshot() == o.tables && r == o.result
    {
      if !world.hasConferences {
        return Failure(Spec.ArgumentError);
      }
      if !world.Owns(world.conferences, a.resourceId) {
        return Failure(Spec.RecordNotFound);
      }
      var row := Row(a.resourceId, a.userId, world.DecidimRole(kind).GetOr(Collaborator));
      if !accepted || row in conferenceRoles {
        return Failure(Spec.RecordInvalid);
      }
      conferenceRoles := conferenceRoles + {row};
      r := Success(RoleView(RoleKind(row.role), Conference, row.space, row.user, UserInvitation(row.user)));
    }

    method Create(a: Spec.Attributes, accepted: bool) returns (r: Result<RoleView, Spec.Error>)
      modifies this
      ensures var o := Spec.Create(world, old(Snapshot()), a, accepted);
              Snapshot() == o.tables && r == o.result
    {
      if ResourceOf(a.resourceType) == Some(Organization) && a.resourceId != world.organization {
        return Failure(Spec.ArgumentError);
      }
      var kind := KindOf(a.kind);
      if kind.None? {
        return Failure(Spec.ArgumentError);
      }
      if kind.value == GeneralAdmin {
        r := CreateGeneralAdmin(a, accepted);
        return;
      }
      match ResourceOf(a.resourceType) {
        case Some(Process) => r := CreateProcessRole(a, kind.value, accepted);
        case Some(Assembly) => r := CreateAssemblyRole(a, kind.value, accepted);
        case Some(Conference) => r := CreateConferenceRole(a, kind.value, accepted);
        case _ => r := Failure(Spec.ArgumentError);
      }
    }

    /** Takes whichever matching row the database returns. */
    method Destroy(id: string) returns (r: Result<(), Spec.Error>)
      modifies this
      ensures var found := Spec.FindRecord(world, old(Snapshot()), Codec.Decode(id));
              if Codec.Decode(id).Unconvertible? then r == Failure(Spec.NoMethodError) && Snapshot() == old(Snapshot())
              else if found == {} then r == Failure(Spec.RoleNotFound) && Snapshot() == old(Snapshot())
              else r.Success? && exists record :: record in found && Snapshot() == Spec.Remove(old(Snapshot()), record)
    {
      hide Codec.Decode;
      var decoded := Codec.Decode(id);
      if decoded.Unconvertible? {
        return Failure(Spec.NoMethodError);
      }
      var found := Spec.FindRecord(world, Tables(users, processRoles, assemblyRoles, conferenceRoles, members),
          decoded);
      if found == {} {
        return Failure(Spec.RoleNotFound);
      }
      var record :| record in found;
      match record {
        case UserRecord(u) =>
          if u in users {
            users := users[u := users[u].(admin := false)];
          }
        case ProcessRow(row) => processRoles := processRoles - {row};
        case AssemblyRow(row) => assemblyRoles := assemblyRoles - {row};
        case ConferenceRow(row) => conferenceRoles := conferenceRoles - {row};
        case MemberRecord(m) => members := members - {m};
      }
      r := Success(());
    }

    /** roles.concat(...): appends the views of one table, in whatever order the rows come. */
    method Concat(roles: seq<RoleView>, more: set<RoleView>) returns (r: seq<RoleView>)
      ensures multiset(r) == multiset(roles) + multiset(more)
    {
      r := roles;
      var left := more;
      while left != {}
        invariant left <= more
        invariant multiset(r) == multiset(roles) + multiset(more - left)
        decreases left
      {
        var v :| v in left;
        r := r + [v];
        left := left - {v};
        assert more - left == (more - (left + {v})) + {v};
      }
      assert more - {} == more;
    }

    /** RolesAggregator#call: every role of the plain set is listed exactly once. */
    method Call() returns (roles: seq<RoleView>)
      requires ValidTables(world, Snapshot())
      ensures multiset(roles) == multiset(Views(world, Snapshot()))
    {
      hide AdminViews, RowViews, MemberViews;
      var t := Tables(users, processRoles, assemblyRoles, conferenceRoles, members);
      TablesShareNoView(world, t);
      var admins, processes := AdminViews(world, t), RowViews(world, t, Process, world.processes, processRoles);
      var assemblies := RowViews(world, t, Assembly, world.assemblies, assemblyRoles);
      var memberViews := if world.hasMembers then MemberViews(world, t) else {};
      var conferences := if world.hasConferences
          then RowViews(world, t, Conference, world.conferences, conferenceRoles) else {};
      roles := Concat([], admins);
      roles := Concat(roles, processes);
      roles := Concat(roles, assemblies);
      roles := Concat(roles, memberViews);
      roles := Concat(roles, conferences);
      assert Views(world, t) == admins + processes + assemblies + memberViews + conferences;
      DisjointUnion(admins, processes);
      DisjointUnion(admins + processes, assemblies);
      DisjointUnion(admins + processes + assemblies, memberViews);
      DisjointUnion(admins + processes + assemblies + memberViews, conferences);
    }
  }

  lemma DisjointUnion<T>(a: set<T>, b: set<T>)
    requires a !! b
    ensures multiset(a + b) == multiset(a) + multiset(b)
  {
  }

  /** No view comes from two tables. */
  lemma TablesShareNoView(w: World, t: Tables)
    requires ValidTables(w, t)
    ensures var admins, processes := AdminViews(w, t), RowViews(w, t, Process, w.processes, t.processRoles);
            var assemblies, conferences := RowViews(w, t, Assembly, w.assemblies, t.assemblyRoles),
                RowViews(w, t, Conference, w.conferences, t.conferenceRoles);
            && admins !! processes && (admins + processes) !! assemblies
            && (w.hasMembers ==> (admins + processes + assemblies) !! MemberViews(w, t))
            && (admins + processes + assemblies + (if w.hasMembers then MemberViews(w, t) else {})) !! conferences
  {
  }
}
