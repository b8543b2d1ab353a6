/** Creating, finding and destroying roles across the tables. */
module RolesWriter {
  import opened Wrappers
  import opened Json
  import opened Presence
  import opened RoleTables
  import Codec = RoleIdCodec

  datatype Error = ArgumentError | RecordNotFound | RecordInvalid | RoleNotFound | NoMethodError

  datatype Attributes = Attributes(resourceType: string, resourceId: int, userId: int, kind: string)

  datatype Outcome = Outcome(tables: Tables, result: Result<RoleView, Error>)

  // Creating

  function Rejected(t: Tables, e: Error): Outcome {
    Outcome(t, Failure(e))
  }

  function CreateGeneralAdmin(w: World, t: Tables, a: Attributes, accepted: bool): Outcome {
    if ResourceOf(a.resourceType) != Some(Organization) || a.resourceId != w.organization
        then Rejected(t, ArgumentError)
    else if !(a.userId in t.users && t.users[a.userId].organization == w.organization) then Rejected(t, RecordNotFound)
    else if !accepted then Rejected(t, RecordInvalid)
    else
      var user := t.users[a.userId].(admin := true);
      Outcome(t.(users := t.users[a.userId := user]), Success(AdminView(w, a.userId)))
  }

  function CreateProcessRole(w: World, t: Tables, a: Attributes, kind: Kind, accepted: bool): Outcome {
    var row := Row(a.resourceId, a.userId, w.DecidimRole(kind).GetOr(Collaborator));
    if !w.Owns(w.processes, a.resourceId) then Rejected(t, RecordNotFound)
    else if !accepted || row in t.processRoles then Rejected(t, RecordInvalid)
    else Outcome(t.(processRoles := t.processRoles + {row}), Success(RowView(t, Process, row)))
  }

  function CreateAssemblyRole(w: World, t: Tables, a: Attributes, kind: Kind, accepted: bool): Outcome {
    if !w.Owns(w.assemblies, a.resourceId) then Rejected(t, RecordNotFound)
    else if kind == SpacePrivateMember && w.hasMembers then
      var member := Member(a.resourceId, a.userId);
      if !(a.userId in t.users && t.users[a.userId].organization == w.organization) then Rejected(t, RecordNotFound)
      else if !accepted || member in t.members then Rejected(t, RecordInvalid)
      else Outcome(t.(members := t.members + {member}), Success(MemberView(member)))
    else
      var row := Row(a.resourceId, a.userId, w.DecidimRole(kind).GetOr(Collaborator));
      if !accepted || row in t.assemblyRoles then Rejected(t, RecordInvalid)
      else Outcome(t.(assemblyRoles := t.assemblyRoles + {row}), Success(RowView(t, Assembly, row)))
  }

  function CreateConferenceRole(w: World, t: Tables, a: Attributes, kind: Kind, accepted: bool): Outcome {
    var row := Row(a.resourceId, a.userId, w.DecidimRole(kind).GetOr(Collaborator));
    if !w.hasConferences then Rejected(t, ArgumentError)
    else if !w.Owns(w.conferences, a.resourceId) then Rejected(t, RecordNotFound)
    else if !accepted || row in t.conferenceRoles then Rejected(t, RecordInvalid)
    else Outcome(t.(conferenceRoles := t.conferenceRoles + {row}), Success(RowView(t, Conference, row)))
  }

  /** `accepted` stands for Decidim's own model validations. */
  function Create(w: World, t: Tables, a: Attributes, accepted: bool): Outcome {
    if ResourceOf(a.resourceType) == Some(Organization) && a.resourceId != w.organization
        then Rejected(t, ArgumentError)
    else
      match KindOf(a.kind)
      case None => Rejected(t, ArgumentError)
      case Some(GeneralAdmin) => CreateGeneralAdmin(w, t, a, accepted)
      case Some(kind) =>
        match ResourceOf(a.resourceType)
        case Some(Process) => CreateProcessRole(w, t, a, kind, accepted)
        case Some(Assembly) => CreateAssemblyRole(w, t, a, kind, accepted)
        case Some(Conference) => CreateConferenceRole(w, t, a, kind, accepted)
        case _ => Rejected(t, ArgumentError)
  }

  // Finding

  datatype Record = UserRecord(user: int) | ProcessRow(row: Row) | AssemblyRow(row: Row) | ConferenceRow(row: Row)
      | MemberRecord(member: Member)

  /** The rows a lookup may return: find_by orders nothing and takes one of them. */
  function FindRecord(w: World, t: Tables, d: Codec.Decoded): set<Record> {
    if !d.RoleId? || !d.kind.Str? || !d.resourceType.Str? || d.userId.None? then {}
    else
      var user := d.userId.value;
      match KindOf(d.kind.s)
      case None => {}
      case Some(GeneralAdmin) =>
        if ResourceOf(d.resourceType.s) == Some(Organization) && d.resourceId == w.organization && IsAdmin(w, t, user)
        then {UserRecord(user)} else {}
      case Some(kind) => FindSpaceRole(w, t, kind, ResourceOf(d.resourceType.s), d.resourceId, user, d.invitedAt)
  }

  function FindSpaceRole(
    w: World, t: Tables, kind: Kind, resource: Option<Resource>, space: int, user: int, invitedAt: Value
  ): set<Record> {
    var role := w.DecidimRole(kind);
    match resource
    case Some(Process) =>
      set row | row in Owned(w, w.processes, t.processRoles) && row.space == space && row.user == user ::
          ProcessRow(row)
    case Some(Assembly) =>
      if kind == SpacePrivateMember && w.hasMembers && Blank(invitedAt) then
        if Member(space, user) in t.members then {MemberRecord(Member(space, user))} else {}
      else if role.None? then {}
      else FindRow(w, w.assemblies, t.assemblyRoles, Row(space, user, role.value), row => AssemblyRow(row))
    case Some(Conference) =>
      if !w.hasConferences || role.None? then {}
      else FindRow(w, w.conferences, t.conferenceRoles, Row(space, user, role.value), row => ConferenceRow(row))
    case _ => {}
  }

  function FindRow(w: World, spaces: map<int, int>, rows: set<Row>, row: Row, wrap: Row -> Record): set<Record> {
    if w.Owns(spaces, row.space) && row in rows then {wrap(row)} else {}
  }

  /** update!(admin: false) on a user, destroy! on a row. */
  function Remove(t: Tables, r: Record): Tables {
    match r
    case UserRecord(u) => if u in t.users then t.(users := t.users[u := t.users[u].(admin := false)]) else t
    case ProcessRow(row) => t.(processRoles := t.processRoles - {row})
    case AssemblyRow(row) => t.(assemblyRoles := t.assemblyRoles - {row})
    case ConferenceRow(row) => t.(conferenceRoles := t.conferenceRoles - {row})
    case MemberRecord(m) => t.(members := t.members - {m})
  }

  /** RolesAggregator#find_by_id: the views a decoded id matches. */
  predicate MatchDecoded(v: RoleView, d: Codec.Decoded) {
    && d.RoleId?
    && d.resourceType == Str(ResourceName(v.resource))
    && v.resourceId == d.resourceId
    && Some(v.userId) == d.userId
    && Codec.OptionalText(Codec.NormalizeInvitedAt(Note(v.invitedAt)))
        == (if Blank(d.invitedAt) then Null else d.invitedAt)
    && d.kind == Str(KindName(v.kind))
  }

  function FindById(w: World, t: Tables, id: string): set<RoleView> {
    set v | v in Views(w, t) && MatchDecoded(v, Codec.Decode(id))
  }

  // What the lookups and the errors mean

  /** The role a decoded type names, for the installed Decidim. */
  ghost predicate NamesRole(w: World, kind: Value, role: SpaceRole) {
    || (kind == Str("space_administrator") && role == Admin)
    || (kind == Str("space_moderator") && role == Moderator)
    || (kind == Str("space_valuator") && role == w.valuatorRole)
    || (kind == Str("space_private_member") && role == Collaborator)
  }

  /** An organization's row of the decoded space and user. */
  ghost predicate RowMatches(spaces: map<int, int>, organization: int, rows: set<Row>, row: Row, d: Codec.Decoded)
    requires d.RoleId?
  {
    && row in rows && row.space == d.resourceId && d.userId == Some(row.user)
    && row.space in spaces && spaces[row.space] == organization
  }

  /** What each lookup takes into account: administrators need the organization and the flag, process rows
      may have any role, and members any organization. */
  lemma FoundRecords(w: World, t: Tables, d: Codec.Decoded, r: Record)
    ensures r in FindRecord(w, t, d) <==>
              && d.RoleId?
              && match r
                 case UserRecord(u) =>
                   && d.kind == Str("general_admin") && d.resourceType == Str("Decidim::Organization")
                   && d.resourceId == w.organization && d.userId == Some(u)
                   && u in t.users && t.users[u].organization == w.organization && t.users[u].admin
                 case ProcessRow(row) =>
                   && (exists role :: NamesRole(w, d.kind, role))
                   && d.resourceType == Str("Decidim::ParticipatoryProcess")
                   && RowMatches(w.processes, w.organization, t.processRoles, row, d)
                 case AssemblyRow(row) =>
                   && NamesRole(w, d.kind, row.role) && d.resourceType == Str("Decidim::Assembly")
                   && RowMatches(w.assemblies, w.organization, t.assemblyRoles, row, d)
                   && (d.kind == Str("space_private_member") && w.hasMembers ==> !Blank(d.invitedAt))
                 case ConferenceRow(row) =>
                   && NamesRole(w, d.kind, row.role) && d.resourceType == Str("Decidim::Conference")
                   && w.hasConferences && RowMatches(w.conferences, w.organization, t.conferenceRoles, row, d)
                 case MemberRecord(m) =>
                   && d.kind == Str("space_private_member") && d.resourceType == Str("Decidim::Assembly")
                   && w.hasMembers && Blank(d.invitedAt)
                   && m in t.members && m.assembly == d.resourceId && d.userId == Some(m.user)
  {
    FoundByKind(w, t, d, r);
    if d.RoleId? && d.kind.Str? && d.resourceType.Str? {
      Vocabulary(d.kind.s);
      Vocabulary(d.resourceType.s);
      NamedKind(w, d.kind.s);
    }
    hide KindOf, ResourceOf, Blank, NamesRole, FindRecord;
  }

  lemma FoundByKind(w: World, t: Tables, d: Codec.Decoded, r: Record)
    ensures r in FindRecord(w, t, d) <==>
              && d.RoleId? && d.kind.Str? && d.resourceType.Str?
              && var kind, resource := KindOf(d.kind.s), ResourceOf(d.resourceType.s);
                 match r
                 case UserRecord(u) =>
                   && kind == Some(GeneralAdmin) && resource == Some(Organization)
                   && d.resourceId == w.organization && d.userId == Some(u)
                   && u in t.users && t.users[u].organization == w.organization && t.users[u].admin
                 case ProcessRow(row) =>
                   && kind.Some? && kind != Some(GeneralAdmin) && resource == Some(Process)
                   && RowMatches(w.processes, w.organization, t.processRoles, row, d)
                 case AssemblyRow(row) =>
                   && kind.Some? && w.DecidimRole(kind.value) == Some(row.role) && resource == Some(Assembly)
                   && RowMatches(w.assemblies, w.organization, t.assemblyRoles, row, d)
                   && (kind == Some(SpacePrivateMember) && w.hasMembers ==> !Blank(d.invitedAt))
                 case ConferenceRow(row) =>
                   && kind.Some? && w.DecidimRole(kind.value) == Some(row.role) && resource == Some(Conference)
                   && w.hasConferences && RowMatches(w.conferences, w.organization, t.conferenceRoles, row, d)
                 case MemberRecord(m) =>
                   && kind == Some(SpacePrivateMember) && resource == Some(Assembly)
                   && w.hasMembers && Blank(d.invitedAt)
                   && m in t.members && m.assembly == d.resourceId && d.userId == Some(m.user)
  {
    if d.RoleId? && d.kind.Str? && d.resourceType.Str? && d.userId.Some? {
      var kind := KindOf(d.kind.s);
      if kind.Some? && kind.value != GeneralAdmin {
        SpaceRecords(w, t, kind.value, ResourceOf(d.resourceType.s), d.resourceId, d.userId.value, d.invitedAt, r);
      }
    }
    hide KindOf, ResourceOf, Blank, FindSpaceRole;
  }

  lemma NamedKind(w: World, name: string)
    ensures forall role :: NamesRole(w, Str(name), role)
              <==> KindOf(name).Some? && w.DecidimRole(KindOf(name).value) == Some(role)
    ensures (exists role :: NamesRole(w, Str(name), role)) <==> KindOf(name).Some? && KindOf(name) != Some(GeneralAdmin)
  {
    Vocabulary(name);
    hide KindOf;
    var kind := KindOf(name);
    if kind.Some? && kind.value != GeneralAdmin {
      assert NamesRole(w, Str(name), w.DecidimRole(kind.value).value);
    }
  }

  lemma SpaceRecords(
    w: World, t: Tables, kind: Kind, resource: Option<Resource>, space: int, user: int, invitedAt: Value, r: Record
  )
    requires kind != GeneralAdmin
    ensures r in FindSpaceRole(w, t, kind, resource, space, user, invitedAt) <==>
              match r
              case UserRecord(_) => false
              case ProcessRow(row) =>
                && resource == Some(Process) && row in t.processRoles && row.space == space && row.user == user
                && row.space in w.processes && w.processes[row.space] == w.organization
              case AssemblyRow(row) =>
                && resource == Some(Assembly) && w.DecidimRole(kind) == Some(row.role)
                && row in t.assemblyRoles && row.space == space && row.user == user
                && row.space in w.assemblies && w.assemblies[row.space] == w.organization
                && (kind == SpacePrivateMember && w.hasMembers ==> !Blank(invitedAt))
              case ConferenceRow(row) =>
                && resource == Some(Conference) && w.DecidimRole(kind) == Some(row.role) && w.hasConferences
                && row in t.conferenceRoles && row.space == space && row.user == user
                && row.space in w.conferences && w.conferences[row.space] == w.organization
              case MemberRecord(m) =>
                && resource == Some(Assembly) && kind == SpacePrivateMember && w.hasMembers && Blank(invitedAt)
                && m in t.members && m.assembly == space && m.user == user
  {
    hide Blank;
  }

  /** Which error a failing create raises: wrong names first, then missing spaces and users, and what
      Decidim or an existing row refuses last. */
  lemma CreateErrors(w: World, t: Tables, a: Attributes, accepted: bool)
    ensures var o := Create(w, t, a, accepted);
            var organization := a.resourceType == "Decidim::Organization";
            var ownUser := a.userId in t.users && t.users[a.userId].organization == w.organization;
            var spaces := if a.resourceType == "Decidim::ParticipatoryProcess" then w.processes
                          else if a.resourceType == "Decidim::Assembly" then w.assemblies else w.conferences;
            var named := || a.kind == "space_administrator" || a.kind == "space_moderator"
                         || a.kind == "space_valuator" || a.kind == "space_private_member";
            var supported := || a.resourceType == "Decidim::ParticipatoryProcess"
                             || a.resourceType == "Decidim::Assembly"
                             || (a.resourceType == "Decidim::Conference" && w.hasConferences);
            var member := a.kind == "space_private_member" && a.resourceType == "Decidim::Assembly" && w.hasMembers;
            var usable := if a.kind == "general_admin" then organization && a.resourceId == w.organization
                          else named && supported;
            var found := if a.kind == "general_admin" then ownUser
                         else && a.resourceId in spaces && spaces[a.resourceId] == w.organization
                              && (member ==> ownUser);
            RaisesInOrder(o.result, usable, found)
  {
    Vocabulary(a.kind);
    Vocabulary(a.resourceType);
    ErrorsByKind(w, t, a, accepted);
    hide KindOf, ResourceOf, Create;
  }

  lemma ErrorsByKind(w: World, t: Tables, a: Attributes, accepted: bool)
    ensures var ownUser := a.userId in t.users && t.users[a.userId].organization == w.organization;
            var kind, resource := KindOf(a.kind), ResourceOf(a.resourceType);
            var spaces := if resource == Some(Process) then w.processes
                          else if resource == Some(Assembly) then w.assemblies else w.conferences;
            var member := kind == Some(SpacePrivateMember) && resource == Some(Assembly) && w.hasMembers;
            var supported := || resource == Some(Process) || resource == Some(Assembly)
                             || (resource == Some(Conference) && w.hasConferences);
            var usable := if kind == Some(GeneralAdmin)
                          then resource == Some(Organization) && a.resourceId == w.organization
                          else kind.Some? && supported;
            var found := if kind == Some(GeneralAdmin) then ownUser
                         else && a.resourceId in spaces && spaces[a.resourceId] == w.organization
                              && (member ==> ownUser);
            RaisesInOrder(Create(w, t, a, accepted).result, usable, found)
  {
    GeneralAdminErrors(w, t, a, accepted);
    var kind := KindOf(a.kind);
    if kind.Some? && kind.value != GeneralAdmin {
      SpaceRoleErrors(w, t, a, kind.value, accepted);
    }
    WrongNames();
    hide KindOf, ResourceOf, RaisesInOrder,
         CreateGeneralAdmin, CreateProcessRole, CreateAssemblyRole, CreateConferenceRole;
  }

  lemma WrongNames()
    ensures forall found :: RaisesInOrder(Failure(ArgumentError), false, found)
    ensures forall r, found, found' :: RaisesInOrder(r, false, found) <==> RaisesInOrder(r, false, found')
  {
  }

  ghost predicate RaisesInOrder(r: Result<RoleView, Error>, usable: bool, found: bool) {
    && (r == Failure(ArgumentError) <==> !usable)
    && (r == Failure(RecordNotFound) <==> usable && !found)
    && (r.Failure? && usable && found ==> r == Failure(RecordInvalid))
  }

  lemma GeneralAdminErrors(w: World, t: Tables, a: Attributes, accepted: bool)
    ensures RaisesInOrder(CreateGeneralAdmin(w, t, a, accepted).result,
                          ResourceOf(a.resourceType) == Some(Organization) && a.resourceId == w.organization,
                          a.userId in t.users && t.users[a.userId].organization == w.organization)
  {
    hide ResourceOf;
  }

  lemma SpaceRoleErrors(w: World, t: Tables, a: Attributes, kind: Kind, accepted: bool)
    requires kind != GeneralAdmin
    ensures var ownUser := a.userId in t.users && t.users[a.userId].organization == w.organization;
            && RaisesInOrder(CreateProcessRole(w, t, a, kind, accepted).result, true,
                             a.resourceId in w.processes && w.processes[a.resourceId] == w.organization)
            && RaisesInOrder(CreateAssemblyRole(w, t, a, kind, accepted).result, true,
                             && a.resourceId in w.assemblies && w.assemblies[a.resourceId] == w.organization
                             && (kind == SpacePrivateMember && w.hasMembers ==> ownUser))
            && RaisesInOrder(CreateConferenceRole(w, t, a, kind, accepted).result, w.hasConferences,
                             a.resourceId in w.conferences && w.conferences[a.resourceId] == w.organization)
  {
  }

  // What create and destroy do to the plain set

  ghost predicate KeepsTables(w: World, t: Tables, o: Outcome) {
    ValidTables(w, o.tables) && (o.result.Failure? ==> o.tables == t)
  }

  /** What the writer stores for a kind reads back as that kind. */
  lemma CurrentWith(w: World, rows: set<Row>, space: int, user: int, kind: Kind)
    requires w.Valid() && Current(w, rows) && kind != GeneralAdmin
    ensures Current(w, rows + {Row(space, user, w.DecidimRole(kind).GetOr(Collaborator))})
  {
  }

  lemma CreateGeneralAdminKeeps(w: World, t: Tables, a: Attributes, accepted: bool)
    requires ValidTables(w, t)
    ensures KeepsTables(w, t, CreateGeneralAdmin(w, t, a, accepted))
  {
    hide ResourceOf, Current;
  }

  lemma CreateProcessRoleKeeps(w: World, t: Tables, a: Attributes, kind: Kind, accepted: bool)
    requires ValidTables(w, t) && kind != GeneralAdmin
    ensures KeepsTables(w, t, CreateProcessRole(w, t, a, kind, accepted))
  {
    CurrentWith(w, t.processRoles, a.resourceId, a.userId, kind);
    hide Current;
  }

  lemma CreateAssemblyRoleKeeps(w: World, t: Tables, a: Attributes, kind: Kind, accepted: bool)
    requires ValidTables(w, t) && kind != GeneralAdmin
    ensures KeepsTables(w, t, CreateAssemblyRole(w, t, a, kind, accepted))
  {
    CurrentWith(w, t.assemblyRoles, a.resourceId, a.userId, kind);
    hide Current;
  }

  lemma CreateConferenceRoleKeeps(w: World, t: Tables, a: Attributes, kind: Kind, accepted: bool)
    requires ValidTables(w, t) && kind != GeneralAdmin
    ensures KeepsTables(w, t, CreateConferenceRole(w, t, a, kind, accepted))
  {
    CurrentWith(w, t.conferenceRoles, a.resourceId, a.userId, kind);
    hide Current;
  }

  lemma CreateKeepsTables(w: World, t: Tables, a: Attributes, accepted: bool)
    requires ValidTables(w, t)
    ensures ValidTables(w, Create(w, t, a, accepted).tables)
    ensures Create(w, t, a, accepted).result.Failure? ==> Create(w, t, a, accepted).tables == t
  {
    hide KindOf, ResourceOf, ValidTables,
         CreateGeneralAdmin, CreateProcessRole, CreateAssemblyRole, CreateConferenceRole;
    CreateGeneralAdminKeeps(w, t, a, accepted);
    var kind := KindOf(a.kind);
    if kind.Some? && kind.value != GeneralAdmin {
      CreateProcessRoleKeeps(w, t, a, kind.value, accepted);
      CreateAssemblyRoleKeeps(w, t, a, kind.value, accepted);
      CreateConferenceRoleKeeps(w, t, a, kind.value, accepted);
    }
  }

  /** What a tuple needs, besides Decidim's validations: a resource of the organization, and a user
      of the organization where the writer looks one up. */
  ghost predicate Creatable(w: World, t: Tables, x: Tuple) {
    var ownUser := x.userId in t.users && t.users[x.userId].organization == w.organization;
    match x.resource
    case Organization => x.kind == GeneralAdmin && x.resourceId == w.organization && ownUser
    case Process => x.kind != GeneralAdmin && w.Owns(w.processes, x.resourceId)
    case Assembly =>
      x.kind != GeneralAdmin && w.Owns(w.assemblies, x.resourceId)
          && (x.kind == SpacePrivateMember && w.hasMembers ==> ownUser)
    case Conference => x.kind != GeneralAdmin && w.hasConferences && w.Owns(w.conferences, x.resourceId)
  }

  /** A create succeeds exactly when its names are known, its tuple can exist, Decidim accepts it,
      and, unless it makes an administrator, the tuple is not in the set yet. */
  lemma CreateSucceedsIff(w: World, t: Tables, a: Attributes, accepted: bool)
    requires ValidTables(w, t)
    ensures Create(w, t, a, accepted).result.Success?
       <==> accepted && KindOf(a.kind).Some? && ResourceOf(a.resourceType).Some?
            && var x := Tuple(KindOf(a.kind).value, ResourceOf(a.resourceType).value, a.resourceId, a.userId);
               Creatable(w, t, x) && (x.kind == GeneralAdmin || !Holds(w, t, x))
  {
    hide KindOf, ResourceOf;
  }

  ghost predicate AddsOne(
    w: World, t: Tables, o: Outcome, kind: Kind, resource: Resource, resourceId: int, userId: int
  ) {
    var x := Tuple(kind, resource, resourceId, userId);
    o.result.Success? ==>
      && o.result.value == ViewOf(w, o.tables, x)
      && Holds(w, o.tables, x)
      && forall y :: y != x ==> Holds(w, o.tables, y) == Holds(w, t, y)
  }

  lemma CreateGeneralAdminAdds(w: World, t: Tables, a: Attributes, accepted: bool)
    requires ValidTables(w, t)
    ensures AddsOne(w, t, CreateGeneralAdmin(w, t, a, accepted), GeneralAdmin, Organization, a.resourceId, a.userId)
  {
    hide ResourceOf;
  }

  lemma CreateProcessRoleAdds(w: World, t: Tables, a: Attributes, kind: Kind, accepted: bool)
    requires ValidTables(w, t) && kind != GeneralAdmin
    ensures AddsOne(w, t, CreateProcessRole(w, t, a, kind, accepted), kind, Process, a.resourceId, a.userId)
  {
  }

  lemma CreateAssemblyRoleAdds(w: World, t: Tables, a: Attributes, kind: Kind, accepted: bool)
    requires ValidTables(w, t) && kind != GeneralAdmin
    ensures AddsOne(w, t, CreateAssemblyRole(w, t, a, kind, accepted), kind, Assembly, a.resourceId, a.userId)
  {
  }

  lemma CreateConferenceRoleAdds(w: World, t: Tables, a: Attributes, kind: Kind, accepted: bool)
    requires ValidTables(w, t) && kind != GeneralAdmin
    ensures AddsOne(w, t, CreateConferenceRole(w, t, a, kind, accepted), kind, Conference, a.resourceId, a.userId)
  {
  }

  /** A successful create adds exactly the tuple asked for and returns its view. */
  lemma CreateAdds(w: World, t: Tables, a: Attributes, accepted: bool)
    requires ValidTables(w, t)
    requires Create(w, t, a, accepted).result.Success?
    ensures var o := Create(w, t, a, accepted); var x := TupleOf(o.result.value);
            && Some(x.kind) == KindOf(a.kind) && Some(x.resource) == ResourceOf(a.resourceType)
            && x.resourceId == a.resourceId && x.userId == a.userId
            && Tuples(w, o.tables) == Tuples(w, t) + {x}
            && o.result.value == ViewOf(w, o.tables, x) && o.result.value in Views(w, o.tables)
  {
    hide KindOf, ResourceOf, Views, Tuples, Holds, ValidTables,
         CreateGeneralAdmin, CreateProcessRole, CreateAssemblyRole, CreateConferenceRole;
    var o := Create(w, t, a, accepted);
    var kind := KindOf(a.kind).value;
    CreateKeepsTables(w, t, a, accepted);
    if kind == GeneralAdmin {
      CreateGeneralAdminAdds(w, t, a, accepted);
      assert ResourceOf(a.resourceType) == Some(Organization) by {
        GeneralAdminNeedsOrganization(w, t, a, accepted);
      }
    } else {
      CreateProcessRoleAdds(w, t, a, kind, accepted);
      CreateAssemblyRoleAdds(w, t, a, kind, accepted);
      CreateConferenceRoleAdds(w, t, a, kind, accepted);
    }
    var x := Tuple(kind, ResourceOf(a.resourceType).value, a.resourceId, a.userId);
    forall y ensures Holds(w, o.tables, y) <==> y in Tuples(w, t) + {x} {
      ViewsArePlainSet(w, t, y);
    }
    TuplesByHolds(w, o.tables, Tuples(w, t) + {x});
    ViewsArePlainSet(w, o.tables, x);
  }

  lemma GeneralAdminNeedsOrganization(w: World, t: Tables, a: Attributes, accepted: bool)
    ensures CreateGeneralAdmin(w, t, a, accepted).result.Success? ==> ResourceOf(a.resourceType) == Some(Organization)
  {
  }

  function IdOf(w: World, t: Tables, x: Tuple): string {
    ViewOf(w, t, x).Id()
  }

  lemma DecodeIdOf(w: World, t: Tables, x: Tuple)
    requires ValidTables(w, t)
    ensures var inv := TupleInvitation(w, t, x);
            && Codec.Decode(IdOf(w, t, x))
               == Codec.RoleId(Str(ResourceName(x.resource)), x.resourceId, Some(x.userId), Codec.OptionalText(inv),
                   Str(KindName(x.kind)))
            && Blank(Codec.OptionalText(inv)) == inv.None?
            && Codec.NormalizeInvitedAt(Note(inv)) == inv
  {
    hide Codec.Decode, Codec.Encode;
    var inv := TupleInvitation(w, t, x);
    Codec.DecodeEncode(ResourceName(x.resource), x.resourceId, Some(x.userId), Note(inv), KindName(x.kind));
  }

  /** Both lookups on a view's id: the aggregator finds that view and no other. */
  lemma FindByIdFindsView(w: World, t: Tables, v: RoleView)
    requires ValidTables(w, t) && v in Views(w, t)
    ensures FindById(w, t, v.Id()) == {v}
  {
    hide Codec.Decode, Codec.Encode, Views, KindName, ResourceName;
    ViewedIsHeld(w, t, v);
    DecodeIdOf(w, t, TupleOf(v));
    forall u | u in Views(w, t) && MatchDecoded(u, Codec.Decode(v.Id())) ensures u == v {
      ViewedIsHeld(w, t, u);
      NamesRoundTrip(u.kind, u.resource);
      NamesRoundTrip(v.kind, v.resource);
      assert TupleOf(u) == TupleOf(v);
    }
    ViewedIsHeld(w, t, v);
  }

  /** What the aggregator's lookup compares, for any id: every field, where blank stands for no invitation. */
  lemma FoundViews(w: World, t: Tables, id: string, v: RoleView)
    requires ValidTables(w, t)
    ensures var d := Codec.Decode(id);
            v in FindById(w, t, id)
            <==> && v in Views(w, t) && d.RoleId?
                 && d.kind == Str(KindName(v.kind)) && d.resourceType == Str(ResourceName(v.resource))
                 && d.resourceId == v.resourceId && d.userId == Some(v.userId)
                 && match v.invitedAt
                    case None => Blank(d.invitedAt)
                    case Some(text) => d.invitedAt == Str(text)
  {
    if v in Views(w, t) {
      ListedRoles(w, t, v);
    }
    hide Codec.Decode, KindName, ResourceName, Views;
  }

  // Destroying

  /** The rows a destroy of this tuple's id may hit. */
  ghost function RecordsFor(w: World, t: Tables, x: Tuple): set<Record> {
    FindRecord(w, t, Codec.Decode(IdOf(w, t, x)))
  }

  ghost function RecordsByTuple(w: World, t: Tables, x: Tuple): set<Record> {
    if x.kind == GeneralAdmin then
      if x.resource == Organization && x.resourceId == w.organization && IsAdmin(w, t, x.userId)
          then {UserRecord(x.userId)} else {}
    else
      FindSpaceRole(w, t, x.kind, Some(x.resource), x.resourceId, x.userId,
          Codec.OptionalText(TupleInvitation(w, t, x)))
  }

  /** Going through the id and back changes nothing: the lookup sees the tuple itself. */
  lemma RecordsThroughId(w: World, t: Tables, x: Tuple)
    requires ValidTables(w, t)
    ensures RecordsFor(w, t, x) == RecordsByTuple(w, t, x)
  {
    hide Codec.Decode, Codec.Encode, KindName, ResourceName, KindOf, ResourceOf, FindSpaceRole;
    DecodeIdOf(w, t, x);
    NamesRoundTrip(x.kind, x.resource);
  }

  /** Destroying x behaves as on a plain set: it fails exactly when x is absent, and whichever
      row the lookup takes, x goes and nothing else does. */
  ghost predicate PlainDestroy(w: World, t: Tables, x: Tuple) {
    && (RecordsFor(w, t, x) == {} <==> x !in Tuples(w, t))
    && forall r | r in RecordsFor(w, t, x) :: Tuples(w, Remove(t, r)) == Tuples(w, t) - {x}
  }

  /** The process lookup ignores the role, and the member lookup ignores the organization. */
  ghost predicate LookupIsExact(w: World, t: Tables, x: Tuple) {
    && (x.resource == Process && x.kind != GeneralAdmin && w.Owns(w.processes, x.resourceId) ==>
          forall row | row in t.processRoles && row.space == x.resourceId && row.user == x.userId ::
              RoleKind(row.role) == x.kind)
    && (x.resource == Assembly && x.kind == SpacePrivateMember && w.hasMembers
          && !w.Owns(w.assemblies, x.resourceId) ==>
          Member(x.resourceId, x.userId) !in t.members)
  }

  lemma RemoveKeepsTables(w: World, t: Tables, r: Record)
    requires ValidTables(w, t)
    ensures ValidTables(w, Remove(t, r))
  {
  }

  lemma RemoveKeepsViews(w: World, t: Tables, r: Record)
    ensures forall x :: ViewOf(w, Remove(t, r), x) == ViewOf(w, t, x)
  {
  }

  /** Removing a found record drops x and keeps every other tuple. */
  lemma RemoveDropsTuple(w: World, t: Tables, x: Tuple, r: Record)
    requires ValidTables(w, t) && r in RecordsByTuple(w, t, x) && LookupIsExact(w, t, x)
    ensures !Holds(w, Remove(t, r), x)
    ensures forall y :: y != x ==> Holds(w, Remove(t, r), y) == Holds(w, t, y)
    ensures Holds(w, t, x)
  {
  }

  lemma HeldIsFound(w: World, t: Tables, x: Tuple)
    requires ValidTables(w, t) && Holds(w, t, x)
    ensures RecordsByTuple(w, t, x) != {}
  {
    if x.resource == Process {
      assert ProcessRow(Row(x.resourceId, x.userId, w.DecidimRole(x.kind).value)) in RecordsByTuple(w, t, x);
    }
  }

  lemma RemoveIsDifference(w: World, t: Tables, x: Tuple, r: Record)
    requires ValidTables(w, t) && r in RecordsByTuple(w, t, x) && LookupIsExact(w, t, x)
    ensures Tuples(w, Remove(t, r)) == Tuples(w, t) - {x}
  {
    hide Tuples, Views, ViewOf, Holds, ValidTables, LookupIsExact, RecordsByTuple, Remove;
    RemoveDropsTuple(w, t, x, r);
    RemoveKeepsTables(w, t, r);
    forall y ensures Holds(w, Remove(t, r), y) <==> y in Tuples(w, t) - {x} {
      ViewsArePlainSet(w, t, y);
    }
    TuplesByHolds(w, Remove(t, r), Tuples(w, t) - {x});
  }

  lemma ExactLookupDestroys(w: World, t: Tables, x: Tuple)
    requires ValidTables(w, t) && LookupIsExact(w, t, x)
    ensures PlainDestroy(w, t, x)
  {
    hide Tuples, Views, Holds, ValidTables, LookupIsExact, RecordsFor, RecordsByTuple, Remove;
    RecordsThroughId(w, t, x);
    ViewsArePlainSet(w, t, x);
    if Holds(w, t, x) {
      HeldIsFound(w, t, x);
    }
    forall r | r in RecordsByTuple(w, t, x)
      ensures Holds(w, t, x) && Tuples(w, Remove(t, r)) == Tuples(w, t) - {x}
    {
      RemoveDropsTuple(w, t, x, r);
      RemoveIsDifference(w, t, x, r);
    }
  }

  /** Both lookups on the id of a role find it, and destroying it takes exactly it from the set. */
  lemma ViewIsFound(w: World, t: Tables, v: RoleView)
    requires ValidTables(w, t) && v in Views(w, t)
    ensures FindById(w, t, v.Id()) == {v}
    ensures FindRecord(w, t, Codec.Decode(v.Id())) != {}
    ensures LookupIsExact(w, t, TupleOf(v)) ==>
              forall r | r in FindRecord(w, t, Codec.Decode(v.Id())) ::
                  Tuples(w, Remove(t, r)) == Tuples(w, t) - {TupleOf(v)}
  {
    FindByIdFindsView(w, t, v);
    hide Views, Tuples, Holds, ValidTables, LookupIsExact, RecordsByTuple, Remove, FindById, FindRecord, ViewOf,
        Codec.Decode;
    var x := TupleOf(v);
    ViewedIsHeld(w, t, v);
    RecordsThroughId(w, t, x);
    HeldIsFound(w, t, x);
    if LookupIsExact(w, t, x) {
      ExactLookupDestroys(w, t, x);
    }
  }

  /** So both lookups find a role by the id its create returned. */
  lemma CreatedIsFound(w: World, t: Tables, a: Attributes, accepted: bool)
    requires ValidTables(w, t) && Create(w, t, a, accepted).result.Success?
    ensures var o := Create(w, t, a, accepted); var v := o.result.value;
            && FindById(w, o.tables, v.Id()) == {v}
            && FindRecord(w, o.tables, Codec.Decode(v.Id())) != {}
  {
    hide Views, Tuples, Holds, ValidTables, Create, FindById, FindRecord, ViewOf, KindOf, ResourceOf, LookupIsExact,
        Codec.Decode;
    CreateKeepsTables(w, t, a, accepted);
    CreateAdds(w, t, a, accepted);
    ViewIsFound(w, Create(w, t, a, accepted).tables, Create(w, t, a, accepted).result.value);
  }

  /** When the process lookup can see a row with another role, destroying may remove that one. */
  lemma InexactLookupFails(w: World, t: Tables, x: Tuple)
    requires ValidTables(w, t) && !LookupIsExact(w, t, x)
    ensures !PlainDestroy(w, t, x)
  {
    hide Tuples, Views, RecordsFor;
    RecordsThroughId(w, t, x);
    ViewsArePlainSet(w, t, x);
    if x.resource == Process {
      var row :| row in t.processRoles && row.space == x.resourceId && row.user == x.userId
          && RoleKind(row.role) != x.kind;
      var y := Tuple(RoleKind(row.role), Process, row.space, row.user);
      var r := ProcessRow(row);
      assert r in RecordsByTuple(w, t, x);
      ViewsArePlainSet(w, t, y);
      RemoveKeepsTables(w, t, r);
      ViewsArePlainSet(w, Remove(t, r), y);
      assert Holds(w, t, y) && !Holds(w, Remove(t, r), y);
    } else {
      assert MemberRecord(Member(x.resourceId, x.userId)) in RecordsByTuple(w, t, x);
    }
  }

  /** Destroying by id is destroying in a plain set exactly when the lookup is exact. */
  lemma DestroyIsPlainIffExact(w: World, t: Tables, x: Tuple)
    requires ValidTables(w, t)
    ensures PlainDestroy(w, t, x) <==> LookupIsExact(w, t, x)
  {
    hide PlainDestroy, LookupIsExact, ValidTables;
    if LookupIsExact(w, t, x) {
      ExactLookupDestroys(w, t, x);
    } else {
      InexactLookupFails(w, t, x);
    }
  }

  /** The failing input: a user who administers and moderates one process. */
  lemma TwoRolesInOneProcess()
    ensures var w := World(1, Evaluator, true, true, map[7 := 1], map[], map[]);
            var t := Tables(map[], {Row(7, 5, Admin), Row(7, 5, Moderator)}, {}, {}, {});
            ValidTables(w, t) && !PlainDestroy(w, t, Tuple(SpaceModerator, Process, 7, 5))
  {
    var w := World(1, Evaluator, true, true, map[7 := 1], map[], map[]);
    var t := Tables(map[], {Row(7, 5, Admin), Row(7, 5, Moderator)}, {}, {}, {});
    var x := Tuple(SpaceModerator, Process, 7, 5);
    assert Row(7, 5, Admin) in t.processRoles;
    assert !LookupIsExact(w, t, x);
    InexactLookupFails(w, t, x);
  }

  /** The other failing input: an id naming an assembly of organization 2, used in organization 1. No role
      of organization 1 is there to destroy, and still the member goes. */
  lemma MemberOfForeignAssembly()
    ensures var w := World(1, Evaluator, true, true, map[], map[7 := 2], map[]);
            var t := Tables(map[], {}, {}, {}, {Member(7, 5)});
            var x := Tuple(SpacePrivateMember, Assembly, 7, 5);
            && ValidTables(w, t) && !PlainDestroy(w, t, x)
            && !Holds(w, t, x) && RecordsFor(w, t, x) == {MemberRecord(Member(7, 5))}
            && Remove(t, MemberRecord(Member(7, 5))).members == {}
  {
    var w := World(1, Evaluator, true, true, map[], map[7 := 2], map[]);
    var t := Tables(map[], {}, {}, {}, {Member(7, 5)});
    var x := Tuple(SpacePrivateMember, Assembly, 7, 5);
    hide PlainDestroy, RecordsFor;
    assert Member(7, 5) in t.members && !w.Owns(w.assemblies, 7);
    assert !LookupIsExact(w, t, x);
    InexactLookupFails(w, t, x);
    RecordsThroughId(w, t, x);
    assert RecordsByTuple(w, t, x) == {MemberRecord(Member(7, 5))};
  }

  // Runs

  datatype Op = CreateOp(attributes: Attributes, accepted: bool) | DestroyOp(tuple: Tuple)

  /** One request; `failed` tells whether it raised. */
  ghost predicate Step(w: World, t: Tables, op: Op, failed: bool, t': Tables) {
    match op
    case CreateOp(a, accepted) =>
      var o := Create(w, t, a, accepted);
      t' == o.tables && failed == o.result.Failure?
    case DestroyOp(x) =>
      var found := RecordsFor(w, t, x);
      if found == {} then failed && t' == t
      else !failed && exists r :: r in found && t' == Remove(t, r)
  }

  /** The same request on a plain set. */
  ghost predicate PlainStep(s: set<Tuple>, op: Op, failed: bool, s': set<Tuple>) {
    match op
    case CreateOp(a, _) =>
      if failed then s' == s
      else
        && KindOf(a.kind).Some? && ResourceOf(a.resourceType).Some?
        && s' == s + {Tuple(KindOf(a.kind).value, ResourceOf(a.resourceType).value, a.resourceId, a.userId)}
    case DestroyOp(x) => (failed <==> x !in s) && s' == s - {x}
  }

  lemma StepIsPlain(w: World, t: Tables, op: Op, failed: bool, t': Tables)
    requires ValidTables(w, t) && Step(w, t, op, failed, t')
    requires op.DestroyOp? ==> LookupIsExact(w, t, op.tuple)
    ensures ValidTables(w, t') && PlainStep(Tuples(w, t), op, failed, Tuples(w, t'))
    ensures forall x :: ViewOf(w, t', x) == ViewOf(w, t, x)
  {
    hide Tuples, Views, Holds, LookupIsExact, RecordsFor, Create, ViewOf, ValidTables, Remove, KindOf, ResourceOf;
    match op
    case CreateOp(a, accepted) =>
      CreateKeepsTables(w, t, a, accepted);
      CreateKeepsViews(w, t, a, accepted);
      if !failed {
        CreateAdds(w, t, a, accepted);
      }
    case DestroyOp(x) =>
      ExactLookupDestroys(w, t, x);
      var found := RecordsFor(w, t, x);
      if found != {} {
        var r :| r in found && t' == Remove(t, r);
        RemoveKeepsTables(w, t, r);
        RemoveKeepsViews(w, t, r);
      }
  }

  lemma CreateKeepsViews(w: World, t: Tables, a: Attributes, accepted: bool)
    ensures forall x :: ViewOf(w, Create(w, t, a, accepted).tables, x) == ViewOf(w, t, x)
  {
    hide KindOf, ResourceOf;
  }

  /** A run: one more store than requests. */
  ghost predicate Run(w: World, stores: seq<Tables>, ops: seq<Op>, failed: seq<bool>) {
    && |stores| == |ops| + 1 && |failed| == |ops|
    && ValidTables(w, stores[0])
    && forall i | 0 <= i < |ops| ::
         && Step(w, stores[i], ops[i], failed[i], stores[i + 1])
         && (ops[i].DestroyOp? ==> LookupIsExact(w, stores[i], ops[i].tuple))
  }

  /** Over every run the tables behave as one plain set of tuples, and ids never change. */
  lemma {:induction false} RunIsPlainSet(w: World, stores: seq<Tables>, ops: seq<Op>, failed: seq<bool>, k: nat)
    requires Run(w, stores, ops, failed) && k <= |ops|
    ensures ValidTables(w, stores[k])
    ensures k < |ops| ==> PlainStep(Tuples(w, stores[k]), ops[k], failed[k], Tuples(w, stores[k + 1]))
    ensures forall x :: ViewOf(w, stores[k], x) == ViewOf(w, stores[0], x)
  {
    hide Tuples, ValidTables, Step, PlainStep, ViewOf, LookupIsExact;
    if k > 0 {
      RunIsPlainSet(w, stores, ops, failed, k - 1);
      StepIsPlain(w, stores[k - 1], ops[k - 1], failed[k - 1], stores[k]);
    }
    if k < |ops| {
      StepIsPlain(w, stores[k], ops[k], failed[k], stores[k + 1]);
    }
  }
}
