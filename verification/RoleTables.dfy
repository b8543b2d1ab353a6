/** The tables behind roles, and the vocabulary they share with the API. */
module RoleTables {
  import opened Wrappers
  import opened Text
  import Codec = RoleIdCodec

  datatype Kind = GeneralAdmin | SpaceAdministrator | SpaceModerator | SpaceValuator | SpacePrivateMember

  datatype Resource = Organization | Process | Assembly | Conference

  function KindName(k: Kind): string {
    match k
    case GeneralAdmin => "general_admin"
    case SpaceAdministrator => "space_administrator"
    case SpaceModerator => "space_moderator"
    case SpaceValuator => "space_valuator"
    case SpacePrivateMember => "space_private_member"
  }

  function KindOf(name: string): Option<Kind> {
    if name == "general_admin" then Some(GeneralAdmin)
    else if name == "space_administrator" then Some(SpaceAdministrator)
    else if name == "space_moderator" then Some(SpaceModerator)
    else if name == "space_valuator" then Some(SpaceValuator)
    else if name == "space_private_member" then Some(SpacePrivateMember)
    else None
  }

  function ResourceName(r: Resource): string {
    match r
    case Organization => "Decidim::Organization"
    case Process => "Decidim::ParticipatoryProcess"
    case Assembly => "Decidim::Assembly"
    case Conference => "Decidim::Conference"
  }

  function ResourceOf(name: string): Option<Resource> {
    if name == "Decidim::Organization" then Some(Organization)
    else if name == "Decidim::ParticipatoryProcess" then Some(Process)
    else if name == "Decidim::Assembly" then Some(Assembly)
    else if name == "Decidim::Conference" then Some(Conference)
    else None
  }

  lemma NamesRoundTrip(k: Kind, r: Resource)
    ensures KindOf(KindName(k)) == Some(k)
    ensures ResourceOf(ResourceName(r)) == Some(r)
  {
    assert |"general_admin"| == 13 && |"space_administrator"| == 19 && |"space_moderator"| == 15;
    assert |"space_valuator"| == 14 && |"space_private_member"| == 20;
    assert |"Decidim::Organization"| == 21 && |"Decidim::ParticipatoryProcess"| == 29;
    assert |"Decidim::Assembly"| == 17 && |"Decidim::Conference"| == 19;
  }

  /** The names are those of the API, and no others are known. */
  lemma Vocabulary(name: string)
    ensures KindOf(name) == Some(GeneralAdmin) <==> name == "general_admin"
    ensures KindOf(name) == Some(SpaceAdministrator) <==> name == "space_administrator"
    ensures KindOf(name) == Some(SpaceModerator) <==> name == "space_moderator"
    ensures KindOf(name) == Some(SpaceValuator) <==> name == "space_valuator"
    ensures KindOf(name) == Some(SpacePrivateMember) <==> name == "space_private_member"
    ensures ResourceOf(name) == Some(Organization) <==> name == "Decidim::Organization"
    ensures ResourceOf(name) == Some(Process) <==> name == "Decidim::ParticipatoryProcess"
    ensures ResourceOf(name) == Some(Assembly) <==> name == "Decidim::Assembly"
    ensures ResourceOf(name) == Some(Conference) <==> name == "Decidim::Conference"
    ensures KindOf(name) == None
       <==> && name != "general_admin" && name != "space_administrator" && name != "space_moderator"
            && name != "space_valuator" && name != "space_private_member"
    ensures ResourceOf(name) == None
       <==> && name != "Decidim::Organization" && name != "Decidim::ParticipatoryProcess"
            && name != "Decidim::Assembly" && name != "Decidim::Conference"
  {
    assert |"general_admin"| == 13 && |"space_administrator"| == 19 && |"space_moderator"| == 15;
    assert |"space_valuator"| == 14 && |"space_private_member"| == 20;
    assert |"Decidim::Organization"| == 21 && |"Decidim::ParticipatoryProcess"| == 29;
    assert |"Decidim::Assembly"| == 17 && |"Decidim::Conference"| == 19;
  }

  /** Decidim's own role names. */
  datatype SpaceRole = Admin | Moderator | Valuator | Evaluator | Collaborator

  /** SPACE_ROLE_MAP. */
  function RoleKind(role: SpaceRole): Kind {
    match role
    case Admin => SpaceAdministrator
    case Moderator => SpaceModerator
    case Valuator => SpaceValuator
    case Evaluator => SpaceValuator
    case Collaborator => SpacePrivateMember
  }

  /** What does not change: the organization, the installed Decidim, and which organization owns a space. */
  datatype World = World(
    organization: int,
    valuatorRole: SpaceRole,
    hasMembers: bool,
    hasConferences: bool,
    processes: map<int, int>,
    assemblies: map<int, int>,
    conferences: map<int, int>
  ) {
    ghost predicate Valid() {
      valuatorRole == Valuator || valuatorRole == Evaluator
    }

    predicate Owns(spaces: map<int, int>, id: int) {
      id in spaces && spaces[id] == organization
    }

    /** decidim_role_for; None is Ruby's nil. */
    function DecidimRole(k: Kind): Option<SpaceRole> {
      match k
      case GeneralAdmin => None
      case SpaceAdministrator => Some(Admin)
      case SpaceModerator => Some(Moderator)
      case SpaceValuator => Some(valuatorRole)
      case SpacePrivateMember => Some(Collaborator)
    }
  }

  /** A user; the invitation is the ISO 8601 text of invitation_sent_at. */
  datatype User = User(organization: int, admin: bool, invitation: Option<string>)

  datatype Row = Row(space: int, user: int, role: SpaceRole)

  datatype Member = Member(assembly: int, user: int)

  /** One row per (space, user, role), so tables are sets. */
  datatype Tables = Tables(
    users: map<int, User>,
    processRoles: set<Row>,
    assemblyRoles: set<Row>,
    conferenceRoles: set<Row>,
    members: set<Member>
  )

  ghost predicate Current(w: World, rows: set<Row>) {
    forall row | row in rows :: w.DecidimRole(RoleKind(row.role)) == Some(row.role)
  }

  /** Tables the writer can build: current role names, private members of assemblies kept in
      one table only, and invitation times that print as text. */
  ghost predicate ValidTables(w: World, t: Tables) {
    && w.Valid()
    && Current(w, t.processRoles) && Current(w, t.assemblyRoles) && Current(w, t.conferenceRoles)
    && (w.hasMembers ==> forall row | row in t.assemblyRoles :: row.role != Collaborator)
    && (!w.hasMembers ==> t.members == {})
    && (!w.hasConferences ==> t.conferenceRoles == {})
    && forall u | u in t.users :: t.users[u].invitation.Some? ==> !BlankText(t.users[u].invitation.value)
  }

  // Views

  function Note(invitedAt: Option<string>): Codec.Invitation {
    match invitedAt case None => Codec.NotInvited case Some(text) => Codec.Note(text)
  }

  /** What build_role_view returns; the id is computed from the other fields. */
  datatype RoleView = RoleView(
    kind: Kind, resource: Resource, resourceId: int, userId: int, invitedAt: Option<string>
  ) {
    function Id(): string {
      Codec.Encode(ResourceName(resource), resourceId, Some(userId), Note(invitedAt), KindName(kind))
    }
  }

  /** record.user&.invitation_sent_at */
  function InvitationOf(t: Tables, user: int): Option<string> {
    if user in t.users then t.users[user].invitation else None
  }

  function RowView(t: Tables, resource: Resource, row: Row): RoleView {
    RoleView(RoleKind(row.role), resource, row.space, row.user, InvitationOf(t, row.user))
  }

  function AdminView(w: World, user: int): RoleView {
    RoleView(GeneralAdmin, Organization, w.organization, user, None)
  }

  function MemberView(m: Member): RoleView {
    RoleView(SpacePrivateMember, Assembly, m.assembly, m.user, None)
  }

  predicate IsAdmin(w: World, t: Tables, user: int) {
    user in t.users && t.users[user].organization == w.organization && t.users[user].admin
  }

  function Owned(w: World, spaces: map<int, int>, rows: set<Row>): set<Row> {
    set row | row in rows && w.Owns(spaces, row.space)
  }

  function AdminViews(w: World, t: Tables): set<RoleView> {
    set u | u in t.users && IsAdmin(w, t, u) :: AdminView(w, u)
  }

  function RowViews(w: World, t: Tables, resource: Resource, spaces: map<int, int>, rows: set<Row>): set<RoleView> {
    set row | row in Owned(w, spaces, rows) :: RowView(t, resource, row)
  }

  function MemberViews(w: World, t: Tables): set<RoleView> {
    set m | m in t.members && w.Owns(w.assemblies, m.assembly) :: MemberView(m)
  }

  /** RolesAggregator#call. */
  function Views(w: World, t: Tables): set<RoleView> {
    AdminViews(w, t)
    + RowViews(w, t, Process, w.processes, t.processRoles)
    + RowViews(w, t, Assembly, w.assemblies, t.assemblyRoles)
    + (if w.hasMembers then MemberViews(w, t) else {})
    + (if w.hasConferences then RowViews(w, t, Conference, w.conferences, t.conferenceRoles) else {})
  }

  // The plain set

  /** What a role means, whatever table it sits in. */
  datatype Tuple = Tuple(kind: Kind, resource: Resource, resourceId: int, userId: int)

  function TupleOf(v: RoleView): Tuple {
    Tuple(v.kind, v.resource, v.resourceId, v.userId)
  }

  function Tuples(w: World, t: Tables): set<Tuple> {
    set v | v in Views(w, t) :: TupleOf(v)
  }

  /** The same set, read off the tables without going through views. */
  ghost predicate Holds(w: World, t: Tables, x: Tuple) {
    match x.resource
    case Organization => x.kind == GeneralAdmin && x.resourceId == w.organization && IsAdmin(w, t, x.userId)
    case Process => w.Owns(w.processes, x.resourceId) && HasRow(w, t.processRoles, x)
    case Assembly =>
      w.Owns(w.assemblies, x.resourceId) &&
      if x.kind == SpacePrivateMember && w.hasMembers then Member(x.resourceId, x.userId) in t.members
      else HasRow(w, t.assemblyRoles, x)
    case Conference => w.hasConferences && w.Owns(w.conferences, x.resourceId) && HasRow(w, t.conferenceRoles, x)
  }

  ghost predicate HasRow(w: World, rows: set<Row>, x: Tuple) {
    w.DecidimRole(x.kind).Some? && Row(x.resourceId, x.userId, w.DecidimRole(x.kind).value) in rows
  }

  /** The invitation an id for this tuple carries. */
  function TupleInvitation(w: World, t: Tables, x: Tuple): Option<string> {
    if x.resource == Organization || (x.resource == Assembly && x.kind == SpacePrivateMember && w.hasMembers) then None
    else InvitationOf(t, x.userId)
  }

  function ViewOf(w: World, t: Tables, x: Tuple): RoleView {
    RoleView(x.kind, x.resource, x.resourceId, x.userId, TupleInvitation(w, t, x))
  }

  /** A space role and the kind the API calls it by. */
  ghost predicate Called(role: SpaceRole, kind: Kind) {
    || (role == Admin && kind == SpaceAdministrator)
    || (role == Moderator && kind == SpaceModerator)
    || ((role == Valuator || role == Evaluator) && kind == SpaceValuator)
    || (role == Collaborator && kind == SpacePrivateMember)
  }

  ghost predicate InTable(spaces: map<int, int>, organization: int, rows: set<Row>, v: RoleView) {
    && v.resourceId in spaces && spaces[v.resourceId] == organization
    && exists row :: row in rows && row.space == v.resourceId && row.user == v.userId && Called(row.role, v.kind)
  }

  /** What the aggregate lists, table by table: administrators of the organization with their flag set, role
      rows of its spaces under their API names, and members of its assemblies, which carry no invitation. */
  lemma ListedRoles(w: World, t: Tables, v: RoleView)
    ensures var invitation := if v.userId in t.users then t.users[v.userId].invitation else None;
            v in Views(w, t) <==>
              match v.resource
              case Organization =>
                && v.kind == GeneralAdmin && v.resourceId == w.organization && v.invitedAt == None
                && v.userId in t.users && t.users[v.userId].organization == w.organization && t.users[v.userId].admin
              case Process =>
                v.invitedAt == invitation && InTable(w.processes, w.organization, t.processRoles, v)
              case Assembly =>
                || (v.invitedAt == invitation && InTable(w.assemblies, w.organization, t.assemblyRoles, v))
                || (v.invitedAt == None && v.kind == SpacePrivateMember && w.hasMembers
                    && Member(v.resourceId, v.userId) in t.members
                    && v.resourceId in w.assemblies && w.assemblies[v.resourceId] == w.organization)
              case Conference =>
                w.hasConferences && v.invitedAt == invitation
                && InTable(w.conferences, w.organization, t.conferenceRoles, v)
  {
    RowsListed(w, t, Process, w.processes, t.processRoles, v);
    RowsListed(w, t, Assembly, w.assemblies, t.assemblyRoles, v);
    RowsListed(w, t, Conference, w.conferences, t.conferenceRoles, v);
    MembersListed(w, t, v);
    AdminsListed(w, t, v);
    hide RowViews, MemberViews, AdminViews, InTable;
  }

  lemma RowsListed(w: World, t: Tables, resource: Resource, spaces: map<int, int>, rows: set<Row>, v: RoleView)
    ensures v in RowViews(w, t, resource, spaces, rows)
       <==> && v.resource == resource && InTable(spaces, w.organization, rows, v)
            && v.invitedAt == if v.userId in t.users then t.users[v.userId].invitation else None
  {
    if v.resource == resource && InTable(spaces, w.organization, rows, v)
       && v.invitedAt == (if v.userId in t.users then t.users[v.userId].invitation else None) {
      var row :| row in rows && row.space == v.resourceId && row.user == v.userId && Called(row.role, v.kind);
      assert row in Owned(w, spaces, rows) && RowView(t, resource, row) == v;
    }
  }

  lemma MembersListed(w: World, t: Tables, v: RoleView)
    ensures v in MemberViews(w, t)
       <==> && v.resource == Assembly && v.invitedAt == None && v.kind == SpacePrivateMember
            && Member(v.resourceId, v.userId) in t.members
            && v.resourceId in w.assemblies && w.assemblies[v.resourceId] == w.organization
  {
    if v.resource == Assembly && v.invitedAt == None && v.kind == SpacePrivateMember
       && Member(v.resourceId, v.userId) in t.members
       && v.resourceId in w.assemblies && w.assemblies[v.resourceId] == w.organization {
      assert MemberView(Member(v.resourceId, v.userId)) == v;
    }
  }

  lemma AdminsListed(w: World, t: Tables, v: RoleView)
    ensures v in AdminViews(w, t)
       <==> && v.resource == Organization && v.kind == GeneralAdmin && v.resourceId == w.organization
            && v.invitedAt == None && v.userId in t.users
            && t.users[v.userId].organization == w.organization && t.users[v.userId].admin
  {
    if v.resource == Organization && v.kind == GeneralAdmin && v.resourceId == w.organization
       && v.invitedAt == None && v.userId in t.users
       && t.users[v.userId].organization == w.organization && t.users[v.userId].admin {
      assert AdminView(w, v.userId) == v;
    }
  }

  /** The aggregate is the plain set: a view for each tuple that holds, and no other. */
  lemma ViewsArePlainSet(w: World, t: Tables, x: Tuple)
    requires ValidTables(w, t)
    ensures Holds(w, t, x) <==> ViewOf(w, t, x) in Views(w, t)
    ensures Holds(w, t, x) <==> x in Tuples(w, t)
  {
    if Holds(w, t, x) {
      HeldIsViewed(w, t, x);
      assert TupleOf(ViewOf(w, t, x)) == x;
    }
    if x in Tuples(w, t) {
      var v :| v in Views(w, t) && TupleOf(v) == x;
      ViewedIsHeld(w, t, v);
    }
    if ViewOf(w, t, x) in Views(w, t) {
      ViewedIsHeld(w, t, ViewOf(w, t, x));
    }
  }

  lemma HeldIsViewed(w: World, t: Tables, x: Tuple)
    requires ValidTables(w, t) && Holds(w, t, x)
    ensures ViewOf(w, t, x) in Views(w, t)
  {
    match x.resource
    case Organization =>
      assert ViewOf(w, t, x) == AdminView(w, x.userId);
    case Assembly =>
      if x.kind == SpacePrivateMember && w.hasMembers {
        assert ViewOf(w, t, x) == MemberView(Member(x.resourceId, x.userId));
      } else {
        var row := Row(x.resourceId, x.userId, w.DecidimRole(x.kind).value);
        assert row in Owned(w, w.assemblies, t.assemblyRoles) && ViewOf(w, t, x) == RowView(t, Assembly, row);
      }
    case Process =>
      var row := Row(x.resourceId, x.userId, w.DecidimRole(x.kind).value);
      assert row in Owned(w, w.processes, t.processRoles) && ViewOf(w, t, x) == RowView(t, Process, row);
    case Conference =>
      var row := Row(x.resourceId, x.userId, w.DecidimRole(x.kind).value);
      assert row in Owned(w, w.conferences, t.conferenceRoles) && ViewOf(w, t, x) == RowView(t, Conference, row);
  }

  lemma ViewedIsHeld(w: World, t: Tables, v: RoleView)
    requires ValidTables(w, t) && v in Views(w, t)
    ensures Holds(w, t, TupleOf(v))
    ensures v == ViewOf(w, t, TupleOf(v))
  {
  }

  /** Reading the tables tells the whole set. */
  lemma TuplesByHolds(w: World, t: Tables, s: set<Tuple>)
    requires ValidTables(w, t)
    requires forall x :: Holds(w, t, x) <==> x in s
    ensures Tuples(w, t) == s
  {
    forall x ensures x in Tuples(w, t) <==> x in s {
      ViewsArePlainSet(w, t, x);
    }
  }
}
