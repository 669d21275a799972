/**
 * The Convex database the library runs against: one table per document
 * kind, each a sequence of rows in creation order, and the primitive
 * writes `ctx.db.insert`, `ctx.db.patch` and `ctx.db.delete`.
 *
 * Every handler of the library is one Convex transaction over this store.
 */
module Store {
  import opened Wrappers
  import opened Roles
  import opened Validation
  import opened Seqs

  // ---------------------------------------------------------------- rows

  datatype User = User(id: Id, name: Option<string>, defaultDataInitialized: bool)

  datatype Workspace = Workspace(id: Id, name: string, personal: bool, ownerId: Id)

  /** A row of `memberships`: the user's role inside one workspace. */
  datatype Membership = Membership(id: Id, workspaceId: Id, userId: Id, userRole: Role)

  /** A row of `entities`: something owned by one home workspace. */
  datatype Entity = Entity(id: Id, workspaceId: Id)

  /** A row of `entityAccess`: the entity is shared into `workspaceId` at `accessLevel`. */
  datatype Grant = Grant(id: Id, workspaceId: Id, entityId: Id, accessLevel: Role)

  datatype Project = Project(id: Id, name: string, description: Option<string>, workspaceId: Id, ownerId: Id)

  /** A row of the older `workspaceUsers` table, the predecessor of `memberships`. */
  datatype WorkspaceUser = WorkspaceUser(id: Id, workspaceId: Id, userId: Id, userRole: Role)

  /** A row of `workspaceProjects`: a project linked into a workspace at `accessLevel`. */
  datatype WorkspaceProject = WorkspaceProject(id: Id, workspaceId: Id, projectId: Id, accessLevel: Role)

  /**
   * A row of `documents`. The documents schema has no `projectId` field, so
   * the field is optional and absent on every document the schema admits.
   */
  datatype Document = Document(id: Id, projectId: Option<Id>)

  /** A row of `reports`: the project it belongs to and the user who wrote it. */
  datatype Report = Report(id: Id, projectId: Id, authorId: Id)

  function UserKey(u: User): Id { u.id }
  function WorkspaceKey(w: Workspace): Id { w.id }
  function MembershipKey(m: Membership): Id { m.id }
  function EntityKey(e: Entity): Id { e.id }
  function GrantKey(g: Grant): Id { g.id }
  function ProjectKey(p: Project): Id { p.id }
  function WorkspaceUserKey(w: WorkspaceUser): Id { w.id }
  function WorkspaceProjectKey(l: WorkspaceProject): Id { l.id }
  function DocumentKey(d: Document): Id { d.id }
  function ReportKey(r: Report): Id { r.id }

  /** The contents of every table at one moment, and the next id the store hands out. */
  datatype Snapshot = Snapshot(
    users: seq<User>,
    workspaces: seq<Workspace>,
    memberships: seq<Membership>,
    entities: seq<Entity>,
    grants: seq<Grant>,
    projects: seq<Project>,
    workspaceUsers: seq<WorkspaceUser>,
    workspaceProjects: seq<WorkspaceProject>,
    documents: seq<Document>,
    reports: seq<Report>,
    nextId: Id)
  {
    /** Ids are unique within a table and all below `nextId`, so a fresh id collides with nothing. */
    ghost predicate WellFormed()
    {
      && KeyedById(users, UserKey) && IdsBelow(users, UserKey, nextId)
      && KeyedById(workspaces, WorkspaceKey) && IdsBelow(workspaces, WorkspaceKey, nextId)
      && KeyedById(memberships, MembershipKey) && IdsBelow(memberships, MembershipKey, nextId)
      && KeyedById(entities, EntityKey) && IdsBelow(entities, EntityKey, nextId)
      && KeyedById(grants, GrantKey) && IdsBelow(grants, GrantKey, nextId)
      && KeyedById(projects, ProjectKey) && IdsBelow(projects, ProjectKey, nextId)
      && KeyedById(workspaceUsers, WorkspaceUserKey) && IdsBelow(workspaceUsers, WorkspaceUserKey, nextId)
      && KeyedById(workspaceProjects, WorkspaceProjectKey) && IdsBelow(workspaceProjects, WorkspaceProjectKey, nextId)
      && KeyedById(documents, DocumentKey) && IdsBelow(documents, DocumentKey, nextId)
      && KeyedById(reports, ReportKey) && IdsBelow(reports, ReportKey, nextId)
    }
  }

  /** The text the database's own error carries when a write targets a missing document. */
  function MissingDocument(id: Id): (msg: string)
    ensures |msg| > 0
  {
    "Delete on nonexistent document ID " + IdText(id)
  }

  /** The text the database's own error carries when a patch targets a missing document. */
  function MissingPatchTarget(id: Id): (msg: string)
    ensures |msg| > 0
  {
    "Update on nonexistent document ID " + IdText(id)
  }

  /** What the library's callbacks were invoked with; their bodies belong to the host application. */
  datatype Event =
    | EntityRemoved(entityId: Id)              // onEntityRemoved
    | WorkspaceRemoved(entityIds: seq<Id>)     // onWorkspaceRemoved
    | WorkspaceDeleting(workspaceId: Id)       // onWorkspaceDelete of the older API
    | ProjectDeleting(projectId: Id)           // onProjectDelete

  /** Appending a row with a fresh id keeps a table keyed and bounded by the next id. */
  lemma AppendFresh<T(!new)>(rows: seq<T>, idOf: T -> Id, x: T, bound: Id)
    requires KeyedById(rows, idOf) && IdsBelow(rows, idOf, bound) && idOf(x) == bound
    ensures KeyedById(rows + [x], idOf) && IdsBelow(rows + [x], idOf, bound + 1)
  {
    forall y | y in rows + [x] && y != x ensures y in rows {
      assert y in rows || y == x;
    }
  }

  /** Replacing rows with id-preserving updates keeps a table keyed and bounded. */
  lemma UpdateKeeps<T(!new)>(rows: seq<T>, idOf: T -> Id, id: Id, f: T -> T, bound: Id)
    requires KeyedById(rows, idOf) && IdsBelow(rows, idOf, bound)
    requires forall x :: idOf(f(x)) == idOf(x)
    ensures KeyedById(Update(rows, idOf, id, f), idOf) && IdsBelow(Update(rows, idOf, id, f), idOf, bound)
  {
    var r := Update(rows, idOf, id, f);
    forall x, y | x in r && y in r && idOf(x) == idOf(y) ensures x == y {
      var i :| 0 <= i < |r| && r[i] == x;
      var j :| 0 <= j < |r| && r[j] == y;
      assert idOf(rows[i]) == idOf(rows[j]);
    }
  }

  /**
   * The database. Each method is one primitive write; a handler is a
   * sequence of them inside one transaction.
   */
  class Store {
    var users: seq<User>
    var workspaces: seq<Workspace>
    var memberships: seq<Membership>
    var entities: seq<Entity>
    var grants: seq<Grant>
    var projects: seq<Project>
    var workspaceUsers: seq<WorkspaceUser>
    var workspaceProjects: seq<WorkspaceProject>
    var documents: seq<Document>
    var reports: seq<Report>
    var nextId: Id
    /** Every callback invocation so far, oldest first. */
    ghost var events: seq<Event>

    function State(): Snapshot
      reads this
    {
      Snapshot(users, workspaces, memberships, entities, grants, projects,
               workspaceUsers, workspaceProjects, documents, reports, nextId)
    }

    /** An empty database. */
    constructor ()
      ensures State() == Snapshot([], [], [], [], [], [], [], [], [], [], 0)
      ensures State().WellFormed()
      ensures events == []
    {
      users, workspaces, memberships, entities, grants := [], [], [], [], [];
      projects, workspaceUsers, workspaceProjects, documents, reports := [], [], [], [], [];
      nextId := 0;
      events := [];
    }

    /** A transaction that throws is rolled back: every table returns to what it was. */
    method Rollback(saved: Snapshot, ghost savedEvents: seq<Event>)
      modifies this
      ensures State() == saved && events == savedEvents
    {
      users, workspaces, memberships, entities, grants := saved.users, saved.workspaces, saved.memberships, saved.entities, saved.grants;
      projects, workspaceUsers, workspaceProjects := saved.projects, saved.workspaceUsers, saved.workspaceProjects;
      documents, reports, nextId := saved.documents, saved.reports, saved.nextId;
      events := savedEvents;
    }

    // ------------------------------------------------------------ inserts

    method InsertWorkspace(name: string, personal: bool, ownerId: Id) returns (id: Id)
      modifies this
      ensures id == old(nextId)
      ensures State() == old(State()).(workspaces := old(workspaces) + [Workspace(id, name, personal, ownerId)], nextId := id + 1)
      ensures old(State()).WellFormed() ==> State().WellFormed()
      ensures events == old(events)
    {
      id := nextId;
      if State().WellFormed() {
        AppendFresh(workspaces, WorkspaceKey, Workspace(id, name, personal, ownerId), id);
      }
      workspaces := workspaces + [Workspace(id, name, personal, ownerId)];
      nextId := nextId + 1;
    }

    method InsertMembership(workspaceId: Id, userId: Id, userRole: Role) returns (id: Id)
      modifies this
      ensures id == old(nextId)
      ensures State() == old(State()).(memberships := old(memberships) + [Membership(id, workspaceId, userId, userRole)], nextId := id + 1)
      ensures old(State()).WellFormed() ==> State().WellFormed()
      ensures events == old(events)
    {
      id := nextId;
      if State().WellFormed() {
        AppendFresh(memberships, MembershipKey, Membership(id, workspaceId, userId, userRole), id);
      }
      memberships := memberships + [Membership(id, workspaceId, userId, userRole)];
      nextId := nextId + 1;
    }

    method InsertEntity(workspaceId: Id) returns (id: Id)
      modifies this
      ensures id == old(nextId)
      ensures State() == old(State()).(entities := old(entities) + [Entity(id, workspaceId)], nextId := id + 1)
      ensures old(State()).WellFormed() ==> State().WellFormed()
      ensures events == old(events)
    {
      id := nextId;
      if State().WellFormed() {
        AppendFresh(entities, EntityKey, Entity(id, workspaceId), id);
      }
      entities := entities + [Entity(id, workspaceId)];
      nextId := nextId + 1;
    }

    method InsertGrant(workspaceId: Id, entityId: Id, accessLevel: Role) returns (id: Id)
      modifies this
      ensures id == old(nextId)
      ensures State() == old(State()).(grants := old(grants) + [Grant(id, workspaceId, entityId, accessLevel)], nextId := id + 1)
      ensures old(State()).WellFormed() ==> State().WellFormed()
      ensures events == old(events)
    {
      id := nextId;
      if State().WellFormed() {
        AppendFresh(grants, GrantKey, Grant(id, workspaceId, entityId, accessLevel), id);
      }
      grants := grants + [Grant(id, workspaceId, entityId, accessLevel)];
      nextId := nextId + 1;
    }

    method InsertProject(name: string, description: Option<string>, workspaceId: Id, ownerId: Id) returns (id: Id)
      modifies this
      ensures id == old(nextId)
      ensures State() == old(State()).(projects := old(projects) + [Project(id, name, description, workspaceId, ownerId)], nextId := id + 1)
      ensures old(State()).WellFormed() ==> State().WellFormed()
      ensures events == old(events)
    {
      id := nextId;
      if State().WellFormed() {
        AppendFresh(projects, ProjectKey, Project(id, name, description, workspaceId, ownerId), id);
      }
      projects := projects + [Project(id, name, description, workspaceId, ownerId)];
      nextId := nextId + 1;
    }

    method InsertWorkspaceUser(workspaceId: Id, userId: Id, userRole: Role) returns (id: Id)
      modifies this
      ensures id == old(nextId)
      ensures State() == old(State()).(workspaceUsers := old(workspaceUsers) + [WorkspaceUser(id, workspaceId, userId, userRole)], nextId := id + 1)
      ensures old(State()).WellFormed() ==> State().WellFormed()
      ensures events == old(events)
    {
      id := nextId;
      if State().WellFormed() {
        AppendFresh(workspaceUsers, WorkspaceUserKey, WorkspaceUser(id, workspaceId, userId, userRole), id);
      }
      workspaceUsers := workspaceUsers + [WorkspaceUser(id, workspaceId, userId, userRole)];
      nextId := nextId + 1;
    }

    method InsertWorkspaceProject(workspaceId: Id, projectId: Id, accessLevel: Role) returns (id: Id)
      modifies this
      ensures id == old(nextId)
      ensures State() == old(State()).(workspaceProjects := old(workspaceProjects) + [WorkspaceProject(id, workspaceId, projectId, accessLevel)], nextId := id + 1)
      ensures old(State()).WellFormed() ==> State().WellFormed()
      ensures events == old(events)
    {
      id := nextId;
      if State().WellFormed() {
        AppendFresh(workspaceProjects, WorkspaceProjectKey, WorkspaceProject(id, workspaceId, projectId, accessLevel), id);
      }
      workspaceProjects := workspaceProjects + [WorkspaceProject(id, workspaceId, projectId, accessLevel)];
      nextId := nextId + 1;
    }

    // ------------------------------------------------------------ patches

    /** Patch `name` of workspace `id`; `found` is false (and nothing changes) when there is no such row. */
    method PatchWorkspaceName(id: Id, name: string) returns (found: bool)
      modifies this
      ensures found <==> exists w :: w in old(workspaces) && w.id == id
      ensures State() == old(State()).(workspaces := RenameWorkspace(old(workspaces), id, name))
      ensures old(State()).WellFormed() ==> State().WellFormed()
      ensures events == old(events)
    {
      found := Lookup(workspaces, WorkspaceKey, id).Some?;
      if State().WellFormed() {
        UpdateKeeps(workspaces, WorkspaceKey, id, (w: Workspace) => w.(name := name), nextId);
      }
      workspaces := RenameWorkspace(workspaces, id, name);
    }

    /** Patch `userRole` of membership `id`. */
    method PatchMembershipRole(id: Id, userRole: Role) returns (found: bool)
      modifies this
      ensures found <==> exists m :: m in old(memberships) && m.id == id
      ensures State() == old(State()).(memberships := SetMembershipRole(old(memberships), id, userRole))
      ensures old(State()).WellFormed() ==> State().WellFormed()
      ensures events == old(events)
    {
      found := Lookup(memberships, MembershipKey, id).Some?;
      if State().WellFormed() {
        UpdateKeeps(memberships, MembershipKey, id, (m: Membership) => m.(userRole := userRole), nextId);
      }
      memberships := SetMembershipRole(memberships, id, userRole);
    }

    /** Patch `accessLevel` of grant `id`. */
    method PatchGrantLevel(id: Id, accessLevel: Role) returns (found: bool)
      modifies this
      ensures found <==> exists g :: g in old(grants) && g.id == id
      ensures State() == old(State()).(grants := SetGrantLevel(old(grants), id, accessLevel))
      ensures old(State()).WellFormed() ==> State().WellFormed()
      ensures events == old(events)
    {
      found := Lookup(grants, GrantKey, id).Some?;
      if State().WellFormed() {
        UpdateKeeps(grants, GrantKey, id, (g: Grant) => g.(accessLevel := accessLevel), nextId);
      }
      grants := SetGrantLevel(grants, id, accessLevel);
    }

    /** Patch `defaultDataInitialized := true` on user `id`. */
    method PatchUserInitialized(id: Id) returns (found: bool)
      modifies this
      ensures found <==> exists u :: u in old(users) && u.id == id
      ensures State() == old(State()).(users := MarkInitialized(old(users), id))
      ensures old(State()).WellFormed() ==> State().WellFormed()
      ensures events == old(events)
    {
      found := Lookup(users, UserKey, id).Some?;
      if State().WellFormed() {
        UpdateKeeps(users, UserKey, id, (u: User) => u.(defaultDataInitialized := true), nextId);
      }
      users := MarkInitialized(users, id);
    }

    // ------------------------------------------------------------ deletes

    /** Delete user `id`; `found` is false (and nothing changes) when there is no such row. */
    method DeleteUser(id: Id) returns (found: bool)
      modifies this
      ensures found <==> exists x :: x in old(users) && x.id == id
      ensures State() == old(State()).(users := Without(old(users), UserKey, {id}))
      ensures old(State()).WellFormed() ==> State().WellFormed()
      ensures events == old(events)
    {
      found := Lookup(users, UserKey, id).Some?;
      if State().WellFormed() {
        WithoutKeeps(users, UserKey, {id}, nextId);
      }
      users := Without(users, UserKey, {id});
    }

    /** Delete the listed rows one after another, as the library's deletion loops do. */
    method DeleteUserRows(rows: seq<User>)
      modifies this
      ensures State() == old(State()).(users := Without(old(users), UserKey, IdSet(rows, UserKey)))
      ensures old(State()).WellFormed() ==> State().WellFormed()
      ensures events == old(events)
    {
      assert rows[..0] == [];
      assert IdSet(rows[..0], UserKey) == {};
      WithoutNothing(users, UserKey, {});
      for i := 0 to |rows|
        invariant State() == old(State()).(users := Without(old(users), UserKey, IdSet(rows[..i], UserKey)))
        invariant old(State()).WellFormed() ==> State().WellFormed()
        invariant events == old(events)
      {
        IdSetSnoc(rows, UserKey, i);
        WithoutWithout(old(users), UserKey, IdSet(rows[..i], UserKey), {rows[i].id});
        var _ := DeleteUser(rows[i].id);
      }
      assert rows[..|rows|] == rows;
    }

    /** Delete workspace `id`; `found` is false (and nothing changes) when there is no such row. */
    method DeleteWorkspace(id: Id) returns (found: bool)
      modifies this
      ensures found <==> exists x :: x in old(workspaces) && x.id == id
      ensures State() == old(State()).(workspaces := Without(old(workspaces), WorkspaceKey, {id}))
      ensures old(State()).WellFormed() ==> State().WellFormed()
      ensures events == old(events)
    {
      found := Lookup(workspaces, WorkspaceKey, id).Some?;
      if State().WellFormed() {
        WithoutKeeps(workspaces, WorkspaceKey, {id}, nextId);
      }
      workspaces := Without(workspaces, WorkspaceKey, {id});
    }

    /** Delete the listed rows one after another, as the library's deletion loops do. */
    method DeleteWorkspaceRows(rows: seq<Workspace>)
      modifies this
      ensures State() == old(State()).(workspaces := Without(old(workspaces), WorkspaceKey, IdSet(rows, WorkspaceKey)))
      ensures old(State()).WellFormed() ==> State().WellFormed()
      ensures events == old(events)
    {
      assert rows[..0] == [];
      assert IdSet(rows[..0], WorkspaceKey) == {};
      WithoutNothing(workspaces, WorkspaceKey, {});
      for i := 0 to |rows|
        invariant State() == old(State()).(workspaces := Without(old(workspaces), WorkspaceKey, IdSet(rows[..i], WorkspaceKey)))
        invariant old(State()).WellFormed() ==> State().WellFormed()
        invariant events == old(events)
      {
        IdSetSnoc(rows, WorkspaceKey, i);
        WithoutWithout(old(workspaces), WorkspaceKey, IdSet(rows[..i], WorkspaceKey), {rows[i].id});
        var _ := DeleteWorkspace(rows[i].id);
      }
      assert rows[..|rows|] == rows;
    }

    /** Delete membership `id`; `found` is false (and nothing changes) when there is no such row. */
    method DeleteMembership(id: Id) returns (found: bool)
      modifies this
      ensures found <==> exists x :: x in old(memberships) && x.id == id
      ensures State() == old(State()).(memberships := Without(old(memberships), MembershipKey, {id}))
      ensures old(State()).WellFormed() ==> State().WellFormed()
      ensures events == old(events)
    {
      found := Lookup(memberships, MembershipKey, id).Some?;
      if State().WellFormed() {
        WithoutKeeps(memberships, MembershipKey, {id}, nextId);
      }
      memberships := Without(memberships, MembershipKey, {id});
    }

    /** Delete the listed rows one after another, as the library's deletion loops do. */
    method DeleteMembershipRows(rows: seq<Membership>)
      modifies this
      ensures State() == old(State()).(memberships := Without(old(memberships), MembershipKey, IdSet(rows, MembershipKey)))
      ensures old(State()).WellFormed() ==> State().WellFormed()
      ensures events == old(events)
    {
      assert rows[..0] == [];
      assert IdSet(rows[..0], MembershipKey) == {};
      WithoutNothing(memberships, MembershipKey, {});
      for i := 0 to |rows|
        invariant State() == old(State()).(memberships := Without(old(memberships), MembershipKey, IdSet(rows[..i], MembershipKey)))
        invariant old(State()).WellFormed() ==> State().WellFormed()
        invariant events == old(events)
      {
        IdSetSnoc(rows, MembershipKey, i);
        WithoutWithout(old(memberships), MembershipKey, IdSet(rows[..i], MembershipKey), {rows[i].id});
        var _ := DeleteMembership(rows[i].id);
      }
      assert rows[..|rows|] == rows;
    }

    /** Delete entity `id`; `found` is false (and nothing changes) when there is no such row. */
    method DeleteEntity(id: Id) returns (found: bool)
      modifies this
      ensures found <==> exists x :: x in old(entities) && x.id == id
      ensures State() == old(State()).(entities := Without(old(entities), EntityKey, {id}))
      ensures old(State()).WellFormed() ==> State().WellFormed()
      ensures events == old(events)
    {
      found := Lookup(entities, EntityKey, id).Some?;
      if State().WellFormed() {
        WithoutKeeps(entities, EntityKey, {id}, nextId);
      }
      entities := Without(entities, EntityKey, {id});
    }

    /** Delete the listed rows one after another, as the library's deletion loops do. */
    method DeleteEntityRows(rows: seq<Entity>)
      modifies this
      ensures State() == old(State()).(entities := Without(old(entities), EntityKey, IdSet(rows, EntityKey)))
      ensures old(State()).WellFormed() ==> State().WellFormed()
      ensures events == old(events)
    {
      assert rows[..0] == [];
      assert IdSet(rows[..0], EntityKey) == {};
      WithoutNothing(entities, EntityKey, {});
      for i := 0 to |rows|
        invariant State() == old(State()).(entities := Without(old(entities), EntityKey, IdSet(rows[..i], EntityKey)))
        invariant old(State()).WellFormed() ==> State().WellFormed()
        invariant events == old(events)
      {
        IdSetSnoc(rows, EntityKey, i);
        WithoutWithout(old(entities), EntityKey, IdSet(rows[..i], EntityKey), {rows[i].id});
        var _ := DeleteEntity(rows[i].id);
      }
      assert rows[..|rows|] == rows;
    }

    /** Delete grant `id`; `found` is false (and nothing changes) when there is no such row. */
    method DeleteGrant(id: Id) returns (found: bool)
      modifies this
      ensures found <==> exists x :: x in old(grants) && x.id == id
      ensures State() == old(State()).(grants := Without(old(grants), GrantKey, {id}))
      ensures old(State()).WellFormed() ==> State().WellFormed()
      ensures events == old(events)
    {
      found := Lookup(grants, GrantKey, id).Some?;
      if State().WellFormed() {
        WithoutKeeps(grants, GrantKey, {id}, nextId);
      }
      grants := Without(grants, GrantKey, {id});
    }

    /** Delete the listed rows one after another, as the library's deletion loops do. */
    method DeleteGrantRows(rows: seq<Grant>)
      modifies this
      ensures State() == old(State()).(grants := Without(old(grants), GrantKey, IdSet(rows, GrantKey)))
      ensures old(State()).WellFormed() ==> State().WellFormed()
      ensures events == old(events)
    {
      assert rows[..0] == [];
      assert IdSet(rows[..0], GrantKey) == {};
      WithoutNothing(grants, GrantKey, {});
      for i := 0 to |rows|
        invariant State() == old(State()).(grants := Without(old(grants), GrantKey, IdSet(rows[..i], GrantKey)))
        invariant old(State()).WellFormed() ==> State().WellFormed()
        invariant events == old(events)
      {
        IdSetSnoc(rows, GrantKey, i);
        WithoutWithout(old(grants), GrantKey, IdSet(rows[..i], GrantKey), {rows[i].id});
        var _ := DeleteGrant(rows[i].id);
      }
      assert rows[..|rows|] == rows;
    }

    /** Delete project `id`; `found` is false (and nothing changes) when there is no such row. */
    method DeleteProject(id: Id) returns (found: bool)
      modifies this
      ensures found <==> exists x :: x in old(projects) && x.id == id
      ensures State() == old(State()).(projects := Without(old(projects), ProjectKey, {id}))
      ensures old(State()).WellFormed() ==> State().WellFormed()
      ensures events == old(events)
    {
      found := Lookup(projects, ProjectKey, id).Some?;
      if State().WellFormed() {
        WithoutKeeps(projects, ProjectKey, {id}, nextId);
      }
      projects := Without(projects, ProjectKey, {id});
    }

    /** Delete the listed rows one after another, as the library's deletion loops do. */
    method DeleteProjectRows(rows: seq<Project>)
      modifies this
      ensures State() == old(State()).(projects := Without(old(projects), ProjectKey, IdSet(rows, ProjectKey)))
      ensures old(State()).WellFormed() ==> State().WellFormed()
      ensures events == old(events)
    {
      assert rows[..0] == [];
      assert IdSet(rows[..0], ProjectKey) == {};
      WithoutNothing(projects, ProjectKey, {});
      for i := 0 to |rows|
        invariant State() == old(State()).(projects := Without(old(projects), ProjectKey, IdSet(rows[..i], ProjectKey)))
        invariant old(State()).WellFormed() ==> State().WellFormed()
        invariant events == old(events)
      {
        IdSetSnoc(rows, ProjectKey, i);
        WithoutWithout(old(projects), ProjectKey, IdSet(rows[..i], ProjectKey), {rows[i].id});
        var _ := DeleteProject(rows[i].id);
      }
      assert rows[..|rows|] == rows;
    }

    /** Delete WorkspaceUser `id`; `found` is false (and nothing changes) when there is no such row. */
    method DeleteWorkspaceUser(id: Id) returns (found: bool)
      modifies this
      ensures found <==> exists x :: x in old(workspaceUsers) && x.id == id
      ensures State() == old(State()).(workspaceUsers := Without(old(workspaceUsers), WorkspaceUserKey, {id}))
      ensures old(State()).WellFormed() ==> State().WellFormed()
      ensures events == old(events)
    {
      found := Lookup(workspaceUsers, WorkspaceUserKey, id).Some?;
      if State().WellFormed() {
        WithoutKeeps(workspaceUsers, WorkspaceUserKey, {id}, nextId);
      }
      workspaceUsers := Without(workspaceUsers, WorkspaceUserKey, {id});
    }

    /** Delete the listed rows one after another, as the library's deletion loops do. */
    method DeleteWorkspaceUserRows(rows: seq<WorkspaceUser>)
      modifies this
      ensures State() == old(State()).(workspaceUsers := Without(old(workspaceUsers), WorkspaceUserKey, IdSet(rows, WorkspaceUserKey)))
      ensures old(State()).WellFormed() ==> State().WellFormed()
      ensures events == old(events)
    {
      assert rows[..0] == [];
      assert IdSet(rows[..0], WorkspaceUserKey) == {};
      WithoutNothing(workspaceUsers, WorkspaceUserKey, {});
      for i := 0 to |rows|
        invariant State() == old(State()).(workspaceUsers := Without(old(workspaceUsers), WorkspaceUserKey, IdSet(rows[..i], WorkspaceUserKey)))
        invariant old(State()).WellFormed() ==> State().WellFormed()
        invariant events == old(events)
      {
        IdSetSnoc(rows, WorkspaceUserKey, i);
        WithoutWithout(old(workspaceUsers), WorkspaceUserKey, IdSet(rows[..i], WorkspaceUserKey), {rows[i].id});
        var _ := DeleteWorkspaceUser(rows[i].id);
      }
      assert rows[..|rows|] == rows;
    }

    /** Delete WorkspaceProject `id`; `found` is false (and nothing changes) when there is no such row. */
    method DeleteWorkspaceProject(id: Id) returns (found: bool)
      modifies this
      ensures found <==> exists x :: x in old(workspaceProjects) && x.id == id
      ensures State() == old(State()).(workspaceProjects := Without(old(workspaceProjects), WorkspaceProjectKey, {id}))
      ensures old(State()).WellFormed() ==> State().WellFormed()
      ensures events == old(events)
    {
      found := Lookup(workspaceProjects, WorkspaceProjectKey, id).Some?;
      if State().WellFormed() {
        WithoutKeeps(workspaceProjects, WorkspaceProjectKey, {id}, nextId);
      }
      workspaceProjects := Without(workspaceProjects, WorkspaceProjectKey, {id});
    }

    /** Delete the listed rows one after another, as the library's deletion loops do. */
    method DeleteWorkspaceProjectRows(rows: seq<WorkspaceProject>)
      modifies this
      ensures State() == old(State()).(workspaceProjects := Without(old(workspaceProjects), WorkspaceProjectKey, IdSet(rows, WorkspaceProjectKey)))
      ensures old(State()).WellFormed() ==> State().WellFormed()
      ensures events == old(events)
    {
      assert rows[..0] == [];
      assert IdSet(rows[..0], WorkspaceProjectKey) == {};
      WithoutNothing(workspaceProjects, WorkspaceProjectKey, {});
      for i := 0 to |rows|
        invariant State() == old(State()).(workspaceProjects := Without(old(workspaceProjects), WorkspaceProjectKey, IdSet(rows[..i], WorkspaceProjectKey)))
        invariant old(State()).WellFormed() ==> State().WellFormed()
        invariant events == old(events)
      {
        IdSetSnoc(rows, WorkspaceProjectKey, i);
        WithoutWithout(old(workspaceProjects), WorkspaceProjectKey, IdSet(rows[..i], WorkspaceProjectKey), {rows[i].id});
        var _ := DeleteWorkspaceProject(rows[i].id);
      }
      assert rows[..|rows|] == rows;
    }

    /** Delete document `id`; `found` is false (and nothing changes) when there is no such row. */
    method DeleteDocument(id: Id) returns (found: bool)
      modifies this
      ensures found <==> exists x :: x in old(documents) && x.id == id
      ensures State() == old(State()).(documents := Without(old(documents), DocumentKey, {id}))
      ensures old(State()).WellFormed() ==> State().WellFormed()
      ensures events == old(events)
    {
      found := Lookup(documents, DocumentKey, id).Some?;
      if State().WellFormed() {
        WithoutKeeps(documents, DocumentKey, {id}, nextId);
      }
      documents := Without(documents, DocumentKey, {id});
    }

    /** Delete the listed rows one after another, as the library's deletion loops do. */
    method DeleteDocumentRows(rows: seq<Document>)
      modifies this
      ensures State() == old(State()).(documents := Without(old(documents), DocumentKey, IdSet(rows, DocumentKey)))
      ensures old(State()).WellFormed() ==> State().WellFormed()
      ensures events == old(events)
    {
      assert rows[..0] == [];
      assert IdSet(rows[..0], DocumentKey) == {};
      WithoutNothing(documents, DocumentKey, {});
      for i := 0 to |rows|
        invariant State() == old(State()).(documents := Without(old(documents), DocumentKey, IdSet(rows[..i], DocumentKey)))
        invariant old(State()).WellFormed() ==> State().WellFormed()
        invariant events == old(events)
      {
        IdSetSnoc(rows, DocumentKey, i);
        WithoutWithout(old(documents), DocumentKey, IdSet(rows[..i], DocumentKey), {rows[i].id});
        var _ := DeleteDocument(rows[i].id);
      }
      assert rows[..|rows|] == rows;
    }

    /** Delete report `id`; `found` is false (and nothing changes) when there is no such row. */
    method DeleteReport(id: Id) returns (found: bool)
      modifies this
      ensures found <==> exists x :: x in old(reports) && x.id == id
      ensures State() == old(State()).(reports := Without(old(reports), ReportKey, {id}))
      ensures old(State()).WellFormed() ==> State().WellFormed()
      ensures events == old(events)
    {
      found := Lookup(reports, ReportKey, id).Some?;
      if State().WellFormed() {
        WithoutKeeps(reports, ReportKey, {id}, nextId);
      }
      reports := Without(reports, ReportKey, {id});
    }

    /** Delete the listed rows one after another, as the library's deletion loops do. */
    method DeleteReportRows(rows: seq<Report>)
      modifies this
      ensures State() == old(State()).(reports := Without(old(reports), ReportKey, IdSet(rows, ReportKey)))
      ensures old(State()).WellFormed() ==> State().WellFormed()
      ensures events == old(events)
    {
      assert rows[..0] == [];
      assert IdSet(rows[..0], ReportKey) == {};
      WithoutNothing(reports, ReportKey, {});
      for i := 0 to |rows|
        invariant State() == old(State()).(reports := Without(old(reports), ReportKey, IdSet(rows[..i], ReportKey)))
        invariant old(State()).WellFormed() ==> State().WellFormed()
        invariant events == old(events)
      {
        IdSetSnoc(rows, ReportKey, i);
        WithoutWithout(old(reports), ReportKey, IdSet(rows[..i], ReportKey), {rows[i].id});
        var _ := DeleteReport(rows[i].id);
      }
      assert rows[..|rows|] == rows;
    }
  }

  function RenameWorkspace(rows: seq<Workspace>, id: Id, name: string): (r: seq<Workspace>)
    ensures |r| == |rows|
    ensures forall i :: 0 <= i < |r| ==> r[i] == if rows[i].id == id then rows[i].(name := name) else rows[i]
  {
    Update(rows, WorkspaceKey, id, (w: Workspace) => w.(name := name))
  }

  function SetMembershipRole(rows: seq<Membership>, id: Id, userRole: Role): (r: seq<Membership>)
    ensures |r| == |rows|
    ensures forall i :: 0 <= i < |r| ==> r[i] == if rows[i].id == id then rows[i].(userRole := userRole) else rows[i]
  {
    Update(rows, MembershipKey, id, (m: Membership) => m.(userRole := userRole))
  }

  function SetGrantLevel(rows: seq<Grant>, id: Id, accessLevel: Role): (r: seq<Grant>)
    ensures |r| == |rows|
    ensures forall i :: 0 <= i < |r| ==> r[i] == if rows[i].id == id then rows[i].(accessLevel := accessLevel) else rows[i]
  {
    Update(rows, GrantKey, id, (g: Grant) => g.(accessLevel := accessLevel))
  }

  function MarkInitialized(rows: seq<User>, id: Id): (r: seq<User>)
    ensures |r| == |rows|
    ensures forall i :: 0 <= i < |r| ==> r[i] == if rows[i].id == id then rows[i].(defaultDataInitialized := true) else rows[i]
  {
    Update(rows, UserKey, id, (u: User) => u.(defaultDataInitialized := true))
  }
}
