/**
 * Projects of the older API: the mutations of src/projects/mutations.ts
 * (`createProject`, `shareProject` with its least-privilege role rule,
 * `assembleDeleteProject`) and the queries of src/projects/queries.ts.
 * A project is shared by linking it into the target user's personal
 * workspace through a `workspaceProjects` row.
 */
module Projects {
  import opened Wrappers
  import opened Roles
  import opened Validation
  import opened Seqs
  import opened Store
  import opened Queries
  import opened Personal

  const CannotCreateProjects := PermissionDenied("User does not have permission to create projects in this workspace")
  const NotInSourceWorkspace := PermissionDenied("Current user is not a member of the source workspace")
  const AlreadyShared := AlreadyExists("Project is already shared with this user")
  const ProjectNotFound := NotFound("Project not found")
  const CannotDeleteProject := PermissionDenied("User does not have permission to delete this project")

  // ---------------------------------------------------------------- share rule

  /**
   * The role `shareProject` grants: an admin sender passes on the requested
   * role, an editor passes it on unless admin is asked for, and everything
   * else becomes viewer.
   */
  function ShareRole(senderRole: Role, requested: Role): (r: Role)
    ensures HasRole(senderRole, r)
    ensures r == (if HasRole(senderRole, requested) then requested else Viewer)
  {
    if senderRole == Admin then requested
    else if senderRole == Editor && requested != Admin then requested
    else Viewer
  }

  /** A request within the sender's own role is granted as asked; any other request yields viewer. */
  lemma ShareRoleLeastPrivilege(senderRole: Role, requested: Role)
    ensures ShareRole(senderRole, requested) == requested <==> HasRole(senderRole, requested) || requested == Viewer
    ensures HasRole(ShareRole(senderRole, requested), Viewer)
    ensures HasRole(requested, ShareRole(senderRole, requested))
  {
  }

  /** The rule is not the meet: an editor asking for admin gets viewer, not editor. */
  lemma ShareRoleIsNotMin()
    ensures ShareRole(Editor, Admin) == Viewer
    ensures MinRole(Editor, Admin) == Editor
  {
  }

  // ---------------------------------------------------------------- create

  /** The guard of `createProject`: an admin or editor `workspaceUsers` row of the caller in the workspace. */
  function CreateProjectCheck(s: Snapshot, caller: Option<Id>, workspaceId: Id): (o: Outcome<Failure>)
    ensures o.Pass? <==> caller.Some? && WorkspaceUserOf(s, workspaceId, caller.value).Some? &&
                         WorkspaceUserOf(s, workspaceId, caller.value).value.userRole in {Admin, Editor}
    ensures caller.None? ==> o == Fail(MustAuthenticate)
    ensures caller.Some? && o.Fail? ==> o == Fail(CannotCreateProjects)
  {
    if caller.None? then Fail(MustAuthenticate)
    else
      var workspaceUser := WorkspaceUserOf(s, workspaceId, caller.value);
      if workspaceUser.None? || (workspaceUser.value.userRole != Admin && workspaceUser.value.userRole != Editor) then Fail(CannotCreateProjects)
      else Pass
  }

  /** The store after `createProject`: the project owned by the caller, then its admin link to the workspace. */
  function AfterProjectCreation(s: Snapshot, userId: Id, workspaceId: Id, name: string, description: Option<string>): (t: Snapshot)
    ensures t.projects == s.projects + [Project(s.nextId, name, description, workspaceId, userId)]
    ensures t.workspaceProjects == s.workspaceProjects + [WorkspaceProject(s.nextId + 1, workspaceId, s.nextId, Admin)]
    ensures t.nextId == s.nextId + 2
    ensures t.(projects := s.projects, workspaceProjects := s.workspaceProjects, nextId := s.nextId) == s
  {
    s.(projects := s.projects + [Project(s.nextId, name, description, workspaceId, userId)],
       workspaceProjects := s.workspaceProjects + [WorkspaceProject(s.nextId + 1, workspaceId, s.nextId, Admin)],
       nextId := s.nextId + 2)
  }

  /** The creation is the project insert followed by the link insert. */
  lemma AfterProjectCreationSteps(s: Snapshot, userId: Id, workspaceId: Id, name: string, description: Option<string>)
    ensures var inserted := s.(projects := s.projects + [Project(s.nextId, name, description, workspaceId, userId)], nextId := s.nextId + 1);
            AfterProjectCreation(s, userId, workspaceId, name, description) ==
              inserted.(workspaceProjects := inserted.workspaceProjects + [WorkspaceProject(inserted.nextId, workspaceId, s.nextId, Admin)], nextId := inserted.nextId + 1)
  {
  }

  /** `createProject`: the workspace itself is not looked up, only the caller's row in it. */
  method CreateProject(db: Store, caller: Option<Id>, workspaceId: Id, name: string, description: Option<string>) returns (r: Result<Id, Failure>)
    modifies db
    ensures CreateProjectCheck(old(db.State()), caller, workspaceId).Fail? ==>
              r == Failure(CreateProjectCheck(old(db.State()), caller, workspaceId).error) && db.State() == old(db.State())
    ensures CreateProjectCheck(old(db.State()), caller, workspaceId).Pass? ==>
              r == Success(old(db.nextId)) && db.State() == AfterProjectCreation(old(db.State()), caller.value, workspaceId, name, description)
    ensures old(db.State()).WellFormed() ==> db.State().WellFormed()
    ensures db.events == old(db.events)
  {
    var check := CreateProjectCheck(db.State(), caller, workspaceId);
    if check.Fail? {
      return Failure(check.error);
    }
    ghost var before := db.State();
    var projectId := db.InsertProject(name, description, workspaceId, caller.value);
    var _ := db.InsertWorkspaceProject(workspaceId, projectId, Admin);
    AfterProjectCreationSteps(before, caller.value, workspaceId, name, description);
    return Success(projectId);
  }

  // ---------------------------------------------------------------- share

  /** Where `shareProject` puts the link and at which level. */
  datatype ShareTarget = ShareTarget(workspaceId: Id, accessLevel: Role)

  /**
   * The guards of `shareProject` and the link they decide on: the caller's
   * row in the source workspace, the target's personal workspace, then no
   * existing link of the project there. The project itself is never read.
   */
  function ShareProjectCheck(s: Snapshot, caller: Option<Id>, sourceWorkspaceId: Id, projectId: Id, targetUserId: Id, targetUserRole: Role)
    : (r: Result<ShareTarget, Failure>)
    ensures caller.None? ==> r == Failure(MustAuthenticate)
    ensures caller.Some? && WorkspaceUserOf(s, sourceWorkspaceId, caller.value).None? ==> r == Failure(NotInSourceWorkspace)
    ensures caller.Some? && WorkspaceUserOf(s, sourceWorkspaceId, caller.value).Some? && RequirePersonalWorkspace(s, targetUserId).Failure? ==>
              r == Failure(PersonalMissing)
    ensures r.Success? <==>
              && caller.Some?
              && WorkspaceUserOf(s, sourceWorkspaceId, caller.value).Some?
              && RequirePersonalWorkspace(s, targetUserId).Success?
              && LinkForPair(s, projectId, RequirePersonalWorkspace(s, targetUserId).value.id).None?
    ensures caller.Some? && WorkspaceUserOf(s, sourceWorkspaceId, caller.value).Some? && RequirePersonalWorkspace(s, targetUserId).Success? ==>
              (r.Failure? ==> r.error == AlreadyShared)
    ensures r.Success? ==>
              && r.value.workspaceId == RequirePersonalWorkspace(s, targetUserId).value.id
              && r.value.accessLevel == ShareRole(WorkspaceUserOf(s, sourceWorkspaceId, caller.value).value.userRole, targetUserRole)
  {
    if caller.None? then Failure(MustAuthenticate)
    else
      var currentUserWorkspaceRole := WorkspaceUserOf(s, sourceWorkspaceId, caller.value);
      if currentUserWorkspaceRole.None? then Failure(NotInSourceWorkspace)
      else
        var effectiveRole := ShareRole(currentUserWorkspaceRole.value.userRole, targetUserRole);
        var targetPersonalWorkspace := RequirePersonalWorkspace(s, targetUserId);
        if targetPersonalWorkspace.Failure? then Failure(targetPersonalWorkspace.error)
        else if LinkForPair(s, projectId, targetPersonalWorkspace.value.id).Some? then Failure(AlreadyShared)
        else Success(ShareTarget(targetPersonalWorkspace.value.id, effectiveRole))
  }

  /** `shareProject`: on success one link with the computed level is appended and that level returned. */
  method ShareProject(db: Store, caller: Option<Id>, sourceWorkspaceId: Id, projectId: Id, targetUserId: Id, targetUserRole: Role)
    returns (r: Result<Role, Failure>)
    modifies db
    ensures ShareProjectCheck(old(db.State()), caller, sourceWorkspaceId, projectId, targetUserId, targetUserRole).Failure? ==>
              && r == Failure(ShareProjectCheck(old(db.State()), caller, sourceWorkspaceId, projectId, targetUserId, targetUserRole).error)
              && db.State() == old(db.State())
    ensures ShareProjectCheck(old(db.State()), caller, sourceWorkspaceId, projectId, targetUserId, targetUserRole).Success? ==>
              var target := ShareProjectCheck(old(db.State()), caller, sourceWorkspaceId, projectId, targetUserId, targetUserRole).value;
              && r == Success(target.accessLevel)
              && db.State() == old(db.State()).(
                   workspaceProjects := old(db.workspaceProjects) + [WorkspaceProject(old(db.nextId), target.workspaceId, projectId, target.accessLevel)],
                   nextId := old(db.nextId) + 1)
    ensures old(db.State()).WellFormed() ==> db.State().WellFormed()
    ensures db.events == old(db.events)
  {
    var check := ShareProjectCheck(db.State(), caller, sourceWorkspaceId, projectId, targetUserId, targetUserRole);
    if check.Failure? {
      return Failure(check.error);
    }
    var _ := db.InsertWorkspaceProject(check.value.workspaceId, projectId, check.value.accessLevel);
    return Success(check.value.accessLevel);
  }

  /** No two links join the same project to the same workspace. */
  predicate LinkPairsUnique(s: Snapshot)
  {
    forall a, b :: a in s.workspaceProjects && b in s.workspaceProjects && a.projectId == b.projectId && a.workspaceId == b.workspaceId ==> a == b
  }

  /** A successful share keeps (project, workspace) link pairs unique. */
  lemma ShareKeepsLinkPairsUnique(s: Snapshot, caller: Option<Id>, sourceWorkspaceId: Id, projectId: Id, targetUserId: Id, targetUserRole: Role)
    requires LinkPairsUnique(s)
    requires ShareProjectCheck(s, caller, sourceWorkspaceId, projectId, targetUserId, targetUserRole).Success?
    ensures var target := ShareProjectCheck(s, caller, sourceWorkspaceId, projectId, targetUserId, targetUserRole).value;
            LinkPairsUnique(s.(workspaceProjects := s.workspaceProjects + [WorkspaceProject(s.nextId, target.workspaceId, projectId, target.accessLevel)]))
  {
  }

  /**
   * The source workspace is never compared with the project's home, and the
   * project need not exist: a viewer of an unrelated workspace can link any
   * project id into someone's personal workspace.
   */
  lemma ShareIgnoresProjectHome()
    ensures var s := Snapshot([], [Workspace(1, "home", false, 8), Workspace(2, "other", false, 9), Workspace(3, "mine", true, 6)],
                              [], [], [], [Project(4, "p", None, 1, 8)], [WorkspaceUser(5, 2, 7, Viewer)], [], [], [], 10);
            && ShareProjectCheck(s, Some(7), 2, 4, 6, Admin) == Success(ShareTarget(3, Viewer))
            && ShareProjectCheck(s, Some(7), 2, 99, 6, Editor) == Success(ShareTarget(3, Viewer))
            && GetProject(s, 99).None?
  {
    var s := Snapshot([], [Workspace(1, "home", false, 8), Workspace(2, "other", false, 9), Workspace(3, "mine", true, 6)],
                      [], [], [], [Project(4, "p", None, 1, 8)], [WorkspaceUser(5, 2, 7, Viewer)], [], [], [], 10);
    assert WorkspaceUserOf(s, 2, 7) == Some(WorkspaceUser(5, 2, 7, Viewer));
    assert PersonalWorkspaceOf(s, 6) == Some(Workspace(3, "mine", true, 6));
    assert RequirePersonalWorkspace(s, 6) == Success(Workspace(3, "mine", true, 6));
    assert LinkForPair(s, 4, 3).None? && LinkForPair(s, 99, 3).None?;
    assert ShareRole(Viewer, Admin) == Viewer && ShareRole(Viewer, Editor) == Viewer;
  }

  // ---------------------------------------------------------------- delete

  /** The guards of `assembleDeleteProject`: the project, then an admin row in its workspace or ownership. */
  function DeleteProjectCheck(s: Snapshot, caller: Option<Id>, projectId: Id): (o: Outcome<Failure>)
    ensures o.Pass? <==>
              && caller.Some?
              && GetProject(s, projectId).Some?
              && ((WorkspaceUserOf(s, GetProject(s, projectId).value.workspaceId, caller.value).Some? &&
                   WorkspaceUserOf(s, GetProject(s, projectId).value.workspaceId, caller.value).value.userRole == Admin) ||
                  GetProject(s, projectId).value.ownerId == caller.value)
    ensures caller.None? ==> o == Fail(MustAuthenticate)
    ensures caller.Some? && GetProject(s, projectId).None? ==> o == Fail(ProjectNotFound)
    ensures caller.Some? && GetProject(s, projectId).Some? && o.Fail? ==> o == Fail(CannotDeleteProject)
  {
    if caller.None? then Fail(MustAuthenticate)
    else
      var project := GetProject(s, projectId);
      if project.None? then Fail(ProjectNotFound)
      else
        var workspaceRole := WorkspaceUserOf(s, project.value.workspaceId, caller.value);
        var canDelete := (workspaceRole.Some? && workspaceRole.value.userRole == Admin) || project.value.ownerId == caller.value;
        if !canDelete then Fail(CannotDeleteProject) else Pass
  }

  /** The store after `assembleDeleteProject`: every link of the project, then the project, are gone. */
  function AfterProjectDeletion(s: Snapshot, projectId: Id): Snapshot
  {
    s.(workspaceProjects := Without(s.workspaceProjects, WorkspaceProjectKey, IdSet(LinksOfProject(s, projectId), WorkspaceProjectKey)),
       projects := Without(s.projects, ProjectKey, {projectId}))
  }

  /** `assembleDeleteProject`, with `hasCallback` telling whether an `onProjectDelete` callback was supplied. */
  method DeleteProject(db: Store, caller: Option<Id>, projectId: Id, hasCallback: bool) returns (r: Outcome<Failure>)
    modifies db
    ensures r == DeleteProjectCheck(old(db.State()), caller, projectId)
    ensures r.Fail? ==> db.State() == old(db.State()) && db.events == old(db.events)
    ensures r.Pass? ==> db.State() == AfterProjectDeletion(old(db.State()), projectId)
    ensures r.Pass? ==> db.events == old(db.events) + (if hasCallback then [ProjectDeleting(projectId)] else [])
    ensures old(db.State()).WellFormed() ==> db.State().WellFormed()
  {
    r := DeleteProjectCheck(db.State(), caller, projectId);
    if r.Fail? {
      return;
    }
    var workspaceProjects := LinksOfProject(db.State(), projectId);
    db.DeleteWorkspaceProjectRows(workspaceProjects);
    if hasCallback {
      db.events := db.events + [ProjectDeleting(projectId)];
    }
    var _ := db.DeleteProject(projectId);
  }

  /**
   * In a well-formed store no link of the project survives and every other
   * link does; the project's documents and reports are left in place.
   */
  lemma ProjectDeletionExact(s: Snapshot, projectId: Id)
    requires s.WellFormed()
    ensures var t := AfterProjectDeletion(s, projectId);
            && (forall l :: l in t.workspaceProjects <==> l in s.workspaceProjects && l.projectId != projectId)
            && (forall p :: p in t.projects <==> p in s.projects && p.id != projectId)
            && t.documents == s.documents && t.reports == s.reports
  {
    WithoutListed(s.workspaceProjects, WorkspaceProjectKey, LinksOfProject(s, projectId));
  }

  // ---------------------------------------------------------------- queries

  /**
   * `getProjectRoleInternal`: null for a missing project; the caller's
   * `workspaceUsers` row in the project's workspace if there is one;
   * otherwise the level of the link into the caller's personal workspace,
   * which must exist.
   */
  function ProjectRole(s: Snapshot, userId: Id, projectId: Id): (r: Result<Option<Role>, Failure>)
    ensures GetProject(s, projectId).None? ==> r == Success(None)
    ensures GetProject(s, projectId).Some? && WorkspaceUserOf(s, GetProject(s, projectId).value.workspaceId, userId).Some? ==>
              r == Success(Some(WorkspaceUserOf(s, GetProject(s, projectId).value.workspaceId, userId).value.userRole))
    ensures r.Failure? <==>
              GetProject(s, projectId).Some? && WorkspaceUserOf(s, GetProject(s, projectId).value.workspaceId, userId).None? &&
              RequirePersonalWorkspace(s, userId).Failure?
    ensures r.Failure? ==> r.error == PersonalMissing
    ensures r.Success? && r.value.Some? && WorkspaceUserOf(s, GetProject(s, projectId).value.workspaceId, userId).None? ==>
              var link := LinkForPair(s, projectId, RequirePersonalWorkspace(s, userId).value.id);
              link.Some? && r.value.value == link.value.accessLevel
  {
    var project := GetProject(s, projectId);
    if project.None? then Success(None)
    else
      var workspaceRole := WorkspaceUserOf(s, project.value.workspaceId, userId);
      if workspaceRole.Some? then Success(Some(workspaceRole.value.userRole))
      else
        var personalWorkspace := RequirePersonalWorkspace(s, userId);
        if personalWorkspace.Failure? then Failure(personalWorkspace.error)
        else
          var sharedAccess := LinkForPair(s, projectId, personalWorkspace.value.id);
          if sharedAccess.Some? then Success(Some(sharedAccess.value.accessLevel)) else Success(None)
  }

  /** The workspace row wins even when a link grants more: a viewer row hides an admin link. */
  lemma WorkspaceRoleHidesLink()
    ensures var s := Snapshot([], [Workspace(1, "team", false, 8), Workspace(2, "mine", true, 7)], [], [], [],
                              [Project(3, "p", None, 1, 8)], [WorkspaceUser(4, 1, 7, Viewer)], [WorkspaceProject(5, 2, 3, Admin)], [], [], 6);
            ProjectRole(s, 7, 3) == Success(Some(Viewer))
  {
    var s := Snapshot([], [Workspace(1, "team", false, 8), Workspace(2, "mine", true, 7)], [], [], [],
                      [Project(3, "p", None, 1, 8)], [WorkspaceUser(4, 1, 7, Viewer)], [WorkspaceProject(5, 2, 3, Admin)], [], [], 6);
    assert GetProject(s, 3) == Some(Project(3, "p", None, 1, 8));
    assert WorkspaceUserOf(s, 1, 7) == Some(WorkspaceUser(4, 1, 7, Viewer));
  }

  /** `getProject`: any project to any authenticated caller, with no role check. */
  function GetProjectHandler(s: Snapshot, caller: Option<Id>, projectId: Id): (r: Result<Option<Project>, Failure>)
    ensures caller.None? <==> r == Failure(MustAuthenticate)
    ensures caller.Some? ==> r.Success? && (r.value.Some? <==> exists p :: p in s.projects && p.id == projectId)
    ensures caller.Some? && r.value.Some? ==> r.value.value in s.projects && r.value.value.id == projectId
  {
    if caller.None? then Failure(MustAuthenticate) else Success(GetProject(s, projectId))
  }

  /** `getProjectRole`: the role above for the authenticated caller. */
  function GetProjectRoleHandler(s: Snapshot, caller: Option<Id>, projectId: Id): (r: Result<Option<Role>, Failure>)
    ensures caller.None? ==> r == Failure(MustAuthenticate)
    ensures caller.Some? ==> r == ProjectRole(s, caller.value, projectId)
    ensures caller.Some? && GetProject(s, projectId).None? ==> r == Success(None)
  {
    if caller.None? then Failure(MustAuthenticate) else ProjectRole(s, caller.value, projectId)
  }

  /** `canEditProject` of src/projects/queries.ts: the role is admin or editor. */
  function CanEditProjectHandler(s: Snapshot, caller: Option<Id>, projectId: Id): (r: Result<bool, Failure>)
    ensures caller.None? ==> r == Failure(MustAuthenticate)
    ensures r.Failure? <==> GetProjectRoleHandler(s, caller, projectId).Failure?
    ensures r.Success? ==> (r.value <==> GetProjectRoleHandler(s, caller, projectId).value.Some? &&
                                         HasRole(GetProjectRoleHandler(s, caller, projectId).value.value, Editor))
  {
    var role := GetProjectRoleHandler(s, caller, projectId);
    if role.Failure? then Failure(role.error)
    else Success(role.value == Some(Admin) || role.value == Some(Editor))
  }

  /** `canDeleteProject` of src/projects/queries.ts: the role is admin. */
  function CanDeleteProjectHandler(s: Snapshot, caller: Option<Id>, projectId: Id): (r: Result<bool, Failure>)
    ensures caller.None? ==> r == Failure(MustAuthenticate)
    ensures r.Failure? <==> GetProjectRoleHandler(s, caller, projectId).Failure?
    ensures r.Success? ==> (r.value <==> GetProjectRoleHandler(s, caller, projectId).value == Some(Admin))
  {
    var role := GetProjectRoleHandler(s, caller, projectId);
    if role.Failure? then Failure(role.error)
    else Success(role.value == Some(Admin))
  }

  /** Whoever may delete a project may also edit it. */
  lemma CanDeleteImpliesCanEdit(s: Snapshot, caller: Option<Id>, projectId: Id)
    requires CanDeleteProjectHandler(s, caller, projectId) == Success(true)
    ensures CanEditProjectHandler(s, caller, projectId) == Success(true)
  {
  }

  /**
   * The query's delete answer and the mutation's delete rule differ: the
   * owner of a project who has no row in its workspace may delete it, yet
   * the query answers from the link level alone.
   */
  lemma OwnerMayDeleteThoughQuerySaysNo()
    ensures var s := Snapshot([], [Workspace(1, "team", false, 8), Workspace(2, "mine", true, 7)], [], [], [],
                              [Project(3, "p", None, 1, 7)], [], [WorkspaceProject(5, 2, 3, Viewer)], [], [], 6);
            && DeleteProjectCheck(s, Some(7), 3).Pass?
            && CanDeleteProjectHandler(s, Some(7), 3) == Success(false)
  {
    var s := Snapshot([], [Workspace(1, "team", false, 8), Workspace(2, "mine", true, 7)], [], [], [],
                      [Project(3, "p", None, 1, 7)], [], [WorkspaceProject(5, 2, 3, Viewer)], [], [], 6);
    assert GetProject(s, 3) == Some(Project(3, "p", None, 1, 7));
    assert WorkspaceUserOf(s, 1, 7).None?;
    assert PersonalWorkspaceOf(s, 7) == Some(Workspace(2, "mine", true, 7));
    assert LinkForPair(s, 3, 2) == Some(WorkspaceProject(5, 2, 3, Viewer));
  }

  /** One entry of `getUserProjectsWithRoles`. */
  datatype ProjectWithRole = ProjectWithRole(project: Project, workspace: Workspace, role: Role)

  /**
   * The read `ctx.db.get(undefined)` made for a link whose project is gone:
   * the database rejects an id that is not one, and the text is a stand-in
   * for its own message.
   */
  const UndefinedIdRead := StoreFailure("Invalid argument `id`: undefined is not a document id")

  /** A link whose project row no longer exists. */
  predicate Dangling(s: Snapshot, link: WorkspaceProject)
  {
    GetProject(s, link.projectId).None?
  }

  /**
   * The entry for one link. A dangling link throws, because the project's
   * workspace is then read with an undefined id; a link whose project's
   * workspace is gone yields null.
   */
  function LinkEntry(s: Snapshot, link: WorkspaceProject): (r: Result<Option<ProjectWithRole>, Failure>)
    ensures r.Failure? <==> Dangling(s, link)
    ensures r.Failure? ==> r.error == UndefinedIdRead
    ensures r.Success? ==> (r.value.Some? <==> GetWorkspace(s, GetProject(s, link.projectId).value.workspaceId).Some?)
    ensures r.Success? && r.value.Some? ==>
              && r.value.value.project == GetProject(s, link.projectId).value
              && r.value.value.workspace == GetWorkspace(s, r.value.value.project.workspaceId).value
              && r.value.value.role == link.accessLevel
  {
    var project := GetProject(s, link.projectId);
    if project.None? then Failure(UndefinedIdRead)
    else
      var workspace := GetWorkspace(s, project.value.workspaceId);
      if workspace.None? then Success(None) else Success(Some(ProjectWithRole(project.value, workspace.value, link.accessLevel)))
  }

  /**
   * `Promise.all` over the links followed by `filter(Boolean)`: it rejects
   * when any link's entry throws, and otherwise keeps the non-null entries
   * in link order.
   */
  function ProjectEntries(s: Snapshot, links: seq<WorkspaceProject>): (r: Result<seq<ProjectWithRole>, Failure>)
    ensures r.Failure? <==> exists l :: l in links && Dangling(s, l)
    ensures r.Failure? ==> r.error == UndefinedIdRead
    ensures r.Success? ==> |r.value| <= |links|
  {
    if links == [] then Success([])
    else
      var entry := LinkEntry(s, links[0]);
      var rest := ProjectEntries(s, links[1..]);
      if entry.Failure? then Failure(entry.error)
      else if rest.Failure? then rest
      else Success((if entry.value.Some? then [entry.value.value] else []) + rest.value)
  }

  /** When the listing succeeds, an entry is listed exactly when some link produces it. */
  lemma {:induction false} ProjectEntriesMembers(s: Snapshot, links: seq<WorkspaceProject>)
    requires ProjectEntries(s, links).Success?
    ensures forall e :: e in ProjectEntries(s, links).value <==> exists l :: l in links && LinkEntry(s, l) == Success(Some(e))
  {
    if links != [] {
      assert links[0] in links;
      ProjectEntriesMembers(s, links[1..]);
      forall e: ProjectWithRole | exists l :: l in links && LinkEntry(s, l) == Success(Some(e))
        ensures e in ProjectEntries(s, links).value
      {
        var l :| l in links && LinkEntry(s, l) == Success(Some(e));
        if l != links[0] {
          assert l in links[1..];
        }
      }
    }
  }

  /**
   * `getUserProjectsWithRoles`: the links held by the caller's personal
   * workspace, each paired with its project and that project's workspace.
   */
  function GetUserProjectsWithRoles(s: Snapshot, caller: Option<Id>): (r: Result<seq<ProjectWithRole>, Failure>)
    ensures caller.None? ==> r == Failure(MustAuthenticate)
    ensures caller.Some? && RequirePersonalWorkspace(s, caller.value).Failure? ==> r == Failure(PersonalMissing)
    ensures caller.Some? && RequirePersonalWorkspace(s, caller.value).Success? ==>
              (r.Failure? <==> exists l :: l in s.workspaceProjects && l.workspaceId == RequirePersonalWorkspace(s, caller.value).value.id && Dangling(s, l))
    ensures caller.Some? && RequirePersonalWorkspace(s, caller.value).Success? && r.Failure? ==> r.error == UndefinedIdRead
    ensures r.Success? ==> r.value == ProjectEntries(s, LinksOfWorkspace(s, RequirePersonalWorkspace(s, caller.value).value.id)).value
  {
    if caller.None? then Failure(MustAuthenticate)
    else
      var personalWorkspace := RequirePersonalWorkspace(s, caller.value);
      if personalWorkspace.Failure? then Failure(personalWorkspace.error)
      else ProjectEntries(s, LinksOfWorkspace(s, personalWorkspace.value.id))
  }

  /**
   * With a personal workspace and no dangling link in it, each listed
   * project is one whose link sits in that workspace, with the link's level
   * as role; links to projects of missing workspaces are dropped.
   */
  lemma UserProjectsExact(s: Snapshot, userId: Id)
    requires RequirePersonalWorkspace(s, userId).Success?
    requires GetUserProjectsWithRoles(s, Some(userId)).Success?
    ensures var home := RequirePersonalWorkspace(s, userId).value.id;
            forall e :: e in GetUserProjectsWithRoles(s, Some(userId)).value <==>
              exists l :: l in s.workspaceProjects && l.workspaceId == home && LinkEntry(s, l) == Success(Some(e))
  {
    ProjectEntriesMembers(s, LinksOfWorkspace(s, RequirePersonalWorkspace(s, userId).value.id));
  }
}
