/**
 * The read-only permission helpers of src/utils/permissions.ts over
 * `workspaceUsers` and `workspaceProjects`: the workspace role, the
 * project role, and the edit and delete predicates built on it.
 */
module LegacyPermissions {
  import opened Wrappers
  import opened Roles
  import opened Validation
  import opened Store
  import opened Queries
  import opened Personal
  import Projects

  /** `getWorkspaceRole`: the role of the user's `workspaceUsers` row in the workspace, or null. */
  function GetWorkspaceRole(s: Snapshot, userId: Id, workspaceId: Id): (r: Option<Role>)
    ensures r.None? <==> forall w :: w in s.workspaceUsers ==> !(w.workspaceId == workspaceId && w.userId == userId)
    ensures r.Some? ==> exists w :: w in s.workspaceUsers && w.workspaceId == workspaceId && w.userId == userId && w.userRole == r.value
  {
    var workspaceUser := WorkspaceUserOf(s, workspaceId, userId);
    if workspaceUser.None? then None else Some(workspaceUser.value.userRole)
  }

  /**
   * `getProjectRole`: null for a missing project; the workspace role when
   * there is one; otherwise the level of the link into the user's personal
   * workspace, which must exist, or null.
   */
  function GetProjectRole(s: Snapshot, userId: Id, projectId: Id): (r: Result<Option<Role>, Failure>)
    ensures GetProject(s, projectId).None? ==> r == Success(None)
    ensures GetProject(s, projectId).Some? && GetWorkspaceRole(s, userId, GetProject(s, projectId).value.workspaceId).Some? ==>
              r == Success(GetWorkspaceRole(s, userId, GetProject(s, projectId).value.workspaceId))
    ensures r.Failure? <==>
              GetProject(s, projectId).Some? && GetWorkspaceRole(s, userId, GetProject(s, projectId).value.workspaceId).None? &&
              RequirePersonalWorkspace(s, userId).Failure?
    ensures r.Failure? ==> r.error == PersonalMissing
  {
    var project := GetProject(s, projectId);
    if project.None? then Success(None)
    else
      var workspaceRole := GetWorkspaceRole(s, userId, project.value.workspaceId);
      if workspaceRole.Some? then Success(workspaceRole)
      else
        var personalWorkspace := RequirePersonalWorkspace(s, userId);
        if personalWorkspace.Failure? then Failure(personalWorkspace.error)
        else
          var sharedAccess := LinkForPair(s, projectId, personalWorkspace.value.id);
          if sharedAccess.Some? then Success(Some(sharedAccess.value.accessLevel)) else Success(None)
  }

  /** The helper here and `getProjectRoleInternal` of src/projects/queries.ts give the same answer on every store. */
  lemma GetProjectRoleAgrees(s: Snapshot, userId: Id, projectId: Id)
    ensures GetProjectRole(s, userId, projectId) == Projects.ProjectRole(s, userId, projectId)
  {
  }

  /** `canEditProject`: the project role is admin or editor. */
  function CanEditProject(s: Snapshot, userId: Id, projectId: Id): (r: Result<bool, Failure>)
    ensures var role := GetProjectRole(s, userId, projectId);
            && (r.Failure? <==> role.Failure?)
            && (r.Success? ==> (r.value <==> role.value.Some? && HasRole(role.value.value, Editor)))
  {
    var role := GetProjectRole(s, userId, projectId);
    if role.Failure? then Failure(role.error)
    else if role.value.None? then Success(false)
    else
      var level := role.value.value;
      HasRoleTable(level);
      Success(level == Admin || level == Editor)
  }

  /** `canDeleteProject`: the project role is admin. */
  function CanDeleteProject(s: Snapshot, userId: Id, projectId: Id): (r: Result<bool, Failure>)
    ensures r.Failure? <==> GetProjectRole(s, userId, projectId).Failure?
    ensures r.Success? ==> (r.value <==> GetProjectRole(s, userId, projectId).value == Some(Admin))
  {
    var role := GetProjectRole(s, userId, projectId);
    if role.Failure? then Failure(role.error)
    else Success(role.value == Some(Admin))
  }

  /** A user with a row in the project's workspace never needs a personal workspace to be answered. */
  lemma WorkspaceMemberNeverFails(s: Snapshot, userId: Id, projectId: Id)
    requires GetProject(s, projectId).Some?
    requires exists w :: w in s.workspaceUsers && w.workspaceId == GetProject(s, projectId).value.workspaceId && w.userId == userId
    ensures CanEditProject(s, userId, projectId).Success?
    ensures CanDeleteProject(s, userId, projectId).Success?
  {
  }

  /** Without a row in the project's workspace and without a personal workspace, every helper throws. */
  lemma OutsiderWithoutPersonalWorkspaceFails()
    ensures var s := Snapshot([], [Workspace(1, "team", false, 8)], [], [], [], [Project(2, "p", None, 1, 8)], [], [], [], [], 3);
            && CanEditProject(s, 7, 2) == Failure(PersonalMissing)
            && CanDeleteProject(s, 7, 2) == Failure(PersonalMissing)
  {
    var s := Snapshot([], [Workspace(1, "team", false, 8)], [], [], [], [Project(2, "p", None, 1, 8)], [], [], [], [], 3);
    assert GetProject(s, 2) == Some(Project(2, "p", None, 1, 8));
  }
}
