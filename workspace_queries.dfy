/**
 * The workspace queries of src/workspaces/queries: the caller's personal
 * workspace, any user's personal workspace, one workspace by id, and the
 * caller's workspaces. Each returns the workspace record extended with a
 * role.
 */
module WorkspaceQueries {
  import opened Wrappers
  import opened Roles
  import opened Validation
  import opened Seqs
  import opened Store
  import opened Queries
  import opened Access

  /** A workspace record spread together with a `userRole` field. */
  datatype WorkspaceWithRole = WorkspaceWithRole(workspace: Workspace, userRole: Role)

  /**
   * `getPersonalWorkspaceHandler`: the first workspace the caller owns that
   * is marked personal, with the role of the caller's membership in it;
   * null when there is no such workspace or no such membership.
   */
  function GetPersonalWorkspaceHandler(s: Snapshot, caller: Option<Id>): (r: Result<Option<WorkspaceWithRole>, Failure>)
    ensures caller.None? <==> r == Failure(NotAuthenticated)
    ensures caller.Some? ==> r.Success?
    ensures r.Success? && r.value.None? <==>
              caller.Some? && (PersonalWorkspaceOf(s, caller.value).None? ||
                               !IsMember(s, PersonalWorkspaceOf(s, caller.value).value.id, caller.value))
    ensures r.Success? && r.value.Some? ==>
              && r.value.value.workspace in s.workspaces
              && r.value.value.workspace.ownerId == caller.value
              && r.value.value.workspace.personal
              && IsMember(s, r.value.value.workspace.id, caller.value)
              && r.value.value.userRole == GetMembership(s, r.value.value.workspace.id, caller.value).value.userRole
  {
    if caller.None? then Failure(NotAuthenticated)
    else
      var workspace := PersonalWorkspaceOf(s, caller.value);
      if workspace.None? then Success(None)
      else
        var membership := GetMembership(s, workspace.value.id, caller.value);
        if membership.None? then Success(None)
        else Success(Some(WorkspaceWithRole(workspace.value, membership.value.userRole)))
  }

  /**
   * `getPersonalWorkspaceByUserIdHandler`: no caller check, the first
   * personal workspace the user owns, and always the admin role.
   */
  function GetPersonalWorkspaceByUserIdHandler(s: Snapshot, userId: Id): (r: Option<WorkspaceWithRole>)
    ensures r.None? <==> forall w :: w in s.workspaces ==> !(w.ownerId == userId && w.personal)
    ensures r.Some? ==> r.value.workspace in s.workspaces && r.value.workspace.ownerId == userId && r.value.workspace.personal
    ensures r.Some? ==> r.value.userRole == Admin
  {
    var workspace := PersonalWorkspaceOf(s, userId);
    if workspace.None? then None else Some(WorkspaceWithRole(workspace.value, Admin))
  }

  /** Both personal-workspace queries return the first matching row of the table, never a later one. */
  lemma PersonalWorkspaceIsFirst(s: Snapshot, userId: Id)
    requires GetPersonalWorkspaceByUserIdHandler(s, userId).Some?
    ensures var w := GetPersonalWorkspaceByUserIdHandler(s, userId).value.workspace;
            exists i :: 0 <= i < |s.workspaces| && s.workspaces[i] == w &&
                        forall j :: 0 <= j < i ==> !(s.workspaces[j].ownerId == userId && s.workspaces[j].personal)
    ensures GetPersonalWorkspaceHandler(s, Some(userId)).value.Some? ==>
              GetPersonalWorkspaceHandler(s, Some(userId)).value.value.workspace ==
              GetPersonalWorkspaceByUserIdHandler(s, userId).value.workspace
  {
  }

  /**
   * The two personal-workspace queries disagree on the role: the one by
   * user id says admin even where the membership says viewer.
   */
  lemma PersonalWorkspaceRolesDiffer()
    ensures var s := Snapshot([], [Workspace(1, "p", true, 7)], [Membership(2, 1, 7, Viewer)], [], [], [], [], [], [], [], 3);
            && GetPersonalWorkspaceHandler(s, Some(7)) == Success(Some(WorkspaceWithRole(Workspace(1, "p", true, 7), Viewer)))
            && GetPersonalWorkspaceByUserIdHandler(s, 7) == Some(WorkspaceWithRole(Workspace(1, "p", true, 7), Admin))
  {
    var s := Snapshot([], [Workspace(1, "p", true, 7)], [Membership(2, 1, 7, Viewer)], [], [], [], [], [], [], [], 3);
    assert PersonalWorkspaceOf(s, 7) == Some(Workspace(1, "p", true, 7));
    assert GetMembership(s, 1, 7) == Some(Membership(2, 1, 7, Viewer));
  }

  /**
   * `getWorkspaceByIdHandler`: null for a missing workspace, checked before
   * membership; "Access denied" for a non-member; otherwise the record with
   * the caller's role.
   */
  function GetWorkspaceByIdHandler(s: Snapshot, caller: Option<Id>, workspaceId: Id): (r: Result<Option<WorkspaceWithRole>, Failure>)
    ensures caller.None? ==> r == Failure(NotAuthenticated)
    ensures caller.Some? && GetWorkspace(s, workspaceId).None? ==> r == Success(None)
    ensures r == Failure(AccessDenied) <==>
              caller.Some? && GetWorkspace(s, workspaceId).Some? && !IsMember(s, workspaceId, caller.value)
    ensures r.Success? && r.value.Some? <==>
              caller.Some? && GetWorkspace(s, workspaceId).Some? && IsMember(s, workspaceId, caller.value)
    ensures r.Success? && r.value.Some? ==>
              && r.value.value.workspace == GetWorkspace(s, workspaceId).value
              && r.value.value.workspace.id == workspaceId
              && r.value.value.userRole == GetMembership(s, workspaceId, caller.value).value.userRole
  {
    if caller.None? then Failure(NotAuthenticated)
    else
      var workspace := GetWorkspace(s, workspaceId);
      if workspace.None? then Success(None)
      else
        var membership := GetMembership(s, workspaceId, caller.value);
        if membership.None? then Failure(AccessDenied)
        else Success(Some(WorkspaceWithRole(workspace.value, membership.value.userRole)))
  }

  /** A member's answer from `getWorkspaceByIdHandler` carries a role the workspace check grants. */
  lemma GetWorkspaceByIdRoleIsGranted(s: Snapshot, userId: Id, workspaceId: Id, required: Role)
    requires GetWorkspaceByIdHandler(s, Some(userId), workspaceId).Success?
    requires GetWorkspaceByIdHandler(s, Some(userId), workspaceId).value.Some?
    ensures CheckWorkspaceAccess(s, workspaceId, userId, required) <==>
              HasRole(GetWorkspaceByIdHandler(s, Some(userId), workspaceId).value.value.userRole, required)
  {
  }

  /**
   * What the loop of `getUserWorkspacesHandler` has pushed after visiting
   * `memberships`: one entry per membership whose workspace still exists,
   * in the memberships' order.
   */
  function WorkspaceEntries(s: Snapshot, memberships: seq<Membership>): (r: seq<WorkspaceWithRole>)
    ensures |r| <= |memberships|
  {
    if memberships == [] then []
    else
      var m := memberships[|memberships| - 1];
      var prev := WorkspaceEntries(s, memberships[..|memberships| - 1]);
      var workspace := GetWorkspace(s, m.workspaceId);
      if workspace.Some? then prev + [WorkspaceWithRole(workspace.value, m.userRole)] else prev
  }

  /** An entry appears exactly when a visited membership points at that existing workspace with that role. */
  lemma {:induction false} WorkspaceEntriesMembers(s: Snapshot, memberships: seq<Membership>)
    ensures forall e :: e in WorkspaceEntries(s, memberships) <==>
              exists m :: m in memberships && GetWorkspace(s, m.workspaceId) == Some(e.workspace) && e.userRole == m.userRole
  {
    if memberships != [] {
      var front := memberships[..|memberships| - 1];
      var m := memberships[|memberships| - 1];
      WorkspaceEntriesMembers(s, front);
      assert memberships == front + [m];
      forall e: WorkspaceWithRole | exists n :: n in memberships && GetWorkspace(s, n.workspaceId) == Some(e.workspace) && e.userRole == n.userRole
        ensures e in WorkspaceEntries(s, memberships)
      {
        var n :| n in memberships && GetWorkspace(s, n.workspaceId) == Some(e.workspace) && e.userRole == n.userRole;
        if n != m {
          assert n in front;
        }
      }
    }
  }

  /**
   * `getUserWorkspacesHandler`: the caller's memberships in `by_user`
   * order, each turned into its workspace and role when the workspace
   * still exists.
   */
  method GetUserWorkspacesHandler(s: Snapshot, caller: Option<Id>) returns (r: Result<seq<WorkspaceWithRole>, Failure>)
    ensures caller.None? <==> r == Failure(NotAuthenticated)
    ensures caller.Some? ==> r == Success(WorkspaceEntries(s, MembershipsOfUser(s, caller.value)))
  {
    if caller.None? {
      return Failure(NotAuthenticated);
    }
    var memberships := MembershipsOfUser(s, caller.value);
    var workspaces := [];
    for i := 0 to |memberships|
      invariant workspaces == WorkspaceEntries(s, memberships[..i])
    {
      var membership := memberships[i];
      assert memberships[..i + 1][..i] == memberships[..i];
      var workspace := GetWorkspace(s, membership.workspaceId);
      if workspace.Some? {
        workspaces := workspaces + [WorkspaceWithRole(workspace.value, membership.userRole)];
      }
    }
    assert memberships[..|memberships|] == memberships;
    return Success(workspaces);
  }

  /**
   * The caller's workspace list holds exactly the existing workspaces the
   * caller has a membership in, each with that membership's role;
   * memberships of removed workspaces are skipped.
   */
  lemma UserWorkspacesExact(s: Snapshot, userId: Id)
    ensures forall e :: e in WorkspaceEntries(s, MembershipsOfUser(s, userId)) <==>
              exists m :: m in s.memberships && m.userId == userId &&
                          GetWorkspace(s, m.workspaceId) == Some(e.workspace) && e.userRole == m.userRole
    ensures forall e :: e in WorkspaceEntries(s, MembershipsOfUser(s, userId)) ==> e.workspace in s.workspaces
  {
    WorkspaceEntriesMembers(s, MembershipsOfUser(s, userId));
  }
}
