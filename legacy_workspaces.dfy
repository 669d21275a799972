/**
 * The older workspace API of src/workspaces/mutations.ts, built on
 * `workspaceUsers` rows and ownership rather than memberships:
 * `createWorkspace`, `addUserToWorkspace` and `assembleDeleteWorkspace`.
 */
module LegacyWorkspaces {
  import opened Wrappers
  import opened Roles
  import opened Validation
  import opened Seqs
  import opened Store
  import opened Queries
  import opened Personal

  const LegacyWorkspaceNotFound := NotFound("Workspace not found")
  const OnlyOwnerAdds := PermissionDenied("Only workspace owner can add users")
  const AlreadyMember := AlreadyExists("User is already a member of this workspace")
  const OnlyOwnerDeletes := PermissionDenied("Only workspace owner can delete workspace")

  /** No two `workspaceUsers` rows join the same user to the same workspace. */
  predicate WorkspaceUserPairsUnique(s: Snapshot)
  {
    forall a, b :: a in s.workspaceUsers && b in s.workspaceUsers && a.workspaceId == b.workspaceId && a.userId == b.userId ==> a == b
  }

  // ---------------------------------------------------------------- create

  /** The store after the older `createWorkspace`: the workspace, then the owner's admin `workspaceUsers` row. */
  function AfterLegacyCreation(s: Snapshot, userId: Id, name: string, personal: bool): (t: Snapshot)
    ensures t.workspaces == s.workspaces + [Workspace(s.nextId, name, personal, userId)]
    ensures t.workspaceUsers == s.workspaceUsers + [WorkspaceUser(s.nextId + 1, s.nextId, userId, Admin)]
    ensures t.nextId == s.nextId + 2
    ensures t.(workspaces := s.workspaces, workspaceUsers := s.workspaceUsers, nextId := s.nextId) == s
  {
    s.(workspaces := s.workspaces + [Workspace(s.nextId, name, personal, userId)],
       workspaceUsers := s.workspaceUsers + [WorkspaceUser(s.nextId + 1, s.nextId, userId, Admin)],
       nextId := s.nextId + 2)
  }

  /** The older `createWorkspace`: no check beyond authentication, personal or not. */
  method CreateWorkspace(db: Store, caller: Option<Id>, name: string, personal: bool) returns (r: Result<Id, Failure>)
    modifies db
    ensures caller.None? <==> r == Failure(MustAuthenticate)
    ensures caller.None? ==> db.State() == old(db.State())
    ensures caller.Some? ==> r == Success(old(db.nextId)) && db.State() == AfterLegacyCreation(old(db.State()), caller.value, name, personal)
    ensures old(db.State()).WellFormed() ==> db.State().WellFormed()
    ensures db.events == old(db.events)
  {
    if caller.None? {
      return Failure(MustAuthenticate);
    }
    var workspaceId := db.InsertWorkspace(name, personal, caller.value);
    var _ := db.InsertWorkspaceUser(workspaceId, caller.value, Admin);
    return Success(workspaceId);
  }

  /**
   * Without a uniqueness check a user can own two personal workspaces;
   * `requirePersonalWorkspace` then keeps answering with the older one.
   */
  lemma LegacyCreationAllowsSecondPersonal()
    ensures var s := Snapshot([], [Workspace(1, "mine", true, 7)], [], [], [], [], [WorkspaceUser(2, 1, 7, Admin)], [], [], [], 3);
            var t := AfterLegacyCreation(s, 7, "another", true);
            && Workspace(1, "mine", true, 7) in t.workspaces
            && Workspace(3, "another", true, 7) in t.workspaces
            && RequirePersonalWorkspace(t, 7) == Success(Workspace(1, "mine", true, 7))
  {
    var s := Snapshot([], [Workspace(1, "mine", true, 7)], [], [], [], [], [WorkspaceUser(2, 1, 7, Admin)], [], [], [], 3);
    var t := AfterLegacyCreation(s, 7, "another", true);
    assert t.workspaces == [Workspace(1, "mine", true, 7), Workspace(3, "another", true, 7)];
    assert t.workspaces[1] in t.workspaces;
    assert PersonalWorkspaceOf(t, 7) == Some(Workspace(1, "mine", true, 7));
  }

  // ---------------------------------------------------------------- add user

  /**
   * The guards of `addUserToWorkspace`: the caller, the workspace, its
   * owner (an admin who is not the owner is refused), then no existing row
   * for the target user.
   */
  function AddUserCheck(s: Snapshot, caller: Option<Id>, workspaceId: Id, targetUserId: Id): (o: Outcome<Failure>)
    ensures o.Pass? <==>
              && caller.Some?
              && GetWorkspace(s, workspaceId).Some?
              && GetWorkspace(s, workspaceId).value.ownerId == caller.value
              && WorkspaceUserOf(s, workspaceId, targetUserId).None?
    ensures caller.None? ==> o == Fail(MustAuthenticate)
    ensures caller.Some? && GetWorkspace(s, workspaceId).None? ==> o == Fail(LegacyWorkspaceNotFound)
    ensures caller.Some? && GetWorkspace(s, workspaceId).Some? && GetWorkspace(s, workspaceId).value.ownerId != caller.value ==>
              o == Fail(OnlyOwnerAdds)
    ensures caller.Some? && GetWorkspace(s, workspaceId).Some? && GetWorkspace(s, workspaceId).value.ownerId == caller.value ==>
              (WorkspaceUserOf(s, workspaceId, targetUserId).Some? ==> o == Fail(AlreadyMember))
  {
    if caller.None? then Fail(MustAuthenticate)
    else
      var workspace := GetWorkspace(s, workspaceId);
      if workspace.None? then Fail(LegacyWorkspaceNotFound)
      else if workspace.value.ownerId != caller.value then Fail(OnlyOwnerAdds)
      else if WorkspaceUserOf(s, workspaceId, targetUserId).Some? then Fail(AlreadyMember)
      else Pass
  }

  /** `addUserToWorkspace`: on success one row with the requested role is appended. */
  method AddUserToWorkspace(db: Store, caller: Option<Id>, workspaceId: Id, targetUserId: Id, userRole: Role) returns (r: Outcome<Failure>)
    modifies db
    ensures r == AddUserCheck(old(db.State()), caller, workspaceId, targetUserId)
    ensures r.Fail? ==> db.State() == old(db.State())
    ensures r.Pass? ==> db.State() == old(db.State()).(
              workspaceUsers := old(db.workspaceUsers) + [WorkspaceUser(old(db.nextId), workspaceId, targetUserId, userRole)],
              nextId := old(db.nextId) + 1)
    ensures old(db.State()).WellFormed() ==> db.State().WellFormed()
    ensures db.events == old(db.events)
  {
    r := AddUserCheck(db.State(), caller, workspaceId, targetUserId);
    if r.Fail? {
      return;
    }
    var _ := db.InsertWorkspaceUser(workspaceId, targetUserId, userRole);
  }

  /** A successful `addUserToWorkspace` keeps (workspace, user) pairs unique. */
  lemma AddUserKeepsPairsUnique(s: Snapshot, caller: Option<Id>, workspaceId: Id, targetUserId: Id, userRole: Role)
    requires WorkspaceUserPairsUnique(s)
    requires AddUserCheck(s, caller, workspaceId, targetUserId).Pass?
    ensures WorkspaceUserPairsUnique(s.(workspaceUsers := s.workspaceUsers + [WorkspaceUser(s.nextId, workspaceId, targetUserId, userRole)]))
  {
  }

  /** Only the owner may add users: an admin row for a non-owner is not enough. */
  lemma AdminWhoIsNotOwnerCannotAdd()
    ensures var s := Snapshot([], [Workspace(1, "team", false, 8)], [], [], [], [], [WorkspaceUser(2, 1, 7, Admin)], [], [], [], 3);
            AddUserCheck(s, Some(7), 1, 9) == Fail(OnlyOwnerAdds)
  {
    var s := Snapshot([], [Workspace(1, "team", false, 8)], [], [], [], [], [WorkspaceUser(2, 1, 7, Admin)], [], [], [], 3);
    assert GetWorkspace(s, 1) == Some(Workspace(1, "team", false, 8));
  }

  // ---------------------------------------------------------------- delete

  /** The guard of `assembleDeleteWorkspace`: a missing workspace and a non-owner get the same error. */
  function DeleteWorkspaceCheck(s: Snapshot, caller: Option<Id>, workspaceId: Id): (o: Outcome<Failure>)
    ensures o.Pass? <==> caller.Some? && GetWorkspace(s, workspaceId).Some? && GetWorkspace(s, workspaceId).value.ownerId == caller.value
    ensures caller.None? ==> o == Fail(MustAuthenticate)
    ensures caller.Some? && o.Fail? ==> o == Fail(OnlyOwnerDeletes)
  {
    if caller.None? then Fail(MustAuthenticate)
    else
      var workspace := GetWorkspace(s, workspaceId);
      if workspace.None? || workspace.value.ownerId != caller.value then Fail(OnlyOwnerDeletes)
      else Pass
  }

  /**
   * The store after the older workspace deletion: the workspace's
   * projects, its `workspaceUsers` rows, the links held by the workspace,
   * and the workspace itself are gone.
   */
  function AfterLegacyDeletion(s: Snapshot, workspaceId: Id): Snapshot
  {
    s.(projects := Without(s.projects, ProjectKey, IdSet(ProjectsOfWorkspace(s, workspaceId), ProjectKey)),
       workspaceUsers := Without(s.workspaceUsers, WorkspaceUserKey, IdSet(WorkspaceUsersOfWorkspace(s, workspaceId), WorkspaceUserKey)),
       workspaceProjects := Without(s.workspaceProjects, WorkspaceProjectKey, IdSet(LinksOfWorkspace(s, workspaceId), WorkspaceProjectKey)),
       workspaces := Without(s.workspaces, WorkspaceKey, {workspaceId}))
  }

  /** The writes of `assembleDeleteWorkspace` once its guard passes, in the handler's order, the callback before the last delete. */
  method DeleteWorkspaceWrites(db: Store, workspaceId: Id, hasCallback: bool)
    modifies db
    ensures db.State() == AfterLegacyDeletion(old(db.State()), workspaceId)
    ensures db.events == old(db.events) + (if hasCallback then [WorkspaceDeleting(workspaceId)] else [])
    ensures old(db.State()).WellFormed() ==> db.State().WellFormed()
  {
    var projects := ProjectsOfWorkspace(db.State(), workspaceId);
    db.DeleteProjectRows(projects);
    var workspaceUsers := WorkspaceUsersOfWorkspace(db.State(), workspaceId);
    assert workspaceUsers == WorkspaceUsersOfWorkspace(old(db.State()), workspaceId);
    db.DeleteWorkspaceUserRows(workspaceUsers);
    var workspaceProjects := LinksOfWorkspace(db.State(), workspaceId);
    assert workspaceProjects == LinksOfWorkspace(old(db.State()), workspaceId);
    db.DeleteWorkspaceProjectRows(workspaceProjects);
    if hasCallback {
      db.events := db.events + [WorkspaceDeleting(workspaceId)];
    }
    var _ := db.DeleteWorkspace(workspaceId);
  }

  /** `assembleDeleteWorkspace`, with `hasCallback` telling whether an `onWorkspaceDelete` callback was supplied. */
  method DeleteWorkspace(db: Store, caller: Option<Id>, workspaceId: Id, hasCallback: bool) returns (r: Outcome<Failure>)
    modifies db
    ensures r == DeleteWorkspaceCheck(old(db.State()), caller, workspaceId)
    ensures r.Fail? ==> db.State() == old(db.State()) && db.events == old(db.events)
    ensures r.Pass? ==> db.State() == AfterLegacyDeletion(old(db.State()), workspaceId)
    ensures r.Pass? ==> db.events == old(db.events) + (if hasCallback then [WorkspaceDeleting(workspaceId)] else [])
    ensures old(db.State()).WellFormed() ==> db.State().WellFormed()
  {
    r := DeleteWorkspaceCheck(db.State(), caller, workspaceId);
    if r.Fail? {
      return;
    }
    DeleteWorkspaceWrites(db, workspaceId, hasCallback);
  }

  /**
   * In a well-formed store the deletion removes exactly the workspace's
   * projects, `workspaceUsers` rows, held links and the workspace row.
   */
  lemma LegacyDeletionExact(s: Snapshot, workspaceId: Id)
    requires s.WellFormed()
    ensures var t := AfterLegacyDeletion(s, workspaceId);
            && (forall p :: p in t.projects <==> p in s.projects && p.workspaceId != workspaceId)
            && (forall w :: w in t.workspaceUsers <==> w in s.workspaceUsers && w.workspaceId != workspaceId)
            && (forall l :: l in t.workspaceProjects <==> l in s.workspaceProjects && l.workspaceId != workspaceId)
            && (forall w :: w in t.workspaces <==> w in s.workspaces && w.id != workspaceId)
  {
    WithoutListed(s.projects, ProjectKey, ProjectsOfWorkspace(s, workspaceId));
    WithoutListed(s.workspaceUsers, WorkspaceUserKey, WorkspaceUsersOfWorkspace(s, workspaceId));
    WithoutListed(s.workspaceProjects, WorkspaceProjectKey, LinksOfWorkspace(s, workspaceId));
  }

  /** A link sharing a deleted project into another workspace survives and points at no project. */
  lemma LegacyDeletionLeavesForeignLinks()
    ensures var s := Snapshot([], [Workspace(1, "a", false, 7), Workspace(2, "b", true, 8)], [], [], [],
                              [Project(3, "p", None, 1, 7)], [], [WorkspaceProject(4, 1, 3, Admin), WorkspaceProject(5, 2, 3, Viewer)], [], [], 6);
            var t := AfterLegacyDeletion(s, 1);
            && WorkspaceProject(5, 2, 3, Viewer) in t.workspaceProjects
            && GetProject(t, 3).None?
  {
    var s := Snapshot([], [Workspace(1, "a", false, 7), Workspace(2, "b", true, 8)], [], [], [],
                      [Project(3, "p", None, 1, 7)], [], [WorkspaceProject(4, 1, 3, Admin), WorkspaceProject(5, 2, 3, Viewer)], [], [], 6);
    assert ProjectsOfWorkspace(s, 1) == [Project(3, "p", None, 1, 7)];
    assert IdSet(ProjectsOfWorkspace(s, 1), ProjectKey) == {3};
    var links := LinksOfWorkspace(s, 1);
    assert forall l :: l in links ==> l == WorkspaceProject(4, 1, 3, Admin);
    assert IdSet(links, WorkspaceProjectKey) <= {4};
  }
}
