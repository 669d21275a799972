/**
 * The workspace mutations of src/workspaces/mutations: create (with the
 * one-personal-workspace check and the owner's admin membership), rename,
 * and remove with its cascade over memberships, entities and grants.
 */
module WorkspaceMutations {
  import opened Wrappers
  import opened Roles
  import opened Validation
  import opened Seqs
  import opened Store
  import opened Queries
  import opened Access

  const PersonalExists := AlreadyExists("User already has a personal workspace")

  // ---------------------------------------------------------------- create

  /** The workspace exists and is marked personal. */
  predicate IsPersonal(s: Snapshot, workspaceId: Id)
  {
    GetWorkspace(s, workspaceId).Some? && GetWorkspace(s, workspaceId).value.personal
  }

  /** The user is admin of some personal workspace: what blocks a second personal workspace. */
  predicate AdminOfPersonal(s: Snapshot, userId: Id)
  {
    exists m :: m in s.memberships && m.userId == userId && m.userRole == Admin && IsPersonal(s, m.workspaceId)
  }

  /** The user's admin memberships in `by_user` order: the rows the personal-workspace scan visits. */
  function AdminMembershipsOfUser(s: Snapshot, userId: Id): (r: seq<Membership>)
    ensures forall m :: m in r <==> m in s.memberships && m.userId == userId && m.userRole == Admin
  {
    Filter(MembershipsOfUser(s, userId), (m: Membership) => m.userRole == Admin)
  }

  /** The scan of `createWorkspaceHandler`: stops at the first admin membership whose workspace is personal. */
  method ScanForPersonal(s: Snapshot, userId: Id) returns (found: bool)
    ensures found <==> AdminOfPersonal(s, userId)
  {
    var existingPersonalWorkspace := AdminMembershipsOfUser(s, userId);
    found := false;
    var i := 0;
    while i < |existingPersonalWorkspace|
      invariant 0 <= i <= |existingPersonalWorkspace|
      invariant forall m :: m in existingPersonalWorkspace[..i] ==> !IsPersonal(s, m.workspaceId)
    {
      var membership := existingPersonalWorkspace[i];
      var workspace := GetWorkspace(s, membership.workspaceId);
      if workspace.Some? && workspace.value.personal {
        found := true;
        return;
      }
      assert existingPersonalWorkspace[..i + 1] == existingPersonalWorkspace[..i] + [membership];
      i := i + 1;
    }
    assert existingPersonalWorkspace[..i] == existingPersonalWorkspace;
  }

  /** The store after a workspace is created: the workspace, then the owner's admin membership. */
  function AfterWorkspaceCreation(s: Snapshot, userId: Id, name: string, personal: bool): (t: Snapshot)
    ensures t.workspaces == s.workspaces + [Workspace(s.nextId, name, personal, userId)]
    ensures t.memberships == s.memberships + [Membership(s.nextId + 1, s.nextId, userId, Admin)]
    ensures t.nextId == s.nextId + 2
    ensures t.(workspaces := s.workspaces, memberships := s.memberships, nextId := s.nextId) == s
  {
    s.(workspaces := s.workspaces + [Workspace(s.nextId, name, personal, userId)],
       memberships := s.memberships + [Membership(s.nextId + 1, s.nextId, userId, Admin)],
       nextId := s.nextId + 2)
  }

  /**
   * `createWorkspaceHandler`. A personal workspace is refused when the
   * caller already administers one; otherwise the workspace and the
   * caller's admin membership are inserted and the workspace id returned.
   */
  method CreateWorkspaceHandler(db: Store, caller: Option<Id>, name: string, personal: bool) returns (r: Result<Id, Failure>)
    modifies db
    ensures caller.None? ==> r == Failure(NotAuthenticated)
    ensures caller.Some? && personal && AdminOfPersonal(old(db.State()), caller.value) ==> r == Failure(PersonalExists)
    ensures r.Failure? ==> db.State() == old(db.State())
    ensures r.Success? <==> caller.Some? && !(personal && AdminOfPersonal(old(db.State()), caller.value))
    ensures r.Success? ==> r.value == old(db.nextId) && db.State() == AfterWorkspaceCreation(old(db.State()), caller.value, name, personal)
    ensures old(db.State()).WellFormed() ==> db.State().WellFormed()
    ensures db.events == old(db.events)
  {
    if caller.None? {
      return Failure(NotAuthenticated);
    }
    var userId := caller.value;
    if personal {
      var found := ScanForPersonal(db.State(), userId);
      if found {
        return Failure(PersonalExists);
      }
    }
    var workspaceId := db.InsertWorkspace(name, personal, userId);
    var _ := db.InsertMembership(workspaceId, userId, Admin);
    return Success(workspaceId);
  }

  /**
   * Creating a personal workspace when the check passes leaves the new one
   * as the only personal workspace the user administers.
   */
  lemma CreatePersonalWorkspaceUnique(s: Snapshot, userId: Id, name: string)
    requires s.WellFormed()
    requires !AdminOfPersonal(s, userId)
    ensures var t := AfterWorkspaceCreation(s, userId, name, true);
            && AdminOfPersonal(t, userId)
            && forall m :: m in t.memberships && m.userId == userId && m.userRole == Admin && IsPersonal(t, m.workspaceId) ==>
                             m.workspaceId == s.nextId
  {
    var t := AfterWorkspaceCreation(s, userId, name, true);
    var w := Workspace(s.nextId, name, true, userId);
    LookupAppend(s.workspaces, WorkspaceKey, w, s.nextId);
    assert IsPersonal(t, s.nextId);
    assert t.memberships[|s.memberships|] in t.memberships;
    forall m | m in t.memberships && m.userId == userId && m.userRole == Admin && IsPersonal(t, m.workspaceId)
      ensures m.workspaceId == s.nextId
    {
      if m.workspaceId != s.nextId {
        LookupAppend(s.workspaces, WorkspaceKey, w, m.workspaceId);
        assert m in s.memberships;
        assert IsPersonal(s, m.workspaceId);
      }
    }
  }

  /** Only admin memberships are scanned: an editor of someone's personal workspace may still create their own. */
  lemma EditorOfPersonalIsNotBlocked()
    ensures var s := Snapshot([], [Workspace(1, "mine", true, 8)], [Membership(2, 1, 7, Editor)], [], [], [], [], [], [], [], 3);
            && IsPersonal(s, 1)
            && !AdminOfPersonal(s, 7)
  {
    var s := Snapshot([], [Workspace(1, "mine", true, 8)], [Membership(2, 1, 7, Editor)], [], [], [], [], [], [], [], 3);
    assert GetWorkspace(s, 1) == Some(Workspace(1, "mine", true, 8));
  }

  // ---------------------------------------------------------------- update

  /**
   * The guards of `updateWorkspaceHandler` and of
   * `assembleRemoveWorkspaceHandler`, which differ only in the action
   * named: the caller, the workspace, then an admin membership in it.
   */
  function ManageWorkspaceCheck(s: Snapshot, caller: Option<Id>, workspaceId: Id, action: string): (o: Outcome<Failure>)
    ensures o.Pass? <==> caller.Some? && GetWorkspace(s, workspaceId).Some? && IsAdminOf(s, workspaceId, caller.value)
    ensures caller.None? ==> o == Fail(NotAuthenticated)
    ensures caller.Some? && GetWorkspace(s, workspaceId).None? ==> o == Fail(NotFound("Workspace " + IdText(workspaceId) + " not found"))
    ensures o.Fail? && caller.Some? && GetWorkspace(s, workspaceId).Some? ==> o == Fail(InsufficientFor(action))
  {
    if caller.None? then Fail(NotAuthenticated)
    else
      var found := RequireWorkspace(GetWorkspace(s, workspaceId), workspaceId);
      if found.Fail? then found
      else RequirePermission(AdminFlag(GetMembership(s, workspaceId, caller.value)), action)
  }

  /** `updateWorkspaceHandler`: on success only the name is patched, and only when one is given. */
  method UpdateWorkspaceHandler(db: Store, caller: Option<Id>, workspaceId: Id, name: Option<string>) returns (r: Outcome<Failure>)
    modifies db
    ensures r == ManageWorkspaceCheck(old(db.State()), caller, workspaceId, "updating workspace")
    ensures r.Fail? || name.None? ==> db.State() == old(db.State())
    ensures r.Pass? && name.Some? ==> db.State() == old(db.State()).(workspaces := RenameWorkspace(old(db.workspaces), workspaceId, name.value))
    ensures old(db.State()).WellFormed() ==> db.State().WellFormed()
    ensures db.events == old(db.events)
  {
    r := ManageWorkspaceCheck(db.State(), caller, workspaceId, "updating workspace");
    if r.Fail? {
      return;
    }
    if name.Some? {
      var _ := db.PatchWorkspaceName(workspaceId, name.value);
    }
  }

  /** A rename keeps every workspace's id, owner and personal flag, and changes no other workspace. */
  lemma RenameWorkspaceFrame(workspaces: seq<Workspace>, workspaceId: Id, name: string)
    ensures |RenameWorkspace(workspaces, workspaceId, name)| == |workspaces|
    ensures forall i :: 0 <= i < |workspaces| ==>
              && RenameWorkspace(workspaces, workspaceId, name)[i].id == workspaces[i].id
              && RenameWorkspace(workspaces, workspaceId, name)[i].ownerId == workspaces[i].ownerId
              && RenameWorkspace(workspaces, workspaceId, name)[i].personal == workspaces[i].personal
              && (workspaces[i].id != workspaceId ==> RenameWorkspace(workspaces, workspaceId, name)[i] == workspaces[i])
              && (workspaces[i].id == workspaceId ==> RenameWorkspace(workspaces, workspaceId, name)[i].name == name)
  {
  }

  // ---------------------------------------------------------------- remove

  /**
   * The store after the cascade: the workspace's memberships, its entities,
   * the grants held by the workspace, and the workspace itself are gone.
   */
  function AfterWorkspaceRemoval(s: Snapshot, workspaceId: Id): Snapshot
  {
    s.(memberships := Without(s.memberships, MembershipKey, IdSet(MembershipsOfWorkspace(s, workspaceId), MembershipKey)),
       entities := Without(s.entities, EntityKey, IdSet(EntitiesOfWorkspace(s, workspaceId), EntityKey)),
       grants := Without(s.grants, GrantKey, IdSet(GrantsOfWorkspace(s, workspaceId), GrantKey)),
       workspaces := Without(s.workspaces, WorkspaceKey, {workspaceId}))
  }

  /**
   * `assembleRemoveWorkspaceHandler`, with `hasCallback` telling whether an
   * `onWorkspaceRemoved` callback was supplied. The entity ids are taken
   * before anything is deleted and handed to the callback last.
   */
  method RemoveWorkspaceHandler(db: Store, caller: Option<Id>, workspaceId: Id, hasCallback: bool) returns (r: Outcome<Failure>)
    modifies db
    ensures r == ManageWorkspaceCheck(old(db.State()), caller, workspaceId, "removing workspace")
    ensures r.Fail? ==> db.State() == old(db.State()) && db.events == old(db.events)
    ensures r.Pass? ==> db.State() == AfterWorkspaceRemoval(old(db.State()), workspaceId)
    ensures r.Pass? ==> db.events == old(db.events) + RemovalEvents(old(db.State()), workspaceId, hasCallback)
    ensures old(db.State()).WellFormed() ==> db.State().WellFormed()
  {
    r := ManageWorkspaceCheck(db.State(), caller, workspaceId, "removing workspace");
    if r.Fail? {
      return;
    }
    RemoveWorkspaceWrites(db, workspaceId, hasCallback);
  }

  /** What the `onWorkspaceRemoved` callback, when supplied, is handed: the ids of the workspace's entities. */
  function RemovalEvents(s: Snapshot, workspaceId: Id, hasCallback: bool): (r: seq<Event>)
    ensures hasCallback <==> |r| == 1
    ensures hasCallback ==> r[0].WorkspaceRemoved?
    ensures hasCallback ==> forall id :: id in r[0].entityIds <==> exists e :: e in s.entities && e.workspaceId == workspaceId && e.id == id
  {
    IdListMembers(EntitiesOfWorkspace(s, workspaceId), EntityKey);
    if hasCallback then [WorkspaceRemoved(IdList(EntitiesOfWorkspace(s, workspaceId), EntityKey))] else []
  }

  /** The writes of the removal once its guards pass, in the handler's order. */
  method RemoveWorkspaceWrites(db: Store, workspaceId: Id, hasCallback: bool)
    modifies db
    ensures db.State() == AfterWorkspaceRemoval(old(db.State()), workspaceId)
    ensures db.events == old(db.events) + RemovalEvents(old(db.State()), workspaceId, hasCallback)
    ensures old(db.State()).WellFormed() ==> db.State().WellFormed()
  {
    var entities := EntitiesOfWorkspace(db.State(), workspaceId);
    var entityIds := IdList(entities, EntityKey);
    var memberships := MembershipsOfWorkspace(db.State(), workspaceId);
    db.DeleteMembershipRows(memberships);
    db.DeleteEntityRows(entities);
    var entityAccess := GrantsOfWorkspace(db.State(), workspaceId);
    assert entityAccess == GrantsOfWorkspace(old(db.State()), workspaceId);
    db.DeleteGrantRows(entityAccess);
    var _ := db.DeleteWorkspace(workspaceId);
    if hasCallback {
      db.events := db.events + [WorkspaceRemoved(entityIds)];
    }
  }

  /**
   * In a well-formed store the cascade removes exactly the workspace's
   * memberships, its entities, the grants it holds and the workspace row;
   * every other row stays.
   */
  lemma WorkspaceRemovalExact(s: Snapshot, workspaceId: Id)
    requires s.WellFormed()
    ensures var t := AfterWorkspaceRemoval(s, workspaceId);
            && (forall m :: m in t.memberships <==> m in s.memberships && m.workspaceId != workspaceId)
            && (forall e :: e in t.entities <==> e in s.entities && e.workspaceId != workspaceId)
            && (forall g :: g in t.grants <==> g in s.grants && g.workspaceId != workspaceId)
            && (forall w :: w in t.workspaces <==> w in s.workspaces && w.id != workspaceId)
  {
    WithoutListed(s.memberships, MembershipKey, MembershipsOfWorkspace(s, workspaceId));
    WithoutListed(s.entities, EntityKey, EntitiesOfWorkspace(s, workspaceId));
    WithoutListed(s.grants, GrantKey, GrantsOfWorkspace(s, workspaceId));
  }

  /**
   * Grants that other workspaces hold on the removed workspace's entities
   * survive the cascade and point at entities that no longer exist.
   */
  lemma WorkspaceRemovalLeavesDanglingGrants()
    ensures var s := Snapshot([], [Workspace(1, "a", false, 7), Workspace(2, "b", false, 8)],
                              [Membership(3, 1, 7, Admin)], [Entity(4, 1)], [Grant(5, 2, 4, Viewer)], [], [], [], [], [], 6);
            var t := AfterWorkspaceRemoval(s, 1);
            && Grant(5, 2, 4, Viewer) in t.grants
            && GetEntity(t, 4).None?
  {
    var s := Snapshot([], [Workspace(1, "a", false, 7), Workspace(2, "b", false, 8)],
                      [Membership(3, 1, 7, Admin)], [Entity(4, 1)], [Grant(5, 2, 4, Viewer)], [], [], [], [], [], 6);
    assert GrantsOfWorkspace(s, 1) == [];
    assert EntitiesOfWorkspace(s, 1) == [Entity(4, 1)];
    assert IdSet(GrantsOfWorkspace(s, 1), GrantKey) == {};
    assert IdSet(EntitiesOfWorkspace(s, 1), EntityKey) == {4};
  }
}
