/**
 * The membership handlers of src/memberships: add a member, change a
 * member's role, remove a membership by id or by (workspace, user), and
 * list a workspace's memberships. Every mutation needs an admin of the
 * workspace concerned and writes only after its guards pass.
 */
module MembershipMutations {
  import opened Wrappers
  import opened Roles
  import opened Validation
  import opened Seqs
  import opened Store
  import opened Queries
  import opened Access

  const MembershipNotFound := NotFound("Membership not found")

  /** No two memberships join the same user to the same workspace. */
  predicate MembershipPairsUnique(memberships: seq<Membership>)
  {
    forall i, j :: 0 <= i < j < |memberships| ==>
      !(memberships[i].workspaceId == memberships[j].workspaceId && memberships[i].userId == memberships[j].userId)
  }

  /** Some membership of the workspace carries the admin role. */
  predicate HasAdmin(memberships: seq<Membership>, workspaceId: Id)
  {
    exists m :: m in memberships && m.workspaceId == workspaceId && m.userRole == Admin
  }

  // ---------------------------------------------------------------- create

  /** The guards of `createMembershipHandler`: the caller, admin of the workspace, then no membership for the pair yet. */
  function CreateMembershipCheck(s: Snapshot, caller: Option<Id>, workspaceId: Id, userId: Id): (o: Outcome<Failure>)
    ensures o.Pass? <==>
              && caller.Some?
              && IsAdminOf(s, workspaceId, caller.value)
              && (forall m :: m in s.memberships ==> !(m.workspaceId == workspaceId && m.userId == userId))
    ensures caller.None? ==> o == Fail(NotAuthenticated)
    ensures caller.Some? && !IsAdminOf(s, workspaceId, caller.value) ==> o == Fail(InsufficientFor("adding members"))
    ensures caller.Some? && IsAdminOf(s, workspaceId, caller.value) && IsMember(s, workspaceId, userId) ==>
              o == Fail(AlreadyExistsFor("Membership"))
  {
    if caller.None? then Fail(NotAuthenticated)
    else
      var membership := GetMembership(s, workspaceId, caller.value);
      var permitted := RequirePermission(AdminFlag(membership), "adding members");
      if permitted.Fail? then permitted
      else RequireNotExists(GetMembership(s, workspaceId, userId), "Membership")
  }

  /** `createMembershipHandler`: on success one membership with the requested role is appended and its id returned. */
  method CreateMembershipHandler(db: Store, caller: Option<Id>, workspaceId: Id, userId: Id, userRole: Role)
    returns (r: Result<Id, Failure>)
    modifies db
    ensures CreateMembershipCheck(old(db.State()), caller, workspaceId, userId).Fail? ==>
              && r == Failure(CreateMembershipCheck(old(db.State()), caller, workspaceId, userId).error)
              && db.State() == old(db.State())
    ensures CreateMembershipCheck(old(db.State()), caller, workspaceId, userId).Pass? ==>
              && r == Success(old(db.nextId))
              && db.State() == old(db.State()).(memberships := old(db.memberships) + [Membership(old(db.nextId), workspaceId, userId, userRole)],
                                                nextId := old(db.nextId) + 1)
    ensures old(db.State()).WellFormed() ==> db.State().WellFormed()
    ensures db.events == old(db.events)
  {
    var check := CreateMembershipCheck(db.State(), caller, workspaceId, userId);
    if check.Fail? {
      return Failure(check.error);
    }
    var membershipId := db.InsertMembership(workspaceId, userId, userRole);
    return Success(membershipId);
  }

  /** A successful add keeps every (workspace, user) pair on at most one membership. */
  lemma CreateMembershipKeepsPairsUnique(s: Snapshot, caller: Option<Id>, workspaceId: Id, userId: Id, userRole: Role)
    requires MembershipPairsUnique(s.memberships)
    requires CreateMembershipCheck(s, caller, workspaceId, userId).Pass?
    ensures MembershipPairsUnique(s.memberships + [Membership(s.nextId, workspaceId, userId, userRole)])
  {
    var after := s.memberships + [Membership(s.nextId, workspaceId, userId, userRole)];
    forall i, j | 0 <= i < j < |after|
      ensures !(after[i].workspaceId == after[j].workspaceId && after[i].userId == after[j].userId)
    {
      if j == |s.memberships| {
        assert after[i] == s.memberships[i];
        assert s.memberships[i] in s.memberships;
      } else {
        assert after[i] == s.memberships[i] && after[j] == s.memberships[j];
      }
    }
  }

  /** After a successful add the new member is found by `getMembership` with exactly the requested role, admin included. */
  lemma CreateMembershipFindsNewMember(s: Snapshot, caller: Option<Id>, workspaceId: Id, userId: Id, userRole: Role)
    requires CreateMembershipCheck(s, caller, workspaceId, userId).Pass?
    ensures var after := s.(memberships := s.memberships + [Membership(s.nextId, workspaceId, userId, userRole)], nextId := s.nextId + 1);
            GetMembership(after, workspaceId, userId) == Some(Membership(s.nextId, workspaceId, userId, userRole))
  {
    var after := s.(memberships := s.memberships + [Membership(s.nextId, workspaceId, userId, userRole)], nextId := s.nextId + 1);
    var found := GetMembership(after, workspaceId, userId);
    var i :| 0 <= i < |after.memberships| && after.memberships[i] == found.value;
    if i < |s.memberships| {
      assert false;
    }
  }

  // ------------------------------------------------------ update / remove

  /**
   * The guards of `updateMembershipRoleHandler` and `removeMembershipHandler`,
   * which differ only in the action named: the caller, the membership, and
   * an admin membership of the caller in that membership's workspace.
   */
  function ManageMembershipCheck(s: Snapshot, caller: Option<Id>, membershipId: Id, action: string): (o: Outcome<Failure>)
    ensures o.Pass? <==>
              && caller.Some?
              && GetMembershipById(s, membershipId).Some?
              && IsAdminOf(s, GetMembershipById(s, membershipId).value.workspaceId, caller.value)
    ensures caller.None? ==> o == Fail(NotAuthenticated)
    ensures caller.Some? && GetMembershipById(s, membershipId).None? ==> o == Fail(MembershipNotFound)
    ensures o.Fail? && caller.Some? && GetMembershipById(s, membershipId).Some? ==> o == Fail(InsufficientFor(action))
  {
    if caller.None? then Fail(NotAuthenticated)
    else
      var membership := GetMembershipById(s, membershipId);
      if membership.None? then Fail(MembershipNotFound)
      else
        var currentMembership := GetMembership(s, membership.value.workspaceId, caller.value);
        RequirePermission(AdminFlag(currentMembership), action)
  }

  /** `updateMembershipRoleHandler`: on success only that membership's role changes. */
  method UpdateMembershipRoleHandler(db: Store, caller: Option<Id>, membershipId: Id, userRole: Role) returns (r: Outcome<Failure>)
    modifies db
    ensures r == ManageMembershipCheck(old(db.State()), caller, membershipId, "updating member role")
    ensures r.Fail? ==> db.State() == old(db.State())
    ensures r.Pass? ==> db.State() == old(db.State()).(memberships := SetMembershipRole(old(db.memberships), membershipId, userRole))
    ensures old(db.State()).WellFormed() ==> db.State().WellFormed()
    ensures db.events == old(db.events)
  {
    r := ManageMembershipCheck(db.State(), caller, membershipId, "updating member role");
    if r.Fail? {
      return;
    }
    var _ := db.PatchMembershipRole(membershipId, userRole);
  }

  /** A role change keeps every row's id, workspace and user, touches no other row, and so keeps pairs unique. */
  lemma SetMembershipRoleFrame(memberships: seq<Membership>, membershipId: Id, userRole: Role)
    ensures |SetMembershipRole(memberships, membershipId, userRole)| == |memberships|
    ensures forall i :: 0 <= i < |memberships| ==>
              && SetMembershipRole(memberships, membershipId, userRole)[i].id == memberships[i].id
              && SetMembershipRole(memberships, membershipId, userRole)[i].workspaceId == memberships[i].workspaceId
              && SetMembershipRole(memberships, membershipId, userRole)[i].userId == memberships[i].userId
              && (memberships[i].id != membershipId ==> SetMembershipRole(memberships, membershipId, userRole)[i] == memberships[i])
              && (memberships[i].id == membershipId ==> SetMembershipRole(memberships, membershipId, userRole)[i].userRole == userRole)
    ensures MembershipPairsUnique(memberships) ==> MembershipPairsUnique(SetMembershipRole(memberships, membershipId, userRole))
  {
  }

  /** There is no last-admin guard: the only admin may demote themself, leaving the workspace without an admin. */
  lemma SoleAdminMayDemoteThemself()
    ensures var s := Snapshot([], [Workspace(1, "team", false, 7)], [Membership(3, 1, 7, Admin)], [], [], [], [], [], [], [], 4);
            && ManageMembershipCheck(s, Some(7), 3, "updating member role").Pass?
            && HasAdmin(s.memberships, 1)
            && !HasAdmin(SetMembershipRole(s.memberships, 3, Viewer), 1)
  {
    var s := Snapshot([], [Workspace(1, "team", false, 7)], [Membership(3, 1, 7, Admin)], [], [], [], [], [], [], [], 4);
    assert GetMembershipById(s, 3) == Some(Membership(3, 1, 7, Admin));
    assert GetMembership(s, 1, 7) == Some(Membership(3, 1, 7, Admin));
    assert s.memberships[0] in s.memberships;
    assert SetMembershipRole(s.memberships, 3, Viewer) == [Membership(3, 1, 7, Viewer)];
  }

  /** `removeMembershipHandler`: on success exactly that membership is deleted. */
  method RemoveMembershipHandler(db: Store, caller: Option<Id>, membershipId: Id) returns (r: Outcome<Failure>)
    modifies db
    ensures r == ManageMembershipCheck(old(db.State()), caller, membershipId, "removing members")
    ensures r.Fail? ==> db.State() == old(db.State())
    ensures r.Pass? ==> db.State() == old(db.State()).(memberships := Without(old(db.memberships), MembershipKey, {membershipId}))
    ensures old(db.State()).WellFormed() ==> db.State().WellFormed()
    ensures db.events == old(db.events)
  {
    r := ManageMembershipCheck(db.State(), caller, membershipId, "removing members");
    if r.Fail? {
      return;
    }
    var _ := db.DeleteMembership(membershipId);
  }

  /** Nothing protects the last admin: the only admin may remove their own membership. */
  lemma SoleAdminMayRemoveThemself()
    ensures var s := Snapshot([], [Workspace(1, "team", false, 7)], [Membership(3, 1, 7, Admin)], [], [], [], [], [], [], [], 4);
            && ManageMembershipCheck(s, Some(7), 3, "removing members").Pass?
            && Without(s.memberships, MembershipKey, {3}) == []
  {
    var s := Snapshot([], [Workspace(1, "team", false, 7)], [Membership(3, 1, 7, Admin)], [], [], [], [], [], [], [], 4);
    assert GetMembershipById(s, 3) == Some(Membership(3, 1, 7, Admin));
    assert GetMembership(s, 1, 7) == Some(Membership(3, 1, 7, Admin));
  }

  // ------------------------------------------------ removeUserFromWorkspace

  /**
   * The guards of `removeUserFromWorkspaceHandler`: the caller, admin of the
   * workspace, and only then the target's membership, whose id it yields.
   */
  function RemoveUserFromWorkspaceCheck(s: Snapshot, caller: Option<Id>, workspaceId: Id, userId: Id): (r: Result<Id, Failure>)
    ensures r.Success? <==> caller.Some? && IsAdminOf(s, workspaceId, caller.value) && IsMember(s, workspaceId, userId)
    ensures caller.None? ==> r == Failure(NotAuthenticated)
    ensures caller.Some? && !IsAdminOf(s, workspaceId, caller.value) ==> r == Failure(InsufficientFor("removing users"))
    ensures caller.Some? && IsAdminOf(s, workspaceId, caller.value) && !IsMember(s, workspaceId, userId) ==> r == Failure(MembershipNotFound)
    ensures r.Success? ==> r.value == GetMembership(s, workspaceId, userId).value.id
  {
    if caller.None? then Failure(NotAuthenticated)
    else
      var currentMembership := GetMembership(s, workspaceId, caller.value);
      var permitted := RequirePermission(AdminFlag(currentMembership), "removing users");
      if permitted.Fail? then Failure(permitted.error)
      else
        var membership := GetMembership(s, workspaceId, userId);
        if membership.None? then Failure(MembershipNotFound)
        else Success(membership.value.id)
  }

  /** `removeUserFromWorkspaceHandler`: on success the (workspace, user) membership found is deleted. */
  method RemoveUserFromWorkspaceHandler(db: Store, caller: Option<Id>, workspaceId: Id, userId: Id) returns (r: Outcome<Failure>)
    modifies db
    ensures RemoveUserFromWorkspaceCheck(old(db.State()), caller, workspaceId, userId).Failure? ==>
              && r == Fail(RemoveUserFromWorkspaceCheck(old(db.State()), caller, workspaceId, userId).error)
              && db.State() == old(db.State())
    ensures RemoveUserFromWorkspaceCheck(old(db.State()), caller, workspaceId, userId).Success? ==>
              && r == Pass
              && db.State() == old(db.State()).(memberships := Without(old(db.memberships), MembershipKey,
                                                                       {RemoveUserFromWorkspaceCheck(old(db.State()), caller, workspaceId, userId).value}))
    ensures old(db.State()).WellFormed() ==> db.State().WellFormed()
    ensures db.events == old(db.events)
  {
    var check := RemoveUserFromWorkspaceCheck(db.State(), caller, workspaceId, userId);
    if check.Failure? {
      return Fail(check.error);
    }
    var _ := db.DeleteMembership(check.value);
    return Pass;
  }

  /** With pairs unique, a successful removal leaves the user with no membership in the workspace, and keeps every other one. */
  lemma RemoveUserFromWorkspaceRemovesPair(s: Snapshot, caller: Option<Id>, workspaceId: Id, userId: Id)
    requires MembershipPairsUnique(s.memberships)
    requires RemoveUserFromWorkspaceCheck(s, caller, workspaceId, userId).Success?
    ensures var after := Without(s.memberships, MembershipKey, {RemoveUserFromWorkspaceCheck(s, caller, workspaceId, userId).value});
            && (forall m :: m in after ==> !(m.workspaceId == workspaceId && m.userId == userId))
            && (forall m :: m in s.memberships && !(m.workspaceId == workspaceId && m.userId == userId) ==>
                             m.id != RemoveUserFromWorkspaceCheck(s, caller, workspaceId, userId).value ==> m in after)
  {
    var target := GetMembership(s, workspaceId, userId).value;
    forall m | m in s.memberships && m.workspaceId == workspaceId && m.userId == userId
      ensures m.id == target.id
    {
      var i :| 0 <= i < |s.memberships| && s.memberships[i] == m;
      var k :| 0 <= k < |s.memberships| && s.memberships[k] == target;
      if i < k {
        assert false;
      } else if k < i {
        assert false;
      }
    }
  }

  /** An admin may remove their own membership. */
  lemma AdminMayRemoveThemself(s: Snapshot, workspaceId: Id, callerId: Id)
    requires IsAdminOf(s, workspaceId, callerId)
    ensures RemoveUserFromWorkspaceCheck(s, Some(callerId), workspaceId, callerId) == Success(GetMembership(s, workspaceId, callerId).value.id)
  {
  }

  // ------------------------------------------------------------- listing

  /** `getMembershipsByWorkspaceHandler`: members of any role list every membership of the workspace, their own included. */
  function GetMembershipsByWorkspaceHandler(s: Snapshot, caller: Option<Id>, workspaceId: Id): (r: Result<seq<Membership>, Failure>)
    ensures caller.None? ==> r == Failure(NotAuthenticated)
    ensures caller.Some? ==> (r.Success? <==> IsMember(s, workspaceId, caller.value))
    ensures caller.Some? && r.Failure? ==> r.error == AccessDenied
    ensures r.Success? ==> forall m :: m in r.value <==> m in s.memberships && m.workspaceId == workspaceId
    ensures r.Success? ==> GetMembership(s, workspaceId, caller.value).value in r.value
    ensures r.Success? ==> SortedBy(r.value, MembershipUserOrder)
  {
    if caller.None? then Failure(NotAuthenticated)
    else if GetMembership(s, workspaceId, caller.value).None? then Failure(AccessDenied)
    else Success(MembershipsOfWorkspace(s, workspaceId))
  }
}
