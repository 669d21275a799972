/**
 * The host-side helpers of convex/utils/accessControl.ts: `checkEntityAccess`,
 * which resolves the caller's standing towards an entity, and
 * `checkWritePermission`, which rejects viewers.
 */
module AccessControl {
  import opened Wrappers
  import opened Roles
  import opened Validation
  import opened Store
  import opened Queries
  import opened Access
  import opened EntityQueries

  /** What `checkEntityAccess` hands back: the entity, the caller's home membership, and the shared role when there is none. */
  datatype EntityAccessResult = EntityAccessResult(entity: Entity, membership: Option<Membership>, effectiveAccess: Option<Role>)

  const EntityNotFound := NotFound("Entity not found")
  const InsufficientPermissions := PermissionDenied("Insufficient permissions")

  /**
   * `checkEntityAccess`. The entity is looked up before the caller is
   * authenticated; a home member gets no effective role, anybody else the
   * role the effective-access resolver computes, and none is an error.
   */
  function CheckEntityAccess(s: Snapshot, caller: Option<Id>, entityId: Id): (r: Result<EntityAccessResult, Failure>)
    ensures GetEntity(s, entityId).None? ==> r == Failure(EntityNotFound)
    ensures GetEntity(s, entityId).Some? && caller.None? ==> r == Failure(NotAuthenticated)
    ensures GetEntity(s, entityId).Some? && caller.Some? ==>
              (r.Success? <==> Reaches(s, GetEntity(s, entityId).value, caller.value))
    ensures GetEntity(s, entityId).Some? && caller.Some? && r.Failure? ==> r.error == AccessDenied
    ensures r.Success? ==> r.value.entity == GetEntity(s, entityId).value && r.value.entity.id == entityId
    ensures r.Success? ==> r.value.membership == GetMembership(s, r.value.entity.workspaceId, caller.value)
    ensures r.Success? && r.value.membership.Some? ==> r.value.effectiveAccess.None?
    ensures r.Success? && r.value.membership.None? ==>
              r.value.effectiveAccess == Some(FirstReachable(s, GetEntityAccess(s, entityId), caller.value).value.accessLevel)
  {
    var entity := GetEntity(s, entityId);
    if entity.None? then Failure(EntityNotFound)
    else if caller.None? then Failure(NotAuthenticated)
    else
      ReachesByScan(s, entity.value, caller.value);
      var membership := GetMembership(s, entity.value.workspaceId, caller.value);
      if membership.Some? then Success(EntityAccessResult(entity.value, membership, None))
      else
        var effectiveAccess := EffectiveAccess(s, entityId, caller.value);
        if effectiveAccess.None? then Failure(AccessDenied)
        else Success(EntityAccessResult(entity.value, membership, effectiveAccess))
  }

  /** `checkWritePermission`: only a viewer membership is rejected; no membership at all passes. */
  function CheckWritePermission(membership: Option<Membership>): (o: Outcome<Failure>)
    ensures o.Fail? <==> membership.Some? && membership.value.userRole == Viewer
    ensures o.Fail? ==> o.error == InsufficientPermissions
  {
    if membership.Some? && membership.value.userRole == Viewer then Fail(InsufficientPermissions) else Pass
  }

  /**
   * A caller who reaches the entity only through a grant passes the write
   * check whatever the grant's level, a viewer grant included.
   */
  lemma SharedAccessPassesWriteCheck(s: Snapshot, caller: Option<Id>, entityId: Id)
    requires CheckEntityAccess(s, caller, entityId).Success?
    requires CheckEntityAccess(s, caller, entityId).value.membership.None?
    ensures CheckEntityAccess(s, caller, entityId).value.effectiveAccess.Some?
    ensures CheckWritePermission(CheckEntityAccess(s, caller, entityId).value.membership).Pass?
  {
  }

  /** For a home member the write check is exactly the editor requirement on the home workspace. */
  lemma HomeMemberWriteCheck(s: Snapshot, caller: Option<Id>, entityId: Id)
    requires CheckEntityAccess(s, caller, entityId).Success?
    requires CheckEntityAccess(s, caller, entityId).value.membership.Some?
    ensures var e := CheckEntityAccess(s, caller, entityId).value.entity;
            CheckWritePermission(CheckEntityAccess(s, caller, entityId).value.membership).Pass? <==>
            CheckWorkspaceAccess(s, e.workspaceId, caller.value, Editor)
  {
    var e := CheckEntityAccess(s, caller, entityId).value.entity;
    CanWriteIsEditorAccess(s, e.workspaceId, caller.value);
  }

  /** A user seeing an entity only through a viewer grant still passes the write check. */
  lemma ViewerGrantPassesWriteCheck()
    ensures var s := Snapshot([], [], [Membership(3, 2, 7, Viewer)], [Entity(4, 1)], [Grant(5, 2, 4, Viewer)], [], [], [], [], [], 6);
            && CheckEntityAccess(s, Some(7), 4) == Success(EntityAccessResult(Entity(4, 1), None, Some(Viewer)))
            && CheckWritePermission(None).Pass?
  {
    var s := Snapshot([], [], [Membership(3, 2, 7, Viewer)], [Entity(4, 1)], [Grant(5, 2, 4, Viewer)], [], [], [], [], [], 6);
    assert GetEntity(s, 4) == Some(Entity(4, 1));
    assert !IsMember(s, 1, 7);
    assert IsMember(s, 2, 7);
    assert GetEntityAccess(s, 4) == [Grant(5, 2, 4, Viewer)];
  }
}
