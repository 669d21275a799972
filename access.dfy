/**
 * The access resolver of src/utils/permissions: `checkWorkspaceAccess`
 * and `getEffectiveAccess`, which combines the caller's role in the
 * entity's home workspace with the level of the first grant that reaches
 * the caller.
 */
module Access {
  import opened Wrappers
  import opened Roles
  import opened Validation
  import opened Seqs
  import opened Store
  import opened Queries

  /** `getMembership` finds a row: the user belongs to the workspace, whatever the role. */
  predicate IsMember(s: Snapshot, workspaceId: Id, userId: Id)
  {
    GetMembership(s, workspaceId, userId).Some?
  }

  /** `checkWorkspaceAccess`: a membership whose role satisfies `required`. */
  function CheckWorkspaceAccess(s: Snapshot, workspaceId: Id, userId: Id, required: Role): (ok: bool)
    ensures !IsMember(s, workspaceId, userId) ==> !ok
    ensures IsMember(s, workspaceId, userId) ==> (ok <==> HasRole(GetMembership(s, workspaceId, userId).value.userRole, required))
    ensures ok ==> exists m :: m in s.memberships && m.workspaceId == workspaceId && m.userId == userId && HasRole(m.userRole, required)
  {
    var membership := GetMembership(s, workspaceId, userId);
    if membership.None? then false
    else HasRole(membership.value.userRole, required)
  }

  /** Passing a requirement passes every lower one. */
  lemma CheckWorkspaceAccessMonotone(s: Snapshot, workspaceId: Id, userId: Id, required: Role, lower: Role)
    requires HasRole(required, lower)
    requires CheckWorkspaceAccess(s, workspaceId, userId, required)
    ensures CheckWorkspaceAccess(s, workspaceId, userId, lower)
  {
    HasRoleTransitive(GetMembership(s, workspaceId, userId).value.userRole, required, lower);
  }

  /** Every member passes a viewer requirement, and only members do. */
  lemma CheckWorkspaceAccessViewer(s: Snapshot, workspaceId: Id, userId: Id)
    ensures CheckWorkspaceAccess(s, workspaceId, userId, Viewer) <==> IsMember(s, workspaceId, userId)
  {
    if IsMember(s, workspaceId, userId) {
      HasRoleTable(GetMembership(s, workspaceId, userId).value.userRole);
    }
  }

  /** `membership && membership.userRole !== "viewer"`: null without a membership. */
  function WriterFlag(membership: Option<Membership>): (r: Option<bool>)
    ensures r.None? <==> membership.None?
    ensures r == Some(true) <==> membership.Some? && membership.value.userRole != Viewer
  {
    if membership.None? then None else Some(membership.value.userRole != Viewer)
  }

  /** `membership && membership.userRole === "admin"`: null without a membership. */
  function AdminFlag(membership: Option<Membership>): (r: Option<bool>)
    ensures r.None? <==> membership.None?
    ensures r == Some(true) <==> membership.Some? && membership.value.userRole == Admin
  {
    if membership.None? then None else Some(membership.value.userRole == Admin)
  }

  /** The user holds an editor or admin membership in the workspace. */
  predicate CanWrite(s: Snapshot, workspaceId: Id, userId: Id)
  {
    WriterFlag(GetMembership(s, workspaceId, userId)) == Some(true)
  }

  /** The user holds an admin membership in the workspace. */
  predicate IsAdminOf(s: Snapshot, workspaceId: Id, userId: Id)
  {
    AdminFlag(GetMembership(s, workspaceId, userId)) == Some(true)
  }

  /** The handlers' "not a viewer" test is the editor requirement of `checkWorkspaceAccess`. */
  lemma CanWriteIsEditorAccess(s: Snapshot, workspaceId: Id, userId: Id)
    ensures CanWrite(s, workspaceId, userId) <==> CheckWorkspaceAccess(s, workspaceId, userId, Editor)
  {
    if IsMember(s, workspaceId, userId) {
      HasRoleTable(GetMembership(s, workspaceId, userId).value.userRole);
    }
  }

  /** The handlers' admin test is the admin requirement of `checkWorkspaceAccess`. */
  lemma IsAdminOfIsAdminAccess(s: Snapshot, workspaceId: Id, userId: Id)
    ensures IsAdminOf(s, workspaceId, userId) <==> CheckWorkspaceAccess(s, workspaceId, userId, Admin)
  {
    if IsMember(s, workspaceId, userId) {
      HasRoleTable(GetMembership(s, workspaceId, userId).value.userRole);
    }
  }

  // ------------------------------------------------------ first reachable

  /** The first of `grants` whose workspace the user belongs to. */
  function FirstReachable(s: Snapshot, grants: seq<Grant>, userId: Id): (r: Option<Grant>)
    ensures r.Some? ==> r.value in grants && IsMember(s, r.value.workspaceId, userId)
    ensures r.None? <==> forall g :: g in grants ==> !IsMember(s, g.workspaceId, userId)
    ensures r.Some? ==> exists i :: 0 <= i < |grants| && grants[i] == r.value &&
                          forall j :: 0 <= j < i ==> !IsMember(s, grants[j].workspaceId, userId)
  {
    First(grants, (g: Grant) => IsMember(s, g.workspaceId, userId))
  }

  /** Once a reachable grant is found, the grants after it are never looked at. */
  lemma FirstReachableIgnoresLater(s: Snapshot, grants: seq<Grant>, later: seq<Grant>, userId: Id)
    requires FirstReachable(s, grants, userId).Some?
    ensures FirstReachable(s, grants + later, userId) == FirstReachable(s, grants, userId)
  {
    FirstIgnoresLater(grants, later, (g: Grant) => IsMember(s, g.workspaceId, userId));
  }

  /**
   * In an index-ordered grant list the first reachable grant shares into
   * the lowest workspace id among all reachable grants.
   */
  lemma FirstReachableLeast(s: Snapshot, grants: seq<Grant>, userId: Id, g: Grant)
    requires SortedBy(grants, GrantWorkspaceOrder)
    requires g in grants && IsMember(s, g.workspaceId, userId)
    ensures FirstReachable(s, grants, userId).Some?
    ensures FirstReachable(s, grants, userId).value.workspaceId <= g.workspaceId
  {
    var f := FirstReachable(s, grants, userId).value;
    var i :| 0 <= i < |grants| && grants[i] == f && forall j :: 0 <= j < i ==> !IsMember(s, grants[j].workspaceId, userId);
    var k :| 0 <= k < |grants| && grants[k] == g;
    assert i <= k;
    if i < k {
      assert GrantWorkspaceOrder(grants[i]) <= GrantWorkspaceOrder(grants[k]);
    }
  }

  // ----------------------------------------------------- effective access

  /** The role `getEffectiveAccess` computes, stated on the whole grant list at once. */
  function EffectiveAccess(s: Snapshot, entityId: Id, userId: Id): (r: Option<Role>)
    ensures GetEntity(s, entityId).None? ==> r.None?
  {
    match GetEntity(s, entityId)
    case None => None
    case Some(entity) =>
      var main := GetMembership(s, entity.workspaceId, userId);
      var shared := FirstReachable(s, GetEntityAccess(s, entityId), userId);
      if main.None? && shared.None? then None
      else if main.None? then Some(shared.value.accessLevel)
      else if shared.None? then Some(main.value.userRole)
      else Some(MinRole(main.value.userRole, shared.value.accessLevel))
  }

  /** `getEffectiveAccess`: the scan of the grants stops at the first reachable one. */
  method GetEffectiveAccess(s: Snapshot, entityId: Id, userId: Id) returns (r: Option<Role>)
    ensures r == EffectiveAccess(s, entityId, userId)
  {
    var entity := GetEntity(s, entityId);
    if entity.None? {
      return None;
    }
    var mainMembership := GetMembership(s, entity.value.workspaceId, userId);
    var entityAccess := GetEntityAccess(s, entityId);
    var sharedRole: Option<Role> := None;
    var i := 0;
    while i < |entityAccess|
      invariant 0 <= i <= |entityAccess|
      invariant FirstReachable(s, entityAccess, userId) == FirstReachable(s, entityAccess[i..], userId)
    {
      var userMembership := GetMembership(s, entityAccess[i].workspaceId, userId);
      if userMembership.Some? {
        sharedRole := Some(entityAccess[i].accessLevel);
        break;
      }
      assert entityAccess[i..][1..] == entityAccess[i + 1..];
      i := i + 1;
    }
    if mainMembership.None? && sharedRole.None? {
      return None;
    }
    if mainMembership.None? {
      return sharedRole;
    }
    if sharedRole.None? {
      return Some(mainMembership.value.userRole);
    }
    return Some(MinRole(mainMembership.value.userRole, sharedRole.value));
  }

  /** Null exactly when the entity is gone or nothing connects the user to it. */
  lemma EffectiveAccessNull(s: Snapshot, entityId: Id, userId: Id)
    ensures EffectiveAccess(s, entityId, userId).None? <==>
      (GetEntity(s, entityId).None? ||
       (!IsMember(s, GetEntity(s, entityId).value.workspaceId, userId) &&
        forall g :: g in s.grants && g.entityId == entityId ==> !IsMember(s, g.workspaceId, userId)))
  {
    if GetEntity(s, entityId).Some? {
      var grants := GetEntityAccess(s, entityId);
      if FirstReachable(s, grants, userId).Some? {
        assert FirstReachable(s, grants, userId).value in grants;
      }
    }
  }

  /** A home member with no reachable grant gets exactly the home role. */
  lemma EffectiveAccessHomeOnly(s: Snapshot, entity: Entity, userId: Id)
    requires GetEntity(s, entity.id) == Some(entity)
    requires IsMember(s, entity.workspaceId, userId)
    requires forall g :: g in s.grants && g.entityId == entity.id ==> !IsMember(s, g.workspaceId, userId)
    ensures EffectiveAccess(s, entity.id, userId) == Some(GetMembership(s, entity.workspaceId, userId).value.userRole)
  {
    assert FirstReachable(s, GetEntityAccess(s, entity.id), userId).None?;
  }

  /**
   * A user reached only through grants gets the level of the first
   * reachable grant, unclamped by the role they hold in that workspace.
   */
  lemma EffectiveAccessSharedOnly(s: Snapshot, entity: Entity, userId: Id)
    requires GetEntity(s, entity.id) == Some(entity)
    requires !IsMember(s, entity.workspaceId, userId)
    requires FirstReachable(s, GetEntityAccess(s, entity.id), userId).Some?
    ensures EffectiveAccess(s, entity.id, userId) == Some(FirstReachable(s, GetEntityAccess(s, entity.id), userId).value.accessLevel)
  {
  }

  /**
   * With both a home membership and a reachable grant, the result is the
   * lower of the two roles, never above either, and one of them.
   */
  lemma EffectiveAccessCombined(s: Snapshot, entity: Entity, userId: Id)
    requires GetEntity(s, entity.id) == Some(entity)
    requires IsMember(s, entity.workspaceId, userId)
    requires FirstReachable(s, GetEntityAccess(s, entity.id), userId).Some?
    ensures var home := GetMembership(s, entity.workspaceId, userId).value.userRole;
            var shared := FirstReachable(s, GetEntityAccess(s, entity.id), userId).value.accessLevel;
            && EffectiveAccess(s, entity.id, userId) == Some(MinRole(home, shared))
            && HasRole(home, EffectiveAccess(s, entity.id, userId).value)
            && HasRole(shared, EffectiveAccess(s, entity.id, userId).value)
            && (EffectiveAccess(s, entity.id, userId).value == home || EffectiveAccess(s, entity.id, userId).value == shared)
  {
  }

  /** The role a home member ends up with never exceeds their home role. */
  lemma EffectiveAccessBelowHome(s: Snapshot, entity: Entity, userId: Id)
    requires GetEntity(s, entity.id) == Some(entity)
    requires IsMember(s, entity.workspaceId, userId)
    ensures EffectiveAccess(s, entity.id, userId).Some?
    ensures HasRole(GetMembership(s, entity.workspaceId, userId).value.userRole, EffectiveAccess(s, entity.id, userId).value)
  {
    HasRoleReflexive(GetMembership(s, entity.workspaceId, userId).value.userRole);
  }

  /** Among several reachable grants, the one sharing into the lowest workspace id decides. */
  lemma EffectiveAccessSharedFromLeastWorkspace(s: Snapshot, entityId: Id, userId: Id, g: Grant)
    requires GetEntity(s, entityId).Some?
    requires g in s.grants && g.entityId == entityId && IsMember(s, g.workspaceId, userId)
    ensures FirstReachable(s, GetEntityAccess(s, entityId), userId).Some?
    ensures FirstReachable(s, GetEntityAccess(s, entityId), userId).value.workspaceId <= g.workspaceId
  {
    FirstReachableLeast(s, GetEntityAccess(s, entityId), userId, g);
  }

  /**
   * The shared role is not clamped: a viewer in the granted workspace
   * reaches an entity shared there at admin level as admin.
   */
  lemma EffectiveAccessNotClamped()
    ensures var s := Snapshot([], [], [Membership(3, 2, 7, Viewer)], [Entity(4, 1)], [Grant(5, 2, 4, Admin)], [], [], [], [], [], 6);
            && GetMembership(s, 2, 7).value.userRole == Viewer
            && EffectiveAccess(s, 4, 7) == Some(Admin)
  {
    var s := Snapshot([], [], [Membership(3, 2, 7, Viewer)], [Entity(4, 1)], [Grant(5, 2, 4, Admin)], [], [], [], [], [], 6);
    assert GetEntity(s, 4) == Some(Entity(4, 1));
    assert !IsMember(s, 1, 7);
    assert IsMember(s, 2, 7);
    assert Grant(5, 2, 4, Admin) in GetEntityAccess(s, 4);
    assert GetEntityAccess(s, 4) == [Grant(5, 2, 4, Admin)];
  }
}
