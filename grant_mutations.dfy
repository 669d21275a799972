/**
 * The sharing mutations of src/entityAccess/mutations: create, re-level and
 * remove an `entityAccess` grant. Each handler runs its guards in order
 * against the store as it is, and writes only once all of them pass, so a
 * rejected call leaves every table as it was.
 */
module GrantMutations {
  import opened Wrappers
  import opened Roles
  import opened Validation
  import opened Seqs
  import opened Store
  import opened Queries
  import opened Access

  const AccessNotFound := NotFound("Access not found")

  /** No two grants share an entity into the same workspace. */
  predicate GrantPairsUnique(grants: seq<Grant>)
  {
    forall i, j :: 0 <= i < j < |grants| ==>
      !(grants[i].workspaceId == grants[j].workspaceId && grants[i].entityId == grants[j].entityId)
  }

  // ---------------------------------------------------------------- create

  /**
   * The guards of `createEntityAccessHandler`, in source order: the
   * caller, the entity, a non-viewer membership in the entity's home
   * workspace, the target workspace, no grant for the pair yet.
   */
  function CreateEntityAccessCheck(s: Snapshot, caller: Option<Id>, workspaceId: Id, entityId: Id): (o: Outcome<Failure>)
    ensures o.Pass? <==>
              && caller.Some?
              && GetEntity(s, entityId).Some?
              && CanWrite(s, GetEntity(s, entityId).value.workspaceId, caller.value)
              && GetWorkspace(s, workspaceId).Some?
              && (forall g :: g in s.grants ==> !(g.workspaceId == workspaceId && g.entityId == entityId))
    ensures caller.None? ==> o == Fail(NotAuthenticated)
    ensures caller.Some? && GetEntity(s, entityId).None? ==> o == Fail(NotFound("Entity " + IdText(entityId) + " not found"))
    ensures caller.Some? && GetEntity(s, entityId).Some? && !CanWrite(s, GetEntity(s, entityId).value.workspaceId, caller.value) ==>
              o == Fail(InsufficientFor("sharing entities"))
    ensures caller.Some? && GetEntity(s, entityId).Some? && CanWrite(s, GetEntity(s, entityId).value.workspaceId, caller.value) ==>
              && (GetWorkspace(s, workspaceId).None? ==> o == Fail(NotFound("Workspace " + IdText(workspaceId) + " not found")))
              && (GetWorkspace(s, workspaceId).Some? && GrantForPair(s, workspaceId, entityId).Some? ==> o == Fail(AlreadyExistsFor("Access")))
  {
    if caller.None? then Fail(NotAuthenticated)
    else
      var entity := GetEntity(s, entityId);
      var entityFound := RequireEntity(entity, entityId);
      if entityFound.Fail? then entityFound
      else
        var membership := GetMembership(s, entity.value.workspaceId, caller.value);
        var permitted := RequirePermission(WriterFlag(membership), "sharing entities");
        if permitted.Fail? then permitted
        else
          var targetFound := RequireWorkspace(GetWorkspace(s, workspaceId), workspaceId);
          if targetFound.Fail? then targetFound
          else RequireNotExists(GrantForPair(s, workspaceId, entityId), "Access")
  }

  /** `createEntityAccessHandler`: on success exactly one grant, at the requested level, is appended and its id returned. */
  method CreateEntityAccessHandler(db: Store, caller: Option<Id>, workspaceId: Id, entityId: Id, accessLevel: Role)
    returns (r: Result<Id, Failure>)
    modifies db
    ensures CreateEntityAccessCheck(old(db.State()), caller, workspaceId, entityId).Fail? ==>
              && r == Failure(CreateEntityAccessCheck(old(db.State()), caller, workspaceId, entityId).error)
              && db.State() == old(db.State())
    ensures CreateEntityAccessCheck(old(db.State()), caller, workspaceId, entityId).Pass? ==>
              && r == Success(old(db.nextId))
              && db.State() == old(db.State()).(grants := old(db.grants) + [Grant(old(db.nextId), workspaceId, entityId, accessLevel)],
                                                nextId := old(db.nextId) + 1)
    ensures old(db.State()).WellFormed() ==> db.State().WellFormed()
    ensures db.events == old(db.events)
  {
    var check := CreateEntityAccessCheck(db.State(), caller, workspaceId, entityId);
    if check.Fail? {
      return Failure(check.error);
    }
    var accessId := db.InsertGrant(workspaceId, entityId, accessLevel);
    return Success(accessId);
  }

  /** A successful share keeps every (workspace, entity) pair on at most one grant. */
  lemma CreateEntityAccessKeepsPairsUnique(s: Snapshot, caller: Option<Id>, workspaceId: Id, entityId: Id, accessLevel: Role)
    requires GrantPairsUnique(s.grants)
    requires CreateEntityAccessCheck(s, caller, workspaceId, entityId).Pass?
    ensures GrantPairsUnique(s.grants + [Grant(s.nextId, workspaceId, entityId, accessLevel)])
  {
    var after := s.grants + [Grant(s.nextId, workspaceId, entityId, accessLevel)];
    forall i, j | 0 <= i < j < |after|
      ensures !(after[i].workspaceId == after[j].workspaceId && after[i].entityId == after[j].entityId)
    {
      if j == |s.grants| {
        assert after[i] == s.grants[i];
        assert s.grants[i] in s.grants;
      } else {
        assert after[i] == s.grants[i] && after[j] == s.grants[j];
      }
    }
  }

  /**
   * The guards never look at the requested level or at the caller's
   * standing in the target workspace: an editor of the home workspace may
   * share at admin level into a workspace they do not belong to.
   */
  lemma CreateEntityAccessUnclamped()
    ensures var s := Snapshot([], [Workspace(1, "home", false, 7), Workspace(2, "other", false, 8)],
                              [Membership(3, 1, 7, Editor)], [Entity(4, 1)], [], [], [], [], [], [], 5);
            && !IsMember(s, 2, 7)
            && CreateEntityAccessCheck(s, Some(7), 2, 4).Pass?
  {
    var s := Snapshot([], [Workspace(1, "home", false, 7), Workspace(2, "other", false, 8)],
                      [Membership(3, 1, 7, Editor)], [Entity(4, 1)], [], [], [], [], [], [], 5);
    assert GetEntity(s, 4) == Some(Entity(4, 1));
    assert GetMembership(s, 1, 7) == Some(Membership(3, 1, 7, Editor));
    assert GetWorkspace(s, 2).Some?;
  }

  /** Sharing an entity into its own home workspace passes the guards like any other target. */
  lemma CreateEntityAccessIntoHome(s: Snapshot, callerId: Id, entity: Entity)
    requires GetEntity(s, entity.id) == Some(entity)
    requires CanWrite(s, entity.workspaceId, callerId)
    requires GetWorkspace(s, entity.workspaceId).Some?
    requires forall g :: g in s.grants ==> g.entityId != entity.id
    ensures CreateEntityAccessCheck(s, Some(callerId), entity.workspaceId, entity.id).Pass?
  {
  }

  // ---------------------------------------------------------------- update

  /**
   * The guards of `updateEntityAccessLevelHandler` and of
   * `removeEntityAccessHandler`, which differ only in the action named:
   * the caller, the grant, its entity, a non-viewer membership in the
   * entity's home workspace.
   */
  function ManageGrantCheck(s: Snapshot, caller: Option<Id>, accessId: Id, action: string): (o: Outcome<Failure>)
    ensures o.Pass? <==>
              && caller.Some?
              && GetGrant(s, accessId).Some?
              && GetEntity(s, GetGrant(s, accessId).value.entityId).Some?
              && CanWrite(s, GetEntity(s, GetGrant(s, accessId).value.entityId).value.workspaceId, caller.value)
    ensures caller.None? ==> o == Fail(NotAuthenticated)
    ensures caller.Some? && GetGrant(s, accessId).None? ==> o == Fail(AccessNotFound)
    ensures caller.Some? && GetGrant(s, accessId).Some? && GetEntity(s, GetGrant(s, accessId).value.entityId).None? ==>
              o == Fail(NotFound("Entity " + IdText(GetGrant(s, accessId).value.entityId) + " not found"))
    ensures o.Fail? && caller.Some? && GetGrant(s, accessId).Some? && GetEntity(s, GetGrant(s, accessId).value.entityId).Some? ==>
              o == Fail(InsufficientFor(action))
  {
    if caller.None? then Fail(NotAuthenticated)
    else
      var access := GetGrant(s, accessId);
      if access.None? then Fail(AccessNotFound)
      else
        var entity := GetEntity(s, access.value.entityId);
        var entityFound := RequireEntity(entity, access.value.entityId);
        if entityFound.Fail? then entityFound
        else
          var membership := GetMembership(s, entity.value.workspaceId, caller.value);
          RequirePermission(WriterFlag(membership), action)
  }

  /** `updateEntityAccessLevelHandler`: on success only that grant's level changes. */
  method UpdateEntityAccessLevelHandler(db: Store, caller: Option<Id>, accessId: Id, accessLevel: Role)
    returns (r: Outcome<Failure>)
    modifies db
    ensures r == ManageGrantCheck(old(db.State()), caller, accessId, "updating entity access")
    ensures r.Fail? ==> db.State() == old(db.State())
    ensures r.Pass? ==> db.State() == old(db.State()).(grants := SetGrantLevel(old(db.grants), accessId, accessLevel))
    ensures old(db.State()).WellFormed() ==> db.State().WellFormed()
    ensures db.events == old(db.events)
  {
    r := ManageGrantCheck(db.State(), caller, accessId, "updating entity access");
    if r.Fail? {
      return;
    }
    var _ := db.PatchGrantLevel(accessId, accessLevel);
  }

  /**
   * Re-levelling keeps every other grant, and the re-levelled grant keeps
   * its workspace and entity, so pair uniqueness survives.
   */
  lemma SetGrantLevelFrame(grants: seq<Grant>, accessId: Id, accessLevel: Role)
    ensures |SetGrantLevel(grants, accessId, accessLevel)| == |grants|
    ensures forall i :: 0 <= i < |grants| ==>
              && SetGrantLevel(grants, accessId, accessLevel)[i].id == grants[i].id
              && SetGrantLevel(grants, accessId, accessLevel)[i].workspaceId == grants[i].workspaceId
              && SetGrantLevel(grants, accessId, accessLevel)[i].entityId == grants[i].entityId
              && (grants[i].id != accessId ==> SetGrantLevel(grants, accessId, accessLevel)[i] == grants[i])
              && (grants[i].id == accessId ==> SetGrantLevel(grants, accessId, accessLevel)[i].accessLevel == accessLevel)
    ensures GrantPairsUnique(grants) ==> GrantPairsUnique(SetGrantLevel(grants, accessId, accessLevel))
  {
  }

  /** The new level is not bounded by the caller's own role: an editor may raise a grant to admin. */
  lemma UpdateEntityAccessLevelUnclamped()
    ensures var s := Snapshot([], [], [Membership(3, 1, 7, Editor)], [Entity(4, 1)], [Grant(5, 2, 4, Viewer)], [], [], [], [], [], 6);
            && ManageGrantCheck(s, Some(7), 5, "updating entity access").Pass?
            && SetGrantLevel(s.grants, 5, Admin) == [Grant(5, 2, 4, Admin)]
  {
    var s := Snapshot([], [], [Membership(3, 1, 7, Editor)], [Entity(4, 1)], [Grant(5, 2, 4, Viewer)], [], [], [], [], [], 6);
    assert GetGrant(s, 5) == Some(Grant(5, 2, 4, Viewer));
    assert GetEntity(s, 4) == Some(Entity(4, 1));
    assert GetMembership(s, 1, 7) == Some(Membership(3, 1, 7, Editor));
    assert SetGrantLevel(s.grants, 5, Admin)[0] == Grant(5, 2, 4, Admin);
  }

  /** Belonging to the grant's own workspace does not let a user manage it: only the home workspace counts. */
  lemma ManageGrantNeedsHomeWriter()
    ensures var s := Snapshot([], [], [Membership(3, 2, 7, Admin)], [Entity(4, 1)], [Grant(5, 2, 4, Viewer)], [], [], [], [], [], 6);
            ManageGrantCheck(s, Some(7), 5, "updating entity access") ==
              Fail(InsufficientFor("updating entity access"))
  {
    var s := Snapshot([], [], [Membership(3, 2, 7, Admin)], [Entity(4, 1)], [Grant(5, 2, 4, Viewer)], [], [], [], [], [], 6);
    assert GetGrant(s, 5) == Some(Grant(5, 2, 4, Viewer));
    assert GetEntity(s, 4) == Some(Entity(4, 1));
    assert GetMembership(s, 1, 7).None?;
  }

  // ---------------------------------------------------------------- remove

  /** `removeEntityAccessHandler`: on success exactly that grant is deleted. */
  method RemoveEntityAccessHandler(db: Store, caller: Option<Id>, accessId: Id) returns (r: Outcome<Failure>)
    modifies db
    ensures r == ManageGrantCheck(old(db.State()), caller, accessId, "removing entity access")
    ensures r.Fail? ==> db.State() == old(db.State())
    ensures r.Pass? ==> db.State() == old(db.State()).(grants := Without(old(db.grants), GrantKey, {accessId}))
    ensures old(db.State()).WellFormed() ==> db.State().WellFormed()
    ensures db.events == old(db.events)
  {
    r := ManageGrantCheck(db.State(), caller, accessId, "removing entity access");
    if r.Fail? {
      return;
    }
    var _ := db.DeleteGrant(accessId);
  }

  /** Deleting one grant keeps every other grant, those on the same entity included, and keeps pairs unique. */
  lemma {:induction false} RemoveGrantFrame(grants: seq<Grant>, accessId: Id)
    ensures forall g :: g in Without(grants, GrantKey, {accessId}) <==> g in grants && g.id != accessId
    ensures GrantPairsUnique(grants) ==> GrantPairsUnique(Without(grants, GrantKey, {accessId}))
    decreases |grants|
  {
    if grants != [] {
      RemoveGrantFrame(grants[1..], accessId);
      var rest := Without(grants[1..], GrantKey, {accessId});
      if GrantPairsUnique(grants) {
        assert GrantPairsUnique(grants[1..]) by {
          forall i, j | 0 <= i < j < |grants[1..]|
            ensures !(grants[1..][i].workspaceId == grants[1..][j].workspaceId && grants[1..][i].entityId == grants[1..][j].entityId)
          {
            assert grants[1..][i] == grants[i + 1] && grants[1..][j] == grants[j + 1];
          }
        }
        if grants[0].id != accessId {
          var after := [grants[0]] + rest;
          forall i, j | 0 <= i < j < |after|
            ensures !(after[i].workspaceId == after[j].workspaceId && after[i].entityId == after[j].entityId)
          {
            if i == 0 {
              assert after[j] in rest;
              var k :| 0 <= k < |grants[1..]| && grants[1..][k] == after[j];
              assert grants[k + 1] == after[j];
            } else {
              assert after[i] == rest[i - 1] && after[j] == rest[j - 1];
            }
          }
        }
      }
    }
  }
}
