/**
 * The entity mutations: `createEntityHandler` and the two removal handlers,
 * `assembleRemoveEntityHandler` of src/entities/mutations/removeEntity.ts
 * (admin only) and the `assembleRemoveEntity` of src/entities/mutations.ts
 * that the package wires in (any non-viewer). Both removals delete the
 * entity's grants one by one, then the entity, then report the id to the
 * optional callback.
 */
module EntityMutations {
  import opened Wrappers
  import opened Roles
  import opened Validation
  import opened Seqs
  import opened Store
  import opened Queries
  import opened Access

  // ---------------------------------------------------------------- create

  /** The guards of `createEntityHandler`: the caller, then an editor or admin membership in the workspace. */
  function CreateEntityCheck(s: Snapshot, caller: Option<Id>, workspaceId: Id): (o: Outcome<Failure>)
    ensures o.Pass? <==> caller.Some? && CanWrite(s, workspaceId, caller.value)
    ensures caller.None? ==> o == Fail(NotAuthenticated)
    ensures o.Fail? && caller.Some? ==> o == Fail(InsufficientFor("creating entities"))
  {
    if caller.None? then Fail(NotAuthenticated)
    else RequirePermission(WriterFlag(GetMembership(s, workspaceId, caller.value)), "creating entities")
  }

  /** `createEntityHandler`: on success one entity homed in the workspace is appended and its id returned. */
  method CreateEntityHandler(db: Store, caller: Option<Id>, workspaceId: Id) returns (r: Result<Id, Failure>)
    modifies db
    ensures CreateEntityCheck(old(db.State()), caller, workspaceId).Fail? ==>
              && r == Failure(CreateEntityCheck(old(db.State()), caller, workspaceId).error)
              && db.State() == old(db.State())
    ensures CreateEntityCheck(old(db.State()), caller, workspaceId).Pass? ==>
              && r == Success(old(db.nextId))
              && db.State() == old(db.State()).(entities := old(db.entities) + [Entity(old(db.nextId), workspaceId)], nextId := old(db.nextId) + 1)
    ensures old(db.State()).WellFormed() ==> db.State().WellFormed()
    ensures db.events == old(db.events)
  {
    var check := CreateEntityCheck(db.State(), caller, workspaceId);
    if check.Fail? {
      return Failure(check.error);
    }
    var entityId := db.InsertEntity(workspaceId);
    return Success(entityId);
  }

  /** Editors and admins may create entities, viewers and outsiders may not. */
  lemma CreateEntityRoles(s: Snapshot, callerId: Id, workspaceId: Id)
    ensures CreateEntityCheck(s, Some(callerId), workspaceId).Pass? <==>
              IsMember(s, workspaceId, callerId) && GetMembership(s, workspaceId, callerId).value.userRole in {Editor, Admin}
  {
  }

  // ---------------------------------------------------------------- remove

  /** The guards of `assembleRemoveEntityHandler`: the caller, the entity, then an admin membership in its home workspace. */
  function RemoveEntityCheck(s: Snapshot, caller: Option<Id>, entityId: Id): (o: Outcome<Failure>)
    ensures o.Pass? <==> caller.Some? && GetEntity(s, entityId).Some? && IsAdminOf(s, GetEntity(s, entityId).value.workspaceId, caller.value)
    ensures caller.None? ==> o == Fail(NotAuthenticated)
    ensures caller.Some? && GetEntity(s, entityId).None? ==> o == Fail(NotFound("Entity " + IdText(entityId) + " not found"))
    ensures o.Fail? && caller.Some? && GetEntity(s, entityId).Some? ==> o == Fail(InsufficientFor("removing entities"))
  {
    if caller.None? then Fail(NotAuthenticated)
    else
      var entity := GetEntity(s, entityId);
      var entityFound := RequireEntity(entity, entityId);
      if entityFound.Fail? then entityFound
      else RequirePermission(AdminFlag(GetMembership(s, entity.value.workspaceId, caller.value)), "removing entities")
  }

  /** The guards of the wired-in `assembleRemoveEntity`: as above, but any editor or admin passes. */
  function FlatRemoveEntityCheck(s: Snapshot, caller: Option<Id>, entityId: Id): (o: Outcome<Failure>)
    ensures o.Pass? <==> caller.Some? && GetEntity(s, entityId).Some? && CanWrite(s, GetEntity(s, entityId).value.workspaceId, caller.value)
    ensures caller.None? ==> o == Fail(NotAuthenticated)
    ensures caller.Some? && GetEntity(s, entityId).None? ==> o == Fail(NotFound("Entity " + IdText(entityId) + " not found"))
    ensures o.Fail? && caller.Some? && GetEntity(s, entityId).Some? ==> o == Fail(InsufficientFor("removing entities"))
  {
    if caller.None? then Fail(NotAuthenticated)
    else
      var entity := GetEntity(s, entityId);
      var entityFound := RequireEntity(entity, entityId);
      if entityFound.Fail? then entityFound
      else RequirePermission(WriterFlag(GetMembership(s, entity.value.workspaceId, caller.value)), "removing entities")
  }

  /** The grant table after every grant on the entity is deleted. */
  function GrantsAfterEntityRemoval(s: Snapshot, entityId: Id): (r: seq<Grant>)
    ensures forall g :: g in r ==> g in s.grants && g.entityId != entityId
  {
    Without(s.grants, GrantKey, IdSet(GetEntityAccess(s, entityId), GrantKey))
  }

  /** The writes both removal handlers make once their guards pass: the grant loop, the entity, then the callback. */
  method RemoveEntityWrites(db: Store, entityId: Id, hasCallback: bool)
    modifies db
    ensures db.State() == old(db.State()).(grants := GrantsAfterEntityRemoval(old(db.State()), entityId),
                                           entities := Without(old(db.entities), EntityKey, {entityId}))
    ensures db.events == old(db.events) + (if hasCallback then [EntityRemoved(entityId)] else [])
    ensures old(db.State()).WellFormed() ==> db.State().WellFormed()
  {
    var entityAccess := GetEntityAccess(db.State(), entityId);
    db.DeleteGrantRows(entityAccess);
    var _ := db.DeleteEntity(entityId);
    if hasCallback {
      db.events := db.events + [EntityRemoved(entityId)];
    }
  }

  /** `assembleRemoveEntityHandler`, with `hasCallback` telling whether an `onEntityRemoved` callback was supplied. */
  method RemoveEntityHandler(db: Store, caller: Option<Id>, entityId: Id, hasCallback: bool) returns (r: Outcome<Failure>)
    modifies db
    ensures r == RemoveEntityCheck(old(db.State()), caller, entityId)
    ensures r.Fail? ==> db.State() == old(db.State()) && db.events == old(db.events)
    ensures r.Pass? ==> db.State() == old(db.State()).(grants := GrantsAfterEntityRemoval(old(db.State()), entityId),
                                                       entities := Without(old(db.entities), EntityKey, {entityId}))
    ensures r.Pass? ==> db.events == old(db.events) + (if hasCallback then [EntityRemoved(entityId)] else [])
    ensures old(db.State()).WellFormed() ==> db.State().WellFormed()
  {
    r := RemoveEntityCheck(db.State(), caller, entityId);
    if r.Fail? {
      return;
    }
    RemoveEntityWrites(db, entityId, hasCallback);
  }

  /** The wired-in `assembleRemoveEntity` of src/entities/mutations.ts: the same writes behind the weaker guard. */
  method FlatRemoveEntityHandler(db: Store, caller: Option<Id>, entityId: Id, hasCallback: bool) returns (r: Outcome<Failure>)
    modifies db
    ensures r == FlatRemoveEntityCheck(old(db.State()), caller, entityId)
    ensures r.Fail? ==> db.State() == old(db.State()) && db.events == old(db.events)
    ensures r.Pass? ==> db.State() == old(db.State()).(grants := GrantsAfterEntityRemoval(old(db.State()), entityId),
                                                       entities := Without(old(db.entities), EntityKey, {entityId}))
    ensures r.Pass? ==> db.events == old(db.events) + (if hasCallback then [EntityRemoved(entityId)] else [])
    ensures old(db.State()).WellFormed() ==> db.State().WellFormed()
  {
    r := FlatRemoveEntityCheck(db.State(), caller, entityId);
    if r.Fail? {
      return;
    }
    RemoveEntityWrites(db, entityId, hasCallback);
  }

  /**
   * After a removal no grant mentions the entity, and in a well-formed
   * store every grant on another entity is still there.
   */
  lemma EntityRemovalGrants(s: Snapshot, entityId: Id)
    requires s.WellFormed()
    ensures forall g :: g in GrantsAfterEntityRemoval(s, entityId) <==> g in s.grants && g.entityId != entityId
  {
    WithoutListed(s.grants, GrantKey, GetEntityAccess(s, entityId));
  }

  /** After a removal the entity is gone and every other entity of a well-formed store remains. */
  lemma EntityRemovalEntities(s: Snapshot, entityId: Id)
    ensures forall e :: e in Without(s.entities, EntityKey, {entityId}) <==> e in s.entities && e.id != entityId
    ensures GetEntity(s.(entities := Without(s.entities, EntityKey, {entityId})), entityId).None?
  {
  }

  /** Whoever may remove an entity under the admin-only rule may also under the wired-in rule. */
  lemma RemoveEntityRulesNest(s: Snapshot, caller: Option<Id>, entityId: Id)
    requires RemoveEntityCheck(s, caller, entityId).Pass?
    ensures FlatRemoveEntityCheck(s, caller, entityId).Pass?
  {
  }

  /** The two rules disagree on editors: the wired-in handler lets an editor remove an entity, the admin-only one does not. */
  lemma EditorRemovesOnlyUnderFlatRule()
    ensures var s := Snapshot([], [], [Membership(3, 1, 7, Editor)], [Entity(4, 1)], [], [], [], [], [], [], 5);
            && FlatRemoveEntityCheck(s, Some(7), 4).Pass?
            && RemoveEntityCheck(s, Some(7), 4) == Fail(InsufficientFor("removing entities"))
  {
    var s := Snapshot([], [], [Membership(3, 1, 7, Editor)], [Entity(4, 1)], [], [], [], [], [], [], 5);
    assert GetEntity(s, 4) == Some(Entity(4, 1));
    assert GetMembership(s, 1, 7) == Some(Membership(3, 1, 7, Editor));
  }
}
