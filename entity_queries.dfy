/**
 * The entity queries of src/entities/queries: `checkEntityAccessHandler`,
 * `getEntityByIdHandler`, `getUserAccessibleEntitiesHandler` and
 * `getEntitiesByWorkspaceHandler`. All of them only read the store.
 */
module EntityQueries {
  import opened Wrappers
  import opened Roles
  import opened Validation
  import opened Seqs
  import opened Store
  import opened Queries
  import opened Access

  const NotAMember := PermissionDenied("Access denied - you are not a member of this workspace")

  /** The user belongs to the entity's home workspace or to a workspace it is shared into. */
  predicate Reaches(s: Snapshot, entity: Entity, userId: Id)
  {
    || IsMember(s, entity.workspaceId, userId)
    || exists g :: g in s.grants && g.entityId == entity.id && IsMember(s, g.workspaceId, userId)
  }

  // ------------------------------------------------------ checkEntityAccess

  /** Reaching an entity is what the two scans of `checkEntityAccessHandler` test. */
  lemma ReachesByScan(s: Snapshot, entity: Entity, userId: Id)
    ensures Reaches(s, entity, userId) <==>
              IsMember(s, entity.workspaceId, userId) || FirstReachable(s, GetEntityAccess(s, entity.id), userId).Some?
  {
    var grants := GetEntityAccess(s, entity.id);
    if FirstReachable(s, grants, userId).Some? {
      assert FirstReachable(s, grants, userId).value in grants;
    }
  }

  /** One scan of a grant list, stopping at the first granted workspace the user belongs to. */
  method ScanGrants(s: Snapshot, entityAccess: seq<Grant>, userId: Id) returns (found: bool)
    ensures found <==> FirstReachable(s, entityAccess, userId).Some?
  {
    found := false;
    var i := 0;
    while i < |entityAccess|
      invariant 0 <= i <= |entityAccess|
      invariant forall j :: 0 <= j < i ==> !IsMember(s, entityAccess[j].workspaceId, userId)
    {
      var membership := GetMembership(s, entityAccess[i].workspaceId, userId);
      if membership.Some? {
        found := true;
        break;
      }
      i := i + 1;
    }
  }

  /**
   * `checkEntityAccessHandler`: may the target user reach the entity? The
   * caller must reach it first. Roles are never consulted.
   */
  method CheckEntityAccessHandler(s: Snapshot, caller: Option<Id>, entityId: Id, userId: Id) returns (r: Result<bool, Failure>)
    ensures caller.None? ==> r == Failure(NotAuthenticated)
    ensures caller.Some? && GetEntity(s, entityId).None? ==> r == Success(false)
    ensures caller.Some? && GetEntity(s, entityId).Some? && !Reaches(s, GetEntity(s, entityId).value, caller.value) ==>
              r == Failure(NotAMember)
    ensures caller.Some? && GetEntity(s, entityId).Some? && Reaches(s, GetEntity(s, entityId).value, caller.value) ==>
              r == Success(Reaches(s, GetEntity(s, entityId).value, userId))
  {
    if caller.None? {
      return Failure(NotAuthenticated);
    }
    var currentUserId := caller.value;
    var entity := GetEntity(s, entityId);
    if entity.None? {
      return Success(false);
    }
    ReachesByScan(s, entity.value, currentUserId);
    ReachesByScan(s, entity.value, userId);
    var currentUserMembership := GetMembership(s, entity.value.workspaceId, currentUserId);
    if currentUserMembership.None? {
      var hasSharedAccess := ScanGrants(s, GetEntityAccess(s, entityId), currentUserId);
      if !hasSharedAccess {
        return Failure(NotAMember);
      }
    }
    var membership := GetMembership(s, entity.value.workspaceId, userId);
    if membership.Some? {
      return Success(true);
    }
    var targetReached := ScanGrants(s, GetEntityAccess(s, entityId), userId);
    return Success(targetReached);
  }

  // ---------------------------------------------------------- getEntityById

  /**
   * `getEntityByIdHandler` as written. For a caller outside the home
   * workspace, the `some` callback returns a promise, which is always
   * truthy, so any grant at all on the entity lets the caller read it.
   */
  function GetEntityByIdHandler(s: Snapshot, caller: Option<Id>, entityId: Id): (r: Result<Option<Entity>, Failure>)
    ensures caller.None? ==> r == Failure(NotAuthenticated)
    ensures caller.Some? && GetEntity(s, entityId).None? ==> r == Success(None)
    ensures caller.Some? && GetEntity(s, entityId).Some? ==>
              (r.Success? <==> IsMember(s, GetEntity(s, entityId).value.workspaceId, caller.value) ||
                               exists g :: g in s.grants && g.entityId == entityId)
    ensures r.Success? && GetEntity(s, entityId).Some? ==> r.value == GetEntity(s, entityId)
    ensures r.Failure? && caller.Some? ==> r.error == AccessDenied
  {
    if caller.None? then Failure(NotAuthenticated)
    else
      var entity := GetEntity(s, entityId);
      if entity.None? then Success(None)
      else if IsMember(s, entity.value.workspaceId, caller.value) then Success(entity)
      else
        var entityAccess := GetEntityAccess(s, entityId);
        var hasAccess := |entityAccess| > 0;
        assert hasAccess ==> entityAccess[0] in entityAccess;
        if !hasAccess then Failure(AccessDenied) else Success(entity)
  }

  /** `getEntityByIdHandler` with the membership test awaited: the caller must reach the entity. */
  function GetEntityByIdIntended(s: Snapshot, caller: Option<Id>, entityId: Id): (r: Result<Option<Entity>, Failure>)
    ensures caller.None? ==> r == Failure(NotAuthenticated)
    ensures caller.Some? && GetEntity(s, entityId).None? ==> r == Success(None)
    ensures caller.Some? && GetEntity(s, entityId).Some? ==>
              (r.Success? <==> Reaches(s, GetEntity(s, entityId).value, caller.value))
    ensures r.Success? && GetEntity(s, entityId).Some? ==> r.value == GetEntity(s, entityId)
    ensures r.Failure? && caller.Some? ==> r.error == AccessDenied
  {
    if caller.None? then Failure(NotAuthenticated)
    else
      var entity := GetEntity(s, entityId);
      if entity.None? then Success(None)
      else if IsMember(s, entity.value.workspaceId, caller.value) then Success(entity)
      else
        var hasAccess := FirstReachable(s, GetEntityAccess(s, entityId), caller.value).Some?;
        if !hasAccess then Failure(AccessDenied) else Success(entity)
  }

  /** Everyone the intended check admits, the code as written admits too. */
  lemma GetEntityByIdAdmitsIntended(s: Snapshot, caller: Option<Id>, entityId: Id)
    requires GetEntityByIdIntended(s, caller, entityId).Success?
    ensures GetEntityByIdHandler(s, caller, entityId) == GetEntityByIdIntended(s, caller, entityId)
  {
  }

  /**
   * The code as written leaks: a caller who belongs to no workspace at all
   * reads an entity that is shared into somebody else's workspace.
   */
  lemma GetEntityByIdLeaks()
    ensures var s := Snapshot([], [], [Membership(3, 2, 8, Admin)], [Entity(4, 1)], [Grant(5, 2, 4, Viewer)], [], [], [], [], [], 6);
            && (forall m :: m in s.memberships ==> m.userId != 7)
            && GetEntityByIdHandler(s, Some(7), 4) == Success(Some(Entity(4, 1)))
            && GetEntityByIdIntended(s, Some(7), 4) == Failure(AccessDenied)
  {
    var s := Snapshot([], [], [Membership(3, 2, 8, Admin)], [Entity(4, 1)], [Grant(5, 2, 4, Viewer)], [], [], [], [], [], 6);
    assert GetEntity(s, 4) == Some(Entity(4, 1));
    assert !IsMember(s, 1, 7) && !IsMember(s, 2, 7);
    assert Grant(5, 2, 4, Viewer) in s.grants;
  }

  // ------------------------------------------------- getEntitiesByWorkspace

  /** `getEntitiesByWorkspaceHandler`: members of any role list the workspace's entities. */
  function GetEntitiesByWorkspaceHandler(s: Snapshot, caller: Option<Id>, workspaceId: Id): (r: Result<seq<Entity>, Failure>)
    ensures caller.None? ==> r == Failure(NotAuthenticated)
    ensures caller.Some? ==> (r.Success? <==> IsMember(s, workspaceId, caller.value))
    ensures caller.Some? && r.Failure? ==> r.error == AccessDenied
    ensures r.Success? ==> forall e :: e in r.value <==> e in s.entities && e.workspaceId == workspaceId
  {
    if caller.None? then Failure(NotAuthenticated)
    else if !IsMember(s, workspaceId, caller.value) then Failure(AccessDenied)
    else Success(EntitiesOfWorkspace(s, workspaceId))
  }

  // ---------------------------------------------- getUserAccessibleEntities

  /** One entry of the accessible-entity listing. */
  datatype AccessibleEntity = AccessibleEntity(id: Id, workspaceId: Id, userRole: Role)

  /** The entries the first pass pushes for one membership: its workspace's entities, tagged with its role. */
  function Tagged(entities: seq<Entity>, m: Membership): (r: seq<AccessibleEntity>)
    ensures |r| == |entities|
    ensures forall k :: 0 <= k < |r| ==> r[k] == AccessibleEntity(entities[k].id, m.workspaceId, m.userRole)
  {
    seq(|entities|, k requires 0 <= k < |entities| => AccessibleEntity(entities[k].id, m.workspaceId, m.userRole))
  }

  /** The first pass over the caller's memberships. */
  function HomeEntries(s: Snapshot, memberships: seq<Membership>): seq<AccessibleEntity>
  {
    if memberships == [] then []
    else
      var m := memberships[|memberships| - 1];
      HomeEntries(s, memberships[..|memberships| - 1]) + Tagged(EntitiesOfWorkspace(s, m.workspaceId), m)
  }

  predicate IdListed(entries: seq<AccessibleEntity>, id: Id)
  {
    exists k :: 0 <= k < |entries| && entries[k].id == id
  }

  /** A grant that the second pass would list: the caller belongs to its workspace and its entity exists. */
  predicate Qualifies(s: Snapshot, userId: Id, g: Grant)
  {
    IsMember(s, g.workspaceId, userId) && GetEntity(s, g.entityId).Some?
  }

  /** One step of the second pass: a qualifying grant on an entity not yet listed is appended. */
  function GrantStep(s: Snapshot, userId: Id, entries: seq<AccessibleEntity>, g: Grant): seq<AccessibleEntity>
  {
    if Qualifies(s, userId, g) && !IdListed(entries, g.entityId)
    then entries + [AccessibleEntity(g.entityId, g.workspaceId, g.accessLevel)]
    else entries
  }

  /** The second pass over `grants`, starting from the entries of the first pass. */
  function AfterGrants(s: Snapshot, userId: Id, home: seq<AccessibleEntity>, grants: seq<Grant>): seq<AccessibleEntity>
  {
    if grants == [] then home
    else GrantStep(s, userId, AfterGrants(s, userId, home, grants[..|grants| - 1]), grants[|grants| - 1])
  }

  /** The whole listing for `userId`. */
  function AccessibleEntities(s: Snapshot, userId: Id): seq<AccessibleEntity>
  {
    AfterGrants(s, userId, HomeEntries(s, MembershipsOfUser(s, userId)), s.grants)
  }

  /** The first pass: for each membership, push every entity of its workspace. */
  method HomePass(s: Snapshot, memberships: seq<Membership>) returns (accessibleEntities: seq<AccessibleEntity>)
    ensures accessibleEntities == HomeEntries(s, memberships)
  {
    accessibleEntities := [];
    for i := 0 to |memberships|
      invariant accessibleEntities == HomeEntries(s, memberships[..i])
    {
      var membership := memberships[i];
      var entities := EntitiesOfWorkspace(s, membership.workspaceId);
      for k := 0 to |entities|
        invariant accessibleEntities == HomeEntries(s, memberships[..i]) + Tagged(entities[..k], membership)
      {
        assert Tagged(entities[..k + 1], membership) ==
               Tagged(entities[..k], membership) + [AccessibleEntity(entities[k].id, membership.workspaceId, membership.userRole)];
        accessibleEntities := accessibleEntities + [AccessibleEntity(entities[k].id, membership.workspaceId, membership.userRole)];
      }
      assert entities[..|entities|] == entities;
      assert memberships[..i + 1][..i] == memberships[..i];
    }
    assert memberships[..|memberships|] == memberships;
  }

  /** The second pass: each grant whose workspace the user belongs to adds its entity if it exists and is not listed yet. */
  method GrantPass(s: Snapshot, userId: Id, home: seq<AccessibleEntity>, allEntityAccess: seq<Grant>) returns (accessibleEntities: seq<AccessibleEntity>)
    ensures accessibleEntities == AfterGrants(s, userId, home, allEntityAccess)
  {
    accessibleEntities := home;
    for i := 0 to |allEntityAccess|
      invariant accessibleEntities == AfterGrants(s, userId, home, allEntityAccess[..i])
    {
      var access := allEntityAccess[i];
      var userMembership := GetMembership(s, access.workspaceId, userId);
      if userMembership.Some? {
        var entity := GetEntity(s, access.entityId);
        if entity.Some? && !IdListed(accessibleEntities, entity.value.id) {
          accessibleEntities := accessibleEntities + [AccessibleEntity(entity.value.id, access.workspaceId, access.accessLevel)];
        }
      }
      assert allEntityAccess[..i + 1][..i] == allEntityAccess[..i];
    }
    assert allEntityAccess[..|allEntityAccess|] == allEntityAccess;
  }

  /** `getUserAccessibleEntitiesHandler`: the home pass over the caller's memberships, then one scan of every grant. */
  method GetUserAccessibleEntitiesHandler(s: Snapshot, caller: Option<Id>) returns (r: Result<seq<AccessibleEntity>, Failure>)
    ensures caller.None? ==> r == Failure(NotAuthenticated)
    ensures caller.Some? ==> r == Success(AccessibleEntities(s, caller.value))
  {
    if caller.None? {
      return Failure(NotAuthenticated);
    }
    var userId := caller.value;
    var home := HomePass(s, MembershipsOfUser(s, userId));
    var accessibleEntities := GrantPass(s, userId, home, s.grants);
    return Success(accessibleEntities);
  }

  // ------------------------------------------------------------- lemmas

  /** The first pass lists every entity of every workspace of the given memberships, with that membership's role. */
  lemma {:induction false} HomeEntriesComplete(s: Snapshot, memberships: seq<Membership>, m: Membership, e: Entity)
    requires m in memberships
    requires e in s.entities && e.workspaceId == m.workspaceId
    ensures AccessibleEntity(e.id, m.workspaceId, m.userRole) in HomeEntries(s, memberships)
    decreases |memberships|
  {
    var n := |memberships| - 1;
    var last := memberships[n];
    if m == last {
      var es := EntitiesOfWorkspace(s, m.workspaceId);
      var k :| 0 <= k < |es| && es[k] == e;
      assert Tagged(es, m)[k] == AccessibleEntity(e.id, m.workspaceId, m.userRole);
    } else {
      assert m in memberships[..n];
      HomeEntriesComplete(s, memberships[..n], m, e);
    }
  }

  /** The first pass lists nothing but entities of those workspaces, each with the membership's role. */
  lemma {:induction false} HomeEntriesSound(s: Snapshot, memberships: seq<Membership>, x: AccessibleEntity)
    requires x in HomeEntries(s, memberships)
    ensures exists m, e :: m in memberships && e in s.entities && e.workspaceId == m.workspaceId &&
                           x == AccessibleEntity(e.id, m.workspaceId, m.userRole)
    decreases |memberships|
  {
    var n := |memberships| - 1;
    var last := memberships[n];
    var es := EntitiesOfWorkspace(s, last.workspaceId);
    if x in HomeEntries(s, memberships[..n]) {
      HomeEntriesSound(s, memberships[..n], x);
      var m, e :| m in memberships[..n] && e in s.entities && e.workspaceId == m.workspaceId &&
                  x == AccessibleEntity(e.id, m.workspaceId, m.userRole);
      assert m in memberships;
    } else {
      var k :| 0 <= k < |Tagged(es, last)| && Tagged(es, last)[k] == x;
      assert es[k] in es;
      assert last in memberships;
    }
  }

  /** The second pass only appends: the first pass's entries stay, in place. */
  lemma {:induction false} AfterGrantsExtends(s: Snapshot, userId: Id, home: seq<AccessibleEntity>, grants: seq<Grant>)
    ensures |home| <= |AfterGrants(s, userId, home, grants)|
    ensures AfterGrants(s, userId, home, grants)[..|home|] == home
    decreases |grants|
  {
    if grants != [] {
      var n := |grants| - 1;
      AfterGrantsExtends(s, userId, home, grants[..n]);
      var prev := AfterGrants(s, userId, home, grants[..n]);
      if GrantStep(s, userId, prev, grants[n]) != prev {
        assert (prev + [AccessibleEntity(grants[n].entityId, grants[n].workspaceId, grants[n].accessLevel)])[..|home|] == prev[..|home|];
      }
    }
  }

  /**
   * Every entry the second pass adds comes from a qualifying grant and
   * carries that grant's level and workspace verbatim.
   */
  lemma {:induction false} AfterGrantsSound(s: Snapshot, userId: Id, home: seq<AccessibleEntity>, grants: seq<Grant>, i: nat)
    requires |home| <= i < |AfterGrants(s, userId, home, grants)|
    ensures exists g :: g in grants && Qualifies(s, userId, g) &&
                        AfterGrants(s, userId, home, grants)[i] == AccessibleEntity(g.entityId, g.workspaceId, g.accessLevel)
    decreases |grants|
  {
    var n := |grants| - 1;
    var prev := AfterGrants(s, userId, home, grants[..n]);
    if i < |prev| {
      AfterGrantsSound(s, userId, home, grants[..n], i);
      var g :| g in grants[..n] && Qualifies(s, userId, g) && prev[i] == AccessibleEntity(g.entityId, g.workspaceId, g.accessLevel);
      assert g in grants;
    } else {
      assert grants[n] in grants;
    }
  }

  /** The second pass never adds an id that is already listed, by the first pass or by itself. */
  lemma {:induction false} AfterGrantsNoRepeat(s: Snapshot, userId: Id, home: seq<AccessibleEntity>, grants: seq<Grant>, i: nat, j: nat)
    requires |home| <= i < |AfterGrants(s, userId, home, grants)|
    requires j < i
    ensures AfterGrants(s, userId, home, grants)[j].id != AfterGrants(s, userId, home, grants)[i].id
    decreases |grants|
  {
    var n := |grants| - 1;
    var prev := AfterGrants(s, userId, home, grants[..n]);
    if i < |prev| {
      AfterGrantsNoRepeat(s, userId, home, grants[..n], i, j);
    } else {
      assert !IdListed(prev, grants[n].entityId);
    }
  }

  /** An id already listed stays listed through the second pass. */
  lemma {:induction false} AfterGrantsKeepsListed(s: Snapshot, userId: Id, home: seq<AccessibleEntity>, grants: seq<Grant>, id: Id)
    requires IdListed(home, id)
    ensures IdListed(AfterGrants(s, userId, home, grants), id)
    decreases |grants|
  {
    AfterGrantsExtends(s, userId, home, grants);
    var k :| 0 <= k < |home| && home[k].id == id;
    assert AfterGrants(s, userId, home, grants)[k] == home[k];
  }

  /** An id the second pass lists, and the first pass did not, came from a qualifying grant on that entity. */
  lemma {:induction false} AfterGrantsListedFrom(s: Snapshot, userId: Id, home: seq<AccessibleEntity>, grants: seq<Grant>, id: Id)
    requires IdListed(AfterGrants(s, userId, home, grants), id) && !IdListed(home, id)
    ensures exists j :: 0 <= j < |grants| && Qualifies(s, userId, grants[j]) && grants[j].entityId == id
    decreases |grants|
  {
    var n := |grants| - 1;
    var prev := AfterGrants(s, userId, home, grants[..n]);
    if IdListed(prev, id) {
      AfterGrantsListedFrom(s, userId, home, grants[..n], id);
      var j :| 0 <= j < n && Qualifies(s, userId, grants[..n][j]) && grants[..n][j].entityId == id;
      assert grants[j] == grants[..n][j];
    } else {
      assert Qualifies(s, userId, grants[n]) && grants[n].entityId == id;
    }
  }

  /**
   * For an entity not listed by the first pass, the earliest qualifying
   * grant in scan order decides its entry; later grants are ignored.
   */
  lemma {:induction false} AfterGrantsFirstWins(s: Snapshot, userId: Id, home: seq<AccessibleEntity>, grants: seq<Grant>, k: nat)
    requires k < |grants| && Qualifies(s, userId, grants[k])
    requires !IdListed(home, grants[k].entityId)
    requires forall j :: 0 <= j < k ==> !(Qualifies(s, userId, grants[j]) && grants[j].entityId == grants[k].entityId)
    ensures AccessibleEntity(grants[k].entityId, grants[k].workspaceId, grants[k].accessLevel) in AfterGrants(s, userId, home, grants)
    decreases |grants|
  {
    var n := |grants| - 1;
    var prev := AfterGrants(s, userId, home, grants[..n]);
    var x := AccessibleEntity(grants[k].entityId, grants[k].workspaceId, grants[k].accessLevel);
    if k < n {
      var front := grants[..n];
      assert front[k] == grants[k];
      forall j | 0 <= j < k
        ensures !(Qualifies(s, userId, front[j]) && front[j].entityId == front[k].entityId)
      {
        assert front[j] == grants[j];
      }
      AfterGrantsFirstWins(s, userId, home, front, k);
      assert x in prev;
      assert x in GrantStep(s, userId, prev, grants[n]);
    } else {
      if IdListed(prev, grants[k].entityId) {
        AfterGrantsListedFrom(s, userId, home, grants[..n], grants[k].entityId);
        assert false;
      }
      assert GrantStep(s, userId, prev, grants[n]) == prev + [x];
    }
  }

  /** Every entity homed in a workspace where the user holds a membership is listed, with that membership's role. */
  lemma AccessibleIncludesHome(s: Snapshot, userId: Id, m: Membership, e: Entity)
    requires m in s.memberships && m.userId == userId
    requires e in s.entities && e.workspaceId == m.workspaceId
    ensures AccessibleEntity(e.id, m.workspaceId, m.userRole) in AccessibleEntities(s, userId)
  {
    var home := HomeEntries(s, MembershipsOfUser(s, userId));
    HomeEntriesComplete(s, MembershipsOfUser(s, userId), m, e);
    AfterGrantsExtends(s, userId, home, s.grants);
    var k :| 0 <= k < |home| && home[k] == AccessibleEntity(e.id, m.workspaceId, m.userRole);
    assert AccessibleEntities(s, userId)[k] == home[k];
  }

  /**
   * Every entry is either a home entry (an entity of a workspace of one of
   * the user's memberships, with that role) or comes from a qualifying grant
   * with the grant's own level and workspace.
   */
  lemma AccessibleSound(s: Snapshot, userId: Id, x: AccessibleEntity)
    requires x in AccessibleEntities(s, userId)
    ensures || (exists m, e :: m in s.memberships && m.userId == userId && e in s.entities && e.workspaceId == m.workspaceId &&
                               x == AccessibleEntity(e.id, m.workspaceId, m.userRole))
            || (exists g :: g in s.grants && Qualifies(s, userId, g) &&
                            x == AccessibleEntity(g.entityId, g.workspaceId, g.accessLevel))
  {
    var home := HomeEntries(s, MembershipsOfUser(s, userId));
    var all := AccessibleEntities(s, userId);
    AfterGrantsExtends(s, userId, home, s.grants);
    var i :| 0 <= i < |all| && all[i] == x;
    if i < |home| {
      assert home[i] == x;
      HomeEntriesSound(s, MembershipsOfUser(s, userId), x);
    } else {
      AfterGrantsSound(s, userId, home, s.grants, i);
    }
  }
}
