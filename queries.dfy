/**
 * Read-only lookups over the store: the two shared queries `getMembership`
 * and `getEntityAccess`, and the index scans the handlers issue.
 *
 * An index scan returns the matching rows ordered by the index fields that
 * follow the equality prefix, ties in creation order; ids stand for
 * themselves in that ordering. A `.first()` is the first of those rows.
 */
module Queries {
  import opened Wrappers
  import opened Roles
  import opened Validation
  import opened Seqs
  import opened Store

  // ------------------------------------------------------ shared queries

  /**
   * `getMembership`: the first `by_workspace_user` row for the pair. The
   * index does not forbid several rows per pair; then the oldest one wins.
   */
  function GetMembership(s: Snapshot, workspaceId: Id, userId: Id): (r: Option<Membership>)
    ensures r.Some? ==> r.value in s.memberships && r.value.workspaceId == workspaceId && r.value.userId == userId
    ensures r.None? <==> forall m :: m in s.memberships ==> !(m.workspaceId == workspaceId && m.userId == userId)
    ensures r.Some? ==> exists i :: 0 <= i < |s.memberships| && s.memberships[i] == r.value &&
                          forall j :: 0 <= j < i ==> !(s.memberships[j].workspaceId == workspaceId && s.memberships[j].userId == userId)
  {
    First(s.memberships, (m: Membership) => m.workspaceId == workspaceId && m.userId == userId)
  }

  function GrantWorkspaceOrder(g: Grant): nat { g.workspaceId }

  /**
   * `getEntityAccess`: every grant on the entity, in `by_entity_workspace`
   * order, that is by the workspace the grant shares into.
   */
  function GetEntityAccess(s: Snapshot, entityId: Id): (r: seq<Grant>)
    ensures forall g :: g in r <==> g in s.grants && g.entityId == entityId
    ensures SortedBy(r, GrantWorkspaceOrder)
  {
    var matching := Filter(s.grants, (g: Grant) => g.entityId == entityId);
    SortByMembers(matching, GrantWorkspaceOrder);
    SortBy(matching, GrantWorkspaceOrder)
  }

  // ---------------------------------------------------------- row lookups

  function GetUser(s: Snapshot, id: Id): (r: Option<User>)
    ensures r.Some? ==> r.value in s.users && r.value.id == id
    ensures r.None? <==> forall u :: u in s.users ==> u.id != id
  {
    Lookup(s.users, UserKey, id)
  }

  function GetWorkspace(s: Snapshot, id: Id): (r: Option<Workspace>)
    ensures r.Some? ==> r.value in s.workspaces && r.value.id == id
    ensures r.None? <==> forall w :: w in s.workspaces ==> w.id != id
  {
    Lookup(s.workspaces, WorkspaceKey, id)
  }

  function GetMembershipById(s: Snapshot, id: Id): (r: Option<Membership>)
    ensures r.Some? ==> r.value in s.memberships && r.value.id == id
    ensures r.None? <==> forall m :: m in s.memberships ==> m.id != id
  {
    Lookup(s.memberships, MembershipKey, id)
  }

  function GetEntity(s: Snapshot, id: Id): (r: Option<Entity>)
    ensures r.Some? ==> r.value in s.entities && r.value.id == id
    ensures r.None? <==> forall e :: e in s.entities ==> e.id != id
  {
    Lookup(s.entities, EntityKey, id)
  }

  function GetGrant(s: Snapshot, id: Id): (r: Option<Grant>)
    ensures r.Some? ==> r.value in s.grants && r.value.id == id
    ensures r.None? <==> forall g :: g in s.grants ==> g.id != id
  {
    Lookup(s.grants, GrantKey, id)
  }

  function GetProject(s: Snapshot, id: Id): (r: Option<Project>)
    ensures r.Some? ==> r.value in s.projects && r.value.id == id
    ensures r.None? <==> forall p :: p in s.projects ==> p.id != id
  {
    Lookup(s.projects, ProjectKey, id)
  }

  // ---------------------------------------------------------- index scans

  /** `memberships.by_user`. */
  function MembershipsOfUser(s: Snapshot, userId: Id): (r: seq<Membership>)
    ensures forall m :: m in r <==> m in s.memberships && m.userId == userId
  {
    Filter(s.memberships, (m: Membership) => m.userId == userId)
  }

  function MembershipUserOrder(m: Membership): nat { m.userId }

  /** `memberships.by_workspace_user` with only the workspace fixed: ordered by user. */
  function MembershipsOfWorkspace(s: Snapshot, workspaceId: Id): (r: seq<Membership>)
    ensures forall m :: m in r <==> m in s.memberships && m.workspaceId == workspaceId
    ensures SortedBy(r, MembershipUserOrder)
  {
    var matching := Filter(s.memberships, (m: Membership) => m.workspaceId == workspaceId);
    SortByMembers(matching, MembershipUserOrder);
    SortBy(matching, MembershipUserOrder)
  }

  /** `entities.by_workspace`. */
  function EntitiesOfWorkspace(s: Snapshot, workspaceId: Id): (r: seq<Entity>)
    ensures forall e :: e in r <==> e in s.entities && e.workspaceId == workspaceId
  {
    Filter(s.entities, (e: Entity) => e.workspaceId == workspaceId)
  }

  function GrantEntityOrder(g: Grant): nat { g.entityId }

  /** `entityAccess.by_workspace_entity` with only the workspace fixed: ordered by entity. */
  function GrantsOfWorkspace(s: Snapshot, workspaceId: Id): (r: seq<Grant>)
    ensures forall g :: g in r <==> g in s.grants && g.workspaceId == workspaceId
    ensures SortedBy(r, GrantEntityOrder)
  {
    var matching := Filter(s.grants, (g: Grant) => g.workspaceId == workspaceId);
    SortByMembers(matching, GrantEntityOrder);
    SortBy(matching, GrantEntityOrder)
  }

  /** `entityAccess.by_workspace_entity` with both fields fixed, `.first()`. */
  function GrantForPair(s: Snapshot, workspaceId: Id, entityId: Id): (r: Option<Grant>)
    ensures r.Some? ==> r.value in s.grants && r.value.workspaceId == workspaceId && r.value.entityId == entityId
    ensures r.None? <==> forall g :: g in s.grants ==> !(g.workspaceId == workspaceId && g.entityId == entityId)
  {
    First(s.grants, (g: Grant) => g.workspaceId == workspaceId && g.entityId == entityId)
  }

  /** `workspaces.by_owner`. */
  function WorkspacesOfOwner(s: Snapshot, ownerId: Id): (r: seq<Workspace>)
    ensures forall w :: w in r <==> w in s.workspaces && w.ownerId == ownerId
  {
    Filter(s.workspaces, (w: Workspace) => w.ownerId == ownerId)
  }

  /** `workspaces.by_owner_personal` with owner and `personal = true` fixed, `.first()`. */
  function PersonalWorkspaceOf(s: Snapshot, ownerId: Id): (r: Option<Workspace>)
    ensures r.Some? ==> r.value in s.workspaces && r.value.ownerId == ownerId && r.value.personal
    ensures r.None? <==> forall w :: w in s.workspaces ==> !(w.ownerId == ownerId && w.personal)
  {
    First(s.workspaces, (w: Workspace) => w.ownerId == ownerId && w.personal)
  }

  /** `workspaceUsers.by_workspace_user` with both fields fixed, `.first()`. */
  function WorkspaceUserOf(s: Snapshot, workspaceId: Id, userId: Id): (r: Option<WorkspaceUser>)
    ensures r.Some? ==> r.value in s.workspaceUsers && r.value.workspaceId == workspaceId && r.value.userId == userId
    ensures r.None? <==> forall w :: w in s.workspaceUsers ==> !(w.workspaceId == workspaceId && w.userId == userId)
  {
    First(s.workspaceUsers, (w: WorkspaceUser) => w.workspaceId == workspaceId && w.userId == userId)
  }

  /** `workspaceUsers.by_user`. */
  function WorkspaceUsersOfUser(s: Snapshot, userId: Id): (r: seq<WorkspaceUser>)
    ensures forall w :: w in r <==> w in s.workspaceUsers && w.userId == userId
  {
    Filter(s.workspaceUsers, (w: WorkspaceUser) => w.userId == userId)
  }

  function WorkspaceUserOrder(w: WorkspaceUser): nat { w.userId }

  /** `workspaceUsers.by_workspace_user` with only the workspace fixed: ordered by user. */
  function WorkspaceUsersOfWorkspace(s: Snapshot, workspaceId: Id): (r: seq<WorkspaceUser>)
    ensures forall w :: w in r <==> w in s.workspaceUsers && w.workspaceId == workspaceId
    ensures SortedBy(r, WorkspaceUserOrder)
  {
    var matching := Filter(s.workspaceUsers, (w: WorkspaceUser) => w.workspaceId == workspaceId);
    SortByMembers(matching, WorkspaceUserOrder);
    SortBy(matching, WorkspaceUserOrder)
  }

  function LinkProjectOrder(l: WorkspaceProject): nat { l.projectId }

  /** `workspaceProjects.by_workspace_project` with only the workspace fixed: ordered by project. */
  function LinksOfWorkspace(s: Snapshot, workspaceId: Id): (r: seq<WorkspaceProject>)
    ensures forall l :: l in r <==> l in s.workspaceProjects && l.workspaceId == workspaceId
    ensures SortedBy(r, LinkProjectOrder)
  {
    var matching := Filter(s.workspaceProjects, (l: WorkspaceProject) => l.workspaceId == workspaceId);
    SortByMembers(matching, LinkProjectOrder);
    SortBy(matching, LinkProjectOrder)
  }

  function LinkWorkspaceOrder(l: WorkspaceProject): nat { l.workspaceId }

  /** `workspaceProjects.by_project_workspace` with only the project fixed: ordered by workspace. */
  function LinksOfProject(s: Snapshot, projectId: Id): (r: seq<WorkspaceProject>)
    ensures forall l :: l in r <==> l in s.workspaceProjects && l.projectId == projectId
    ensures SortedBy(r, LinkWorkspaceOrder)
  {
    var matching := Filter(s.workspaceProjects, (l: WorkspaceProject) => l.projectId == projectId);
    SortByMembers(matching, LinkWorkspaceOrder);
    SortBy(matching, LinkWorkspaceOrder)
  }

  /** `workspaceProjects.by_project_workspace` with both fields fixed, `.first()`. */
  function LinkForPair(s: Snapshot, projectId: Id, workspaceId: Id): (r: Option<WorkspaceProject>)
    ensures r.Some? ==> r.value in s.workspaceProjects && r.value.projectId == projectId && r.value.workspaceId == workspaceId
    ensures r.None? <==> forall l :: l in s.workspaceProjects ==> !(l.projectId == projectId && l.workspaceId == workspaceId)
  {
    First(s.workspaceProjects, (l: WorkspaceProject) => l.projectId == projectId && l.workspaceId == workspaceId)
  }

  /** `projects.by_workspace`. */
  function ProjectsOfWorkspace(s: Snapshot, workspaceId: Id): (r: seq<Project>)
    ensures forall p :: p in r <==> p in s.projects && p.workspaceId == workspaceId
  {
    Filter(s.projects, (p: Project) => p.workspaceId == workspaceId)
  }

  /** A full scan of `projects` filtered on the owner. */
  function ProjectsOfOwner(s: Snapshot, ownerId: Id): (r: seq<Project>)
    ensures forall p :: p in r <==> p in s.projects && p.ownerId == ownerId
  {
    Filter(s.projects, (p: Project) => p.ownerId == ownerId)
  }

  /** A full scan of `documents` filtered on `projectId`. */
  function DocumentsOfProject(s: Snapshot, projectId: Id): (r: seq<Document>)
    ensures forall d :: d in r <==> d in s.documents && d.projectId == Some(projectId)
  {
    Filter(s.documents, (d: Document) => d.projectId == Some(projectId))
  }

  /** A full scan of `reports` filtered on `projectId`. */
  function ReportsOfProject(s: Snapshot, projectId: Id): (r: seq<Report>)
    ensures forall x :: x in r <==> x in s.reports && x.projectId == projectId
  {
    Filter(s.reports, (x: Report) => x.projectId == projectId)
  }

  // -------------------------------------------------------------- lemmas

  /** Only the memberships table decides `getMembership`. */
  lemma GetMembershipFrame(s: Snapshot, t: Snapshot, workspaceId: Id, userId: Id)
    requires s.memberships == t.memberships
    ensures GetMembership(s, workspaceId, userId) == GetMembership(t, workspaceId, userId)
  {
  }
}
