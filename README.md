# convex-workspaces, modelled in Dafny

convex-workspaces is an authorization library for Convex applications. Users
belong to workspaces through role-carrying memberships (`admin`, `editor`,
`viewer`). Entities live in one home workspace and can be shared into other
workspaces through `entityAccess` grants. An older API does the same for
projects, through `workspaceUsers` rows and `workspaceProjects` links, and
gives every user a personal workspace. A set of internal mutations deletes
users, workspaces, projects, documents and reports in cascades.

This project models that core in Dafny:

- The Convex database is the class `Store.Store`. It has one `seq` field per
  table and a counter for fresh ids. Its methods are the primitive writes
  `ctx.db.insert`, `ctx.db.patch` and `ctx.db.delete`.
- `Store.Snapshot` is the value of every table at one moment.
- Each read-only handler is a function over a `Snapshot`. Where the source
  scans with a loop, the handler is a method with that loop, proved against a
  function.
- Each mutation is a method that `modifies` the store. Its contract says:
  - the outcome is a pure guard function of the old state;
  - the new state is exactly an `After...` function of the old state;
  - well-formedness is kept (ids unique per table and below the counter).
- Lemmas state what the library promises, and what it fails to promise, about
  these functions:
  - least privilege on effective access;
  - uniqueness of (workspace, user) and (workspace, entity) pairs;
  - idempotent bootstrap of the personal workspace;
  - exactly which rows each deletion removes;
  - success reporting and the merged id lists of the cascades.

Module layout:

- `Wrappers`, `Roles`, `ConvexRoles`, `Validation`: values, the role order and the guards.
- `Store`, `Queries`: the database and its index reads.
- `Access`, `AccessControl`: permission resolution.
- `EntityQueries`, `EntityMutations`, `GrantMutations`, `MembershipMutations`,
  `WorkspaceMutations`, `WorkspaceQueries`: the handlers of the
  membership-based API.
- `Personal`, `LegacyWorkspaces`, `Projects`, `LegacyPermissions`: the older
  project API.
- `Cascade`: the cascade deletions.
- `Seqs`: generic sequence helpers.

Where the tests and the code disagree, the model follows the code:

- Tests at tests/security.test.ts:530-544 and tests/security.test.ts:672-686
  expect a share at `admin` level by an editor to be clamped to `editor`. The
  code stores the requested level (`GrantMutations.CreateEntityAccessUnclamped`).
- The test at tests/security.test.ts:572-578 expects a share into a workspace
  the caller does not belong to to be refused. The code never looks at the
  target workspace's memberships.
- `src/entities/mutations.ts` wires a removal handler that lets editors remove
  entities. The assembled handler in `src/entities/mutations/removeEntity.ts`
  demands an admin. Both are modelled (`EntityMutations.EditorRemovesOnlyUnderFlatRule`).

## Model

| member | source | states |
|---|---|---|
| Roles.Level | src/utils/types/roles.ts:1-5 | the hierarchy gives every role a level between 1 and 3 |
| Roles.LevelInjective | src/utils/types/roles.ts:1-5 | distinct roles have distinct levels, so the hierarchy is a strict total order |
| Roles.HasRoleReflexive | src/utils/permissions/hasRole.ts:3-5 | every role satisfies its own requirement |
| Roles.HasRoleTransitive | src/utils/permissions/hasRole.ts:3-5 | the role check is transitive |
| Roles.HasRoleTotalAntisymmetric | src/utils/permissions/hasRole.ts:3-5 | any two roles are comparable, and mutual satisfaction means equality |
| Roles.HasRoleTable | src/utils/permissions/hasRole.ts:3-5 | admin satisfies every requirement; viewer satisfies only viewer; editor satisfies everything but admin |
| Roles.MinRole | src/utils/permissions/getMinRole.ts:3-5 | the result is one of the two roles, its level is at most either argument's, and both arguments satisfy it |
| Roles.MinRoleGreatestLowerBound | src/utils/permissions/getMinRole.ts:3-5 | any role both arguments satisfy, the minimum satisfies too |
| Roles.MinRoleCommutative | src/utils/permissions/getMinRole.ts:3-5 | the minimum does not depend on argument order |
| Roles.MinRoleIdempotent | src/utils/permissions/getMinRole.ts:3-5 | the minimum of a role with itself is that role |
| Roles.MinRoleIdentityAbsorbing | src/utils/permissions/getMinRole.ts:3-5 | admin is the identity of the minimum and viewer absorbs it |
| Roles.MaxRole | convex/utils/roles.ts:52-62 | the join is one of the two roles and satisfies both |
| ConvexRoles.HierarchyAgreesWithLevel | convex/utils/roles.ts:5-9 | the second hierarchy table gives every role the same level as the first |
| ConvexRoles.EffectiveRole | convex/utils/roles.ts:15-26 | the effective role is one of the two inputs, is satisfied by both, and equals their minimum |
| ConvexRoles.CanEdit | convex/utils/roles.ts:31-33 | true exactly for the roles that reach editor |
| ConvexRoles.IsAdmin | convex/utils/roles.ts:38-40 | true exactly for the role that reaches admin |
| ConvexRoles.CanDelete | convex/utils/roles.ts:45-47 | the same rule as isAdmin |
| ConvexRoles.MaxOfRoles | convex/utils/roles.ts:52-62 | the loop's result is viewer or one of the roles, and bounds every role in the list |
| ConvexRoles.UpperBoundInRolesUnique | convex/utils/roles.ts:52-62 | an upper bound of the list that is viewer or a member of the list is unique |
| ConvexRoles.MaxOfRolesOrderIndependent | convex/utils/roles.ts:52-62 | the result does not depend on the order of the list |
| ConvexRoles.GetMaxRole | convex/utils/roles.ts:52-62 | viewer for an empty list; otherwise a member of the list that bounds every role in it |
| Validation.IdText | src/utils/validation/requireEntity.ts:3 | an id renders as a non-empty string of decimal digits inside messages |
| Validation.InsufficientFor | src/utils/validation/requirePermission.ts:3 | the permission error is a denial whose message ends with the action |
| Validation.RequirePermission | src/utils/validation/requirePermission.ts:1-5 | passes exactly on true; false and null both throw the permission error |
| Validation.AlreadyExistsFor | src/utils/validation/requireNotExists.ts:3 | the duplicate error's message starts with the resource name |
| Validation.RequireNotExists | src/utils/validation/requireNotExists.ts:1-5 | passes exactly when nothing was found; otherwise throws the duplicate error |
| Validation.RequireEntity | src/utils/validation/requireEntity.ts:1-5 | passes exactly when the entity was found; otherwise throws "Entity id not found" |
| Validation.RequireWorkspace | src/utils/validation/requireWorkspace.ts:1-5 | passes exactly when the workspace was found; otherwise throws "Workspace id not found" |
| Queries.GetMembership | src/utils/queries/getMembership.ts:3-15 | null exactly when the pair has no membership; otherwise the earliest membership row of that pair |
| Queries.GetEntityAccess | src/utils/queries/getEntityAccess.ts:3-8 | exactly the grants on the entity, ordered by the workspace they share into |
| Queries.GetMembershipFrame | src/utils/queries/getMembership.ts:8-14 | only the memberships table decides the lookup |
| Access.CheckWorkspaceAccess | src/utils/permissions/checkWorkspaceAccess.ts:6-10 | false for a non-member; for a member, true exactly when the role of the membership `getMembership` finds meets the requirement |
| Access.CheckWorkspaceAccessMonotone | src/utils/permissions/checkWorkspaceAccess.ts:6-10 | passing a requirement passes every lower one |
| Access.CheckWorkspaceAccessViewer | src/utils/permissions/checkWorkspaceAccess.ts:6-10 | the viewer requirement admits exactly the members |
| Access.WriterFlag | src/entityAccess/mutations/createEntityAccess.ts:24-28 | null without a membership; true exactly for a non-viewer membership |
| Access.AdminFlag | src/memberships/mutations/createMembership.ts:19-27 | null without a membership; true exactly for an admin membership |
| Access.CanWriteIsEditorAccess | src/entityAccess/mutations/createEntityAccess.ts:24-28 | the handlers' "not a viewer" test equals the editor requirement of checkWorkspaceAccess |
| Access.IsAdminOfIsAdminAccess | src/memberships/mutations/createMembership.ts:19-27 | the handlers' admin test equals the admin requirement of checkWorkspaceAccess |
| Access.FirstReachable | src/utils/permissions/getEffectiveAccess.ts:17-23 | the scan's grant is the earliest grant in the list whose workspace the user belongs to; none exactly when no grant qualifies |
| Access.FirstReachableIgnoresLater | src/utils/permissions/getEffectiveAccess.ts:17-23 | grants after the first qualifying one are never looked at |
| Access.FirstReachableLeast | src/utils/permissions/getEffectiveAccess.ts:17-23 | in index order, the chosen grant shares into the lowest workspace id among the qualifying grants |
| Access.EffectiveAccess | src/utils/permissions/getEffectiveAccess.ts:7-30 | a missing entity gives null |
| Access.GetEffectiveAccess | src/utils/permissions/getEffectiveAccess.ts:7-30 | the loop that stops at the first qualifying grant computes the effective role |
| Access.EffectiveAccessNull | src/utils/permissions/getEffectiveAccess.ts:25 | null exactly when the entity is gone or neither a home membership nor a qualifying grant exists |
| Access.EffectiveAccessHomeOnly | src/utils/permissions/getEffectiveAccess.ts:27 | a home member with no qualifying grant gets exactly the home role |
| Access.EffectiveAccessSharedOnly | src/utils/permissions/getEffectiveAccess.ts:26 | a non-member gets the level of the first qualifying grant |
| Access.EffectiveAccessCombined | src/utils/permissions/getEffectiveAccess.ts:29 | with both, the result is the minimum of the home role and the grant level |
| Access.EffectiveAccessBelowHome | src/utils/permissions/getEffectiveAccess.ts:25-29 | a home member always gets a role, never above the home role |
| Access.EffectiveAccessSharedFromLeastWorkspace | src/utils/permissions/getEffectiveAccess.ts:14-23 | among several qualifying grants, the one into the lowest workspace id decides |
| Access.EffectiveAccessNotClamped | src/utils/permissions/getEffectiveAccess.ts:20 | a viewer of the granted workspace reaches an entity shared there at admin level as admin |
| AccessControl.CheckEntityAccess | convex/utils/accessControl.ts:14-35 | a missing entity is an error first; then a missing caller; a home member gets no effective role; anyone else gets the resolver's role or "Access denied" |
| AccessControl.CheckWritePermission | convex/utils/accessControl.ts:41-47 | only a viewer membership is refused; no membership passes |
| AccessControl.SharedAccessPassesWriteCheck | convex/utils/accessControl.ts:25-47 | a caller who reaches the entity only through a grant passes the write check whatever the grant's level |
| AccessControl.HomeMemberWriteCheck | convex/utils/accessControl.ts:41-47 | for a home member the write check is the editor requirement on the home workspace |
| AccessControl.ViewerGrantPassesWriteCheck | convex/utils/accessControl.ts:25-47 | a user who sees an entity only through a viewer grant still passes the write check |
| EntityQueries.ReachesByScan | src/entities/queries/checkEntityAccess.ts:31-51 | a scan finds a grant into one of the user's workspaces exactly when the user reaches the entity |
| EntityQueries.ScanGrants | src/entities/queries/checkEntityAccess.ts:36-46 | the loop answers true exactly when some grant in the list is into a workspace the user belongs to |
| EntityQueries.CheckEntityAccessHandler | src/entities/queries/checkEntityAccess.ts:12-72 | false for a missing entity; "Access denied" when the caller does not reach it; otherwise whether the target user reaches it; roles are never consulted |
| EntityQueries.GetEntityByIdHandler | src/entities/queries/getEntityById.ts:12-39 | as written: null for a missing entity; the entity for a home member; for anyone else the entity whenever any grant exists on it |
| EntityQueries.GetEntityByIdIntended | src/entities/queries/getEntityById.ts:12-39 | with the test awaited: the entity only for a caller who reaches it; otherwise "Access denied" |
| EntityQueries.GetEntityByIdAdmitsIntended | src/entities/queries/getEntityById.ts:26-36 | everyone the intended check admits, the written code admits too |
| EntityQueries.GetEntityByIdLeaks | src/entities/queries/getEntityById.ts:28-34 | a caller with no membership anywhere reads an entity shared into another workspace |
| EntityQueries.GetEntitiesByWorkspaceHandler | src/entities/queries/getEntitiesByWorkspace.ts:11-24 | members of any role get exactly the workspace's entities; non-members get "Access denied" |
| EntityQueries.Tagged | src/entities/queries/getUserAccessibleEntities.ts:39-46 | one entry per entity of the membership's workspace, with that membership's role and workspace |
| EntityQueries.HomePass | src/entities/queries/getUserAccessibleEntities.ts:28-47 | the first loop yields the home entries of the memberships, in order |
| EntityQueries.GrantPass | src/entities/queries/getUserAccessibleEntities.ts:49-70 | the second loop extends the list exactly as the grant fold does |
| EntityQueries.GetUserAccessibleEntitiesHandler | src/entities/queries/getUserAccessibleEntities.ts:11-73 | the result is the home pass over the caller's memberships followed by one scan of every grant |
| EntityQueries.HomeEntriesComplete | src/entities/queries/getUserAccessibleEntities.ts:28-47 | every entity of every membership's workspace is listed with that membership's role |
| EntityQueries.HomeEntriesSound | src/entities/queries/getUserAccessibleEntities.ts:28-47 | the first pass lists only such entities, each with its membership's role |
| EntityQueries.AfterGrantsExtends | src/entities/queries/getUserAccessibleEntities.ts:61-68 | the second pass only appends; earlier entries stay in place |
| EntityQueries.AfterGrantsSound | src/entities/queries/getUserAccessibleEntities.ts:51-70 | every added entry comes from a qualifying grant with that grant's level and workspace |
| EntityQueries.AfterGrantsNoRepeat | src/entities/queries/getUserAccessibleEntities.ts:61 | the second pass never adds an id already listed |
| EntityQueries.AfterGrantsKeepsListed | src/entities/queries/getUserAccessibleEntities.ts:61-68 | an id already listed stays listed |
| EntityQueries.AfterGrantsListedFrom | src/entities/queries/getUserAccessibleEntities.ts:51-70 | an id the second pass lists came from a qualifying grant on that entity |
| EntityQueries.AfterGrantsFirstWins | src/entities/queries/getUserAccessibleEntities.ts:51-70 | for an entity not listed by the first pass, the earliest qualifying grant decides its entry |
| EntityQueries.AccessibleIncludesHome | src/entities/queries/getUserAccessibleEntities.ts:28-47 | every entity homed in one of the user's workspaces is listed with that membership's role |
| EntityQueries.AccessibleSound | src/entities/queries/getUserAccessibleEntities.ts:11-73 | every entry is a home entry or comes from a qualifying grant with its level and workspace |
| EntityMutations.CreateEntityCheck | src/entities/mutations/createEntity.ts:16-22 | refuses a missing caller, then anyone without an editor or admin membership |
| EntityMutations.CreateEntityHandler | src/entities/mutations/createEntity.ts:12-29 | on success one entity homed in the workspace is appended and its fresh id returned; on failure nothing changes |
| EntityMutations.CreateEntityRoles | src/entities/mutations/createEntity.ts:18-22 | editors and admins may create entities; viewers and outsiders may not |
| EntityMutations.RemoveEntityCheck | src/entities/mutations/removeEntity.ts:25-38 | refuses a missing caller, a missing entity, then anyone but an admin of its home workspace |
| EntityMutations.FlatRemoveEntityCheck | src/entities/mutations.ts:39-48 | the same order of guards, but any editor or admin passes |
| EntityMutations.GrantsAfterEntityRemoval | src/entities/mutations/removeEntity.ts:41-48 | no grant on the entity remains, and every other grant does |
| EntityMutations.RemoveEntityWrites | src/entities/mutations/removeEntity.ts:41-56 | the grants on the entity are deleted, then the entity, then the callback is invoked when supplied |
| EntityMutations.RemoveEntityHandler | src/entities/mutations/removeEntity.ts:18-58 | on success the entity and its grants are gone; on failure nothing changes |
| EntityMutations.FlatRemoveEntityHandler | src/entities/mutations.ts:30-71 | the same writes behind the weaker guard |
| EntityMutations.EntityRemovalGrants | src/entities/mutations/removeEntity.ts:41-48 | no grant mentions the removed entity, and every grant on another entity survives |
| EntityMutations.EntityRemovalEntities | src/entities/mutations/removeEntity.ts:50-51 | the entity is gone and every other entity remains |
| EntityMutations.RemoveEntityRulesNest | src/entities/mutations.ts:45-48 | whoever passes the admin-only rule passes the wired-in rule |
| EntityMutations.EditorRemovesOnlyUnderFlatRule | src/entities/mutations/removeEntity.ts:35-38 | an editor passes the wired-in rule and fails the admin-only rule |
| GrantMutations.CreateEntityAccessCheck | src/entityAccess/mutations/createEntityAccess.ts:19-41 | in source order: the caller, the entity, a non-viewer home membership, the target workspace, no grant for the pair yet |
| GrantMutations.CreateEntityAccessHandler | src/entityAccess/mutations/createEntityAccess.ts:11-50 | on success exactly one grant at the requested level is appended and its id returned; on failure nothing changes |
| GrantMutations.CreateEntityAccessKeepsPairsUnique | src/entityAccess/mutations/createEntityAccess.ts:33-41 | a successful share keeps every (workspace, entity) pair on at most one grant |
| GrantMutations.CreateEntityAccessUnclamped | src/entityAccess/mutations/createEntityAccess.ts:43-47 | an editor of the home workspace may share at admin level into a workspace they do not belong to |
| GrantMutations.CreateEntityAccessIntoHome | src/entityAccess/mutations/createEntityAccess.ts:30-41 | sharing an entity into its own home workspace passes the guards |
| GrantMutations.ManageGrantCheck | src/entityAccess/mutations/updateEntityAccessLevel.ts:16-28 | in source order: the caller, the grant, its entity, a non-viewer membership in the entity's home workspace |
| GrantMutations.UpdateEntityAccessLevelHandler | src/entityAccess/mutations/updateEntityAccessLevel.ts:9-33 | on success only that grant's level changes; on failure nothing changes |
| GrantMutations.SetGrantLevelFrame | src/entityAccess/mutations/updateEntityAccessLevel.ts:30-32 | every other grant is kept, the grant keeps its workspace and entity, and pairs stay unique |
| GrantMutations.UpdateEntityAccessLevelUnclamped | src/entityAccess/mutations/updateEntityAccessLevel.ts:25-32 | an editor may raise a grant to admin |
| GrantMutations.ManageGrantNeedsHomeWriter | src/entityAccess/mutations/removeEntityAccess.ts:21-25 | membership in the grant's own workspace does not let a user manage it |
| GrantMutations.RemoveEntityAccessHandler | src/entityAccess/mutations/removeEntityAccess.ts:9-28 | on success exactly that grant is deleted; on failure nothing changes |
| GrantMutations.RemoveGrantFrame | src/entityAccess/mutations/removeEntityAccess.ts:27 | every other grant is kept, and pairs stay unique |
| MembershipMutations.CreateMembershipCheck | src/memberships/mutations/createMembership.ts:17-34 | the caller, an admin membership in the workspace, then no membership for the pair yet |
| MembershipMutations.CreateMembershipHandler | src/memberships/mutations/createMembership.ts:9-43 | on success one membership with the requested role is appended and its id returned; on failure nothing changes |
| MembershipMutations.CreateMembershipKeepsPairsUnique | src/memberships/mutations/createMembership.ts:29-34 | a successful add keeps every (workspace, user) pair on at most one membership |
| MembershipMutations.CreateMembershipFindsNewMember | src/memberships/mutations/createMembership.ts:36-40 | afterwards getMembership finds the new member with exactly the requested role |
| MembershipMutations.ManageMembershipCheck | src/memberships/mutations/updateMembershipRole.ts:15-28 | the caller, the membership, then an admin membership of the caller in that workspace |
| MembershipMutations.UpdateMembershipRoleHandler | src/memberships/mutations/updateMembershipRole.ts:8-33 | on success only that membership's role changes; on failure nothing changes |
| MembershipMutations.SetMembershipRoleFrame | src/memberships/mutations/updateMembershipRole.ts:30-32 | every row keeps its id, workspace and user; no other row changes; pairs stay unique |
| MembershipMutations.SoleAdminMayDemoteThemself | src/memberships/mutations/updateMembershipRole.ts:20-32 | the only admin may demote themself, leaving no admin |
| MembershipMutations.RemoveMembershipHandler | src/memberships/mutations/removeMembership.ts:8-28 | on success exactly that membership is deleted; on failure nothing changes |
| MembershipMutations.SoleAdminMayRemoveThemself | src/memberships/mutations/removeMembership.ts:17-27 | nothing protects the last admin from removing their own membership |
| MembershipMutations.RemoveUserFromWorkspaceCheck | src/memberships/mutations/removeUserFromWorkspace.ts:15-28 | the caller, an admin membership, and only then the target's membership |
| MembershipMutations.RemoveUserFromWorkspaceHandler | src/memberships/mutations/removeUserFromWorkspace.ts:8-31 | on success the membership found for the pair is deleted; on failure nothing changes |
| MembershipMutations.RemoveUserFromWorkspaceRemovesPair | src/memberships/mutations/removeUserFromWorkspace.ts:27-30 | with pairs unique, the user has no membership in the workspace afterwards and every other membership is kept |
| MembershipMutations.AdminMayRemoveThemself | src/memberships/mutations/removeUserFromWorkspace.ts:17-30 | an admin may remove their own membership |
| MembershipMutations.GetMembershipsByWorkspaceHandler | src/memberships/queries/getMembershipsByWorkspace.ts:7-22 | members of any role get every membership of the workspace, their own included; others get "Access denied" |
| WorkspaceMutations.AdminMembershipsOfUser | src/workspaces/mutations/createWorkspace.ts:20-24 | exactly the user's admin memberships, in index order |
| WorkspaceMutations.ScanForPersonal | src/workspaces/mutations/createWorkspace.ts:27-32 | the loop finds a personal workspace exactly when the user administers one |
| WorkspaceMutations.AfterWorkspaceCreation | src/workspaces/mutations/createWorkspace.ts:35-46 | the new workspace is appended, then the owner's admin membership |
| WorkspaceMutations.CreateWorkspaceHandler | src/workspaces/mutations/createWorkspace.ts:9-49 | a personal workspace is refused when the caller already administers one; otherwise the workspace and admin membership are inserted and its id returned |
| WorkspaceMutations.CreatePersonalWorkspaceUnique | src/workspaces/mutations/createWorkspace.ts:19-33 | after a passing creation, the new workspace is the only personal workspace the user administers |
| WorkspaceMutations.EditorOfPersonalIsNotBlocked | src/workspaces/mutations/createWorkspace.ts:20-24 | an editor of someone else's personal workspace may still create their own |
| WorkspaceMutations.ManageWorkspaceCheck | src/workspaces/mutations/updateWorkspace.ts:16-25 | the caller, the workspace, then an admin membership in it |
| WorkspaceMutations.UpdateWorkspaceHandler | src/workspaces/mutations/updateWorkspace.ts:9-29 | on success only the name is patched, and only when one is given |
| WorkspaceMutations.RenameWorkspaceFrame | src/workspaces/mutations/updateWorkspace.ts:27-28 | every workspace keeps its id, owner and personal flag; no other workspace changes |
| WorkspaceMutations.RemoveWorkspaceHandler | src/workspaces/mutations/removeWorkspace.ts:18-80 | on success the cascade's exact effect; on failure nothing changes |
| WorkspaceMutations.RemovalEvents | src/workspaces/mutations/removeWorkspace.ts:37-42 | the callback receives the ids of the workspace's entities, taken before anything is deleted |
| WorkspaceMutations.RemoveWorkspaceWrites | src/workspaces/mutations/removeWorkspace.ts:36-79 | memberships, then entities, then held grants, then the workspace are deleted; the callback comes last |
| WorkspaceMutations.WorkspaceRemovalExact | src/workspaces/mutations/removeWorkspace.ts:44-74 | exactly the workspace's memberships, entities, held grants and row are removed; every other row stays |
| WorkspaceMutations.WorkspaceRemovalLeavesDanglingGrants | src/workspaces/mutations/removeWorkspace.ts:61-71 | grants other workspaces hold on the removed entities survive and point at nothing |
| WorkspaceQueries.GetPersonalWorkspaceHandler | src/workspaces/queries/getPersonalWorkspace.ts:12-36 | the first personal workspace the caller owns, with the caller's membership role; null without one or without a membership |
| WorkspaceQueries.GetPersonalWorkspaceByUserIdHandler | src/workspaces/queries/getPersonalWorkspaceByUserId.ts:9-24 | with no caller check, the first personal workspace the user owns, always with the admin role |
| WorkspaceQueries.PersonalWorkspaceIsFirst | src/workspaces/queries/getPersonalWorkspace.ts:18-24 | both queries return the first matching row, never a later one |
| WorkspaceQueries.PersonalWorkspaceRolesDiffer | src/workspaces/queries/getPersonalWorkspaceByUserId.ts:23 | the query by user id answers admin where the membership says viewer |
| WorkspaceQueries.GetWorkspaceByIdHandler | src/workspaces/queries/getWorkspaceById.ts:7-20 | null for a missing workspace, checked before membership; "Access denied" for non-members; otherwise the record with the caller's role |
| WorkspaceQueries.GetWorkspaceByIdRoleIsGranted | src/workspaces/queries/getWorkspaceById.ts:16-19 | a member's answer carries a role the workspace check grants |
| WorkspaceQueries.WorkspaceEntries | src/workspaces/queries/getUserWorkspaces.ts:18-26 | one entry per membership whose workspace still exists, in membership order |
| WorkspaceQueries.WorkspaceEntriesMembers | src/workspaces/queries/getUserWorkspaces.ts:18-26 | an entry appears exactly when a visited membership points at that existing workspace with that role |
| WorkspaceQueries.GetUserWorkspacesHandler | src/workspaces/queries/getUserWorkspaces.ts:6-29 | the loop over the caller's memberships yields those entries |
| WorkspaceQueries.UserWorkspacesExact | src/workspaces/queries/getUserWorkspaces.ts:6-29 | exactly the existing workspaces the caller belongs to, each with that membership's role |
| Personal.RequirePersonalWorkspace | src/utils/requirePersonalWorkspace.ts:12-32 | the first personal workspace the user owns, or the "Personal workspace not found" error when there is none |
| Personal.AfterInitialization | src/utils/initializePersonalWorkspace.ts:16-40 | unchanged when a personal workspace exists; otherwise a personal workspace and the user's admin row are appended |
| Personal.PersonalAfterAppend | src/utils/initializePersonalWorkspace.ts:29-33 | an appended personal workspace becomes the one the lookup finds |
| Personal.NameOrDefault | src/utils/initializePersonalWorkspace.ts:14 | a missing name becomes "My Workspace" |
| Personal.InitializePersonalWorkspace | src/utils/initializePersonalWorkspace.ts:11-43 | the id returned is the user's personal workspace afterwards, found or created |
| Personal.InitializationIdempotent | src/utils/initializePersonalWorkspace.ts:17-26 | a second initialization, with any name, changes nothing |
| Personal.InitializationCreatesAtMostOne | src/utils/initializePersonalWorkspace.ts:17-33 | at most one personal workspace is created, and only when the user had none |
| Personal.InitializedWorkspaceInvisibleToMembershipReader | src/utils/initializePersonalWorkspace.ts:36-40 | the bootstrap writes a workspaceUsers row, so the membership-based personal query still answers null |
| Personal.PersonalNameFor | convex/setDefaultUserData.ts:16 | the user's name, or "User" when missing or empty, followed by "'s Personal Workspace" |
| Personal.SetDefaultUserData | convex/setDefaultUserData.ts:5-22 | a flagged user is left alone; otherwise the bootstrap runs and the flag is set; a missing user rolls everything back |
| Personal.DefaultUserDataIdempotent | convex/setDefaultUserData.ts:9-21 | after a successful call the user is flagged, so a second call changes nothing |
| Personal.DefaultUserDataCreatesAtMostOne | convex/setDefaultUserData.ts:9-21 | repeated calls never add a second personal workspace |
| LegacyWorkspaces.AfterLegacyCreation | src/workspaces/mutations.ts:12-23 | the workspace is appended, then the owner's admin workspaceUsers row |
| LegacyWorkspaces.CreateWorkspace | src/workspaces/mutations.ts:9-26 | no check beyond authentication; the new workspace's id is returned |
| LegacyWorkspaces.LegacyCreationAllowsSecondPersonal | src/workspaces/mutations.ts:9-26 | a user can own two personal workspaces, and the personal lookup keeps answering with the older one |
| LegacyWorkspaces.AddUserCheck | src/workspaces/mutations.ts:36-57 | the caller, the workspace, its owner, then no existing row for the target |
| LegacyWorkspaces.AddUserToWorkspace | src/workspaces/mutations.ts:35-66 | on success one row with the requested role is appended; on failure nothing changes |
| LegacyWorkspaces.AddUserKeepsPairsUnique | src/workspaces/mutations.ts:48-57 | a successful add keeps (workspace, user) pairs unique |
| LegacyWorkspaces.AdminWhoIsNotOwnerCannotAdd | src/workspaces/mutations.ts:43-45 | an admin row does not let a non-owner add users |
| LegacyWorkspaces.DeleteWorkspaceCheck | src/workspaces/mutations.ts:75-78 | a missing workspace and a non-owner get the same error |
| LegacyWorkspaces.DeleteWorkspaceWrites | src/workspaces/mutations.ts:80-110 | projects, rows and links are deleted, the callback is invoked, then the workspace is deleted |
| LegacyWorkspaces.DeleteWorkspace | src/workspaces/mutations.ts:69-114 | on success the exact deletion; on failure nothing changes |
| LegacyWorkspaces.LegacyDeletionExact | src/workspaces/mutations.ts:80-110 | exactly the workspace's projects, rows, held links and workspace row are removed |
| LegacyWorkspaces.LegacyDeletionLeavesForeignLinks | src/workspaces/mutations.ts:80-104 | a link sharing a deleted project into another workspace survives and points at no project |
| Projects.ShareRole | src/projects/mutations.ts:82-88 | an admin passes on the requested role; an editor passes it on unless admin is asked; otherwise viewer |
| Projects.ShareRoleLeastPrivilege | src/projects/mutations.ts:82-88 | a request within the sender's role is granted as asked; any other request yields viewer |
| Projects.ShareRoleIsNotMin | src/projects/mutations.ts:82-88 | an editor asking for admin gets viewer, not the minimum editor |
| Projects.CreateProjectCheck | src/projects/mutations.ts:17-35 | only an admin or editor workspaceUsers row of the caller passes |
| Projects.AfterProjectCreation | src/projects/mutations.ts:37-49 | the project owned by the caller is appended, then its admin link to the workspace |
| Projects.CreateProject | src/projects/mutations.ts:16-52 | on success the project and its link are appended and the project id returned; on failure nothing changes |
| Projects.ShareProjectCheck | src/projects/mutations.ts:67-108 | the caller's row in the source workspace, the target's personal workspace, then no existing link; the project is never read |
| Projects.ShareProject | src/projects/mutations.ts:66-118 | on success one link at the computed level is appended and that level returned; on failure nothing changes |
| Projects.ShareKeepsLinkPairsUnique | src/projects/mutations.ts:96-115 | a successful share keeps (project, workspace) links unique |
| Projects.ShareIgnoresProjectHome | src/projects/mutations.ts:69-115 | a viewer of an unrelated workspace can link any project id, even a missing one, into someone's personal workspace |
| Projects.DeleteProjectCheck | src/projects/mutations.ts:127-147 | the project must exist; then an admin row in its workspace or ownership passes |
| Projects.AfterProjectDeletion | src/projects/mutations.ts:149-165 | the project's links are removed, then the project |
| Projects.DeleteProject | src/projects/mutations.ts:121-169 | on success links are deleted, the callback is invoked, then the project is deleted; on failure nothing changes |
| Projects.ProjectDeletionExact | src/projects/mutations.ts:149-165 | no link of the project survives and every other link does; documents and reports stay |
| Projects.ProjectRole | src/projects/queries.ts:6-33 | null for a missing project; the workspace row's role if any; otherwise the personal-link level, failing when no personal workspace exists |
| Projects.WorkspaceRoleHidesLink | src/projects/queries.ts:18-20 | a viewer workspace row hides an admin link |
| Projects.GetProjectHandler | src/projects/queries.ts:35-41 | any authenticated caller gets any project, with no role check |
| Projects.GetProjectRoleHandler | src/projects/queries.ts:71-77 | the caller's project role |
| Projects.CanEditProjectHandler | src/projects/queries.ts:79-86 | true exactly when the role is admin or editor |
| Projects.CanDeleteProjectHandler | src/projects/queries.ts:88-95 | true exactly when the role is admin |
| Projects.CanDeleteImpliesCanEdit | src/projects/queries.ts:79-95 | whoever may delete may also edit |
| Projects.OwnerMayDeleteThoughQuerySaysNo | src/projects/mutations.ts:142-143 | an owner without a workspace row may delete the project while the delete query answers no |
| Projects.LinkEntry | src/projects/queries.ts:56-64 | throws exactly when the link's project is gone (its workspace is then read with an undefined id); null when only that project's workspace is gone; otherwise the project, workspace and link level |
| Projects.ProjectEntries | src/projects/queries.ts:55-67 | rejects exactly when some link's project is gone; otherwise at most one entry per link |
| Projects.ProjectEntriesMembers | src/projects/queries.ts:55-67 | when nothing rejects, an entry is listed exactly when some link produces it |
| Projects.GetUserProjectsWithRoles | src/projects/queries.ts:43-69 | fails without a caller or a personal workspace; otherwise fails exactly when a link of that workspace points at a missing project, and lists the entries of its links |
| Projects.UserProjectsExact | src/projects/queries.ts:43-69 | when the query succeeds, each listed project has a link in the caller's personal workspace, with the link's level as role |
| LegacyPermissions.GetWorkspaceRole | src/utils/permissions.ts:7-20 | null exactly when the user has no workspaceUsers row in the workspace; otherwise that row's role |
| LegacyPermissions.GetProjectRole | src/utils/permissions.ts:22-51 | null for a missing project; the workspace role when present; fails exactly when neither that nor a personal workspace exists |
| LegacyPermissions.GetProjectRoleAgrees | src/utils/permissions.ts:22-51 | this helper and getProjectRoleInternal agree on every store |
| LegacyPermissions.CanEditProject | src/utils/permissions.ts:53-60 | fails exactly when the role lookup fails; otherwise true exactly for a role reaching editor |
| LegacyPermissions.CanDeleteProject | src/utils/permissions.ts:62-69 | fails exactly when the role lookup fails; otherwise true exactly for admin |
| LegacyPermissions.WorkspaceMemberNeverFails | src/utils/permissions.ts:36-38 | a user with a row in the project's workspace never needs a personal workspace |
| LegacyPermissions.OutsiderWithoutPersonalWorkspaceFails | src/utils/permissions.ts:41 | without a row and without a personal workspace both helpers throw |
| Cascade.CascadeError | convex/utils/cascadeDeletion.ts:127-131 | the caught error text names the kind of row and carries the database's message |
| Cascade.Push | convex/utils/cascadeDeletion.ts:64-84 | nothing is appended when either list is absent; otherwise the lists are concatenated |
| Cascade.Merge | convex/utils/cascadeDeletion.ts:58-84 | success is the conjunction; the nested errors are appended only when the nested cascade failed |
| Cascade.DeleteUsersListed | convex/utils/cascadeDeletion.ts:298-306 | exactly the listed users are removed, and their ids are returned in order |
| Cascade.DeleteWorkspacesListed | convex/utils/cascadeDeletion.ts:298-306 | exactly the listed workspaces are removed, and their ids are returned in order |
| Cascade.DeleteProjectsListed | convex/utils/cascadeDeletion.ts:298-306 | exactly the listed projects are removed, and their ids are returned in order |
| Cascade.DeleteWorkspaceUsersListed | convex/utils/cascadeDeletion.ts:44-47 | exactly the listed workspaceUsers rows are removed, and their ids are returned in order |
| Cascade.DeleteLinksListed | convex/utils/cascadeDeletion.ts:165-168 | exactly the listed links are removed, and their ids are returned in order |
| Cascade.DeleteDocumentsListed | convex/utils/cascadeDeletion.ts:201-204 | exactly the listed documents are removed, and their ids are returned in order |
| Cascade.DeleteReportsListed | convex/utils/cascadeDeletion.ts:211-214 | exactly the listed reports are removed, and their ids are returned in order |
| Cascade.DeleteWorkspaceCascade | convex/utils/cascadeDeletion.ts:136-179 | the new state and result are the workspace cascade's |
| Cascade.WorkspaceCascadeExact | convex/utils/cascadeDeletion.ts:136-179 | no row refers to the workspace and every other row stays; projects homed there stay; the lists name the rows removed; success exactly when the workspace existed |
| Cascade.DeleteProjectCascade | convex/utils/cascadeDeletion.ts:181-235 | the new state and result are the project cascade's |
| Cascade.ProjectCascadeExact | convex/utils/cascadeDeletion.ts:181-235 | no document, report, link or project row refers to the project and every other row stays; success exactly when the project existed |
| Cascade.DeleteDocumentCascade | convex/utils/cascadeDeletion.ts:237-256 | the document is removed; its id is listed either way; success and the single error exactly track whether it existed |
| Cascade.DeleteReportCascade | convex/utils/cascadeDeletion.ts:258-277 | the report is removed; its id is listed either way; success and the single error exactly track whether it existed |
| Cascade.RunNested | convex/utils/cascadeDeletion.ts:54-85 | the loop runs one nested cascade per id and merges each result as it comes |
| Cascade.DeleteUserCascade | convex/utils/cascadeDeletion.ts:21-134 | the new state and the result are those of the user cascade |
| Cascade.StepEffect | convex/utils/cascadeDeletion.ts:55-57 | one nested cascade only removes rows and leaves nothing that refers to its id |
| Cascade.ClearedWithin | convex/utils/cascadeDeletion.ts:54-123 | a later nested cascade cannot bring back a removed reference |
| Cascade.CascadesEffect | convex/utils/cascadeDeletion.ts:54-123 | nested cascades delete exactly the listed workspace or project rows, leave users alone, and clear every listed id |
| Cascade.StepLists | convex/utils/cascadeDeletion.ts:139-193 | the initial result of either nested cascade (the workspace one at 139-147, the project one at 184-193) lists its own id under its table and has no users key |
| Cascade.WorkspaceCascadesLists | convex/utils/cascadeDeletion.ts:63-84 | merging nested workspace cascades grows the workspace list by exactly the ids and leaves users and projects alone |
| Cascade.ProjectCascadesLists | convex/utils/cascadeDeletion.ts:101-122 | merging nested project cascades grows the project list by exactly the ids and leaves users and workspaces alone |
| Cascade.StepSucceeds | convex/utils/cascadeDeletion.ts:58-61 | a nested cascade whose row is there succeeds without error |
| Cascade.CascadesKeepPresent | convex/utils/cascadeDeletion.ts:54-123 | nested cascades over other ids leave a row in place |
| Cascade.CascadesSucceed | convex/utils/cascadeDeletion.ts:54-123 | nested cascades over distinct, existing ids add no failure |
| Cascade.UserCascadeRemovesOwned | convex/utils/cascadeDeletion.ts:21-134 | no `workspaceUsers` row of the user, no workspace or project they own, no row depending on an owned workspace or project, and no user row with their id are left; the newer tables are untouched |
| Cascade.UserCascadeSucceedsIffUserExists | convex/utils/cascadeDeletion.ts:125-131 | success exactly when the user row existed; otherwise the single user error |
| Cascade.UserCascadeLists | convex/utils/cascadeDeletion.ts:24-123 | the user's own id alone under users, the owned workspaces and owned projects in query order |
| Cascade.UserCascadeKeepsOthersProjects | convex/utils/cascadeDeletion.ts:50-123 | a project someone else owns survives even when its home workspace was the user's |
| Cascade.StepKeepsReport | convex/utils/cascadeDeletion.ts:206-214 | a nested cascade removes a report only when it is the cascade of that report's project |
| Cascade.CascadesKeepReport | convex/utils/cascadeDeletion.ts:206-214 | a report survives nested cascades none of which names its project |
| Cascade.UserCascadeKeepsOthersReports | convex/utils/cascadeDeletion.ts:21-134 | a report in a project the user does not own survives the user cascade, whoever wrote it |
| Cascade.UserCascadeLeavesDanglingAuthor | convex/reports/schema.ts:4-12 | the user's report in someone else's project survives with an `authorId` that no user row carries |
| Cascade.Listed | convex/utils/cascadeDeletion.ts:302-304 | a table's key appears exactly when it has a first id to push |
| Cascade.ClearAllData | convex/utils/cascadeDeletion.ts:279-310 | the seven older tables are emptied and each key lists its table's ids; success with no errors; the newer tables and the id counter are unchanged |
| Cascade.ClearedListExact | convex/utils/cascadeDeletion.ts:298-306 | a key is present exactly when its table had rows, and then lists exactly those ids |

## Left out

- Authentication is a parameter: the caller is an optional user id. `getAuthUserId` is not part of this model.
- `_creationTime` is not modelled. Ids are handed out in increasing order and stand for creation order inside indexes.
- `Promise.all` over deletions is modelled as a sequential loop; the deletes touch distinct rows, so the order does not matter.
- Callback bodies (`onEntityRemoved`, `onWorkspaceRemoved`, `onWorkspaceDelete`, `onProjectDelete`) belong to the host application. The model records each invocation with its arguments in a ghost event log, and assumes the callback writes nothing.
- Store.MissingDocument, Store.MissingPatchTarget: the database's own error text is a stand-in; only the fact that a write to a missing row throws is modelled.
- Projects.UndefinedIdRead: the text of the database's rejection of `ctx.db.get(undefined)` is a stand-in; only the fact that the read throws, and so rejects the whole `Promise.all`, is modelled.
- The duplicate `createEntity` of src/entities/mutations.ts has the same body as `createEntityHandler`, so `EntityMutations.CreateEntityHandler` models both.
- Pass-through queries and re-export files (`getWorkspacesByOwner`, `getMembershipsByUser`, the `index.ts` and `queries.ts` aggregators) add no logic and are not modelled separately.
- Documents have no `projectId` in their schema; the model gives documents an optional `projectId`, so the project cascade's filter matches only documents that carry one.
- Personal.DefaultUserDataIdempotent: a user flagged before the first call is not shown to own a personal workspace, because the source skips the bootstrap for a flagged user and so promises nothing about it.
- Cascade.DeleteUserCascade: a delete can throw mid-loop only if a table held the same id twice. The model's `Delete...` primitives ignore a missing row, so that path, and the partial lists it would leave, are not modelled.
- Cascade.DeleteUserCascade: `ctx.runMutation` sub-cascades are modelled as nested calls inside the same transaction; Convex's separate handling of the sub-mutation's transaction is not modelled.
- Cascade.UserCascadeSucceedsIffUserExists: requires that the owned workspaces and owned projects have distinct ids, which well-formed tables guarantee.
- The cascades ignore `memberships`, `entities` and `entityAccess`, as the source does.
- Integer width is not modelled: ids are unbounded naturals.

## Findings

| source | as written | input that shows it | evidently intended | confidence | as-written member | corrected member |
|---|---|---|---|---|---|---|
| src/entities/queries/getEntityById.ts:28-34 | the `some` callback returns the unawaited promise of `getMembership`, which is always truthy, so any grant on the entity admits the caller | a caller with no membership anywhere, and an entity shared by one grant into a workspace the caller does not belong to: the entity is returned | admit a non-member only when some grant's workspace has a membership of the caller, as `checkEntityAccessHandler` does | high, not executed | EntityQueries.GetEntityByIdLeaks | EntityQueries.GetEntityByIdIntended |
