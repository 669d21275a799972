/**
 * Row identifiers, the error kinds handlers throw, and the four validation
 * guards (`requirePermission`, `requireNotExists`, `requireEntity`,
 * `requireWorkspace`). A guard is a function: it touches no state.
 */
module Validation {
  import opened Wrappers

  /** Document ids. Ids are handed out in increasing order, so their order is creation order. */
  type Id = nat

  /** Decimal text of an id, as it appears inside error messages. */
  function IdText(id: Id): (s: string)
    ensures |s| >= 1
    ensures forall i :: 0 <= i < |s| ==> '0' <= s[i] <= '9'
    decreases id
  {
    var digit := ['0' + (id % 10) as char];
    if id < 10 then digit else IdText(id / 10) + digit
  }

  /** The errors a handler throws, grouped by kind, each with the message text the source uses. */
  datatype Failure =
    | Unauthenticated(message: string)
    | NotFound(message: string)
    | PermissionDenied(message: string)
    | AlreadyExists(message: string)
    | StoreFailure(message: string)   // an error raised by the database itself (write to a missing document)

  /** `requireAuth` of src/utils/validation: no caller identity is an error. */
  const NotAuthenticated := Unauthenticated("Not authenticated")

  /** `requireAuth` of src/utils/authUtils.ts, used by the older workspace and project API. */
  const MustAuthenticate := Unauthenticated("User must be authenticated to perform this action")

  /** The error `requirePermission` throws for an action. */
  function InsufficientFor(action: string): (f: Failure)
    ensures f.PermissionDenied? && |f.message| > |action| && f.message[|f.message| - |action|..] == action
  {
    PermissionDenied("Insufficient permissions for " + action)
  }

  /** The bare membership refusal several handlers throw. */
  const AccessDenied := PermissionDenied("Access denied")

  /** `requirePermission`: passes only on `true`; `false` and `null` both throw. */
  function RequirePermission(hasPermission: Option<bool>, action: string): (o: Outcome<Failure>)
    ensures o.Pass? <==> hasPermission == Some(true)
    ensures o.Fail? ==> o.error == InsufficientFor(action)
  {
    if hasPermission == Some(true) then Pass
    else Fail(InsufficientFor(action))
  }

  /** The error `requireNotExists` throws for a resource. */
  function AlreadyExistsFor(resource: string): (f: Failure)
    ensures f.AlreadyExists? && |f.message| > |resource| && f.message[..|resource|] == resource
  {
    AlreadyExists(resource + " already exists")
  }

  /** `requireNotExists`: passes only when nothing was found. */
  function RequireNotExists<T>(existing: Option<T>, resource: string): (o: Outcome<Failure>)
    ensures o.Pass? <==> existing.None?
    ensures o.Fail? ==> o.error == AlreadyExistsFor(resource)
  {
    if existing.Some? then Fail(AlreadyExistsFor(resource)) else Pass
  }

  /** `requireEntity`: passes only when the entity was found. */
  function RequireEntity<T>(entity: Option<T>, entityId: Id): (o: Outcome<Failure>)
    ensures o.Pass? <==> entity.Some?
    ensures o.Fail? ==> o.error == NotFound("Entity " + IdText(entityId) + " not found")
  {
    if entity.None? then Fail(NotFound("Entity " + IdText(entityId) + " not found")) else Pass
  }

  /** `requireWorkspace`: passes only when the workspace was found. */
  function RequireWorkspace<T>(workspace: Option<T>, workspaceId: Id): (o: Outcome<Failure>)
    ensures o.Pass? <==> workspace.Some?
    ensures o.Fail? ==> o.error == NotFound("Workspace " + IdText(workspaceId) + " not found")
  {
    if workspace.None? then Fail(NotFound("Workspace " + IdText(workspaceId) + " not found")) else Pass
  }
}
