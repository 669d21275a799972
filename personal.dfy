/**
 * The personal-workspace bootstrap of the older API:
 * `requirePersonalWorkspace` (src/utils/requirePersonalWorkspace.ts),
 * `initializePersonalWorkspace` (src/utils/initializePersonalWorkspace.ts)
 * and the host's `setDefaultUserData` (convex/setDefaultUserData.ts).
 * The owner's admin row goes into `workspaceUsers`, not `memberships`.
 */
module Personal {
  import opened Wrappers
  import opened Roles
  import opened Validation
  import opened Seqs
  import opened Store
  import opened Queries
  import opened WorkspaceQueries

  const PersonalMissing := NotFound(
    "Personal workspace not found. Every user must have a personal workspace. " +
    "Ensure that you call initializePersonalWorkspace() in your afterUserCreatedOrUpdated " +
    "callback to create the required personal workspace.")

  /** The name `initializePersonalWorkspace` uses when none is passed. */
  const DefaultPersonalName := "My Workspace"

  /**
   * `requirePersonalWorkspace`: the first workspace the user owns that is
   * marked personal, or an error when there is none.
   */
  function RequirePersonalWorkspace(s: Snapshot, userId: Id): (r: Result<Workspace, Failure>)
    ensures r.Failure? <==> forall w :: w in s.workspaces ==> !(w.ownerId == userId && w.personal)
    ensures r.Failure? ==> r.error == PersonalMissing
    ensures r.Success? ==> r.value in s.workspaces && r.value.ownerId == userId && r.value.personal
    ensures r.Success? ==> exists i :: 0 <= i < |s.workspaces| && s.workspaces[i] == r.value &&
                                     forall j :: 0 <= j < i ==> !(s.workspaces[j].ownerId == userId && s.workspaces[j].personal)
  {
    var personalWorkspace := PersonalWorkspaceOf(s, userId);
    if personalWorkspace.None? then Failure(PersonalMissing) else Success(personalWorkspace.value)
  }

  // ---------------------------------------------------------------- initialize

  /**
   * The store after `initializePersonalWorkspace`: unchanged when the user
   * already owns a personal workspace, otherwise with a personal workspace
   * owned by the user and the user's admin `workspaceUsers` row appended.
   */
  function AfterInitialization(s: Snapshot, userId: Id, name: string): (t: Snapshot)
    ensures PersonalWorkspaceOf(s, userId).Some? ==> t == s
    ensures PersonalWorkspaceOf(s, userId).None? ==>
              && t.workspaces == s.workspaces + [Workspace(s.nextId, name, true, userId)]
              && t.workspaceUsers == s.workspaceUsers + [WorkspaceUser(s.nextId + 1, s.nextId, userId, Admin)]
              && t.nextId == s.nextId + 2
              && t.(workspaces := s.workspaces, workspaceUsers := s.workspaceUsers, nextId := s.nextId) == s
  {
    if PersonalWorkspaceOf(s, userId).Some? then s
    else s.(workspaces := s.workspaces + [Workspace(s.nextId, name, true, userId)],
            workspaceUsers := s.workspaceUsers + [WorkspaceUser(s.nextId + 1, s.nextId, userId, Admin)],
            nextId := s.nextId + 2)
  }

  /** Appending a personal workspace of the user when there was none makes it the one the lookup finds. */
  lemma PersonalAfterAppend(s: Snapshot, userId: Id, w: Workspace)
    requires PersonalWorkspaceOf(s, userId).None?
    requires w.ownerId == userId && w.personal
    ensures PersonalWorkspaceOf(s.(workspaces := s.workspaces + [w]), userId) == Some(w)
  {
    var t := s.(workspaces := s.workspaces + [w]);
    var p := t.workspaces[|s.workspaces|];
    assert p == w && p in t.workspaces;
    var r := PersonalWorkspaceOf(t, userId);
    var i :| 0 <= i < |t.workspaces| && t.workspaces[i] == r.value &&
             forall j :: 0 <= j < i ==> !(t.workspaces[j].ownerId == userId && t.workspaces[j].personal);
    if i < |s.workspaces| {
      assert false;
    }
  }

  /** The name argument after its default applies. */
  function NameOrDefault(workspaceName: Option<string>): (name: string)
    ensures workspaceName.Some? ==> name == workspaceName.value
    ensures workspaceName.None? ==> name == DefaultPersonalName
  {
    if workspaceName.Some? then workspaceName.value else DefaultPersonalName
  }

  /**
   * `initializePersonalWorkspace` with an optional name. The id returned is
   * the user's personal workspace afterwards, whether found or created.
   */
  method InitializePersonalWorkspace(db: Store, userId: Id, workspaceName: Option<string>) returns (id: Id)
    modifies db
    ensures db.State() == AfterInitialization(old(db.State()), userId, NameOrDefault(workspaceName))
    ensures PersonalWorkspaceOf(db.State(), userId).Some? && PersonalWorkspaceOf(db.State(), userId).value.id == id
    ensures PersonalWorkspaceOf(old(db.State()), userId).Some? ==> id == PersonalWorkspaceOf(old(db.State()), userId).value.id
    ensures PersonalWorkspaceOf(old(db.State()), userId).None? ==> id == old(db.nextId)
    ensures old(db.State()).WellFormed() ==> db.State().WellFormed()
    ensures db.events == old(db.events)
  {
    var existingPersonalWorkspace := PersonalWorkspaceOf(db.State(), userId);
    if existingPersonalWorkspace.Some? {
      return existingPersonalWorkspace.value.id;
    }
    var name := NameOrDefault(workspaceName);
    ghost var before := db.State();
    id := db.InsertWorkspace(name, true, userId);
    PersonalAfterAppend(before, userId, Workspace(id, name, true, userId));
    var _ := db.InsertWorkspaceUser(id, userId, Admin);
  }

  /** A second initialization, with any name, changes nothing. */
  lemma InitializationIdempotent(s: Snapshot, userId: Id, name: string, again: string)
    ensures AfterInitialization(AfterInitialization(s, userId, name), userId, again) == AfterInitialization(s, userId, name)
  {
    if PersonalWorkspaceOf(s, userId).None? {
      PersonalAfterAppend(s, userId, Workspace(s.nextId, name, true, userId));
      var t := AfterInitialization(s, userId, name);
      assert t.workspaces == s.(workspaces := s.workspaces + [Workspace(s.nextId, name, true, userId)]).workspaces;
      assert PersonalWorkspaceOf(t, userId).Some?;
    }
  }

  /**
   * Initialization creates at most one personal workspace for the user,
   * and only when the user had none; every other workspace was there before.
   */
  lemma InitializationCreatesAtMostOne(s: Snapshot, userId: Id, name: string)
    ensures var t := AfterInitialization(s, userId, name);
            forall w :: w in t.workspaces ==>
              w in s.workspaces || (PersonalWorkspaceOf(s, userId).None? && w == Workspace(s.nextId, name, true, userId))
    ensures PersonalWorkspaceOf(AfterInitialization(s, userId, name), userId).Some?
  {
    if PersonalWorkspaceOf(s, userId).None? {
      PersonalAfterAppend(s, userId, Workspace(s.nextId, name, true, userId));
      var t := AfterInitialization(s, userId, name);
      assert t.workspaces == s.(workspaces := s.workspaces + [Workspace(s.nextId, name, true, userId)]).workspaces;
    }
  }

  /**
   * The bootstrap writes a `workspaceUsers` row, so the membership-based
   * `getPersonalWorkspaceHandler` still answers null for a fresh user.
   */
  lemma InitializedWorkspaceInvisibleToMembershipReader()
    ensures var t := AfterInitialization(Snapshot([], [], [], [], [], [], [], [], [], [], 0), 7, DefaultPersonalName);
            && PersonalWorkspaceOf(t, 7) == Some(Workspace(0, DefaultPersonalName, true, 7))
            && GetPersonalWorkspaceHandler(t, Some(7)) == Success(None)
  {
    var s := Snapshot([], [], [], [], [], [], [], [], [], [], 0);
    PersonalAfterAppend(s, 7, Workspace(0, DefaultPersonalName, true, 7));
    var t := AfterInitialization(s, 7, DefaultPersonalName);
    assert t.workspaces == s.(workspaces := s.workspaces + [Workspace(0, DefaultPersonalName, true, 7)]).workspaces;
    assert GetMembership(t, 0, 7).None?;
  }

  // ---------------------------------------------------------------- setDefaultUserData

  /** The workspace name `setDefaultUserData` passes: the user's name, or "User" when it is missing or empty. */
  function PersonalNameFor(user: Option<User>): (name: string)
    ensures user.Some? && user.value.name.Some? && user.value.name.value != "" ==>
              name == user.value.name.value + "'s Personal Workspace"
    ensures !(user.Some? && user.value.name.Some? && user.value.name.value != "") ==> name == "User's Personal Workspace"
  {
    var shown := if user.Some? && user.value.name.Some? && user.value.name.value != "" then user.value.name.value else "User";
    shown + "'s Personal Workspace"
  }

  /**
   * The store after `setDefaultUserData` succeeds: unchanged for a user
   * already initialized; otherwise bootstrapped and flagged.
   */
  function AfterDefaultUserData(s: Snapshot, userId: Id): Snapshot
  {
    var user := GetUser(s, userId);
    if user.None? || user.value.defaultDataInitialized then s
    else AfterInitialization(s, userId, PersonalNameFor(user)).(users := MarkInitialized(s.users, userId))
  }

  /**
   * `setDefaultUserData`. A user already flagged is left alone. Otherwise
   * the bootstrap runs and the flag is patched; for a missing user the
   * patch fails and the whole transaction rolls back.
   */
  method SetDefaultUserData(db: Store, userId: Id) returns (r: Outcome<Failure>)
    modifies db
    ensures GetUser(old(db.State()), userId).None? ==> r == Fail(StoreFailure(MissingPatchTarget(userId)))
    ensures GetUser(old(db.State()), userId).Some? ==> r == Pass
    ensures r.Fail? ==> db.State() == old(db.State())
    ensures r.Pass? ==> db.State() == AfterDefaultUserData(old(db.State()), userId)
    ensures old(db.State()).WellFormed() ==> db.State().WellFormed()
    ensures db.events == old(db.events)
  {
    var saved := db.State();
    ghost var savedEvents := db.events;
    var user := GetUser(db.State(), userId);
    if user.Some? && user.value.defaultDataInitialized {
      return Pass;
    }
    var _ := InitializePersonalWorkspace(db, userId, Some(PersonalNameFor(user)));
    var found := db.PatchUserInitialized(userId);
    if !found {
      db.Rollback(saved, savedEvents);
      return Fail(StoreFailure(MissingPatchTarget(userId)));
    }
    return Pass;
  }

  /**
   * After a successful `setDefaultUserData` the user is flagged, and owns a
   * personal workspace when the call did the bootstrap, so a second call
   * changes nothing.
   */
  lemma DefaultUserDataIdempotent(s: Snapshot, userId: Id)
    requires GetUser(s, userId).Some?
    ensures var t := AfterDefaultUserData(s, userId);
            && GetUser(t, userId).Some? && GetUser(t, userId).value.defaultDataInitialized
            && (!GetUser(s, userId).value.defaultDataInitialized ==> PersonalWorkspaceOf(t, userId).Some?)
            && AfterDefaultUserData(t, userId) == t
  {
    var user := GetUser(s, userId);
    if !user.value.defaultDataInitialized {
      InitializationCreatesAtMostOne(s, userId, PersonalNameFor(user));
      var t := AfterDefaultUserData(s, userId);
      var k :| 0 <= k < |s.users| && s.users[k] == user.value;
      assert t.users[k].id == userId;
      assert t.users[k] in t.users;
      assert GetUser(t, userId).Some?;
      forall u | u in t.users && u.id == userId
        ensures u.defaultDataInitialized
      {
        var i :| 0 <= i < |t.users| && t.users[i] == u;
        assert s.users[i].id == userId;
      }
      assert PersonalWorkspaceOf(t, userId) == PersonalWorkspaceOf(AfterInitialization(s, userId, PersonalNameFor(user)), userId);
    }
  }

  /**
   * Repeated calls never add a second personal workspace: each call adds at
   * most the one created when the user had none.
   */
  lemma DefaultUserDataCreatesAtMostOne(s: Snapshot, userId: Id)
    ensures var t := AfterDefaultUserData(s, userId);
            forall w :: w in t.workspaces ==>
              w in s.workspaces || (PersonalWorkspaceOf(s, userId).None? && w.id == s.nextId && w.ownerId == userId && w.personal)
  {
    var user := GetUser(s, userId);
    if user.Some? && !user.value.defaultDataInitialized {
      InitializationCreatesAtMostOne(s, userId, PersonalNameFor(user));
    }
  }
}
