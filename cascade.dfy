/**
 * The cascading deletions of convex/utils/cascadeDeletion.ts over the
 * older tables (`users`, `workspaces`, `projects`, `workspaceUsers`,
 * `workspaceProjects`, `documents`, `reports`).
 *
 * Each cascade deletes the dependent rows one by one, pushing every id
 * it deletes, and finally deletes its own row. A database error on that
 * last delete is caught: the result is marked unsuccessful, the message is
 * appended to `errors`, and every deletion already made stays in place.
 * The user cascade runs the workspace and project cascades as nested
 * mutations and merges their results into its own.
 */
module Cascade {
  import opened Wrappers
  import opened Validation
  import opened Seqs
  import opened Store
  import opened Queries

  // ------------------------------------------------------------- results

  /** `deletedEntities`: one optional id list per table; `None` is an absent key. */
  datatype Deleted = Deleted(
    users: Option<seq<Id>>,
    workspaces: Option<seq<Id>>,
    projects: Option<seq<Id>>,
    workspaceUsers: Option<seq<Id>>,
    workspaceProjects: Option<seq<Id>>,
    documents: Option<seq<Id>>,
    reports: Option<seq<Id>>)

  /** `DeletionResult`. */
  datatype DeletionResult = DeletionResult(success: bool, deletedEntities: Deleted, errors: seq<string>)

  /** The text a catch block appends: the kind of the row and the database's own message. */
  function CascadeError(kind: string, id: Id): (msg: string)
    ensures |msg| > |kind|
  {
    "Error deleting " + kind + ": " + MissingDocument(id)
  }

  /** `into?.push(...from)` guarded by `if (from)`: nothing happens when either list is absent. */
  function Push(into: Option<seq<Id>>, from: Option<seq<Id>>): (r: Option<seq<Id>>)
    ensures r.Some? <==> into.Some?
    ensures r.Some? && from.Some? ==> r.value == into.value + from.value
    ensures from.None? ==> r == into
  {
    if into.Some? && from.Some? then Some(into.value + from.value) else into
  }

  /** What the user cascade does with the result of one nested cascade. */
  function Merge(acc: DeletionResult, sub: DeletionResult): (r: DeletionResult)
    ensures r.success <==> acc.success && sub.success
    ensures r.errors == if sub.success then acc.errors else acc.errors + sub.errors
  {
    var a := acc.deletedEntities;
    var b := sub.deletedEntities;
    DeletionResult(
      acc.success && sub.success,
      Deleted(Push(a.users, b.users), Push(a.workspaces, b.workspaces), Push(a.projects, b.projects),
              Push(a.workspaceUsers, b.workspaceUsers), Push(a.workspaceProjects, b.workspaceProjects),
              Push(a.documents, b.documents), Push(a.reports, b.reports)),
      if sub.success then acc.errors else acc.errors + sub.errors)
  }

  // ------------------------------------------------- delete-and-push loops

  /** `for (const x of rows) { await ctx.db.delete(x._id); list.push(x._id) }` over `users`. */
  method DeleteUsersListed(db: Store, rows: seq<User>) returns (ids: seq<Id>)
    modifies db
    ensures ids == IdList(rows, UserKey)
    ensures db.State() == old(db.State()).(users := Without(old(db.users), UserKey, IdSet(rows, UserKey)))
    ensures old(db.State()).WellFormed() ==> db.State().WellFormed()
    ensures db.events == old(db.events)
  {
    ids := [];
    assert rows[..0] == [];
    assert IdSet(rows[..0], UserKey) == {};
    WithoutNothing(db.users, UserKey, {});
    for i := 0 to |rows|
      invariant ids == IdList(rows[..i], UserKey)
      invariant db.State() == old(db.State()).(users := Without(old(db.users), UserKey, IdSet(rows[..i], UserKey)))
      invariant old(db.State()).WellFormed() ==> db.State().WellFormed()
      invariant db.events == old(db.events)
    {
      IdSetSnoc(rows, UserKey, i);
      IdListSnoc(rows, UserKey, i);
      WithoutWithout(old(db.users), UserKey, IdSet(rows[..i], UserKey), {rows[i].id});
      var _ := db.DeleteUser(rows[i].id);
      ids := ids + [rows[i].id];
    }
    assert rows[..|rows|] == rows;
  }

  /** The same loop over `workspaces`. */
  method DeleteWorkspacesListed(db: Store, rows: seq<Workspace>) returns (ids: seq<Id>)
    modifies db
    ensures ids == IdList(rows, WorkspaceKey)
    ensures db.State() == old(db.State()).(workspaces := Without(old(db.workspaces), WorkspaceKey, IdSet(rows, WorkspaceKey)))
    ensures old(db.State()).WellFormed() ==> db.State().WellFormed()
    ensures db.events == old(db.events)
  {
    ids := [];
    assert rows[..0] == [];
    assert IdSet(rows[..0], WorkspaceKey) == {};
    WithoutNothing(db.workspaces, WorkspaceKey, {});
    for i := 0 to |rows|
      invariant ids == IdList(rows[..i], WorkspaceKey)
      invariant db.State() == old(db.State()).(workspaces := Without(old(db.workspaces), WorkspaceKey, IdSet(rows[..i], WorkspaceKey)))
      invariant old(db.State()).WellFormed() ==> db.State().WellFormed()
      invariant db.events == old(db.events)
    {
      IdSetSnoc(rows, WorkspaceKey, i);
      IdListSnoc(rows, WorkspaceKey, i);
      WithoutWithout(old(db.workspaces), WorkspaceKey, IdSet(rows[..i], WorkspaceKey), {rows[i].id});
      var _ := db.DeleteWorkspace(rows[i].id);
      ids := ids + [rows[i].id];
    }
    assert rows[..|rows|] == rows;
  }

  /** The same loop over `projects`. */
  method DeleteProjectsListed(db: Store, rows: seq<Project>) returns (ids: seq<Id>)
    modifies db
    ensures ids == IdList(rows, ProjectKey)
    ensures db.State() == old(db.State()).(projects := Without(old(db.projects), ProjectKey, IdSet(rows, ProjectKey)))
    ensures old(db.State()).WellFormed() ==> db.State().WellFormed()
    ensures db.events == old(db.events)
  {
    ids := [];
    assert rows[..0] == [];
    assert IdSet(rows[..0], ProjectKey) == {};
    WithoutNothing(db.projects, ProjectKey, {});
    for i := 0 to |rows|
      invariant ids == IdList(rows[..i], ProjectKey)
      invariant db.State() == old(db.State()).(projects := Without(old(db.projects), ProjectKey, IdSet(rows[..i], ProjectKey)))
      invariant old(db.State()).WellFormed() ==> db.State().WellFormed()
      invariant db.events == old(db.events)
    {
      IdSetSnoc(rows, ProjectKey, i);
      IdListSnoc(rows, ProjectKey, i);
      WithoutWithout(old(db.projects), ProjectKey, IdSet(rows[..i], ProjectKey), {rows[i].id});
      var _ := db.DeleteProject(rows[i].id);
      ids := ids + [rows[i].id];
    }
    assert rows[..|rows|] == rows;
  }

  /** The same loop over `workspaceUsers`. */
  method DeleteWorkspaceUsersListed(db: Store, rows: seq<WorkspaceUser>) returns (ids: seq<Id>)
    modifies db
    ensures ids == IdList(rows, WorkspaceUserKey)
    ensures db.State() == old(db.State()).(workspaceUsers := Without(old(db.workspaceUsers), WorkspaceUserKey, IdSet(rows, WorkspaceUserKey)))
    ensures old(db.State()).WellFormed() ==> db.State().WellFormed()
    ensures db.events == old(db.events)
  {
    ids := [];
    assert rows[..0] == [];
    assert IdSet(rows[..0], WorkspaceUserKey) == {};
    WithoutNothing(db.workspaceUsers, WorkspaceUserKey, {});
    for i := 0 to |rows|
      invariant ids == IdList(rows[..i], WorkspaceUserKey)
      invariant db.State() == old(db.State()).(workspaceUsers := Without(old(db.workspaceUsers), WorkspaceUserKey, IdSet(rows[..i], WorkspaceUserKey)))
      invariant old(db.State()).WellFormed() ==> db.State().WellFormed()
      invariant db.events == old(db.events)
    {
      IdSetSnoc(rows, WorkspaceUserKey, i);
      IdListSnoc(rows, WorkspaceUserKey, i);
      WithoutWithout(old(db.workspaceUsers), WorkspaceUserKey, IdSet(rows[..i], WorkspaceUserKey), {rows[i].id});
      var _ := db.DeleteWorkspaceUser(rows[i].id);
      ids := ids + [rows[i].id];
    }
    assert rows[..|rows|] == rows;
  }

  /** The same loop over `workspaceProjects`. */
  method DeleteLinksListed(db: Store, rows: seq<WorkspaceProject>) returns (ids: seq<Id>)
    modifies db
    ensures ids == IdList(rows, WorkspaceProjectKey)
    ensures db.State() == old(db.State()).(workspaceProjects := Without(old(db.workspaceProjects), WorkspaceProjectKey, IdSet(rows, WorkspaceProjectKey)))
    ensures old(db.State()).WellFormed() ==> db.State().WellFormed()
    ensures db.events == old(db.events)
  {
    ids := [];
    assert rows[..0] == [];
    assert IdSet(rows[..0], WorkspaceProjectKey) == {};
    WithoutNothing(db.workspaceProjects, WorkspaceProjectKey, {});
    for i := 0 to |rows|
      invariant ids == IdList(rows[..i], WorkspaceProjectKey)
      invariant db.State() == old(db.State()).(workspaceProjects := Without(old(db.workspaceProjects), WorkspaceProjectKey, IdSet(rows[..i], WorkspaceProjectKey)))
      invariant old(db.State()).WellFormed() ==> db.State().WellFormed()
      invariant db.events == old(db.events)
    {
      IdSetSnoc(rows, WorkspaceProjectKey, i);
      IdListSnoc(rows, WorkspaceProjectKey, i);
      WithoutWithout(old(db.workspaceProjects), WorkspaceProjectKey, IdSet(rows[..i], WorkspaceProjectKey), {rows[i].id});
      var _ := db.DeleteWorkspaceProject(rows[i].id);
      ids := ids + [rows[i].id];
    }
    assert rows[..|rows|] == rows;
  }

  /** The same loop over `documents`. */
  method DeleteDocumentsListed(db: Store, rows: seq<Document>) returns (ids: seq<Id>)
    modifies db
    ensures ids == IdList(rows, DocumentKey)
    ensures db.State() == old(db.State()).(documents := Without(old(db.documents), DocumentKey, IdSet(rows, DocumentKey)))
    ensures old(db.State()).WellFormed() ==> db.State().WellFormed()
    ensures db.events == old(db.events)
  {
    ids := [];
    assert rows[..0] == [];
    assert IdSet(rows[..0], DocumentKey) == {};
    WithoutNothing(db.documents, DocumentKey, {});
    for i := 0 to |rows|
      invariant ids == IdList(rows[..i], DocumentKey)
      invariant db.State() == old(db.State()).(documents := Without(old(db.documents), DocumentKey, IdSet(rows[..i], DocumentKey)))
      invariant old(db.State()).WellFormed() ==> db.State().WellFormed()
      invariant db.events == old(db.events)
    {
      IdSetSnoc(rows, DocumentKey, i);
      IdListSnoc(rows, DocumentKey, i);
      WithoutWithout(old(db.documents), DocumentKey, IdSet(rows[..i], DocumentKey), {rows[i].id});
      var _ := db.DeleteDocument(rows[i].id);
      ids := ids + [rows[i].id];
    }
    assert rows[..|rows|] == rows;
  }

  /** The same loop over `reports`. */
  method DeleteReportsListed(db: Store, rows: seq<Report>) returns (ids: seq<Id>)
    modifies db
    ensures ids == IdList(rows, ReportKey)
    ensures db.State() == old(db.State()).(reports := Without(old(db.reports), ReportKey, IdSet(rows, ReportKey)))
    ensures old(db.State()).WellFormed() ==> db.State().WellFormed()
    ensures db.events == old(db.events)
  {
    ids := [];
    assert rows[..0] == [];
    assert IdSet(rows[..0], ReportKey) == {};
    WithoutNothing(db.reports, ReportKey, {});
    for i := 0 to |rows|
      invariant ids == IdList(rows[..i], ReportKey)
      invariant db.State() == old(db.State()).(reports := Without(old(db.reports), ReportKey, IdSet(rows[..i], ReportKey)))
      invariant old(db.State()).WellFormed() ==> db.State().WellFormed()
      invariant db.events == old(db.events)
    {
      IdSetSnoc(rows, ReportKey, i);
      IdListSnoc(rows, ReportKey, i);
      WithoutWithout(old(db.reports), ReportKey, IdSet(rows[..i], ReportKey), {rows[i].id});
      var _ := db.DeleteReport(rows[i].id);
      ids := ids + [rows[i].id];
    }
    assert rows[..|rows|] == rows;
  }

  // ---------------------------------------------------- workspace cascade

  /** The store after `deleteWorkspaceCascade`, whether or not the workspace itself existed. */
  function AfterWorkspaceCascade(s: Snapshot, workspaceId: Id): Snapshot
  {
    s.(workspaceUsers := Without(s.workspaceUsers, WorkspaceUserKey, IdSet(WorkspaceUsersOfWorkspace(s, workspaceId), WorkspaceUserKey)),
       workspaceProjects := Without(s.workspaceProjects, WorkspaceProjectKey, IdSet(LinksOfWorkspace(s, workspaceId), WorkspaceProjectKey)),
       workspaces := Without(s.workspaces, WorkspaceKey, {workspaceId}))
  }

  /** The result of `deleteWorkspaceCascade`: the workspace id is listed even when its delete fails. */
  function WorkspaceCascadeResult(s: Snapshot, workspaceId: Id): DeletionResult
  {
    var found := GetWorkspace(s, workspaceId).Some?;
    DeletionResult(
      found,
      Deleted(None, Some([workspaceId]), None,
              Some(IdList(WorkspaceUsersOfWorkspace(s, workspaceId), WorkspaceUserKey)),
              Some(IdList(LinksOfWorkspace(s, workspaceId), WorkspaceProjectKey)), None, None),
      if found then [] else [CascadeError("workspace", workspaceId)])
  }

  /**
   * `deleteWorkspaceCascade`: the workspace's `workspaceUsers` rows, then
   * its `workspaceProjects` links, then the workspace. Projects whose home
   * is the workspace are not touched.
   */
  method DeleteWorkspaceCascade(db: Store, workspaceId: Id) returns (r: DeletionResult)
    modifies db
    ensures r == WorkspaceCascadeResult(old(db.State()), workspaceId)
    ensures db.State() == AfterWorkspaceCascade(old(db.State()), workspaceId)
    ensures old(db.State()).WellFormed() ==> db.State().WellFormed()
    ensures db.events == old(db.events)
  {
    var workspaceUsers := WorkspaceUsersOfWorkspace(db.State(), workspaceId);
    var workspaceUserIds := DeleteWorkspaceUsersListed(db, workspaceUsers);
    var workspaceProjects := LinksOfWorkspace(db.State(), workspaceId);
    var linkIds := DeleteLinksListed(db, workspaceProjects);
    var found := db.DeleteWorkspace(workspaceId);
    r := DeletionResult(true, Deleted(None, Some([workspaceId]), None, Some(workspaceUserIds), Some(linkIds), None, None), []);
    if !found {
      r := r.(success := false, errors := r.errors + [CascadeError("workspace", workspaceId)]);
    }
  }

  /**
   * After the workspace cascade no `workspaceUsers` row, no link and no
   * workspace row refers to the workspace; every other row stays; the
   * projects homed in it stay; the id lists name exactly the rows removed;
   * the cascade reports success exactly when the workspace existed.
   */
  lemma WorkspaceCascadeExact(s: Snapshot, workspaceId: Id)
    requires s.WellFormed()
    ensures var t := AfterWorkspaceCascade(s, workspaceId);
            && (forall w :: w in t.workspaceUsers <==> w in s.workspaceUsers && w.workspaceId != workspaceId)
            && (forall l :: l in t.workspaceProjects <==> l in s.workspaceProjects && l.workspaceId != workspaceId)
            && (forall w :: w in t.workspaces <==> w in s.workspaces && w.id != workspaceId)
            && ProjectsOfWorkspace(t, workspaceId) == ProjectsOfWorkspace(s, workspaceId)
    ensures var r := WorkspaceCascadeResult(s, workspaceId);
            && (r.success <==> exists w :: w in s.workspaces && w.id == workspaceId)
            && (forall id :: id in r.deletedEntities.workspaceUsers.value <==>
                  exists w :: w in s.workspaceUsers && w.workspaceId == workspaceId && w.id == id)
            && (forall id :: id in r.deletedEntities.workspaceProjects.value <==>
                  exists l :: l in s.workspaceProjects && l.workspaceId == workspaceId && l.id == id)
  {
    WithoutListed(s.workspaceUsers, WorkspaceUserKey, WorkspaceUsersOfWorkspace(s, workspaceId));
    WithoutListed(s.workspaceProjects, WorkspaceProjectKey, LinksOfWorkspace(s, workspaceId));
    IdListMembers(WorkspaceUsersOfWorkspace(s, workspaceId), WorkspaceUserKey);
    IdListMembers(LinksOfWorkspace(s, workspaceId), WorkspaceProjectKey);
  }

  // ------------------------------------------------------ project cascade

  /** The store after `deleteProjectCascade`, whether or not the project itself existed. */
  function AfterProjectCascade(s: Snapshot, projectId: Id): Snapshot
  {
    s.(documents := Without(s.documents, DocumentKey, IdSet(DocumentsOfProject(s, projectId), DocumentKey)),
       reports := Without(s.reports, ReportKey, IdSet(ReportsOfProject(s, projectId), ReportKey)),
       workspaceProjects := Without(s.workspaceProjects, WorkspaceProjectKey, IdSet(LinksOfProject(s, projectId), WorkspaceProjectKey)),
       projects := Without(s.projects, ProjectKey, {projectId}))
  }

  /** The result of `deleteProjectCascade`: the project id is listed even when its delete fails. */
  function ProjectCascadeResult(s: Snapshot, projectId: Id): DeletionResult
  {
    var found := GetProject(s, projectId).Some?;
    DeletionResult(
      found,
      Deleted(None, None, Some([projectId]), None,
              Some(IdList(LinksOfProject(s, projectId), WorkspaceProjectKey)),
              Some(IdList(DocumentsOfProject(s, projectId), DocumentKey)),
              Some(IdList(ReportsOfProject(s, projectId), ReportKey))),
      if found then [] else [CascadeError("project", projectId)])
  }

  /** `deleteProjectCascade`: the project's documents, reports and links, then the project. */
  method DeleteProjectCascade(db: Store, projectId: Id) returns (r: DeletionResult)
    modifies db
    ensures r == ProjectCascadeResult(old(db.State()), projectId)
    ensures db.State() == AfterProjectCascade(old(db.State()), projectId)
    ensures old(db.State()).WellFormed() ==> db.State().WellFormed()
    ensures db.events == old(db.events)
  {
    var documents := DocumentsOfProject(db.State(), projectId);
    var documentIds := DeleteDocumentsListed(db, documents);
    var reports := ReportsOfProject(db.State(), projectId);
    var reportIds := DeleteReportsListed(db, reports);
    var workspaceProjects := LinksOfProject(db.State(), projectId);
    var linkIds := DeleteLinksListed(db, workspaceProjects);
    var found := db.DeleteProject(projectId);
    r := DeletionResult(true, Deleted(None, None, Some([projectId]), None, Some(linkIds), Some(documentIds), Some(reportIds)), []);
    if !found {
      r := r.(success := false, errors := r.errors + [CascadeError("project", projectId)]);
    }
  }

  /**
   * After the project cascade no document, report, link or project row
   * refers to the project and every other row stays; the cascade reports
   * success exactly when the project existed.
   */
  lemma ProjectCascadeExact(s: Snapshot, projectId: Id)
    requires s.WellFormed()
    ensures var t := AfterProjectCascade(s, projectId);
            && (forall d :: d in t.documents <==> d in s.documents && d.projectId != Some(projectId))
            && (forall x :: x in t.reports <==> x in s.reports && x.projectId != projectId)
            && (forall l :: l in t.workspaceProjects <==> l in s.workspaceProjects && l.projectId != projectId)
            && (forall p :: p in t.projects <==> p in s.projects && p.id != projectId)
    ensures var r := ProjectCascadeResult(s, projectId);
            && (r.success <==> exists p :: p in s.projects && p.id == projectId)
            && (forall id :: id in r.deletedEntities.documents.value <==>
                  exists d :: d in s.documents && d.projectId == Some(projectId) && d.id == id)
            && (forall id :: id in r.deletedEntities.reports.value <==>
                  exists x :: x in s.reports && x.projectId == projectId && x.id == id)
  {
    WithoutListed(s.documents, DocumentKey, DocumentsOfProject(s, projectId));
    WithoutListed(s.reports, ReportKey, ReportsOfProject(s, projectId));
    WithoutListed(s.workspaceProjects, WorkspaceProjectKey, LinksOfProject(s, projectId));
    IdListMembers(DocumentsOfProject(s, projectId), DocumentKey);
    IdListMembers(ReportsOfProject(s, projectId), ReportKey);
  }

  // ------------------------------------------- document and report cascades

  /** `deleteDocumentCascade`: delete one document; its id is listed whether or not it existed. */
  method DeleteDocumentCascade(db: Store, documentId: Id) returns (r: DeletionResult)
    modifies db
    ensures r.success <==> exists d :: d in old(db.documents) && d.id == documentId
    ensures r.deletedEntities == Deleted(None, None, None, None, None, Some([documentId]), None)
    ensures r.errors == if r.success then [] else [CascadeError("document", documentId)]
    ensures db.State() == old(db.State()).(documents := Without(old(db.documents), DocumentKey, {documentId}))
    ensures old(db.State()).WellFormed() ==> db.State().WellFormed()
    ensures db.events == old(db.events)
  {
    var found := db.DeleteDocument(documentId);
    r := DeletionResult(true, Deleted(None, None, None, None, None, Some([documentId]), None), []);
    if !found {
      r := r.(success := false, errors := r.errors + [CascadeError("document", documentId)]);
    }
  }

  /** `deleteReportCascade`: delete one report; its id is listed whether or not it existed. */
  method DeleteReportCascade(db: Store, reportId: Id) returns (r: DeletionResult)
    modifies db
    ensures r.success <==> exists x :: x in old(db.reports) && x.id == reportId
    ensures r.deletedEntities == Deleted(None, None, None, None, None, None, Some([reportId]))
    ensures r.errors == if r.success then [] else [CascadeError("report", reportId)]
    ensures db.State() == old(db.State()).(reports := Without(old(db.reports), ReportKey, {reportId}))
    ensures old(db.State()).WellFormed() ==> db.State().WellFormed()
    ensures db.events == old(db.events)
  {
    var found := db.DeleteReport(reportId);
    r := DeletionResult(true, Deleted(None, None, None, None, None, None, Some([reportId])), []);
    if !found {
      r := r.(success := false, errors := r.errors + [CascadeError("report", reportId)]);
    }
  }

  // --------------------------------------------------------- user cascade

  /** Which nested cascade the user cascade runs over a list of ids. */
  datatype Nested = NestedWorkspaces | NestedProjects

  /** One nested cascade: the store after it and its result. */
  function Step(s: Snapshot, k: Nested, id: Id): (Snapshot, DeletionResult)
  {
    match k
    case NestedWorkspaces => (AfterWorkspaceCascade(s, id), WorkspaceCascadeResult(s, id))
    case NestedProjects => (AfterProjectCascade(s, id), ProjectCascadeResult(s, id))
  }

  /** The nested cascades over `ids` in order, each result merged into `acc`. */
  function Cascades(s: Snapshot, acc: DeletionResult, k: Nested, ids: seq<Id>): (Snapshot, DeletionResult)
    decreases |ids|
  {
    if ids == [] then (s, acc)
    else
      var prev := Cascades(s, acc, k, ids[..|ids| - 1]);
      var step := Step(prev.0, k, ids[|ids| - 1]);
      (step.0, Merge(prev.1, step.1))
  }

  /** The result the user cascade starts from: its own id and an empty list for every other table. */
  function UserCascadeStart(userId: Id, workspaceUserIds: seq<Id>): DeletionResult
  {
    DeletionResult(true, Deleted(Some([userId]), Some([]), Some([]), Some(workspaceUserIds), Some([]), Some([]), Some([])), [])
  }

  /** The store and the result after `deleteUserCascade`. */
  function UserCascade(s: Snapshot, userId: Id): (Snapshot, DeletionResult)
  {
    var workspaceUsers := WorkspaceUsersOfUser(s, userId);
    var s1 := s.(workspaceUsers := Without(s.workspaceUsers, WorkspaceUserKey, IdSet(workspaceUsers, WorkspaceUserKey)));
    var afterWorkspaces := Cascades(s1, UserCascadeStart(userId, IdList(workspaceUsers, WorkspaceUserKey)),
                                    NestedWorkspaces, IdList(WorkspacesOfOwner(s1, userId), WorkspaceKey));
    var s2 := afterWorkspaces.0;
    var afterProjects := Cascades(s2, afterWorkspaces.1, NestedProjects, IdList(ProjectsOfOwner(s2, userId), ProjectKey));
    var s3 := afterProjects.0;
    var r3 := afterProjects.1;
    var found := GetUser(s3, userId).Some?;
    (s3.(users := Without(s3.users, UserKey, {userId})),
     if found then r3 else r3.(success := false, errors := r3.errors + [CascadeError("user", userId)]))
  }

  /**
   * The loop of `deleteUserCascade` over its owned workspaces or owned
   * projects: one nested cascade per id, its result merged into `r`.
   */
  method RunNested(db: Store, k: Nested, ids: seq<Id>, acc: DeletionResult) returns (r: DeletionResult)
    modifies db
    ensures (db.State(), r) == Cascades(old(db.State()), acc, k, ids)
    ensures old(db.State()).WellFormed() ==> db.State().WellFormed()
    ensures db.events == old(db.events)
  {
    r := acc;
    for i := 0 to |ids|
      invariant (db.State(), r) == Cascades(old(db.State()), acc, k, ids[..i])
      invariant old(db.State()).WellFormed() ==> db.State().WellFormed()
      invariant db.events == old(db.events)
    {
      assert ids[..i + 1][..i] == ids[..i];
      var sub;
      match k {
        case NestedWorkspaces =>
          sub := DeleteWorkspaceCascade(db, ids[i]);
        case NestedProjects =>
          sub := DeleteProjectCascade(db, ids[i]);
      }
      r := Merge(r, sub);
    }
    assert ids[..|ids|] == ids;
  }

  /**
   * `deleteUserCascade`: the user's `workspaceUsers` rows, then a nested
   * workspace cascade per workspace the user owns (`by_owner` order), then
   * a nested project cascade per project the user owns (table order), then
   * the user. Nested results are merged as they come.
   */
  method DeleteUserCascade(db: Store, userId: Id) returns (r: DeletionResult)
    modifies db
    ensures db.State() == UserCascade(old(db.State()), userId).0
    ensures r == UserCascade(old(db.State()), userId).1
    ensures old(db.State()).WellFormed() ==> db.State().WellFormed()
    ensures db.events == old(db.events)
  {
    var workspaceUsers := WorkspaceUsersOfUser(db.State(), userId);
    var workspaceUserIds := DeleteWorkspaceUsersListed(db, workspaceUsers);
    r := UserCascadeStart(userId, workspaceUserIds);
    var ownedWorkspaces := WorkspacesOfOwner(db.State(), userId);
    r := RunNested(db, NestedWorkspaces, IdList(ownedWorkspaces, WorkspaceKey), r);
    var ownedProjects := ProjectsOfOwner(db.State(), userId);
    r := RunNested(db, NestedProjects, IdList(ownedProjects, ProjectKey), r);
    var found := db.DeleteUser(userId);
    if !found {
      r := r.(success := false, errors := r.errors + [CascadeError("user", userId)]);
    }
  }

  // ------------------------------------------- facts about nested cascades

  /** Every row of `t` was already in `s`, and the tables the cascades never touch are equal. */
  ghost predicate Within(t: Snapshot, s: Snapshot)
  {
    && (forall x :: x in t.users ==> x in s.users)
    && (forall x :: x in t.workspaces ==> x in s.workspaces)
    && (forall x :: x in t.projects ==> x in s.projects)
    && (forall x :: x in t.workspaceUsers ==> x in s.workspaceUsers)
    && (forall x :: x in t.workspaceProjects ==> x in s.workspaceProjects)
    && (forall x :: x in t.documents ==> x in s.documents)
    && (forall x :: x in t.reports ==> x in s.reports)
    && t.memberships == s.memberships && t.entities == s.entities && t.grants == s.grants
  }

  /** No row that the nested cascade for `id` deletes is left. */
  ghost predicate Cleared(t: Snapshot, k: Nested, id: Id)
  {
    match k
    case NestedWorkspaces =>
      && (forall w :: w in t.workspaceUsers ==> w.workspaceId != id)
      && (forall l :: l in t.workspaceProjects ==> l.workspaceId != id)
      && (forall w :: w in t.workspaces ==> w.id != id)
    case NestedProjects =>
      && (forall d :: d in t.documents ==> d.projectId != Some(id))
      && (forall x :: x in t.reports ==> x.projectId != id)
      && (forall l :: l in t.workspaceProjects ==> l.projectId != id)
      && (forall p :: p in t.projects ==> p.id != id)
  }

  /** The ids of a list, as a set. */
  function Ids(ids: seq<Id>): (r: set<Id>)
    ensures forall id :: id in r <==> id in ids
  {
    set id | id in ids
  }

  /**
   * One nested cascade only removes rows, leaves nothing behind that
   * refers to its id, and deletes from `workspaces` or from `projects`
   * only the row with its id.
   */
  lemma StepEffect(s: Snapshot, k: Nested, id: Id)
    ensures var t := Step(s, k, id).0;
            && Within(t, s) && t.users == s.users && t.nextId == s.nextId && Cleared(t, k, id)
            && (k == NestedWorkspaces ==> t.workspaces == Without(s.workspaces, WorkspaceKey, {id}) && t.projects == s.projects)
            && (k == NestedProjects ==> t.projects == Without(s.projects, ProjectKey, {id}) && t.workspaces == s.workspaces)
  {
    match k {
      case NestedWorkspaces =>
        assert Cleared(AfterWorkspaceCascade(s, id), k, id);
      case NestedProjects =>
        assert Cleared(AfterProjectCascade(s, id), k, id);
    }
  }

  /** Removing rows keeps a cleared id cleared. */
  lemma ClearedWithin(t: Snapshot, s: Snapshot, k: Nested, id: Id)
    requires Within(t, s) && Cleared(s, k, id)
    ensures Cleared(t, k, id)
  {
  }

  /**
   * Nested workspace cascades delete exactly the listed workspace rows and
   * leave `projects` alone; nested project cascades delete exactly the
   * listed project rows and leave `workspaces` alone. Neither touches
   * `users` or the id counter, every row left was there before, and every
   * listed id ends up cleared.
   */
  lemma {:induction false} CascadesEffect(s: Snapshot, acc: DeletionResult, k: Nested, ids: seq<Id>)
    ensures var t := Cascades(s, acc, k, ids).0;
            && Within(t, s) && t.users == s.users && t.nextId == s.nextId
            && (k == NestedWorkspaces ==> t.workspaces == Without(s.workspaces, WorkspaceKey, Ids(ids)) && t.projects == s.projects)
            && (k == NestedProjects ==> t.projects == Without(s.projects, ProjectKey, Ids(ids)) && t.workspaces == s.workspaces)
            && (forall id :: id in ids ==> Cleared(t, k, id))
    decreases |ids|
  {
    if ids == [] {
      assert Ids(ids) == {};
      WithoutNothing(s.workspaces, WorkspaceKey, {});
      WithoutNothing(s.projects, ProjectKey, {});
    } else {
      var front := ids[..|ids| - 1];
      var last := ids[|ids| - 1];
      assert ids == front + [last];
      assert Ids(ids) == Ids(front) + {last};
      CascadesEffect(s, acc, k, front);
      var prev := Cascades(s, acc, k, front).0;
      StepEffect(prev, k, last);
      var t := Step(prev, k, last).0;
      assert Cascades(s, acc, k, ids).0 == t;
      WithoutWithout(s.workspaces, WorkspaceKey, Ids(front), {last});
      WithoutWithout(s.projects, ProjectKey, Ids(front), {last});
      forall id | id in ids
        ensures Cleared(t, k, id)
      {
        if id != last {
          assert id in front;
          ClearedWithin(t, prev, k, id);
        }
      }
    }
  }

  /** One nested cascade lists its own id under its table and has no `users` key. */
  lemma StepLists(s: Snapshot, k: Nested, id: Id)
    ensures var d := Step(s, k, id).1.deletedEntities;
            && d.users == None
            && (k == NestedWorkspaces ==> d.workspaces == Some([id]) && d.projects == None)
            && (k == NestedProjects ==> d.projects == Some([id]) && d.workspaces == None)
  {
  }

  /**
   * The user's own id list is never extended by a nested workspace cascade,
   * nor the project list; the workspace list grows by exactly the ids.
   */
  lemma {:induction false} WorkspaceCascadesLists(s: Snapshot, acc: DeletionResult, ids: seq<Id>)
    ensures var d := Cascades(s, acc, NestedWorkspaces, ids).1.deletedEntities;
            && d.users == acc.deletedEntities.users
            && d.workspaces == Push(acc.deletedEntities.workspaces, Some(ids))
            && d.projects == acc.deletedEntities.projects
    decreases |ids|
  {
    var a := acc.deletedEntities.workspaces;
    if ids == [] {
      assert a.Some? ==> a.value + [] == a.value;
    } else {
      var front := ids[..|ids| - 1];
      var last := ids[|ids| - 1];
      assert ids == front + [last];
      assert a.Some? ==> a.value + front + [last] == a.value + ids;
      WorkspaceCascadesLists(s, acc, front);
      var prev := Cascades(s, acc, NestedWorkspaces, front);
      StepLists(prev.0, NestedWorkspaces, last);
    }
  }

  /**
   * The user's own id list is never extended by a nested project cascade,
   * nor the workspace list; the project list grows by exactly the ids.
   */
  lemma {:induction false} ProjectCascadesLists(s: Snapshot, acc: DeletionResult, ids: seq<Id>)
    ensures var d := Cascades(s, acc, NestedProjects, ids).1.deletedEntities;
            && d.users == acc.deletedEntities.users
            && d.projects == Push(acc.deletedEntities.projects, Some(ids))
            && d.workspaces == acc.deletedEntities.workspaces
    decreases |ids|
  {
    var a := acc.deletedEntities.projects;
    if ids == [] {
      assert a.Some? ==> a.value + [] == a.value;
    } else {
      var front := ids[..|ids| - 1];
      var last := ids[|ids| - 1];
      assert ids == front + [last];
      assert a.Some? ==> a.value + front + [last] == a.value + ids;
      ProjectCascadesLists(s, acc, front);
      var prev := Cascades(s, acc, NestedProjects, front);
      StepLists(prev.0, NestedProjects, last);
    }
  }

  /** Whether the row a nested cascade deletes last is there. */
  ghost predicate Present(s: Snapshot, k: Nested, id: Id)
  {
    match k
    case NestedWorkspaces => exists w :: w in s.workspaces && w.id == id
    case NestedProjects => exists p :: p in s.projects && p.id == id
  }

  /** A nested cascade whose row is there succeeds and reports no error. */
  lemma StepSucceeds(s: Snapshot, k: Nested, id: Id)
    requires Present(s, k, id)
    ensures Step(s, k, id).1.success && Step(s, k, id).1.errors == []
  {
  }

  /** Nested cascades over other ids leave a row in place. */
  lemma CascadesKeepPresent(s: Snapshot, acc: DeletionResult, k: Nested, ids: seq<Id>, id: Id)
    requires id !in ids && Present(s, k, id)
    ensures Present(Cascades(s, acc, k, ids).0, k, id)
  {
    CascadesEffect(s, acc, k, ids);
    var t := Cascades(s, acc, k, ids).0;
    match k {
      case NestedWorkspaces =>
        var w :| w in s.workspaces && w.id == id;
        assert w in t.workspaces;
      case NestedProjects =>
        var p :| p in s.projects && p.id == id;
        assert p in t.projects;
    }
  }

  /**
   * Nested cascades over distinct ids whose rows all exist add no failure:
   * each row is still there when its turn comes.
   */
  lemma {:induction false} CascadesSucceed(s: Snapshot, acc: DeletionResult, k: Nested, ids: seq<Id>)
    requires forall i, j :: 0 <= i < j < |ids| ==> ids[i] != ids[j]
    requires forall id :: id in ids ==> Present(s, k, id)
    ensures Cascades(s, acc, k, ids).1.success == acc.success
    ensures Cascades(s, acc, k, ids).1.errors == acc.errors
    decreases |ids|
  {
    if ids != [] {
      var front := ids[..|ids| - 1];
      var last := ids[|ids| - 1];
      assert ids == front + [last];
      assert last !in front by {
        forall i | 0 <= i < |front| ensures front[i] != last {
          assert ids[i] != ids[|ids| - 1];
        }
      }
      CascadesSucceed(s, acc, k, front);
      CascadesKeepPresent(s, acc, k, front, last);
      StepSucceeds(Cascades(s, acc, k, front).0, k, last);
    }
  }

  // ----------------------------------------------- user cascade properties

  /**
   * After the user cascade there is no `workspaceUsers` row of the user, no
   * workspace or project they own, no row depending on an owned workspace
   * or project, and no user row with their id. The newer tables
   * (`memberships`, `entities`, `entityAccess`) are not touched at all.
   * Reports are removed only through their project, so the user's reports
   * in other users' projects stay (`UserCascadeKeepsOthersReports`).
   */
  lemma UserCascadeRemovesOwned(s: Snapshot, userId: Id)
    ensures var t := UserCascade(s, userId).0;
            && (forall w :: w in t.workspaceUsers ==> w.userId != userId)
            && (forall w :: w in t.workspaces ==> w.ownerId != userId)
            && (forall p :: p in t.projects ==> p.ownerId != userId)
            && (forall u :: u in t.users ==> u.id != userId)
            && (forall w :: w in s.workspaces && w.ownerId == userId ==> Cleared(t, NestedWorkspaces, w.id))
            && (forall p :: p in s.projects && p.ownerId == userId ==> Cleared(t, NestedProjects, p.id))
            && t.memberships == s.memberships && t.entities == s.entities && t.grants == s.grants
  {
    var workspaceUsers := WorkspaceUsersOfUser(s, userId);
    var s1 := s.(workspaceUsers := Without(s.workspaceUsers, WorkspaceUserKey, IdSet(workspaceUsers, WorkspaceUserKey)));
    var start := UserCascadeStart(userId, IdList(workspaceUsers, WorkspaceUserKey));
    var workspaceIds := IdList(WorkspacesOfOwner(s1, userId), WorkspaceKey);
    var afterWorkspaces := Cascades(s1, start, NestedWorkspaces, workspaceIds);
    var s2 := afterWorkspaces.0;
    var projectIds := IdList(ProjectsOfOwner(s2, userId), ProjectKey);
    CascadesEffect(s1, start, NestedWorkspaces, workspaceIds);
    CascadesEffect(s2, afterWorkspaces.1, NestedProjects, projectIds);
    IdListMembers(WorkspacesOfOwner(s1, userId), WorkspaceKey);
    IdListMembers(ProjectsOfOwner(s2, userId), ProjectKey);
  }

  /**
   * The user cascade reports success exactly when the user row existed,
   * with the single user error otherwise: every owned workspace and project
   * is still there when its nested cascade runs.
   */
  lemma UserCascadeSucceedsIffUserExists(s: Snapshot, userId: Id)
    requires DistinctIds(s.workspaces, WorkspaceKey) && DistinctIds(s.projects, ProjectKey)
    ensures var r := UserCascade(s, userId).1;
            && (r.success <==> exists u :: u in s.users && u.id == userId)
            && r.errors == if r.success then [] else [CascadeError("user", userId)]
  {
    var workspaceUsers := WorkspaceUsersOfUser(s, userId);
    var s1 := s.(workspaceUsers := Without(s.workspaceUsers, WorkspaceUserKey, IdSet(workspaceUsers, WorkspaceUserKey)));
    var start := UserCascadeStart(userId, IdList(workspaceUsers, WorkspaceUserKey));
    var ownedWorkspaces := WorkspacesOfOwner(s1, userId);
    var workspaceIds := IdList(ownedWorkspaces, WorkspaceKey);
    FilterDistinct(s1.workspaces, (w: Workspace) => w.ownerId == userId, WorkspaceKey);
    IdListMembers(ownedWorkspaces, WorkspaceKey);
    CascadesSucceed(s1, start, NestedWorkspaces, workspaceIds);
    CascadesEffect(s1, start, NestedWorkspaces, workspaceIds);
    var afterWorkspaces := Cascades(s1, start, NestedWorkspaces, workspaceIds);
    var s2 := afterWorkspaces.0;
    var ownedProjects := ProjectsOfOwner(s2, userId);
    var projectIds := IdList(ownedProjects, ProjectKey);
    FilterDistinct(s2.projects, (p: Project) => p.ownerId == userId, ProjectKey);
    IdListMembers(ownedProjects, ProjectKey);
    CascadesSucceed(s2, afterWorkspaces.1, NestedProjects, projectIds);
    CascadesEffect(s2, afterWorkspaces.1, NestedProjects, projectIds);
  }

  /**
   * The merged lists: the user's own id alone under `users`, the owned
   * workspaces in `by_owner` order under `workspaces`, and the owned
   * projects in table order under `projects`, whether or not each nested
   * delete succeeded.
   */
  lemma UserCascadeLists(s: Snapshot, userId: Id)
    ensures var d := UserCascade(s, userId).1.deletedEntities;
            && d.users == Some([userId])
            && d.workspaces == Some(IdList(WorkspacesOfOwner(s, userId), WorkspaceKey))
            && d.projects == Some(IdList(ProjectsOfOwner(s, userId), ProjectKey))
  {
    var workspaceUsers := WorkspaceUsersOfUser(s, userId);
    var s1 := s.(workspaceUsers := Without(s.workspaceUsers, WorkspaceUserKey, IdSet(workspaceUsers, WorkspaceUserKey)));
    var start := UserCascadeStart(userId, IdList(workspaceUsers, WorkspaceUserKey));
    var workspaceIds := IdList(WorkspacesOfOwner(s1, userId), WorkspaceKey);
    var afterWorkspaces := Cascades(s1, start, NestedWorkspaces, workspaceIds);
    var projectIds := IdList(ProjectsOfOwner(afterWorkspaces.0, userId), ProjectKey);
    var d := Cascades(afterWorkspaces.0, afterWorkspaces.1, NestedProjects, projectIds).1.deletedEntities;
    assert UserCascade(s, userId).1.deletedEntities == d;
    WorkspaceCascadesLists(s1, start, workspaceIds);
    CascadesEffect(s1, start, NestedWorkspaces, workspaceIds);
    ProjectCascadesLists(afterWorkspaces.0, afterWorkspaces.1, projectIds);
    assert [] + workspaceIds == workspaceIds;
    assert [] + projectIds == projectIds;
  }

  /**
   * A project someone else owns survives the user cascade even when its
   * home workspace was the user's and is gone: its `workspaceId` then
   * names no workspace.
   */
  lemma UserCascadeKeepsOthersProjects(s: Snapshot, userId: Id)
    requires KeyedById(s.projects, ProjectKey)
    ensures var t := UserCascade(s, userId).0;
            forall p :: p in s.projects ==> (p in t.projects <==> p.ownerId != userId)
  {
    var workspaceUsers := WorkspaceUsersOfUser(s, userId);
    var s1 := s.(workspaceUsers := Without(s.workspaceUsers, WorkspaceUserKey, IdSet(workspaceUsers, WorkspaceUserKey)));
    var start := UserCascadeStart(userId, IdList(workspaceUsers, WorkspaceUserKey));
    var workspaceIds := IdList(WorkspacesOfOwner(s1, userId), WorkspaceKey);
    var afterWorkspaces := Cascades(s1, start, NestedWorkspaces, workspaceIds);
    var ownedProjects := ProjectsOfOwner(afterWorkspaces.0, userId);
    var projectIds := IdList(ownedProjects, ProjectKey);
    CascadesEffect(s1, start, NestedWorkspaces, workspaceIds);
    CascadesEffect(afterWorkspaces.0, afterWorkspaces.1, NestedProjects, projectIds);
    IdListMembers(ownedProjects, ProjectKey);
    WithoutListed(s.projects, ProjectKey, ownedProjects);
    assert IdSet(ownedProjects, ProjectKey) == Ids(projectIds);
  }

  /** A report whose project none of the nested project cascades names survives them. */
  lemma {:induction false} CascadesKeepReport(s: Snapshot, acc: DeletionResult, k: Nested, ids: seq<Id>, x: Report)
    requires KeyedById(s.reports, ReportKey)
    requires x in s.reports && (k == NestedProjects ==> x.projectId !in ids)
    ensures x in Cascades(s, acc, k, ids).0.reports
    decreases |ids|
  {
    if ids != [] {
      var front := ids[..|ids| - 1];
      var last := ids[|ids| - 1];
      assert ids == front + [last];
      CascadesKeepReport(s, acc, k, front, x);
      CascadesEffect(s, acc, k, front);
      var prev := Cascades(s, acc, k, front).0;
      assert KeyedById(prev.reports, ReportKey);
      StepKeepsReport(prev, k, last, x);
    }
  }

  /** One nested cascade keeps a report unless it is the project cascade of that report's project. */
  lemma StepKeepsReport(s: Snapshot, k: Nested, id: Id, x: Report)
    requires KeyedById(s.reports, ReportKey)
    requires x in s.reports && (k == NestedProjects ==> x.projectId != id)
    ensures x in Step(s, k, id).0.reports
  {
    if k == NestedProjects {
      assert x.id !in IdSet(ReportsOfProject(s, id), ReportKey);
    }
  }

  /**
   * `deleteUserCascade` deletes reports only inside the project cascade,
   * by project: a report in a project the user does not own survives,
   * whoever wrote it.
   */
  lemma UserCascadeKeepsOthersReports(s: Snapshot, userId: Id, x: Report)
    requires KeyedById(s.reports, ReportKey)
    requires x in s.reports
    requires forall p :: p in s.projects && p.id == x.projectId ==> p.ownerId != userId
    ensures x in UserCascade(s, userId).0.reports
  {
    var workspaceUsers := WorkspaceUsersOfUser(s, userId);
    var s1 := s.(workspaceUsers := Without(s.workspaceUsers, WorkspaceUserKey, IdSet(workspaceUsers, WorkspaceUserKey)));
    var start := UserCascadeStart(userId, IdList(workspaceUsers, WorkspaceUserKey));
    var workspaceIds := IdList(WorkspacesOfOwner(s1, userId), WorkspaceKey);
    var afterWorkspaces := Cascades(s1, start, NestedWorkspaces, workspaceIds);
    var s2 := afterWorkspaces.0;
    var ownedProjects := ProjectsOfOwner(s2, userId);
    CascadesKeepReport(s1, start, NestedWorkspaces, workspaceIds, x);
    CascadesEffect(s1, start, NestedWorkspaces, workspaceIds);
    IdListMembers(ownedProjects, ProjectKey);
    CascadesKeepReport(s2, afterWorkspaces.1, NestedProjects, IdList(ownedProjects, ProjectKey), x);
  }

  /**
   * The user's own report in someone else's project outlives them: after
   * the cascade it names an author no user row carries.
   */
  lemma UserCascadeLeavesDanglingAuthor(s: Snapshot, userId: Id, x: Report)
    requires KeyedById(s.reports, ReportKey)
    requires x in s.reports && x.authorId == userId
    requires forall p :: p in s.projects && p.id == x.projectId ==> p.ownerId != userId
    ensures var t := UserCascade(s, userId).0;
            x in t.reports && forall u :: u in t.users ==> u.id != x.authorId
  {
    UserCascadeKeepsOthersReports(s, userId, x);
    UserCascadeRemovesOwned(s, userId);
  }

  // -------------------------------------------------------- clearAllData

  /** A key of `deletedEntities` that `clearAllData` creates on its first push only. */
  function Listed(ids: seq<Id>): (r: Option<seq<Id>>)
    ensures r.None? <==> ids == []
    ensures r.Some? ==> r.value == ids
  {
    if ids == [] then None else Some(ids)
  }

  /**
   * `clearAllData`: every row of `documents`, `reports`,
   * `workspaceProjects`, `workspaceUsers`, `projects`, `workspaces` and
   * `users`, table by table in that order, listing each id. The newer
   * tables are left as they are.
   */
  method ClearAllData(db: Store) returns (r: DeletionResult)
    modifies db
    ensures r.success && r.errors == []
    ensures r.deletedEntities == Deleted(
              Listed(IdList(old(db.users), UserKey)), Listed(IdList(old(db.workspaces), WorkspaceKey)),
              Listed(IdList(old(db.projects), ProjectKey)), Listed(IdList(old(db.workspaceUsers), WorkspaceUserKey)),
              Listed(IdList(old(db.workspaceProjects), WorkspaceProjectKey)), Listed(IdList(old(db.documents), DocumentKey)),
              Listed(IdList(old(db.reports), ReportKey)))
    ensures db.users == [] && db.workspaces == [] && db.projects == [] && db.workspaceUsers == []
    ensures db.workspaceProjects == [] && db.documents == [] && db.reports == []
    ensures db.memberships == old(db.memberships) && db.entities == old(db.entities) && db.grants == old(db.grants)
    ensures db.nextId == old(db.nextId) && db.events == old(db.events)
  {
    var documents := db.documents;
    var documentIds := DeleteDocumentsListed(db, documents);
    WithoutAll(documents, DocumentKey, IdSet(documents, DocumentKey));
    var reports := db.reports;
    var reportIds := DeleteReportsListed(db, reports);
    WithoutAll(reports, ReportKey, IdSet(reports, ReportKey));
    var workspaceProjects := db.workspaceProjects;
    var linkIds := DeleteLinksListed(db, workspaceProjects);
    WithoutAll(workspaceProjects, WorkspaceProjectKey, IdSet(workspaceProjects, WorkspaceProjectKey));
    var workspaceUsers := db.workspaceUsers;
    var workspaceUserIds := DeleteWorkspaceUsersListed(db, workspaceUsers);
    WithoutAll(workspaceUsers, WorkspaceUserKey, IdSet(workspaceUsers, WorkspaceUserKey));
    var projects := db.projects;
    var projectIds := DeleteProjectsListed(db, projects);
    WithoutAll(projects, ProjectKey, IdSet(projects, ProjectKey));
    var workspaces := db.workspaces;
    var workspaceIds := DeleteWorkspacesListed(db, workspaces);
    WithoutAll(workspaces, WorkspaceKey, IdSet(workspaces, WorkspaceKey));
    var users := db.users;
    var userIds := DeleteUsersListed(db, users);
    WithoutAll(users, UserKey, IdSet(users, UserKey));
    r := DeletionResult(true, Deleted(Listed(userIds), Listed(workspaceIds), Listed(projectIds), Listed(workspaceUserIds),
                                      Listed(linkIds), Listed(documentIds), Listed(reportIds)), []);
  }

  /**
   * A table's key is present in the `clearAllData` result exactly when the
   * table had rows, and then lists exactly the ids the table held.
   */
  lemma ClearedListExact<T(!new)>(rows: seq<T>, idOf: T -> Id)
    ensures Listed(IdList(rows, idOf)).None? <==> rows == []
    ensures forall id :: (Listed(IdList(rows, idOf)).Some? && id in Listed(IdList(rows, idOf)).value) <==>
                         exists x :: x in rows && idOf(x) == id
  {
    IdListMembers(rows, idOf);
  }
}
