# Content store of a multi-tenant knowledge platform, in Dafny

This project models the core of a Django content-management backend. The
backend stores workspaces, their memberships and tags, articles, article
versions and documents. The model keeps these as tables of rows in store
objects and proves what the code does to them.

- **Version engine.** It covers two paths. `ArticleVersion.save` of the
  workspaces application numbers a new version (max + 1, or 1) and makes it
  the only current version of its article. The article service's
  `create_new_version` and `update_article` compute max + 1, switch the
  article's current versions off, build and upload an export file, insert the
  new current row and stamp the article. The upload is an oracle: a function
  from (file name, file body) to `Uploaded(id, link)` or `UploadError`.
- **Tenancy.** Saving a new workspace grants its creator an owner
  membership. Memberships are unique per (workspace, user), tags per
  (workspace, name), and document drive ids are globally unique.
  `Article.clean` rejects a tag from another workspace. The admin check reads
  the membership table. The workspace-creation view is modelled as two
  inserts into the store.
- **Review status.** An article starts as a draft. `approve` and `archive`
  assign the status and review fields from any prior status.

Modules: `Base` (shared types and errors), `Versions` (version rows, the
numbering rule, the current-flag bulk update), `Workspaces`
(workspaces/models.py), `Permissions` (workspaces/permissions.py),
`WorkspaceViews` (workspaces/views.py), `Articles` (articles/models.py) and
`Services` (articles/services.py).

Time is a natural-number clock `now` supplied by the caller. Version rows
are identified by their index in the table, which stands for the primary
key. A version number of 0 stands for an unset number, since Python treats
0 and None alike in `if not self.version_number`.

Three things in the source shape the model:

- The `Article` of articles/models.py:25-72 declares no title, yet
  articles/services.py:68 and :112 name the export file after
  `article.title`. The service methods take that title as the parameter
  `articleTitle`.
- In articles/models.py the `class Meta:` at line 129 sits at module level.
  The `save` override written inside it therefore belongs to no model, and
  its `unique_together` is not in force. On the service path, the flip at
  articles/services.py:65 is the only thing that keeps one version current.
- workspaces/permissions.py:10 names `Role.ADMIN`, but the role enumeration
  at workspaces/models.py:45-48 defines only owner, editor and viewer. The
  view writes the literal `'ADMIN'` (workspaces/views.py:22). The corrected
  check tests the explicit constant `Permissions.ADMIN_ROLE`, which holds that
  literal. It is not treated as the owner role.

Version numbers can be issued again: the next number is the maximum over
the surviving rows of the article plus one, so deleting the top version lets
its number be issued again (`Versions.NumberReusedAfterDelete`). The code
switches the current flags off before it uploads the export file; a version
of the operation that uploads first is proved beside it
(`Services.CreateNewVersionAtomic`).

## Model

| member | source | states |
|---|---|---|
| Versions.MaxNumber | articles/services.py:59-62 | the result bounds every version number of the article and is attained by one of its rows, or is 0 when the article has none |
| Versions.NextNumber | workspaces/models.py:203-212 | the next number is at least 1, above every number of the article's rows, and one more than a number in use unless it is 1 |
| Versions.Uncurrent | articles/services.py:64-65 | after the bulk update no version of the article is current; rows only change their current flag; other articles' rows are unchanged |
| Versions.FlipThenAppendCurrent | articles/services.py:64-93 | flipping the article's versions off and appending a current one leaves exactly that one current, and keeps at most one current per article table-wide |
| Versions.NumberReusedAfterDelete | workspaces/models.py:203-212 | after the article's highest version is deleted, the next number issued is at most the deleted one, so numbers are reused |
| Workspaces.TagNameScopedToWorkspace | workspaces/models.py:92-94 | two tags with one name satisfy the uniqueness constraint exactly when their workspaces differ |
| Workspaces.Clean | workspaces/models.py:140-146 | the check fails, with a validation error, exactly when some attached tag's workspace differs from the article's; nothing changes |
| Workspaces.SaveVersionRows | workspaces/models.py:200-221 | the save's effect on the version table: it fails only with a conflict, and on success the saved row is in the table with a number of at least 1 |
| Workspaces.SaveVersionNumbering | workspaces/models.py:195-221 | save fails only with a conflict, exactly when another row of the article has the number; otherwise a nonzero supplied number is kept and an unset one becomes exactly the article's highest number plus one, or 1 when the article has no rows, which is above all the article's numbers |
| Workspaces.SaveCurrentIsOnlyCurrent | workspaces/models.py:214-221 | a saved current version is the only current version of its article afterwards |
| Workspaces.SaveTouchesOnlyItsArticle | workspaces/models.py:214-221 | save changes only current flags of other rows, never rows of other articles, and no other row at all when the saved row is not current |
| Workspaces.SaveVersionKeepsInvariants | workspaces/models.py:193-221 | save preserves uniqueness of (article, number) and at most one current version per article |
| Workspaces.WorkspaceStore.CreateMembership | workspaces/models.py:62-71 | a duplicate (workspace, user) is a conflict and leaves the table unchanged; otherwise the row is appended with the role defaulting to viewer |
| Workspaces.WorkspaceStore.SaveWorkspace | workspaces/models.py:24-34 | a new workspace gets a fresh key and exactly one membership (workspace, creator, owner); re-saving a stored workspace inserts no membership |
| Workspaces.WorkspaceStore.CreateTag | workspaces/models.py:83-97 | a tag whose (workspace, name) exists is a conflict; otherwise it is appended and tags stay unique per workspace |
| Workspaces.WorkspaceStore.CreateDocument | workspaces/models.py:254-258 | a document whose drive file id is already used is a conflict; otherwise it is appended and drive ids stay unique |
| Workspaces.WorkspaceStore.SaveVersion | workspaces/models.py:200-221 | the transactional save leaves the table as the save function says, restoring it on a conflict, and keeps the store's invariants |
| Permissions.IsWorkspaceAdminAsWritten | workspaces/permissions.py:3-11 | an unauthenticated user gets false; the missing enumeration member makes every other call raise |
| Permissions.AsWrittenRaisesForAuthenticated | workspaces/permissions.py:7-11 | for any authenticated user and any table, the check as written raises AttributeError |
| Permissions.HasRole | workspaces/permissions.py:7-11 | the scan answers true exactly when a row (workspace, user, role) exists |
| Permissions.IsWorkspaceAdmin | workspaces/permissions.py:3-11 | false for an unauthenticated user; otherwise true exactly when a membership (workspace, user, admin role) exists, false and not an error when none does |
| Permissions.AsWrittenAgreesWhenItAnswers | workspaces/permissions.py:4-5 | where the check as written returns a value, the corrected check returns the same one |
| Permissions.OtherRoleIsNotAdmin | workspaces/permissions.py:7-11 | with unique memberships, a user whose membership has another role, such as owner, is not an admin |
| WorkspaceViews.CreateWorkspace | workspaces/views.py:8-25 | the view never succeeds; with a user, name and description it creates the workspace and its owner membership, then fails with a conflict and keeps both |
| WorkspaceViews.CreateWorkspaceCorrected | workspaces/views.py:12-16 | without the second insert the view succeeds exactly when the user is authenticated and both fields are given, leaving one membership (owner) for the new workspace |
| Articles.StatusCode | articles/models.py:27-32 | the status column holds one of the four choice codes |
| Articles.Article.constructor | articles/models.py:53-72 | a new article is a draft with no reviewer, review time or archive time |
| Articles.Article.Save | articles/models.py:72 | saving stamps the update time with the clock |
| Articles.Article.Approve | articles/models.py:81-85 | from any status: status approved, reviewer and review time set, update time stamped; archive time, workspace, tags and creator untouched |
| Articles.Article.Archive | articles/models.py:87-90 | from any status: status archived, archive time set, update time stamped; reviewer and review time untouched |
| Articles.ApproveTwice | articles/models.py:81-85 | approving twice with one reviewer gives the same status and reviewer as once; only the review time differs |
| Articles.PlainCreateBreaksInvariants | articles/models.py:121-146 | a version created with the defaults (`is_current` true) into any table where the article already has a current version leaves two current versions, and one with a number already in use leaves (article, number) duplicated, since no constraint or save override is in force |
| Articles.RawCreatesBreakInvariants | articles/models.py:121-146 | versions are current by default, and two plain creates leave two current versions under one number |
| Articles.ArticleStore.CreateTag | articles/models.py:12-13 | a tag name already used anywhere is a conflict; otherwise it is appended and names stay globally unique |
| Articles.ArticleStore.CreateVersion | articles/models.py:99-128 | a plain create inserts the row exactly as given, with no flip and no uniqueness check |
| Services.NatToString | articles/services.py:68 | the version number is written as nonempty decimal digits with no leading zero |
| Services.DigitsRoundTrip | articles/services.py:68 | reading the decimal text of a number gives the number back |
| Services.ExportName | articles/services.py:68 | the export file name starts with the article title and ends in `.txt` |
| Services.ExportNameRoundTrip | articles/services.py:68 | the export file name `<title>_v<n>.txt` yields the version number back |
| Services.ExportBody | articles/services.py:72-73 | the body is "Title: ", the title, a blank line, then the content; `Services.ExportBodyRoundTrip` reads title and content back |
| Services.ParseExportBody | articles/services.py:71-73 | any title and content read back from an export body are ones whose export body it is |
| Services.ExportBodyRoundTrip | articles/services.py:71-73 | the title (when it holds no line break) and the content are read back from the export body written for them |
| Services.CreateNewVersionRows | articles/services.py:57-93 | the version-creation effect on the table: a failed upload adds no row and returns an upload error; a success adds exactly one row |
| Services.CreateNewVersionSuccess | articles/services.py:57-99 | on success the new row is max + 1, above all surviving numbers, carries the texts, editor, summary and upload id and link, and is the article's only current version |
| Services.CreateNewVersionFrame | articles/services.py:64-93 | other articles' versions are unchanged, and the article's older versions change only their current flag |
| Services.UploadFailureLeavesNoCurrent | articles/services.py:64-80 | when the upload fails no row is added and the article is left with no current version, even one it had |
| Services.CreateNewVersionAtomic | articles/services.py:57-99 | with the upload first, a failure leaves the table unchanged and a success has the same effect as the code as written |
| Services.CreateNewVersion | articles/services.py:57-99 | the table and the result are those of the version-creation function; the article's update time is stamped only on success |
| Services.UpdateArticle | articles/services.py:104-139 | same effect as version creation with an empty change summary |

## Left out

- The cloud-storage client and upload call (articles/services.py:14-52): a foreign API with credentials, replaced by the upload oracle.
- Writing the export file to the media directory (articles/services.py:69-73): file I/O; only the file's name and body are modelled.
- Real time: `timezone.now`, `auto_now` and `auto_now_add` become the clock parameter; creation and join timestamps of workspaces, memberships, versions and documents are not stored.
- `transaction.atomic` and concurrent writers: every call is one sequential step; the rollback of a failed version save is modelled as restoring the table.
- Cascade and set-null deletes, ordering, indexes and `__str__`: declarative framework behaviour; no delete operation is modelled.
- Routing and serializer glue (config/urls.py, articles/urls.py, articles/views.py) and the scratch file back.py.
- The user table: foreign keys to users are not checked; a user is an id or anonymous.
- The article table of the workspaces application: an article is a value carrying its tag rows, and the version table's foreign key to articles is not checked.
- The document model of articles/models.py (a file field, no drive id): nothing in the core writes it.
- Column widths (`max_length`, URL validation) and the 32-bit bound of `PositiveIntegerField`: numbers are unbounded.
- `Article.clean` is modelled as a check a caller runs; the framework does not call it when tags are attached.
- Workspaces.WorkspaceStore.SaveVersion: requires that a primary key given with the row names a stored row; inserting a row under a hand-set key that names no row is not modelled (the same holds for `Workspaces.SaveVersionRows`).
- Services.CreateNewVersion: the `articleTitle` parameter replaces `article.title`. On an article of articles/models.py, which declares no title, the code as written raises AttributeError at articles/services.py:68 (and :112 in `update_article`), right after the flip at :65. That path is not modelled; its effect on the table would be the same as an upload failure: the flip is committed and no row is added.
- Services.ExportBodyRoundTrip: states the read-back only for a title without a line break; a title holding "\n\n" cannot be told apart from the content in the file.
- Workspaces.WorkspaceStore.SaveWorkspace: requires that a workspace saved with a primary key is already stored; saving an unsaved instance with a hand-set key is not modelled.

## Findings

| source | as written | input that shows it | evidently intended | confidence | as-written member | corrected member |
|---|---|---|---|---|---|---|
| workspaces/permissions.py:10 | the filter names `Role.ADMIN`, which the role enumeration does not define, so the lookup raises AttributeError | any authenticated user and any workspace | look up a membership with a defined admin role and answer true or false | high, not executed | Permissions.AsWrittenRaisesForAuthenticated | Permissions.IsWorkspaceAdmin |
| articles/services.py:65 | current versions are switched off before the upload at line 76 | an article with a current version, and an upload that raises | upload first; switch off and insert only after a successful upload | high, not executed | Services.UploadFailureLeavesNoCurrent | Services.CreateNewVersionAtomic |
| workspaces/views.py:19-23 | a second membership for (workspace, user) is inserted after the workspace save already inserted one | any authenticated request with a name and a description | the creator holds one membership and the view answers with success | high, not executed | WorkspaceViews.CreateWorkspace | WorkspaceViews.CreateWorkspaceCorrected |
| articles/models.py:129 | the Meta block, with `unique_together` and the `save` override, is at module level instead of inside ArticleVersion | two plain creates for one article with number 1 and the default current flag | the same constraint and save override as workspaces/models.py:193-221; note that the save written inside the misplaced Meta (articles/models.py:136-146) only flips the current flags, while the corrected member, the save of the workspaces application, also numbers an unset version and rolls back on a conflict | high, not executed | Articles.RawCreatesBreakInvariants | Workspaces.SaveVersionKeepsInvariants |

The service methods keep the code's order (flip, then upload). The corrected
order is given beside them as `Services.CreateNewVersionAtomic`.
