/** The workspaces application's models: workspaces, memberships, tags,
    articles, article versions and documents, held as tables of rows in one
    store object whose methods are the model-level saves and creates. */
module Workspaces {
  import opened Base
  import opened Versions

  datatype Workspace = Workspace(name: string, description: string, createdBy: UserId)

  datatype Membership = Membership(workspace: WorkspaceId, user: UserId, role: Role)

  datatype Tag = Tag(workspace: WorkspaceId, name: string)

  /** An article of this application, with the tags attached to it. */
  datatype Article = Article(
    workspace: WorkspaceId,
    title: string,
    content: string,
    createdBy: Option<UserId>,
    tags: seq<Tag>)

  datatype Document = Document(
    workspace: WorkspaceId,
    article: Option<ArticleId>,
    uploadedBy: UserId,
    fileName: string,
    driveFileId: string,
    driveLink: string,
    fileSize: int,
    mimeType: string)

  predicate HasMembership(ms: seq<Membership>, w: WorkspaceId, u: UserId) {
    exists i :: 0 <= i < |ms| && ms[i].workspace == w && ms[i].user == u
  }

  /** unique_together = ("workspace", "user") */
  predicate MembershipsUnique(ms: seq<Membership>) {
    forall i, j ::
      && 0 <= i < |ms| && 0 <= j < |ms|
      && ms[i].workspace == ms[j].workspace && ms[i].user == ms[j].user
      ==> i == j
  }

  predicate HasTag(ts: seq<Tag>, w: WorkspaceId, name: string) {
    exists i :: 0 <= i < |ts| && ts[i].workspace == w && ts[i].name == name
  }

  /** unique_together = ("workspace", "name") */
  predicate TagsUnique(ts: seq<Tag>) {
    forall i, j ::
      && 0 <= i < |ts| && 0 <= j < |ts|
      && ts[i].workspace == ts[j].workspace && ts[i].name == ts[j].name
      ==> i == j
  }

  predicate HasDriveFile(ds: seq<Document>, id: string) {
    exists i :: 0 <= i < |ds| && ds[i].driveFileId == id
  }

  /** drive_file_id is unique across all documents. */
  predicate DriveIdsUnique(ds: seq<Document>) {
    forall i, j :: 0 <= i < |ds| && 0 <= j < |ds| && ds[i].driveFileId == ds[j].driveFileId ==> i == j
  }

  /** Tag uniqueness is per workspace: one name may be used once in each
      workspace, but not twice in the same one. */
  lemma TagNameScopedToWorkspace(w1: WorkspaceId, w2: WorkspaceId, name: string)
    ensures TagsUnique([Tag(w1, name), Tag(w2, name)]) <==> w1 != w2
  {
    var ts := [Tag(w1, name), Tag(w2, name)];
    if w1 == w2 {
      assert ts[0].workspace == ts[1].workspace && ts[0].name == ts[1].name;
    }
  }

  /** Every tag attached to the article lives in the article's workspace. */
  predicate TagsInWorkspace(article: Article) {
    forall i :: 0 <= i < |article.tags| ==> article.tags[i].workspace == article.workspace
  }

  /** Article.clean: walks the attached tags and raises a validation error at
      the first one from another workspace; changes nothing. */
  method Clean(article: Article) returns (r: Outcome)
    ensures r.Pass? <==> TagsInWorkspace(article)
    ensures r.Fail? ==> r.error == Validation
  {
    for i := 0 to |article.tags|
      invariant forall j :: 0 <= j < i ==> article.tags[j].workspace == article.workspace
    {
      if article.tags[i].workspace != article.workspace {
        return Fail(Validation);
      }
    }
    return Pass;
  }

  /** The version table after a successful ArticleVersion.save, and the index
      of the saved row. */
  datatype Saved = Saved(rows: seq<Version>, at: nat)

  /** The number ArticleVersion.save gives `v`: a supplied nonzero number is
      kept, an unset one becomes the article's next number. */
  function AssignedNumber(rows: seq<Version>, v: Version): (n: nat)
    ensures n >= 1
    ensures v.number != 0 ==> n == v.number
  {
    if v.number == 0 then NextNumber(rows, v.article) else v.number
  }

  /** ArticleVersion.save on the version table, inside its transaction: fill
      in the number, mark the article's current versions non-current when the
      row is current, then insert the row (pk None) or overwrite row `pk`. A
      clash on (article, version_number) aborts the transaction, so the table
      is left as it was. */
  function SaveVersionRows(rows: seq<Version>, pk: Option<nat>, v: Version): (r: Result<Saved>)
    requires pk.Some? ==> pk.value < |rows|
    ensures r.Err? ==> r.error == Conflict
    ensures r.Ok? ==> r.value.at < |r.value.rows| && r.value.rows[r.value.at].number >= 1
  {
    var saved := v.(number := AssignedNumber(rows, v));
    var at := if pk.Some? then pk.value else |rows|;
    var flipped := if saved.isCurrent then Uncurrent(rows, saved.article) else rows;
    if NumberTaken(rows, saved.article, saved.number, at) then Err(Conflict)
    else if pk.Some? then Ok(Saved(flipped[at := saved], at))
    else Ok(Saved(flipped + [saved], at))
  }

  /** Save fails exactly when another row of the article already has the
      number, and then only with a conflict. On success the saved row sits at
      the pk (or is appended), carries the given fields, and its number is the
      supplied one, or the article's next number when none was supplied. */
  lemma SaveVersionNumbering(rows: seq<Version>, pk: Option<nat>, v: Version)
    requires pk.Some? ==> pk.value < |rows|
    ensures var r := SaveVersionRows(rows, pk, v);
      var at := if pk.Some? then pk.value else |rows|;
      && (r.Err? <==> NumberTaken(rows, v.article, AssignedNumber(rows, v), at))
      && (r.Err? ==> r.error == Conflict)
      && (r.Ok? ==>
        && r.value.at == at
        && |r.value.rows| == (if pk.Some? then |rows| else |rows| + 1)
        && r.value.rows[at] == v.(number := r.value.rows[at].number)
        && (v.number != 0 ==> r.value.rows[at].number == v.number)
        && (v.number == 0 ==> r.value.rows[at].number >= 1)
        && (v.number == 0 ==> r.value.rows[at].number == NextNumber(rows, v.article))
        && (v.number == 0 ==> forall i :: 0 <= i < |rows| && rows[i].article == v.article ==>
              rows[i].number < r.value.rows[at].number))
  {
  }

  /** Saving a current version leaves it the only current version of its
      article. */
  lemma SaveCurrentIsOnlyCurrent(rows: seq<Version>, pk: Option<nat>, v: Version)
    requires pk.Some? ==> pk.value < |rows|
    requires v.isCurrent
    requires SaveVersionRows(rows, pk, v).Ok?
    ensures var s := SaveVersionRows(rows, pk, v).value;
      && s.rows[s.at].isCurrent
      && forall i :: 0 <= i < |s.rows| && s.rows[i].article == v.article && s.rows[i].isCurrent ==> i == s.at
  {
  }

  /** Saving only rewrites the `is_current` flags of the saved article's
      rows: with `is_current` false no other row changes at all, and the rows
      of other articles never change. */
  lemma SaveTouchesOnlyItsArticle(rows: seq<Version>, pk: Option<nat>, v: Version)
    requires pk.Some? ==> pk.value < |rows|
    requires SaveVersionRows(rows, pk, v).Ok?
    ensures var s := SaveVersionRows(rows, pk, v).value;
      && (forall i :: 0 <= i < |rows| && i != s.at ==> s.rows[i] == rows[i].(isCurrent := s.rows[i].isCurrent))
      && (forall i :: 0 <= i < |rows| && i != s.at && rows[i].article != v.article ==> s.rows[i] == rows[i])
      && (!v.isCurrent ==> forall i :: 0 <= i < |rows| && i != s.at ==> s.rows[i] == rows[i])
  {
  }

  /** ArticleVersion.save keeps both table invariants: (article, number) is
      unique and every article has at most one current version. */
  lemma SaveVersionKeepsInvariants(rows: seq<Version>, pk: Option<nat>, v: Version)
    requires pk.Some? ==> pk.value < |rows|
    requires NumbersUnique(rows) && OneCurrentEach(rows)
    requires SaveVersionRows(rows, pk, v).Ok?
    ensures NumbersUnique(SaveVersionRows(rows, pk, v).value.rows)
    ensures OneCurrentEach(SaveVersionRows(rows, pk, v).value.rows)
  {
  }

  /** The workspaces application's tables. Version rows are identified by
      their index, which stands for the primary key. */
  class WorkspaceStore {
    var workspaces: map<WorkspaceId, Workspace>
    var nextWorkspace: WorkspaceId
    var memberships: seq<Membership>
    var tags: seq<Tag>
    var versions: seq<Version>
    var documents: seq<Document>

    /** The database constraints of workspaces/models.py, and the foreign
        keys from memberships, tags and documents to workspaces. */
    ghost predicate Valid()
      reads this
    {
      && (forall w :: w in workspaces ==> w < nextWorkspace)
      && (forall i :: 0 <= i < |memberships| ==> memberships[i].workspace in workspaces)
      && MembershipsUnique(memberships)
      && (forall i :: 0 <= i < |tags| ==> tags[i].workspace in workspaces)
      && TagsUnique(tags)
      && NumbersUnique(versions)
      && OneCurrentEach(versions)
      && (forall i :: 0 <= i < |documents| ==> documents[i].workspace in workspaces)
      && DriveIdsUnique(documents)
    }

    constructor ()
      ensures Valid()
      ensures workspaces == map[] && memberships == [] && tags == []
      ensures versions == [] && documents == []
    {
      workspaces, nextWorkspace := map[], 0;
      memberships, tags, versions, documents := [], [], [], [];
    }

    /** WorkspaceMembership.objects.create: the role defaults to viewer; a
        second row for the same (workspace, user) is a conflict and the
        table is left unchanged. */
    method CreateMembership(w: WorkspaceId, u: UserId, role: Option<Role>) returns (r: Outcome)
      requires Valid()
      modifies this`memberships
      ensures Valid()
      ensures r == (if HasMembership(old(memberships), w, u) then Fail(Conflict)
                    else if w !in workspaces then Fail(MissingReference)
                    else Pass)
      ensures r.Pass? ==> memberships == old(memberships) + [Membership(w, u, if role.Some? then role.value else VIEWER)]
      ensures r.Fail? ==> memberships == old(memberships)
    {
      if HasMembership(memberships, w, u) {
        return Fail(Conflict);
      }
      if w !in workspaces {
        return Fail(MissingReference);
      }
      var m := Membership(w, u, if role.Some? then role.value else VIEWER);
      memberships := memberships + [m];
      r := Pass;
    }

    /** Workspace.save: a workspace saved for the first time (no primary key
        yet) gets a fresh key and its creator an owner membership; saving a
        stored workspace again only rewrites its row. */
    method SaveWorkspace(pk: Option<WorkspaceId>, w: Workspace) returns (id: WorkspaceId)
      requires Valid()
      requires pk.Some? ==> pk.value in workspaces
      modifies this`workspaces, this`nextWorkspace, this`memberships
      ensures Valid()
      ensures workspaces == old(workspaces)[id := w]
      ensures pk.Some? ==> id == pk.value && memberships == old(memberships)
      ensures pk.None? ==> id !in old(workspaces)
      ensures pk.None? ==> memberships == old(memberships) + [Membership(id, w.createdBy, OWNER)]
      ensures pk.None? ==> forall i :: 0 <= i < |memberships| && memberships[i].workspace == id ==>
        memberships[i] == Membership(id, w.createdBy, OWNER)
    {
      var isNew := pk.None?;
      if isNew {
        id := nextWorkspace;
        nextWorkspace := nextWorkspace + 1;
      } else {
        id := pk.value;
      }
      workspaces := workspaces[id := w];
      if isNew {
        assert !HasMembership(memberships, id, w.createdBy);
        var r := CreateMembership(id, w.createdBy, Some(OWNER));
      }
    }

    /** Tag.objects.create: (workspace, name) must be new. */
    method CreateTag(t: Tag) returns (r: Outcome)
      requires Valid()
      modifies this`tags
      ensures Valid()
      ensures r == (if HasTag(old(tags), t.workspace, t.name) then Fail(Conflict)
                    else if t.workspace !in workspaces then Fail(MissingReference)
                    else Pass)
      ensures tags == if r.Pass? then old(tags) + [t] else old(tags)
    {
      if HasTag(tags, t.workspace, t.name) {
        return Fail(Conflict);
      }
      if t.workspace !in workspaces {
        return Fail(MissingReference);
      }
      tags := tags + [t];
      r := Pass;
    }

    /** Document.objects.create: the drive file id must be new. */
    method CreateDocument(d: Document) returns (r: Outcome)
      requires Valid()
      modifies this`documents
      ensures Valid()
      ensures r == (if HasDriveFile(old(documents), d.driveFileId) then Fail(Conflict)
                    else if d.workspace !in workspaces then Fail(MissingReference)
                    else Pass)
      ensures documents == if r.Pass? then old(documents) + [d] else old(documents)
    {
      if HasDriveFile(documents, d.driveFileId) {
        return Fail(Conflict);
      }
      if d.workspace !in workspaces {
        return Fail(MissingReference);
      }
      documents := documents + [d];
      r := Pass;
    }

    /** ArticleVersion.save, step by step inside its transaction. */
    method SaveVersion(pk: Option<nat>, v: Version) returns (r: Result<Version>)
      requires Valid()
      requires pk.Some? ==> pk.value < |versions|
      modifies this`versions
      ensures Valid()
      ensures match SaveVersionRows(old(versions), pk, v)
        case Ok(s) => versions == s.rows && r == Ok(s.rows[s.at])
        case Err(e) => versions == old(versions) && r == Err(e)
    {
      ghost var before := versions;
      var snapshot := versions;
      var number := v.number;
      if number == 0 {
        number := NextNumber(versions, v.article);
      }
      var saved := v.(number := number);
      var at := if pk.Some? then pk.value else |versions|;
      if saved.isCurrent {
        versions := Uncurrent(versions, saved.article);
      }
      if NumberTaken(versions, saved.article, number, at) {
        versions := snapshot;
        return Err(Conflict);
      }
      if pk.Some? {
        versions := versions[at := saved];
      } else {
        versions := versions + [saved];
      }
      SaveVersionKeepsInvariants(before, pk, v);
      r := Ok(saved);
    }
  }
}
