/** The articles application's models: globally named tags, articles with a
    review status, and the version table written by the version service. */
module Articles {
  import opened Base
  import opened Versions

  /** The four values of the article's status column. */
  datatype Status = Draft | Pending | Approved | Archived

  /** The text stored in the status column for each status. */
  function StatusCode(s: Status): (code: string)
    ensures code == "DRAFT" || code == "PENDING" || code == "APPROVED" || code == "ARCHIVED"
  {
    match s
    case Draft => "DRAFT"
    case Pending => "PENDING"
    case Approved => "APPROVED"
    case Archived => "ARCHIVED"
  }

  /** An article: its review fields are assigned in place by approve and
      archive, and every save stamps `updatedAt` (auto_now). Time is a
      natural-number clock supplied by the caller. */
  class Article {
    const id: ArticleId
    var workspace: WorkspaceId
    var createdBy: Option<UserId>
    var tags: seq<nat>
    var status: Status
    var reviewedBy: Option<UserId>
    var reviewedAt: Option<nat>
    var archivedAt: Option<nat>
    var createdAt: nat
    var updatedAt: nat

    /** A new article starts as a draft that nobody has reviewed or
        archived. */
    constructor (id: ArticleId, workspace: WorkspaceId, createdBy: Option<UserId>, tags: seq<nat>, now: nat)
      ensures this.id == id && this.workspace == workspace
      ensures this.createdBy == createdBy && this.tags == tags
      ensures status == Draft
      ensures reviewedBy == None && reviewedAt == None && archivedAt == None
      ensures createdAt == now && updatedAt == now
    {
      this.id := id;
      this.workspace := workspace;
      this.createdBy := createdBy;
      this.tags := tags;
      status := Draft;
      reviewedBy, reviewedAt, archivedAt := None, None, None;
      createdAt, updatedAt := now, now;
    }

    /** save(): writes the row; `updated_at` is stamped with the clock. */
    method Save(now: nat)
      modifies this`updatedAt
      ensures updatedAt == now
    {
      updatedAt := now;
    }

    /** approve(reviewer): from any status, including archived. */
    method Approve(reviewer: Option<UserId>, now: nat)
      modifies this`status, this`reviewedBy, this`reviewedAt, this`updatedAt
      ensures status == Approved && reviewedBy == reviewer && reviewedAt == Some(now)
      ensures updatedAt == now
      ensures archivedAt == old(archivedAt) && workspace == old(workspace)
      ensures tags == old(tags) && createdBy == old(createdBy)
    {
      status := Approved;
      reviewedBy := reviewer;
      reviewedAt := Some(now);
      Save(now);
    }

    /** archive(): from any status; the review fields are kept. */
    method Archive(now: nat)
      modifies this`status, this`archivedAt, this`updatedAt
      ensures status == Archived && archivedAt == Some(now)
      ensures updatedAt == now
      ensures reviewedBy == old(reviewedBy) && reviewedAt == old(reviewedAt)
    {
      status := Archived;
      archivedAt := Some(now);
      Save(now);
    }
  }

  /** Approving twice with the same reviewer ends in the same state as
      approving once, except for the review and update times. */
  method ApproveTwice(a: Article, reviewer: Option<UserId>, first: nat, second: nat)
    modifies a
    ensures a.status == Approved && a.reviewedBy == reviewer && a.reviewedAt == Some(second)
    ensures a.archivedAt == old(a.archivedAt) && a.workspace == old(a.workspace)
    ensures a.tags == old(a.tags) && a.createdBy == old(a.createdBy)
  {
    a.Approve(reviewer, first);
    ghost var status1, reviewer1 := a.status, a.reviewedBy;
    a.Approve(reviewer, second);
    assert a.status == status1 && a.reviewedBy == reviewer1;
  }

  /** A version row as ArticleVersion.objects.create builds it when only the
      article, texts, number and editor are given: current by default, empty
      change summary, no drive identifiers. */
  function NewVersion(a: ArticleId, title: string, content: string, number: nat, editor: Option<UserId>): Version {
    Version(a, title, content, number, editor, true, "", None, None)
  }

  /** In this module the Meta block (and the save override written inside it)
      is not part of ArticleVersion, so plain creates neither flip the other
      versions off nor check (article, version_number): two creates with the
      defaults leave two current versions under one number. */
  lemma RawCreatesBreakInvariants(a: ArticleId, title: string, content: string, editor: Option<UserId>)
    ensures var rows := [] + [NewVersion(a, title, content, 1, editor)] + [NewVersion(a, title, content, 1, editor)];
      && rows[0].isCurrent && rows[1].isCurrent
      && !AtMostOneCurrent(rows, a)
      && !NumbersUnique(rows)
  {
  }

  /** With those defaults, a plain create into any table that already holds
      a version of the article breaks the invariants the misplaced Meta was
      meant to keep: the new row is current, so a current row of the article
      is no longer alone, and a row of the article with the same number is
      no longer unique. */
  lemma PlainCreateBreaksInvariants(
    rows: seq<Version>, k: nat, a: ArticleId, title: string, content: string, number: nat, editor: Option<UserId>)
    requires k < |rows| && rows[k].article == a
    ensures rows[k].isCurrent ==> !AtMostOneCurrent(rows + [NewVersion(a, title, content, number, editor)], a)
    ensures rows[k].number == number ==> !NumbersUnique(rows + [NewVersion(a, title, content, number, editor)])
  {
    var after := rows + [NewVersion(a, title, content, number, editor)];
    assert after[k] == rows[k];
    assert after[|rows|].article == a && after[|rows|].isCurrent && after[|rows|].number == number;
  }

  predicate TagNamesUnique(names: seq<string>) {
    forall i, j :: 0 <= i < |names| && 0 <= j < |names| && names[i] == names[j] ==> i == j
  }

  /** The articles application's tables: tags (unique by name across the
      whole site) and article versions (no constraint in force). */
  class ArticleStore {
    var tags: seq<string>
    var versions: seq<Version>

    ghost predicate Valid()
      reads this
    {
      TagNamesUnique(tags)
    }

    constructor ()
      ensures Valid() && tags == [] && versions == []
    {
      tags, versions := [], [];
    }

    /** Tag.objects.create(name): a name already in use anywhere is a
        conflict. */
    method CreateTag(name: string) returns (r: Outcome)
      requires Valid()
      modifies this`tags
      ensures Valid()
      ensures r == (if name in old(tags) then Fail(Conflict) else Pass)
      ensures tags == if r.Pass? then old(tags) + [name] else old(tags)
    {
      if name in tags {
        return Fail(Conflict);
      }
      tags := tags + [name];
      r := Pass;
    }

    /** ArticleVersion.objects.create: the row is inserted as given. */
    method CreateVersion(v: Version)
      modifies this`versions
      ensures versions == old(versions) + [v]
    {
      versions := versions + [v];
    }
  }
}
