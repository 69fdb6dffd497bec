/** The version table shared by both article applications: one row per
    saved article version, the numbering rule (highest number of the
    article's surviving rows, plus one) and the bulk update that marks every
    version of an article as no longer current. */
module Versions {
  import opened Base

  /** One row of the article-version table. `number == 0` stands for a
      version number that has not been set (Python treats 0 and None alike). */
  datatype Version = Version(
    article: ArticleId,
    title: string,
    content: string,
    number: nat,
    editedBy: Option<UserId>,
    isCurrent: bool,
    summary: string,
    driveFileId: Option<string>,
    driveLink: Option<string>)

  /** The highest version number among the rows of article `a`; 0 when the
      article has no rows (the aggregate's None replaced by 0). */
  function MaxNumber(rows: seq<Version>, a: ArticleId): (m: nat)
    ensures forall i :: 0 <= i < |rows| && rows[i].article == a ==> rows[i].number <= m
    ensures m == 0 || exists i :: 0 <= i < |rows| && rows[i].article == a && rows[i].number == m
    decreases |rows|
  {
    if rows == [] then 0
    else
      var prefix := rows[..|rows| - 1];
      var m' := MaxNumber(prefix, a);
      var last := rows[|rows| - 1];
      assert forall i :: 0 <= i < |prefix| ==> prefix[i] == rows[i];
      if last.article == a && last.number > m' then last.number else m'
  }

  /** The number the next version of `a` receives: the least number above
      every number the article's rows carry, counting from 1. */
  function NextNumber(rows: seq<Version>, a: ArticleId): (n: nat)
    ensures n >= 1
    ensures forall i :: 0 <= i < |rows| && rows[i].article == a ==> rows[i].number < n
    ensures n == 1 || exists i :: 0 <= i < |rows| && rows[i].article == a && rows[i].number == n - 1
  {
    MaxNumber(rows, a) + 1
  }

  /** No row of article `a` is current. */
  predicate NoCurrent(rows: seq<Version>, a: ArticleId) {
    forall i :: 0 <= i < |rows| && rows[i].article == a ==> !rows[i].isCurrent
  }

  /** At most one row of article `a` is current. */
  predicate AtMostOneCurrent(rows: seq<Version>, a: ArticleId) {
    forall i, j ::
      && 0 <= i < |rows| && 0 <= j < |rows|
      && rows[i].article == a && rows[j].article == a
      && rows[i].isCurrent && rows[j].isCurrent
      ==> i == j
  }

  /** At most one row per article is current. */
  predicate OneCurrentEach(rows: seq<Version>) {
    forall i, j ::
      && 0 <= i < |rows| && 0 <= j < |rows|
      && rows[i].article == rows[j].article
      && rows[i].isCurrent && rows[j].isCurrent
      ==> i == j
  }

  /** (article, number) identifies a row. */
  predicate NumbersUnique(rows: seq<Version>) {
    forall i, j ::
      && 0 <= i < |rows| && 0 <= j < |rows|
      && rows[i].article == rows[j].article
      && rows[i].number == rows[j].number
      ==> i == j
  }

  /** Some row other than the one at index `except` already carries
      (a, n). */
  predicate NumberTaken(rows: seq<Version>, a: ArticleId, n: nat, except: nat) {
    exists j :: 0 <= j < |rows| && j != except && rows[j].article == a && rows[j].number == n
  }

  /** The bulk update `filter(article=a, is_current=True).update(is_current=False)`. */
  function Uncurrent(rows: seq<Version>, a: ArticleId): (r: seq<Version>)
    ensures |r| == |rows|
    ensures NoCurrent(r, a)
    ensures forall i :: 0 <= i < |rows| ==> r[i] == rows[i].(isCurrent := r[i].isCurrent)
    ensures forall i :: 0 <= i < |rows| && rows[i].article != a ==> r[i] == rows[i]
  {
    seq(|rows|, i requires 0 <= i < |rows| =>
      if rows[i].article == a then rows[i].(isCurrent := false) else rows[i])
  }

  /** Flipping every version of `a` off and then appending a current version
      of `a` leaves exactly that version current for `a`, and keeps the
      one-current-per-article invariant of the whole table. */
  lemma FlipThenAppendCurrent(rows: seq<Version>, v: Version)
    requires v.isCurrent
    ensures var r := Uncurrent(rows, v.article) + [v];
      && AtMostOneCurrent(r, v.article)
      && r[|rows|].isCurrent
      && (OneCurrentEach(rows) ==> OneCurrentEach(r))
  {
  }

  /** Numbering follows the surviving rows: once the highest version of an
      article is deleted, the next number issued is at most the deleted one,
      so numbers are reused. */
  lemma NumberReusedAfterDelete(rows: seq<Version>, k: nat)
    requires k < |rows| && rows[k].number >= 1
    requires forall i :: 0 <= i < |rows| && i != k && rows[i].article == rows[k].article ==>
      rows[i].number < rows[k].number
    ensures NextNumber(rows[..k] + rows[k + 1..], rows[k].article) <= rows[k].number
    ensures NextNumber(rows, rows[k].article) == rows[k].number + 1
  {
  }
}
