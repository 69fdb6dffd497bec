/** The version service: creating a new current version of an article,
    exporting it as a text file and mirroring that file to cloud storage.
    The upload is an oracle from (file name, file body) to its outcome. */
module Services {
  import opened Base
  import opened Versions
  import opened Articles

  /** What the cloud upload returns: the stored file's id and web link, or
      an error. */
  datatype Upload = Uploaded(fileId: string, link: string) | UploadError

  predicate IsDigits(s: string) {
    forall i :: 0 <= i < |s| ==> '0' <= s[i] <= '9'
  }

  function DigitChar(d: nat): (c: char)
    requires d < 10
    ensures '0' <= c <= '9' && c as int - '0' as int == d
  {
    (d + '0' as int) as char
  }

  /** Decimal text of `n`, as Python formats an integer: no sign, no leading
      zero. */
  function NatToString(n: nat): (s: string)
    ensures |s| >= 1 && IsDigits(s)
    ensures |s| > 1 ==> s[0] != '0'
    decreases n
  {
    if n < 10 then [DigitChar(n)] else NatToString(n / 10) + [DigitChar(n % 10)]
  }

  /** The number a string of decimal digits denotes. */
  function DigitsValue(s: string): (n: nat)
    requires IsDigits(s)
    decreases |s|
  {
    if s == [] then 0
    else DigitsValue(s[..|s| - 1]) * 10 + (s[|s| - 1] as int - '0' as int)
  }

  /** Reading the decimal text of a number gives the number back. */
  lemma {:induction false} DigitsRoundTrip(n: nat)
    ensures DigitsValue(NatToString(n)) == n
  {
    if n >= 10 {
      var s := NatToString(n);
      assert s[..|s| - 1] == NatToString(n / 10);
      DigitsRoundTrip(n / 10);
    }
  }

  /** Name of the export file: `<article title>_v<n>.txt`. */
  function ExportName(articleTitle: string, n: nat): (name: string)
    ensures |name| >= |articleTitle| + 7
    ensures name[..|articleTitle|] == articleTitle && name[|name| - 4..] == ".txt"
  {
    articleTitle + "_v" + NatToString(n) + ".txt"
  }

  /** Recovers the version number from an export file name of the article. */
  function ParseExportName(articleTitle: string, name: string): (r: Option<nat>) {
    var start := |articleTitle| + 2;
    if |name| > start + 4
       && name[..|articleTitle|] == articleTitle
       && name[|articleTitle|..start] == "_v"
       && name[|name| - 4..] == ".txt"
       && IsDigits(name[start..|name| - 4])
    then Some(DigitsValue(name[start..|name| - 4]))
    else None
  }

  /** The export file name records the article title and the version number,
      and the number can be read back from it. */
  lemma ExportNameRoundTrip(articleTitle: string, n: nat)
    ensures ParseExportName(articleTitle, ExportName(articleTitle, n)) == Some(n)
  {
    var digits := NatToString(n);
    var name := ExportName(articleTitle, n);
    var start := |articleTitle| + 2;
    assert name == articleTitle + "_v" + digits + ".txt";
    assert name[..|articleTitle|] == articleTitle;
    assert name[|articleTitle|..start] == "_v";
    assert name[|name| - 4..] == ".txt";
    assert name[start..|name| - 4] == digits;
    DigitsRoundTrip(n);
  }

  /** Body of the export file: a title line, a blank line, then the
      content. */
  function ExportBody(title: string, content: string): (body: string)
    ensures |body| == |title| + |content| + 9
    ensures body[..7] == "Title: " && body[7..7 + |title|] == title
    ensures body[7 + |title|..9 + |title|] == "\n\n" && body[9 + |title|..] == content
  {
    "Title: " + title + "\n\n" + content
  }

  /** Splits `s` at its first blank-line separator "\n\n": the text before it
      and the text after it, or none when `s` has no separator. */
  function SplitAtBlankLine(s: string): (r: Option<(string, string)>)
    ensures r.Some? ==> s == r.value.0 + "\n\n" + r.value.1
    ensures r.Some? ==> forall i :: 0 <= i < |r.value.0| ==> !(s[i] == '\n' && s[i + 1] == '\n')
    decreases |s|
  {
    if |s| < 2 then None
    else if s[0] == '\n' && s[1] == '\n' then Some(([], s[2..]))
    else match SplitAtBlankLine(s[1..])
      case None => None
      case Some(parts) => Some(([s[0]] + parts.0, parts.1))
  }

  /** Reads an export file body back into its title and content: drop the
      "Title: " prefix, then split at the first blank line. */
  function ParseExportBody(body: string): (r: Option<(string, string)>)
    ensures r.Some? ==> ExportBody(r.value.0, r.value.1) == body
  {
    if |body| >= 7 && body[..7] == "Title: " then SplitAtBlankLine(body[7..]) else None
  }

  /** Splitting a title that holds no line break, followed by the separator
      and any content, finds the separator right after the title. */
  lemma {:induction false} SplitAfterSingleLine(title: string, content: string)
    requires '\n' !in title
    ensures SplitAtBlankLine(title + "\n\n" + content) == Some((title, content))
  {
    var s := title + "\n\n" + content;
    if title != [] {
      assert s[0] == title[0] && s[0] != '\n';
      assert s[1..] == title[1..] + "\n\n" + content;
      SplitAfterSingleLine(title[1..], content);
      assert [s[0]] + title[1..] == title;
    } else {
      assert s[2..] == content;
    }
  }

  /** A single-line title and any content are read back from the export
      body written for them. */
  lemma ExportBodyRoundTrip(title: string, content: string)
    requires '\n' !in title
    ensures ParseExportBody(ExportBody(title, content)) == Some((title, content))
  {
    var body := ExportBody(title, content);
    assert body[7..] == title + "\n\n" + content;
    SplitAfterSingleLine(title, content);
  }

  /** The version table after a call, and what the call returned. */
  datatype Step = Step(rows: seq<Version>, result: Result<Version>)

  /** create_new_version's effect on the version table, in the source's
      order: number = max + 1, flip the article's current versions off,
      upload the export, and only then insert the new current row. */
  function CreateNewVersionRows(
    rows: seq<Version>, a: ArticleId, articleTitle: string, title: string, content: string,
    user: Option<UserId>, summary: string, upload: (string, string) -> Upload): (s: Step)
    ensures |s.rows| == |rows| + (if s.result.Ok? then 1 else 0)
    ensures s.result.Err? ==> s.result.error == UploadFailed
  {
    var latest := MaxNumber(rows, a);
    var flipped := Uncurrent(rows, a);
    var response := upload(ExportName(articleTitle, latest + 1), ExportBody(title, content));
    if response.UploadError? then Step(flipped, Err(UploadFailed))
    else
      var v := Version(a, title, content, latest + 1, user, true, summary,
                       Some(response.fileId), Some(response.link));
      Step(flipped + [v], Ok(v))
  }

  /** On success the new row is appended, numbered above every surviving
      version of the article (max + 1, or 1 for the first), carries the
      given texts, editor and summary and the upload's id and link, and is
      the article's only current version. */
  lemma CreateNewVersionSuccess(
    rows: seq<Version>, a: ArticleId, articleTitle: string, title: string, content: string,
    user: Option<UserId>, summary: string, upload: (string, string) -> Upload)
    requires CreateNewVersionRows(rows, a, articleTitle, title, content, user, summary, upload).result.Ok?
    ensures var s := CreateNewVersionRows(rows, a, articleTitle, title, content, user, summary, upload);
      var v := s.result.value;
      var response := upload(ExportName(articleTitle, v.number), ExportBody(title, content));
      && |s.rows| == |rows| + 1 && s.rows[|rows|] == v
      && v.number == NextNumber(rows, a)
      && (forall i :: 0 <= i < |rows| && rows[i].article == a ==> rows[i].number < v.number)
      && v.article == a && v.title == title && v.content == content
      && v.editedBy == user && v.summary == summary
      && response.Uploaded?
      && v.driveFileId == Some(response.fileId) && v.driveLink == Some(response.link)
      && v.isCurrent
      && (forall i :: 0 <= i < |s.rows| && s.rows[i].article == a && s.rows[i].isCurrent ==> i == |rows|)
      && (OneCurrentEach(rows) ==> OneCurrentEach(s.rows))
  {
  }

  /** Versions of other articles are untouched, and the article's own older
      versions change only in their current flag. */
  lemma CreateNewVersionFrame(
    rows: seq<Version>, a: ArticleId, articleTitle: string, title: string, content: string,
    user: Option<UserId>, summary: string, upload: (string, string) -> Upload)
    ensures var s := CreateNewVersionRows(rows, a, articleTitle, title, content, user, summary, upload);
      && |s.rows| >= |rows|
      && (forall i :: 0 <= i < |rows| && rows[i].article != a ==> s.rows[i] == rows[i])
      && (forall i :: 0 <= i < |rows| ==> s.rows[i] == rows[i].(isCurrent := s.rows[i].isCurrent))
  {
  }

  /** When the upload fails the flip has already happened: no row is added,
      and the article is left with no current version at all, even if it had
      one before. */
  lemma UploadFailureLeavesNoCurrent(
    rows: seq<Version>, a: ArticleId, articleTitle: string, title: string, content: string,
    user: Option<UserId>, summary: string, upload: (string, string) -> Upload)
    requires upload(ExportName(articleTitle, NextNumber(rows, a)), ExportBody(title, content)).UploadError?
    ensures var s := CreateNewVersionRows(rows, a, articleTitle, title, content, user, summary, upload);
      && s.result == Err(UploadFailed)
      && |s.rows| == |rows|
      && NoCurrent(s.rows, a)
      && (forall i :: 0 <= i < |rows| && rows[i].article == a && rows[i].isCurrent ==> s.rows[i] != rows[i])
  {
  }

  /** create_new_version with the upload moved before any write: a failed
      upload leaves the table exactly as it was, and a successful one has the
      same effect as the code as written. */
  function CreateNewVersionAtomic(
    rows: seq<Version>, a: ArticleId, articleTitle: string, title: string, content: string,
    user: Option<UserId>, summary: string, upload: (string, string) -> Upload): (s: Step)
    ensures s.result.Err? ==> s.rows == rows && s.result == Err(UploadFailed)
    ensures s.result.Ok? ==> s == CreateNewVersionRows(rows, a, articleTitle, title, content, user, summary, upload)
    ensures s.result.Err? <==>
      upload(ExportName(articleTitle, NextNumber(rows, a)), ExportBody(title, content)).UploadError?
  {
    var response := upload(ExportName(articleTitle, MaxNumber(rows, a) + 1), ExportBody(title, content));
    if response.UploadError? then Step(rows, Err(UploadFailed))
    else CreateNewVersionRows(rows, a, articleTitle, title, content, user, summary, upload)
  }

  /** create_new_version, step by step. `articleTitle` stands for the title
      the export file is named after. */
  method CreateNewVersion(
    store: ArticleStore, article: Article, articleTitle: string, title: string, content: string,
    user: Option<UserId>, summary: string, upload: (string, string) -> Upload, now: nat)
    returns (r: Result<Version>)
    modifies store`versions, article`updatedAt
    ensures var s := CreateNewVersionRows(old(store.versions), article.id, articleTitle, title, content, user, summary, upload);
      store.versions == s.rows && r == s.result
    ensures article.updatedAt == if r.Ok? then now else old(article.updatedAt)
  {
    var latest := MaxNumber(store.versions, article.id);
    store.versions := Uncurrent(store.versions, article.id);
    var fileName := ExportName(articleTitle, latest + 1);
    var body := ExportBody(title, content);
    var response := upload(fileName, body);
    if response.UploadError? {
      return Err(UploadFailed);
    }
    var v := Version(article.id, title, content, latest + 1, user, true, summary,
                     Some(response.fileId), Some(response.link));
    store.CreateVersion(v);
    article.updatedAt := now;
    article.Save(now);
    r := Ok(v);
  }

  /** update_article: the same steps with no change summary, so the stored
      summary is the column's empty default. */
  method UpdateArticle(
    store: ArticleStore, article: Article, articleTitle: string, title: string, content: string,
    user: Option<UserId>, upload: (string, string) -> Upload, now: nat)
    returns (r: Result<Version>)
    modifies store`versions, article`updatedAt
    ensures var s := CreateNewVersionRows(old(store.versions), article.id, articleTitle, title, content, user, "", upload);
      store.versions == s.rows && r == s.result
    ensures article.updatedAt == if r.Ok? then now else old(article.updatedAt)
  {
    var latest := MaxNumber(store.versions, article.id);
    store.versions := Uncurrent(store.versions, article.id);
    var fileName := ExportName(articleTitle, latest + 1);
    var body := ExportBody(title, content);
    var response := upload(fileName, body);
    if response.UploadError? {
      return Err(UploadFailed);
    }
    var v := Version(article.id, title, content, latest + 1, user, true, "",
                     Some(response.fileId), Some(response.link));
    store.CreateVersion(v);
    article.updatedAt := now;
    article.Save(now);
    r := Ok(v);
  }
}
