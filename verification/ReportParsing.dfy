/** The second half of `GetReportDataAsync`: turning the pipeline's result
    documents into `AuthorReportData` / `WorkInfo` records (`ParseWorkInfo`
    and the `foreach` loops that fill the lists and keep the running
    `totalWorks` / `totalPages` counters). */
module ReportParsing {
  import opened Wrappers
  import opened ReportPipeline

  const Untitled: string := "Untitled"

  datatype WorkInfo = WorkInfo(
    workTitle: string,
    publicationDate: Date,
    category: string,
    journal: string,
    pages: int32,
    digitalReference: string)

  datatype AuthorReportData = AuthorReportData(
    authorName: string,
    worksBeforeThesis: seq<WorkInfo>,
    worksAfterThesis: seq<WorkInfo>)

  /** `AsString`, `AsInt32` or `ToUniversalTime` applied to a BSON `null`
      throws; the key names the field that held it. */
  datatype ParseError = InvalidCast(key: string)

  predicate NoNullField(d: WorkDoc) {
    && !d.title.Null? && !d.publicationDate.Null? && !d.category.Null?
    && !d.journal.Null? && !d.pages.Null? && !d.digitalReference.Null?
  }

  /** `ParseWorkInfo`: every field copied, an absent key replaced by its
      default; a `null` in any field makes the cast throw, and the keys are
      read in the order below, so the first `null` names the error.  A page count of
      zero or less is only logged as a warning: it does not stop the work from
      being returned. */
  function ParseWorkInfo(d: WorkDoc): Result<WorkInfo, ParseError> {
    if d.title.Null? then Err(InvalidCast("Work Title"))
    else if d.category.Null? then Err(InvalidCast("Category"))
    else if d.journal.Null? then Err(InvalidCast("Journal"))
    else if d.pages.Null? then Err(InvalidCast("Pages"))
    else if d.publicationDate.Null? then Err(InvalidCast("Publication Date"))
    else if d.digitalReference.Null? then Err(InvalidCast("Digital Reference"))
    else Ok(WorkInfo(
      d.title.Or(Untitled),
      d.publicationDate.Or(DefaultPublishDate),
      d.category.Or(Uncategorized),
      d.journal.Or(NoJournal),
      d.pages.Or(0),
      d.digitalReference.Or(NoDigitalReference)))
  }

  /** What a successful `ParseWorkInfo` holds: each field of the document,
      or its default when the key is absent. */
  lemma ParseWorkInfoFields(d: WorkDoc)
    ensures ParseWorkInfo(d).Ok? <==> NoNullField(d)
    ensures NoNullField(d) ==>
      && (d.title.Val? ==> ParseWorkInfo(d).value.workTitle == d.title.value)
      && (d.title.Missing? ==> ParseWorkInfo(d).value.workTitle == Untitled)
      && (d.publicationDate.Val? ==> ParseWorkInfo(d).value.publicationDate == d.publicationDate.value)
      && (d.publicationDate.Missing? ==> ParseWorkInfo(d).value.publicationDate == DefaultPublishDate)
      && (d.category.Val? ==> ParseWorkInfo(d).value.category == d.category.value)
      && (d.category.Missing? ==> ParseWorkInfo(d).value.category == Uncategorized)
      && (d.journal.Val? ==> ParseWorkInfo(d).value.journal == d.journal.value)
      && (d.journal.Missing? ==> ParseWorkInfo(d).value.journal == NoJournal)
      && (d.pages.Val? ==> ParseWorkInfo(d).value.pages == d.pages.value)
      && (d.pages.Missing? ==> ParseWorkInfo(d).value.pages == 0)
      && (d.digitalReference.Val? ==> ParseWorkInfo(d).value.digitalReference == d.digitalReference.value)
      && (d.digitalReference.Missing? ==> ParseWorkInfo(d).value.digitalReference == NoDigitalReference)
  {
  }

  /** The warning `ParseWorkInfo` logs. */
  predicate InvalidPageCount(w: WorkInfo) {
    w.pages <= 0
  }

  // ---------------------------------------------------------------------
  // The specification of the parse loop
  // ---------------------------------------------------------------------

  /** The first `n` elements of one `works_*_thesis` array: every element
      that is a document, parsed, in order; other elements are skipped; the
      first failing document fails the whole. */
  function ParsePrefix(works: seq<Elem>, n: nat): Result<seq<WorkInfo>, ParseError>
    requires n <= |works|
  {
    if n == 0 then Ok([])
    else
      match ParsePrefix(works, n - 1)
      case Err(e) => Err(e)
      case Ok(ws) =>
        match works[n - 1]
        case NullElem => Ok(ws)
        case DocElem(d) =>
          match ParseWorkInfo(d)
          case Err(e) => Err(e)
          case Ok(w) => Ok(ws + [w])
  }

  function ParseWorks(works: seq<Elem>): Result<seq<WorkInfo>, ParseError> {
    ParsePrefix(works, |works|)
  }

  /** One result document; an absent list key gives an empty list. */
  function ParseAuthor(doc: AuthorDoc): Result<AuthorReportData, ParseError> {
    if doc.authorName.Null? then Err(InvalidCast("Author Name"))
    else
      var name := doc.authorName.Or("");
      match ParseOptionalWorks(doc.worksBeforeThesis)
      case Err(e) => Err(e)
      case Ok(before) =>
        match ParseOptionalWorks(doc.worksAfterThesis)
        case Err(e) => Err(e)
        case Ok(after) => Ok(AuthorReportData(name, before, after))
  }

  /** The first `n` result documents, in order; the first failure fails the
      report. */
  function ParseAuthors(docs: seq<AuthorDoc>, n: nat): Result<seq<AuthorReportData>, ParseError>
    requires n <= |docs|
  {
    if n == 0 then Ok([])
    else
      match ParseAuthors(docs, n - 1)
      case Err(e) => Err(e)
      case Ok(rs) =>
        match ParseAuthor(docs[n - 1])
        case Err(e) => Err(e)
        case Ok(r) => Ok(rs + [r])
  }

  function ParseAll(docs: seq<AuthorDoc>): Result<seq<AuthorReportData>, ParseError> {
    ParseAuthors(docs, |docs|)
  }

  /** Every work of the report, author by author, before-list first. */
  function AllWorks(rs: seq<AuthorReportData>): seq<WorkInfo> {
    if rs == [] then []
    else
      var r := rs[|rs| - 1];
      AllWorks(rs[..|rs| - 1]) + r.worksBeforeThesis + r.worksAfterThesis
  }

  function PagesSum(ws: seq<WorkInfo>): int {
    if ws == [] then 0 else PagesSum(ws[..|ws| - 1]) + ws[|ws| - 1].pages
  }

  lemma PagesSumSnoc(ws: seq<WorkInfo>, w: WorkInfo)
    ensures PagesSum(ws + [w]) == PagesSum(ws) + w.pages
  {
    assert (ws + [w])[..|ws|] == ws;
  }

  lemma {:induction false} PagesSumAppend(a: seq<WorkInfo>, b: seq<WorkInfo>)
    ensures PagesSum(a + b) == PagesSum(a) + PagesSum(b)
  {
    if b == [] {
      assert a + b == a;
    } else {
      var init := b[..|b| - 1];
      var w := b[|b| - 1];
      assert b == init + [w];
      assert a + b == (a + init) + [w];
      PagesSumSnoc(a + init, w);
      PagesSumSnoc(init, w);
      PagesSumAppend(a, init);
    }
  }

  lemma AllWorksSnoc(rs: seq<AuthorReportData>, r: AuthorReportData)
    ensures AllWorks(rs + [r]) == AllWorks(rs) + r.worksBeforeThesis + r.worksAfterThesis
  {
    assert (rs + [r])[..|rs|] == rs;
  }

  /** A failure in a prefix of an array is the failure of every longer
      prefix. */
  lemma {:induction false} ParsePrefixFailurePersists(works: seq<Elem>, k: nat, n: nat)
    requires k <= n <= |works| && ParsePrefix(works, k).Err?
    ensures ParsePrefix(works, n) == ParsePrefix(works, k)
    decreases n
  {
    if n > k {
      ParsePrefixFailurePersists(works, k, n - 1);
    }
  }

  lemma {:induction false} ParseAuthorsFailurePersists(docs: seq<AuthorDoc>, k: nat, n: nat)
    requires k <= n <= |docs| && ParseAuthors(docs, k).Err?
    ensures ParseAuthors(docs, n) == ParseAuthors(docs, k)
    decreases n
  {
    if n > k {
      ParseAuthorsFailurePersists(docs, k, n - 1);
    }
  }

  /** An array of work documents only (what `$filter` leaves) parses exactly
      when each document does, into one record per document, in order. */
  lemma {:induction false} ParseDocuments(elems: seq<Elem>, n: nat)
    requires n <= |elems|
    requires forall i :: 0 <= i < |elems| ==> elems[i].DocElem?
    ensures ParsePrefix(elems, n).Ok? <==> forall i :: 0 <= i < n ==> ParseWorkInfo(elems[i].doc).Ok?
    ensures ParsePrefix(elems, n).Ok? ==>
      && |ParsePrefix(elems, n).value| == n
      && forall i :: 0 <= i < n ==> ParsePrefix(elems, n).value[i] == ParseWorkInfo(elems[i].doc).value
    decreases n
  {
    if n > 0 {
      ParseDocuments(elems, n - 1);
      var prev := ParsePrefix(elems, n - 1);
      var last := ParseWorkInfo(elems[n - 1].doc);
      if prev.Ok? && last.Ok? {
        var ws := prev.value + [last.value];
        assert ParsePrefix(elems, n) == Ok(ws);
        forall i | 0 <= i < n ensures ws[i] == ParseWorkInfo(elems[i].doc).value {
        }
      }
    }
  }

  /** The report parses exactly when each result document does, into one
      record per document, in order. */
  lemma {:induction false} ParseEveryAuthor(docs: seq<AuthorDoc>, n: nat)
    requires n <= |docs|
    ensures ParseAuthors(docs, n).Ok? <==> forall i :: 0 <= i < n ==> ParseAuthor(docs[i]).Ok?
    ensures ParseAuthors(docs, n).Ok? ==>
      && |ParseAuthors(docs, n).value| == n
      && forall i :: 0 <= i < n ==> ParseAuthors(docs, n).value[i] == ParseAuthor(docs[i]).value
    decreases n
  {
    if n > 0 {
      ParseEveryAuthor(docs, n - 1);
      var prev := ParseAuthors(docs, n - 1);
      var last := ParseAuthor(docs[n - 1]);
      if prev.Ok? && last.Ok? {
        var rs := prev.value + [last.value];
        assert ParseAuthors(docs, n) == Ok(rs);
        forall i | 0 <= i < n ensures rs[i] == ParseAuthor(docs[i]).value {
        }
      }
    }
  }

  /** A page count of zero or less is reported (logged) but does not keep
      the work out of the result. */
  lemma NonPositivePagesKept(d: WorkDoc)
    requires NoNullField(d) && (d.pages.Missing? || (d.pages.Val? && d.pages.value <= 0))
    ensures ParseWorkInfo(d).Ok? && InvalidPageCount(ParseWorkInfo(d).value)
  {
  }

  /** `counter += amount` on a C# `int` whose value is the wrapped `exact`
      total: the result is the wrapped new total. */
  method Increment(counter: int32, amount: int32, ghost exact: int) returns (sum: int32)
    requires counter == Wrap32(exact)
    ensures sum == Wrap32(exact + amount)
  {
    Wrap32Add(exact, amount);
    sum := Wrap32(counter + amount);
  }

  /** The number of works and the pages of one author's two lists. */
  function WorkCount(r: AuthorReportData): nat {
    |r.worksBeforeThesis| + |r.worksAfterThesis|
  }

  function PageCount(r: AuthorReportData): int {
    PagesSum(r.worksBeforeThesis) + PagesSum(r.worksAfterThesis)
  }

  /** Appending an author adds its works and pages to the report's totals. */
  lemma AllWorksTotals(rs: seq<AuthorReportData>, r: AuthorReportData)
    ensures |AllWorks(rs + [r])| == |AllWorks(rs)| + WorkCount(r)
    ensures PagesSum(AllWorks(rs + [r])) == PagesSum(AllWorks(rs)) + PageCount(r)
  {
    AllWorksSnoc(rs, r);
    PagesSumAppend(AllWorks(rs), r.worksBeforeThesis);
    PagesSumAppend(AllWorks(rs) + r.worksBeforeThesis, r.worksAfterThesis);
  }

  /** The two counters hold the wrapped number of works and the wrapped
      page sum of the authors parsed so far. */
  predicate Totals(rs: seq<AuthorReportData>, totalWorks: int32, totalPages: int32) {
    totalWorks == Wrap32(|AllWorks(rs)|) && totalPages == Wrap32(PagesSum(AllWorks(rs)))
  }

  lemma TotalsStep(rs: seq<AuthorReportData>, r: AuthorReportData, totalWorks: int32, totalPages: int32)
    requires totalWorks == Wrap32(|AllWorks(rs)| + WorkCount(r))
    requires totalPages == Wrap32(PagesSum(AllWorks(rs)) + PageCount(r))
    ensures Totals(rs + [r], totalWorks, totalPages)
  {
    AllWorksTotals(rs, r);
  }

  // ---------------------------------------------------------------------
  // The parse loop
  // ---------------------------------------------------------------------

  /** What the parse loop produces: the records it returns and the two
      counters it logs. */
  datatype ParsedReport = ParsedReport(authors: seq<AuthorReportData>, totalWorks: int32, totalPages: int32)

  /** One inner `foreach` over a `works_*_thesis` array: parses and appends
      every document element and adds one work and its pages to the 32-bit
      counters per appended work.  The counters arrive holding the wrapped
      values of the exact totals `worksExact` and `pagesExact` and leave
      holding the wrapped values of those totals plus this array's works. */
  method AddWorks(works: seq<Elem>, totalWorks: int32, totalPages: int32, ghost worksExact: int, ghost pagesExact: int)
    returns (r: Result<seq<WorkInfo>, ParseError>, totalWorks': int32, totalPages': int32)
    requires totalWorks == Wrap32(worksExact) && totalPages == Wrap32(pagesExact)
    ensures r == ParseWorks(works)
    ensures r.Ok? ==> totalWorks' == Wrap32(worksExact + |r.value|)
    ensures r.Ok? ==> totalPages' == Wrap32(pagesExact + PagesSum(r.value))
  {
    var list: seq<WorkInfo> := [];
    totalWorks', totalPages' := totalWorks, totalPages;
    ghost var worksNow, pagesNow := worksExact, pagesExact;
    var j := 0;
    while j < |works|
      invariant 0 <= j <= |works|
      invariant ParsePrefix(works, j) == Ok(list)
      invariant worksNow == worksExact + |list| && totalWorks' == Wrap32(worksNow)
      invariant pagesNow == pagesExact + PagesSum(list) && totalPages' == Wrap32(pagesNow)
    {
      match works[j] {
        case NullElem =>
        case DocElem(d) =>
          var parsed := ParseWorkInfo(d);
          if parsed.Err? {
            ParsePrefixFailurePersists(works, j + 1, |works|);
            return Err(parsed.error), totalWorks', totalPages';
          }
          var work := parsed.value;
          PagesSumSnoc(list, work);
          totalWorks' := Increment(totalWorks', 1, worksNow);
          totalPages' := Increment(totalPages', work.pages, pagesNow);
          worksNow, pagesNow := worksNow + 1, pagesNow + work.pages;
          list := list + [work];
      }
      j := j + 1;
    }
    r := Ok(list);
  }

  /** The list a result document holds under one of its `works_*_thesis`
      keys, parsed; an absent key gives an empty list. */
  function ParseOptionalWorks(list: Option<seq<Elem>>): Result<seq<WorkInfo>, ParseError> {
    if list.Some? then ParseWorks(list.value) else Ok([])
  }

  /** `if (doc.Contains(key)) { foreach ... }`. */
  method AddOptionalWorks(list: Option<seq<Elem>>, totalWorks: int32, totalPages: int32, ghost worksExact: int, ghost pagesExact: int)
    returns (r: Result<seq<WorkInfo>, ParseError>, totalWorks': int32, totalPages': int32)
    requires totalWorks == Wrap32(worksExact) && totalPages == Wrap32(pagesExact)
    ensures r == ParseOptionalWorks(list)
    ensures r.Ok? ==> totalWorks' == Wrap32(worksExact + |r.value|)
    ensures r.Ok? ==> totalPages' == Wrap32(pagesExact + PagesSum(r.value))
  {
    if list.Some? {
      r, totalWorks', totalPages' := AddWorks(list.value, totalWorks, totalPages, worksExact, pagesExact);
    } else {
      r, totalWorks', totalPages' := Ok([]), totalWorks, totalPages;
      assert worksExact + |r.value| == worksExact && pagesExact + PagesSum(r.value) == pagesExact;
    }
  }

  /** The body of the outer `foreach` for one result document: reads the
      author name and runs the inner loop over each list that is present. */
  method ParseAuthorDoc(doc: AuthorDoc, totalWorks: int32, totalPages: int32, ghost worksExact: int, ghost pagesExact: int)
    returns (r: Result<AuthorReportData, ParseError>, totalWorks': int32, totalPages': int32)
    requires totalWorks == Wrap32(worksExact) && totalPages == Wrap32(pagesExact)
    ensures r == ParseAuthor(doc)
    ensures r.Ok? ==> totalWorks' == Wrap32(worksExact + WorkCount(r.value))
    ensures r.Ok? ==> totalPages' == Wrap32(pagesExact + PageCount(r.value))
  {
    totalWorks', totalPages' := totalWorks, totalPages;
    var name: string;
    match doc.authorName {
      case Null =>
        return Err(InvalidCast("Author Name")), totalWorks', totalPages';
      case Missing =>
        name := "";
      case Val(s) =>
        name := s;
    }
    var before, works1, pages1 := AddOptionalWorks(doc.worksBeforeThesis, totalWorks, totalPages, worksExact, pagesExact);
    if before.Err? {
      return Err(before.error), works1, pages1;
    }
    ghost var worksMid, pagesMid := worksExact + |before.value|, pagesExact + PagesSum(before.value);
    var after;
    after, totalWorks', totalPages' := AddOptionalWorks(doc.worksAfterThesis, works1, pages1, worksMid, pagesMid);
    if after.Err? {
      return Err(after.error), totalWorks', totalPages';
    }
    r := Ok(AuthorReportData(name, before.value, after.value));
    assert worksMid + |after.value| == worksExact + WorkCount(r.value);
    assert pagesMid + PagesSum(after.value) == pagesExact + PageCount(r.value);
  }

  /** The outer `foreach` over the result documents: one `AuthorReportData`
      appended per document, in order; `totalWorks` and `totalPages` are the
      wrapped count and page sum of every work appended to any list. */
  method ParseReportData(docs: seq<AuthorDoc>) returns (r: Result<ParsedReport, ParseError>)
    ensures r.Err? ==> ParseAll(docs) == Err(r.error)
    ensures r.Ok? ==> ParseAll(docs) == Ok(r.value.authors)
    ensures r.Ok? ==> Totals(r.value.authors, r.value.totalWorks, r.value.totalPages)
  {
    var results: seq<AuthorReportData> := [];
    var totalWorks: int32 := 0;
    var totalPages: int32 := 0;
    var i := 0;
    while i < |docs|
      invariant 0 <= i <= |docs|
      invariant ParseAuthors(docs, i) == Ok(results)
      invariant Totals(results, totalWorks, totalPages)
    {
      var parsed, works', pages' := ParseAuthorDoc(docs[i], totalWorks, totalPages, |AllWorks(results)|, PagesSum(AllWorks(results)));
      if parsed.Err? {
        ParseAuthorsFailurePersists(docs, i + 1, |docs|);
        return Err(parsed.error);
      }
      TotalsStep(results, parsed.value, works', pages');
      results := results + [parsed.value];
      totalWorks, totalPages := works', pages';
      i := i + 1;
    }
    r := Ok(ParsedReport(results, totalWorks, totalPages));
  }
}
