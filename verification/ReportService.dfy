/** `GetReportDataAsync` end to end: the aggregation pipeline over the four
    collections followed by the parse loop, and what the report it returns
    says about the collections. */
module ReportService {
  import opened Wrappers
  import opened ReportPipeline
  import opened PipelineProperties
  import opened ReportParsing

  /** The pages one stream document contributes once parsed. */
  function EntryPages(e: Entry): int {
    e.work.pages.Or(0)
  }

  function One(e: Entry): int {
    1
  }

  /** Every field but the title is present after the `$ifNull` stage. */
  predicate Filled(d: WorkDoc) {
    d.publicationDate.Val? && d.category.Val? && d.journal.Val? && d.pages.Val? && d.digitalReference.Val?
  }

  lemma EntriesFilled(v: Variant, works: seq<Work>, db: Db, e: Entry)
    requires e in Entries(v, works, db)
    ensures Filled(e.work)
  {
    EntriesArePairs(v, works, db, e);
  }

  lemma {:induction false} OfAuthorMembers(es: seq<Entry>, id: Id, e: Entry)
    ensures e in OfAuthor(es, id) <==> e in es && e.authorId == id
  {
    if es != [] {
      var init := es[..|es| - 1];
      assert es == init + [es[|es| - 1]];
      OfAuthorMembers(init, id, e);
    }
  }

  lemma {:induction false} SumByOne(es: seq<Entry>)
    ensures SumBy(es, One) == |es|
  {
    if es != [] {
      SumByOne(es[..|es| - 1]);
    }
  }

  /** Parsed works carry the page count of the documents they come from. */
  lemma {:induction false} PagesOfParsed(ws: seq<WorkInfo>, t: seq<Entry>)
    requires |ws| == |t|
    requires forall k :: 0 <= k < |t| ==> ws[k].pages == EntryPages(t[k])
    ensures PagesSum(ws) == SumBy(t, EntryPages)
  {
    if t != [] {
      PagesOfParsed(ws[..|ws| - 1], t[..|t| - 1]);
    }
  }

  /** One side of a group: the pushed and filtered array parses exactly when
      each of the author's entries on that side has a non-null title, into
      one record per entry, in stream order. */
  lemma ParseSide(es: seq<Entry>, id: Id, side: bool)
    requires forall e :: e in es ==> Filled(e.work)
    ensures var t := Tagged(es, id, side);
      var p := ParseWorks(DropNulls(PushCond(es, id, side)));
      && (p.Ok? <==> forall e :: e in t ==> !e.work.title.Null?)
      && (p.Ok? ==> |p.value| == |t| && forall k :: 0 <= k < |t| ==> ParseWorkInfo(t[k].work) == Ok(p.value[k]))
  {
    var t := Tagged(es, id, side);
    PushThenFilter(es, id, side);
    var pushed := Pushed(t);
    ParseDocuments(pushed, |pushed|);
    forall k | 0 <= k < |t| ensures ParseWorkInfo(pushed[k].doc).Ok? <==> !t[k].work.title.Null? {
      TaggedMembers(es, id, side, t[k]);
    }
  }

  /** One result document parses exactly when its author has a name and
      every entry of the author has a non-null title; its lists are then
      the author's entries of each side, parsed, in stream order. */
  lemma GroupParses(es: seq<Entry>, id: Id)
    requires forall e :: e in es ==> Filled(e.work)
    ensures var p := ParseAuthor(Group(es, id));
      p.Ok? <==> !FirstAuthorName(es, id).Null? && forall e :: e in OfAuthor(es, id) ==> !e.work.title.Null?
    ensures var p := ParseAuthor(Group(es, id));
      var t, u := Tagged(es, id, true), Tagged(es, id, false);
      p.Ok? ==>
        && p.value.authorName == FirstAuthorName(es, id).value
        && |p.value.worksBeforeThesis| == |t| && |p.value.worksAfterThesis| == |u|
        && (forall k :: 0 <= k < |t| ==> ParseWorkInfo(t[k].work) == Ok(p.value.worksBeforeThesis[k]))
        && (forall k :: 0 <= k < |u| ==> ParseWorkInfo(u[k].work) == Ok(p.value.worksAfterThesis[k]))
  {
    ParseSide(es, id, true);
    ParseSide(es, id, false);
    ExactlyOneList(es, id);
    var t, u, o := Tagged(es, id, true), Tagged(es, id, false), OfAuthor(es, id);
    forall e ensures e in o <==> e in t || e in u {
      assert e in multiset(o) <==> e in multiset(t) + multiset(u);
    }
  }

  /** The counts of one side of a parsed record, against the author's
      entries on that side. */
  lemma SideTotals(es: seq<Entry>, id: Id, side: bool, ws: seq<WorkInfo>)
    requires forall e :: e in es ==> Filled(e.work)
    requires ParseWorks(DropNulls(PushCond(es, id, side))) == Ok(ws)
    ensures |ws| == |Tagged(es, id, side)|
    ensures PagesSum(ws) == SumBy(Tagged(es, id, side), EntryPages)
  {
    ParseSide(es, id, side);
    var t := Tagged(es, id, side);
    forall k | 0 <= k < |t| ensures ws[k].pages == EntryPages(t[k]) {
      assert ParseWorkInfo(t[k].work) == Ok(ws[k]);
    }
    PagesOfParsed(ws, t);
  }

  /** A parsed group holds the parse of each of its two filtered arrays. */
  lemma GroupLists(es: seq<Entry>, id: Id)
    requires ParseAuthor(Group(es, id)).Ok?
    ensures ParseWorks(DropNulls(PushCond(es, id, true))) == Ok(ParseAuthor(Group(es, id)).value.worksBeforeThesis)
    ensures ParseWorks(DropNulls(PushCond(es, id, false))) == Ok(ParseAuthor(Group(es, id)).value.worksAfterThesis)
  {
  }

  /** The counts of one parsed record, against the author's entries. */
  lemma GroupTotals(es: seq<Entry>, id: Id)
    requires forall e :: e in es ==> Filled(e.work)
    requires ParseAuthor(Group(es, id)).Ok?
    ensures var r := ParseAuthor(Group(es, id)).value;
      && WorkCount(r) == SumBy(OfAuthor(es, id), One)
      && PageCount(r) == SumBy(OfAuthor(es, id), EntryPages)
  {
    var r := ParseAuthor(Group(es, id)).value;
    GroupLists(es, id);
    SideTotals(es, id, true, r.worksBeforeThesis);
    SideTotals(es, id, false, r.worksAfterThesis);
    ExactlyOneList(es, id);
    SumByOne(OfAuthor(es, id));
    ListsSplitWeight(es, id, EntryPages);
  }

  /** The parse loop succeeds exactly when every group's document parses. */
  lemma AllGroupsParse(es: seq<Entry>)
    ensures ParseAll(Aggregate(es)).Ok? <==> forall id :: id in AuthorIds(es) ==> ParseAuthor(Group(es, id)).Ok?
  {
    var ids := AuthorIds(es);
    var docs := Aggregate(es);
    ParseEveryAuthor(docs, |docs|);
    if ParseAll(docs).Ok? {
      forall id | id in ids ensures ParseAuthor(Group(es, id)).Ok? {
        var i :| 0 <= i < |ids| && ids[i] == id;
        assert docs[i] == Group(es, id);
      }
    } else {
      var i :| 0 <= i < |docs| && !ParseAuthor(docs[i]).Ok?;
      assert docs[i] == Group(es, ids[i]);
      assert ids[i] in ids;
    }
  }

  lemma GroupsParseOnlyIfNamedAndTitled(es: seq<Entry>)
    requires forall e :: e in es ==> Filled(e.work)
    requires forall id :: id in AuthorIds(es) ==> ParseAuthor(Group(es, id)).Ok?
    ensures forall e :: e in es ==> !e.work.title.Null?
    ensures forall id :: id in AuthorIds(es) ==> !FirstAuthorName(es, id).Null?
  {
    var ids := AuthorIds(es);
    forall e | e in es ensures !e.work.title.Null? {
      assert e.authorId in ids;
      GroupParses(es, e.authorId);
      OfAuthorMembers(es, e.authorId, e);
    }
    forall id | id in ids ensures !FirstAuthorName(es, id).Null? {
      GroupParses(es, id);
    }
  }

  lemma GroupsParseIfNamedAndTitled(es: seq<Entry>)
    requires forall e :: e in es ==> Filled(e.work)
    requires forall e :: e in es ==> !e.work.title.Null?
    requires forall id :: id in AuthorIds(es) ==> !FirstAuthorName(es, id).Null?
    ensures forall id :: id in AuthorIds(es) ==> ParseAuthor(Group(es, id)).Ok?
  {
    forall id | id in AuthorIds(es) ensures ParseAuthor(Group(es, id)).Ok? {
      GroupParses(es, id);
      forall e | e in OfAuthor(es, id) ensures !e.work.title.Null? {
        OfAuthorMembers(es, id, e);
      }
    }
  }

  /** The parse of the grouped documents of a stream whose entries all went
      through `$ifNull`: it succeeds exactly when every entry has a non-null
      title and every group has a name. */
  lemma StreamParses(es: seq<Entry>)
    requires forall e :: e in es ==> Filled(e.work)
    ensures ParseAll(Aggregate(es)).Ok? <==>
      && (forall e :: e in es ==> !e.work.title.Null?)
      && (forall id :: id in AuthorIds(es) ==> !FirstAuthorName(es, id).Null?)
  {
    AllGroupsParse(es);
    if ParseAll(Aggregate(es)).Ok? {
      GroupsParseOnlyIfNamedAndTitled(es);
    } else if (forall e :: e in es ==> !e.work.title.Null?) && (forall id :: id in AuthorIds(es) ==> !FirstAuthorName(es, id).Null?) {
      GroupsParseIfNamedAndTitled(es);
    }
  }

  lemma AllEntriesFilled(v: Variant, works: seq<Work>, db: Db)
    ensures forall e :: e in Entries(v, works, db) ==> Filled(e.work)
  {
    forall e | e in Entries(v, works, db) ensures Filled(e.work) {
      EntriesFilled(v, works, db, e);
    }
  }

  /** The report parses exactly when every (work, author) pair has a
      non-null title and every author in the report has a name. */
  lemma ReportParses(v: Variant, works: seq<Work>, db: Db)
    ensures var es := Entries(v, works, db);
      ParseAll(Pipeline(v, works, db)).Ok? <==>
        && (forall e :: e in es ==> !e.work.title.Null?)
        && (forall id :: id in AuthorIds(es) ==> !FirstAuthorName(es, id).Null?)
  {
    AllEntriesFilled(v, works, db);
    StreamParses(Entries(v, works, db));
  }

  lemma PrefixSnoc<T>(s: seq<T>, n: nat)
    requires 0 < n <= |s|
    ensures s[..n] == s[..n - 1] + [s[n - 1]]
  {
  }

  /** Summing the records of the first `n` groups, one group at a time. */
  lemma {:induction false} TotalsOverGroups(ids: seq<Id>, es: seq<Entry>, rs: seq<AuthorReportData>, n: nat)
    requires |rs| == |ids| && n <= |rs|
    requires forall i :: 0 <= i < |rs| ==>
      && WorkCount(rs[i]) == SumBy(OfAuthor(es, ids[i]), One)
      && PageCount(rs[i]) == SumBy(OfAuthor(es, ids[i]), EntryPages)
    ensures |AllWorks(rs[..n])| == SumGroups(ids[..n], es, One)
    ensures PagesSum(AllWorks(rs[..n])) == SumGroups(ids[..n], es, EntryPages)
  {
    if n == 0 {
      assert rs[..0] == [] && ids[..0] == [];
    } else {
      TotalsOverGroups(ids, es, rs, n - 1);
      PrefixSnoc(rs, n);
      PrefixSnoc(ids, n);
      AllWorksTotals(rs[..n - 1], rs[n - 1]);
      SumGroupsAddId(ids[..n - 1], ids[n - 1], es, One);
      SumGroupsAddId(ids[..n - 1], ids[n - 1], es, EntryPages);
    }
  }

  lemma TotalsOverAllGroups(ids: seq<Id>, es: seq<Entry>, rs: seq<AuthorReportData>)
    requires |rs| == |ids|
    requires forall i :: 0 <= i < |rs| ==>
      && WorkCount(rs[i]) == SumBy(OfAuthor(es, ids[i]), One)
      && PageCount(rs[i]) == SumBy(OfAuthor(es, ids[i]), EntryPages)
    ensures |AllWorks(rs)| == SumGroups(ids, es, One)
    ensures PagesSum(AllWorks(rs)) == SumGroups(ids, es, EntryPages)
  {
    TotalsOverGroups(ids, es, rs, |rs|);
    assert rs[..|rs|] == rs;
    assert ids[..|ids|] == ids;
  }

  /** The i-th parsed record holds as many works as the i-th group has
      entries, and their pages. */
  lemma RecordsMatchGroups(es: seq<Entry>)
    requires forall e :: e in es ==> Filled(e.work)
    requires ParseAll(Aggregate(es)).Ok?
    ensures var rs := ParseAll(Aggregate(es)).value;
      && |rs| == |AuthorIds(es)|
      && forall i :: 0 <= i < |rs| ==>
        && WorkCount(rs[i]) == SumBy(OfAuthor(es, AuthorIds(es)[i]), One)
        && PageCount(rs[i]) == SumBy(OfAuthor(es, AuthorIds(es)[i]), EntryPages)
  {
    var ids := AuthorIds(es);
    var docs := Aggregate(es);
    ParseEveryAuthor(docs, |docs|);
    var rs := ParseAll(docs).value;
    forall i | 0 <= i < |rs| ensures
      && WorkCount(rs[i]) == SumBy(OfAuthor(es, ids[i]), One)
      && PageCount(rs[i]) == SumBy(OfAuthor(es, ids[i]), EntryPages)
    {
      assert docs[i] == Group(es, ids[i]);
      GroupTotals(es, ids[i]);
    }
  }

  /** Every parsed record holds at least one work: each `$group` key is the
      author id of some entry, and that entry lands in one of the two lists. */
  lemma StreamRecordsNonEmpty(es: seq<Entry>)
    requires forall e :: e in es ==> Filled(e.work)
    requires ParseAll(Aggregate(es)).Ok?
    ensures var rs := ParseAll(Aggregate(es)).value;
      forall k :: 0 <= k < |rs| ==> |rs[k].worksBeforeThesis| + |rs[k].worksAfterThesis| >= 1
  {
    RecordsMatchGroups(es);
    var ids := AuthorIds(es);
    var rs := ParseAll(Aggregate(es)).value;
    forall k | 0 <= k < |rs| ensures |rs[k].worksBeforeThesis| + |rs[k].worksAfterThesis| >= 1 {
      var id := ids[k];
      assert id in ids;
      var e :| e in es && e.authorId == id;
      OfAuthorMembers(es, id, e);
      SumByOne(OfAuthor(es, id));
    }
  }

  /** End to end: no author appears in a parsed report without a work. */
  lemma ReportRecordsNonEmpty(v: Variant, works: seq<Work>, db: Db)
    requires ParseAll(Pipeline(v, works, db)).Ok?
    ensures var rs := ParseAll(Pipeline(v, works, db)).value;
      forall k :: 0 <= k < |rs| ==> |rs[k].worksBeforeThesis| + |rs[k].worksAfterThesis| >= 1
  {
    AllEntriesFilled(v, works, db);
    StreamRecordsNonEmpty(Entries(v, works, db));
  }

  /** The totals of the parsed groups of a stream whose entries all went
      through `$ifNull`: one work per entry, and the entries' pages. */
  lemma StreamTotals(es: seq<Entry>)
    requires forall e :: e in es ==> Filled(e.work)
    requires ParseAll(Aggregate(es)).Ok?
    ensures |AllWorks(ParseAll(Aggregate(es)).value)| == |es|
    ensures PagesSum(AllWorks(ParseAll(Aggregate(es)).value)) == SumBy(es, EntryPages)
  {
    RecordsMatchGroups(es);
    TotalsOverAllGroups(AuthorIds(es), es, ParseAll(Aggregate(es)).value);
    GroupsPartitionStream(es, One);
    GroupsPartitionStream(es, EntryPages);
    SumByOne(es);
  }

  /** A parsed report lists one work per (work, matched author) pair, so a
      work with several authors is counted once per author, and its pages
      are the pages of those pairs. */
  lemma ReportTotals(v: Variant, works: seq<Work>, db: Db)
    requires ParseAll(Pipeline(v, works, db)).Ok?
    ensures var es := Entries(v, works, db);
      var rs := ParseAll(Pipeline(v, works, db)).value;
      && |AllWorks(rs)| == |es|
      && PagesSum(AllWorks(rs)) == SumBy(es, EntryPages)
  {
    AllEntriesFilled(v, works, db);
    StreamTotals(Entries(v, works, db));
  }

  /** `GetReportDataAsync`: the pipeline's result documents, parsed.  The
      report fails exactly when a pair has a null title or an author has no
      name; otherwise it has one record per distinct author of the stream, in
      first-seen order, each holding that author's works (at least one) split
      by the defence date, and the logged totals are the wrapped number of
      (work, author) pairs and their wrapped page sum. */
  method GetReportData(v: Variant, works: seq<Work>, db: Db) returns (r: Result<ParsedReport, ParseError>)
    ensures var es := Entries(v, works, db);
      r.Ok? <==>
        && (forall e :: e in es ==> !e.work.title.Null?)
        && (forall id :: id in AuthorIds(es) ==> !FirstAuthorName(es, id).Null?)
    ensures var es := Entries(v, works, db);
      r.Ok? ==>
        && |r.value.authors| == |AuthorIds(es)|
        && (forall i :: 0 <= i < |r.value.authors| ==> ParseAuthor(Group(es, AuthorIds(es)[i])) == Ok(r.value.authors[i]))
    ensures var es := Entries(v, works, db);
      r.Ok? ==> r.value.totalWorks == Wrap32(|es|) && r.value.totalPages == Wrap32(SumBy(es, EntryPages))
    ensures r.Ok? ==> forall k :: 0 <= k < |r.value.authors| ==>
      |r.value.authors[k].worksBeforeThesis| + |r.value.authors[k].worksAfterThesis| >= 1
  {
    var docs := Pipeline(v, works, db);
    r := ParseReportData(docs);
    ReportParses(v, works, db);
    ParseEveryAuthor(docs, |docs|);
    if r.Ok? {
      ReportTotals(v, works, db);
      ReportRecordsNonEmpty(v, works, db);
    }
  }
}
