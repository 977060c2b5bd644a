/** What the aggregation pipeline of `GetReportDataAsync` guarantees: the join
    emits exactly the (work, matched author) pairs, the defaults and the
    classification, the partition of each author's entries over the two
    lists, the order `$push` keeps, and one result document per author. */
module PipelineProperties {
  import opened Wrappers
  import opened ReportPipeline

  // ---------------------------------------------------------------------
  // Join: `$lookup` + `$unwind`
  // ---------------------------------------------------------------------

  /** No two documents of a collection share an `_id`. */
  ghost predicate UniqueAuthorIds(authors: seq<Author>) {
    forall i, j :: 0 <= i < j < |authors| ==> authors[i].id != authors[j].id
  }

  ghost predicate UniqueTitledIds(docs: seq<Titled>) {
    forall i, j :: 0 <= i < j < |docs| ==> docs[i].id != docs[j].id
  }

  /** The ids of the work's `authors` array that name a stored author. */
  ghost function ResolvedIds(w: Work, authors: seq<Author>): set<Id> {
    set a | a in authors && w.authors.Some? && a.id in w.authors.value :: a.id
  }

  function EntryAuthorIds(es: seq<Entry>): seq<Id> {
    seq(|es|, i requires 0 <= i < |es| => es[i].authorId)
  }

  lemma EntriesSnoc(v: Variant, works: seq<Work>, w: Work, db: Db)
    ensures Entries(v, works + [w], db) == Entries(v, works, db) + WorkEntries(v, w, db)
  {
    assert (works + [w])[..|works|] == works;
  }

  lemma {:induction false} EntriesAppend(v: Variant, a: seq<Work>, b: seq<Work>, db: Db)
    ensures Entries(v, a + b, db) == Entries(v, a, db) + Entries(v, b, db)
  {
    if b == [] {
      assert a + b == a;
    } else {
      var init := b[..|b| - 1];
      var last := b[|b| - 1];
      assert b == init + [last];
      assert a + b == (a + init) + [last];
      EntriesSnoc(v, a + init, last, db);
      EntriesSnoc(v, init, last, db);
      EntriesAppend(v, a, init, db);
      var ea, ei, el := Entries(v, a, db), Entries(v, init, db), WorkEntries(v, last, db);
      assert (ea + ei) + el == ea + (ei + el);
    }
  }

  lemma {:induction false} NothingMatches(ids: seq<Id>, authors: seq<Author>)
    requires forall a :: a in authors ==> a.id !in ids
    ensures Matching(ids, authors) == []
  {
    if authors != [] {
      var init := authors[..|authors| - 1];
      assert authors == init + [authors[|authors| - 1]];
      NothingMatches(ids, init);
    }
  }

  /** A work whose `$lookup` matches no author (no `authors` array, or only
      ids that name no stored author) is dropped by `$unwind`: removing it
      from the collection leaves the stream unchanged. */
  lemma UnresolvedWorkContributesNothing(v: Variant, before: seq<Work>, w: Work, after: seq<Work>, db: Db)
    requires forall a :: a in db.authors ==> w.authors.None? || a.id !in w.authors.value
    ensures Entries(v, before + [w] + after, db) == Entries(v, before + after, db)
  {
    if w.authors.Some? {
      NothingMatches(w.authors.value, db.authors);
    }
    EntriesSnoc(v, before, w, db);
    EntriesAppend(v, before + [w], after, db);
    EntriesAppend(v, before, after, db);
  }

  /** One work's entries are exactly its annotated matches. */
  lemma WorkEntriesArePairs(v: Variant, w: Work, db: Db, e: Entry)
    ensures e in WorkEntries(v, w, db) <==> exists a :: a in AuthorDetails(w, db.authors) && e == Annotate(v, w, a, db)
  {
    var tail := WorkEntries(v, w, db);
    var details := AuthorDetails(w, db.authors);
    if e in tail {
      var i :| 0 <= i < |tail| && tail[i] == e;
      assert details[i] in details;
    }
    if a :| a in details && e == Annotate(v, w, a, db) {
      var i :| 0 <= i < |details| && details[i] == a;
      assert tail[i] == e;
    }
  }

  /** The stream reaching `$group` holds exactly the annotated (work, matched
      author) pairs. */
  lemma {:induction false} EntriesArePairs(v: Variant, works: seq<Work>, db: Db, e: Entry)
    ensures e in Entries(v, works, db)
        <==> exists w, a :: w in works && a in AuthorDetails(w, db.authors) && e == Annotate(v, w, a, db)
  {
    if works != [] {
      var init := works[..|works| - 1];
      var last := works[|works| - 1];
      assert works == init + [last];
      EntriesSnoc(v, init, last, db);
      EntriesArePairs(v, init, db, e);
      WorkEntriesArePairs(v, last, db, e);
      if exists w, a :: w in works && a in AuthorDetails(w, db.authors) && e == Annotate(v, w, a, db) {
        var w, a :| w in works && a in AuthorDetails(w, db.authors) && e == Annotate(v, w, a, db);
        if w != last {
          assert w in init;
        }
      }
    }
  }

  lemma {:induction false} MatchingIdsDistinct(ids: seq<Id>, authors: seq<Author>)
    requires UniqueAuthorIds(authors)
    ensures forall i, j :: 0 <= i < j < |Matching(ids, authors)| ==> Matching(ids, authors)[i].id != Matching(ids, authors)[j].id
    ensures (set a | a in Matching(ids, authors) :: a.id) == set a | a in authors && a.id in ids :: a.id
  {
    if authors != [] {
      var init := authors[..|authors| - 1];
      var a := authors[|authors| - 1];
      assert authors == init + [a];
      MatchingIdsDistinct(ids, init);
      forall b | b in init ensures b.id != a.id {
        var k :| 0 <= k < |init| && init[k] == b;
        assert authors[k] == b;
      }
    }
  }

  lemma {:induction false} DistinctCard<T>(s: seq<T>)
    requires Distinct(s)
    ensures |set x | x in s| == |s|
  {
    if s != [] {
      var init := s[..|s| - 1];
      var x := s[|s| - 1];
      assert s == init + [x];
      DistinctCard(init);
      assert (set y | y in s) == (set y | y in init) + {x};
      assert x !in init;
    }
  }

  lemma DetailsIds(w: Work, authors: seq<Author>)
    requires UniqueAuthorIds(authors)
    ensures var details := AuthorDetails(w, authors);
      && (forall i, j :: 0 <= i < j < |details| ==> details[i].id != details[j].id)
      && (set a | a in details :: a.id) == ResolvedIds(w, authors)
  {
    if w.authors.Some? {
      MatchingIdsDistinct(w.authors.value, authors);
    }
  }

  /** The author ids of a work's entries are the ids of its matched
      authors, in match order. */
  lemma IdsOfDetails(v: Variant, w: Work, db: Db)
    ensures var ids := EntryAuthorIds(WorkEntries(v, w, db));
      var details := AuthorDetails(w, db.authors);
      && |ids| == |details|
      && forall i :: 0 <= i < |ids| ==> ids[i] == details[i].id
  {
    var es := WorkEntries(v, w, db);
    var details := AuthorDetails(w, db.authors);
    forall i | 0 <= i < |es| ensures es[i].authorId == details[i].id {
      assert es[i] == Annotate(v, w, details[i], db);
    }
  }

  lemma SetOfIds(ids: seq<Id>, details: seq<Author>)
    requires |ids| == |details| && forall i :: 0 <= i < |ids| ==> ids[i] == details[i].id
    ensures (set x | x in ids) == (set a | a in details :: a.id)
  {
    forall x | x in ids ensures x in (set a | a in details :: a.id) {
      var i :| 0 <= i < |ids| && ids[i] == x;
      assert details[i] in details;
    }
    forall a | a in details ensures a.id in ids {
      var i :| 0 <= i < |details| && details[i] == a;
      assert ids[i] == a.id;
    }
  }

  lemma SetOfEntryIds(es: seq<Entry>)
    ensures (set e | e in es :: e.authorId) == (set x | x in EntryAuthorIds(es))
  {
    var ids := EntryAuthorIds(es);
    forall e | e in es ensures e.authorId in ids {
      var i :| 0 <= i < |es| && es[i] == e;
      assert ids[i] == e.authorId;
    }
    forall x | x in ids ensures x in (set e | e in es :: e.authorId) {
      var i :| 0 <= i < |ids| && ids[i] == x;
      assert es[i] in es;
    }
  }

  /** With unique author ids, a work yields exactly one entry per id of its
      `authors` array that names a stored author, however often the array
      repeats it. */
  lemma OneEntryPerResolvedAuthor(v: Variant, w: Work, db: Db)
    requires UniqueAuthorIds(db.authors)
    ensures var es := WorkEntries(v, w, db);
      && Distinct(EntryAuthorIds(es))
      && (set e | e in es :: e.authorId) == ResolvedIds(w, db.authors)
      && |es| == |ResolvedIds(w, db.authors)|
  {
    var es := WorkEntries(v, w, db);
    var details := AuthorDetails(w, db.authors);
    var ids := EntryAuthorIds(es);
    DetailsIds(w, db.authors);
    IdsOfDetails(v, w, db);
    SetOfIds(ids, details);
    SetOfEntryIds(es);
    DistinctCard(ids);
  }

  // ---------------------------------------------------------------------
  // Defaults (`$ifNull`) and classification (`$lt`)
  // ---------------------------------------------------------------------

  /** Every field but the title is present after `$addFields`, with the
      stored value when there is one and the documented default otherwise. */
  lemma Defaults(v: Variant, w: Work, a: Author, db: Db)
    ensures var d := Annotate(v, w, a, db).work;
      && d.title == w.title
      && (w.publishDate.None? ==> d.publicationDate == Val(DefaultPublishDate))
      && (w.publishDate.Some? ==> d.publicationDate == Val(w.publishDate.value))
      && ((forall c :: c in db.categories && w.category == Some(c.id) ==> DisplayName(v, c).None?) ==> d.category == Val(Uncategorized))
      && ((forall j :: j in db.journals && w.journal == Some(j.id) ==> DisplayName(v, j).None?) ==> d.journal == Val(NoJournal))
      && (StoredPages(v, w).None? ==> d.pages == Val(0))
      && (StoredPages(v, w).Some? ==> d.pages == Val(StoredPages(v, w).value))
      && (w.digitalReference.None? ==> d.digitalReference == Val(NoDigitalReference))
      && (w.digitalReference.Some? ==> d.digitalReference == Val(w.digitalReference.value))
      && (UniqueTitledIds(db.categories) ==>
            forall c :: c in db.categories && w.category == Some(c.id) && DisplayName(v, c).Some? ==>
              d.category == Val(DisplayName(v, c).value))
      && (UniqueTitledIds(db.journals) ==>
            forall j :: j in db.journals && w.journal == Some(j.id) && DisplayName(v, j).Some? ==>
              d.journal == Val(DisplayName(v, j).value))
  {
    if UniqueTitledIds(db.categories) {
      forall c | c in db.categories && w.category == Some(c.id) && DisplayName(v, c).Some?
        ensures ResolveName(v, w.category, db.categories, Uncategorized) == DisplayName(v, c).value
      {
        FirstDisplayNameOfUnique(v, c.id, db.categories, Uncategorized, c);
      }
    }
    if UniqueTitledIds(db.journals) {
      forall j | j in db.journals && w.journal == Some(j.id) && DisplayName(v, j).Some?
        ensures ResolveName(v, w.journal, db.journals, NoJournal) == DisplayName(v, j).value
      {
        FirstDisplayNameOfUnique(v, j.id, db.journals, NoJournal, j);
      }
    }
  }

  /** The classification is a strict comparison of the effective publish
      date with the defence date: a work published on the defence day counts
      as after it. */
  lemma Classification(v: Variant, w: Work, a: Author, db: Db)
    ensures var e := Annotate(v, w, a, db);
      && (a.thesisDefenseDate.Some? ==> (e.isBeforeThesis <==> EffectivePublishDate(w) < a.thesisDefenseDate.value))
      && (a.thesisDefenseDate == Some(EffectivePublishDate(w)) ==> !e.isBeforeThesis)
      && (w.publishDate.None? && a.thesisDefenseDate.Some? ==> (e.isBeforeThesis <==> DefaultPublishDate < a.thesisDefenseDate.value))
      && (a.thesisDefenseDate.None? ==> (e.isBeforeThesis <==> v == Corrected))
  {
  }

  lemma {:induction false} FirstDisplayNameOfUnique(v: Variant, id: Id, docs: seq<Titled>, default: string, c: Titled)
    requires UniqueTitledIds(docs) && c in docs && c.id == id && DisplayName(v, c).Some?
    ensures FirstDisplayName(v, id, docs, default) == DisplayName(v, c).value
  {
    var k :| 0 <= k < |docs| && docs[k] == c;
    if k != 0 {
      assert docs[0].id != docs[k].id;
      assert docs[1..][k - 1] == c;
      assert UniqueTitledIds(docs[1..]) by {
        forall i, j | 0 <= i < j < |docs[1..]| ensures docs[1..][i].id != docs[1..][j].id {
          assert docs[1..][i] == docs[i + 1] && docs[1..][j] == docs[j + 1];
        }
      }
      FirstDisplayNameOfUnique(v, id, docs[1..], default, c);
    }
  }

  // ---------------------------------------------------------------------
  // Findings: the keys the stages read, and a missing defence date
  // ---------------------------------------------------------------------

  /** As written, `$category_details.name`, `$journal_details.name` and
      `$pages` name keys the application's models never write, so every
      stored category, journal and page count is replaced by its default. */
  lemma AsWrittenAlwaysDefaults(w: Work, a: Author, db: Db)
    requires forall c :: c in db.categories ==> c.name.None?
    requires forall j :: j in db.journals ==> j.name.None?
    requires w.pages.None?
    ensures var d := Annotate(AsWritten, w, a, db).work;
      d.category == Val(Uncategorized) && d.journal == Val(NoJournal) && d.pages == Val(0)
  {
  }

  /** A concrete case: a work stored by the application with a category
      titled "Physics", a journal titled "Nature" and 12 pages. */
  function SampleWork(): Work {
    Work(Val("Paper"), Some(["a1"]), Some("c1"), Some("j1"), Some(700000), None, Some(12), Some("doi:1"))
  }

  function SampleDb(): Db {
    Db([Author("a1", Val("Ann"), None)], [Titled("c1", None, Some("Physics"))], [Titled("j1", None, Some("Nature"))])
  }

  lemma AsWrittenLosesStoredValues()
    ensures var d := Annotate(AsWritten, SampleWork(), Author("a1", Val("Ann"), None), SampleDb()).work;
      d.category == Val(Uncategorized) && d.journal == Val(NoJournal) && d.pages == Val(0)
  {
  }

  /** Reading the keys the models write, a resolved category or journal
      shows its title and the stored page count is kept. */
  lemma CorrectedKeepsStoredValues(w: Work, a: Author, db: Db, c: Titled, j: Titled)
    requires UniqueTitledIds(db.categories) && UniqueTitledIds(db.journals)
    requires c in db.categories && w.category == Some(c.id) && c.title.Some?
    requires j in db.journals && w.journal == Some(j.id) && j.title.Some?
    ensures var d := Annotate(Corrected, w, a, db).work;
      && d.category == Val(c.title.value)
      && d.journal == Val(j.title.value)
      && (w.pagesNum.Some? ==> d.pages == Val(w.pagesNum.value))
  {
    FirstDisplayNameOfUnique(Corrected, c.id, db.categories, Uncategorized, c);
    FirstDisplayNameOfUnique(Corrected, j.id, db.journals, NoJournal, j);
  }

  lemma CorrectedShowsStoredValues()
    ensures var d := Annotate(Corrected, SampleWork(), Author("a1", Val("Ann"), None), SampleDb()).work;
      d.category == Val("Physics") && d.journal == Val("Nature") && d.pages == Val(12)
  {
  }

  // ---------------------------------------------------------------------
  // Grouping: `$group`, `$push` with `$cond`, `$filter`
  // ---------------------------------------------------------------------

  /** The entries of one author, in stream order. */
  function OfAuthor(es: seq<Entry>, id: Id): seq<Entry> {
    if es == [] then []
    else
      var e := es[|es| - 1];
      OfAuthor(es[..|es| - 1], id) + (if e.authorId == id then [e] else [])
  }

  /** The entries of one author classified as `side`, in stream order. */
  function Tagged(es: seq<Entry>, id: Id, side: bool): seq<Entry> {
    if es == [] then []
    else
      var e := es[|es| - 1];
      Tagged(es[..|es| - 1], id, side) + (if e.authorId == id && e.isBeforeThesis == side then [e] else [])
  }

  /** The work documents of some entries, as pushed array elements. */
  function Pushed(es: seq<Entry>): (r: seq<Elem>)
    ensures |r| == |es|
    ensures forall i :: 0 <= i < |es| ==> r[i] == DocElem(es[i].work)
  {
    seq(|es|, i requires 0 <= i < |es| => DocElem(es[i].work))
  }

  function SumBy(es: seq<Entry>, f: Entry -> int): int {
    if es == [] then 0 else SumBy(es[..|es| - 1], f) + f(es[|es| - 1])
  }

  lemma Snoc(es: seq<Entry>, e: Entry, id: Id, side: bool, f: Entry -> int)
    ensures OfAuthor(es + [e], id) == OfAuthor(es, id) + (if e.authorId == id then [e] else [])
    ensures Tagged(es + [e], id, side) == Tagged(es, id, side) + (if e.authorId == id && e.isBeforeThesis == side then [e] else [])
    ensures SumBy(es + [e], f) == SumBy(es, f) + f(e)
    ensures PushCond(es + [e], id, side) == PushCond(es, id, side)
              + (if e.authorId != id then [] else if e.isBeforeThesis == side then [DocElem(e.work)] else [NullElem])
  {
    assert (es + [e])[..|es|] == es;
  }

  lemma SumByAppend(a: seq<Entry>, e: Entry, f: Entry -> int)
    ensures SumBy(a + [e], f) == SumBy(a, f) + f(e)
  {
    assert (a + [e])[..|a|] == a;
  }

  /** The entries an author filter keeps are exactly the author's. */
  lemma {:induction false} TaggedMembers(es: seq<Entry>, id: Id, side: bool, e: Entry)
    ensures e in Tagged(es, id, side) <==> e in es && e.authorId == id && e.isBeforeThesis == side
  {
    if es != [] {
      var init := es[..|es| - 1];
      assert es == init + [es[|es| - 1]];
      Snoc(init, es[|es| - 1], id, side, _ => 0);
      TaggedMembers(init, id, side, e);
    }
  }

  lemma {:induction false} OfAuthorAbsent(es: seq<Entry>, id: Id)
    requires forall e :: e in es ==> e.authorId != id
    ensures OfAuthor(es, id) == []
  {
    if es != [] {
      var init := es[..|es| - 1];
      assert es == init + [es[|es| - 1]];
      OfAuthorAbsent(init, id);
    }
  }

  /** Pushing a document or a `null` for every entry of the author and then
      filtering the `null`s out leaves exactly the work documents of the
      entries classified as `side`, in stream order. */
  lemma {:induction false} PushThenFilter(es: seq<Entry>, id: Id, side: bool)
    ensures DropNulls(PushCond(es, id, side)) == Pushed(Tagged(es, id, side))
  {
    if es != [] {
      var init := es[..|es| - 1];
      var e := es[|es| - 1];
      assert es == init + [e];
      Snoc(init, e, id, side, _ => 0);
      PushThenFilter(init, id, side);
      var p := PushCond(init, id, side);
      if e.authorId == id {
        var x := if e.isBeforeThesis == side then DocElem(e.work) else NullElem;
        assert (p + [x])[..|p + [x]| - 1] == p;
        assert DropNulls(p + [x]) == DropNulls(p) + (if x.NullElem? then [] else [x]);
      } else {
        assert p + [] == p;
        assert Tagged(init, id, side) + [] == Tagged(init, id, side);
      }
    }
  }

  /** Every entry of an author lands in exactly one of the two lists: as
      multisets, the two lists together are the author's entries. */
  lemma {:induction false} ExactlyOneList(es: seq<Entry>, id: Id)
    ensures multiset(Tagged(es, id, true)) + multiset(Tagged(es, id, false)) == multiset(OfAuthor(es, id))
    ensures |Tagged(es, id, true)| + |Tagged(es, id, false)| == |OfAuthor(es, id)|
  {
    if es != [] {
      var init := es[..|es| - 1];
      var e := es[|es| - 1];
      assert es == init + [e];
      Snoc(init, e, id, true, _ => 0);
      Snoc(init, e, id, false, _ => 0);
      ExactlyOneList(init, id);
    }
    assert |multiset(Tagged(es, id, true))| == |Tagged(es, id, true)|;
    assert |multiset(Tagged(es, id, false))| == |Tagged(es, id, false)|;
    assert |multiset(OfAuthor(es, id))| == |OfAuthor(es, id)|;
  }

  /** The two lists split any per-entry weight of the author's entries (the
      page count, or one per entry). */
  lemma {:induction false} ListsSplitWeight(es: seq<Entry>, id: Id, f: Entry -> int)
    ensures SumBy(Tagged(es, id, true), f) + SumBy(Tagged(es, id, false), f) == SumBy(OfAuthor(es, id), f)
  {
    if es != [] {
      var init := es[..|es| - 1];
      var e := es[|es| - 1];
      assert es == init + [e];
      Snoc(init, e, id, true, f);
      Snoc(init, e, id, false, f);
      ListsSplitWeight(init, id, f);
      var t, u, o := Tagged(init, id, true), Tagged(init, id, false), OfAuthor(init, id);
      if e.authorId == id {
        SumByAppend(o, e, f);
        if e.isBeforeThesis {
          SumByAppend(t, e, f);
          assert u + [] == u;
        } else {
          SumByAppend(u, e, f);
          assert t + [] == t;
        }
      } else {
        assert t + [] == t && u + [] == u && o + [] == o;
      }
    }
  }

  /** The name of a result document is that of the first entry of its
      author in the stream (`$first`), a missing name reading as `null`. */
  lemma {:induction false} GroupNameIsFirst(es: seq<Entry>, id: Id)
    requires id in AuthorIds(es)
    ensures exists k :: (0 <= k < |es| && es[k].authorId == id
      && (forall j :: 0 <= j < k ==> es[j].authorId != id)
      && Group(es, id).authorName == (if es[k].authorName.Missing? then Null else es[k].authorName))
  {
    if es[0].authorId != id {
      var e :| e in es && e.authorId == id;
      assert e in es[1..];
      GroupNameIsFirst(es[1..], id);
      var k :| 0 <= k < |es[1..]| && es[1..][k].authorId == id
        && (forall j :: 0 <= j < k ==> es[1..][j].authorId != id)
        && FirstAuthorName(es[1..], id) == (if es[1..][k].authorName.Missing? then Null else es[1..][k].authorName);
      assert es[k + 1] == es[1..][k];
      forall j | 0 <= j < k + 1 ensures es[j].authorId != id {
        if j > 0 { assert es[j] == es[1..][j - 1]; }
      }
    }
  }

  /** The grouping emits one result document per distinct author id of the
      stream. */
  lemma OneRecordPerAuthor(es: seq<Entry>)
    ensures |Aggregate(es)| == |set e | e in es :: e.authorId|
  {
    DistinctCard(AuthorIds(es));
    assert (set x | x in AuthorIds(es)) == (set e | e in es :: e.authorId);
  }

  /** Each result document in terms of the stream that reaches `$group`:
      there is one document per distinct author id; document i belongs to the
      i-th id in first-seen order, which some entry carries; its name is that
      of the author's first entry; and its two lists are the work documents of
      the author's entries classified before and after the defence, in stream
      order. */
  lemma AggregateRecord(es: seq<Entry>, i: nat)
    requires i < |Aggregate(es)|
    ensures |Aggregate(es)| == |set e | e in es :: e.authorId|
    ensures var id := AuthorIds(es)[i];
      var r := Aggregate(es)[i];
      && (exists e :: e in es && e.authorId == id)
      && (exists k :: 0 <= k < |es| && es[k].authorId == id
           && (forall j :: 0 <= j < k ==> es[j].authorId != id)
           && r.authorName == (if es[k].authorName.Missing? then Null else es[k].authorName))
      && r.worksBeforeThesis == Some(Pushed(Tagged(es, id, true)))
      && r.worksAfterThesis == Some(Pushed(Tagged(es, id, false)))
  {
    OneRecordPerAuthor(es);
    var id := AuthorIds(es)[i];
    assert id in AuthorIds(es);
    GroupNameIsFirst(es, id);
    PushThenFilter(es, id, true);
    PushThenFilter(es, id, false);
  }

  /** The sum, over a list of author ids, of a weight over each author's
      entries. */
  function SumGroups(ids: seq<Id>, es: seq<Entry>, f: Entry -> int): int {
    if ids == [] then 0 else SumBy(OfAuthor(es, ids[0]), f) + SumGroups(ids[1..], es, f)
  }

  lemma {:induction false} SumGroupsAddEntry(ids: seq<Id>, es: seq<Entry>, e: Entry, f: Entry -> int)
    requires Distinct(ids)
    ensures SumGroups(ids, es + [e], f) == SumGroups(ids, es, f) + (if e.authorId in ids then f(e) else 0)
  {
    if ids != [] {
      assert Distinct(ids[1..]) by {
        forall i, j | 0 <= i < j < |ids[1..]| ensures ids[1..][i] != ids[1..][j] {
          assert ids[1..][i] == ids[i + 1] && ids[1..][j] == ids[j + 1];
        }
      }
      SumGroupsAddEntry(ids[1..], es, e, f);
      Snoc(es, e, ids[0], true, f);
      var o := OfAuthor(es, ids[0]);
      assert ids == [ids[0]] + ids[1..];
      if e.authorId == ids[0] {
        SumByAppend(o, e, f);
        assert e.authorId !in ids[1..] by {
          forall k | 0 <= k < |ids[1..]| ensures ids[1..][k] != ids[0] {
            assert ids[1..][k] == ids[k + 1];
          }
        }
      } else {
        assert o + [] == o;
      }
    }
  }

  lemma {:induction false} SumGroupsAddId(ids: seq<Id>, x: Id, es: seq<Entry>, f: Entry -> int)
    ensures SumGroups(ids + [x], es, f) == SumGroups(ids, es, f) + SumBy(OfAuthor(es, x), f)
  {
    if ids == [] {
      assert ([] + [x])[1..] == [];
    } else {
      assert (ids + [x])[1..] == ids[1..] + [x];
      SumGroupsAddId(ids[1..], x, es, f);
    }
  }

  /** The groups partition the stream: summing any per-entry weight group by
      group gives the weight of the whole stream. */
  lemma {:induction false} GroupsPartitionStream(es: seq<Entry>, f: Entry -> int)
    ensures SumGroups(AuthorIds(es), es, f) == SumBy(es, f)
  {
    if es != [] {
      var init := es[..|es| - 1];
      var e := es[|es| - 1];
      assert es == init + [e];
      Snoc(init, e, e.authorId, true, f);
      GroupsPartitionStream(init, f);
      var prev := AuthorIds(init);
      SumGroupsAddEntry(prev, init, e, f);
      if e.authorId !in prev {
        assert AuthorIds(es) == prev + [e.authorId];
        SumGroupsAddId(prev, e.authorId, es, f);
        OfAuthorAbsent(init, e.authorId);
        assert OfAuthor(es, e.authorId) == [] + [e];
        SumByAppend([], e, f);
      } else {
        assert AuthorIds(es) == prev;
      }
    }
  }

  /** With unique author ids, an author with no defence date has, as
      written, all its works in `works_after_thesis`, and, corrected, all in
      `works_before_thesis`. */
  lemma UndefendedAuthorGroup(v: Variant, works: seq<Work>, db: Db, a: Author)
    requires UniqueAuthorIds(db.authors) && a in db.authors && a.thesisDefenseDate.None?
    ensures var es := Entries(v, works, db);
      v == AsWritten ==> Group(es, a.id).worksBeforeThesis == Some([])
    ensures var es := Entries(v, works, db);
      v == Corrected ==> Group(es, a.id).worksAfterThesis == Some([])
  {
    var es := Entries(v, works, db);
    var side := v == AsWritten;
    var t := Tagged(es, a.id, side);
    if t != [] {
      var e := t[0];
      TaggedMembers(es, a.id, side, e);
      EntriesArePairs(v, works, db, e);
      assert false;
    }
    PushThenFilter(es, a.id, side);
  }
}
