/** The aggregation pipeline that `GetReportDataAsync` sends to the `works`
    collection, stage by stage, over in-memory copies of the `works`,
    `authors`, `categories` and `journals` collections:

      `$lookup` authors + `$unwind`   -> AuthorDetails, WorkEntries, Entries
      `$lookup` categories/journals   -> ResolveName
      `$addFields` with `$ifNull`     -> Annotate
      `$addFields` with `$lt`         -> IsBeforeThesis
      `$project`                      -> the Entry record
      `$group` with `$first`/`$push`  -> AuthorIds, FirstAuthorName, PushCond
      `$addFields` with `$filter`     -> DropNulls
      final `$project`                -> Group, Aggregate

    The pipeline is parameterised by a Variant: AsWritten reads the keys the
    source's stages name, Corrected reads the keys the application's models
    store (see the README's findings). */
module ReportPipeline {
  import opened Wrappers

  type Id = string

  /** A point in time, as a day number (days since 0001-01-01). */
  type Date = int

  /** `new DateTime(2023, 1, 1)`, substituted for a missing publish date. */
  const DefaultPublishDate: Date := 738520
  const Uncategorized: string := "Uncategorized"
  const NoJournal: string := "No Journal"
  const NoDigitalReference: string := "N/A"

  /** A document of the `authors` collection. */
  datatype Author = Author(id: Id, name: Field<string>, thesisDefenseDate: Option<Date>)

  /** A document of the `categories` or `journals` collection.  The
      application's models write the display text under `title`; `name` is a
      key they never write. */
  datatype Titled = Titled(id: Id, name: Option<string>, title: Option<string>)

  /** A document of the `works` collection.  `pages` is a key the `Work` model
      never writes (it writes `pages_num`). */
  datatype Work = Work(
    title: Field<string>,
    authors: Option<seq<Id>>,
    category: Option<Id>,
    journal: Option<Id>,
    publishDate: Option<Date>,
    pages: Option<int32>,
    pagesNum: Option<int32>,
    digitalReference: Option<string>)

  /** The collections the `$lookup` stages read. */
  datatype Db = Db(authors: seq<Author>, categories: seq<Titled>, journals: seq<Titled>)

  /** Which keys the `$addFields` stages read and how a missing defence date
      compares. */
  datatype Variant = AsWritten | Corrected

  /** The `$lookup` of `authors` on `authors` -> `_id`: the author documents
      whose id occurs in the work's `authors` array, in collection order.  An
      author listed twice in the array is matched once; a missing array
      matches nothing. */
  function AuthorDetails(w: Work, authors: seq<Author>): (r: seq<Author>)
    ensures forall a :: a in r <==> a in authors && w.authors.Some? && a.id in w.authors.value
  {
    match w.authors
    case None => []
    case Some(ids) => Matching(ids, authors)
  }

  function Matching(ids: seq<Id>, authors: seq<Author>): (r: seq<Author>)
    ensures forall a :: a in r <==> a in authors && a.id in ids
  {
    if authors == [] then []
    else
      var init := authors[..|authors| - 1];
      var a := authors[|authors| - 1];
      assert authors == init + [a];
      if a.id in ids then Matching(ids, init) + [a] else Matching(ids, init)
  }

  /** The key of a category or journal document that `$<x>_details.name`
      reads. */
  function DisplayName(v: Variant, d: Titled): Option<string> {
    match v
    case AsWritten => d.name
    case Corrected => d.title
  }

  /** `$lookup` on a single id followed by
      `$ifNull [$arrayElemAt [$<x>_details.<key>, 0], default]`: the display
      name of the first matching document that has one, else the default.  A
      missing reference matches no document. */
  function ResolveName(v: Variant, ref: Option<Id>, docs: seq<Titled>, default: string): (r: string)
    ensures r == default || exists d :: d in docs && ref == Some(d.id) && DisplayName(v, d) == Some(r)
    ensures (forall d :: d in docs && ref == Some(d.id) ==> DisplayName(v, d).None?) ==> r == default
  {
    match ref
    case None => default
    case Some(id) => FirstDisplayName(v, id, docs, default)
  }

  function FirstDisplayName(v: Variant, id: Id, docs: seq<Titled>, default: string): (r: string)
    ensures r == default || exists d :: d in docs && d.id == id && DisplayName(v, d) == Some(r)
    ensures (forall d :: d in docs && d.id == id ==> DisplayName(v, d).None?) ==> r == default
  {
    if docs == [] then default
    else if docs[0].id == id && DisplayName(v, docs[0]).Some? then DisplayName(v, docs[0]).value
    else FirstDisplayName(v, id, docs[1..], default)
  }

  /** The key `$ifNull [$pages, 0]` reads. */
  function StoredPages(v: Variant, w: Work): Option<int32> {
    match v
    case AsWritten => w.pages
    case Corrected => w.pagesNum
  }

  /** `$ifNull [$publish_date, 2023-01-01]`. */
  function EffectivePublishDate(w: Work): Date {
    w.publishDate.GetOr(DefaultPublishDate)
  }

  /** `$lt [$publish_date, $author_details.thesis_defense_date]`.  In BSON
      comparison order a null or missing value sorts below every date, so as
      written a missing defence date makes the comparison false; the corrected
      variant counts every work of an author who has not defended as before
      the defence. */
  function IsBeforeThesis(v: Variant, published: Date, defense: Option<Date>): bool {
    match defense
    case Some(d) => published < d
    case None => v == Corrected
  }

  /** The work fields that the `$project` stage renames and `$push` copies
      (keys `Work Title`, `Publication Date`, `Category`, `Journal`, `Pages`,
      `Digital Reference`). */
  datatype WorkDoc = WorkDoc(
    title: Field<string>,
    publicationDate: Field<Date>,
    category: Field<string>,
    journal: Field<string>,
    pages: Field<int32>,
    digitalReference: Field<string>)

  /** One document after `$unwind`, both `$addFields` stages and the first
      `$project`: one (work, author) pair. */
  datatype Entry = Entry(authorId: Id, authorName: Field<string>, isBeforeThesis: bool, work: WorkDoc)

  /** The per-document stages for one (work, matched author) pair.  The title
      is copied as it is (a missing one stays missing); every other field goes
      through `$ifNull` and is always present. */
  function Annotate(v: Variant, w: Work, a: Author, db: Db): Entry {
    var date := EffectivePublishDate(w);
    Entry(a.id, a.name, IsBeforeThesis(v, date, a.thesisDefenseDate),
      WorkDoc(
        w.title,
        Val(date),
        Val(ResolveName(v, w.category, db.categories, Uncategorized)),
        Val(ResolveName(v, w.journal, db.journals, NoJournal)),
        Val(StoredPages(v, w).GetOr(0)),
        Val(w.digitalReference.GetOr(NoDigitalReference))))
  }

  /** `$unwind` of `author_details` and the per-document stages: one entry per
      matched author, in match order. */
  function WorkEntries(v: Variant, w: Work, db: Db): seq<Entry> {
    var details := AuthorDetails(w, db.authors);
    seq(|details|, i requires 0 <= i < |details| => Annotate(v, w, details[i], db))
  }

  /** The stream of documents that reaches `$group`, work by work in
      collection order. */
  function Entries(v: Variant, works: seq<Work>, db: Db): seq<Entry> {
    if works == [] then []
    else Entries(v, works[..|works| - 1], db) + WorkEntries(v, works[|works| - 1], db)
  }

  /** An element of a `$push`ed array: a work document or the `null`
      placeholder that `$cond` yields. */
  datatype Elem = DocElem(doc: WorkDoc) | NullElem

  /** A result document of the pipeline: `Author Name`, `works_before_thesis`
      and `works_after_thesis` (`None` stands for an absent key). */
  datatype AuthorDoc = AuthorDoc(authorName: Field<string>, worksBeforeThesis: Option<seq<Elem>>, worksAfterThesis: Option<seq<Elem>>)

  ghost predicate Distinct<T>(s: seq<T>) {
    forall i, j :: 0 <= i < j < |s| ==> s[i] != s[j]
  }

  /** The `_id`s of the `$group` stage: every author id of the stream once, in
      first-seen order. */
  function AuthorIds(es: seq<Entry>): (ids: seq<Id>)
    ensures Distinct(ids)
    ensures forall x :: x in ids <==> exists e :: e in es && e.authorId == x
  {
    if es == [] then []
    else
      var init := es[..|es| - 1];
      var x := es[|es| - 1].authorId;
      assert es == init + [es[|es| - 1]];
      var prev := AuthorIds(init);
      if x in prev then prev else prev + [x]
  }

  /** `$first` of `author_name` within the group: the name of the group's
      first entry, where a missing name becomes `null`. */
  function FirstAuthorName(es: seq<Entry>, id: Id): (r: Field<string>)
    ensures !r.Missing?
  {
    if es == [] then Null
    else if es[0].authorId == id then (if es[0].authorName.Missing? then Null else es[0].authorName)
    else FirstAuthorName(es[1..], id)
  }

  /** `$push` of `$cond [<side test>, <work document>, null]` within the
      group of `id`: one element per entry of the author, in stream order; the
      work document where the entry's classification equals `side` (`true` for
      `works_before_thesis`, `false` for `works_after_thesis`, whose test is
      `$not`), else `null`. */
  function PushCond(es: seq<Entry>, id: Id, side: bool): seq<Elem> {
    if es == [] then []
    else
      var e := es[|es| - 1];
      PushCond(es[..|es| - 1], id, side)
        + (if e.authorId != id then [] else if e.isBeforeThesis == side then [DocElem(e.work)] else [NullElem])
  }

  /** `$filter` with `$ne: [$$item, null]`. */
  function DropNulls(s: seq<Elem>): seq<Elem> {
    if s == [] then []
    else DropNulls(s[..|s| - 1]) + (if s[|s| - 1].NullElem? then [] else [s[|s| - 1]])
  }

  /** The result document of the group of `id`. */
  function Group(es: seq<Entry>, id: Id): AuthorDoc {
    AuthorDoc(FirstAuthorName(es, id),
      Some(DropNulls(PushCond(es, id, true))),
      Some(DropNulls(PushCond(es, id, false))))
  }

  /** `$group`, the `$filter` stage and the final `$project`: one result
      document per author id, in first-seen order. */
  function Aggregate(es: seq<Entry>): (r: seq<AuthorDoc>)
    ensures |r| == |AuthorIds(es)|
    ensures forall i :: 0 <= i < |r| ==> r[i] == Group(es, AuthorIds(es)[i])
  {
    var ids := AuthorIds(es);
    seq(|ids|, i requires 0 <= i < |ids| => Group(es, ids[i]))
  }

  /** The whole pipeline over the four collections. */
  function Pipeline(v: Variant, works: seq<Work>, db: Db): seq<AuthorDoc> {
    Aggregate(Entries(v, works, db))
  }
}
