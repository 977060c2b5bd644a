# Publication report and works list, modelled in Dafny

This project models two parts of a departmental publication tracker written in
C# on ASP.NET MVC and MongoDB.

- **`ReportService.GetReportDataAsync`** builds the data for the authors report.
  - It runs a MongoDB aggregation pipeline over the `works` collection:
    - `$lookup` of the authors, then `$unwind`;
    - `$lookup` of the category and of the journal;
    - `$ifNull` defaults, then the `$lt` test against the author's
      thesis-defence date;
    - `$group` by author, `$push` under `$cond`, then `$filter` of the nulls
      and a final `$project`.
  - Then a loop parses the result documents into `AuthorReportData` /
    `WorkInfo` records and keeps 32-bit running totals of works and pages.
- **`WorksController`**:
  - `Index` builds the author dictionary, applies the search filter
    (trim, lower-case, substring match on titles and author names) and projects
    each work to a view with its author names.
  - `Create` (POST) checks that at least one author is selected.

The Dafny modules follow that structure:

| file | module | what it holds |
|---|---|---|
| `Wrappers.dfy` | `Wrappers` | `Option`, `Result`, BSON `Field` (missing / null / value), C# `int` wrap-around |
| `ReportPipeline.dfy` | `ReportPipeline` | the collections and every pipeline stage, as pure functions |
| `PipelineProperties.dfy` | `PipelineProperties` | what the pipeline guarantees: the join, the defaults, the classification, the partition into the two lists, one result per author |
| `ReportParsing.dfy` | `ReportParsing` | the output records; `ParseWorkInfo`; the parse loop as imperative methods with loop invariants, proved against a functional specification |
| `ReportService.dfy` | `ReportService` | `GetReportData`: the pipeline followed by the parse loop, with its end-to-end contract |
| `WorksController.dfy` | `WorksController` | `Index` (dictionary, search, projection) and the `Create` author check |

### Modelling decisions

- **Collections are sequences** in collection order. A `$lookup` returns its
  matches in the order of the foreign collection. `$group` emits groups in
  first-seen order, and `$push` keeps stream order. MongoDB does not promise
  either order. The model fixes one, and every property proved about grouping
  holds for that order.
- **Nulls and missing keys are distinct.** `Field<T>` separates a missing key,
  an explicit `null` and a value, because the C# code treats them differently:
  - `GetValue(key, default)` substitutes the default only for a missing key;
  - `.AsString` then throws on `null`, which is modelled as
    `Err(InvalidCast(key))`.
  - `$ifNull` treats both alike, and `$first` of a missing name yields
    `null`.
- **Two variants.** `Variant` chooses between the pipeline as written and a
  corrected one (see Findings). `Pipeline(AsWritten, …)` is the code as it
  stands.
- **Totals wrap.** The C# totals are `int`, so `totalWorks++` and
  `totalPages += work.Pages` wrap around at 2^32. The model wraps explicitly
  (`Wrap32`). Ghost exact totals prove that the running counters equal the
  wrapped exact sums.
- **Dates** are day numbers. `DefaultPublishDate` (738520) stands for
  2023-01-01.
- **Authors who have not defended.** `Author.ThesisDefenseDate` is a
  nullable `DateTime?` (Models/Author.cs:27), so a missing date means the
  author has not defended yet. The report's sections are headed "Works Before
  Thesis Defense" and "Works After Thesis Defense" (AuthorsReportDocument.cs:88
  and :96). All works of such an author therefore belong before the defence.
  The code's `$lt` files them after it instead. The model keeps the code's
  behaviour as `AsWritten`; this is row 3 of the Findings.

## Model

| member | source | states |
|---|---|---|
| `Wrappers.Wrap32Add` | Services/ReportService.cs:213-214 | adding to a wrapped 32-bit counter equals wrapping the exact sum, so running `int` totals are the wrapped true totals |
| `Wrappers.Wrap32InRange` | Services/ReportService.cs:187-188 | a value that fits in `int` is not changed by wrap-around |
| `Wrappers.Wrap32Congruent` | Services/ReportService.cs:213-214 | the wrapped value differs from the exact one by a multiple of 2^32 |
| `ReportPipeline.AuthorDetails` | Services/ReportService.cs:60-66 | `$lookup` of authors: an author is matched iff it is stored and its `_id` is in the work's `authors` array |
| `ReportPipeline.Matching` | Services/ReportService.cs:60-66 | the matched documents are exactly the stored ones whose id is among the looked-up ids |
| `ReportPipeline.ResolveName` | Services/ReportService.cs:68-96 | the category/journal display name is either the default or the name of a stored document whose id is the reference; when no referenced document has a name, it is the default |
| `ReportPipeline.FirstDisplayName` | Services/ReportService.cs:85-96 | `$arrayElemAt [..., 0]` with `$ifNull`: either the default or the name of a document with that id; the default when none has a name |
| `ReportPipeline.AuthorIds` | Services/ReportService.cs:119-121 | the `$group` keys: no id twice, and an id is a key iff some streamed entry has it |
| `ReportPipeline.FirstAuthorName` | Services/ReportService.cs:122 | `$first` of the author name is never a missing key (null at worst) |
| `PipelineProperties.EntriesAppend` | Services/ReportService.cs:60-67 | the per-document stages distribute over concatenation of the works collection |
| `PipelineProperties.NothingMatches` | Services/ReportService.cs:60-67 | when no stored author has a looked-up id, the lookup is empty |
| `PipelineProperties.UnresolvedWorkContributesNothing` | Services/ReportService.cs:60-67 | `$unwind` drops a work none of whose author ids is stored: the stream is as if the work were absent |
| `PipelineProperties.WorkEntriesArePairs` | Services/ReportService.cs:60-118 | the entries of one work are exactly the annotations of that work with each matched author |
| `PipelineProperties.EntriesArePairs` | Services/ReportService.cs:60-118 | an entry is in the stream iff it is the annotation of some (work, matched author) pair |
| `PipelineProperties.MatchingIdsDistinct` | Services/ReportService.cs:60-66 | with unique author `_id`s the matched authors have distinct ids, and their id set is the set of stored ids that were looked up |
| `PipelineProperties.DetailsIds` | Services/ReportService.cs:60-66 | the matched authors of a work carry distinct ids, exactly the resolved ids of the work |
| `PipelineProperties.OneEntryPerResolvedAuthor` | Services/ReportService.cs:60-67 | `$unwind` yields one entry per resolved author id of the work, no id twice |
| `PipelineProperties.Defaults` | Services/ReportService.cs:82-99 | every `$ifNull` default: the title is copied as it is; date, pages and digital reference take the stored value or 2023-01-01, 0, "N/A"; category and journal are "Uncategorized" / "No Journal" when no referenced document has a display name, and, when ids are unique, the referenced document's display name when it has one |
| `PipelineProperties.Classification` | Services/ReportService.cs:100-105 | with a defence date, a work is "before" iff its effective date is strictly earlier (equal dates go "after"; a missing publish date compares as 2023-01-01); with none it is "before" only in the corrected variant |
| `PipelineProperties.FirstDisplayNameOfUnique` | Services/ReportService.cs:85-96 | with unique ids, the resolved name is the name of the one document with that id |
| `PipelineProperties.AsWrittenAlwaysDefaults` | Services/ReportService.cs:85-97 | as written (reading `name` and `pages`, which the stored documents do not have), category, journal and pages are always the defaults |
| `PipelineProperties.AsWrittenLosesStoredValues` | Services/ReportService.cs:85-97 | a concrete work with a stored category title, journal title and `pages_num` shows "Uncategorized", "No Journal" and 0 |
| `PipelineProperties.CorrectedKeepsStoredValues` | Services/ReportService.cs:85-97 | reading `title` and `pages_num`, the stored category title, journal title and page count reach the report |
| `PipelineProperties.CorrectedShowsStoredValues` | Services/ReportService.cs:85-97 | the same concrete work shows its stored values in the corrected pipeline |
| `PipelineProperties.TaggedMembers` | Services/ReportService.cs:123-148 | an entry is in an author's side list iff it is streamed, belongs to the author and is classified on that side |
| `PipelineProperties.OfAuthorAbsent` | Services/ReportService.cs:119-121 | an author with no streamed entry has an empty group |
| `PipelineProperties.PushThenFilter` | Services/ReportService.cs:123-165 | `$push` of `$cond` followed by `$filter` of nulls is exactly the author's entries of that side, in stream order |
| `PipelineProperties.ExactlyOneList` | Services/ReportService.cs:123-148 | each entry of an author lands in exactly one of the two lists (as multisets, and in count) |
| `PipelineProperties.ListsSplitWeight` | Services/ReportService.cs:123-148 | any per-entry weight (e.g. pages) summed over the two lists equals its sum over the author's entries |
| `PipelineProperties.GroupNameIsFirst` | Services/ReportService.cs:122 | the group's `Author Name` is the name of the author's first entry in stream order (null if that name is missing) |
| `PipelineProperties.OneRecordPerAuthor` | Services/ReportService.cs:119-173 | the pipeline emits as many documents as there are distinct author ids in the stream |
| `PipelineProperties.AggregateRecord` | Services/ReportService.cs:119-173 | the pipeline emits one result document per distinct author id of the stream; document i belongs to the i-th id in first-seen order, which some entry carries; its `Author Name` is that of the author's first entry (null if missing); its before- and after-lists are exactly the work documents of the author's entries classified before and after the defence, in stream order |
| `PipelineProperties.SumGroupsAddEntry` | Services/ReportService.cs:119-148 | adding an entry adds its weight to the per-group total exactly when its author is a key |
| `PipelineProperties.SumGroupsAddId` | Services/ReportService.cs:119-148 | adding a key adds that author's group weight |
| `PipelineProperties.GroupsPartitionStream` | Services/ReportService.cs:119-148 | the groups partition the stream: any weight summed group by group equals its sum over the whole stream |
| `PipelineProperties.UndefendedAuthorGroup` | Services/ReportService.cs:100-165 | an author without a defence date gets an empty "before" list as written, and an empty "after" list in the corrected variant |
| `ReportParsing.ParseWorkInfoFields` | Services/ReportService.cs:252-279 | `ParseWorkInfo` succeeds iff no field is null; then each field is the stored value, or "Untitled", 2023-01-01, "Uncategorized", "No Journal", 0, "N/A" for an absent key |
| `ReportParsing.NonPositivePagesKept` | Services/ReportService.cs:265-270 | a page count of zero or less is only flagged: the work is still returned with that count |
| `ReportParsing.PagesSumAppend` | Services/ReportService.cs:213-232 | page sums add over concatenation |
| `ReportParsing.ParsePrefixFailurePersists` | Services/ReportService.cs:207-218 | once a work document fails to parse, the exception ends the loop: every longer prefix fails with the same error |
| `ReportParsing.ParseAuthorsFailurePersists` | Services/ReportService.cs:192-240 | once an author document fails, the whole report fails with that error |
| `ReportParsing.ParseDocuments` | Services/ReportService.cs:207-218 | over an array of documents, the parse succeeds iff every document parses, and then it is their parses in order |
| `ReportParsing.ParseEveryAuthor` | Services/ReportService.cs:192-240 | the report parses iff every author document parses, and then it is their parses in order |
| `ReportParsing.Increment` | Services/ReportService.cs:213-214 | a wrapped counter plus an amount is the wrapped exact total |
| `ReportParsing.AllWorksTotals` | Services/ReportService.cs:212-232 | appending an author adds its work count and page count to the report's totals |
| `ReportParsing.TotalsStep` | Services/ReportService.cs:213-232 | counters equal to the wrapped exact totals stay so after an author is appended |
| `ReportParsing.AddWorks` | Services/ReportService.cs:205-218 | the loop over one array returns exactly its functional parse, and on success advances both counters by its length and page sum, wrapped |
| `ReportParsing.AddOptionalWorks` | Services/ReportService.cs:203-237 | an absent list key leaves the list empty and the counters alone; otherwise as `AddWorks` |
| `ReportParsing.ParseAuthorDoc` | Services/ReportService.cs:194-239 | one author document: a null `Author Name` fails, a missing one gives ""; the result is `ParseAuthor` and the counters advance by its works and pages |
| `ReportParsing.ParseReportData` | Services/ReportService.cs:186-240 | the parse loop returns exactly the functional parse of all documents (or its error) and totals equal to the wrapped count and page sum of all returned works |
| `ReportService.EntriesFilled` | Services/ReportService.cs:82-99 | after the `$ifNull` stage every field but the title is present in every entry |
| `ReportService.OfAuthorMembers` | Services/ReportService.cs:119-121 | an entry is in an author's group iff it is streamed with that author's id |
| `ReportService.PagesOfParsed` | Services/ReportService.cs:213-232 | parsed works whose pages come entry by entry have the entries' page sum |
| `ReportService.ParseSide` | Services/ReportService.cs:150-237 | one side list parses iff none of the author's entries on that side has a null title; then it is their `ParseWorkInfo`, in stream order |
| `ReportService.GroupParses` | Services/ReportService.cs:119-239 | an author's document parses iff its first name is not null and none of its entries has a null title; then the name is that first name and the lists are the parsed before/after entries in order |
| `ReportService.SideTotals` | Services/ReportService.cs:207-236 | a parsed side list has as many works and pages as the author's entries on that side |
| `ReportService.GroupTotals` | Services/ReportService.cs:196-239 | a parsed author's work count and page count are those of its entries |
| `ReportService.AllGroupsParse` | Services/ReportService.cs:192-240 | the report parses iff every group's document parses |
| `ReportService.GroupsParseOnlyIfNamedAndTitled` | Services/ReportService.cs:192-240 | if every group parses, no entry has a null title and no group's first name is null |
| `ReportService.GroupsParseIfNamedAndTitled` | Services/ReportService.cs:192-240 | conversely, with no null title and no null first name, every group parses |
| `ReportService.StreamParses` | Services/ReportService.cs:119-240 | aggregating and parsing a filled stream succeeds iff no title and no first author name is null |
| `ReportService.AllEntriesFilled` | Services/ReportService.cs:82-99 | every entry of the stream has all non-title fields present |
| `ReportService.ReportParses` | Services/ReportService.cs:58-240 | the whole report parses iff no matched work has a null title and no author's first-seen name is null |
| `ReportService.TotalsOverGroups` | Services/ReportService.cs:192-240 | over the first n parsed authors, the report's works and pages are the per-group sums of their entries |
| `ReportService.TotalsOverAllGroups` | Services/ReportService.cs:192-240 | the same over all authors |
| `ReportService.RecordsMatchGroups` | Services/ReportService.cs:192-240 | the i-th parsed author has the work count and page count of the i-th group |
| `ReportService.StreamRecordsNonEmpty` | Services/ReportService.cs:119-239 | every parsed record holds at least one work, because each group key comes from an entry of that author and the entry lands in one of the two lists |
| `ReportService.ReportRecordsNonEmpty` | Services/ReportService.cs:58-240 | end to end, no author appears in a parsed report without a work |
| `ReportService.StreamTotals` | Services/ReportService.cs:119-240 | a parsed report holds exactly as many works as the stream has entries, and their pages sum to the stream's pages |
| `ReportService.ReportTotals` | Services/ReportService.cs:58-240 | a parsed report holds one work per (work, matched author) pair, and its pages are the sum over those pairs |
| `ReportService.GetReportData` | Services/ReportService.cs:50-250 | pipeline then parse loop: succeeds iff no null title and no null first author name; one record per author in group order, each the parse of its group; totals are the wrapped number of pairs and wrapped page sum; every record holds at least one work |
| `WorksController.LowerFolds` | Controllers/WorksController.cs:42-50 | lower-casing keeps the length, leaves no upper-case ASCII letter and is idempotent |
| `WorksController.LeadingSpaceSpec` | Controllers/WorksController.cs:42 | the leading white space `Trim` removes is all white space and stops at the first non-white character |
| `WorksController.TrailingSpaceSpec` | Controllers/WorksController.cs:42 | the same for the trailing white space |
| `WorksController.TrimIsSlice` | Controllers/WorksController.cs:42 | `Trim` returns one contiguous piece of the text |
| `WorksController.TrimDropsSpace` | Controllers/WorksController.cs:42 | everything `Trim` cuts off on either side is white space |
| `WorksController.TrimEnds` | Controllers/WorksController.cs:42 | a non-empty trimmed text neither starts nor ends with white space |
| `WorksController.TrimEmpty` | Controllers/WorksController.cs:42 | the trimmed text is empty iff the text is all white space |
| `WorksController.LowerSlice` | Controllers/WorksController.cs:42 | lower-casing commutes with taking a slice |
| `WorksController.WhiteSpaceUnderLower` | Controllers/WorksController.cs:42 | lower-casing a character does not change whether it is white space |
| `WorksController.LeadingUnderLower` | Controllers/WorksController.cs:42 | lower-casing does not change the leading white space |
| `WorksController.TrailingUnderLower` | Controllers/WorksController.cs:42 | lower-casing does not change the trailing white space |
| `WorksController.TrimLower` | Controllers/WorksController.cs:42 | trimming and lower-casing commute |
| `WorksController.QueryIgnoresCase` | Controllers/WorksController.cs:42 | search texts equal up to ASCII case give the same query |
| `WorksController.ContainsIff` | Controllers/WorksController.cs:45-50 | `Contains` holds iff the query occurs at some position of the text |
| `WorksController.ContainsEmpty` | Controllers/WorksController.cs:45-50 | every text contains the empty query |
| `WorksController.UniqueIdsSnoc` | Controllers/WorksController.cs:38 | appending an author keeps ids present and distinct iff its id is present and new |
| `WorksController.DictOfSnoc` | Controllers/WorksController.cs:38 | adding a new author's id to a dictionary of the earlier authors gives the dictionary of all of them |
| `WorksController.AuthorDictSpec` | Controllers/WorksController.cs:38 | `ToDictionary` succeeds iff every author id is non-null and no id repeats; then it maps each id to its author's name and has no other key |
| `WorksController.KeepIffMatches` | Controllers/WorksController.cs:44-51 | the `Where` predicate over the matching-id set agrees with the reference predicate over the author list |
| `WorksController.FilterMembers` | Controllers/WorksController.cs:49-52 | a work is kept iff it is in the list and satisfies the predicate |
| `WorksController.FilterAppend` | Controllers/WorksController.cs:49-52 | the filter distributes over concatenation, so it keeps the list's order |
| `WorksController.SearchSpec` | Controllers/WorksController.cs:40-53 | a null or empty search keeps every work; otherwise the search fails iff some author name is null, and else keeps exactly the works whose non-empty title, or some listed author's name, contains the trimmed lower-cased query |
| `WorksController.BlankSearchKeepsTitledOrAuthored` | Controllers/WorksController.cs:40-52 | an all-white-space search is not treated as empty: it keeps exactly the works with a non-empty title or with a stored author |
| `WorksController.KnownNamesAppend` | Controllers/WorksController.cs:61-64 | the name projection distributes over concatenation of the id list |
| `WorksController.KnownNamesAllKnown` | Controllers/WorksController.cs:61-64 | when every id is known, the names are the dictionary entries of the ids, one per id in order |
| `WorksController.KnownNamesNoneKnown` | Controllers/WorksController.cs:61-64 | when no id is known, the name list is empty |
| `WorksController.LookupAgreesWithDict` | Controllers/WorksController.cs:38-63 | the dictionary has an id iff a linear search over the authors finds it, with the same name |
| `WorksController.LookupFinds` | Controllers/WorksController.cs:62 | the linear search finds an id iff some author has it |
| `WorksController.LookupUnique` | Controllers/WorksController.cs:38-63 | with unique ids, the search returns the name of the one author with that id |
| `WorksController.KnownNamesByLookup` | Controllers/WorksController.cs:61-64 | the dictionary projection equals the reference projection by linear search |
| `WorksController.IndexSpec` | Controllers/WorksController.cs:34-68 | `Index` fails iff author ids are null or repeated, or a non-empty search meets a null author name; otherwise one view per kept work, in order, with the work's id, title, annotation, date, and the names of its stored authors in id-list order (empty for a null list) |
| `WorksController.AuthorSelectionRule` | Controllers/WorksController.cs:93-96 | the author error is added iff `AuthorIds` is null or empty, with key "AuthorIds" and message "Please select at least one author." |
| `WorksController.NoAuthorsNeverSaved` | Controllers/WorksController.cs:93-117 | a work without authors is never written: the form comes back and carries the author error |
| `WorksController.RedirectOnlyAfterWrite` | Controllers/WorksController.cs:90-145 | `Create` redirects to the list iff there were no binding errors, authors were selected and the write succeeded |

## Left out

- MongoDB I/O is not modelled. The collections are parameters, and running the
  aggregation is the function `Pipeline`.
- The result order of `$lookup` and `$group`, which MongoDB does not define,
  is fixed to collection order and first-seen order.
- PDF rendering is not modelled: `GenerateAuthorsReportAsync`,
  `AuthorsReportDocument.cs` and QuestPDF.
- The console logging, the stopwatch and the `categories`/`journals` hash sets
  are left out. The sets only feed a log line.
- `ToUniversalTime` on the publication date is left out: dates are day numbers
  with no time zone.
- Type mismatches inside stored documents are not modelled:
  - `.AsInt32` on a non-integer `Pages`;
  - `.AsBsonArray` on a `works_*_thesis` value that is present but `null`
    or not an array (Services/ReportService.cs:205 and :223);
  - `.AsString` on a non-string title.
  A `works_*_thesis` key is modelled as absent or holding an array, because
  the pipeline always produces an array there. For `.AsString` and `.AsInt32`,
  only the `null` case is modelled.
- The `Generate` action of `Controllers/ReportsController.cs` is not modelled.
  At line 33 it calls `GenerateAuthorsReportAsync(startDate, endDate)`, but only
  the parameterless overload exists (`Services/ReportService.cs:27`). No
  date-range filtering exists to model.
- `WorksController.LowerChar` folds the ASCII letters only. Culture-sensitive
  Unicode `ToLower` is not modelled.
- `WorksController.IsWhiteSpace` covers the ASCII white space, U+0085 and
  U+00A0. The other Unicode space separators are not modelled.
- `WorksController.Index` does not model a `null` inside a work's `AuthorIds`
  list. That case would throw in `ContainsKey`; the model's id lists hold
  strings.
- `WorksController.CreatePost` takes the model-binding errors (`Required` and
  similar attributes) as a parameter.
- `WorksController.CreatePost` takes the write's outcome as a parameter,
  `Written` or `WriteFailed(uncategorized)`. An exception other than
  `MongoWriteException` is not modelled.
- The `ViewBag` dropdown reloads and the logging in `Create` are left out,
  along with the GET `Create` action.
- The lazy `Select` in `Index`, which runs only when the view enumerates it,
  is modelled as an eager projection.
- Authentication and the other CRUD controllers and repositories are not part
  of this model.

## Findings

| source | as written | input that shows it | evidently intended | confidence | as-written member | corrected member |
|---|---|---|---|---|---|---|
| Services/ReportService.cs:87-93 | the category and journal names are read from the field `name` of the looked-up documents, but `Category` and `Journal` store their display name as `title` (Models/Category.cs:12, Models/Journal.cs:12) | a work whose category `c1` has title "Physics" and whose journal `j1` has title "Nature" | the report shows "Physics" and "Nature" | not executed | `PipelineProperties.AsWrittenLosesStoredValues`, `PipelineProperties.AsWrittenAlwaysDefaults` | `PipelineProperties.CorrectedShowsStoredValues`, `PipelineProperties.CorrectedKeepsStoredValues` |
| Services/ReportService.cs:97 | the page count is read from `pages`, but works store it as `pages_num` (Models/Work.cs:30), so every page count is 0 and every work is flagged as having an invalid page count | the same work with `pages_num` 12 | the report shows 12 pages | not executed | `PipelineProperties.AsWrittenLosesStoredValues`, `PipelineProperties.AsWrittenAlwaysDefaults` | `PipelineProperties.CorrectedShowsStoredValues`, `PipelineProperties.CorrectedKeepsStoredValues` |
| Services/ReportService.cs:102-104 | `$lt [publish_date, thesis_defense_date]` is false when the defence date is missing or null, which sort below every date, so all works of an author who has not defended are listed as after the defence | an author with no `thesis_defense_date` and any work | all such works are listed before the defence | not executed | `PipelineProperties.UndefendedAuthorGroup` (as-written half), `PipelineProperties.Classification` | `PipelineProperties.UndefendedAuthorGroup` (corrected half), `PipelineProperties.Classification` |
