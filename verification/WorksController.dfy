/** The work list and the work-creation check of `WorksController`: the
    author dictionary, the search filter over titles and author names, the
    projection of each work to its view model, and the at-least-one-author
    rule of the `Create` form. */
module WorksController {
  import opened Wrappers

  /** An `Author` as the repository returns it; both keys may be null. */
  datatype Author = Author(id: Option<string>, name: Option<string>)

  /** The `Work` fields the list and the form use. */
  datatype Work = Work(id: Option<string>, title: Option<string>, annotation: Option<string>, publishDate: int, authorIds: Option<seq<string>>)

  /** `WorkViewModel`; a name is null when the author's `Name` is. */
  datatype WorkView = WorkView(id: Option<string>, title: Option<string>, annotation: Option<string>, publishDate: int, authorNames: seq<Option<string>>)

  /** The exceptions `Index` can raise: `ToDictionary` on a null or a repeated
      key, and `ToLower` on a null author name. */
  datatype IndexError = NullAuthorId | DuplicateAuthorId(id: string) | NullAuthorName

  // ---------------------------------------------------------------------
  // Strings

  /** The characters `Trim` removes that this model knows of: the ASCII
      white-space characters, NEXT LINE and NO-BREAK SPACE. */
  predicate IsWhiteSpace(c: char) {
    c == ' ' || ('\t' <= c <= '\r') || c == '\U{85}' || c == '\U{A0}'
  }

  /** `ToLower` on one character, for the ASCII letters. */
  function LowerChar(c: char): char {
    if 'A' <= c <= 'Z' then (c as int + 32) as char else c
  }

  function Lower(s: string): string {
    seq(|s|, i requires 0 <= i < |s| => LowerChar(s[i]))
  }

  /** Lower-casing leaves no upper-case ASCII letter, keeps the length, and a
      second pass changes nothing. */
  lemma LowerFolds(s: string)
    ensures |Lower(s)| == |s|
    ensures forall i :: 0 <= i < |s| ==> !('A' <= Lower(s)[i] <= 'Z')
    ensures Lower(Lower(s)) == Lower(s)
  {
  }

  /** The number of white-space characters `TrimStart` removes. */
  function LeadingSpace(s: string): (n: nat)
    ensures n <= |s|
  {
    if s == [] || !IsWhiteSpace(s[0]) then 0 else 1 + LeadingSpace(s[1..])
  }

  /** The number of white-space characters `TrimEnd` removes. */
  function TrailingSpace(s: string): (n: nat)
    ensures n <= |s|
  {
    if s == [] || !IsWhiteSpace(s[|s| - 1]) then 0 else 1 + TrailingSpace(s[..|s| - 1])
  }

  /** The leading white space is all the white space before the first other
      character. */
  lemma {:induction false} LeadingSpaceSpec(s: string)
    ensures forall k :: 0 <= k < LeadingSpace(s) ==> IsWhiteSpace(s[k])
    ensures LeadingSpace(s) == |s| || !IsWhiteSpace(s[LeadingSpace(s)])
  {
    if s != [] && IsWhiteSpace(s[0]) {
      var t := s[1..];
      LeadingSpaceSpec(t);
      forall k | 1 <= k < LeadingSpace(s) ensures IsWhiteSpace(s[k]) {
        assert s[k] == t[k - 1];
      }
      if LeadingSpace(s) < |s| {
        assert s[LeadingSpace(s)] == t[LeadingSpace(t)];
      }
    }
  }

  /** The trailing white space is all the white space after the last other
      character. */
  lemma {:induction false} TrailingSpaceSpec(s: string)
    ensures forall k :: |s| - TrailingSpace(s) <= k < |s| ==> IsWhiteSpace(s[k])
    ensures TrailingSpace(s) == |s| || !IsWhiteSpace(s[|s| - 1 - TrailingSpace(s)])
  {
    if s != [] && IsWhiteSpace(s[|s| - 1]) {
      var t := s[..|s| - 1];
      TrailingSpaceSpec(t);
      forall k | |s| - TrailingSpace(s) <= k < |s| - 1 ensures IsWhiteSpace(s[k]) {
        assert s[k] == t[k];
      }
      if TrailingSpace(s) < |s| {
        assert s[|s| - 1 - TrailingSpace(s)] == t[|t| - 1 - TrailingSpace(t)];
      }
    }
  }

  function TrimStart(s: string): string {
    s[LeadingSpace(s)..]
  }

  function TrimEnd(s: string): string {
    s[..|s| - TrailingSpace(s)]
  }

  /** `Trim`: white space removed from both ends. */
  function Trim(s: string): string {
    TrimEnd(TrimStart(s))
  }

  /** `Trim` keeps one contiguous piece of the text. */
  lemma TrimIsSlice(s: string)
    ensures LeadingSpace(s) + |Trim(s)| <= |s|
    ensures Trim(s) == s[LeadingSpace(s)..LeadingSpace(s) + |Trim(s)|]
  {
    var i := LeadingSpace(s);
    var t := s[i..];
    var r := t[..|t| - TrailingSpace(t)];
    assert Trim(s) == r;
    assert r == s[i..i + |r|];
  }

  /** `Trim` drops only white space. */
  lemma TrimDropsSpace(s: string)
    ensures LeadingSpace(s) + |Trim(s)| <= |s|
    ensures forall k :: 0 <= k < LeadingSpace(s) ==> IsWhiteSpace(s[k])
    ensures forall k :: LeadingSpace(s) + |Trim(s)| <= k < |s| ==> IsWhiteSpace(s[k])
  {
    var i := LeadingSpace(s);
    var t := s[i..];
    LeadingSpaceSpec(s);
    TrailingSpaceSpec(t);
    var n := |Trim(s)|;
    assert n == |t| - TrailingSpace(t);
    forall k | i + n <= k < |s| ensures IsWhiteSpace(s[k]) {
      assert s[k] == t[k - i];
    }
  }

  /** What `Trim` keeps neither starts nor ends with white space. */
  lemma TrimEnds(s: string)
    ensures Trim(s) == [] || (!IsWhiteSpace(Trim(s)[0]) && !IsWhiteSpace(Trim(s)[|Trim(s)| - 1]))
  {
    var i := LeadingSpace(s);
    var t := s[i..];
    var j := TrailingSpace(t);
    LeadingSpaceSpec(s);
    TrailingSpaceSpec(t);
    var n := |Trim(s)|;
    if n != 0 {
      assert Trim(s)[0] == s[i];
      assert Trim(s)[n - 1] == t[|t| - 1 - j];
    }
  }

  /** A text trims to nothing exactly when it is all white space. */
  lemma TrimEmpty(s: string)
    ensures Trim(s) == [] <==> forall k :: 0 <= k < |s| ==> IsWhiteSpace(s[k])
  {
    TrimDropsSpace(s);
    TrimEnds(s);
    TrimIsSlice(s);
    if Trim(s) != [] {
      assert Trim(s)[0] == s[LeadingSpace(s)];
    }
  }

  /** Lower-casing commutes with taking a slice. */
  lemma LowerSlice(s: string, i: nat, j: nat)
    requires i <= j <= |s|
    ensures Lower(s)[i..j] == Lower(s[i..j])
  {
  }

  lemma WhiteSpaceUnderLower(c: char)
    ensures IsWhiteSpace(LowerChar(c)) <==> IsWhiteSpace(c)
  {
  }

  /** Lower-casing changes no white space and makes none. */
  lemma {:induction false} LeadingUnderLower(s: string)
    ensures LeadingSpace(Lower(s)) == LeadingSpace(s)
  {
    if s != [] {
      WhiteSpaceUnderLower(s[0]);
      assert Lower(s) != [] && Lower(s)[0] == LowerChar(s[0]);
      LowerSlice(s, 1, |s|);
      assert Lower(s)[1..] == Lower(s[1..]);
      LeadingUnderLower(s[1..]);
    }
  }

  lemma {:induction false} TrailingUnderLower(s: string)
    ensures TrailingSpace(Lower(s)) == TrailingSpace(s)
  {
    if s != [] {
      WhiteSpaceUnderLower(s[|s| - 1]);
      assert Lower(s) != [] && Lower(s)[|s| - 1] == LowerChar(s[|s| - 1]);
      LowerSlice(s, 0, |s| - 1);
      assert Lower(s)[..|s| - 1] == Lower(s[..|s| - 1]);
      TrailingUnderLower(s[..|s| - 1]);
    }
  }

  lemma TrimLower(s: string)
    ensures Trim(Lower(s)) == Lower(Trim(s))
  {
    var i := LeadingSpace(s);
    var t := s[i..];
    var j := TrailingSpace(t);
    LeadingUnderLower(s);
    LowerSlice(s, i, |s|);
    assert TrimStart(Lower(s)) == Lower(t);
    TrailingUnderLower(t);
    LowerSlice(t, 0, |t| - j);
    assert TrimEnd(Lower(t)) == Lower(t[..|t| - j]);
  }

  /** The normalised search text: `searchText.Trim().ToLower()`. */
  function Query(searchText: string): string {
    Lower(Trim(searchText))
  }

  /** Two search texts that differ only in the case of their letters give
      the same query. */
  lemma QueryIgnoresCase(a: string, b: string)
    requires Lower(a) == Lower(b)
    ensures Query(a) == Query(b)
  {
    TrimLower(a);
    TrimLower(b);
  }

  /** `t` occurs in `s` at position `i`. */
  predicate OccursAt(s: string, t: string, i: nat) {
    i + |t| <= |s| && s[i..i + |t|] == t
  }

  /** Ordinal `string.Contains`. */
  function Contains(s: string, t: string): bool
    decreases |s|
  {
    if |t| > |s| then false
    else s[..|t|] == t || Contains(s[1..], t)
  }

  lemma {:induction false} ContainsIff(s: string, t: string)
    ensures Contains(s, t) <==> exists i: nat :: OccursAt(s, t, i)
    decreases |s|
  {
    if |t| <= |s| {
      if s[..|t|] == t {
        assert OccursAt(s, t, 0);
      } else {
        ContainsIff(s[1..], t);
        forall i: nat | OccursAt(s, t, i) ensures OccursAt(s[1..], t, i - 1) {
          assert i != 0;
          assert s[1..][i - 1..i - 1 + |t|] == s[i..i + |t|];
        }
        if Contains(s[1..], t) {
          var i: nat :| OccursAt(s[1..], t, i);
          assert s[1..][i..i + |t|] == s[i + 1..i + 1 + |t|];
          assert OccursAt(s, t, i + 1);
        }
      }
    }
  }

  /** Every text contains the empty text. */
  lemma ContainsEmpty(s: string)
    ensures Contains(s, "")
  {
    assert s[..0] == "";
  }

  // ---------------------------------------------------------------------
  // The author dictionary (`authors.ToDictionary(a => a.Id, a => a.Name)`)

  /** Adds the authors in order; the first null or repeated id throws. */
  function AuthorDict(authors: seq<Author>): Result<map<string, Option<string>>, IndexError> {
    if authors == [] then Ok(map[])
    else
      match AuthorDict(authors[..|authors| - 1])
      case Err(e) => Err(e)
      case Ok(m) =>
        var a := authors[|authors| - 1];
        if a.id.None? then Err(NullAuthorId)
        else if a.id.value in m then Err(DuplicateAuthorId(a.id.value))
        else Ok(m[a.id.value := a.name])
  }

  /** Every author has an id, and no two share one. */
  predicate UniqueIds(authors: seq<Author>) {
    && (forall i :: 0 <= i < |authors| ==> authors[i].id.Some?)
    && (forall i, j :: 0 <= i < j < |authors| ==> authors[i].id != authors[j].id)
  }

  /** `m` maps each author's id to that author's name and holds no other
      key. */
  ghost predicate DictOf(m: map<string, Option<string>>, authors: seq<Author>) {
    && (forall i :: 0 <= i < |authors| ==> authors[i].id.Some? && authors[i].id.value in m && m[authors[i].id.value] == authors[i].name)
    && (forall k :: k in m ==> exists i :: 0 <= i < |authors| && authors[i].id == Some(k))
  }

  lemma UniqueIdsSnoc(init: seq<Author>, a: Author)
    ensures UniqueIds(init + [a]) <==> UniqueIds(init) && a.id.Some? && forall i :: 0 <= i < |init| ==> init[i].id != a.id
  {
    var s := init + [a];
    assert s[|init|] == a;
    if UniqueIds(init) && a.id.Some? && forall i :: 0 <= i < |init| ==> init[i].id != a.id {
      forall i | 0 <= i < |s| ensures s[i].id.Some? {
        if i < |init| {
          assert s[i] == init[i];
        }
      }
      forall i, j | 0 <= i < j < |s| ensures s[i].id != s[j].id {
        assert s[i] == init[i];
      }
    }
    if UniqueIds(s) {
      forall i | 0 <= i < |init| ensures init[i].id.Some? {
        assert init[i] == s[i];
      }
      forall i, j | 0 <= i < j < |init| ensures init[i].id != init[j].id {
        assert init[i] == s[i] && init[j] == s[j];
      }
      forall i | 0 <= i < |init| ensures init[i].id != a.id {
        assert init[i] == s[i] && a == s[|init|];
      }
    }
  }

  lemma DictOfSnoc(m: map<string, Option<string>>, init: seq<Author>, a: Author)
    requires DictOf(m, init) && a.id.Some?
    ensures a.id.value in m <==> exists i :: 0 <= i < |init| && init[i].id == a.id
    ensures DictOf(m[a.id.value := a.name], init + [a]) <== a.id.value !in m
  {
    var s := init + [a];
    if a.id.value !in m {
      var m' := m[a.id.value := a.name];
      forall i | 0 <= i < |s| ensures s[i].id.Some? && s[i].id.value in m' && m'[s[i].id.value] == s[i].name {
        if i < |init| {
          assert s[i] == init[i];
        }
      }
      forall k | k in m' ensures exists i :: 0 <= i < |s| && s[i].id == Some(k) {
        if k == a.id.value {
          assert s[|init|].id == Some(k);
        } else {
          var i :| 0 <= i < |init| && init[i].id == Some(k);
          assert s[i] == init[i];
        }
      }
    }
  }

  /** The dictionary is built exactly when the ids are present and distinct;
      it then maps each author's id to that author's name and holds no other
      key. */
  lemma {:induction false} AuthorDictSpec(authors: seq<Author>)
    ensures AuthorDict(authors).Ok? <==> UniqueIds(authors)
    ensures AuthorDict(authors).Ok? ==> DictOf(AuthorDict(authors).value, authors)
  {
    if authors != [] {
      var init := authors[..|authors| - 1];
      var a := authors[|authors| - 1];
      assert authors == init + [a];
      AuthorDictSpec(init);
      UniqueIdsSnoc(init, a);
      if AuthorDict(init).Ok? && a.id.Some? {
        DictOfSnoc(AuthorDict(init).value, init, a);
      }
    }
  }

  // ---------------------------------------------------------------------
  // The search filter

  /** `matchingAuthorIds`: the ids of the authors whose lower-cased name
      contains the query; `ToLower` on a null name throws. */
  function MatchingAuthorIds(authors: seq<Author>, q: string): Result<set<Option<string>>, IndexError> {
    if exists a :: a in authors && a.name.None? then Err(NullAuthorName)
    else Ok(set a | a in authors && Contains(Lower(a.name.value), q) :: a.id)
  }

  /** The `Where` predicate over one work. */
  predicate Keep(w: Work, ids: set<Option<string>>, q: string) {
    || (w.title.Some? && w.title.value != "" && Contains(Lower(w.title.value), q))
    || (w.authorIds.Some? && exists id :: id in w.authorIds.value && Some(id) in ids)
  }

  function Filter(works: seq<Work>, ids: set<Option<string>>, q: string): seq<Work> {
    if works == [] then []
    else
      var w := works[|works| - 1];
      Filter(works[..|works| - 1], ids, q) + (if Keep(w, ids, q) then [w] else [])
  }

  /** Lines 40-53: the works the list shows, before projection. */
  function SearchWorks(works: seq<Work>, authors: seq<Author>, searchText: Option<string>): Result<seq<Work>, IndexError> {
    if searchText.None? || searchText.value == "" then Ok(works)
    else
      var q := Query(searchText.value);
      match MatchingAuthorIds(authors, q)
      case Err(e) => Err(e)
      case Ok(ids) => Ok(Filter(works, ids, q))
  }

  /** A work matches the query when its non-empty title contains it, or when
      one of the authors it lists by id has a name that contains it. */
  predicate Matches(w: Work, authors: seq<Author>, q: string)
    requires forall a :: a in authors ==> a.name.Some?
  {
    || (w.title.Some? && w.title.value != "" && Contains(Lower(w.title.value), q))
    || (w.authorIds.Some? && exists a :: a in authors && a.id.Some? && a.id.value in w.authorIds.value && Contains(Lower(a.name.value), q))
  }

  /** The hash-set test is the same as looking the work's authors up in the
      author list. */
  lemma KeepIffMatches(w: Work, authors: seq<Author>, q: string)
    requires forall a :: a in authors ==> a.name.Some?
    ensures Keep(w, MatchingAuthorIds(authors, q).value, q) <==> Matches(w, authors, q)
  {
    var ids := MatchingAuthorIds(authors, q).value;
    if w.authorIds.Some? {
      if exists id :: id in w.authorIds.value && Some(id) in ids {
        var id :| id in w.authorIds.value && Some(id) in ids;
        var a :| a in authors && Contains(Lower(a.name.value), q) && a.id == Some(id);
        assert a.id.value in w.authorIds.value;
      }
      if exists a :: a in authors && a.id.Some? && a.id.value in w.authorIds.value && Contains(Lower(a.name.value), q) {
        var a :| a in authors && a.id.Some? && a.id.value in w.authorIds.value && Contains(Lower(a.name.value), q);
        assert a.id in ids;
      }
    }
  }

  lemma {:induction false} FilterMembers(works: seq<Work>, ids: set<Option<string>>, q: string, w: Work)
    ensures w in Filter(works, ids, q) <==> w in works && Keep(w, ids, q)
  {
    if works != [] {
      var init := works[..|works| - 1];
      assert works == init + [works[|works| - 1]];
      FilterMembers(init, ids, q, w);
    }
  }

  /** The filter works element by element: kept works keep their relative
      order. */
  lemma {:induction false} FilterAppend(a: seq<Work>, b: seq<Work>, ids: set<Option<string>>, q: string)
    ensures Filter(a + b, ids, q) == Filter(a, ids, q) + Filter(b, ids, q)
    decreases |b|
  {
    if b == [] {
      assert a + b == a;
    } else {
      var init := b[..|b| - 1];
      assert a + b == (a + init) + [b[|b| - 1]];
      FilterAppend(a, init, ids, q);
    }
  }

  lemma FilterOne(w: Work, ids: set<Option<string>>, q: string)
    ensures Filter([w], ids, q) == if Keep(w, ids, q) then [w] else []
  {
    assert [w][..0] == [];
  }

  /** Without a search text the list is not filtered; with one, the list
      holds exactly the works that match the normalised query, and fails
      exactly when an author's name is null. */
  lemma SearchSpec(works: seq<Work>, authors: seq<Author>, searchText: Option<string>)
    ensures searchText.None? || searchText == Some("") ==> SearchWorks(works, authors, searchText) == Ok(works)
    ensures searchText.Some? && searchText.value != "" ==>
      (SearchWorks(works, authors, searchText).Err? <==> exists a :: a in authors && a.name.None?)
    ensures searchText.Some? && searchText.value != "" && SearchWorks(works, authors, searchText).Ok? ==>
      var q := Query(searchText.value);
      forall w :: w in SearchWorks(works, authors, searchText).value <==> w in works && Matches(w, authors, q)
  {
    if searchText.Some? && searchText.value != "" && SearchWorks(works, authors, searchText).Ok? {
      var q := Query(searchText.value);
      var ids := MatchingAuthorIds(authors, q).value;
      forall w ensures w in Filter(works, ids, q) <==> w in works && Matches(w, authors, q) {
        FilterMembers(works, ids, q, w);
        KeepIffMatches(w, authors, q);
      }
    }
  }

  /** A search text of white space only (not empty, so the filter runs)
      matches everything: it keeps the works with a non-empty title and the
      works that list a known author. */
  lemma BlankSearchKeepsTitledOrAuthored(works: seq<Work>, authors: seq<Author>, text: string, w: Work)
    requires text != [] && forall k :: 0 <= k < |text| ==> IsWhiteSpace(text[k])
    requires forall a :: a in authors ==> a.name.Some?
    ensures SearchWorks(works, authors, Some(text)).Ok?
    ensures w in SearchWorks(works, authors, Some(text)).value <==>
      && w in works
      && (|| (w.title.Some? && w.title.value != "")
          || (w.authorIds.Some? && exists a :: a in authors && a.id.Some? && a.id.value in w.authorIds.value))
  {
    TrimEmpty(text);
    assert Query(text) == "";
    SearchSpec(works, authors, Some(text));
    if w.title.Some? {
      ContainsEmpty(Lower(w.title.value));
    }
    if w.authorIds.Some? && exists a :: a in authors && a.id.Some? && a.id.value in w.authorIds.value {
      var a :| a in authors && a.id.Some? && a.id.value in w.authorIds.value;
      ContainsEmpty(Lower(a.name.value));
    }
  }

  // ---------------------------------------------------------------------
  // The view model

  /** The names of the ids the dictionary knows, in id order. */
  function KnownNames(ids: seq<string>, dict: map<string, Option<string>>): seq<Option<string>> {
    if ids == [] then []
    else
      var id := ids[|ids| - 1];
      KnownNames(ids[..|ids| - 1], dict) + (if id in dict then [dict[id]] else [])
  }

  /** `AuthorNames`: a null id list gives an empty list. */
  function AuthorNames(ids: Option<seq<string>>, dict: map<string, Option<string>>): seq<Option<string>> {
    match ids
    case None => []
    case Some(s) => KnownNames(s, dict)
  }

  function View(w: Work, dict: map<string, Option<string>>): WorkView {
    WorkView(w.id, w.title, w.annotation, w.publishDate, AuthorNames(w.authorIds, dict))
  }

  function Project(works: seq<Work>, dict: map<string, Option<string>>): seq<WorkView> {
    seq(|works|, i requires 0 <= i < |works| => View(works[i], dict))
  }

  lemma {:induction false} KnownNamesAppend(a: seq<string>, b: seq<string>, dict: map<string, Option<string>>)
    ensures KnownNames(a + b, dict) == KnownNames(a, dict) + KnownNames(b, dict)
    decreases |b|
  {
    if b == [] {
      assert a + b == a;
    } else {
      var init := b[..|b| - 1];
      assert a + b == (a + init) + [b[|b| - 1]];
      KnownNamesAppend(a, init, dict);
    }
  }

  /** When every id is known the names line up with the ids one to one. */
  lemma {:induction false} KnownNamesAllKnown(ids: seq<string>, dict: map<string, Option<string>>)
    requires forall id :: id in ids ==> id in dict
    ensures |KnownNames(ids, dict)| == |ids|
    ensures forall i :: 0 <= i < |ids| ==> KnownNames(ids, dict)[i] == dict[ids[i]]
  {
    if ids != [] {
      KnownNamesAllKnown(ids[..|ids| - 1], dict);
    }
  }

  /** Unknown ids are dropped. */
  lemma {:induction false} KnownNamesNoneKnown(ids: seq<string>, dict: map<string, Option<string>>)
    requires forall id :: id in ids ==> id !in dict
    ensures KnownNames(ids, dict) == []
  {
    if ids != [] {
      KnownNamesNoneKnown(ids[..|ids| - 1], dict);
    }
  }

  /** The name an author list gives an id: the first author with that id,
      if any. */
  function LookupName(authors: seq<Author>, id: string): Option<Option<string>> {
    if authors == [] then None
    else if authors[0].id == Some(id) then Some(authors[0].name)
    else LookupName(authors[1..], id)
  }

  /** A reference projection: for each id in order, the name of the author
      with that id, skipping ids no author has. */
  function NamesByLookup(ids: seq<string>, authors: seq<Author>): seq<Option<string>> {
    if ids == [] then []
    else
      var l := LookupName(authors, ids[|ids| - 1]);
      NamesByLookup(ids[..|ids| - 1], authors) + (if l.Some? then [l.value] else [])
  }

  lemma {:induction false} LookupAgreesWithDict(authors: seq<Author>, id: string)
    requires AuthorDict(authors).Ok?
    ensures var m := AuthorDict(authors).value;
      && (LookupName(authors, id).Some? <==> id in m)
      && (id in m ==> LookupName(authors, id).value == m[id])
  {
    AuthorDictSpec(authors);
    var m := AuthorDict(authors).value;
    LookupFinds(authors, id);
    if id in m {
      var i :| 0 <= i < |authors| && authors[i].id == Some(id);
      LookupUnique(authors, id, i);
    }
  }

  lemma {:induction false} LookupFinds(authors: seq<Author>, id: string)
    ensures LookupName(authors, id).Some? <==> exists i :: 0 <= i < |authors| && authors[i].id == Some(id)
  {
    if authors != [] {
      LookupFinds(authors[1..], id);
      if authors[0].id != Some(id) {
        if exists i :: 0 <= i < |authors| && authors[i].id == Some(id) {
          var i :| 0 <= i < |authors| && authors[i].id == Some(id);
          assert authors[1..][i - 1] == authors[i];
        }
        if exists i :: 0 <= i < |authors[1..]| && authors[1..][i].id == Some(id) {
          var i :| 0 <= i < |authors[1..]| && authors[1..][i].id == Some(id);
          assert authors[i + 1] == authors[1..][i];
        }
      }
    }
  }

  lemma {:induction false} LookupUnique(authors: seq<Author>, id: string, i: nat)
    requires UniqueIds(authors) && i < |authors| && authors[i].id == Some(id)
    ensures LookupName(authors, id) == Some(authors[i].name)
  {
    if i > 0 {
      assert authors[0].id != authors[i].id;
      var rest := authors[1..];
      assert UniqueIds(rest) by {
        forall p, r | 0 <= p < r < |rest| ensures rest[p].id != rest[r].id {
          assert rest[p] == authors[p + 1] && rest[r] == authors[r + 1];
        }
      }
      LookupUnique(rest, id, i - 1);
    }
  }

  /** The dictionary-based projection agrees with looking each id up in the
      author list. */
  lemma {:induction false} KnownNamesByLookup(ids: seq<string>, authors: seq<Author>)
    requires AuthorDict(authors).Ok?
    ensures KnownNames(ids, AuthorDict(authors).value) == NamesByLookup(ids, authors)
  {
    if ids != [] {
      KnownNamesByLookup(ids[..|ids| - 1], authors);
      LookupAgreesWithDict(authors, ids[|ids| - 1]);
    }
  }

  /** `Index`: the dictionary is built first, then the list is filtered and
      projected. */
  function Index(works: seq<Work>, authors: seq<Author>, searchText: Option<string>): Result<seq<WorkView>, IndexError> {
    match AuthorDict(authors)
    case Err(e) => Err(e)
    case Ok(dict) =>
      match SearchWorks(works, authors, searchText)
      case Err(e) => Err(e)
      case Ok(kept) => Ok(Project(kept, dict))
  }

  /** `Index` fails exactly when the author ids are missing or repeated, or
      when a search runs over an author with a null name; otherwise it shows
      one view per kept work, in order, with the work's own fields and the
      names of its known authors looked up by id. */
  lemma IndexSpec(works: seq<Work>, authors: seq<Author>, searchText: Option<string>)
    ensures Index(works, authors, searchText).Ok? <==>
      && UniqueIds(authors)
      && (searchText.Some? && searchText.value != "" ==> forall a :: a in authors ==> a.name.Some?)
    ensures Index(works, authors, searchText).Ok? ==>
      var kept := SearchWorks(works, authors, searchText).value;
      var views := Index(works, authors, searchText).value;
      && |views| == |kept|
      && forall i :: 0 <= i < |kept| ==>
        && views[i].id == kept[i].id && views[i].title == kept[i].title
        && views[i].annotation == kept[i].annotation && views[i].publishDate == kept[i].publishDate
        && views[i].authorNames == (if kept[i].authorIds.None? then [] else NamesByLookup(kept[i].authorIds.value, authors))
  {
    AuthorDictSpec(authors);
    SearchSpec(works, authors, searchText);
    if Index(works, authors, searchText).Ok? {
      var kept := SearchWorks(works, authors, searchText).value;
      forall i | 0 <= i < |kept| && kept[i].authorIds.Some?
        ensures KnownNames(kept[i].authorIds.value, AuthorDict(authors).value) == NamesByLookup(kept[i].authorIds.value, authors)
      {
        KnownNamesByLookup(kept[i].authorIds.value, authors);
      }
    }
  }

  // ---------------------------------------------------------------------
  // Create (POST)

  datatype ModelError = ModelError(key: string, message: string)

  const AuthorIdsKey: string := "AuthorIds"
  const SelectAuthorMessage: string := "Please select at least one author."
  const DatabaseRulesMessage: string := "Validation failed due to database rules. Check your input."
  const SaveFailedMessage: string := "Failed to save data. Please try again."

  /** The custom check: an error on `AuthorIds` when the list is null or
      empty. */
  function AuthorSelectionErrors(authorIds: Option<seq<string>>): seq<ModelError> {
    if authorIds.None? || |authorIds.value| == 0 then [ModelError(AuthorIdsKey, SelectAuthorMessage)] else []
  }

  lemma AuthorSelectionRule(authorIds: Option<seq<string>>)
    ensures AuthorSelectionErrors(authorIds) != [] <==> authorIds.None? || authorIds.value == []
    ensures AuthorSelectionErrors(authorIds) != [] ==> AuthorSelectionErrors(authorIds) == [ModelError("AuthorIds", "Please select at least one author.")]
  {
  }

  /** What `CreateAsync` did: stored the work, or threw a `MongoWriteException`
      whose write error is or is not in the `Uncategorized` category. */
  datatype WriteOutcome = Written | WriteFailed(uncategorized: bool)

  /** The form shown again with its errors, or the redirect to the list. */
  datatype CreateView = ShowForm(errors: seq<ModelError>) | RedirectToIndex

  /** `attemptedWrite` records whether `CreateAsync` was called. */
  datatype CreateResult = CreateResult(attemptedWrite: bool, view: CreateView)

  /** `Create(Work)`: the binding errors of the form, then the author check;
      the work is written only when there is no error, and a failed write
      shows the form with one error under the empty key. */
  function CreatePost(work: Work, bindingErrors: seq<ModelError>, write: WriteOutcome): CreateResult {
    var errors := bindingErrors + AuthorSelectionErrors(work.authorIds);
    if errors != [] then CreateResult(false, ShowForm(errors))
    else
      match write
      case Written => CreateResult(true, RedirectToIndex)
      case WriteFailed(uncategorized) =>
        CreateResult(true, ShowForm([ModelError("", if uncategorized then DatabaseRulesMessage else SaveFailedMessage)]))
  }

  /** A work without authors is never written: the form comes back with the
      author error, whatever the write would have done. */
  lemma NoAuthorsNeverSaved(work: Work, bindingErrors: seq<ModelError>, write: WriteOutcome)
    requires work.authorIds.None? || work.authorIds.value == []
    ensures !CreatePost(work, bindingErrors, write).attemptedWrite
    ensures CreatePost(work, bindingErrors, write).view.ShowForm?
    ensures ModelError(AuthorIdsKey, SelectAuthorMessage) in CreatePost(work, bindingErrors, write).view.errors
  {
  }

  /** The list is reached only through a successful write of a valid form
      with at least one author. */
  lemma RedirectOnlyAfterWrite(work: Work, bindingErrors: seq<ModelError>, write: WriteOutcome)
    ensures CreatePost(work, bindingErrors, write).view == RedirectToIndex <==>
      && bindingErrors == []
      && work.authorIds.Some? && work.authorIds.value != []
      && write == Written
  {
  }
}
