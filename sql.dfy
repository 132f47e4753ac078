/** What the store's query engine does for the manager: it assigns row ids,
    evaluates the `WHERE` filters and sorts by `ORDER BY`. */
module Sql {
  import opened Models
  import opened Ordering

  /** After rows were deleted, walks down from the old bound to the largest
      rowid left, so that the next insert again gets one past the largest. */
  method NextRowIdAfterDelete<T>(rows: map<int, T>, bound: int) returns (next: int)
    requires bound >= 1 && forall id :: id in rows ==> 1 <= id < bound
    ensures NextRowIdIs(rows, next) && next <= bound
  {
    next := bound;
    while next > 1 && next - 1 !in rows
      invariant 1 <= next <= bound
      invariant forall id :: id in rows ==> id < next
    {
      next := next - 1;
    }
  }

  /** `text LIKE '%keyword%'`, read as plain substring containment. */
  predicate Contains(text: string, keyword: string): (r: bool)
    ensures r ==> |keyword| <= |text|
  {
    keyword <= text || (text != [] && Contains(text[1..], keyword))
  }

  /** A keyword occurring at any position of the text is contained in it. */
  lemma {:induction false} ContainsAt(text: string, keyword: string, i: nat)
    requires i <= |text| && keyword <= text[i..]
    ensures Contains(text, keyword)
  {
    if i > 0 {
      assert text[1..][i - 1..] == text[i..];
      ContainsAt(text[1..], keyword, i - 1);
    }
  }

  /** Conversely, a contained keyword occurs at some position of the text. */
  lemma {:induction false} ContainsFoundAt(text: string, keyword: string) returns (i: nat)
    requires Contains(text, keyword)
    ensures i <= |text| && keyword <= text[i..]
  {
    if keyword <= text {
      i := 0;
    } else {
      var j := ContainsFoundAt(text[1..], keyword);
      assert text[1..][j..] == text[j + 1..];
      i := j + 1;
    }
  }

  /** The `WHERE` clauses the manager builds. */
  datatype NoteFilter =
    | Everything
    | InCategory(categoryId: int)
      /** Title or content matches `keyword`; the category restriction
          applies only when `category` is truthy. */
    | Keyword(keyword: string, category: Option<int>)

  predicate Keeps(f: NoteFilter, n: Note)
  {
    match f
    case Everything => true
    case InCategory(c) => n.categoryId == c
    case Keyword(k, c) =>
      (Contains(n.title, k) || Contains(n.content, k)) && (Truthy(c) ==> n.categoryId == c.value)
  }

  /** `r` is an answer to `SELECT * FROM notes WHERE f ORDER BY updated_at DESC`:
      exactly the stored notes `f` keeps, each once, latest update first. */
  ghost predicate IsNoteListing(r: seq<Note>, notes: map<int, Note>, f: NoteFilter)
  {
    && SortedByUpdatedDesc(r)
    && IdsDistinct(r)
    && forall n :: n in r <==> n.id in notes && notes[n.id] == n && Keeps(f, n)
  }

  /** `r` is an answer to `SELECT * FROM categories ORDER BY name`: every
      stored category, names ascending. */
  ghost predicate IsCategoryListing(r: seq<Category>, categories: map<int, string>)
  {
    && SortedByName(r)
    && forall c :: c in r <==> c.id in categories && categories[c.id] == c.name
  }

  /** Scans the notes table in rowid order and inserts each row the filter
      keeps into a result ordered by `updated_at`. */
  method SelectNotes(notes: map<int, Note>, next: int, f: NoteFilter) returns (r: seq<Note>)
    requires NotesKeyed(notes) && NextRowIdIs(notes, next)
    ensures IsNoteListing(r, notes, f)
  {
    r := [];
    for id := 1 to next
      invariant SortedByUpdatedDesc(r) && IdsDistinct(r)
      invariant forall n :: n in r <==> n.id in notes && n.id < id && notes[n.id] == n && Keeps(f, n)
    {
      if id in notes && Keeps(f, notes[id]) {
        var n := notes[id];
        InsertByUpdatedSorted(n, r);
        InsertByUpdatedDistinct(n, r);
        InsertByUpdatedMembers(n, r);
        r := InsertByUpdated(n, r);
      }
    }
  }

  /** Scans the categories table in rowid order and inserts each row into a
      result ordered by name. */
  method SelectCategories(categories: map<int, string>, next: int) returns (r: seq<Category>)
    requires NamesUnique(categories) && NextRowIdIs(categories, next)
    ensures IsCategoryListing(r, categories)
  {
    r := [];
    for id := 1 to next
      invariant SortedByName(r)
      invariant forall c :: c in r <==> c.id in categories && c.id < id && categories[c.id] == c.name
    {
      if id in categories {
        var c := Category(id, categories[id]);
        InsertByNameSorted(c, r);
        InsertByNameMembers(c, r);
        r := InsertByName(c, r);
      }
    }
  }

  /** The category listing is fully determined by the table: names are
      unique, so there are no ties to break. */
  lemma CategoryListingUnique(r1: seq<Category>, r2: seq<Category>, categories: map<int, string>)
    requires IsCategoryListing(r1, categories) && IsCategoryListing(r2, categories)
    ensures r1 == r2
  {
    SortedByNameDetermined(r1, r2);
  }

  /** The category listing is empty exactly when the table is. */
  lemma CategoryListingEmpty(r: seq<Category>, categories: map<int, string>)
    requires IsCategoryListing(r, categories)
    ensures r == [] <==> forall id :: id !in categories
  {
    forall id | id in categories ensures Category(id, categories[id]) in r {
    }
    assert r != [] ==> r[0] in r;
  }

  /** A note listing is empty exactly when no stored note passes the filter. */
  lemma NoteListingEmpty(r: seq<Note>, notes: map<int, Note>, f: NoteFilter)
    requires NotesKeyed(notes)
    requires IsNoteListing(r, notes, f)
    ensures r == [] <==> forall id :: id in notes ==> !Keeps(f, notes[id])
  {
    forall id | id in notes && Keeps(f, notes[id]) ensures notes[id] in r {
    }
    assert r != [] ==> r[0] in r;
  }

  /** A note updated later than every other stored note heads every listing it is in. */
  lemma LatestFirst(r: seq<Note>, notes: map<int, Note>, f: NoteFilter, n: Note)
    requires IsNoteListing(r, notes, f)
    requires n in r
    requires forall id :: id in notes && id != n.id ==> notes[id].updatedAt < n.updatedAt
    ensures r[0] == n
  {
    var j :| 0 <= j < |r| && r[j] == n;
    assert r[0] in r;
    assert r[0].updatedAt >= r[j].updatedAt;
  }

  /** A listing whose only member is `n` is exactly `[n]`: no note is listed twice. */
  lemma ListingOfOne(r: seq<Note>, n: Note)
    requires IdsDistinct(r)
    requires forall x :: x in r <==> x == n
    ensures r == [n]
  {
    assert n in r;
    forall i | 0 <= i < |r| ensures r[i] == n {
      assert r[i] in r;
    }
    assert |r| >= 2 ==> r[0].id != r[1].id;
  }

  /** Every text contains the empty keyword: `LIKE '%%'` matches everything. */
  lemma EmptyKeywordMatches(text: string)
    ensures Contains(text, "")
  {
  }

  /** Searching with an empty keyword within a category lists exactly that
      category's notes. */
  lemma EmptyKeywordListsCategory(r: seq<Note>, notes: map<int, Note>, categoryId: int)
    requires categoryId != 0
    requires IsNoteListing(r, notes, Keyword("", Some(categoryId)))
    ensures IsNoteListing(r, notes, InCategory(categoryId))
  {
    forall n | n in r || n.id in notes
      ensures Keeps(Keyword("", Some(categoryId)), n) == Keeps(InCategory(categoryId), n)
    {
      EmptyKeywordMatches(n.title);
    }
  }

  /** A category filter of 0 is falsy, so it filters nothing: it behaves
      as if no category had been given. */
  lemma ZeroCategoryIsNoFilter(keyword: string, n: Note)
    ensures Keeps(Keyword(keyword, Some(0)), n) == Keeps(Keyword(keyword, None), n)
  {
  }
}
