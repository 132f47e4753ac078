/** The data-management layer: one object owning the two tables, through
    which every category and note is added, renamed, moved, deleted, looked
    up, listed and searched. */
module NoteManagement {
  import opened Models
  import opened Sql

  /** The category created when the store holds none. */
  const DefaultCategoryName: string := "Uncategorized"

  /** `update_note` moves a note only when the requested category id is
      truthy and differs from the note's current one. */
  predicate RequestsMove(newCategoryId: Option<int>, current: int)
  {
    Truthy(newCategoryId) && newCategoryId.value != current
  }

  /** `update_note` changes a column of the note: only then does a flush
      write an `UPDATE`, and with it the `onupdate` stamp of `updated_at`. */
  predicate Edits(n: Note, newTitle: string, newContent: string)
  {
    n.title != newTitle || n.content != newContent
  }

  class NoteManager {
    var categories: map<int, string>
    var notes: map<int, Note>
    /** One past the largest category id: the id the next category gets. */
    var nextCategoryId: int
    /** One past the largest note id: the id the next note gets. */
    var nextNoteId: int
    /** The logical clock standing for `datetime.now()`. */
    var clock: Timestamp

    ghost predicate Valid()
      reads this
    {
      && Consistent(categories, notes, clock)
      && NextRowIdIs(categories, nextCategoryId)
      && NextRowIdIs(notes, nextNoteId)
    }

    /** Opens the stored tables and makes sure at least one category exists. */
    constructor(storedCategories: map<int, string>, storedNotes: map<int, Note>,
                storedNextCategoryId: int, storedNextNoteId: int, now: Timestamp)
      requires Consistent(storedCategories, storedNotes, now)
      requires NextRowIdIs(storedCategories, storedNextCategoryId)
      requires NextRowIdIs(storedNotes, storedNextNoteId)
      ensures Valid()
      ensures notes == storedNotes && nextNoteId == storedNextNoteId && clock == now
      ensures categories != map[]
      ensures (exists id :: id in storedCategories) ==>
        categories == storedCategories && nextCategoryId == storedNextCategoryId
      ensures (forall id :: id !in storedCategories) ==>
        && 1 in categories && categories[1] == DefaultCategoryName
        && (forall id :: id in categories ==> id == 1)
        && nextCategoryId == 2
    {
      categories, notes := storedCategories, storedNotes;
      nextCategoryId, nextNoteId := storedNextCategoryId, storedNextNoteId;
      clock := now;
      new;
      EnsureDefaultCategory();
    }

    /** Adds a category named "Uncategorized" when there is no category at all. */
    method EnsureDefaultCategory()
      requires Valid()
      modifies this
      ensures Valid()
      ensures notes == old(notes) && nextNoteId == old(nextNoteId) && clock == old(clock)
      ensures categories != map[]
      ensures (exists id :: id in old(categories)) ==>
        categories == old(categories) && nextCategoryId == old(nextCategoryId)
      ensures (forall id :: id !in old(categories)) ==>
        && 1 in categories && categories[1] == DefaultCategoryName
        && (forall id :: id in categories ==> id == 1)
        && nextCategoryId == 2
    {
      var all := GetAllCategories();
      CategoryListingEmpty(all, categories);
      if all == [] {
        var added := AddCategory(DefaultCategoryName);
      } else {
        assert all[0] in all;
      }
    }

    /** Adds a category unless one already has this name. */
    method AddCategory(name: string) returns (r: Option<Category>)
      requires Valid()
      modifies this
      ensures Valid()
      ensures notes == old(notes) && nextNoteId == old(nextNoteId) && clock == old(clock)
      ensures r.None? <==> NameTaken(old(categories), name)
      ensures r.None? ==> categories == old(categories) && nextCategoryId == old(nextCategoryId)
      ensures r.Some? ==>
        && r.value.name == name
        && r.value.id == old(nextCategoryId) && r.value.id !in old(categories)
        && categories == old(categories)[r.value.id := name]
        && nextCategoryId == r.value.id + 1
    {
      if NameTaken(categories, name) {
        return None;
      }
      var id := nextCategoryId;
      categories := categories[id := name];
      nextCategoryId := id + 1;
      r := Some(Category(id, name));
    }

    /** All categories, names ascending. */
    method GetAllCategories() returns (r: seq<Category>)
      requires Valid()
      ensures IsCategoryListing(r, categories)
    {
      r := SelectCategories(categories, nextCategoryId);
    }

    method GetCategoryById(categoryId: int) returns (r: Option<Category>)
      requires Valid()
      ensures r.Some? <==> categoryId in categories
      ensures r.Some? ==> r.value.id == categoryId && r.value.name == categories[categoryId]
    {
      if categoryId in categories {
        r := Some(Category(categoryId, categories[categoryId]));
      } else {
        r := None;
      }
    }

    /** Renames a category; fails when the id is unknown or when any category,
        this one included, already holds the new name. */
    method UpdateCategoryName(categoryId: int, newName: string) returns (ok: bool)
      requires Valid()
      modifies this
      ensures Valid()
      ensures ok <==> categoryId in old(categories) && !NameTaken(old(categories), newName)
      ensures categories == if ok then old(categories)[categoryId := newName] else old(categories)
      ensures notes == old(notes) && clock == old(clock)
      ensures nextCategoryId == old(nextCategoryId) && nextNoteId == old(nextNoteId)
    {
      var category := GetCategoryById(categoryId);
      if category.Some? && !NameTaken(categories, newName) {
        categories := categories[categoryId := newName];
        return true;
      }
      return false;
    }

    /** Deletes a category together with all of its notes. */
    method DeleteCategory(categoryId: int) returns (ok: bool)
      requires Valid()
      modifies this
      ensures Valid()
      ensures ok <==> categoryId in old(categories)
      ensures !ok ==>
        && categories == old(categories) && notes == old(notes)
        && nextCategoryId == old(nextCategoryId) && nextNoteId == old(nextNoteId)
      ensures ok ==>
        && categories == old(categories) - {categoryId}
        && notes == WithoutCategory(old(notes), categoryId)
        && nextCategoryId <= old(nextCategoryId) && nextNoteId <= old(nextNoteId)
      ensures clock == old(clock)
    {
      var category := GetCategoryById(categoryId);
      if category.None? {
        return false;
      }
      CascadeKeepsConsistent(categories, notes, clock, categoryId);
      categories := categories - {categoryId};
      notes := WithoutCategory(notes, categoryId);
      nextCategoryId := NextRowIdAfterDelete(categories, nextCategoryId);
      nextNoteId := NextRowIdAfterDelete(notes, nextNoteId);
      ok := true;
    }

    /** Adds a note to a live category, stamped with the current time. */
    method AddNote(title: string, content: string, categoryId: int) returns (r: Option<Note>)
      requires Valid()
      modifies this
      ensures Valid()
      ensures categories == old(categories) && nextCategoryId == old(nextCategoryId)
      ensures r.None? <==> categoryId !in old(categories)
      ensures r.None? ==> notes == old(notes) && nextNoteId == old(nextNoteId) && clock == old(clock)
      ensures r.Some? ==>
        && clock == old(clock) + 1
        && r.value == Note(old(nextNoteId), title, content, clock, clock, categoryId)
        && r.value.id !in old(notes)
        && notes == old(notes)[r.value.id := r.value]
        && nextNoteId == r.value.id + 1
      ensures r.Some? ==> forall id :: id in old(notes) ==> old(notes)[id].updatedAt < r.value.updatedAt
    {
      var category := GetCategoryById(categoryId);
      if category.None? {
        return None;
      }
      clock := clock + 1;
      var note := Note(nextNoteId, title, content, clock, clock, categoryId);
      notes := notes[note.id := note];
      nextNoteId := note.id + 1;
      r := Some(note);
    }

    method DeleteNote(noteId: int) returns (ok: bool)
      requires Valid()
      modifies this
      ensures Valid()
      ensures ok <==> noteId in old(notes)
      ensures notes == if ok then old(notes) - {noteId} else old(notes)
      ensures !ok ==> nextNoteId == old(nextNoteId)
      ensures nextNoteId <= old(nextNoteId)
      ensures categories == old(categories) && nextCategoryId == old(nextCategoryId) && clock == old(clock)
    {
      var note := FindNoteById(noteId);
      if note.None? {
        return false;
      }
      notes := notes - {noteId};
      nextNoteId := NextRowIdAfterDelete(notes, nextNoteId);
      ok := true;
    }

    method FindNoteById(noteId: int) returns (r: Option<Note>)
      requires Valid()
      ensures r.Some? <==> noteId in notes
      ensures r.Some? ==> r.value == notes[noteId] && r.value.id == noteId && r.value.categoryId in categories
    {
      if noteId in notes {
        r := Some(notes[noteId]);
      } else {
        r := None;
      }
    }

    /** Notes whose title or content contains the keyword, restricted to one
        category only when `categoryId` is truthy, latest update first. */
    method SearchNotes(keyword: string, categoryId: Option<int>) returns (r: seq<Note>)
      requires Valid()
      ensures IsNoteListing(r, notes, Keyword(keyword, categoryId))
    {
      r := SelectNotes(notes, nextNoteId, Keyword(keyword, categoryId));
    }

    /** Replaces title and content, moves the note when a truthy, different
        category id is given, and refreshes `updated_at`. A move to a missing
        category fails after title and content were already assigned; when
        they changed, the lookup of the target has already flushed them and
        stamped `updated_at`. */
    method UpdateNote(noteId: int, newTitle: string, newContent: string, newCategoryId: Option<int>)
      returns (ok: bool)
      requires Valid()
      modifies this
      ensures Valid()
      ensures categories == old(categories) && nextCategoryId == old(nextCategoryId) && nextNoteId == old(nextNoteId)
      ensures noteId !in old(notes) ==> !ok && notes == old(notes) && clock == old(clock)
      ensures noteId in old(notes) ==>
        var n := old(notes)[noteId];
        var moved := RequestsMove(newCategoryId, n.categoryId);
        var flushed := moved && Edits(n, newTitle, newContent);
        && (ok <==> !moved || newCategoryId.value in old(categories))
        && (ok ==>
              && clock == old(clock) + (if flushed then 2 else 1)
              && notes == old(notes)[noteId := n.(title := newTitle, content := newContent, updatedAt := clock,
                                                    categoryId := if moved then newCategoryId.value else n.categoryId)])
        && (!ok ==>
              && clock == old(clock) + (if flushed then 1 else 0)
              && notes == old(notes)[noteId := n.(title := newTitle, content := newContent,
                                                    updatedAt := if flushed then clock else n.updatedAt)])
    {
      var found := FindNoteById(noteId);
      if found.None? {
        return false;
      }
      var n := found.value.(title := newTitle, content := newContent);
      StoreNoteKeepsConsistent(categories, notes, clock, n, clock);
      notes := notes[noteId := n];
      if RequestsMove(newCategoryId, n.categoryId) {
        if Edits(found.value, newTitle, newContent) {
          // The lookup below autoflushes the edit.
          Stamp(noteId);
        }
        var target := GetCategoryById(newCategoryId.value);
        if target.None? {
          return false;
        }
        n := notes[noteId].(categoryId := newCategoryId.value);
        StoreNoteKeepsConsistent(categories, notes, clock, n, clock);
        notes := notes[noteId := n];
      }
      Stamp(noteId);
      ok := true;
    }

    /** Stamps `updated_at` of one note with the current time. This stands
        for both stamps `update_note` gives: the `onupdate` default of
        models.py:25, applied when the autoflush before the target lookup
        writes the edited row, and the explicit assignment of
        note_manager.py:113 that the commit writes. */
    method Stamp(noteId: int)
      requires Valid() && noteId in notes
      modifies this
      ensures Valid()
      ensures clock == old(clock) + 1
      ensures notes == old(notes)[noteId := old(notes)[noteId].(updatedAt := clock)]
      ensures categories == old(categories) && nextCategoryId == old(nextCategoryId) && nextNoteId == old(nextNoteId)
    {
      var n := notes[noteId].(updatedAt := clock + 1);
      StoreNoteKeepsConsistent(categories, notes, clock, n, clock + 1);
      clock := clock + 1;
      notes := notes[noteId := n];
    }

    /** Every note, latest update first. */
    method GetAllNotes() returns (r: seq<Note>)
      requires Valid()
      ensures IsNoteListing(r, notes, Everything)
    {
      r := SelectNotes(notes, nextNoteId, Everything);
    }

    /** The notes of one category, latest update first. */
    method GetNotesByCategory(categoryId: int) returns (r: seq<Note>)
      requires Valid()
      ensures IsNoteListing(r, notes, InCategory(categoryId))
    {
      r := SelectNotes(notes, nextNoteId, InCategory(categoryId));
    }

    /** Keyword search over every category; an empty keyword finds nothing. */
    method SearchAllNotes(keyword: string) returns (r: seq<Note>)
      requires Valid()
      ensures keyword == "" ==> r == []
      ensures keyword != "" ==> IsNoteListing(r, notes, Keyword(keyword, None))
    {
      if keyword == "" {
        return [];
      }
      r := SelectNotes(notes, nextNoteId, Keyword(keyword, None));
    }
  }
}
