/** Clients of the data-management layer. Each runs one of the layer's
    promised behaviours against a freshly opened empty store, and what it
    returns is proved from the operations' contracts alone. */
module Scenarios {
  import opened Models
  import opened Sql
  import opened NoteManagement

  /** "Work" gets a note "Plan"; a search for "roadmap" finds exactly that
      note; after deleting it the category lists nothing. */
  method SearchThenDelete() returns (hits: seq<Note>, left: seq<Note>)
    ensures |hits| == 1 && hits[0].title == "Plan" && hits[0].content == "Q1 roadmap"
    ensures left == []
  {
    var m := new NoteManager(map[], map[], 1, 1, 0);
    assert !NameTaken(m.categories, "Work") by {
      assert forall id :: id in m.categories ==> m.categories[id] == DefaultCategoryName;
    }
    var work := m.AddCategory("Work");
    var workId := work.value.id;
    var plan := m.AddNote("Plan", "Q1 roadmap", workId);
    assert forall id :: id in m.notes ==> id == plan.value.id;
    ContainsAt("Q1 roadmap", "roadmap", 3);
    hits := m.SearchNotes("roadmap", None);
    ListingOfOne(hits, plan.value);
    var deleted := m.DeleteNote(plan.value.id);
    left := m.GetNotesByCategory(workId);
    NoteListingEmpty(left, m.notes, InCategory(workId));
  }

  /** Deleting a category removes its notes: afterwards the category is not
      found and listing it yields nothing. */
  method DeleteCascades() returns (found: Option<Category>, left: seq<Note>, all: seq<Note>)
    ensures found == None && left == []
    ensures |all| == 1 && all[0].title == "Keep"
  {
    var m := new NoteManager(map[], map[], 1, 1, 0);
    assert !NameTaken(m.categories, "A") by {
      assert forall id :: id in m.categories ==> m.categories[id] == DefaultCategoryName;
    }
    var a := m.AddCategory("A");
    var aId := a.value.id;
    var n1 := m.AddNote("One", "", aId);
    var n2 := m.AddNote("Two", "", aId);
    var kept := m.AddNote("Keep", "", 1);
    var ok := m.DeleteCategory(aId);
    found := m.GetCategoryById(aId);
    left := m.GetNotesByCategory(aId);
    NoteListingEmpty(left, m.notes, InCategory(aId));
    all := m.GetAllNotes();
    assert forall id :: id in m.notes ==> id == kept.value.id;
    ListingOfOne(all, kept.value);
  }

  /** A note moved from "A" to "B" leaves "A" empty and heads the listing
      of "B" with a refreshed timestamp; its creation time is unchanged. */
  method MoveNote() returns (inA: seq<Note>, inB: seq<Note>)
    ensures inA == []
    ensures |inB| == 1 && inB[0].title == "Plan v2" && inB[0].createdAt < inB[0].updatedAt
  {
    var m := new NoteManager(map[], map[], 1, 1, 0);
    assert !NameTaken(m.categories, "A") by {
      assert forall id :: id in m.categories ==> m.categories[id] == DefaultCategoryName;
    }
    var a := m.AddCategory("A");
    assert !NameTaken(m.categories, "B") by {
      assert forall id :: id in m.categories ==> m.categories[id] == DefaultCategoryName || m.categories[id] == "A";
    }
    var b := m.AddCategory("B");
    var aId, bId := a.value.id, b.value.id;
    var note := m.AddNote("Plan", "", aId);
    var ok := m.UpdateNote(note.value.id, "Plan v2", "", Some(bId));
    inA := m.GetNotesByCategory(aId);
    NoteListingEmpty(inA, m.notes, InCategory(aId));
    inB := m.GetNotesByCategory(bId);
    assert forall id :: id in m.notes ==> id == note.value.id;
    ListingOfOne(inB, m.notes[note.value.id]);
  }

  /** Names stay unique: a second "A" is refused, and so is renaming "A"
      to its own name or to a name another category holds. */
  method DuplicateNames() returns (first: Option<Category>, second: Option<Category>, toSelf: bool, toOther: bool)
    ensures first.Some? && second.None?
    ensures !toSelf && !toOther
  {
    var m := new NoteManager(map[], map[], 1, 1, 0);
    assert !NameTaken(m.categories, "A") by {
      assert forall id :: id in m.categories ==> m.categories[id] == DefaultCategoryName;
    }
    first := m.AddCategory("A");
    assert m.categories[first.value.id] == "A";
    second := m.AddCategory("A");
    assert m.categories[1] == DefaultCategoryName;
    toSelf := m.UpdateCategoryName(first.value.id, "A");
    toOther := m.UpdateCategoryName(first.value.id, DefaultCategoryName);
  }

  /** The empty keyword: within a category it lists every note there, while
      the search across all categories returns nothing. */
  method EmptyKeyword() returns (inCategory: seq<Note>, everywhere: seq<Note>)
    ensures |inCategory| == 1 && inCategory[0].title == "Plan"
    ensures everywhere == []
  {
    var m := new NoteManager(map[], map[], 1, 1, 0);
    var note := m.AddNote("Plan", "Q1 roadmap", 1);
    inCategory := m.SearchNotes("", Some(1));
    EmptyKeywordListsCategory(inCategory, m.notes, 1);
    assert forall id :: id in m.notes ==> id == note.value.id;
    ListingOfOne(inCategory, note.value);
    everywhere := m.SearchAllNotes("");
  }

  /** A category id of 0 is falsy: `update_note` with it keeps the note where
      it is and succeeds. An unknown non-zero id fails, yet the title was
      already replaced and, flushed by the failed lookup, stamped as the
      latest update, so the note heads the listing of all notes. */
  method FalsyCategoryId() returns (withZero: bool, withUnknown: bool, title: string, categoryId: int, all: seq<Note>)
    ensures withZero && !withUnknown
    ensures title == "Third" && categoryId == 1
    ensures all != [] && all[0].title == "Third"
  {
    var m := new NoteManager(map[], map[], 1, 1, 0);
    var first := m.AddNote("First", "", 1);
    var id := first.value.id;
    withZero := m.UpdateNote(id, "Second", "", Some(0));
    var again := m.AddNote("Later", "", 1);
    withUnknown := m.UpdateNote(id, "Third", "", Some(7));
    title, categoryId := m.notes[id].title, m.notes[id].categoryId;
    all := m.GetAllNotes();
    LatestFirst(all, m.notes, Everything, m.notes[id]);
  }
}
