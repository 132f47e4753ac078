# Note store: data-management layer

This project models the data-management layer of a desktop note-taking
application. `NoteManager` owns a SQLite store of two tables:

- `categories`: an id and a unique name.
- `notes`: an id, a title, a content, creation and update timestamps, and
  a category id that must reference a live category.

The manager adds, renames, deletes, looks up, lists and searches rows of
these tables. Deleting a category cascades to its notes.

The Dafny model is split into five modules:

- `Models` (`models.dfy`): the two row shapes as datatypes. It also holds
  the schema's constraints as the invariant `Consistent`: unique names,
  notes stored under their own key, live category references, and
  timestamps bounded by the clock. The cascade on category deletion is
  `WithoutCategory`.
- `Ordering` (`ordering.dfy`): the two sort orders the queries use. Names
  ascend under the binary collation; notes descend by `updated_at`. The
  module also holds the insertion helpers that build sorted results.
- `Sql` (`sql.dfy`): what the query engine does for the manager.
  - Row ids: a new row gets one past the largest rowid, or 1 in an empty
    table.
  - `LIKE '%k%'`: read as substring containment (`Contains`).
  - The `WHERE` filters the manager builds: `NoteFilter` and `Keeps`.
  - Listing specifications: `IsNoteListing` and `IsCategoryListing`.
  - Scan methods that compute the listings: `SelectNotes` and
    `SelectCategories`.
- `NoteManagement` (`note_manager.dfy`): the class `NoteManager`. It has
  a `map` per table, the next id of each table, and a logical clock
  standing for `datetime.now()`. Every method keeps `Valid()` and states
  its whole new state.
- `Scenarios` (`scenarios.dfy`): client methods that drive the manager
  from an empty store. Their results are proved from the contracts alone.

Python truthiness is kept where the code relies on it. A category id of
`0` counts like `None`: no filter in `search_notes`, and no move in
`update_note`. Renaming a category to its own name fails, because the
duplicate check finds the category itself.

A caller might expect a failed `update_note` to leave the note unchanged.
The code assigns the new title and content before checking the target
category, then returns `False` without a rollback. The lookup of the
target runs a query, and the session's autoflush writes the pending edit
first. When the title or content actually changed, that write carries the
`onupdate` stamp of `updated_at`. The model follows the code. On a failed
move the title and content are replaced and the category id is kept.
`updated_at` takes a fresh tick of the clock exactly when the edit changed
something. A successful move of an edited note is stamped twice: once by
the autoflush and once by the explicit assignment before the commit.

## Model

| member | source | states |
|---|---|---|
| Models.Category | models.py:8-13 | a row of `categories`: an integer primary key and a name |
| Models.Note | models.py:18-28 | a row of `notes`: integer primary key, title, content, `created_at`, `updated_at` and the `category_id` foreign key |
| Models.Truthy | note_manager.py:97 | an optional id is true unless it is `None` or `0`, as Python's `if category_id:` reads it |
| Models.Consistent | models.py:11-27 | the schema's constraints: names unique, each note under its own id, every `category_id` a live category, `created_at <= updated_at` with neither ahead of the clock |
| Models.NameTaken | note_manager.py:20 | some category already holds the name: the duplicate query of `add_category`, also at note_manager.py:42 |
| Models.NextRowIdIs | models.py:21 | the integer primary key is the rowid: the next row gets one past the largest id, or 1 in an empty table, so every stored id lies below it |
| Models.WithoutCategory | models.py:13 | the notes left after the cascade are exactly the notes of other categories, each unchanged |
| Models.CascadeKeepsConsistent | models.py:11-27 | deleting a category together with its notes keeps names unique, keys matching, every reference live and timestamps bounded |
| Models.StoreNoteKeepsConsistent | models.py:24-27 | storing a note of a live category, with `created_at <= updated_at` not ahead of a clock that only moves forward, keeps every constraint |
| Models.CascadeOfUnknownCategory | models.py:27 | when every note references a live category, the cascade of a missing category removes nothing |
| Ordering.StringLt | note_manager.py:33 | the binary collation of `order_by(Category.name)`: lexicographic order by code point, a proper prefix first |
| Ordering.StringLtIrreflexive | note_manager.py:33 | no name sorts before itself |
| Ordering.StringLtTransitive | note_manager.py:33 | the name order is transitive |
| Ordering.StringLtTotal | note_manager.py:33 | any two different names are ordered one way or the other |
| Ordering.InsertByName | note_manager.py:33 | inserting a category adds exactly that category to the multiset of elements |
| Ordering.InsertByNameSorted | note_manager.py:33 | inserting a category with a fresh name into a name-sorted list keeps it strictly sorted |
| Ordering.InsertByUpdated | note_manager.py:99 | inserting a note adds exactly that note to the multiset of elements |
| Ordering.InsertByUpdatedSorted | note_manager.py:99 | inserting a note into a list sorted by `updated_at` descending keeps it sorted |
| Ordering.InsertByUpdatedDistinct | note_manager.py:99 | inserting a note whose id is new keeps ids distinct |
| Ordering.SortedByNameDetermined | note_manager.py:33 | two strictly name-sorted lists with the same elements are equal |
| Sql.NextRowIdAfterDelete | models.py:21 | after a delete, the next id is again one past the largest id left (1 when none is left), and it never grows |
| Sql.Contains | note_manager.py:94-95 | `LIKE '%k%'` as containment: a keyword matches only a text at least as long as the keyword |
| Sql.ContainsAt | note_manager.py:94-95 | a keyword occurring at any position of a text matches it |
| Sql.ContainsFoundAt | note_manager.py:94-95 | a keyword that matches occurs at some position of the text |
| Sql.Keeps | note_manager.py:93-98 | the `WHERE` clause of each query: keyword in title or content, restricted to the category only when its id is truthy; the category listing compares ids with no truthiness test |
| Sql.IsNoteListing | note_manager.py:93-99 | what a `SELECT` over `notes` returns: exactly the stored rows the `WHERE` clause keeps, each once, `updated_at` non-increasing; shared by the queries at note_manager.py:120, 124 and 130-134 |
| Sql.IsCategoryListing | note_manager.py:33 | what `SELECT` over `categories` `ORDER BY name` returns: exactly the stored rows, names strictly ascending |
| Sql.SelectNotes | note_manager.py:93-99 | the result holds exactly the stored notes the filter keeps, each once, with `updated_at` non-increasing |
| Sql.SelectCategories | note_manager.py:33 | the result holds exactly the stored categories, names strictly ascending |
| Sql.CategoryListingUnique | note_manager.py:33 | the category listing is determined by the table: any two valid answers are equal |
| Sql.CategoryListingEmpty | note_manager.py:11-14 | the category listing is empty if and only if the table holds no category |
| Sql.NoteListingEmpty | note_manager.py:122-124 | a note listing is empty if and only if no stored note passes the filter |
| Sql.LatestFirst | note_manager.py:99 | a listed note updated later than every other stored note comes first |
| Sql.ListingOfOne | note_manager.py:118-120 | a listing whose only member is one note is exactly that note, listed once |
| Sql.EmptyKeywordMatches | note_manager.py:94-95 | the empty keyword matches every text |
| Sql.EmptyKeywordListsCategory | note_manager.py:91-99 | a search with the empty keyword in a truthy category lists exactly that category's notes |
| Sql.ZeroCategoryIsNoFilter | note_manager.py:97-98 | a category id of 0 filters like no category at all |
| NoteManagement.RequestsMove | note_manager.py:107 | a move is requested exactly when the new category id is truthy and differs from the current one |
| NoteManagement.Edits | note_manager.py:105-106 | the edit changes the title or the content, so a flush writes the row and stamps it |
| NoteManagement.NoteManager.Valid | models.py:8-28 | the state the session keeps: the schema's constraints hold, and both next ids follow the rowid rule |
| NoteManagement.NoteManager.constructor | note_manager.py:7-9 | the opened store holds at least one category; an empty store gets only "Uncategorized", under id 1 |
| NoteManagement.NoteManager.EnsureDefaultCategory | note_manager.py:11-14 | a non-empty category table is unchanged; an empty one gets exactly "Uncategorized" under id 1; notes and clock are unchanged |
| NoteManagement.NoteManager.AddCategory | note_manager.py:17-29 | fails, changing nothing, if and only if some category already has the name; otherwise adds exactly that name under a fresh id; the invariant is kept |
| NoteManagement.NoteManager.GetAllCategories | note_manager.py:31-33 | returns every category exactly once, names strictly ascending |
| NoteManagement.NoteManager.GetCategoryById | note_manager.py:35-37 | finds a category if and only if the id is live, and then returns its stored name |
| NoteManagement.NoteManager.UpdateCategoryName | note_manager.py:39-50 | succeeds if and only if the id is live and no category, itself included, holds the new name; only then does that one name change |
| NoteManagement.NoteManager.DeleteCategory | note_manager.py:52-60 | succeeds if and only if the id is live; then removes that category and exactly its notes, keeping every other row unchanged |
| NoteManagement.NoteManager.AddNote | note_manager.py:63-76 | fails, changing nothing, if and only if the category is not live; otherwise adds one note under a fresh id with `created_at == updated_at ==` the ticked clock, later than every earlier update |
| NoteManagement.NoteManager.DeleteNote | note_manager.py:78-85 | succeeds if and only if the note exists; then removes exactly that note and nothing else |
| NoteManagement.NoteManager.FindNoteById | note_manager.py:87-89 | finds a note if and only if the id is stored; the note carries that id and a live category |
| NoteManagement.NoteManager.SearchNotes | note_manager.py:91-99 | returns exactly the notes whose title or content contains the keyword, restricted to the category only when its id is truthy, latest update first |
| NoteManagement.NoteManager.UpdateNote | note_manager.py:101-116 | fails, changing nothing, for an unknown note. It also fails when a truthy, different target category is not live: title and content are still replaced and the category id kept, and `updated_at` is refreshed exactly when the edit changed a column. Otherwise it sets title and content, moves only on a truthy, different id, and refreshes `updated_at` with `created_at` kept |
| NoteManagement.NoteManager.Stamp | note_manager.py:113 | ticks the clock and stamps exactly that note's `updated_at` with it; nothing else changes and the invariant is kept. It stands for the explicit assignment here and for the `onupdate` default of models.py:25 that an autoflush of the edited row applies |
| NoteManagement.NoteManager.GetAllNotes | note_manager.py:118-120 | returns every note exactly once, latest update first |
| NoteManagement.NoteManager.GetNotesByCategory | note_manager.py:122-124 | returns exactly the notes of that category, latest update first |
| NoteManagement.NoteManager.SearchAllNotes | note_manager.py:126-134 | an empty keyword gives `[]`; any other keyword matches title or content over every category, latest update first |
| Scenarios.SearchThenDelete | note_manager.py:91-99 | a note found by a keyword in its content is the only hit; once it is deleted, its category lists nothing |
| Scenarios.DeleteCascades | note_manager.py:52-60 | after deleting a category it is not found and lists no notes, while a note of another category survives |
| Scenarios.MoveNote | note_manager.py:107-113 | a moved note leaves its old category empty and is the only note of the new one, updated after its creation |
| Scenarios.DuplicateNames | note_manager.py:39-50 | a second category with an existing name is refused; renaming to its own name or to another category's name fails |
| Scenarios.EmptyKeyword | note_manager.py:126-129 | the empty keyword lists a category's notes in `search_notes` but nothing in `search_all_notes` |
| Scenarios.FalsyCategoryId | note_manager.py:104-111 | target id 0 keeps the note in place and succeeds. An unknown target fails, yet the title was already replaced and stamped, so the note heads the listing of all notes |

## Left out

- The SQLite file, the engine and the session factory are not modelled
  (models.py:33-38). The constructor takes the stored tables and their next
  ids as parameters.
- `LIKE` is modelled as case-sensitive substring containment. SQLite's
  `LIKE` ignores ASCII case, and `%` and `_` in a keyword act as wildcards.
- `datetime.now()` is a logical clock. It ticks on `add_note`, on a
  successful `update_note`, and on each flush of an edited note. Real time,
  its resolution and ties between equal wall-clock readings are not
  modelled.
- NoteManagement.NoteManager.AddNote: the two column defaults of
  models.py:24-25 call `datetime.now` one after the other. The source
  therefore promises only `created_at <= updated_at`. The model stamps
  both columns with the same tick.
- Ties in `updated_at` may come in any order. The listings promise only
  non-increasing timestamps over exactly the filtered notes.
- `content` may be `NULL` in the schema (models.py:23). It is modelled as a
  string, since the manager always passes one.
- The non-empty checks on names, titles and search input live in the user
  interface, not in the manager. They are not part of any contract.
- The `IntegrityError` and rollback branches (note_manager.py:27-29, 47-49)
  are not modelled. The duplicate-name pre-checks make them unreachable
  with a single session.
- The delete-orphan rule for a note detached from its category is not
  modelled. No manager operation detaches a note.
- `__del__` closing the session is not modelled (note_manager.py:136-137).
- SQLite's row-id exhaustion at 2^63-1 is not modelled. Ids are unbounded
  integers.
- Stored rows with ids of 0 or below are outside the model, since they
  arise only in a hand-edited database. `NextRowIdIs` requires every
  stored id to be positive.
- NoteManagement.NoteManager.UpdateNote: on the failed-move path the
  flushed edit is not committed. The model shows the session's view of
  the row. It does not model whether a later commit persists the edit or
  closing the session discards it.
- main.py (a stale console front end), ui.py (table rendering) and
  gui_main.py (the widget front end) are not part of this model.
