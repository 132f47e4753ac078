/** The two tables of the note store, `categories` and `notes`, as records,
    and the constraints the schema declares on them. */
module Models {

  datatype Option<+T> = None | Some(value: T)

  /** Python truthiness of an optional id: both `None` and `0` are false. */
  predicate Truthy(o: Option<int>)
  {
    o.Some? && o.value != 0
  }

  /** A reading of the logical clock that stands for `datetime.now()`. */
  type Timestamp = nat

  /** A row of `categories`. */
  datatype Category = Category(id: int, name: string)

  /** A row of `notes`; `categoryId` is the foreign key into `categories`. */
  datatype Note = Note(
    id: int,
    title: string,
    content: string,
    createdAt: Timestamp,
    updatedAt: Timestamp,
    categoryId: int)

  /** `name` is declared unique: no two categories share a name. */
  ghost predicate NamesUnique(categories: map<int, string>)
  {
    forall a, b :: a in categories && b in categories && a != b ==> categories[a] != categories[b]
  }

  /** Some category already holds `name`. */
  predicate NameTaken(categories: map<int, string>, name: string)
  {
    exists id | id in categories :: categories[id] == name
  }

  /** Each note row is stored under its own primary key. */
  ghost predicate NotesKeyed(notes: map<int, Note>)
  {
    forall id :: id in notes ==> notes[id].id == id
  }

  /** `category_id` is non-null and references a live category. */
  ghost predicate ReferencesLive(categories: map<int, string>, notes: map<int, Note>)
  {
    forall id :: id in notes ==> notes[id].categoryId in categories
  }

  /** Both timestamps default to the creation time, `updated_at` is only ever
      refreshed, and no timestamp lies ahead of the clock. */
  ghost predicate TimesBounded(notes: map<int, Note>, clock: Timestamp)
  {
    forall id :: id in notes ==> notes[id].createdAt <= notes[id].updatedAt <= clock
  }

  /** `next` is the rowid the table gives its next row: one past the largest
      rowid, or 1 when the table is empty. The integer
      primary key is the table's rowid, so ids handed out this way are positive. */
  ghost predicate NextRowIdIs<T>(rows: map<int, T>, next: int)
  {
    && next >= 1
    && (forall id :: id in rows ==> 1 <= id < next)
    && (next > 1 ==> next - 1 in rows)
  }

  /** Everything the schema guarantees about a state of the two tables. */
  ghost predicate Consistent(categories: map<int, string>, notes: map<int, Note>, clock: Timestamp)
  {
    && NamesUnique(categories)
    && NotesKeyed(notes)
    && ReferencesLive(categories, notes)
    && TimesBounded(notes, clock)
  }

  /** Storing a note under its own id, in a live category and with its
      timestamps ordered and not ahead of the clock, keeps every constraint;
      the clock may move forward meanwhile. */
  lemma StoreNoteKeepsConsistent(categories: map<int, string>, notes: map<int, Note>, clock: Timestamp,
                                 n: Note, clock': Timestamp)
    requires Consistent(categories, notes, clock)
    requires clock <= clock'
    requires n.categoryId in categories && n.createdAt <= n.updatedAt <= clock'
    ensures Consistent(categories, notes[n.id := n], clock')
  {
  }

  /** The notes that survive when a category is deleted: the relationship
      cascades, so every note of that category goes with it. */
  function WithoutCategory(notes: map<int, Note>, categoryId: int): (r: map<int, Note>)
    ensures r.Keys <= notes.Keys
    ensures forall id :: id in r ==> r[id] == notes[id] && r[id].categoryId != categoryId
    ensures forall id :: id in notes && notes[id].categoryId != categoryId ==> id in r
  {
    map id | id in notes && notes[id].categoryId != categoryId :: notes[id]
  }

  /** Deleting a live category together with its notes leaves no note
      without a parent and keeps every other constraint. */
  lemma CascadeKeepsConsistent(categories: map<int, string>, notes: map<int, Note>, clock: Timestamp, categoryId: int)
    requires Consistent(categories, notes, clock)
    ensures Consistent(categories - {categoryId}, WithoutCategory(notes, categoryId), clock)
  {
  }

  /** A category that does not exist owns no notes, so the cascade removes nothing. */
  lemma CascadeOfUnknownCategory(categories: map<int, string>, notes: map<int, Note>, categoryId: int)
    requires ReferencesLive(categories, notes)
    requires categoryId !in categories
    ensures WithoutCategory(notes, categoryId) == notes
  {
    var r := WithoutCategory(notes, categoryId);
    assert r.Keys == notes.Keys by {
      forall id | id in notes ensures id in r {
        assert notes[id].categoryId in categories;
      }
    }
  }
}
