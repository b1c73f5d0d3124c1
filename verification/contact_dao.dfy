/** `ContactDAO`: the four Room operations over the `Contacts` table.

    None of their behaviour is written out in the app; it follows from the
    annotations, and this module states those consequences as a model:
    - `@Insert` runs `INSERT OR ABORT ... VALUES (nullif(?, 0), ...)`. An id
      of 0 becomes NULL and SQLite's AUTOINCREMENT assigns one greater than
      any id the table has ever held (the `sqlite_sequence` entry, kept here
      as `sequence`); an id already present violates the primary key and
      aborts with nothing written.
    - `@Update` and `@Delete` match the row by primary key only.
    - `@Query("SELECT * from Contacts")` has no ORDER BY, so the rows come
      back in an order the model leaves open. */
module ContactDao {
  import opened Wrappers
  import opened Contacts

  datatype Table = Table(rows: map<int, Contact>, sequence: int)

  /** A freshly created database. */
  const Empty: Table := Table(map[], 0)

  /** Every row is stored under its own id, the id 0 is never stored (Room
      turns it into "generate one"), and `sequence` bounds every id. */
  ghost predicate Valid(t: Table) {
    && t.sequence >= 0
    && Unassigned !in t.rows
    && forall k :: k in t.rows ==> t.rows[k].id == k && k <= t.sequence
  }

  /** The records a query observes, as a set. */
  function Records(t: Table): set<Contact> {
    set k | k in t.rows :: t.rows[k]
  }

  /** When every row sits under its own id, a record is stored exactly when
      its id maps to it. */
  lemma RecordsByKey(rows: map<int, Contact>, sequence: int)
    requires forall k :: k in rows ==> rows[k].id == k
    ensures forall x :: x in Records(Table(rows, sequence)) <==> x.id in rows && rows[x.id] == x
  {
  }

  lemma EmptyIsValid()
    ensures Valid(Empty) && Records(Empty) == {}
  {
  }

  /** The primary key makes ids unique: two stored records with the same id
      are the same record. */
  lemma StoredIdsAreUnique(t: Table, a: Contact, b: Contact)
    requires Valid(t)
    requires a in Records(t) && b in Records(t)
    ensures a.id == b.id ==> a == b
    ensures a in Records(t) <==> a.id in t.rows && t.rows[a.id] == a
  {
  }

  /** The outcome of `addContact`: the table afterwards and the id of the new
      row, or `None` when the insert aborted. */
  datatype InsertResult = InsertResult(table: Table, rowId: Option<int>)

  /** `addContact(contact)`. */
  function AddContact(t: Table, c: Contact): (r: InsertResult)
    requires Valid(t)
    ensures Valid(r.table)
    // the AUTOINCREMENT high-water mark never goes down, so no id is reused
    ensures r.table.sequence >= t.sequence
    ensures r.rowId.Some? ==> r.table.sequence >= r.rowId.value
    // an id already present aborts and leaves the table as it was
    ensures r.rowId.None? <==> c.id != Unassigned && c.id in t.rows
    ensures r.rowId.None? ==> r.table == t
    // otherwise exactly one new row, under an id not present before, and
    // holding the given fields; every other row is untouched
    ensures r.rowId.Some? ==>
              var id := r.rowId.value;
              && id != Unassigned && id !in t.rows
              && (c.id != Unassigned ==> id == c.id)
              && (c.id == Unassigned ==> id > t.sequence)
              && r.table.rows == t.rows[id := c.(id := id)]
              && Records(r.table) == Records(t) + {c.(id := id)}
  {
    if c.id == Unassigned then
      var id := t.sequence + 1;
      var stored := c.(id := id);
      var rows := t.rows[id := stored];
      RecordsByKey(t.rows, t.sequence);
      RecordsByKey(rows, id);
      assert Records(Table(rows, id)) == Records(t) + {stored};
      InsertResult(Table(rows, id), Some(id))
    else if c.id in t.rows then
      InsertResult(t, None)
    else
      var rows := t.rows[c.id := c];
      assert c.(id := c.id) == c;
      RecordsByKey(t.rows, t.sequence);
      RecordsByKey(rows, t.sequence);
      assert Records(Table(rows, t.sequence)) == Records(t) + {c};
      InsertResult(Table(rows, if c.id > t.sequence then c.id else t.sequence), Some(c.id))
  }

  /** `updateContact(contact)`: replaces the row with the same id and reports
      how many rows changed. */
  function UpdateContact(t: Table, c: Contact): (r: (Table, int))
    requires Valid(t)
    ensures Valid(r.0)
    ensures r.0.sequence == t.sequence
    ensures r.1 == 1 <==> c.id in t.rows
    ensures r.1 == 0 <==> c.id !in t.rows
    ensures c.id !in t.rows ==> r.0 == t
    ensures c.id in t.rows ==>
              && r.0.rows.Keys == t.rows.Keys
              && r.0.rows[c.id] == c
              && forall k :: k in t.rows && k != c.id ==> r.0.rows[k] == t.rows[k]
  {
    if c.id in t.rows then (Table(t.rows[c.id := c], t.sequence), 1)
    else (t, 0)
  }

  /** `deleteContact(contact)`: removes the row whose id is `contact.id`; the
      other fields of the argument play no part. */
  function DeleteContact(t: Table, c: Contact): (r: Table)
    requires Valid(t)
    ensures Valid(r)
    ensures r.sequence == t.sequence
    ensures c.id !in r.rows
    ensures r.rows.Keys == t.rows.Keys - {c.id}
    ensures forall k :: k in r.rows ==> r.rows[k] == t.rows[k]
    ensures c.id !in t.rows ==> r == t
    ensures c.id in t.rows ==> Records(r) == Records(t) - {t.rows[c.id]}
  {
    var r := Table(t.rows - {c.id}, t.sequence);
    if c.id in t.rows then
      RecordsByKey(t.rows, t.sequence);
      RecordsByKey(r.rows, r.sequence);
      assert Records(r) == Records(t) - {t.rows[c.id]};
      r
    else
      assert t.rows - {c.id} == t.rows;
      r
  }

  /** Deleting twice is deleting once, whichever record value names the id. */
  lemma DeleteIsIdempotent(t: Table, c: Contact, d: Contact)
    requires Valid(t)
    requires c.id == d.id
    ensures DeleteContact(DeleteContact(t, c), d) == DeleteContact(t, c)
  {
  }

  /** `getAllContacts()`: one snapshot of the query. Every stored record
      appears exactly once and nothing else appears; the order is whatever
      the loop happens to pick, standing for SQLite's unspecified order. */
  method GetAllContacts(t: Table) returns (list: seq<Contact>)
    requires Valid(t)
    ensures |list| == |t.rows|
    ensures forall c :: c in list <==> c in Records(t)
    ensures forall i, j :: 0 <= i < j < |list| ==> list[i].id != list[j].id
  {
    var pending := t.rows.Keys;
    list := [];
    while pending != {}
      invariant pending <= t.rows.Keys
      invariant forall c :: c in list ==> c in Records(t) && c.id !in pending
      invariant forall k :: k in t.rows && k !in pending ==> t.rows[k] in list
      invariant forall i, j :: 0 <= i < j < |list| ==> list[i].id != list[j].id
      invariant |list| + |pending| == |t.rows.Keys|
      decreases pending
    {
      if forall x :: x !in pending {
        assert false;
      }
      var k :| k in pending;
      list := list + [t.rows[k]];
      pending := pending - {k};
    }
  }
}
