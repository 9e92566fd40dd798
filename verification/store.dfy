/**
  The browser storage slot the table lives in, with JSON serialisation
  abstracted away: the slot holds the typed collection itself, or nothing.
 */
module Store {
  import opened Options
  import opened Rows

  /** The state of the single storage key: absent, or the saved collection. */
  datatype Store = Store(slot: Option<seq<Row>>)

  /** A store in which the key was never written. */
  const Empty: Store := Store(None)

  /** Reading the collection: an absent key reads as the empty collection. */
  function Load(st: Store): (rows: seq<Row>)
    ensures st.slot.None? ==> rows == []
  {
    match st.slot
    case None => []
    case Some(rows) => rows
  }

  /** Writing the collection replaces whatever the key held before. */
  function Save(st: Store, rows: seq<Row>): (st': Store)
    ensures Load(st') == rows
    ensures st'.slot.Some?
  {
    Store(Some(rows))
  }

  /** Removing the key: afterwards the store reads as empty. */
  function Clear(st: Store): (st': Store)
    ensures st'.slot.None?
    ensures Load(st') == []
  {
    Empty
  }

  /** A second save does not merge with the first: only the latest collection is read back. */
  lemma SaveOverwrites(st: Store, first: seq<Row>, second: seq<Row>)
    ensures Load(Save(Save(st, first), second)) == second
    ensures Save(Save(st, first), second) == Save(st, second)
  {
  }
}
