/** The `messages` table: its row type, the errors SQLite reports on it, and the
    row predicates the SQL statements use. */
module Schema {

  /** The largest rowid SQLite can hand out (a signed 64-bit integer); once AUTOINCREMENT
      has used it, every further INSERT fails with SQLITE_FULL. */
  const MaxRowId: nat := 0x7FFF_FFFF_FFFF_FFFF

  /** One row `(id, sender, receiver, content, ts)`. The timestamp is whatever text
      the caller supplied; nothing here orders by it. */
  datatype Message = Message(id: nat, sender: string, receiver: string, content: string, ts: string)

  /** Failures SQLite raises on this table: the table was never created, or the
      AUTOINCREMENT counter is exhausted. */
  datatype StoreError = NoSuchTable | DatabaseFull

  /** The outcome of a statement that changes the table. */
  datatype Status = Committed | Failed(error: StoreError)

  /** The outcome of a query. */
  datatype Result<T> = Ok(value: T) | Err(error: StoreError)

  /** `(sender = a AND receiver = b) OR (sender = b AND receiver = a)`: the WHERE clause
      shared by the thread query and the conversation DELETE. */
  predicate Between(m: Message, a: string, b: string)
  {
    (m.sender == a && m.receiver == b) || (m.sender == b && m.receiver == a)
  }

  /** `sender = u OR receiver = u`: the WHERE clause of the contact query. */
  predicate Involves(m: Message, u: string)
  {
    m.sender == u || m.receiver == u
  }

  /** `CASE WHEN sender = u THEN receiver ELSE sender END`: the other party of a row. */
  function ContactOf(m: Message, u: string): (c: string)
    ensures Involves(m, u) ==> Between(m, u, c)
  {
    if m.sender == u then m.receiver else m.sender
  }

  /** Rows in strictly increasing id order, as a rowid table keeps them. */
  predicate IdsAscending(rows: seq<Message>)
  {
    forall i, j :: 0 <= i < j < |rows| ==> rows[i].id < rows[j].id
  }

  /** A non-empty list is its prefix followed by its last element. */
  lemma SplitLast<T>(s: seq<T>)
    requires s != []
    ensures s == s[..|s| - 1] + [s[|s| - 1]]
  {
  }
}
