/** The SQLite database behind the messenger, reduced to its one table: whether
    `messages` exists, its rows in id order, and the AUTOINCREMENT high-water mark
    that SQLite keeps in `sqlite_sequence`. */
module Store {
  import opened Strings
  import opened Schema
  import opened Conversations

  // ---------- the conversation DELETE, as a function of the rows ----------

  /** The rows the conversation DELETE for (a, b) leaves behind, in their old order. */
  function Remaining(rows: seq<Message>, a: string, b: string): (r: seq<Message>)
    ensures forall m :: m in r <==> m in rows && !Between(m, a, b)
    ensures IdsAscending(rows) ==> IdsAscending(r)
  {
    if rows == [] then []
    else
      var init, last := rows[..|rows| - 1], rows[|rows| - 1];
      assert rows == init + [last];
      var earlier := Remaining(init, a, b);
      assert IdsAscending(rows) ==> forall i :: 0 <= i < |earlier| ==> earlier[i].id < last.id by {
        if IdsAscending(rows) {
          forall i | 0 <= i < |earlier| ensures earlier[i].id < last.id {
            assert earlier[i] in init;
          }
        }
      }
      earlier + (if Between(last, a, b) then [] else [last])
  }

  /** What the DELETE leaves is the only id-ordered list of the rows outside the pair:
      every surviving row keeps its place relative to the others. */
  lemma RemainingIsOrderedSelection(rows: seq<Message>, a: string, b: string, answer: seq<Message>)
    requires IdsAscending(rows) && IdsAscending(answer)
    requires forall m :: m in answer <==> m in rows && !Between(m, a, b)
    ensures answer == Remaining(rows, a, b)
  {
    IdsAscendingUnique(answer, Remaining(rows, a, b));
  }

  /** Deleting (a, b) and deleting (b, a) remove the same rows. */
  lemma {:induction false} RemainingSymmetric(rows: seq<Message>, a: string, b: string)
    ensures Remaining(rows, a, b) == Remaining(rows, b, a)
  {
    if rows != [] {
      RemainingSymmetric(rows[..|rows| - 1], a, b);
    }
  }

  /** After the DELETE the pair has no thread left. */
  lemma {:induction false} ThreadEmptyAfterDelete(rows: seq<Message>, a: string, b: string)
    ensures Thread(Remaining(rows, a, b), a, b) == []
  {
    if rows != [] {
      var init, last := rows[..|rows| - 1], rows[|rows| - 1];
      var rest := Remaining(init, a, b);
      ThreadEmptyAfterDelete(init, a, b);
      if Between(last, a, b) {
        assert Remaining(rows, a, b) == rest;
      } else {
        assert Remaining(rows, a, b) == rest + [last];
        ThreadAfterAppend(rest, last, a, b);
      }
    }
  }

  /** The DELETE for (a, b) changes no other pair's thread. */
  lemma {:induction false} OtherThreadsUnchanged(rows: seq<Message>, a: string, b: string, x: string, y: string)
    requires !((x == a && y == b) || (x == b && y == a))
    ensures Thread(Remaining(rows, a, b), x, y) == Thread(rows, x, y)
  {
    if rows != [] {
      var init, last := rows[..|rows| - 1], rows[|rows| - 1];
      var rest := Remaining(init, a, b);
      OtherThreadsUnchanged(init, a, b, x, y);
      if Between(last, a, b) {
        assert !Between(last, x, y);
        assert Remaining(rows, a, b) == rest;
      } else {
        assert Remaining(rows, a, b) == rest + [last];
        ThreadAfterAppend(rest, last, x, y);
      }
    }
  }

  /** After the DELETE, `a`'s contacts are the old ones without `b`, and `b`'s are
      the old ones without `a`. */
  lemma ContactsAfterDelete(rows: seq<Message>, a: string, b: string, c: string)
    ensures c in Contacts(Remaining(rows, a, b), a) <==> c in Contacts(rows, a) && c != b
    ensures c in Contacts(Remaining(rows, a, b), b) <==> c in Contacts(rows, b) && c != a
  {
    var rest := Remaining(rows, a, b);
    ContactIffThread(rest, a, c);
    ContactIffThread(rows, a, c);
    ContactIffThread(rest, b, c);
    ContactIffThread(rows, b, c);
    if c == b {
      ThreadEmptyAfterDelete(rows, a, b);
    } else {
      OtherThreadsUnchanged(rows, a, b, a, c);
    }
    if c == a {
      RemainingSymmetric(rows, a, b);
      ThreadEmptyAfterDelete(rows, b, a);
    } else {
      OtherThreadsUnchanged(rows, a, b, b, c);
    }
  }

  /** The DELETE removes nothing for a user who has no contacts, so guarding it with
      `if contacts:` changes no table state. */
  lemma NoContactsNothingToDelete(rows: seq<Message>, u: string, c: string)
    requires Contacts(rows, u) == []
    ensures Remaining(rows, u, c) == rows
  {
    assert c !in Contacts(rows, u);
    assert forall i :: 0 <= i < |rows| ==> rows[i] in rows;
    RemainingAllKept(rows, u, c);
  }

  lemma {:induction false} RemainingAllKept(rows: seq<Message>, a: string, b: string)
    requires forall i :: 0 <= i < |rows| ==> !Between(rows[i], a, b)
    ensures Remaining(rows, a, b) == rows
  {
    if rows != [] {
      var init, last := rows[..|rows| - 1], rows[|rows| - 1];
      SplitLast(rows);
      assert forall i :: 0 <= i < |init| ==> init[i] == rows[i];
      RemainingAllKept(init, a, b);
    }
  }

  // ---------- the table ----------

  class MessageStore {
    /** Whether `CREATE TABLE messages` has run. */
    var tableExists: bool
    /** The rows of `messages`, in rowid order. */
    var rows: seq<Message>
    /** AUTOINCREMENT's `sqlite_sequence` entry: the largest id ever assigned, 0 if none. */
    var lastId: nat

    /** No rows without a table; ids positive, strictly increasing, and never above the
        high-water mark, which itself stays within SQLite's rowid range. */
    ghost predicate Valid()
      reads this
    {
      && (!tableExists ==> rows == [] && lastId == 0)
      && lastId <= MaxRowId
      && IdsAscending(rows)
      && (forall i :: 0 <= i < |rows| ==> 0 < rows[i].id <= lastId)
    }

    /** A database file in which the table has not been created yet. */
    constructor ()
      ensures Valid()
      ensures !tableExists && rows == [] && lastId == 0
    {
      tableExists := false;
      rows := [];
      lastId := 0;
    }

    /** `init_db`: CREATE TABLE IF NOT EXISTS. An existing table, its rows and its
        counter are left exactly as they were. */
    method InitDb()
      requires Valid()
      modifies this
      ensures Valid()
      ensures tableExists
      ensures old(tableExists) ==> rows == old(rows) && lastId == old(lastId)
      ensures !old(tableExists) ==> rows == [] && lastId == 0
    {
      if !tableExists {
        tableExists := true;
        rows := [];
        lastId := 0;
      }
    }

    /** `add_message`: INSERT one row with a fresh AUTOINCREMENT id, one above every id
        ever handed out (deleted rows included). The row's fields are stored as given. */
    method AddMessage(sender: string, receiver: string, content: string, ts: string) returns (status: Status)
      requires Valid()
      modifies this
      ensures Valid()
      ensures !old(tableExists) ==> status == Failed(NoSuchTable)
      ensures old(tableExists) && old(lastId) == MaxRowId ==> status == Failed(DatabaseFull)
      ensures status.Failed? ==> rows == old(rows) && lastId == old(lastId) && tableExists == old(tableExists)
      ensures status == Committed <==> old(tableExists) && old(lastId) < MaxRowId
      ensures status == Committed ==>
        && tableExists
        && lastId == old(lastId) + 1
        && rows == old(rows) + [Message(lastId, sender, receiver, content, ts)]
        && (forall m :: m in old(rows) ==> m.id < lastId)
    {
      if !tableExists {
        return Failed(NoSuchTable);
      }
      if lastId == MaxRowId {
        return Failed(DatabaseFull);
      }
      lastId := lastId + 1;
      rows := rows + [Message(lastId, sender, receiver, content, ts)];
      status := Committed;
    }

    /** The inline "Delete conversation" statement: DELETE every row between `u` and `c`,
        in either direction. The high-water mark stays, so no id is ever reused. */
    method DeleteConversation(u: string, c: string) returns (status: Status)
      requires Valid()
      modifies this
      ensures Valid()
      ensures tableExists == old(tableExists) && lastId == old(lastId)
      ensures status == (if old(tableExists) then Committed else Failed(NoSuchTable))
      ensures rows == Remaining(old(rows), u, c)
    {
      if !tableExists {
        return Failed(NoSuchTable);
      }
      var kept: seq<Message> := [];
      var i := 0;
      while i < |rows|
        invariant 0 <= i <= |rows|
        invariant kept == Remaining(rows[..i], u, c)
      {
        assert rows[..i + 1][..i] == rows[..i];
        if !Between(rows[i], u, c) {
          kept := kept + [rows[i]];
        }
        i := i + 1;
      }
      assert rows[..i] == rows;
      forall k | 0 <= k < |kept| ensures 0 < kept[k].id <= lastId {
        assert kept[k] in rows;
      }
      rows := kept;
      status := Committed;
    }

    /** `get_messages(a, b)`: the pair's rows in either direction, ascending by id. */
    function GetMessages(a: string, b: string): (r: Result<seq<Message>>)
      reads this
      requires Valid()
      ensures r.Ok? <==> tableExists
      ensures r.Ok? ==> IdsAscending(r.value)
      ensures r.Ok? ==> forall m :: m in r.value <==> m in rows && Between(m, a, b)
    {
      if tableExists then Ok(Thread(rows, a, b)) else Err(NoSuchTable)
    }

    /** `get_conversations_for_user(u)`: every name that shares a row with `u`, once each,
        in ascending order. */
    function GetConversationsForUser(u: string): (r: Result<seq<string>>)
      reads this
      requires Valid()
      ensures r.Ok? <==> tableExists
      ensures r.Ok? ==> StrictlyAscending(r.value)
      ensures r.Ok? ==> forall c :: c in r.value <==> exists m :: m in rows && Between(m, u, c)
    {
      if tableExists then Ok(Contacts(rows, u)) else Err(NoSuchTable)
    }
  }
}
