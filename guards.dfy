/** The two places where the page decides whether to append a message: the
    "Add / Open chat" button and the "Send" form. */
module Guards {
  import opened Strings
  import opened Schema
  import opened Conversations
  import opened Store

  /** The placeholder row that makes a new contact appear before anything is said. */
  const StartedMarker: string := "[Started conversation]"

  /** Whether a guarded append was attempted, and what the INSERT reported. */
  datatype GuardOutcome = Skipped | Attempted(status: Status)

  /** "Add / Open chat": append the marker row from `username` to `newContact`, unless
      the contact box is empty or names the user themself. */
  method StartChat(store: MessageStore, username: string, newContact: string, ts: string)
    returns (outcome: GuardOutcome)
    requires store.Valid()
    modifies store
    ensures store.Valid()
    ensures outcome.Skipped? <==> newContact == "" || newContact == username
    ensures outcome.Skipped? ==>
      store.rows == old(store.rows) && store.lastId == old(store.lastId) && store.tableExists == old(store.tableExists)
    ensures outcome == Attempted(Committed) ==>
      && store.rows == old(store.rows) + [Message(store.lastId, username, newContact, StartedMarker, ts)]
      && store.lastId == old(store.lastId) + 1
      && newContact in Contacts(store.rows, username)
    ensures outcome.Attempted? ==>
      outcome.status == (if !old(store.tableExists) then Failed(NoSuchTable)
                         else if old(store.lastId) == MaxRowId then Failed(DatabaseFull)
                         else Committed)
    ensures outcome.Attempted? && outcome.status.Failed? ==>
      store.rows == old(store.rows) && store.lastId == old(store.lastId) && store.tableExists == old(store.tableExists)
  {
    if newContact != "" && newContact != username {
      var status := store.AddMessage(username, newContact, StartedMarker, ts);
      if status == Committed {
        ContactsAfterAppend(old(store.rows), Message(store.lastId, username, newContact, StartedMarker, ts), username, newContact);
      }
      outcome := Attempted(status);
    } else {
      outcome := Skipped;
    }
  }

  /** "Send": append `msg.strip()` from `username` to `contact`, unless it is empty. */
  method Send(store: MessageStore, username: string, contact: string, msg: string, ts: string)
    returns (outcome: GuardOutcome)
    requires store.Valid()
    modifies store
    ensures store.Valid()
    ensures outcome.Skipped? <==> AllSpace(msg)
    ensures outcome.Skipped? ==>
      store.rows == old(store.rows) && store.lastId == old(store.lastId) && store.tableExists == old(store.tableExists)
    ensures outcome == Attempted(Committed) ==>
      && store.rows == old(store.rows) + [Message(store.lastId, username, contact, Strip(msg), ts)]
      && store.lastId == old(store.lastId) + 1
      && Strip(msg) != []
      && Thread(store.rows, username, contact) == Thread(old(store.rows), username, contact) + [store.rows[|store.rows| - 1]]
    ensures outcome.Attempted? ==>
      outcome.status == (if !old(store.tableExists) then Failed(NoSuchTable)
                         else if old(store.lastId) == MaxRowId then Failed(DatabaseFull)
                         else Committed)
    ensures outcome.Attempted? && outcome.status.Failed? ==>
      store.rows == old(store.rows) && store.lastId == old(store.lastId) && store.tableExists == old(store.tableExists)
  {
    var text := Strip(msg);
    if text != "" {
      var status := store.AddMessage(username, contact, text, ts);
      if status == Committed {
        ThreadAfterAppend(old(store.rows), Message(store.lastId, username, contact, text, ts), username, contact);
      }
      outcome := Attempted(status);
    } else {
      outcome := Skipped;
    }
  }
}
