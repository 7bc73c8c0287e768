/** Concrete runs of the store, derived from the contracts alone. */
module Scenarios {
  import opened Strings
  import opened Schema
  import opened Conversations
  import opened Store
  import opened Guards

  /** Messages A→B, C→A and A→D give A the contact list ["B", "C", "D"]. */
  lemma ThreeContactsSorted(ts: string)
    ensures var rows := [Message(1, "A", "B", "x", ts), Message(2, "C", "A", "y", ts), Message(3, "A", "D", "z", ts)];
      Contacts(rows, "A") == ["B", "C", "D"]
  {
    var rows := [Message(1, "A", "B", "x", ts), Message(2, "C", "A", "y", ts), Message(3, "A", "D", "z", ts)];
    var answer := ["B", "C", "D"];
    assert forall c :: c in answer <==> exists m :: m in rows && Between(m, "A", c) by {
      forall c ensures c in answer <==> exists m :: m in rows && Between(m, "A", c) {
        if c in answer {
          assert Between(rows[if c == "B" then 0 else if c == "C" then 1 else 2], "A", c);
        }
      }
    }
    ContactsDetermined(rows, "A", answer);
  }

  /** The first two rows of the alice/bob exchange: a thread of both rows whichever
      user is named first, "bob" as alice's only contact, and nothing left of the
      thread once the conversation is deleted. */
  lemma AliceBobQueries(t1: string, t2: string)
    ensures var rows := [Message(1, "alice", "bob", "hi", t1), Message(2, "bob", "alice", "hello", t2)];
      && Thread(rows, "alice", "bob") == rows
      && Thread(rows, "bob", "alice") == rows
      && Contacts(rows, "alice") == ["bob"]
      && Remaining(rows, "alice", "bob") == []
  {
    var m1, m2 := Message(1, "alice", "bob", "hi", t1), Message(2, "bob", "alice", "hello", t2);
    var rows := [m1, m2];
    ThreadIsOrderedSelection(rows, "alice", "bob", rows);
    ThreadSymmetric(rows, "alice", "bob");
    assert forall c :: c in ["bob"] <==> exists m :: m in rows && Between(m, "alice", c) by {
      forall c ensures c in ["bob"] <==> exists m :: m in rows && Between(m, "alice", c) {
        if c in ["bob"] {
          assert m1 in rows && Between(m1, "alice", c);
        }
      }
    }
    ContactsDetermined(rows, "alice", ["bob"]);
    RemainingIsOrderedSelection(rows, "alice", "bob", []);
  }

  /** Two users exchange two messages on a fresh database: ids 1 and 2. */
  method AliceAndBob(t1: string, t2: string) returns (store: MessageStore)
    ensures fresh(store) && store.Valid() && store.tableExists
    ensures store.rows == [Message(1, "alice", "bob", "hi", t1), Message(2, "bob", "alice", "hello", t2)]
    ensures store.lastId == 2
  {
    store := new MessageStore();
    store.InitDb();
    var s1 := store.AddMessage("alice", "bob", "hi", t1);
    var s2 := store.AddMessage("bob", "alice", "hello", t2);
  }

  /** Deleting their conversation empties the table, and the next message gets id 3:
      deleted ids are not reused. */
  method DeleteThenSend(t1: string, t2: string) returns (store: MessageStore)
    ensures fresh(store) && store.Valid() && store.tableExists
    ensures store.rows == [Message(3, "alice", "carol", "hey", t1)]
    ensures store.lastId == 3
  {
    store := AliceAndBob(t1, t2);
    AliceBobQueries(t1, t2);
    var s3 := store.DeleteConversation("alice", "bob");
    assert s3 == Committed && store.rows == [];
    var s4 := store.AddMessage("alice", "carol", "hey", t1);
  }

  /** " \t" is a blank message for `StartChatThenSend`, and " hi " a message it stores
      as "hi". */
  lemma TypedMessages()
    ensures AllSpace(" \t")
    ensures Strip(" hi ") == "hi"
  {
    assert IsSpace(" \t"[0]) && IsSpace(" \t"[1]);
    HiStripped();
  }

  lemma HiStripped()
    ensures Strip(" hi ") == "hi"
  {
    LeadingBlankDropped();
    TrailingBlankDropped();
    StripUnfold(" hi ");
  }

  lemma LeadingBlankDropped()
    ensures StripStart(" hi ") == "hi "
  {
    var s, t := " hi ", "hi ";
    assert s[0] == ' ' && s[1..] == t;
    assert StripStart(t) == t by { assert t[0] == 'h'; }
  }

  lemma TrailingBlankDropped()
    ensures StripEnd("hi ") == "hi"
  {
    var t := "hi ";
    assert t[|t| - 1] == ' ' && t[..|t| - 1] == "hi";
    assert StripEnd("hi") == "hi" by { assert "hi"[1] == 'i'; }
  }

  /** The marker row and one message from alice make bob alice's only contact. */
  lemma StartedChatContacts(t1: string, t2: string, text: string)
    ensures var rows := [Message(1, "alice", "bob", StartedMarker, t1), Message(2, "alice", "bob", text, t2)];
      Contacts(rows, "alice") == ["bob"]
  {
    var rows := [Message(1, "alice", "bob", StartedMarker, t1), Message(2, "alice", "bob", text, t2)];
    assert forall c :: c in ["bob"] <==> exists m :: m in rows && Between(m, "alice", c) by {
      forall c ensures c in ["bob"] <==> exists m :: m in rows && Between(m, "alice", c) {
        if c in ["bob"] {
          assert rows[0] in rows && Between(rows[0], "alice", c);
        }
      }
    }
    ContactsDetermined(rows, "alice", ["bob"]);
  }

  /** On a fresh database, "Add / Open chat" for bob stores the marker row with id 1. */
  method StartChatWithBob(t1: string) returns (store: MessageStore)
    ensures fresh(store) && store.Valid() && store.tableExists
    ensures store.rows == [Message(1, "alice", "bob", StartedMarker, t1)]
    ensures store.lastId == 1
  {
    store := new MessageStore();
    store.InitDb();
    var o1 := StartChat(store, "alice", "bob", t1);
  }

  /** A blank "Send" after the chat is started, such as " \t", stores nothing. */
  method StartedThenBlank(t1: string, t2: string, blank: string) returns (store: MessageStore)
    requires AllSpace(blank)
    ensures fresh(store) && store.Valid() && store.tableExists
    ensures store.rows == [Message(1, "alice", "bob", StartedMarker, t1)]
    ensures store.lastId == 1
  {
    store := StartChatWithBob(t1);
    var o2 := Send(store, "alice", "bob", blank, t2);
  }

  /** After the chat is started and a blank message is ignored, a message that is not all
      white space, such as " hi ", is stored stripped with id 2, and bob is alice's only
      contact. */
  method StartChatThenSend(t1: string, t2: string, blank: string, typed: string) returns (store: MessageStore)
    requires AllSpace(blank) && !AllSpace(typed)
    ensures fresh(store) && store.Valid()
    ensures store.rows == [Message(1, "alice", "bob", StartedMarker, t1), Message(2, "alice", "bob", Strip(typed), t2)]
    ensures Contacts(store.rows, "alice") == ["bob"]
  {
    store := StartedThenBlank(t1, t2, blank);
    var o3 := Send(store, "alice", "bob", typed, t2);
    StartedChatContacts(t1, t2, Strip(typed));
  }
}
