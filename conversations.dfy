/** The two read queries of the messenger, stated over the table's rows in id order:
    `get_messages(a, b)` (the thread of a pair) and `get_conversations_for_user(u)`
    (a user's sorted contact list). */
module Conversations {
  import opened Strings
  import opened Schema

  // ---------- get_messages ----------

  /** The rows whose (sender, receiver) is (a, b) or (b, a), in table order. */
  function Thread(rows: seq<Message>, a: string, b: string): (r: seq<Message>)
    ensures forall m :: m in r <==> m in rows && Between(m, a, b)
    ensures IdsAscending(rows) ==> IdsAscending(r)
  {
    if rows == [] then []
    else
      var init, last := rows[..|rows| - 1], rows[|rows| - 1];
      assert rows == init + [last];
      var earlier := Thread(init, a, b);
      assert IdsAscending(rows) ==> forall i :: 0 <= i < |earlier| ==> earlier[i].id < last.id by {
        if IdsAscending(rows) {
          forall i | 0 <= i < |earlier| ensures earlier[i].id < last.id {
            assert earlier[i] in init;
          }
        }
      }
      earlier + (if Between(last, a, b) then [last] else [])
  }

  /** The thread does not depend on which of the two users is named first. */
  lemma {:induction false} ThreadSymmetric(rows: seq<Message>, a: string, b: string)
    ensures Thread(rows, a, b) == Thread(rows, b, a)
  {
    if rows != [] {
      ThreadSymmetric(rows[..|rows| - 1], a, b);
    }
  }

  /** Strictly increasing ids admit one order only: two such lists with the same rows are equal. */
  lemma {:induction false} IdsAscendingUnique(s: seq<Message>, t: seq<Message>)
    requires IdsAscending(s) && IdsAscending(t)
    requires forall m :: m in s <==> m in t
    ensures s == t
  {
    if s == [] {
      assert forall i :: 0 <= i < |t| ==> t[i] !in s;
    } else {
      assert s[0] == t[0] by {
        assert s[0] in t;
        assert t[0] in s;
      }
      assert forall m :: m in s[1..] <==> m in t[1..] by {
        forall m ensures m in s[1..] <==> m in t[1..] {
          if m in s[1..] {
            var i' :| 0 <= i' < |s[1..]| && s[1..][i'] == m;
            assert s[i' + 1] == m && m in t && m != t[0];
            assert t == [t[0]] + t[1..];
          }
          if m in t[1..] {
            var i' :| 0 <= i' < |t[1..]| && t[1..][i'] == m;
            assert t[i' + 1] == m && m in s && m != s[0];
            assert s == [s[0]] + s[1..];
          }
        }
      }
      IdsAscendingUnique(s[1..], t[1..]);
      assert s == [s[0]] + s[1..] && t == [t[0]] + t[1..];
    }
  }

  /** `SELECT * ... WHERE <pair> ORDER BY id ASC` has exactly one answer, and it is `Thread`:
      any id-ordered list holding exactly the pair's rows equals it. */
  lemma ThreadIsOrderedSelection(rows: seq<Message>, a: string, b: string, answer: seq<Message>)
    requires IdsAscending(rows) && IdsAscending(answer)
    requires forall m :: m in answer <==> m in rows && Between(m, a, b)
    ensures answer == Thread(rows, a, b)
  {
    IdsAscendingUnique(answer, Thread(rows, a, b));
  }

  /** Appending a row extends the thread of its own pair by that row and leaves every
      other thread as it was. */
  lemma ThreadAfterAppend(rows: seq<Message>, m: Message, a: string, b: string)
    ensures Thread(rows + [m], a, b) == Thread(rows, a, b) + (if Between(m, a, b) then [m] else [])
  {
    assert (rows + [m])[..|rows|] == rows;
  }

  // ---------- get_conversations_for_user ----------

  /** The `contact` column the SELECT produces before DISTINCT: one entry per row that
      involves `u`, the other party by the CASE rule, in table order. */
  function ContactColumn(rows: seq<Message>, u: string): (r: seq<string>)
    ensures forall c :: c in r <==> exists m :: m in rows && Between(m, u, c)
  {
    if rows == [] then []
    else
      var init, last := rows[..|rows| - 1], rows[|rows| - 1];
      assert rows == init + [last];
      var earlier := ContactColumn(init, u);
      assert forall c :: Between(last, u, c) && Involves(last, u) ==> c == ContactOf(last, u);
      earlier + (if Involves(last, u) then [ContactOf(last, u)] else [])
  }

  /** SELECT DISTINCT: each value once (SQLite promises no order, and none is kept). */
  function Distinct(s: seq<string>): (r: seq<string>)
    ensures forall x :: x in r <==> x in s
    ensures Distinctive(r)
  {
    if s == [] then []
    else
      var rest := Distinct(s[1..]);
      assert s == [s[0]] + s[1..];
      if s[0] in s[1..] then rest
      else
        assert multiset([s[0]] + rest) == multiset{s[0]} + multiset(rest);
        [s[0]] + rest
  }

  /** `get_conversations_for_user(u)`: the DISTINCT contact column, then `contacts.sort()`.
      Strictly increasing, and a name is in it exactly when some row joins it with `u`
      in either direction. */
  function Contacts(rows: seq<Message>, u: string): (r: seq<string>)
    ensures StrictlyAscending(r)
    ensures forall c :: c in r <==> exists m :: m in rows && Between(m, u, c)
  {
    var d := Distinct(ContactColumn(rows, u));
    var r := Sort(d);
    assert Distinctive(r) by {
      assert forall x :: multiset(r)[x] == multiset(d)[x];
    }
    assert forall x :: x in r <==> x in d by {
      forall x ensures x in r <==> x in d {
        assert x in r <==> x in multiset(r);
        assert x in d <==> x in multiset(d);
      }
    }
    AscendingDistinctiveIsStrict(r);
    r
  }

  /** The result is the only strictly increasing list with these members, so it is the
      sorted contact set whatever order DISTINCT returned rows in. */
  lemma ContactsDetermined(rows: seq<Message>, u: string, answer: seq<string>)
    requires StrictlyAscending(answer)
    requires forall c :: c in answer <==> exists m :: m in rows && Between(m, u, c)
    ensures answer == Contacts(rows, u)
  {
    StrictlyAscendingUnique(answer, Contacts(rows, u));
  }

  /** A name is a contact exactly when the two have a non-empty thread. */
  lemma ContactIffThread(rows: seq<Message>, u: string, c: string)
    ensures c in Contacts(rows, u) <==> Thread(rows, u, c) != []
  {
    if Thread(rows, u, c) != [] {
      assert Thread(rows, u, c)[0] in Thread(rows, u, c);
    }
  }

  /** Contacts are mutual: `c` is in `u`'s list exactly when `u` is in `c`'s. */
  lemma ContactsMutual(rows: seq<Message>, u: string, c: string)
    ensures c in Contacts(rows, u) <==> u in Contacts(rows, c)
  {
    ContactIffThread(rows, u, c);
    ContactIffThread(rows, c, u);
    ThreadSymmetric(rows, u, c);
  }

  /** A row a user sent to themself puts that user in their own contact list. */
  lemma SelfMessageIsOwnContact(rows: seq<Message>, m: Message)
    requires m in rows && m.sender == m.receiver
    ensures m.sender in Contacts(rows, m.sender)
  {
    assert Between(m, m.sender, m.sender);
  }

  /** After appending a row, the contacts of `u` are the old ones plus the row's other
      party if the row involves `u`. */
  lemma ContactsAfterAppend(rows: seq<Message>, m: Message, u: string, c: string)
    ensures c in Contacts(rows + [m], u) <==> c in Contacts(rows, u) || (Involves(m, u) && c == ContactOf(m, u))
  {
    var rows' := rows + [m];
    if c in Contacts(rows', u) {
      var n :| n in rows' && Between(n, u, c);
      if n != m {
        assert n in rows;
      }
    }
    if c in Contacts(rows, u) {
      var n :| n in rows && Between(n, u, c);
      assert n in rows';
    }
    if Involves(m, u) && c == ContactOf(m, u) {
      assert m in rows' && Between(m, u, c);
    }
  }
}
