# Simple Messenger: the message log and its queries

The system is a small Streamlit messenger. Users pick any username. A single SQLite
table `messages(id, sender, receiver, content, ts)` holds every message. Contacts and
conversation threads are never stored. They are recomputed from that table on each page
run. This project models the table and the statements run on it, then proves what each
query returns and how each change of the table affects it.

- `schema.dfy` (module `Schema`): the row type `Message`, the SQLite failures the model
  keeps (`NoSuchTable`, `DatabaseFull`), and the row predicates of the SQL WHERE clauses
  (`Between` for a pair in either direction, `Involves`, the CASE rule `ContactOf`).
- `store.dfy` (module `Store`): class `MessageStore` is the database. It has the
  `tableExists` flag, the `rows` in id order, and `lastId`, which is AUTOINCREMENT's
  high-water mark from `sqlite_sequence`. Its methods are `InitDb` (`init_db`),
  `AddMessage` (`add_message`) and `DeleteConversation` (the inline "Delete conversation"
  statement, written as a loop that rebuilds the row list). Its query functions are
  `GetMessages` and `GetConversationsForUser`. The function `Remaining` states what the
  DELETE leaves, and lemmas prove what that means.
- `conversations.dfy` (module `Conversations`): the queries as functions of the rows.
  `Thread` is `get_messages`. `Contacts` is `get_conversations_for_user`, built in the
  source's own steps: the CASE column (`ContactColumn`), then DISTINCT (`Distinct`), then
  `contacts.sort()` (`Sort`).
- `strings.dfy` (module `Strings`): Python's string ordering, `list.sort()` as an
  insertion sort proved to permute its input into order, and `str.strip()`.
- `guards.dfy` (module `Guards`): the two page handlers that decide whether to append:
  "Add / Open chat" (`StartChat`) and "Send" (`Send`).
- `scenarios.dfy` (module `Scenarios`): small concrete runs proved from the contracts.
  Two users exchange messages, query, delete, and send again. A user starts a chat and
  sends a blank message and then a real one. A user with three partners gets a sorted
  contact list.

Each SQL statement is one atomic change of the class's fields. A statement on a table
that was never created fails with `NoSuchTable`, as SQLite raises "no such table", and
changes nothing. An INSERT after id 2^63-1 has been used fails with `DatabaseFull`
(SQLITE_FULL). Nothing relies on the order of timestamps.

What the code does not do:
- `add_message` checks nothing. The schema's NOT NULL constraints cannot fail for Python
  `str` arguments, so empty sender, receiver or content are stored as given.
- Starting a chat with oneself or with an empty name does nothing: no row and no error.
- The conversation delete reports no count.

`add_message` reads the clock itself (`datetime.utcnow().isoformat()`, app.py:37), and its
callers pass no timestamp. The model makes that reading the `ts` parameter of
`AddMessage`, `StartChat` and `Send`.

## Model

| member | source | states |
|---|---|---|
| Schema.ContactOf | app.py:46-49 | the CASE value of a row involving `u` forms the pair (`u`, contact) in one direction or the other |
| Store.MessageStore.constructor | app.py:11-12 | a fresh database file: no table, no rows, counter 0 |
| Store.MessageStore.InitDb | app.py:16-30 | afterwards the table exists; if it already existed, every row and the AUTOINCREMENT counter are unchanged (idempotent); otherwise the table is empty with counter 0 |
| Store.MessageStore.AddMessage | app.py:32-39 | without a table: fails with NoSuchTable and changes nothing; with the counter at 2^63-1: fails with DatabaseFull and changes nothing; otherwise appends exactly one row holding the given sender, receiver, content and ts, with id one above the counter, so above every id ever assigned including deleted ones; old rows unchanged; ids stay strictly increasing |
| Store.MessageStore.DeleteConversation | app.py:164-170 | without a table: fails and changes nothing; otherwise the rows become `Remaining(old rows, u, c)`; the counter and the table flag are unchanged, so no id is reused |
| Store.MessageStore.GetMessages | app.py:60-71 | fails exactly when the table is missing; otherwise returns in strictly ascending id order exactly the rows whose (sender, receiver) is (a, b) or (b, a) |
| Store.MessageStore.GetConversationsForUser | app.py:41-58 | fails exactly when the table is missing; otherwise strictly ascending (sorted and no duplicates), and `c` is in it iff some row has sender = u and receiver = c, or sender = c and receiver = u |
| Conversations.Thread | app.py:64-69 | a row is in the result iff it is in the table and joins a and b in either direction; ids strictly ascending when the table's are |
| Conversations.ThreadSymmetric | app.py:66-69 | `get_messages(a, b)` equals `get_messages(b, a)` |
| Conversations.ThreadIsOrderedSelection | app.py:65-67 | any id-ordered list holding exactly the pair's rows equals `Thread`, so ORDER BY id fixes the answer |
| Conversations.ThreadAfterAppend | app.py:64-69 | appending a row extends its own pair's thread by that row as the last element and leaves every other thread unchanged |
| Conversations.ContactColumn | app.py:46-51 | the CASE column over the WHERE-selected rows holds `c` iff some row joins u and c in either direction |
| Conversations.Distinct | app.py:46 | DISTINCT keeps exactly the same values, each once |
| Conversations.Contacts | app.py:44-58 | the sorted distinct contact list: strictly ascending, and `c` is in it iff some row has sender = u and receiver = c, or receiver = u and sender = c |
| Conversations.ContactsDetermined | app.py:56-57 | any strictly ascending list with exactly those members equals `Contacts`, whatever order DISTINCT produced |
| Conversations.ContactIffThread | app.py:46-51 | `c` is a contact of `u` iff their thread is non-empty |
| Conversations.ContactsMutual | app.py:46-51 | `c` is in `u`'s contacts iff `u` is in `c`'s |
| Conversations.SelfMessageIsOwnContact | app.py:46-51 | a row a user sent to themself makes that user their own contact |
| Conversations.ContactsAfterAppend | app.py:46-51 | after one append, `u`'s contacts are the old ones plus the row's CASE value if the row involves `u` |
| Store.Remaining | app.py:166-169 | a row survives the DELETE for (a, b) iff it does not join a and b in either direction; id order preserved |
| Store.RemainingIsOrderedSelection | app.py:166-169 | the surviving rows keep their relative order: the only id-ordered list of those rows is `Remaining` |
| Store.RemainingSymmetric | app.py:167-168 | deleting (a, b) and deleting (b, a) leave the same rows |
| Store.ThreadEmptyAfterDelete | app.py:166-169 | afterwards `get_messages(a, b)` is empty |
| Store.OtherThreadsUnchanged | app.py:166-169 | every thread of another pair is the same before and after the DELETE |
| Store.ContactsAfterDelete | app.py:166-169 | afterwards `a`'s contacts are the old ones minus `b`, and `b`'s are the old ones minus `a` |
| Store.NoContactsNothingToDelete | app.py:163-169 | for a user without contacts the DELETE removes nothing, so the `if contacts:` guard changes no table state |
| Guards.StartChat | app.py:88-92 | nothing is appended and nothing changes iff the new contact is empty or equals the username; otherwise the INSERT of (username, new contact, "[Started conversation]") is made: it fails with NoSuchTable without a table, with DatabaseFull at counter 2^63-1, and changes nothing then; otherwise it commits exactly that row with the next id, and the new contact is then in the user's contacts |
| Guards.Send | app.py:143-149 | nothing is appended and nothing changes iff the message is all white space; otherwise the INSERT of (username, contact, `msg.strip()`) is made: it fails with NoSuchTable without a table, with DatabaseFull at counter 2^63-1, and changes nothing then; otherwise it commits exactly that row with the next id, which becomes the last row of their thread |
| Strings.Insert | app.py:57 | inserting into a sorted list keeps it sorted and adds exactly that one element |
| Strings.Sort | app.py:57 | `list.sort()` returns a non-decreasing permutation of its input |
| Strings.AscendingDistinctiveIsStrict | app.py:56-57 | a sorted list without repeats is strictly increasing |
| Strings.StrictlyAscendingUnique | app.py:57 | two strictly increasing lists with the same members are equal |
| Strings.StripStart | app.py:146 | removes exactly the leading white space: the result is a suffix, the cut prefix is all white space, and the result does not start with white space |
| Strings.StripEnd | app.py:146 | removes exactly the trailing white space, symmetrically |
| Strings.Strip | app.py:146-147 | the result is empty iff the message is all white space; otherwise it neither starts nor ends with white space |
| Strings.StripIsSlice | app.py:146-147 | the result is the contiguous slice of the message that starts where its leading white space ends |
| Strings.StripCutsOnlySpace | app.py:146-147 | everything cut away before and after that slice is white space |
| Strings.StripIdempotent | app.py:146-147 | stripping twice equals stripping once, so the stored text is already stripped |
| Scenarios.ThreeContactsSorted | app.py:44-57 | messages A→B, C→A, A→D give A the contact list ["B", "C", "D"] |
| Scenarios.AliceBobQueries | app.py:60-71 | after alice→bob and bob→alice, either thread order gives both rows in id order, alice's contacts are ["bob"], and the delete leaves no rows |
| Scenarios.AliceAndBob | app.py:32-39 | on a fresh database, init and two inserts give ids 1 and 2 and exactly those two rows |
| Scenarios.DeleteThenSend | app.py:164-170 | deleting alice's only conversation empties the table, and alice's next message gets id 3, not 1: deleted ids are not reused |
| Scenarios.TypedMessages | app.py:146-147 | " \t" is all white space, and " hi " strips to "hi" |
| Scenarios.StartedChatContacts | app.py:44-57 | with the marker row and one message from alice to bob in the table, bob is alice's only contact |
| Scenarios.StartChatWithBob | app.py:88-91 | on a fresh database, "Add / Open chat" for bob stores exactly the marker row, with id 1 |
| Scenarios.StartedThenBlank | app.py:146-147 | after that, a "Send" of any all-white-space text stores nothing and leaves the counter at 1 |
| Scenarios.StartChatThenSend | app.py:143-149 | then a "Send" of any text that is not all white space stores its strip with id 2, and bob is alice's only contact |

## Left out

- The Streamlit page (app.py:74-175): layout, sidebar widgets, `st.session_state`,
  `st.stop`, reruns, forms, columns and captions. This is presentation. The model keeps
  only the guards that decide whether a row is appended or deleted.
- HTML rendering and `st._cc.escape_html` (app.py:117-139). These are foreign library
  calls with no logic of their own here.
- The connection, `@st.experimental_singleton` caching and `conn.commit()` (app.py:10-14).
  Each statement is modelled as one atomic change of the in-memory table.
- `datetime.utcnow().isoformat()` (app.py:37). It reads the wall clock, so the timestamp is
  a parameter.
- Timestamp display slicing and the details panel (app.py:122, app.py:134, app.py:155-157).
  These are display only.
- Concurrent sessions and `check_same_thread=False` (app.py:12). The model is sequential.
- SQLite failures other than a missing table and an exhausted AUTOINCREMENT counter, such
  as I/O errors, locks or a full disk. These come from the environment, not from this code.
- `Strings.IsSpace` lists the characters for which Python's `str.isspace()` holds under the
  Unicode data current Python versions ship. A different Unicode version could change the
  list.
