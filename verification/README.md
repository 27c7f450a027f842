# Reminder table: a Dafny model

This project models the reminder service in `reminder_app.py`. It covers the
`reminders` table and the three things the program does to it:

- **create** inserts a row behind a bearer-token check;
- **one scheduler cycle** marks every due `pending` row as `triggered`;
- **list** returns every row, newest id first.

The table is an immutable value, `Reminders.Table`. It holds a sequence of rows
`{id, title, trigger_time, sound, status}` and the next value of the `SERIAL`
id sequence. Every operation is a pure function on that value.

Files and modules:

- `reminders.dfy`, module `Reminders`: the row and table types, the table
  invariant `Valid` (ids unique, positive and below the sequence's next value),
  the empty table after `CREATE TABLE`, and the insert done by the create handler.
- `text_order.dfy`, module `TextOrder`: the text comparison behind
  `trigger_time <= now`. Both sides are strings. `trigger_time` is a TEXT column
  and `now` is `datetime.now().isoformat()`. The comparison is lexicographic
  order on code points. The module proves this is a total order and that it
  matches the usual "first differing character" definition.
- `scheduler.dfy`, module `Scheduler`: one cycle of the scheduler. `Cycle` is
  built the way the program runs: a `SELECT` of the due rows (`Select`), then one
  `UPDATE ... WHERE id = ...` per fetched row (`ApplyUpdates` over `SetStatus`).
  `Fire` is a separate row-by-row reference. The lemmas show the two agree when
  ids are unique, then derive exactness, the frame, monotonicity, "nothing due
  afterwards", idempotence, and that a later cycle absorbs an earlier one. `Scan`
  is the loop form: it also returns the titles it logs as alarms, and it is
  proved equal to `Cycle`.
- `listing.dfy`, module `Listing`: `ORDER BY id DESC`, written as an insertion
  sort. On a valid table the result holds every row exactly once, with strictly
  decreasing ids. That arrangement is the only one possible. Right after an
  insert, the new row comes first.
- `auth.dfy`, module `Auth`: the `token_required` gate and the guarded create
  handler. `Split` is Python's `str.split(" ")`, proved to round-trip with
  `Join`. The token is the second piece of the `Authorization` header. A missing
  header or an empty token gives 401. A token that does not decode gives 401. Only
  otherwise does the insert run, and it fails with 500 when the title or trigger
  time holds a NUL character, which the database driver refuses. JWT decoding is
  the function parameter `decodes`.

About the text comparison: the due test compares strings, not instants.
`Scheduler.TextOrderIsNotTimeOrder` shows one consequence. A trigger time written
as `2025-01-01 10:00:00` (with a space) is already due when `now` is
`2025-01-01T09:00:00`, because `' '` sorts before `'T'`. The program stores
whatever text the client sends, so this is how it behaves. The model keeps that
behaviour.

Where the code and the system's wider design differ, the model follows the code:

- the only status change is `pending` to `triggered`, because this file has no
  completion route;
- nothing checks the title or the trigger time when a reminder is created;
- `sound` is never written, so it stays NULL (there is no `"default"`);
- the list is ordered by id.

## Model

| member | source | states |
|---|---|---|
| Reminders.Empty | reminder_app.py:49-56 | the freshly created table is empty, satisfies the table invariant, and its id sequence starts at 1 |
| Reminders.Insert | reminder_app.py:113-116 | create appends exactly one row with the given title and trigger_time, a NULL sound and status 'pending'. Earlier rows are unchanged. Its id is larger than every existing id, and the table invariant is kept |
| Reminders.InsertedIdIsFresh | reminder_app.py:113-116 | the id the insert returns was not in use, it is the new row's id, and after the insert it names only the new row |
| TextOrder.LexLeMeansSpec | reminder_app.py:139 | the recursive text comparison used for `trigger_time <= now` holds iff one text is a prefix of the other, or the first differing character is smaller (both directions) |
| TextOrder.FirstDifferenceDecides | reminder_app.py:139 | two texts that agree up to a position and differ there are ordered by the characters at that position |
| TextOrder.LexLeReflexive | reminder_app.py:139 | every text is `<=` itself, so a trigger time equal to `now` is due |
| TextOrder.LexLeTotal | reminder_app.py:139 | any two texts are comparable |
| TextOrder.LexLeAntisymmetric | reminder_app.py:139 | texts that are `<=` each other are equal |
| TextOrder.LexLeTransitive | reminder_app.py:139 | the comparison is transitive |
| Scheduler.Select | reminder_app.py:139 | the scan query returns exactly the rows that are pending with trigger_time `<=` now: each returned row is such a row of the table, and each such row is returned |
| Scheduler.SelectCountsEachDueRowOnce | reminder_app.py:139 | the scan returns each due row exactly as many times as it occurs in the table (once, for distinct rows) and no other row |
| Scheduler.ApplyUpdates | reminder_app.py:140-143 | after the per-row updates, a row is triggered iff its id was among the fetched ids. Otherwise it is unchanged, whatever the order of the updates |
| Scheduler.Cycle | reminder_app.py:138-143 | a cycle keeps the number and order of rows, and every id, title, trigger_time and sound. Every status is either unchanged or 'triggered' |
| Scheduler.CycleKeepsDistinctIds | reminder_app.py:51 | a cycle keeps ids unique, since it never changes an id |
| Scheduler.SelectedIdsAreDueRows | reminder_app.py:139-142 | with unique ids, a row's id is among the selected ids iff that row is due |
| Scheduler.CycleIsPointwise | reminder_app.py:138-142 | given only unique ids (the primary key), each row's outcome is the reference `Fire(row, now)`: it depends only on the row and the single `now` of the cycle, not on its position or on other rows |
| Scheduler.CycleTriggersExactlyDue | reminder_app.py:139-142 | a row changes iff it is pending with trigger_time `<=` now, and every such row becomes 'triggered' |
| Scheduler.CycleIsMonotone | reminder_app.py:142 | a cycle never moves a row into 'pending'. Every status change it makes is 'pending' to 'triggered' |
| Scheduler.CyclePreservesValid | reminder_app.py:139-142 | a cycle keeps the table invariant (unique ids below the sequence value) |
| Scheduler.CycleLeavesNothingDue | reminder_app.py:138-142 | after a cycle at `now`, no row is pending with trigger_time `<=` now |
| Scheduler.CycleAbsorbsEarlier | reminder_app.py:138-142 | a cycle at `a` followed by a cycle at a text-later `b` gives the same table as one cycle at `b` |
| Scheduler.CycleIsIdempotent | reminder_app.py:138-142 | a second cycle with the same `now` changes nothing |
| Scheduler.UpdateOrderIrrelevant | reminder_app.py:140-143 | the order in which the store returns the due rows does not affect the result. Only the set of their ids matters |
| Scheduler.NewReminderFiresWhenDue | reminder_app.py:113-116 | a newly created reminder is triggered by a cycle iff its trigger_time is `<=` that cycle's `now`, and its creation does not change what the cycle does to the older rows |
| Scheduler.EarlierReminderIsDue | reminder_app.py:139 | a pending reminder ten seconds before the scan time is selected |
| Scheduler.ReminderAtScanTimeIsDue | reminder_app.py:139 | a pending reminder exactly at the scan time is selected |
| Scheduler.LaterReminderIsNotDue | reminder_app.py:139 | a pending reminder ten seconds after the scan time is not selected |
| Scheduler.TextOrderIsNotTimeOrder | reminder_app.py:53 | because trigger_time is text, a space-separated trigger time an hour in the future is already due against an isoformat `now` |
| Scheduler.FetchDue | reminder_app.py:139 | the loop over the table collects exactly the rows the scan query returns, in table order |
| Scheduler.TriggerAll | reminder_app.py:140-143 | the loop over the fetched rows applies one status update per row, giving the result of `ApplyUpdates`, and logs each fetched title in order |
| Scheduler.Scan | reminder_app.py:138-143 | the loop (select, then log and update each fetched row) produces exactly the table of one `Cycle`, and logs the fetched rows' titles in fetch order |
| Listing.InsertByIdDesc | reminder_app.py:126 | inserting into an id-descending list keeps it descending and adds exactly that row (multiset) |
| Listing.List | reminder_app.py:126 | the listing is a permutation of the rows with non-increasing ids, strictly decreasing when ids are unique |
| Listing.ListIsStrictPermutation | reminder_app.py:126-129 | on a valid table the listing returns every row exactly once, in strictly decreasing id order |
| Listing.StrictOrderIsUnique | reminder_app.py:126 | two strictly id-descending arrangements of the same rows are equal |
| Listing.ListIsTheDescendingArrangement | reminder_app.py:126 | any strictly id-descending arrangement of a valid table's rows is the listing |
| Listing.ListAfterInsertStartsWithIt | reminder_app.py:126 | right after a create, the listing starts with the new row (newest first) |
| Auth.Split | reminder_app.py:69 | splitting on a single character gives at least one piece, and at least two iff the separator occurs. No piece contains the separator |
| Auth.JoinSplit | reminder_app.py:69 | joining the split pieces with the separator gives back the header text |
| Auth.SplitJoin | reminder_app.py:69 | splitting a join of separator-free pieces gives back those pieces |
| Auth.Token | reminder_app.py:66-69 | there is no token iff there is no Authorization header, and a token never contains a space |
| Auth.BearerHeaderYieldsToken | reminder_app.py:67-69 | a header `<scheme> <token>` (both without spaces) yields exactly that token |
| Auth.Gate | reminder_app.py:66-80 | the gate refuses as missing iff there is no header or the token is empty. It lets the handler run iff the token is non-empty and decodes |
| Auth.PostReminder | reminder_app.py:107-119 | create answers 401 iff the gate refuses, 500 if the gate lets it through but a field holds a NUL character the driver refuses, and 201 otherwise. On 201 it inserts exactly the new pending row; on 401 or 500 the table is unchanged |
| Auth.NoHeaderNoInsert | reminder_app.py:68-72 | without an Authorization header the create request gets 401 and stores nothing, whatever the decoder says |
| Auth.BadTokenNoInsert | reminder_app.py:74-78 | a token that fails to decode gets 401 and stores nothing |
| Auth.NulFieldNoInsert | reminder_app.py:113-116 | a title or trigger_time containing NUL passes the gate but makes the insert raise: 500, nothing stored |

## Left out

- HTTP routing, JSON bodies and response construction, `/health` and `/login`
  (lines 85-104): only the decision each handler makes is modelled. The create
  handler's response is its status code.
- Database connections, cursors, commits, `wait_for_db` and the execution of
  `init_db` (lines 21-60): the table is an in-memory value. `Empty` stands for
  the table right after `CREATE TABLE`.
- The scheduler thread, its `while True` loop and `time.sleep(5)` (lines
  132-150): one cycle is modelled, as a function and as a method. Concurrent
  requests are not interleaved with a cycle. Each operation is atomic in the
  model.
- The blanket `except: pass` and the per-row commit (lines 143-145): every
  statement is assumed to succeed, so partial cycles are not modelled.
- The clock: `now` is a parameter of `Cycle` and `Scan` rather than a reading
  of `datetime.now()`.
- JWT decoding, token expiry and the fixed login credentials (lines 76,
  91-104): decoding is the parameter `decodes: string -> bool`.
- Auth.Gate: an `Authorization` header with no space makes `split(" ")[1]`
  raise. `HeadersReadable` excludes that case instead of modelling the
  exception.
- Auth.Gate: header names are matched exactly, although the web framework
  matches them without regard to case.
- Auth.PostReminder: a body missing `title` or `trigger_time` raises in the
  handler, and so does any value the database driver or the store refuses:
  a JSON `null` (both columns are NOT NULL, lines 52-53), a JSON object, or a
  JSON list the store cannot read as an array (mixed element types, ragged
  nesting). Each of these answers 500 and stores nothing. The model's
  `title` and `triggerTime` stand for the text actually sent to the store, so
  these non-text bodies are not modelled. A NUL character in the text is
  refused too, and that refusal is modelled (`Storable`, `NulFieldNoInsert`).
  A text holding a lone surrogate code point (JSON `"\ud800"`) cannot be
  encoded as UTF-8 by the driver and also answers 500; Dafny's `char` cannot
  hold a lone surrogate, so this case is not modelled.
- Reminders.Insert: running out of `SERIAL` values (beyond 2147483647) raises in
  the store and is excluded by a precondition. A failed insert still uses up a
  sequence value, and that is not modelled.
- TextOrder.LexLe: the database's collation is taken to be code-point order
  (the "C" collation). Locale-aware collations are not modelled.
- Scheduler.Select: the store may return due rows in any order, because the
  scan query has no ORDER BY. The model returns them in table order.
  `UpdateOrderIrrelevant` shows the resulting table does not depend on that
  order. The order of the alarm log (`Scan`'s `alarms`) does: the model fixes it
  to table order, while the program prints in whatever order the store returns.
- The alarm `print` is modelled as the list of titles that `Scan` returns.
