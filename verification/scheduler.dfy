/**
 One cycle of the background scheduler.

 A cycle reads one `now`, selects every row whose status is `pending` and whose
 `trigger_time` is at or before `now` as text, and then, row by row, updates the
 selected ids to `triggered`. `Cycle` is written the way the program does it
 (a query, then one update per selected id); `Fire` says what should happen to a
 single row on its own, and the lemmas show the two agree.
 */
module Scheduler {
  import opened Reminders
  import opened TextOrder

  /** The scan's WHERE clause: `status = 'pending' AND trigger_time <= now`. */
  predicate IsDue(r: Reminder, now: string)
  {
    r.status == Pending && LexLe(r.triggerTime, now)
  }

  /** Reference behaviour for one row: a due row becomes triggered, any other
      row is left as it is. */
  function Fire(r: Reminder, now: string): Reminder
  {
    if IsDue(r, now) then r.(status := Triggered) else r
  }

  /** The scan query, returning the matching rows in table order. */
  function Select(rows: seq<Reminder>, now: string): (due: seq<Reminder>)
    ensures |due| <= |rows|
    ensures forall x :: x in due ==> x in rows && IsDue(x, now)
    ensures forall x :: x in rows && IsDue(x, now) ==> x in due
  {
    if |rows| == 0 then []
    else
      var last := rows[|rows| - 1];
      Select(rows[..|rows| - 1], now) + (if IsDue(last, now) then [last] else [])
  }

  /** Each due row is selected exactly as often as it occurs in the table, and
      no other row is selected: the query returns every match once. */
  lemma {:induction false} SelectCountsEachDueRowOnce(rows: seq<Reminder>, now: string)
    ensures forall x :: multiset(Select(rows, now))[x] == if IsDue(x, now) then multiset(rows)[x] else 0
  {
    if |rows| > 0 {
      SelectCountsEachDueRowOnce(rows[..|rows| - 1], now);
      assert rows == rows[..|rows| - 1] + [rows[|rows| - 1]];
    }
  }

  /** `UPDATE reminders SET status = s WHERE id = id`. */
  function SetStatus(rows: seq<Reminder>, id: int, s: string): (r: seq<Reminder>)
    ensures |r| == |rows|
  {
    seq(|rows|, i requires 0 <= i < |rows| =>
      if rows[i].id == id then rows[i].(status := s) else rows[i])
  }

  /** The loop over the query result: one `UPDATE ... SET status='triggered'`
      per fetched row, in the order the rows were fetched. The result depends
      only on which ids were fetched, not on their order or on repetitions. */
  function ApplyUpdates(rows: seq<Reminder>, batch: seq<Reminder>): (r: seq<Reminder>)
    ensures |r| == |rows|
    ensures forall i :: 0 <= i < |rows| ==>
              r[i] == (if rows[i].id in Ids(batch) then rows[i].(status := Triggered) else rows[i])
    decreases |batch|
  {
    if |batch| == 0 then rows
    else
      assert Ids(batch) == {batch[0].id} + Ids(batch[1..]) by {
        assert forall x :: x in batch <==> x == batch[0] || x in batch[1..];
      }
      ApplyUpdates(SetStatus(rows, batch[0].id, Triggered), batch[1..])
  }

  /** The rows after one cycle at `now`. */
  function CycleRows(rows: seq<Reminder>, now: string): seq<Reminder>
  {
    ApplyUpdates(rows, Select(rows, now))
  }

  /** One scheduler cycle. Whatever the rows, it keeps their number, their
      order, and every field except `status`, and the only status it ever
      writes is `triggered`. */
  function Cycle(t: Table, now: string): (r: Table)
    ensures r.nextId == t.nextId
    ensures |r.rows| == |t.rows|
    ensures forall i :: 0 <= i < |t.rows| ==>
              && r.rows[i].id == t.rows[i].id
              && r.rows[i].title == t.rows[i].title
              && r.rows[i].triggerTime == t.rows[i].triggerTime
              && r.rows[i].sound == t.rows[i].sound
              && (r.rows[i].status == t.rows[i].status || r.rows[i].status == Triggered)
  {
    t.(rows := CycleRows(t.rows, now))
  }

  /** With unique ids, a row's id is among the selected ids exactly when the
      row itself is due. */
  lemma SelectedIdsAreDueRows(rows: seq<Reminder>, now: string)
    requires DistinctIds(rows)
    ensures forall i :: 0 <= i < |rows| ==>
              (rows[i].id in Ids(Select(rows, now)) <==> IsDue(rows[i], now))
  {
    var due := Select(rows, now);
    forall i | 0 <= i < |rows| && rows[i].id in Ids(due)
      ensures IsDue(rows[i], now)
    {
      var x :| x in due && x.id == rows[i].id;
      var j :| 0 <= j < |rows| && rows[j] == x;
      assert i == j;
    }
  }

  /** The cycle as the program runs it agrees, row by row, with the reference
      `Fire`: each row's outcome depends only on that row and the single `now`
      of the cycle, not on its position or on the other rows. */
  lemma CycleIsPointwise(t: Table, now: string)
    requires DistinctIds(t.rows)
    ensures |Cycle(t, now).rows| == |t.rows|
    ensures forall i :: 0 <= i < |t.rows| ==> Cycle(t, now).rows[i] == Fire(t.rows[i], now)
  {
    SelectedIdsAreDueRows(t.rows, now);
  }

  /** Exactly the due rows change status, and each of them becomes triggered. */
  lemma CycleTriggersExactlyDue(t: Table, now: string)
    requires DistinctIds(t.rows)
    ensures forall i :: 0 <= i < |t.rows| ==>
              (Cycle(t, now).rows[i] != t.rows[i] <==> IsDue(t.rows[i], now))
    ensures forall i :: 0 <= i < |t.rows| && IsDue(t.rows[i], now) ==>
              Cycle(t, now).rows[i].status == Triggered
  {
    CycleIsPointwise(t, now);
  }

  /** Statuses only move forward: a cycle never writes `pending`, and every
      change it makes is from `pending` to `triggered`. */
  lemma CycleIsMonotone(t: Table, now: string)
    requires DistinctIds(t.rows)
    ensures forall i :: 0 <= i < |t.rows| ==>
              || Cycle(t, now).rows[i].status == t.rows[i].status
              || (t.rows[i].status == Pending && Cycle(t, now).rows[i].status == Triggered)
    ensures forall i :: 0 <= i < |t.rows| && Cycle(t, now).rows[i].status == Pending ==>
              t.rows[i].status == Pending
  {
    CycleIsPointwise(t, now);
  }

  /** A cycle never changes an id, so unique ids stay unique. */
  lemma CycleKeepsDistinctIds(t: Table, now: string)
    requires DistinctIds(t.rows)
    ensures DistinctIds(Cycle(t, now).rows)
  {
  }

  /** The table stays well formed. */
  lemma CyclePreservesValid(t: Table, now: string)
    requires Valid(t)
    ensures Valid(Cycle(t, now))
  {
    var r := Cycle(t, now);
    forall x | x in r.rows
      ensures 1 <= x.id < r.nextId
    {
      var i :| 0 <= i < |r.rows| && r.rows[i] == x;
      assert t.rows[i] in t.rows;
    }
  }

  /** After a cycle at `now`, nothing is due at `now` any more. */
  lemma CycleLeavesNothingDue(t: Table, now: string)
    requires DistinctIds(t.rows)
    ensures forall x :: x in Cycle(t, now).rows ==> !IsDue(x, now)
  {
    CycleIsPointwise(t, now);
    forall x | x in Cycle(t, now).rows
      ensures !IsDue(x, now)
    {
      var i :| 0 <= i < |t.rows| && Cycle(t, now).rows[i] == x;
    }
  }

  /** Two cycles at `a` and then at a later-or-equal `b` (as text) do what one
      cycle at `b` does. */
  lemma CycleAbsorbsEarlier(t: Table, a: string, b: string)
    requires DistinctIds(t.rows)
    requires LexLe(a, b)
    ensures Cycle(Cycle(t, a), b) == Cycle(t, b)
  {
    var t1 := Cycle(t, a);
    CycleIsPointwise(t, a);
    CycleKeepsDistinctIds(t, a);
    CycleIsPointwise(t1, b);
    CycleIsPointwise(t, b);
    forall i | 0 <= i < |t.rows|
      ensures Cycle(t1, b).rows[i] == Cycle(t, b).rows[i]
    {
      if IsDue(t.rows[i], a) {
        LexLeTransitive(t.rows[i].triggerTime, a, b);
      }
    }
  }

  /** Re-scanning with the same `now` changes nothing. */
  lemma CycleIsIdempotent(t: Table, now: string)
    requires DistinctIds(t.rows)
    ensures Cycle(Cycle(t, now), now) == Cycle(t, now)
  {
    LexLeReflexive(now);
    CycleAbsorbsEarlier(t, now, now);
  }

  /** The order in which the store returns the selected rows does not matter. */
  lemma UpdateOrderIrrelevant(rows: seq<Reminder>, b1: seq<Reminder>, b2: seq<Reminder>)
    requires Ids(b1) == Ids(b2)
    ensures ApplyUpdates(rows, b1) == ApplyUpdates(rows, b2)
  {
  }

  /** A cycle right after the insert triggers the new row iff its trigger time
      is `<=` now (as text), and treats the older rows as it would without the
      insert. */
  lemma NewReminderFiresWhenDue(t: Table, title: string, triggerTime: string, now: string)
    requires Valid(t) && t.nextId <= MaxSerial
    ensures Cycle(Insert(t, title, triggerTime), now).rows[|t.rows|].status
              == (if LexLe(triggerTime, now) then Triggered else Pending)
    ensures Cycle(Insert(t, title, triggerTime), now).rows[..|t.rows|] == Cycle(t, now).rows
  {
    var t' := Insert(t, title, triggerTime);
    CycleIsPointwise(t', now);
    CycleIsPointwise(t, now);
  }

  /** A reminder ten seconds before the scan time is due. */
  lemma EarlierReminderIsDue()
    ensures IsDue(Reminder(1, "a", "2025-01-01T09:59:50", None, Pending), "2025-01-01T10:00:00")
  {
    var date := "2025-01-01T";
    assert "2025-01-01T09:59:50" == date + "09:59:50" && "2025-01-01T10:00:00" == date + "10:00:00";
    assert (date + "09:59:50")[..11] == date == (date + "10:00:00")[..11];
    FirstDifferenceDecides(date + "09:59:50", date + "10:00:00", 11);
  }

  /** A reminder exactly at the scan time is due (the test is `<=`). */
  lemma ReminderAtScanTimeIsDue()
    ensures IsDue(Reminder(2, "b", "2025-01-01T10:00:00", None, Pending), "2025-01-01T10:00:00")
  {
    LexLeReflexive("2025-01-01T10:00:00");
  }

  /** A reminder ten seconds after the scan time is not due. */
  lemma LaterReminderIsNotDue()
    ensures !IsDue(Reminder(3, "c", "2025-01-01T10:00:10", None, Pending), "2025-01-01T10:00:00")
  {
    var minute := "2025-01-01T10:00:";
    assert "2025-01-01T10:00:10" == minute + "10" && "2025-01-01T10:00:00" == minute + "00";
    assert (minute + "10")[..17] == minute == (minute + "00")[..17];
    FirstDifferenceDecides(minute + "10", minute + "00", 17);
  }

  /** The due test compares text, not time: a trigger time written with a
      space instead of `T` is due an hour before the moment it names. */
  lemma TextOrderIsNotTimeOrder()
    ensures IsDue(Reminder(1, "a", "2025-01-01 10:00:00", None, Pending), "2025-01-01T09:00:00")
  {
    var date := "2025-01-01";
    assert "2025-01-01 10:00:00" == date + " 10:00:00" && "2025-01-01T09:00:00" == date + "T09:00:00";
    assert (date + " 10:00:00")[..10] == date == (date + "T09:00:00")[..10];
    FirstDifferenceDecides(date + " 10:00:00", date + "T09:00:00", 10);
  }

  /** The scan query as a loop over the table. */
  method FetchDue(rows: seq<Reminder>, now: string) returns (due: seq<Reminder>)
    ensures due == Select(rows, now)
  {
    due := [];
    var i := 0;
    while i < |rows|
      invariant 0 <= i <= |rows|
      invariant due == Select(rows[..i], now)
    {
      assert rows[..i + 1][..i] == rows[..i];
      if IsDue(rows[i], now) {
        due := due + [rows[i]];
      }
      i := i + 1;
    }
    assert rows[..i] == rows;
  }

  /** The loop over the fetched rows: log an alarm with the row's title, then
      update its status. */
  method TriggerAll(rows: seq<Reminder>, due: seq<Reminder>) returns (out: seq<Reminder>, alarms: seq<string>)
    ensures out == ApplyUpdates(rows, due)
    ensures |alarms| == |due|
    ensures forall k :: 0 <= k < |alarms| ==> alarms[k] == due[k].title
  {
    out := rows;
    alarms := [];
    var j := 0;
    while j < |due|
      invariant 0 <= j <= |due|
      invariant ApplyUpdates(out, due[j..]) == ApplyUpdates(rows, due)
      invariant |alarms| == j
      invariant forall k :: 0 <= k < j ==> alarms[k] == due[k].title
    {
      assert due[j..][1..] == due[j + 1..];
      alarms := alarms + [due[j].title];
      out := SetStatus(out, due[j].id, Triggered);
      j := j + 1;
    }
    assert due[j..] == [];
  }

  /** The scheduler body: fetch the due rows, then log and update each one. */
  method Scan(rows: seq<Reminder>, now: string) returns (out: seq<Reminder>, alarms: seq<string>)
    ensures out == CycleRows(rows, now)
    ensures |alarms| == |Select(rows, now)|
    ensures forall k :: 0 <= k < |alarms| ==> alarms[k] == Select(rows, now)[k].title
  {
    var due := FetchDue(rows, now);
    out, alarms := TriggerAll(rows, due);
  }
}
