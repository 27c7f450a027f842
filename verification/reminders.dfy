/**
 The `reminders` table and the insert the create handler performs.

 A row is `{id, title, trigger_time, sound, status}`. The table is a sequence of
 rows together with the next value of the `SERIAL` sequence that numbers them.
 */
module Reminders {

  /** SQL NULL, or a value. */
  datatype Option<T> = None | Some(value: T)

  /** The two status texts this program ever stores: the column default and the
      one literal the scheduler writes. Any other text may sit in the column
      (it is plain TEXT) and is left alone by every operation here. */
  const Pending: string := "pending"
  const Triggered: string := "triggered"

  /** Largest value of a `SERIAL` (4-byte integer) column. */
  const MaxSerial: int := 0x7FFF_FFFF

  datatype Reminder = Reminder(
    id: int,
    title: string,
    triggerTime: string,
    sound: Option<string>,
    status: string)

  /** The rows, in insertion order, and the next value of the id sequence. */
  datatype Table = Table(rows: seq<Reminder>, nextId: int)

  /** The set of ids present in `rows`. */
  function Ids(rows: seq<Reminder>): set<int>
  {
    set r | r in rows :: r.id
  }

  /** No two rows share an id (the PRIMARY KEY constraint). */
  predicate DistinctIds(rows: seq<Reminder>)
  {
    forall i, j :: 0 <= i < j < |rows| ==> rows[i].id != rows[j].id
  }

  /** What the store guarantees of the table: ids are unique, positive and
      below the sequence's next value, which is never reused. */
  predicate Valid(t: Table)
  {
    && 1 <= t.nextId
    && DistinctIds(t.rows)
    && forall r :: r in t.rows ==> 1 <= r.id < t.nextId
  }

  /** The table right after `CREATE TABLE`: no rows, sequence at 1. */
  function Empty(): (t: Table)
    ensures Valid(t) && |t.rows| == 0 && t.nextId == 1
  {
    Table([], 1)
  }

  /** `INSERT INTO reminders (title, trigger_time) VALUES (...)`: the id comes
      from the sequence, `sound` is not written and so is NULL, and `status` is
      not written and so takes the column default. Running out of ids raises in
      the store and is excluded here. */
  function Insert(t: Table, title: string, triggerTime: string): (r: Table)
    requires t.nextId <= MaxSerial
    ensures |r.rows| == |t.rows| + 1
    ensures r.rows[..|t.rows|] == t.rows
    ensures r.nextId > t.nextId
    ensures Valid(t) ==> Valid(r)
    ensures Valid(t) ==> forall x :: x in t.rows ==> x.id < r.rows[|t.rows|].id
    ensures r.rows[|t.rows|].title == title && r.rows[|t.rows|].triggerTime == triggerTime
    ensures r.rows[|t.rows|].sound == None && r.rows[|t.rows|].status == Pending
  {
    Table(t.rows + [Reminder(t.nextId, title, triggerTime, None, Pending)], t.nextId + 1)
  }

  /** The id the insert returns (`RETURNING id`). */
  function InsertedId(t: Table): int
  {
    t.nextId
  }

  /** Inserting is the only way rows appear, and the new id was never used:
      after any insert the returned id names exactly one row, the new one. */
  lemma InsertedIdIsFresh(t: Table, title: string, triggerTime: string)
    requires Valid(t) && t.nextId <= MaxSerial
    ensures InsertedId(t) !in Ids(t.rows)
    ensures Insert(t, title, triggerTime).rows[|t.rows|].id == InsertedId(t)
    ensures forall x :: x in Insert(t, title, triggerTime).rows && x.id == InsertedId(t) ==>
              x == Reminder(InsertedId(t), title, triggerTime, None, Pending)
  {
  }
}
