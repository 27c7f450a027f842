/**
 The list handler: `SELECT * FROM reminders ORDER BY id DESC`.
 */
module Listing {
  import opened Reminders

  /** Ids never increase along `s`. */
  predicate DescendingIds(s: seq<Reminder>)
  {
    forall i, j :: 0 <= i < j < |s| ==> s[i].id >= s[j].id
  }

  /** Ids strictly decrease along `s`. */
  predicate StrictlyDescendingIds(s: seq<Reminder>)
  {
    forall i, j :: 0 <= i < j < |s| ==> s[i].id > s[j].id
  }

  /** Prepending a row whose id is at least the current first id keeps the
      order (strictly, when it is strictly larger). */
  lemma PrependKeepsOrder(h: Reminder, rest: seq<Reminder>)
    requires DescendingIds(rest)
    requires |rest| > 0 ==> rest[0].id <= h.id
    ensures DescendingIds([h] + rest)
    ensures StrictlyDescendingIds(rest) && (|rest| > 0 ==> rest[0].id < h.id) ==>
              StrictlyDescendingIds([h] + rest)
  {
    var s := [h] + rest;
    forall i, j | 0 <= i < j < |s|
      ensures s[i].id >= s[j].id
      ensures StrictlyDescendingIds(rest) && (|rest| > 0 ==> rest[0].id < h.id) ==> s[i].id > s[j].id
    {
      assert s[j] == rest[j - 1];
      if i > 0 {
        assert s[i] == rest[i - 1];
      } else if j > 1 {
        assert rest[0].id >= rest[j - 1].id;
      }
    }
  }

  /** Puts `x` into a list ordered by descending id, after every row with a
      larger id. */
  function InsertByIdDesc(x: Reminder, s: seq<Reminder>): (r: seq<Reminder>)
    requires DescendingIds(s)
    ensures DescendingIds(r)
    ensures multiset(r) == multiset(s) + multiset{x}
    ensures r[0] == x || r[0] == s[0]
  {
    if |s| == 0 then [x]
    else if s[0].id <= x.id then
      PrependKeepsOrder(x, s);
      [x] + s
    else
      var rest := InsertByIdDesc(x, s[1..]);
      assert s == [s[0]] + s[1..];
      PrependKeepsOrder(s[0], rest);
      [s[0]] + rest
  }

  /** Inserting a row whose id is new into a strictly ordered list keeps it
      strictly ordered. */
  lemma {:induction false} InsertByIdDescKeepsStrict(x: Reminder, s: seq<Reminder>)
    requires StrictlyDescendingIds(s)
    requires forall i :: 0 <= i < |s| ==> s[i].id != x.id
    ensures StrictlyDescendingIds(InsertByIdDesc(x, s))
  {
    if |s| > 0 {
      if s[0].id <= x.id {
        PrependKeepsOrder(x, s);
      } else {
        assert s == [s[0]] + s[1..];
        InsertByIdDescKeepsStrict(x, s[1..]);
        PrependKeepsOrder(s[0], InsertByIdDesc(x, s[1..]));
      }
    }
  }

  /** The first row of a strictly ordered list has the largest id, and it is
      the only row with that id. */
  lemma HeadHasLargestId(s: seq<Reminder>, y: Reminder)
    requires StrictlyDescendingIds(s) && y in s
    ensures y.id <= s[0].id
    ensures y.id == s[0].id ==> y == s[0]
  {
  }

  lemma StrictTail(s: seq<Reminder>)
    requires StrictlyDescendingIds(s) && |s| > 0
    ensures StrictlyDescendingIds(s[1..])
  {
    forall i, j | 0 <= i < j < |s| - 1
      ensures s[1..][i].id > s[1..][j].id
    {
      assert s[1..][i] == s[i + 1] && s[1..][j] == s[j + 1];
    }
  }

  /** Unique ids survive dropping the first row, which then shares its id with
      no remaining row. */
  lemma DistinctIdsTail(rows: seq<Reminder>)
    requires DistinctIds(rows) && |rows| > 0
    ensures DistinctIds(rows[1..])
    ensures forall y :: y in rows[1..] ==> y.id != rows[0].id
  {
    forall y | y in rows[1..]
      ensures y.id != rows[0].id
    {
      var k :| 0 <= k < |rows[1..]| && rows[1..][k] == y;
      assert rows[k + 1] == y;
    }
  }

  /** The listing: every row, ordered by descending id. */
  function List(rows: seq<Reminder>): (r: seq<Reminder>)
    ensures multiset(r) == multiset(rows)
    ensures DescendingIds(r)
    ensures DistinctIds(rows) ==> StrictlyDescendingIds(r)
  {
    if |rows| == 0 then []
    else
      assert rows == [rows[0]] + rows[1..];
      var tail := List(rows[1..]);
      var r := InsertByIdDesc(rows[0], tail);
      if DistinctIds(rows) then
        DistinctIdsTail(rows);
        assert forall i :: 0 <= i < |tail| ==> tail[i].id != rows[0].id by {
          forall i | 0 <= i < |tail|
            ensures tail[i].id != rows[0].id
          {
            assert tail[i] in multiset(rows[1..]);
          }
        }
        InsertByIdDescKeepsStrict(rows[0], tail);
        r
      else
        r
  }

  /** On a well-formed table the listing holds every row exactly once, in
      strictly decreasing id order. */
  lemma ListIsStrictPermutation(t: Table)
    requires Valid(t)
    ensures multiset(List(t.rows)) == multiset(t.rows)
    ensures StrictlyDescendingIds(List(t.rows))
    ensures forall i, j :: 0 <= i < j < |List(t.rows)| ==> List(t.rows)[i] != List(t.rows)[j]
  {
  }

  /** Only one arrangement of the rows has strictly decreasing ids, so the
      listing is fully determined by the table's contents. */
  lemma {:induction false} StrictOrderIsUnique(a: seq<Reminder>, b: seq<Reminder>)
    requires multiset(a) == multiset(b)
    requires StrictlyDescendingIds(a) && StrictlyDescendingIds(b)
    ensures a == b
  {
    if |a| == 0 {
      assert |b| == |multiset(b)| == 0;
    } else {
      assert a[0] == b[0] by {
        assert a[0] in multiset(b) && b[0] in multiset(a);
        HeadHasLargestId(a, b[0]);
        HeadHasLargestId(b, a[0]);
      }
      assert multiset(a[1..]) == multiset(b[1..]) by {
        assert a == [a[0]] + a[1..] && b == [b[0]] + b[1..];
        assert multiset(a[1..]) == multiset(a) - multiset{a[0]};
        assert multiset(b[1..]) == multiset(b) - multiset{b[0]};
      }
      StrictTail(a);
      StrictTail(b);
      StrictOrderIsUnique(a[1..], b[1..]);
      assert a == [a[0]] + a[1..];
      assert b == [b[0]] + b[1..];
    }
  }

  /** The listing is the table's rows in the unique strictly-descending
      arrangement: any such arrangement of a well-formed table is the listing. */
  lemma ListIsTheDescendingArrangement(t: Table, s: seq<Reminder>)
    requires Valid(t)
    requires multiset(s) == multiset(t.rows) && StrictlyDescendingIds(s)
    ensures List(t.rows) == s
  {
    StrictOrderIsUnique(List(t.rows), s);
  }

  /** Newest first: right after an insert, the listing starts with the new row. */
  lemma ListAfterInsertStartsWithIt(t: Table, title: string, triggerTime: string)
    requires Valid(t) && t.nextId <= MaxSerial
    ensures |List(Insert(t, title, triggerTime).rows)| == |t.rows| + 1
    ensures List(Insert(t, title, triggerTime).rows)[0]
              == Reminder(t.nextId, title, triggerTime, None, Pending)
  {
    var t' := Insert(t, title, triggerTime);
    var x := t'.rows[|t.rows|];
    var l := List(t'.rows);
    assert x in multiset(l) && l[0] in multiset(t'.rows);
    HeadHasLargestId(l, x);
    assert t'.rows == t.rows + [x];
    assert l[0] in t.rows || l[0] == x;
  }
}
