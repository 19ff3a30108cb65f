/** Choosing some member of a non-empty set of rowids. */
module Choice {
  lemma PickKey(keys: set<int>) returns (k: int)
    requires keys != {}
    ensures k in keys
  {
    if forall x :: x !in keys {
      assert false;
    }
    k :| k in keys;
  }
}

/**
 * The two tables: `tasks` (title, text_content, time_limit), addressed by
 * rowid, and `finished_tasks` (title, text_content, time_done). Timestamps
 * are whole seconds.
 */
module Store {
  import Choice

  datatype Task = Task(title: string, desc: string, deadline: int)

  datatype Finished = Finished(title: string, desc: string, doneAt: int)

  /** One row of `SELECT title, text_content, time_limit, rowid FROM tasks`. */
  datatype Entry = Entry(rowid: int, task: Task)

  /** ORDER BY time_limit; rows with equal deadlines come in rowid order. */
  predicate Precedes(a: Entry, b: Entry) {
    a.task.deadline < b.task.deadline
    || (a.task.deadline == b.task.deadline && a.rowid <= b.rowid)
  }

  predicate IsFirst(tasks: map<int, Task>, k: int)
    requires k in tasks
  {
    forall j | j in tasks :: Precedes(Entry(k, tasks[k]), Entry(j, tasks[j]))
  }

  /** A non-empty table has a row that comes first. */
  lemma {:induction false} FirstExists(tasks: map<int, Task>)
    requires |tasks| > 0
    ensures exists k :: k in tasks && IsFirst(tasks, k)
    decreases |tasks|
  {
    assert tasks.Keys != {};
    var x := Choice.PickKey(tasks.Keys);
    var rest := tasks - {x};
    assert rest.Keys == tasks.Keys - {x};
    if |rest| == 0 {
      forall j | j in tasks
        ensures Precedes(Entry(x, tasks[x]), Entry(j, tasks[j]))
      {
        assert j !in rest;
      }
      assert IsFirst(tasks, x);
    } else {
      FirstExists(rest);
      var y :| y in rest && IsFirst(rest, y);
      var f := if Precedes(Entry(x, tasks[x]), Entry(y, tasks[y])) then x else y;
      forall j | j in tasks
        ensures Precedes(Entry(f, tasks[f]), Entry(j, tasks[j]))
      {
        if j != x {
          assert j in rest;
          assert Precedes(Entry(y, rest[y]), Entry(j, rest[j]));
        }
      }
      assert IsFirst(tasks, f);
    }
  }

  function RowidsOf(s: seq<Entry>): set<int> {
    if s == [] then {} else {s[0].rowid} + RowidsOf(s[1..])
  }

  /** A rowid in a listing sits at some position of it. */
  lemma {:induction false} IndexOfRowid(s: seq<Entry>, k: int) returns (i: nat)
    requires k in RowidsOf(s)
    ensures i < |s| && s[i].rowid == k
  {
    if s[0].rowid == k {
      i := 0;
    } else {
      var j := IndexOfRowid(s[1..], k);
      i := j + 1;
    }
  }

  /** s holds every row of tasks exactly once, each with its own fields. */
  predicate Lists(tasks: map<int, Task>, s: seq<Entry>) {
    && |s| == |tasks|
    && (forall i | 0 <= i < |s| :: s[i].rowid in tasks && tasks[s[i].rowid] == s[i].task)
    && (forall i, j | 0 <= i < j < |s| :: s[i].rowid != s[j].rowid)
    && RowidsOf(s) == tasks.Keys
  }

  predicate SortedByDeadline(s: seq<Entry>) {
    forall i, j | 0 <= i < j < |s| :: Precedes(s[i], s[j])
  }

  /** Putting the first row in front of a listing of the others lists the whole table. */
  lemma ListingCons(tasks: map<int, Task>, k: int, tail: seq<Entry>)
    requires k in tasks && IsFirst(tasks, k)
    requires Lists(tasks - {k}, tail) && SortedByDeadline(tail)
    ensures Lists(tasks, [Entry(k, tasks[k])] + tail)
    ensures SortedByDeadline([Entry(k, tasks[k])] + tail)
  {
    var rest := tasks - {k};
    var s := [Entry(k, tasks[k])] + tail;
    assert rest.Keys == tasks.Keys - {k};
    assert s[1..] == tail;
    assert RowidsOf(s) == {k} + rest.Keys;
    forall i | 0 <= i < |s|
      ensures s[i].rowid in tasks && tasks[s[i].rowid] == s[i].task
    {
      if i > 0 {
        assert s[i] == tail[i - 1];
      }
    }
    forall i, j | 0 <= i < j < |s|
      ensures s[i].rowid != s[j].rowid && Precedes(s[i], s[j])
    {
      assert s[j] == tail[j - 1];
      if i > 0 {
        assert s[i] == tail[i - 1];
      } else {
        assert tail[j - 1].rowid in rest;
      }
    }
  }

  /**
   * The active listing: every row exactly once, with its own fields, in
   * ascending deadline order.
   */
  function ListActive(tasks: map<int, Task>): (s: seq<Entry>)
    ensures Lists(tasks, s)
    ensures SortedByDeadline(s)
    decreases |tasks|
  {
    if |tasks| == 0 then
      []
    else
      FirstExists(tasks);
      var k :| k in tasks && IsFirst(tasks, k);
      var rest := tasks - {k};
      assert rest.Keys == tasks.Keys - {k};
      var tail := ListActive(rest);
      ListingCons(tasks, k, tail);
      [Entry(k, tasks[k])] + tail
  }

  /** The largest rowid in a listing, or 0 for an empty one. */
  function MaxRowidOf(s: seq<Entry>): (m: int)
    ensures m >= 0
    ensures forall k | k in RowidsOf(s) :: k <= m
  {
    if s == [] then 0
    else
      var m := MaxRowidOf(s[1..]);
      if s[0].rowid > m then s[0].rowid else m
  }

  /** The rowid an INSERT is given: one past the largest in use, or 1 for an empty table. */
  function NewRowid(tasks: map<int, Task>): (r: int)
    ensures r >= 1
  {
    MaxRowidOf(ListActive(tasks)) + 1
  }

  /** The new rowid is larger than every rowid in use, so it names no existing row. */
  lemma NewRowidIsFresh(tasks: map<int, Task>)
    ensures NewRowid(tasks) !in tasks
    ensures forall k | k in tasks :: k < NewRowid(tasks)
  {
    var s := ListActive(tasks);
    assert RowidsOf(s) == tasks.Keys;
  }
}
