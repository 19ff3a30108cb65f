/**
 * The running application: the session fields of displayTasksScreen, the
 * two tables it reads and writes, what the two screens currently show, the
 * screen on display and the window size mainApp gives it.
 */
module App {
  import opened Display
  import opened Validation
  import opened Session
  import opened Store
  import opened Views

  class TodoApp {
    /** The screen the stacked widget shows. */
    var screen: Screen
    /** The window's fixed size. */
    var size: Size
    /** The rowid being edited, NoRow for none. */
    var editedId: int
    var addingNewTask: bool
    /** The `tasks` table, addressed by rowid. */
    var tasks: map<int, Task>
    /** The `finished_tasks` table, in insertion order. */
    var finished: seq<Finished>
    /** What the task screen shows since its last refresh. */
    var taskView: View
    /** What the archive screen shows since its last refresh. */
    var archiveRows: seq<ArchiveRow>

    /** Never adding and editing at once; rowids are positive, so none equals NoRow. */
    predicate Valid()
      reads this
    {
      && Exclusive(editedId, addingNewTask)
      && forall k | k in tasks :: k >= 1
    }

    function Mode(): Mode
      reads this
      requires Exclusive(editedId, addingNewTask)
    {
      ModeOf(editedId, addingNewTask)
    }

    /**
     * mainApp's start-up over tables already on disk: the task screen, idle,
     * both screens built, the window sized for the task list.
     */
    constructor (tasks0: map<int, Task>, finished0: seq<Finished>, now: int)
      requires forall k | k in tasks0 :: k >= 1
      ensures Valid() && Mode() == Idle
      ensures tasks == tasks0 && finished == finished0 && screen == TaskList
      ensures taskView == ViewOf(tasks, editedId, addingNewTask, now)
      ensures archiveRows == ArchiveRowsOf(finished, now)
      ensures size == WindowSize(TaskList, |tasks|, |finished|)
    {
      screen := TaskList;
      size := Size(TaskListWidth, MinHeight);
      editedId := NoRow;
      addingNewTask := false;
      tasks := tasks0;
      finished := finished0;
      taskView := View(false, [], NoFooter);
      archiveRows := [];
      new;
      UpdateData(now);
      RefreshArchive(now);
      SwitchSize(TaskList);
    }

    /** displayTasksScreen.updateData: rebuild the task screen from the table and the session. */
    method UpdateData(now: int)
      modifies this`taskView
      ensures taskView == ViewOf(tasks, editedId, addingNewTask, now)
    {
      var listing := ListActive(tasks);
      var rows, lastindex := BuildRows(listing, editedId, now);
      assert rows == RowsFor(listing, editedId, now);
      taskView := View(editedId != NoRow, rows, FooterFor(lastindex, editedId, addingNewTask, now));
    }

    /** The task screen's timer: refresh only while nothing is being added or edited. */
    method UpdateIfNotEditing(now: int)
      requires Valid()
      modifies this`taskView
      ensures RefreshAllowed(Mode()) ==> taskView == ViewOf(tasks, editedId, addingNewTask, now)
      ensures !RefreshAllowed(Mode()) ==> taskView == old(taskView)
    {
      if editedId == NoRow && !addingNewTask {
        UpdateData(now);
      }
    }

    /** finishedTasks.generateData: one row per finished task, in table order. */
    method RefreshArchive(now: int)
      modifies this`archiveRows
      ensures archiveRows == ArchiveRowsOf(finished, now)
    {
      var rows: seq<ArchiveRow> := [];
      for i := 0 to |finished|
        invariant |rows| == i
        invariant forall j | 0 <= j < i :: rows[j] == ArchiveRowFor(finished[j], now)
      {
        rows := rows + [ArchiveRowFor(finished[i], now)];
      }
      archiveRows := rows;
    }

    /** mainApp.SwitchSize: the given screen's width and clamped height. */
    method SwitchSize(s: Screen)
      modifies this`size
      ensures size == WindowSize(s, |tasks|, |finished|)
    {
      var h: int;
      if s == TaskList {
        size := Size(TaskListWidth, TaskListHeight(|tasks|));
        h := TaskListHeight(|tasks|);
      } else {
        size := Size(ArchiveWidth, ArchiveHeight(|finished|));
        h := ArchiveHeight(|finished|);
      }
      if h < MinHeight {
        size := Size(size.width, MinHeight);
      }
    }

    /** mainApp.SwitchScreen: refresh the target screen, show it, resize the window for it. */
    method SwitchScreen(s: Screen, now: int)
      modifies this`screen, this`size, this`taskView, this`archiveRows
      ensures screen == s && size == WindowSize(s, |tasks|, |finished|)
      ensures s == Archive ==> archiveRows == ArchiveRowsOf(finished, now) && taskView == old(taskView)
      ensures s == TaskList ==> taskView == ViewOf(tasks, editedId, addingNewTask, now) && archiveRows == old(archiveRows)
    {
      if s == Archive {
        screen := Archive;
        RefreshArchive(now);
        SwitchSize(Archive);
      } else {
        UpdateData(now);
        screen := TaskList;
        SwitchSize(TaskList);
      }
    }

    /** Leave editing; also reached from switchAdding, where the fields are momentarily not exclusive. */
    method CancelEditing(now: int)
      modifies this`editedId, this`taskView
      ensures editedId == NoRow
      ensures old(Valid()) ==> Valid() && Mode() == Step(old(Mode()), CancelEdit)
      ensures taskView == ViewOf(tasks, editedId, addingNewTask, now)
    {
      editedId := NoRow;
      UpdateData(now);
    }

    /** The add and cancel-add buttons: toggle adding, abandoning an edit when adding starts. */
    method SwitchAdding(now: int)
      requires Valid()
      modifies this`addingNewTask, this`editedId, this`taskView
      ensures Valid() && Mode() == Step(old(Mode()), ToggleAdding)
      ensures addingNewTask == !old(addingNewTask)
      ensures taskView == ViewOf(tasks, editedId, addingNewTask, now)
    {
      addingNewTask := !addingNewTask;
      if addingNewTask && editedId != NoRow {
        CancelEditing(now);
      }
      UpdateData(now);
    }

    /** A row's edit button: stop adding if need be, then edit that row. */
    method SetEditedId(rowid: int, now: int)
      requires Valid()
      modifies this`addingNewTask, this`editedId, this`taskView
      ensures Valid() && Mode() == Step(old(Mode()), BeginEdit(rowid))
      ensures editedId == rowid && !addingNewTask
      ensures taskView == ViewOf(tasks, editedId, addingNewTask, now)
    {
      if addingNewTask {
        SwitchAdding(now);
      }
      editedId := rowid;
      UpdateData(now);
    }

    /**
     * The new-task form's accept button: on valid input insert the task
     * under a fresh rowid, resize the window and close the form; on invalid
     * input report the first failing check and change nothing.
     */
    method AddTask(title: string, desc: string, deadline: int, now: int) returns (v: Verdict)
      requires Valid()
      modifies this`tasks, this`size, this`addingNewTask, this`editedId, this`taskView
      ensures Valid()
      ensures v == CheckInput(title, desc, deadline, now)
      ensures v.Rejected? ==> unchanged(this)
      ensures v == Accepted ==>
        && tasks == old(tasks)[NewRowid(old(tasks)) := Task(title, desc, deadline)]
        && |tasks| == |old(tasks)| + 1
        && size == WindowSize(TaskList, |tasks|, |finished|)
        && addingNewTask == !old(addingNewTask)
        && Mode() == Step(old(Mode()), ToggleAdding)
        && taskView == ViewOf(tasks, editedId, addingNewTask, now)
    {
      v := CheckInput(title, desc, deadline, now);
      if v == Accepted {
        InsertAddsOneRow(tasks, Task(title, desc, deadline));
        tasks := tasks[NewRowid(tasks) := Task(title, desc, deadline)];
        SwitchSize(TaskList);
        SwitchAdding(now);
      }
    }

    /**
     * The edited row's accept button: on valid input overwrite the row (an
     * UPDATE of a rowid no longer present writes nothing) and leave editing;
     * on invalid input change nothing.
     */
    method AcceptEditing(title: string, desc: string, deadline: int, rowid: int, now: int) returns (v: Verdict)
      requires Valid()
      modifies this`tasks, this`editedId, this`taskView
      ensures Valid()
      ensures v == CheckInput(title, desc, deadline, now)
      ensures v.Rejected? ==> unchanged(this)
      ensures v == Accepted ==>
        && tasks == (if rowid in old(tasks) then old(tasks)[rowid := Task(title, desc, deadline)] else old(tasks))
        && editedId == NoRow
        && Mode() == Step(old(Mode()), CancelEdit)
        && taskView == ViewOf(tasks, editedId, addingNewTask, now)
    {
      v := CheckInput(title, desc, deadline, now);
      if v == Accepted {
        if rowid in tasks {
          tasks := tasks[rowid := Task(title, desc, deadline)];
        }
        CancelEditing(now);
      }
    }

    /**
     * A row's finish button: move the task to the archive with now as its
     * finishing time. A rowid no longer present fails before anything is
     * committed, so nothing changes and found is false. The window is not
     * resized.
     */
    method FinishTask(rowid: int, now: int) returns (found: bool)
      requires Valid()
      modifies this`tasks, this`finished, this`taskView
      ensures Valid()
      ensures found <==> rowid in old(tasks)
      ensures !found ==> unchanged(this)
      ensures found ==>
        && tasks == old(tasks) - {rowid}
        && finished == old(finished) + [Finished(old(tasks)[rowid].title, old(tasks)[rowid].desc, now)]
        && taskView == ViewOf(tasks, editedId, addingNewTask, now)
    {
      found := rowid in tasks;
      if found {
        var t := tasks[rowid];
        tasks := tasks - {rowid};
        finished := finished + [Finished(t.title, t.desc, now)];
        UpdateData(now);
      }
    }

    /** A row's delete button: remove the row if present, resize the window, refresh. */
    method DeleteTask(rowid: int, now: int)
      requires Valid()
      modifies this`tasks, this`size, this`taskView
      ensures Valid()
      ensures tasks == old(tasks) - {rowid}
      ensures size == WindowSize(TaskList, |tasks|, |finished|)
      ensures taskView == ViewOf(tasks, editedId, addingNewTask, now)
    {
      tasks := tasks - {rowid};
      SwitchSize(TaskList);
      UpdateData(now);
    }
  }

  /** An insert adds exactly one row and keeps every existing row as it was. */
  lemma InsertAddsOneRow(tasks: map<int, Task>, t: Task)
    ensures var tasks' := tasks[NewRowid(tasks) := t];
      && |tasks'| == |tasks| + 1
      && tasks'.Keys == tasks.Keys + {NewRowid(tasks)}
      && forall k | k in tasks :: tasks'[k] == tasks[k]
  {
    NewRowidIsFresh(tasks);
  }

  /**
   * Finishing moves a row: the active table loses exactly that row, every
   * other row is kept as it was, and the archive gains exactly one entry,
   * so the two tables together hold as many tasks as before.
   */
  lemma FinishMovesOneTask(tasks: map<int, Task>, finished: seq<Finished>, rowid: int, now: int)
    requires rowid in tasks
    ensures var tasks', finished' := tasks - {rowid}, finished + [Finished(tasks[rowid].title, tasks[rowid].desc, now)];
      && |tasks'| + |finished'| == |tasks| + |finished|
      && rowid !in tasks'
      && (forall k | k in tasks && k != rowid :: k in tasks' && tasks'[k] == tasks[k])
      && finished'[..|finished|] == finished
  {
    assert (tasks - {rowid}).Keys == tasks.Keys - {rowid};
  }

  /** Deleting an absent rowid leaves the table as it was; deleting twice is deleting once. */
  lemma DeleteAbsentIsNoOp(tasks: map<int, Task>, rowid: int)
    ensures rowid !in tasks ==> tasks - {rowid} == tasks
    ensures (tasks - {rowid}) - {rowid} == tasks - {rowid}
  {
  }

  /** Finishing a row twice archives it once: the second call finds nothing. */
  method FinishTwice(app: TodoApp, rowid: int, now: int) returns (first: bool, second: bool)
    requires app.Valid() && rowid in app.tasks
    modifies app
    ensures first && !second
    ensures rowid !in app.tasks && |app.tasks| == |old(app.tasks)| - 1
    ensures |app.finished| == |old(app.finished)| + 1
  {
    first := app.FinishTask(rowid, now);
    FinishMovesOneTask(old(app.tasks), old(app.finished), rowid, now);
    second := app.FinishTask(rowid, now + 1);
  }
}
