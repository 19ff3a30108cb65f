/**
 * What a refresh derives from the tables: displayTasksScreen.updateData's
 * rows and footer, and finishedTasks.generateData's archive rows. Only the
 * content and the enabled actions are kept, not the widgets.
 */
module Views {
  import opened TimeLabels
  import opened Display
  import opened Store
  import opened Session
  import opened Validation

  datatype Action = Finish | Edit | Delete

  datatype Row =
    /** The row being edited: its fields in editors, the deadline editor's minimum. */
    | EditingRow(rowid: int, title: string, desc: string, deadline: int, minDeadline: int)
    /** Any other row: title, shortened description, time label and its buttons. */
    | TaskRow(rowid: int, title: string, desc: string, deadline: int, badge: Badge, late: bool, actions: set<Action>)

  datatype Footer =
    /** The add and finished-tasks buttons, with "No Tasks" when the list is empty. */
    | AddControls(noTasks: bool)
    /** The new-task editors, preset two days ahead, with their minimum. */
    | NewTaskForm(defaultDeadline: int, minDeadline: int)
    | NoFooter

  /** editing selects the "EDITING..." header over "TO DO LIST". */
  datatype View = View(editing: bool, rows: seq<Row>, footer: Footer)

  /** How far ahead the new-task editor's deadline starts. */
  const DefaultLead: int := 2 * DaySecs

  /** The row for one listed task. */
  function RowFor(e: Entry, editedId: int, now: int): (r: Row)
    ensures r.rowid == e.rowid && r.title == e.task.title && r.deadline == e.task.deadline
    ensures r.EditingRow? <==> e.rowid == editedId
    ensures r.EditingRow? ==> r.desc == e.task.desc && r.minDeadline == EditorMinimum(now)
    ensures r.TaskRow? ==> r.desc == Truncate(e.task.desc) && r.badge == DeadlineBadge(e.task.deadline - now)
    ensures r.TaskRow? ==> (r.late <==> e.task.deadline < now)
    ensures r.TaskRow? ==> Delete in r.actions
    ensures r.TaskRow? ==> (Finish in r.actions <==> !r.late) && (Edit in r.actions <==> !r.late)
    ensures r.TaskRow? && r.late ==> r.badge.urgency == Overdue
  {
    if e.rowid == editedId then
      EditingRow(e.rowid, e.task.title, e.task.desc, e.task.deadline, EditorMinimum(now))
    else
      var delta := e.task.deadline - now;
      var late := delta < 0;
      TaskRow(e.rowid, e.task.title, Truncate(e.task.desc), e.task.deadline, DeadlineBadge(delta), late,
              if late then {Delete} else {Finish, Edit, Delete})
  }

  function RowsFor(listing: seq<Entry>, editedId: int, now: int): seq<Row> {
    seq(|listing|, i requires 0 <= i < |listing| => RowFor(listing[i], editedId, now))
  }

  /** The controls below the rows; lastindex is the index of the last row, -1 for none. */
  function FooterFor(lastindex: int, editedId: int, adding: bool, now: int): Footer {
    if !adding && editedId == NoRow then AddControls(lastindex == -1)
    else if adding && editedId == NoRow then NewTaskForm(now + DefaultLead, EditorMinimum(now))
    else NoFooter
  }

  /** The task screen as updateData lays it out. */
  function ViewOf(tasks: map<int, Task>, editedId: int, adding: bool, now: int): View {
    View(editedId != NoRow, RowsFor(ListActive(tasks), editedId, now), FooterFor(|tasks| - 1, editedId, adding, now))
  }

  /** updateData's loop over the listing: one row per task, and the index of the last one. */
  method BuildRows(listing: seq<Entry>, editedId: int, now: int) returns (rows: seq<Row>, lastindex: int)
    ensures |rows| == |listing|
    ensures forall i | 0 <= i < |listing| :: rows[i] == RowFor(listing[i], editedId, now)
    ensures lastindex == |listing| - 1
  {
    rows := [];
    lastindex := -1;
    var i := 0;
    while i < |listing|
      invariant 0 <= i <= |listing|
      invariant lastindex == i - 1
      invariant |rows| == i
      invariant forall j | 0 <= j < i :: rows[j] == RowFor(listing[j], editedId, now)
    {
      if i > lastindex {
        lastindex := i;
      }
      rows := rows + [RowFor(listing[i], editedId, now)];
      i := i + 1;
    }
  }

  /** The rows of a listing carry the listing's rowids, titles and deadlines, position by position. */
  lemma RowsFollowListing(tasks: map<int, Task>, listing: seq<Entry>, editedId: int, now: int)
    requires Lists(tasks, listing) && SortedByDeadline(listing)
    ensures var rows := RowsFor(listing, editedId, now);
      && |rows| == |tasks|
      && (forall i | 0 <= i < |rows| ::
            rows[i].rowid in tasks && rows[i].title == tasks[rows[i].rowid].title
            && rows[i].deadline == tasks[rows[i].rowid].deadline)
      && (forall i, j | 0 <= i < j < |rows| :: rows[i].rowid != rows[j].rowid && rows[i].deadline <= rows[j].deadline)
  {
    var rows := RowsFor(listing, editedId, now);
    forall i, j | 0 <= i < j < |rows|
      ensures rows[i].rowid != rows[j].rowid && rows[i].deadline <= rows[j].deadline
    {
      assert Precedes(listing[i], listing[j]);
    }
  }

  /**
   * Every active task appears exactly once, with its own title and deadline,
   * in ascending deadline order.
   */
  lemma ViewListsEachTaskOnce(tasks: map<int, Task>, editedId: int, adding: bool, now: int)
    ensures var rows := ViewOf(tasks, editedId, adding, now).rows;
      && |rows| == |tasks|
      && (forall i | 0 <= i < |rows| ::
            rows[i].rowid in tasks && rows[i].title == tasks[rows[i].rowid].title
            && rows[i].deadline == tasks[rows[i].rowid].deadline)
      && (forall i, j | 0 <= i < j < |rows| :: rows[i].rowid != rows[j].rowid && rows[i].deadline <= rows[j].deadline)
    ensures var rows := ViewOf(tasks, editedId, adding, now).rows;
      forall k | k in tasks :: exists i :: 0 <= i < |rows| && rows[i].rowid == k
  {
    var listing := ListActive(tasks);
    var rows := RowsFor(listing, editedId, now);
    RowsFollowListing(tasks, listing, editedId, now);
    forall k | k in tasks
      ensures exists i :: 0 <= i < |rows| && rows[i].rowid == k
    {
      var i := IndexOfRowid(listing, k);
      assert rows[i].rowid == k;
    }
  }

  /**
   * Only the edited task's row shows editors, and it does so exactly when
   * that task still exists.
   */
  lemma SingleEditingRow(tasks: map<int, Task>, editedId: int, adding: bool, now: int)
    ensures var rows := ViewOf(tasks, editedId, adding, now).rows;
      && (forall i | 0 <= i < |rows| :: rows[i].EditingRow? <==> rows[i].rowid == editedId)
      && (forall i, j | 0 <= i < j < |rows| :: !(rows[i].EditingRow? && rows[j].EditingRow?))
      && ((exists i :: 0 <= i < |rows| && rows[i].EditingRow?) <==> editedId in tasks)
  {
    var listing := ListActive(tasks);
    var rows := ViewOf(tasks, editedId, adding, now).rows;
    if editedId in tasks {
      var i := IndexOfRowid(listing, editedId);
      assert rows[i].EditingRow?;
    }
  }

  /**
   * The footer follows the session: add buttons when idle, the new-task
   * editors when adding, nothing while a row is edited.
   */
  lemma FooterFollowsMode(tasks: map<int, Task>, editedId: int, adding: bool, now: int)
    requires Exclusive(editedId, adding)
    ensures var v := ViewOf(tasks, editedId, adding, now);
      && (v.footer.AddControls? <==> ModeOf(editedId, adding) == Idle)
      && (v.footer.NewTaskForm? <==> ModeOf(editedId, adding) == Creating)
      && (v.footer.NoFooter? <==> ModeOf(editedId, adding).Editing?)
      && (v.editing <==> ModeOf(editedId, adding).Editing?)
      && (v.footer.AddControls? ==> (v.footer.noTasks <==> |tasks| == 0))
  {
  }

  /**
   * The new-task editor starts at a deadline the check accepts, yet lets the
   * user go back to its minimum, which the check refuses.
   */
  lemma NewTaskFormDeadlines(title: string, desc: string, tasks: map<int, Task>, now: int)
    requires title != "" && desc != ""
    ensures var f := ViewOf(tasks, NoRow, true, now).footer;
      && f.NewTaskForm?
      && CheckInput(title, desc, f.defaultDeadline, now) == Accepted
      && CheckInput(title, desc, f.minDeadline, now) == Rejected(IncorrectDeadline)
  {
  }

  /**
   * A task accepted at some instant is not late at that instant: its finish
   * and edit buttons show. This rests on whole-second instants; with the
   * clock's milliseconds, secsTo truncates, so a deadline under a second
   * before now passes the check yet is already late.
   */
  lemma AcceptedTaskIsActionable(rowid: int, title: string, desc: string, deadline: int, editedId: int, now: int)
    requires CheckInput(title, desc, deadline, now) == Accepted
    requires rowid != editedId
    ensures var r := RowFor(Entry(rowid, Task(title, desc, deadline)), editedId, now);
      r.TaskRow? && !r.late && Finish in r.actions && Edit in r.actions
  {
  }

  /**
   * At the deadline itself the label already reads "1 minute late!" in red,
   * but the row is not late: delta < 0 is strict, so finish and edit remain.
   * With the clock's microseconds delta is exactly 0 only at that instant.
   */
  lemma DeadlineInstantLabelledLateButActionable(e: Entry, editedId: int, now: int)
    requires e.rowid != editedId && e.task.deadline == now
    ensures var r := RowFor(e, editedId, now);
      && r.TaskRow? && r.badge.urgency == Overdue && Text(r.badge.time) == "1 minute late!"
      && !r.late && Finish in r.actions && Edit in r.actions
  {
    DeadlineTextExamples();
  }

  /** One archive row: title, shortened description, time since finishing. */
  datatype ArchiveRow = ArchiveRow(title: string, desc: string, time: TimeLabel)

  /** The archive row for one finished task, with the corrected label. */
  function ArchiveRowFor(f: Finished, now: int): (r: ArchiveRow)
    ensures r.title == f.title && r.desc == Truncate(f.desc) && |r.desc| <= TruncateFrom
    ensures r.time.dir == Ago && r.time.amount >= 1 && (r.time.plural <==> r.time.amount >= 2)
    ensures r.time.unit == Days <==> now - f.doneAt > DaySecs
    ensures r.time.unit == Minutes <==> now - f.doneAt <= HourSecs
    ensures now - f.doneAt > MinuteSecs ==> r.time.amount == RoundHalfEven(now - f.doneAt, Seconds(r.time.unit))
    ensures now - f.doneAt <= MinuteSecs ==> r.time.amount == 1
  {
    ArchiveRow(f.title, Truncate(f.desc), ArchiveLabel(now - f.doneAt))
  }

  /** finishedTasks.generateData's rows, in table order. */
  function ArchiveRowsOf(finished: seq<Finished>, now: int): seq<ArchiveRow> {
    seq(|finished|, i requires 0 <= i < |finished| => ArchiveRowFor(finished[i], now))
  }
}
