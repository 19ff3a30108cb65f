/** Display arithmetic: description truncation and the window sizes of the two screens. */
module Display {

  /** Descriptions this long or longer are shortened. */
  const TruncateFrom: nat := 43
  /** Characters of a shortened description kept before the ellipsis. */
  const KeptChars: nat := 40

  /** A long description is shown as its first 40 characters followed by "...". */
  function Truncate(s: string): (r: string)
    ensures |r| <= TruncateFrom
    ensures |s| < TruncateFrom ==> r == s
    ensures |s| >= TruncateFrom ==> |r| == TruncateFrom && r[..KeptChars] == s[..KeptChars] && r[KeptChars..] == "..."
  {
    if |s| >= TruncateFrom then s[..KeptChars] + "..." else s
  }

  /** Truncating what is already displayed changes nothing. */
  lemma TruncateIdempotent(s: string)
    ensures Truncate(Truncate(s)) == Truncate(s)
  {
    if |s| >= TruncateFrom {
      var r := Truncate(s);
      assert r[..KeptChars] + "..." == r;
    }
  }

  datatype Screen = TaskList | Archive

  datatype Size = Size(width: nat, height: nat)

  const RowHeight: nat := 45
  const TaskListChrome: nat := 180
  const ArchiveChrome: nat := 50
  const MinHeight: nat := 200
  const TaskListWidth: nat := 1000
  const ArchiveWidth: nat := 800

  /** displayTasksScreen.calcHeight for n active tasks. */
  function TaskListHeight(n: nat): nat {
    n * RowHeight + TaskListChrome
  }

  /** finishedTasks.calcHeight for n finished tasks. */
  function ArchiveHeight(n: nat): nat {
    n * RowHeight + ArchiveChrome
  }

  /**
   * mainApp.SwitchSize: the screen's fixed width and its computed height,
   * raised to 200 when smaller.
   */
  function WindowSize(screen: Screen, active: nat, finished: nat): (s: Size)
    ensures s.height >= MinHeight
    ensures s.width == (if screen == TaskList then TaskListWidth else ArchiveWidth)
    ensures var h := if screen == TaskList then TaskListHeight(active) else ArchiveHeight(finished);
      h >= MinHeight ==> s.height == h
    ensures var h := if screen == TaskList then TaskListHeight(active) else ArchiveHeight(finished);
      h < MinHeight ==> s.height == MinHeight
  {
    var w := if screen == TaskList then TaskListWidth else ArchiveWidth;
    var h := if screen == TaskList then TaskListHeight(active) else ArchiveHeight(finished);
    if h < MinHeight then Size(w, MinHeight) else Size(w, h)
  }

  /** More rows never make the window shorter. */
  lemma {:induction false} WindowSizeMonotone(screen: Screen, a1: nat, f1: nat, a2: nat, f2: nat)
    requires a1 <= a2 && f1 <= f2
    ensures WindowSize(screen, a1, f1).height <= WindowSize(screen, a2, f2).height
  {
    assert a1 * RowHeight <= a2 * RowHeight;
    assert f1 * RowHeight <= f2 * RowHeight;
  }

  /**
   * The clamp only ever applies to an empty task list, and to an archive of
   * at most three entries; beyond that each row adds exactly 45 pixels.
   */
  lemma {:induction false} WindowClampedExactly(screen: Screen, active: nat, finished: nat)
    ensures screen == TaskList ==>
      (WindowSize(screen, active, finished).height == MinHeight <==> active == 0)
    ensures screen == Archive ==>
      (WindowSize(screen, active, finished).height == MinHeight <==> finished <= 3)
  {
    if active >= 1 {
      assert active * RowHeight >= RowHeight;
    }
    if finished >= 4 {
      assert finished * RowHeight >= 4 * RowHeight;
    }
  }
}
