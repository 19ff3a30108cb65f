/**
 * Relative-time labels: displayTasksScreen.generateTimeLabel (time left until
 * a deadline, or time overdue) and finishedTasks.generateTimeLabel (time since
 * a task was finished). Deltas are whole seconds.
 */
module TimeLabels {
  import opened Numerals

  const MinuteSecs: int := 60
  const HourSecs: int := 3600
  const DaySecs: int := 86400

  function Abs(x: int): nat {
    if x < 0 then -x else x
  }

  function Max(a: int, b: int): int {
    if a < b then b else a
  }

  /**
   * Python's round(n / d) for integers n and d > 0: the nearest integer,
   * ties going to the even neighbour.
   */
  function RoundHalfEven(n: int, d: int): (r: int)
    requires d > 0
    ensures 2 * Abs(n - r * d) <= d
    ensures 2 * Abs(n - r * d) == d ==> r % 2 == 0
  {
    var q, m := n / d, n % d;
    assert n - (q + 1) * d == m - d;
    if 2 * m < d then q
    else if 2 * m > d then q + 1
    else if q % 2 == 0 then q else q + 1
  }

  /** Multiplying by a positive unit keeps the order of the counts. */
  lemma {:induction false} MulMonotone(a: int, b: int, d: int)
    requires d > 0 && a <= b
    ensures a * d <= b * d
    decreases b - a
  {
    if a < b {
      MulMonotone(a, b - 1, d);
      assert b * d == (b - 1) * d + d;
    }
  }

  /** A non-zero count of units is at least one whole unit away from zero. */
  lemma UnitMultipleBound(k: int, d: int)
    requires d > 0 && k != 0 && -d <= k * d <= d
    ensures k == 1 || k == -1
  {
    if k >= 2 {
      MulMonotone(2, k, d);
    } else if k <= -2 {
      MulMonotone(k, -2, d);
    }
  }

  /** The two conditions of RoundHalfEven's contract pin the result down. */
  lemma RoundHalfEvenUnique(n: int, d: int, r: int)
    requires d > 0
    requires 2 * Abs(n - r * d) <= d
    requires 2 * Abs(n - r * d) == d ==> r % 2 == 0
    ensures r == RoundHalfEven(n, d)
  {
    var r0 := RoundHalfEven(n, d);
    if r != r0 {
      var k := r - r0;
      assert (r - r0) * d == r * d - r0 * d by { }
      UnitMultipleBound(k, d);
      assert false;
    }
  }

  /** round(-x) == -round(x): rounding half to even is symmetric about zero. */
  lemma RoundHalfEvenNegate(n: int, d: int)
    requires d > 0
    ensures RoundHalfEven(-n, d) == -RoundHalfEven(n, d)
  {
    var r := RoundHalfEven(n, d);
    assert -n - (-r) * d == -(n - r * d);
    RoundHalfEvenUnique(-n, d, -r);
  }

  /** Rounding never reverses the order of its inputs. */
  lemma RoundHalfEvenMonotone(a: int, b: int, d: int)
    requires d > 0 && a <= b
    ensures RoundHalfEven(a, d) <= RoundHalfEven(b, d)
  {
    var ra, rb := RoundHalfEven(a, d), RoundHalfEven(b, d);
    if ra > rb {
      assert (rb + 1) * d == rb * d + d;
      MulMonotone(rb + 1, ra, d);
      assert false;
    }
  }

  /** A multiple of the unit rounds to its own count of units. */
  lemma RoundHalfEvenExact(k: int, d: int)
    requires d > 0
    ensures RoundHalfEven(k * d, d) == k
  {
    RoundHalfEvenUnique(k * d, d, k);
  }

  datatype Unit = Minutes | Hours | Days

  function Seconds(u: Unit): int {
    match u
    case Minutes => MinuteSecs
    case Hours => HourSecs
    case Days => DaySecs
  }

  /** Left: time until the deadline; Late: time past it; Ago: time since finishing. */
  datatype Direction = Left | Late | Ago

  /** The style picked for a deadline label: neutral, orange-bold or red. */
  datatype Urgency = Normal | Warning | Overdue

  /** A label such as "3 hours left"; plural selects "hours" over "hour". */
  datatype TimeLabel = TimeLabel(amount: nat, unit: Unit, plural: bool, dir: Direction)

  datatype Badge = Badge(time: TimeLabel, urgency: Urgency)

  /** "N units" text, replaced by the singular "1 unit" when the rounded count is below 2. */
  function Counted(n: int, u: Unit, dir: Direction): (l: TimeLabel)
    ensures l.unit == u && l.dir == dir
    ensures l.amount == Max(1, n) && (l.plural <==> n >= 2)
  {
    if n < 2 then TimeLabel(1, u, false, dir) else TimeLabel(n, u, true, dir)
  }

  /**
   * displayTasksScreen.generateTimeLabel: delta is deadline minus now. The
   * label counts |delta| rounded to the largest unit below it, at least 1.
   */
  function DeadlineBadge(delta: int): (b: Badge)
    ensures b.time.dir == (if delta > 0 then Left else Late)
    ensures b.urgency == Overdue <==> delta <= 0
    ensures b.urgency == Warning <==> 0 < delta <= HourSecs
    ensures b.time.unit == Days <==> delta > DaySecs || delta <= -DaySecs
    ensures b.time.unit == Minutes <==> -HourSecs < delta <= HourSecs
    ensures b.time.amount == Max(1, RoundHalfEven(Abs(delta), Seconds(b.time.unit)))
    ensures b.time.plural <==> b.time.amount >= 2
  {
    if delta > DaySecs then
      Badge(Counted(RoundHalfEven(delta, DaySecs), Days, Left), Normal)
    else if delta > HourSecs then
      Badge(Counted(RoundHalfEven(delta, HourSecs), Hours, Left), Normal)
    else if delta > 0 then
      Badge(Counted(RoundHalfEven(delta, MinuteSecs), Minutes, Left), Warning)
    else if delta > -HourSecs then
      RoundHalfEvenNegate(-delta, MinuteSecs);
      Badge(Counted(Abs(RoundHalfEven(delta, MinuteSecs)), Minutes, Late), Overdue)
    else if delta > -DaySecs then
      RoundHalfEvenNegate(-delta, HourSecs);
      Badge(Counted(Abs(RoundHalfEven(delta, HourSecs)), Hours, Late), Overdue)
    else
      RoundHalfEvenNegate(-delta, DaySecs);
      Badge(Counted(Abs(RoundHalfEven(delta, DaySecs)), Days, Late), Overdue)
  }

  /** No bucket shows a count beyond the next unit up: at most 60 minutes, at most 24 hours. */
  lemma {:induction false} DeadlineAmountBounds(delta: int)
    ensures DeadlineBadge(delta).time.unit == Minutes ==> DeadlineBadge(delta).time.amount <= 60
    ensures DeadlineBadge(delta).time.unit == Hours ==> DeadlineBadge(delta).time.amount <= 24
  {
    var b := DeadlineBadge(delta);
    if b.time.unit == Minutes {
      RoundHalfEvenMonotone(Abs(delta), 60 * MinuteSecs, MinuteSecs);
      RoundHalfEvenExact(60, MinuteSecs);
    } else if b.time.unit == Hours {
      RoundHalfEvenMonotone(Abs(delta), 24 * HourSecs, HourSecs);
      RoundHalfEvenExact(24, HourSecs);
    }
  }

  /** finishedTasks.generateTimeLabel as written: delta is now minus the finishing time. */
  function ArchiveLabelAsWritten(delta: int): (l: TimeLabel)
    ensures l.dir == Ago && l.amount >= 1
    ensures l.unit == Days <==> delta > DaySecs
    ensures l.unit == Minutes <==> delta <= HourSecs
    ensures !l.plural <==> delta <= MinuteSecs
    ensures delta > MinuteSecs ==> l.amount == RoundHalfEven(delta, Seconds(l.unit))
    ensures delta <= MinuteSecs ==> l.amount == 1
  {
    if delta > DaySecs then
      RoundHalfEvenMonotone(DaySecs, delta, DaySecs);
      RoundHalfEvenExact(1, DaySecs);
      TimeLabel(RoundHalfEven(delta, DaySecs), Days, true, Ago)
    else if delta > HourSecs then
      RoundHalfEvenMonotone(HourSecs, delta, HourSecs);
      RoundHalfEvenExact(1, HourSecs);
      TimeLabel(RoundHalfEven(delta, HourSecs), Hours, true, Ago)
    else if delta > MinuteSecs then
      RoundHalfEvenMonotone(MinuteSecs, delta, MinuteSecs);
      RoundHalfEvenExact(1, MinuteSecs);
      TimeLabel(RoundHalfEven(delta, MinuteSecs), Minutes, true, Ago)
    else
      TimeLabel(1, Minutes, false, Ago)
  }

  /** The archive label as evidently intended: singular whenever the count is 1. */
  function ArchiveLabel(delta: int): (l: TimeLabel)
    ensures l.dir == Ago && l.amount >= 1
    ensures l.plural <==> l.amount >= 2
    ensures l.unit == ArchiveLabelAsWritten(delta).unit
    ensures l.amount == ArchiveLabelAsWritten(delta).amount
    ensures l.plural != ArchiveLabelAsWritten(delta).plural <==> delta > MinuteSecs && l.amount == 1
  {
    var w := ArchiveLabelAsWritten(delta);
    TimeLabel(w.amount, w.unit, w.amount >= 2, Ago)
  }

  function UnitWord(u: Unit, plural: bool): string {
    match u
    case Minutes => if plural then "minutes" else "minute"
    case Hours => if plural then "hours" else "hour"
    case Days => if plural then "days" else "day"
  }

  function Suffix(dir: Direction): string {
    match dir
    case Left => " left"
    case Late => " late!"
    case Ago => " ago"
  }

  /** The text shown: str(amount), a space, the unit word, the suffix. */
  function Text(l: TimeLabel): string {
    NatToString(l.amount) + " " + UnitWord(l.unit, l.plural) + Suffix(l.dir)
  }

  /**
   * The archive label as written says "1 minutes ago" for 61 seconds, and
   * likewise "1 hours ago" and "1 days ago" just past those thresholds.
   */
  lemma ArchiveLabelAsWrittenSaysOneMinutes()
    ensures Text(ArchiveLabelAsWritten(61)) == "1 minutes ago"
    ensures Text(ArchiveLabelAsWritten(3601)) == "1 hours ago"
    ensures Text(ArchiveLabelAsWritten(86401)) == "1 days ago"
  {
    RoundHalfEvenUnique(61, MinuteSecs, 1);
    RoundHalfEvenUnique(3601, HourSecs, 1);
    RoundHalfEvenUnique(86401, DaySecs, 1);
  }

  /** The corrected archive label writes the singular word exactly when the count is 1. */
  lemma ArchiveLabelGrammatical(delta: int)
    ensures ArchiveLabel(delta).amount == 1 ==>
      Text(ArchiveLabel(delta)) == "1 " + UnitWord(ArchiveLabel(delta).unit, false) + " ago"
    ensures ArchiveLabel(delta).amount >= 2 ==>
      Text(ArchiveLabel(delta)) == NatToString(ArchiveLabel(delta).amount) + " "
        + UnitWord(ArchiveLabel(delta).unit, true) + " ago"
  {
  }

  /** Worked examples: two days ahead, half an hour late, and exactly at the deadline. */
  lemma DeadlineTextExamples()
    ensures Text(DeadlineBadge(2 * DaySecs).time) == "2 days left"
    ensures DeadlineBadge(2 * DaySecs).urgency == Normal
    ensures Text(DeadlineBadge(-30 * MinuteSecs).time) == "30 minutes late!"
    ensures DeadlineBadge(-30 * MinuteSecs).urgency == Overdue
    ensures Text(DeadlineBadge(0).time) == "1 minute late!"
    ensures Text(DeadlineBadge(30).time) == "1 minute left"
    ensures DeadlineBadge(30).urgency == Warning
  {
    RoundHalfEvenExact(2, DaySecs);
    RoundHalfEvenExact(30, MinuteSecs);
    RoundHalfEvenExact(0, MinuteSecs);
    RoundHalfEvenUnique(30, MinuteSecs, 0);
    assert NatToString(30) == "30";
  }
}
