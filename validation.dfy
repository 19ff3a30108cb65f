/** The checks run by addTask and acceptEditing before anything is written. */
module Validation {

  datatype InputError = TitleEmpty | DescriptionEmpty | IncorrectDeadline

  /** The text of the error box each failure raises. */
  function Message(e: InputError): string {
    match e
    case TitleEmpty => "Title can not be empty!"
    case DescriptionEmpty => "Description can not be empty!"
    case IncorrectDeadline => "Incorrect deadline!"
  }

  /** The three error boxes read differently, so the user can tell which check failed. */
  lemma MessagesDistinguishErrors(a: InputError, b: InputError)
    requires Message(a) == Message(b)
    ensures a == b
  {
  }

  datatype Verdict = Accepted | Rejected(error: InputError)

  /** QDateTime.secsTo: the seconds from one instant to another. */
  function SecsTo(from: int, to: int): int {
    to - from
  }

  /**
   * The title is checked first, then the description, then the deadline,
   * which is refused when it lies before now; the first failure is reported.
   */
  function CheckInput(title: string, desc: string, deadline: int, now: int): (v: Verdict)
    ensures v == Accepted <==> title != "" && desc != "" && deadline >= now
    ensures v == Rejected(TitleEmpty) <==> title == ""
    ensures v == Rejected(DescriptionEmpty) <==> title != "" && desc == ""
    ensures v == Rejected(IncorrectDeadline) <==> title != "" && desc != "" && deadline < now
  {
    if |title| < 1 then Rejected(TitleEmpty)
    else if |desc| < 1 then Rejected(DescriptionEmpty)
    else if SecsTo(deadline, now) > 0 then Rejected(IncorrectDeadline)
    else Accepted
  }

  /** The earliest deadline the date-time editors let the user pick: one hour before now. */
  function EditorMinimum(now: int): int {
    now - 3600
  }

  /**
   * The editors allow deadlines up to an hour in the past, but every one of
   * them before now is refused on accept; from now on every one is accepted.
   */
  lemma EditorMinimumLooserThanCheck(title: string, desc: string, deadline: int, now: int)
    requires title != "" && desc != ""
    requires EditorMinimum(now) <= deadline
    ensures CheckInput(title, desc, deadline, now) == Accepted <==> deadline >= now
  {
  }
}
