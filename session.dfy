/**
 * The session of the task screen: whether a new task is being added and
 * which row, if any, is being edited.
 */
module Session {

  /** editedId's value when no row is being edited. */
  const NoRow: int := -1

  /** The session never adds a task and edits a row at once. */
  predicate Exclusive(editedId: int, adding: bool) {
    !(adding && editedId != NoRow)
  }

  datatype Mode = Idle | Creating | Editing(target: int)

  predicate WellFormed(m: Mode) {
    m.Editing? ==> m.target != NoRow
  }

  /** The mode that a pair of session fields stands for. */
  function ModeOf(editedId: int, adding: bool): (m: Mode)
    requires Exclusive(editedId, adding)
    ensures WellFormed(m)
    ensures m == Idle <==> editedId == NoRow && !adding
    ensures m == Creating <==> adding
  {
    if adding then Creating else if editedId == NoRow then Idle else Editing(editedId)
  }

  function EditedIdOf(m: Mode): int {
    if m.Editing? then m.target else NoRow
  }

  function AddingOf(m: Mode): bool {
    m == Creating
  }

  /** Every well-formed mode is stood for by exactly one exclusive pair of fields. */
  lemma ModeFieldsRoundTrip(m: Mode, editedId: int, adding: bool)
    ensures WellFormed(m) ==>
      Exclusive(EditedIdOf(m), AddingOf(m)) && ModeOf(EditedIdOf(m), AddingOf(m)) == m
    ensures Exclusive(editedId, adding) ==>
      EditedIdOf(ModeOf(editedId, adding)) == editedId && AddingOf(ModeOf(editedId, adding)) == adding
  {
  }

  /** What the user can do to the session. */
  datatype Event = ToggleAdding | BeginEdit(rowid: int) | CancelEdit

  /**
   * The session's transitions: the add and cancel-add buttons toggle adding
   * (and abandon an edit), the edit button starts editing its row (and
   * abandons an add), the cancel-edit button leaves editing.
   */
  function Step(m: Mode, e: Event): (m': Mode)
    ensures WellFormed(m')
    ensures m'.Editing? <==> e.BeginEdit? && e.rowid != NoRow
    ensures m'.Editing? ==> e == BeginEdit(m'.target)
    ensures m' == Creating <==> (e == ToggleAdding && m != Creating) || (e == CancelEdit && m == Creating)
  {
    match e
    case ToggleAdding => if m == Creating then Idle else Creating
    case BeginEdit(rowid) => if rowid == NoRow then Idle else Editing(rowid)
    case CancelEdit => if m.Editing? then Idle else m
  }

  /** The periodic refresh acts only when nothing is being added or edited. */
  predicate RefreshAllowed(m: Mode) {
    m == Idle
  }
}
