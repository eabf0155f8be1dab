/** The "Add New Tray" form (src/components/modal/NewTrayModal.tsx): the draft
    the inputs edit, its validation, and the submit guard. */
module NewTrayModal {
  import opened Types
  import Js

  /** The `newTray` draft (its `id` is not validated and is left out). */
  datatype TrayDraft = TrayDraft(name: string, location: string, rows: real, columns: real, notes: string)

  /** The draft the form opens with. */
  const InitialDraft := TrayDraft("", "", 0.0, 0.0, "")

  /** `isPositiveInteger`: a whole number of at least 1; there is no exemption
      for a missing value. */
  predicate IsPositiveInteger(value: real): (ok: bool)
    ensures ok <==> value == value.Floor as real && value.Floor >= 1
  {
    Js.IsInteger(value) && value > 0.0
  }

  /** `isFormValid`: the name and the location have a visible character, and
      the rows and the columns pass `isPositiveInteger`; the notes are not
      checked. */
  predicate IsFormValid(draft: TrayDraft): (valid: bool)
    ensures valid <==>
              && !Js.AllWhiteSpace(draft.name) && !Js.AllWhiteSpace(draft.location)
              && IsPositiveInteger(draft.rows) && IsPositiveInteger(draft.columns)
  {
    && Js.Trim(draft.name) != ""
    && Js.Trim(draft.location) != ""
    && IsPositiveInteger(draft.columns)
    && IsPositiveInteger(draft.rows)
  }

  /** `Number(e.target.value) || 0` for the rows and columns inputs. */
  function CountFromInput(input: Js.NumberInput): (v: real)
    ensures input.NaN? ==> v == 0.0
    ensures input.Numeric? ==> v == input.value
  {
    match input
    case NaN => 0.0
    case Numeric(x) => if x == 0.0 then 0.0 else x
  }

  /** `handleSubmit`: the tray handed to the add mutation, if any. */
  function HandleSubmit(draft: TrayDraft): (sent: Option<TrayDraft>)
    ensures sent.Some? <==> IsFormValid(draft)
    ensures sent.Some? ==> sent.value == draft
  {
    if IsFormValid(draft) then Some(draft) else None
  }

  /** A submitted tray has a visible name and location and at least one row
      and one column, both whole numbers. */
  lemma SubmittedTrayWellFormed(draft: TrayDraft)
    requires HandleSubmit(draft).Some?
    ensures exists i :: 0 <= i < |draft.name| && !Js.IsWhiteSpace(draft.name[i])
    ensures exists i :: 0 <= i < |draft.location| && !Js.IsWhiteSpace(draft.location[i])
    ensures draft.rows.Floor >= 1 && draft.rows == draft.rows.Floor as real
    ensures draft.columns.Floor >= 1 && draft.columns == draft.columns.Floor as real
  {
  }

  /** An empty or non-numeric rows or columns field is stored as 0 and the form
      cannot be submitted. */
  lemma EmptyCountRejected(draft: TrayDraft, rowsInput: Js.NumberInput, columnsInput: Js.NumberInput)
    requires rowsInput.NaN? || rowsInput.value == 0.0 || columnsInput.NaN? || columnsInput.value == 0.0
    ensures HandleSubmit(draft.(rows := CountFromInput(rowsInput), columns := CountFromInput(columnsInput))).None?
  {
  }

  /** The notes never decide whether the form is valid. */
  lemma NotesUnchecked(draft: TrayDraft, notes: string)
    ensures IsFormValid(draft.(notes := notes)) <==> IsFormValid(draft)
  {
  }

  /** The form opens invalid. */
  lemma InitialDraftInvalid()
    ensures HandleSubmit(InitialDraft).None?
  {
  }
}
