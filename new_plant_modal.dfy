/** The "Add New Plant" form (src/components/modal/NewPlantModal.tsx): the draft
    the inputs edit, its validation, and the submit guard. Numbers are taken as
    reals so that fractional input is represented; an absent day offset is
    `None` (JavaScript `undefined`). */
module NewPlantModal {
  import opened Types
  import Js

  /** The `newPlant` draft (its `id` is not validated and is left out). */
  datatype PlantDraft = PlantDraft(
    name: string,
    speciesId: real,
    variety: string,
    daysToGerminate: Option<real>,
    daysToHarvest: Option<real>)

  /** The draft the form opens with. */
  const InitialDraft := PlantDraft("", 0.0, "", None, None)

  /** `isPositiveInteger`: `undefined` passes, any number must be a whole number
      of at least 1. */
  predicate IsPositiveInteger(value: Option<real>): (ok: bool)
    ensures ok <==> value.None? || (value.value == value.value.Floor as real && value.value.Floor >= 1)
  {
    value.None? || (Js.IsInteger(value.value) && value.value > 0.0)
  }

  /** `isFormValid`: the name and the variety have a visible character, a
      species is chosen, and each day offset passes `isPositiveInteger`. */
  predicate IsFormValid(draft: PlantDraft): (valid: bool)
    ensures valid <==>
              && !Js.AllWhiteSpace(draft.name) && !Js.AllWhiteSpace(draft.variety)
              && draft.speciesId > 0.0
              && IsPositiveInteger(draft.daysToGerminate) && IsPositiveInteger(draft.daysToHarvest)
  {
    && Js.Trim(draft.name) != ""
    && draft.speciesId > 0.0
    && Js.Trim(draft.variety) != ""
    && IsPositiveInteger(draft.daysToGerminate)
    && IsPositiveInteger(draft.daysToHarvest)
  }

  /** `Number(e.target.value) || undefined`: NaN and 0 (which is also what an
      empty field gives) are falsy and clear the offset. */
  function DaysFromInput(input: Js.NumberInput): (days: Option<real>)
    ensures days.Some? ==> input.Numeric? && days.value == input.value && days.value != 0.0
    ensures input.Numeric? && input.value != 0.0 ==> days == Some(input.value)
  {
    match input
    case NaN => None
    case Numeric(v) => if v == 0.0 then None else Some(v)
  }

  /** `handleSubmit`: the plant handed to the add mutation, if any. */
  function HandleSubmit(draft: PlantDraft): (sent: Option<PlantDraft>)
    ensures sent.Some? <==> IsFormValid(draft)
    ensures sent.Some? ==> sent.value == draft
  {
    if IsFormValid(draft) then Some(draft) else None
  }

  /** A submitted plant has a name and a variety with a visible character, a
      positive species id, and day offsets that are absent or whole numbers
      of at least 1. */
  lemma SubmittedPlantWellFormed(draft: PlantDraft)
    requires HandleSubmit(draft).Some?
    ensures exists i :: 0 <= i < |draft.name| && !Js.IsWhiteSpace(draft.name[i])
    ensures exists i :: 0 <= i < |draft.variety| && !Js.IsWhiteSpace(draft.variety[i])
    ensures draft.speciesId > 0.0
    ensures draft.daysToGerminate.Some? ==>
              draft.daysToGerminate.value == draft.daysToGerminate.value.Floor as real && draft.daysToGerminate.value.Floor >= 1
    ensures draft.daysToHarvest.Some? ==>
              draft.daysToHarvest.value == draft.daysToHarvest.value.Floor as real && draft.daysToHarvest.value.Floor >= 1
  {
  }

  /** A draft with a visible name and variety, a positive species and no day
      offsets passes: both offsets may be left out. */
  lemma OffsetsMayBeAbsent(name: string, speciesId: real, variety: string)
    requires !Js.AllWhiteSpace(name) && !Js.AllWhiteSpace(variety) && speciesId > 0.0
    ensures IsFormValid(PlantDraft(name, speciesId, variety, None, None))
  {
  }

  /** What the number inputs can produce always passes the offset check unless
      the number typed is fractional or negative. */
  lemma OffsetInputCheck(input: Js.NumberInput)
    ensures IsPositiveInteger(DaysFromInput(input))
            <==> input.NaN? || input.value == 0.0 || (Js.IsInteger(input.value) && input.value > 0.0)
  {
  }

  /** The form opens invalid: its name is empty. */
  lemma InitialDraftInvalid()
    ensures HandleSubmit(InitialDraft).None?
  {
  }
}
