// components/recruitment/delete-offer-dialog.tsx: the confirmation dialog of
// the two-phase delete. Its texts and the `force` flag it reports are
// decided by the candidate count it is shown.
module DeleteOfferDialog {
  import opened Base

  /** Which of the two wordings the dialog uses. */
  datatype Wording = WithCandidates | Plain

  /** The dialog's texts; translations are keys, the count is interpolated
      into the "with candidates" description. */
  datatype DialogTexts = DialogTexts(
    language: Language,
    title: Wording,
    description: Wording,
    describedCount: Option<int>,
    confirm: Wording)

  datatype Button = CancelButton | ConfirmButton

  /** What a button press sends to the page: `onConfirm(force)` or only the
      dialog's own `onOpenChange(false)`. */
  datatype Event = Confirm(force: bool) | OpenChange(open: bool)

  /** The `candidateCount` prop after its default of 0. */
  function ShownCount(candidateCount: Option<int>): (n: int)
    ensures candidateCount.None? ==> n == 0
    ensures candidateCount.Some? ==> n == candidateCount.value
  {
    candidateCount.GetOr(0)
  }

  /** `onConfirm(candidateCount > 0)`. */
  function ConfirmForce(candidateCount: Option<int>): (force: bool)
    ensures force <==> candidateCount.Some? && candidateCount.value > 0
  {
    ShownCount(candidateCount) > 0
  }

  function Texts(language: Language, candidateCount: Option<int>): (t: DialogTexts)
    ensures t.language == language
    ensures t.title == t.description == t.confirm
    ensures t.title == WithCandidates <==> ConfirmForce(candidateCount)
    ensures t.describedCount.Some? <==> ConfirmForce(candidateCount)
    ensures t.describedCount.Some? ==> t.describedCount.value == candidateCount.value
  {
    var n := ShownCount(candidateCount);
    if n > 0 then DialogTexts(language, WithCandidates, WithCandidates, Some(n), WithCandidates)
    else DialogTexts(language, Plain, Plain, None, Plain)
  }

  /** The events a button press sends to the page, in order. Both buttons
      are the dialog library's close buttons, so each ends with
      `onOpenChange(false)`; only the confirm button first calls
      `onConfirm(candidateCount > 0)`. */
  function Press(b: Button, candidateCount: Option<int>): (es: seq<Event>)
    ensures |es| >= 1 && es[|es| - 1] == OpenChange(false)
    ensures (exists i :: 0 <= i < |es| && es[i].Confirm?) <==> b == ConfirmButton
    ensures b == ConfirmButton ==> es == [Confirm(ConfirmForce(candidateCount)), OpenChange(false)]
    ensures b == CancelButton ==> es == [OpenChange(false)]
  {
    match b
    case ConfirmButton =>
      var es := [Confirm(ShownCount(candidateCount) > 0), OpenChange(false)];
      assert es[0].Confirm?;
      es
    case CancelButton => [OpenChange(false)]
  }

  /** The wording and the flag agree: the user is warned about candidates
      exactly when confirming forces the cascade, in both languages. */
  lemma WarningMatchesForce(candidateCount: Option<int>)
    ensures forall l: Language :: (Texts(l, candidateCount).title == WithCandidates) == Press(ConfirmButton, candidateCount)[0].force
  {
  }

  /** An omitted count confirms without forcing. */
  lemma OmittedCountDoesNotForce()
    ensures Press(ConfirmButton, None) == [Confirm(false), OpenChange(false)]
    ensures Texts(Fr, None).title == Plain && Texts(Ar, None).title == Plain
  {
  }
}
