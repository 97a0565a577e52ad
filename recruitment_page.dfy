// app/recruitment/page.tsx: the recruitment page's state (listed offers,
// departments, filters and the delete dialog) and the handlers that update
// it by calling the server actions.
module RecruitmentPage {
  import opened Base
  import opened RecruitmentSchema
  import opened RecruitmentTables
  import opened RecruitmentActions
  import opened JobOfferFilters
  import opened DeleteOfferDialog

  /** `{ open, offerId?, candidateCount? }`. */
  datatype DeleteDialogState = DeleteDialogState(open: bool, offerId: Option<int>, candidateCount: Option<int>)

  /** `{ open: false }`, the initial state and the one every close writes. */
  const ClosedDialog := DeleteDialogState(false, None, None)

  /** The page's filters as they reach `getJobOffers`. */
  function AsListFilters(f: Filters): (l: ListFilters)
    ensures l.status == Some(f.status) && l.department == Some(f.department) && l.search == Some(f.search)
  {
    ListFilters(Some(f.status), Some(f.department), Some(f.search))
  }

  /** Position `i` holds the first listed offer with this id. */
  predicate FirstWithId(listed: seq<ListedOffer>, id: int, i: int) {
    0 <= i < |listed| && listed[i].offer.id == id && forall j :: 0 <= j < i ==> listed[j].offer.id != id
  }

  /** `jobOffers.find((o) => o.id === id)?.candidate_count || 0`. */
  function ListedCount(listed: seq<ListedOffer>, id: int): (n: nat)
    ensures (forall l :: l in listed ==> l.offer.id != id) ==> n == 0
    ensures forall i :: FirstWithId(listed, id, i) ==> n == listed[i].candidateCount
  {
    if listed == [] then 0
    else if listed[0].offer.id == id then listed[0].candidateCount
    else
      var n := ListedCount(listed[1..], id);
      assert forall i :: 1 <= i < |listed| ==> listed[i] == listed[1..][i - 1];
      n
  }

  /** `confirmDelete` returns at once when `!deleteDialog.offerId`: the
      id is missing or 0. */
  function HasTarget(d: DeleteDialogState): (b: bool)
    ensures !b <==> d.offerId.None? || d.offerId == Some(0)
  {
    d.offerId.Some? && d.offerId.value != 0
  }

  /** A stale count of 0 on the dialog makes its confirm send `force =
      false`; when the offer does have candidates and the caller may
      delete, the action asks for confirmation again. */
  lemma StaleCountAsksAgain(d: DeleteDialogState, gate: Result<Session, string>, count: nat)
    requires d.candidateCount.GetOr(0) <= 0 && gate.Success? && count > 0
    ensures DeleteVerdict(gate, count, ConfirmForce(d.candidateCount)) == NeedsConfirmation(count)
  {
  }

  class Page {
    var jobOffers: seq<ListedOffer>
    var departments: seq<string>
    var filters: Filters
    var deleteDialog: DeleteDialogState

    constructor()
      ensures filters == Default && filters == Filters("all", "all", "")
      ensures deleteDialog == ClosedDialog
      ensures jobOffers == [] && departments == []
    {
      jobOffers := [];
      departments := [];
      filters := Default;
      deleteDialog := ClosedDialog;
    }

    /** `loadData`: both reads succeed (they cannot fail in this model), so
        both lists are replaced. */
    method LoadData(store: Store)
      requires store.Valid()
      modifies this
      ensures IsListing(jobOffers, store.offers, store.candidates, Some(AsListFilters(filters)))
      ensures departments == store.GetDepartments()
      ensures filters == old(filters) && deleteDialog == old(deleteDialog)
    {
      jobOffers := store.GetJobOffers(Some(AsListFilters(filters)));
      departments := store.GetDepartments();
    }

    /** `onFiltersChange`, followed by the effect that reloads on every
        change of `filters`. */
    method SetFilters(store: Store, f: Filters)
      requires store.Valid()
      modifies this
      ensures filters == f
      ensures IsListing(jobOffers, store.offers, store.candidates, Some(AsListFilters(f)))
      ensures departments == store.GetDepartments()
      ensures deleteDialog == old(deleteDialog)
    {
      filters := f;
      LoadData(store);
    }

    /** `handleCloseOffer`: reloads after a success; a failure only shows a
        toast. */
    method HandleCloseOffer(store: Store, cookie: Option<string>, id: int)
      requires store.Valid()
      modifies this, store
      ensures store.Valid()
      ensures CheckPermissions(cookie, store.users).Failure? ==>
        unchanged(store) && unchanged(this)
      ensures CheckPermissions(cookie, store.users).Success? ==>
        && store.offers == CloseRows(old(store.offers), id, old(store.clock))
        && store.candidates == old(store.candidates)
        && IsListing(jobOffers, store.offers, store.candidates, Some(AsListFilters(filters)))
        && departments == store.GetDepartments()
      ensures filters == old(filters) && deleteDialog == old(deleteDialog)
    {
      var r := store.CloseJobOffer(cookie, id);
      if r.Pass? {
        LoadData(store);
      }
    }

    /** `handleDeleteOffer(id)`: opens the dialog on that offer with the
        count the listing shows for it. */
    method HandleDeleteOffer(id: int)
      modifies this
      ensures deleteDialog == DeleteDialogState(true, Some(id), Some(ListedCount(jobOffers, id)))
      ensures jobOffers == old(jobOffers) && departments == old(departments) && filters == old(filters)
    {
      deleteDialog := DeleteDialogState(true, Some(id), Some(ListedCount(jobOffers, id)));
    }

    /** `confirmDelete(force)`. `threw` stands for a rejected call (network
        failure); the model then leaves the tables as they were. */
    method ConfirmDelete(store: Store, cookie: Option<string>, force: bool, threw: bool)
      requires store.Valid()
      modifies this, store
      ensures store.Valid()
      ensures !HasTarget(old(deleteDialog)) ==> unchanged(this) && unchanged(store)
      ensures HasTarget(old(deleteDialog)) && threw ==>
        deleteDialog == ClosedDialog && unchanged(store) && jobOffers == old(jobOffers) && departments == old(departments)
      ensures HasTarget(old(deleteDialog)) && !threw ==>
        var id := old(deleteDialog).offerId.value;
        var v := DeleteVerdict(CheckPermissions(cookie, store.users), CountCandidates(old(store.candidates), id), force);
        && (v.NeedsConfirmation? ==> unchanged(this) && unchanged(store))
        && (v.DeleteFailed? ==>
              deleteDialog == ClosedDialog && unchanged(store) && jobOffers == old(jobOffers) && departments == old(departments))
        && (v.Deleted? ==>
              && deleteDialog == ClosedDialog
              && store.offers == RemoveOffer(old(store.offers), id)
              && store.candidates == RemoveCandidatesOf(old(store.candidates), id)
              && IsListing(jobOffers, store.offers, store.candidates, Some(AsListFilters(filters)))
              && departments == store.GetDepartments())
      ensures filters == old(filters)
    {
      if !HasTarget(deleteDialog) {
        return;
      }
      if threw {
        deleteDialog := ClosedDialog;
        return;
      }
      var r := store.DeleteJobOffer(cookie, deleteDialog.offerId.value, force);
      if r.Deleted? {
        deleteDialog := ClosedDialog;
        LoadData(store);
      } else if r.NeedsConfirmation? {
        return;
      } else {
        deleteDialog := ClosedDialog;
      }
    }

    /** The dialog's confirm button: `confirmDelete(candidateCount > 0)`
        with the offer id the handler read when it was pressed, then the
        library's own `onOpenChange(false)`. The dialog always ends closed.
        When the server deletes, the offer and its candidates are gone and
        the listing is reloaded; in every other case the tables and the
        listing stay as they were, in particular with a stale count of 0
        on an offer that has candidates. */
    method ConfirmFromDialog(store: Store, cookie: Option<string>)
      requires store.Valid()
      modifies this, store
      ensures store.Valid()
      ensures deleteDialog == ClosedDialog
      ensures !HasTarget(old(deleteDialog)) ==>
        unchanged(store) && jobOffers == old(jobOffers) && departments == old(departments)
      ensures HasTarget(old(deleteDialog)) ==>
        var id := old(deleteDialog).offerId.value;
        var v := DeleteVerdict(CheckPermissions(cookie, store.users), CountCandidates(old(store.candidates), id),
                               ConfirmForce(old(deleteDialog).candidateCount));
        && (v.Deleted? ==>
              && store.offers == RemoveOffer(old(store.offers), id)
              && store.candidates == RemoveCandidatesOf(old(store.candidates), id)
              && IsListing(jobOffers, store.offers, store.candidates, Some(AsListFilters(filters)))
              && departments == store.GetDepartments())
        && (!v.Deleted? ==> unchanged(store) && jobOffers == old(jobOffers) && departments == old(departments))
      ensures HasTarget(old(deleteDialog)) && old(deleteDialog).candidateCount.GetOr(0) <= 0
        && CheckPermissions(cookie, store.users).Success?
        && CountCandidates(old(store.candidates), old(deleteDialog).offerId.value) > 0
        ==> unchanged(store) && jobOffers == old(jobOffers) && departments == old(departments)
      ensures filters == old(filters)
    {
      var gate := CheckPermissions(cookie, store.users);
      if HasTarget(deleteDialog) && deleteDialog.candidateCount.GetOr(0) <= 0 && gate.Success?
         && CountCandidates(store.candidates, deleteDialog.offerId.value) > 0 {
        StaleCountAsksAgain(deleteDialog, gate, CountCandidates(store.candidates, deleteDialog.offerId.value));
      }
      ConfirmDelete(store, cookie, ConfirmForce(deleteDialog.candidateCount), false);
      OnOpenChange(false);
    }

    /** One round of the delete flow from a card: open the dialog on `id`,
        then press confirm. When the listing shows the offer with a count of
        0 although it has candidates, the round changes neither the tables
        nor the listing and ends with the dialog closed, so the next round
        starts from the same state: the offer cannot be deleted from this
        page until the listing is reloaded. Otherwise the round deletes
        exactly when the server's verdict for the listed count does. */
    method DeleteRound(store: Store, cookie: Option<string>, id: int)
      requires store.Valid()
      modifies this, store
      ensures store.Valid()
      ensures deleteDialog == ClosedDialog
      ensures id == 0 ==> unchanged(store) && jobOffers == old(jobOffers) && departments == old(departments)
      ensures id != 0 ==>
        var v := DeleteVerdict(CheckPermissions(cookie, store.users), CountCandidates(old(store.candidates), id),
                               ConfirmForce(Some(ListedCount(old(jobOffers), id))));
        && (v.Deleted? ==>
              && store.offers == RemoveOffer(old(store.offers), id)
              && store.candidates == RemoveCandidatesOf(old(store.candidates), id)
              && IsListing(jobOffers, store.offers, store.candidates, Some(AsListFilters(filters)))
              && departments == store.GetDepartments())
        && (!v.Deleted? ==> unchanged(store) && jobOffers == old(jobOffers) && departments == old(departments))
      ensures id != 0 && ListedCount(old(jobOffers), id) == 0
        && CheckPermissions(cookie, store.users).Success?
        && CountCandidates(old(store.candidates), id) > 0
        ==> unchanged(store) && jobOffers == old(jobOffers) && departments == old(departments)
      ensures filters == old(filters)
    {
      HandleDeleteOffer(id);
      ConfirmFromDialog(store, cookie);
    }

    /** `onOpenChange(open)`: the dialog state becomes `{ open }`, dropping
        the offer and its count. */
    method OnOpenChange(open: bool)
      modifies this
      ensures deleteDialog == DeleteDialogState(open, None, None)
      ensures jobOffers == old(jobOffers) && departments == old(departments) && filters == old(filters)
    {
      deleteDialog := DeleteDialogState(open, None, None);
    }
  }
}
