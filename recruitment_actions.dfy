// The server actions of app/recruitment/actions.ts over an in-memory copy of
// the `JobOffer`, `Candidate` and `User` tables. Every write statement the
// actions send to the database is also appended to `journal`, so that "no
// write happens" and "candidates are deleted before the offer" can be stated.
module RecruitmentActions {
  import opened Base
  import opened RecruitmentSchema
  import opened RecruitmentTables

  const NothingToUpdate := "Aucune donnée à mettre à jour"
  const OfferNotFound := "Offre non trouvée"
  const OfferHasCandidates := "Cette offre contient des candidats"
  const CandidateNotFound := "Candidat non trouvé"

  /** A write statement sent to the database. */
  datatype Write =
    | InsertOffer(id: int)
    | UpdateOffer(id: int)
    | DeleteCandidatesOf(offerId: int)
    | DeleteOffer(id: int)

  /** The result of `deleteJobOffer`: success, the confirmation request
      (`requiresConfirmation: true` with the candidate count, under the error
      "Cette offre contient des candidats"), or a failure message. */
  datatype DeleteResult = Deleted | NeedsConfirmation(candidateCount: nat) | DeleteFailed(error: string)

  /** The decision `deleteJobOffer` takes from the gate, the count of the
      offer's candidates and `force`. */
  function DeleteVerdict(gate: Result<Session, string>, count: nat, force: bool): (r: DeleteResult)
    ensures gate.Failure? ==> r == DeleteFailed(gate.error)
    ensures r.NeedsConfirmation? <==> gate.Success? && count > 0 && !force
    ensures r.NeedsConfirmation? ==> r.candidateCount == count
    ensures r.Deleted? <==> gate.Success? && (count == 0 || force)
  {
    if gate.Failure? then DeleteFailed(gate.error)
    else if count > 0 && !force then NeedsConfirmation(count)
    else Deleted
  }

  class Store {
    var offers: seq<JobOffer>
    var candidates: seq<Candidate>
    /** The `User` table as id -> role; nothing here writes it. */
    const users: map<string, string>
    /** The next AUTO_INCREMENT id of `JobOffer`. */
    var nextId: int
    /** The abstract time `NOW()` reads; it advances with every INSERT and UPDATE. */
    var clock: nat
    var journal: seq<Write>

    ghost predicate Valid()
      reads this
    {
      && UniqueIds(offers)
      && OffersByCreation(offers)
      && CandidatesByCreation(candidates)
      && (forall o :: o in offers ==> o.id < nextId && o.createdAt < clock)
    }

    constructor (users: map<string, string>, offers: seq<JobOffer>, candidates: seq<Candidate>, nextId: int, clock: nat)
      requires UniqueIds(offers) && OffersByCreation(offers) && CandidatesByCreation(candidates)
      requires forall o :: o in offers ==> o.id < nextId && o.createdAt < clock
      ensures Valid()
      ensures this.users == users && this.offers == offers && this.candidates == candidates
      ensures this.nextId == nextId && this.clock == clock && journal == []
    {
      this.users := users;
      this.offers := offers;
      this.candidates := candidates;
      this.nextId := nextId;
      this.clock := clock;
      journal := [];
    }

    // -------------------------------------------------------------------------
    // Reads (no permission check)

    /** `getJobOffers`: the WHERE clause is assembled condition by condition,
        then the grouped, counted and ordered selection runs. */
    method GetJobOffers(filters: Option<ListFilters>) returns (r: seq<ListedOffer>)
      requires Valid()
      ensures IsListing(r, offers, candidates, filters)
    {
      var q := Query(None, None, None);
      if filters.Some? && filters.value.status.Some? && filters.value.status.value != ""
         && filters.value.status.value != "all" {
        q := q.(status := filters.value.status);
      }
      if filters.Some? && filters.value.department.Some? && filters.value.department.value != ""
         && filters.value.department.value != "all" {
        q := q.(department := filters.value.department);
      }
      if filters.Some? && filters.value.search.Some? && filters.value.search.value != "" {
        q := q.(search := filters.value.search);
      }
      assert forall o :: Matches(q, o) <==> PassesFilters(filters, o);
      r := Select(offers, candidates, q);
      SelectNewestFirst(offers, candidates, q);
    }

    /** `getJobOfferById`: the row, or "Offre non trouvée" iff there is none. */
    function GetJobOfferById(id: int): (r: Result<JobOffer, string>)
      reads this
      requires Valid()
      ensures r.Failure? <==> NoOfferWithId(offers, id)
      ensures r.Failure? ==> r.error == OfferNotFound
      ensures r.Success? ==> r.value in offers && r.value.id == id
    {
      match Lookup(offers, id)
      case None => Failure(OfferNotFound)
      case Some(o) => Success(o)
    }

    /** `getCandidatesByOffer`: the offer's candidates, newest first; an
        unknown offer id gives the empty list. */
    function GetCandidatesByOffer(offerId: int): (r: seq<Candidate>)
      reads this
      requires Valid()
      ensures forall c :: c in r <==> c in candidates && c.jobOfferId == offerId
      ensures |r| == CountCandidates(candidates, offerId)
      ensures CandidatesNewestFirst(r)
    {
      var of := CandidatesOf(candidates, offerId);
      CandidatesOfKeepsOrder(candidates, offerId);
      NewestReverses(of);
      NewestSameRows(of);
      Newest(of)
    }

    /** `getCandidates`: every candidate, newest first, with the title of its
        offer (none when the offer row is missing). */
    function GetCandidates(): (r: seq<CandidateRow>)
      reads this
      requires Valid()
      ensures |r| == |candidates|
      ensures forall i :: 0 <= i < |r| ==>
        r[i].candidate == candidates[|candidates| - 1 - i]
        && r[i].jobTitle == JobTitleOf(offers, candidates[|candidates| - 1 - i])
      ensures forall i, j :: 0 <= i < j < |r| ==> r[i].candidate.createdAt > r[j].candidate.createdAt
    {
      NewestReverses(candidates);
      WithJobTitles(offers, Newest(candidates))
    }

    /** `getDepartments`: each department once, in ascending order. */
    function GetDepartments(): (r: seq<string>)
      reads this
      requires Valid()
      ensures forall d :: d in r <==> exists o :: o in offers && o.department == d
      ensures forall i, j :: 0 <= i < j < |r| ==> r[i] != r[j]
      ensures StrictlySorted(r)
    {
      SortedIsDistinct(Departments(offers));
      Departments(offers)
    }

    /** The checks `summarizeCandidateCV` makes before it calls the AI
        service: the gate, then the candidate lookup. `Success` carries the
        candidate whose fields go into the prompt. */
    function SummarizeCandidateCV(cookie: Option<string>, candidateId: int): (r: Result<Candidate, string>)
      reads this
      requires Valid()
      ensures CheckPermissions(cookie, users).Failure? ==> r == Failure(CheckPermissions(cookie, users).error)
      ensures CheckPermissions(cookie, users).Success? && (forall c :: c in candidates ==> c.id != candidateId)
        ==> r == Failure(CandidateNotFound)
      ensures r.Success? <==> CheckPermissions(cookie, users).Success? && exists c :: c in candidates && c.id == candidateId
      ensures r.Success? ==> exists i :: FirstCandidateWithId(candidates, candidateId, i) && candidates[i] == r.value
    {
      var gate := CheckPermissions(cookie, users);
      if gate.Failure? then Failure(gate.error)
      else match FindCandidate(candidates, candidateId)
        case None => Failure(CandidateNotFound)
        case Some(c) => Success(c)
    }

    // -------------------------------------------------------------------------
    // Writes (admin or hr only)

    /** `createJobOffer`: gate, then validation, then one INSERT. */
    method CreateJobOffer(cookie: Option<string>, data: OfferInput) returns (r: Result<int, string>)
      requires Valid()
      modifies this
      ensures Valid()
      ensures CheckPermissions(cookie, users).Failure? ==>
        r == Failure(CheckPermissions(cookie, users).error) && unchanged(this)
      ensures CheckPermissions(cookie, users).Success? && ValidateInput(data).Some? ==>
        r == Failure(ValidateInput(data).value) && unchanged(this)
      ensures r.Success? <==> CheckPermissions(cookie, users).Success? && InputValid(data)
      ensures r.Success? ==>
        && r.value == old(nextId)
        && NoOfferWithId(old(offers), r.value)
        && offers == old(offers) + [NewOffer(r.value, data, old(clock))]
        && candidates == old(candidates)
        && journal == old(journal) + [InsertOffer(r.value)]
        && GetJobOfferById(r.value) == Success(NewOffer(r.value, data, old(clock)))
    {
      var gate := CheckPermissions(cookie, users);
      if gate.Failure? {
        return Failure(gate.error);
      }
      var invalid := ValidateInput(data);
      if invalid.Some? {
        return Failure(invalid.value);
      }
      var id := nextId;
      var row := NewOffer(id, data, clock);
      assert NoOfferWithId(offers, id);
      LookupAppended(offers, row);
      offers := offers + [row];
      journal := journal + [InsertOffer(id)];
      nextId := nextId + 1;
      clock := clock + 1;
      r := Success(id);
    }

    /** `updateJobOffer`: gate, then partial validation, then the empty-patch
        check, then one UPDATE of whatever rows have the id (possibly none). */
    method UpdateJobOffer(cookie: Option<string>, id: int, patch: OfferPatch) returns (r: Outcome<string>)
      requires Valid()
      modifies this
      ensures Valid()
      ensures CheckPermissions(cookie, users).Failure? ==>
        r == Fail(CheckPermissions(cookie, users).error) && unchanged(this)
      ensures CheckPermissions(cookie, users).Success? && ValidatePatch(patch).Some? ==>
        r == Fail(ValidatePatch(patch).value) && unchanged(this)
      ensures CheckPermissions(cookie, users).Success? && PatchValid(patch) && EmptyPatch(patch) ==>
        r == Fail(NothingToUpdate) && unchanged(this)
      ensures r.Pass? <==> CheckPermissions(cookie, users).Success? && PatchValid(patch) && !EmptyPatch(patch)
      ensures r.Pass? ==>
        && offers == PatchRows(old(offers), id, patch, old(clock))
        && candidates == old(candidates)
        && nextId == old(nextId)
        && journal == old(journal) + [UpdateOffer(id)]
    {
      var gate := CheckPermissions(cookie, users);
      if gate.Failure? {
        return Fail(gate.error);
      }
      var invalid := ValidatePatch(patch);
      if invalid.Some? {
        return Fail(invalid.value);
      }
      if EmptyPatch(patch) {
        return Fail(NothingToUpdate);
      }
      PatchRowsKeepsKeys(offers, id, patch, clock);
      offers := PatchRows(offers, id, patch, clock);
      journal := journal + [UpdateOffer(id)];
      clock := clock + 1;
      r := Pass;
    }

    /** `closeJobOffer`: gate, then `UPDATE ... SET status = 'closed'`,
        whatever the prior status and whether or not the row exists. */
    method CloseJobOffer(cookie: Option<string>, id: int) returns (r: Outcome<string>)
      requires Valid()
      modifies this
      ensures Valid()
      ensures CheckPermissions(cookie, users).Failure? ==>
        r == Fail(CheckPermissions(cookie, users).error) && unchanged(this)
      ensures r.Pass? <==> CheckPermissions(cookie, users).Success?
      ensures r.Pass? ==>
        && offers == CloseRows(old(offers), id, old(clock))
        && candidates == old(candidates)
        && nextId == old(nextId)
        && journal == old(journal) + [UpdateOffer(id)]
    {
      var gate := CheckPermissions(cookie, users);
      if gate.Failure? {
        return Fail(gate.error);
      }
      PatchRowsKeepsKeys(offers, id, ClosePatch, clock);
      offers := CloseRows(offers, id, clock);
      journal := journal + [UpdateOffer(id)];
      clock := clock + 1;
      r := Pass;
    }

    /** `deleteJobOffer`: gate, count the offer's candidates, refuse when
        there are some and `force` is off; otherwise delete the candidates
        (only when there are some and `force` is on), then the offer. */
    method DeleteJobOffer(cookie: Option<string>, id: int, force: bool) returns (r: DeleteResult)
      requires Valid()
      modifies this
      ensures Valid()
      ensures r == DeleteVerdict(CheckPermissions(cookie, users), CountCandidates(old(candidates), id), force)
      ensures !r.Deleted? ==> unchanged(this)
      ensures r.Deleted? ==>
        && offers == RemoveOffer(old(offers), id)
        && candidates == RemoveCandidatesOf(old(candidates), id)
        && nextId == old(nextId) && clock == old(clock)
        && journal == old(journal)
             + (if CountCandidates(old(candidates), id) > 0 then [DeleteCandidatesOf(id)] else [])
             + [DeleteOffer(id)]
    {
      var gate := CheckPermissions(cookie, users);
      if gate.Failure? {
        return DeleteFailed(gate.error);
      }
      var count := CountCandidates(candidates, id);
      if count > 0 && !force {
        return NeedsConfirmation(count);
      }
      if count > 0 && force {
        RemoveCandidatesKeepsOrder(candidates, id);
        candidates := RemoveCandidatesOf(candidates, id);
        journal := journal + [DeleteCandidatesOf(id)];
      } else {
        NothingToCascade(candidates, id);
      }
      RemoveOfferKeepsOrder(offers, id);
      offers := RemoveOffer(offers, id);
      journal := journal + [DeleteOffer(id)];
      r := Deleted;
    }
  }

  /** With no candidate referencing the offer, the cascade would change nothing. */
  lemma {:induction false} NothingToCascade(cs: seq<Candidate>, offerId: int)
    requires CountCandidates(cs, offerId) == 0
    ensures RemoveCandidatesOf(cs, offerId) == cs
  {
    if cs != [] {
      var prefix := cs[..|cs| - 1];
      assert cs == prefix + [cs[|cs| - 1]];
      assert cs[|cs| - 1] in cs;
      assert forall c :: c in prefix ==> c in cs;
      NothingToCascade(prefix, offerId);
    }
  }
}
