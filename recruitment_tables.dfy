// The `JobOffer` and `Candidate` tables of app/recruitment/actions.ts as
// values, and the row-level meaning of every SQL statement the actions issue.
// Rows are kept in insertion order; `createdAt` stands for `NOW()` read from
// an abstract clock that advances with every INSERT and UPDATE.
module RecruitmentTables {
  import opened Base
  import opened Strings
  import opened RecruitmentSchema

  datatype JobOffer = JobOffer(
    id: int,
    title: string,
    department: string,
    location: string,
    contractType: string,
    description: string,
    status: string,
    createdAt: nat,
    updatedAt: nat)

  datatype Candidate = Candidate(
    id: int,
    jobOfferId: int,
    firstName: string,
    lastName: string,
    email: string,
    phone: string,
    status: string,
    cvUrl: Option<string>,
    createdAt: nat)

  ghost predicate UniqueIds(offers: seq<JobOffer>) {
    forall i, j :: 0 <= i < j < |offers| ==> offers[i].id != offers[j].id
  }

  ghost predicate OffersByCreation(offers: seq<JobOffer>) {
    forall i, j :: 0 <= i < j < |offers| ==> offers[i].createdAt < offers[j].createdAt
  }

  ghost predicate CandidatesByCreation(cs: seq<Candidate>) {
    forall i, j :: 0 <= i < j < |cs| ==> cs[i].createdAt < cs[j].createdAt
  }

  ghost predicate NoOfferWithId(offers: seq<JobOffer>, id: int) {
    forall i :: 0 <= i < |offers| ==> offers[i].id != id
  }

  // ---------------------------------------------------------------------------
  // SELECT * FROM JobOffer WHERE id = ?

  /** The first row with that id, if any. */
  function Lookup(offers: seq<JobOffer>, id: int): (r: Option<JobOffer>)
    ensures r.None? <==> NoOfferWithId(offers, id)
    ensures r.Some? ==> r.value in offers && r.value.id == id
  {
    if offers == [] then None
    else if offers[0].id == id then Some(offers[0])
    else
      var r := Lookup(offers[1..], id);
      assert forall i :: 1 <= i < |offers| ==> offers[i] == offers[1..][i - 1];
      r
  }

  /** With unique ids, looking up a row's id finds that row. */
  lemma {:induction false} LookupFindsRow(offers: seq<JobOffer>, k: nat)
    requires UniqueIds(offers) && k < |offers|
    ensures Lookup(offers, offers[k].id) == Some(offers[k])
  {
    if k > 0 {
      assert offers[0].id != offers[k].id;
      assert offers[1..][k - 1] == offers[k];
      LookupFindsRow(offers[1..], k - 1);
    }
  }

  // ---------------------------------------------------------------------------
  // INSERT INTO JobOffer (...) VALUES (...)

  /** The row `createJobOffer` inserts: the validated fields, `status` defaulting
      to "open", both timestamps set to the current time. */
  function NewOffer(id: int, d: OfferInput, now: nat): (o: JobOffer)
    ensures o.id == id && o.createdAt == now && o.updatedAt == now
    ensures o.title == d.title && o.department == d.department && o.location == d.location
    ensures o.contractType == d.contractType && o.description == d.description
    ensures d.status.None? ==> o.status == "open"
    ensures d.status.Some? && d.status.value != "" ==> o.status == d.status.value
  {
    JobOffer(id, d.title, d.department, d.location, d.contractType, d.description,
             if d.status.Some? && d.status.value != "" then d.status.value else "open", now, now)
  }

  /** Create then get-by-id: the appended row is found under its fresh id. */
  lemma {:induction false} LookupAppended(offers: seq<JobOffer>, row: JobOffer)
    requires NoOfferWithId(offers, row.id)
    ensures Lookup(offers + [row], row.id) == Some(row)
  {
    if offers != [] {
      assert (offers + [row])[1..] == offers[1..] + [row];
      LookupAppended(offers[1..], row);
    }
  }

  // ---------------------------------------------------------------------------
  // UPDATE JobOffer SET ..., updated_at = NOW() WHERE id = ?

  /** One row after the update: exactly the supplied fields take the new value. */
  function ApplyPatch(o: JobOffer, p: OfferPatch, now: nat): (r: JobOffer)
    ensures r.id == o.id && r.createdAt == o.createdAt && r.updatedAt == now
    ensures r.title == (if p.title.Some? then p.title.value else o.title)
    ensures r.department == (if p.department.Some? then p.department.value else o.department)
    ensures r.location == (if p.location.Some? then p.location.value else o.location)
    ensures r.contractType == (if p.contractType.Some? then p.contractType.value else o.contractType)
    ensures r.description == (if p.description.Some? then p.description.value else o.description)
    ensures r.status == (if p.status.Some? then p.status.value else o.status)
  {
    o.(title := p.title.GetOr(o.title),
       department := p.department.GetOr(o.department),
       location := p.location.GetOr(o.location),
       contractType := p.contractType.GetOr(o.contractType),
       description := p.description.GetOr(o.description),
       status := p.status.GetOr(o.status),
       updatedAt := now)
  }

  /** The table after the update: every row with the id is patched, every
      other row is untouched, and no row moves. */
  function PatchRows(offers: seq<JobOffer>, id: int, p: OfferPatch, now: nat): (r: seq<JobOffer>)
    ensures |r| == |offers|
    ensures forall i :: 0 <= i < |offers| && offers[i].id != id ==> r[i] == offers[i]
    ensures forall i :: 0 <= i < |offers| && offers[i].id == id ==> r[i] == ApplyPatch(offers[i], p, now)
  {
    if offers == [] then []
    else
      var rest := PatchRows(offers[..|offers| - 1], id, p, now);
      var last := offers[|offers| - 1];
      rest + [if last.id == id then ApplyPatch(last, p, now) else last]
  }

  /** The update keeps ids and creation times, hence the table's invariants. */
  lemma PatchRowsKeepsKeys(offers: seq<JobOffer>, id: int, p: OfferPatch, now: nat)
    ensures var r := PatchRows(offers, id, p, now);
      forall i :: 0 <= i < |r| ==> r[i].id == offers[i].id && r[i].createdAt == offers[i].createdAt
  {
  }

  /** An update of an id that no row has changes nothing (and still succeeds). */
  lemma {:induction false} PatchAbsentIdIsNoOp(offers: seq<JobOffer>, id: int, p: OfferPatch, now: nat)
    requires NoOfferWithId(offers, id)
    ensures PatchRows(offers, id, p, now) == offers
  {
    if offers != [] {
      PatchAbsentIdIsNoOp(offers[..|offers| - 1], id, p, now);
      assert offers == offers[..|offers| - 1] + [offers[|offers| - 1]];
    }
  }

  /** `closeJobOffer` is the update whose only field is `status = 'closed'`. */
  const ClosePatch: OfferPatch := OfferPatch(None, None, None, None, None, Some("closed"))

  function CloseRows(offers: seq<JobOffer>, id: int, now: nat): (r: seq<JobOffer>)
    ensures |r| == |offers|
    ensures forall i :: 0 <= i < |r| && offers[i].id == id ==> r[i].status == "closed" && r[i].updatedAt == now
    ensures forall i :: 0 <= i < |r| && offers[i].id == id ==>
      r[i] == offers[i].(status := "closed", updatedAt := now)
    ensures forall i :: 0 <= i < |r| && offers[i].id != id ==> r[i] == offers[i]
  {
    PatchRows(offers, id, ClosePatch, now)
  }

  /** Closing twice is closing once (the second time only refreshes the
      update time), whatever the prior status was. */
  lemma {:induction false} CloseIdempotent(offers: seq<JobOffer>, id: int, t1: nat, t2: nat)
    ensures CloseRows(CloseRows(offers, id, t1), id, t2) == CloseRows(offers, id, t2)
  {
    var once := CloseRows(offers, id, t1);
    var twice := CloseRows(once, id, t2);
    var direct := CloseRows(offers, id, t2);
    assert |twice| == |direct|;
    forall i | 0 <= i < |twice| ensures twice[i] == direct[i] {
      assert once[i].id == offers[i].id;
    }
  }

  // ---------------------------------------------------------------------------
  // SELECT COUNT(*) / DELETE FROM Candidate WHERE job_offer_id = ?

  /** The candidates of one offer, in table order. */
  function CandidatesOf(cs: seq<Candidate>, offerId: int): (r: seq<Candidate>)
    ensures |r| <= |cs|
    ensures forall c :: c in r <==> c in cs && c.jobOfferId == offerId
  {
    if cs == [] then []
    else
      var prefix := cs[..|cs| - 1];
      var last := cs[|cs| - 1];
      assert cs == prefix + [last];
      CandidatesOf(prefix, offerId) + (if last.jobOfferId == offerId then [last] else [])
  }

  /** Selecting one offer's candidates keeps them in creation order. */
  lemma {:induction false} CandidatesOfKeepsOrder(cs: seq<Candidate>, offerId: int)
    requires CandidatesByCreation(cs)
    ensures CandidatesByCreation(CandidatesOf(cs, offerId))
  {
    if cs != [] {
      var prefix := cs[..|cs| - 1];
      var last := cs[|cs| - 1];
      CandidatesOfKeepsOrder(prefix, offerId);
      var rest := CandidatesOf(prefix, offerId);
      if last.jobOfferId == offerId {
        var r := rest + [last];
        forall i, j | 0 <= i < j < |r| ensures r[i].createdAt < r[j].createdAt {
          if j == |r| - 1 {
            assert rest[i] in prefix;
            var k :| 0 <= k < |prefix| && prefix[k] == rest[i];
            assert cs[k] == rest[i];
          } else {
            assert r[i] == rest[i] && r[j] == rest[j];
          }
        }
      }
    }
  }

  /** `COUNT(*)` of the candidates referencing the offer. */
  function CountCandidates(cs: seq<Candidate>, offerId: int): (n: nat)
    ensures n <= |cs|
    ensures n == 0 <==> forall c :: c in cs ==> c.jobOfferId != offerId
  {
    var of := CandidatesOf(cs, offerId);
    assert of != [] ==> of[0] in of;
    |of|
  }

  /** The candidate table after `DELETE ... WHERE job_offer_id = ?`. */
  function RemoveCandidatesOf(cs: seq<Candidate>, offerId: int): (r: seq<Candidate>)
    ensures |r| <= |cs|
    ensures forall c :: c in r <==> c in cs && c.jobOfferId != offerId
  {
    if cs == [] then []
    else
      var prefix := cs[..|cs| - 1];
      var last := cs[|cs| - 1];
      assert cs == prefix + [last];
      RemoveCandidatesOf(prefix, offerId) + (if last.jobOfferId != offerId then [last] else [])
  }

  /** The cascade keeps the remaining candidates in creation order. */
  lemma {:induction false} RemoveCandidatesKeepsOrder(cs: seq<Candidate>, offerId: int)
    requires CandidatesByCreation(cs)
    ensures CandidatesByCreation(RemoveCandidatesOf(cs, offerId))
  {
    if cs != [] {
      var prefix := cs[..|cs| - 1];
      var last := cs[|cs| - 1];
      RemoveCandidatesKeepsOrder(prefix, offerId);
      var rest := RemoveCandidatesOf(prefix, offerId);
      if last.jobOfferId != offerId {
        var r := rest + [last];
        forall i, j | 0 <= i < j < |r| ensures r[i].createdAt < r[j].createdAt {
          if j == |r| - 1 {
            assert rest[i] in prefix;
            var k :| 0 <= k < |prefix| && prefix[k] == rest[i];
            assert cs[k] == rest[i];
          } else {
            assert r[i] == rest[i] && r[j] == rest[j];
          }
        }
      }
    }
  }

  /** Every candidate row goes to exactly one side: removed with the offer or kept. */
  lemma {:induction false} CandidatePartition(cs: seq<Candidate>, offerId: int)
    ensures multiset(RemoveCandidatesOf(cs, offerId)) + multiset(CandidatesOf(cs, offerId)) == multiset(cs)
  {
    if cs != [] {
      var prefix := cs[..|cs| - 1];
      var last := cs[|cs| - 1];
      CandidatePartition(prefix, offerId);
      assert cs == prefix + [last];
    }
  }

  /** The cascade removes exactly as many rows as the count reported. */
  lemma CascadeRemovesCount(cs: seq<Candidate>, offerId: int)
    ensures |RemoveCandidatesOf(cs, offerId)| + CountCandidates(cs, offerId) == |cs|
  {
    CandidatePartition(cs, offerId);
    assert |multiset(RemoveCandidatesOf(cs, offerId))| + |multiset(CandidatesOf(cs, offerId))| == |multiset(cs)|;
  }

  /** Deleting one offer's candidates leaves the candidates of every other
      offer exactly as they were, order included. */
  lemma {:induction false} OtherOffersCandidatesUntouched(cs: seq<Candidate>, offerId: int, other: int)
    requires other != offerId
    ensures CandidatesOf(RemoveCandidatesOf(cs, offerId), other) == CandidatesOf(cs, other)
  {
    if cs != [] {
      var prefix := cs[..|cs| - 1];
      var last := cs[|cs| - 1];
      OtherOffersCandidatesUntouched(prefix, offerId, other);
      var kept := RemoveCandidatesOf(prefix, offerId);
      if last.jobOfferId != offerId {
        assert RemoveCandidatesOf(cs, offerId) == kept + [last];
        assert (kept + [last])[..|kept + [last]| - 1] == kept;
      } else {
        assert RemoveCandidatesOf(cs, offerId) == kept;
      }
    }
  }

  /** After the cascade no candidate references the offer. */
  lemma NoCandidateLeft(cs: seq<Candidate>, offerId: int)
    ensures CountCandidates(RemoveCandidatesOf(cs, offerId), offerId) == 0
  {
  }

  // ---------------------------------------------------------------------------
  // DELETE FROM JobOffer WHERE id = ?

  function RemoveOffer(offers: seq<JobOffer>, id: int): (r: seq<JobOffer>)
    ensures |r| <= |offers|
    ensures forall o :: o in r <==> o in offers && o.id != id
  {
    if offers == [] then []
    else
      var prefix := offers[..|offers| - 1];
      var last := offers[|offers| - 1];
      assert offers == prefix + [last];
      RemoveOffer(prefix, id) + (if last.id != id then [last] else [])
  }

  /** Deleting a row keeps ids unique and rows in creation order. */
  lemma {:induction false} RemoveOfferKeepsOrder(offers: seq<JobOffer>, id: int)
    requires UniqueIds(offers) && OffersByCreation(offers)
    ensures UniqueIds(RemoveOffer(offers, id)) && OffersByCreation(RemoveOffer(offers, id))
  {
    if offers != [] {
      var prefix := offers[..|offers| - 1];
      var last := offers[|offers| - 1];
      assert UniqueIds(prefix) && OffersByCreation(prefix);
      RemoveOfferKeepsOrder(prefix, id);
      var rest := RemoveOffer(prefix, id);
      if last.id != id {
        var r := rest + [last];
        assert RemoveOffer(offers, id) == r;
        forall i, j | 0 <= i < j < |r|
          ensures r[i].id != r[j].id && r[i].createdAt < r[j].createdAt
        {
          if j == |r| - 1 {
            assert rest[i] in prefix;
            var k :| 0 <= k < |prefix| && prefix[k] == rest[i];
            assert offers[k] == rest[i];
          } else {
            assert r[i] == rest[i] && r[j] == rest[j];
          }
        }
      }
    }
  }

  /** Deleting an id that no row has changes nothing. */
  lemma {:induction false} RemoveAbsentOffer(offers: seq<JobOffer>, id: int)
    requires NoOfferWithId(offers, id)
    ensures RemoveOffer(offers, id) == offers
  {
    if offers != [] {
      var prefix := offers[..|offers| - 1];
      var last := offers[|offers| - 1];
      assert last.id != id;
      assert NoOfferWithId(prefix, id) by {
        forall i | 0 <= i < |prefix| ensures prefix[i].id != id {
          assert prefix[i] == offers[i];
        }
      }
      RemoveAbsentOffer(prefix, id);
      assert offers == prefix + [last];
    }
  }

  /** After the delete, get-by-id finds nothing. */
  lemma RemovedOfferNotFound(offers: seq<JobOffer>, id: int)
    ensures Lookup(RemoveOffer(offers, id), id).None?
  {
    var r := RemoveOffer(offers, id);
    assert forall i :: 0 <= i < |r| ==> r[i] in r;
  }

  // ---------------------------------------------------------------------------
  // SELECT * FROM Candidate WHERE job_offer_id = ? ORDER BY created_at DESC

  /** A table read newest first. */
  function Newest(cs: seq<Candidate>): (r: seq<Candidate>)
    ensures |r| == |cs|
    ensures forall i :: 0 <= i < |cs| ==> r[i] == cs[|cs| - 1 - i]
  {
    if cs == [] then [] else [cs[|cs| - 1]] + Newest(cs[..|cs| - 1])
  }

  lemma NewestSameRows(cs: seq<Candidate>)
    ensures forall c :: c in Newest(cs) <==> c in cs
  {
    var r := Newest(cs);
    forall c | c in cs ensures c in r {
      var k :| 0 <= k < |cs| && cs[k] == c;
      assert r[|cs| - 1 - k] == c;
    }
  }

  ghost predicate CandidatesNewestFirst(cs: seq<Candidate>) {
    forall i, j :: 0 <= i < j < |cs| ==> cs[i].createdAt > cs[j].createdAt
  }

  lemma NewestReverses(cs: seq<Candidate>)
    requires CandidatesByCreation(cs)
    ensures CandidatesNewestFirst(Newest(cs))
  {
    var r := Newest(cs);
    forall i, j | 0 <= i < j < |r| ensures r[i].createdAt > r[j].createdAt {
      assert r[i] == cs[|cs| - 1 - i] && r[j] == cs[|cs| - 1 - j];
    }
  }

  // ---------------------------------------------------------------------------
  // SELECT DISTINCT department FROM JobOffer ORDER BY department

  ghost predicate StrictlySorted(s: seq<string>) {
    forall i, j :: 0 <= i < j < |s| ==> Less(s[i], s[j])
  }

  function InsertSorted(s: seq<string>, x: string): (r: seq<string>)
    requires StrictlySorted(s)
    ensures StrictlySorted(r)
    ensures forall y :: y in r <==> y in s || y == x
  {
    if s == [] then [x]
    else if x == s[0] then s
    else if Less(x, s[0]) then
      assert forall j :: 0 <= j < |s| ==> Less(x, s[j]) by {
        forall j | 0 <= j < |s| ensures Less(x, s[j]) {
          if j > 0 { LessTransitive(x, s[0], s[j]); }
        }
      }
      [x] + s
    else
      LessTotal(x, s[0]);
      var rest := InsertSorted(s[1..], x);
      assert forall y :: y in s <==> y == s[0] || y in s[1..] by {
        assert s == [s[0]] + s[1..];
      }
      assert forall y :: y in rest ==> Less(s[0], y);
      var r := [s[0]] + rest;
      assert forall i :: 1 <= i < |r| ==> r[i] in rest;
      r
  }

  /** The distinct departments of the offers, in ascending order. */
  function Departments(offers: seq<JobOffer>): (r: seq<string>)
    ensures StrictlySorted(r)
    ensures forall d :: d in r <==> exists o :: o in offers && o.department == d
  {
    if offers == [] then []
    else
      var prefix := offers[..|offers| - 1];
      var last := offers[|offers| - 1];
      assert offers == prefix + [last];
      InsertSorted(Departments(prefix), last.department)
  }

  /** A strictly sorted list has no repeated department. */
  lemma SortedIsDistinct(s: seq<string>)
    requires StrictlySorted(s)
    ensures forall i, j :: 0 <= i < j < |s| ==> s[i] != s[j]
  {
    forall i, j | 0 <= i < j < |s| ensures s[i] != s[j] {
      LessIrreflexive(s[i]);
    }
  }

  // ---------------------------------------------------------------------------
  // SELECT jo.*, COUNT(c.id) AS candidate_count FROM JobOffer jo
  //   LEFT JOIN Candidate c ON jo.id = c.job_offer_id WHERE ...
  //   GROUP BY jo.id ORDER BY jo.created_at DESC

  /** The optional filters object of `getJobOffers`. */
  datatype ListFilters = ListFilters(status: Option<string>, department: Option<string>, search: Option<string>)

  /** The conditions actually appended to the WHERE clause. */
  datatype Query = Query(status: Option<string>, department: Option<string>, search: Option<string>)

  datatype ListedOffer = ListedOffer(offer: JobOffer, candidateCount: nat)

  /** `title LIKE %term% OR description LIKE %term%` under a case-insensitive
      collation. */
  predicate SearchHit(o: JobOffer, term: string) {
    Includes(Lower(o.title), Lower(term)) || Includes(Lower(o.description), Lower(term))
  }

  predicate Matches(q: Query, o: JobOffer) {
    && (q.status.Some? ==> o.status == q.status.value)
    && (q.department.Some? ==> o.department == q.department.value)
    && (q.search.Some? ==> SearchHit(o, q.search.value))
  }

  /** A select filter narrows the listing only when it is truthy and not "all". */
  ghost function Narrows(v: Option<string>): (b: bool)
    ensures !b <==> v == None || v == Some("") || v == Some("all")
  {
    v.Some? && v.value != "" && v.value != "all"
  }

  /** What the listing promises of each offer, read off the filters: status
      and department equality unless the filter is missing or "all", and a
      search hit unless the term is missing or empty. */
  ghost function PassesFilters(f: Option<ListFilters>, o: JobOffer): (b: bool)
    ensures f.None? ==> b
    ensures f == Some(ListFilters(Some("all"), Some("all"), Some(""))) ==> b
    ensures f.Some? && f.value.status.Some? && f.value.status.value !in {"", "all"} && b
      ==> o.status == f.value.status.value
  {
    f.Some? ==>
      && (Narrows(f.value.status) ==> o.status == f.value.status.value)
      && (Narrows(f.value.department) ==> o.department == f.value.department.value)
      && (f.value.search.Some? && f.value.search.value != "" ==> SearchHit(o, f.value.search.value))
  }

  /** Rows that match, each with its candidate count, newest first. */
  function Select(offers: seq<JobOffer>, cs: seq<Candidate>, q: Query): (r: seq<ListedOffer>)
    ensures |r| <= |offers|
    ensures forall l :: l in r ==>
      l.offer in offers && Matches(q, l.offer) && l.candidateCount == CountCandidates(cs, l.offer.id)
    ensures forall o :: o in offers && Matches(q, o) ==> ListedOffer(o, CountCandidates(cs, o.id)) in r
  {
    if offers == [] then []
    else
      var prefix := offers[..|offers| - 1];
      var last := offers[|offers| - 1];
      assert offers == prefix + [last];
      (if Matches(q, last) then [ListedOffer(last, CountCandidates(cs, last.id))] else [])
        + Select(prefix, cs, q)
  }

  ghost predicate OffersNewestFirst(r: seq<ListedOffer>) {
    forall i, j :: 0 <= i < j < |r| ==> r[i].offer.createdAt > r[j].offer.createdAt
  }

  /** `ORDER BY created_at DESC`: with rows stored in creation order, the
      selection comes out newest first (and so lists no offer twice). */
  lemma {:induction false} SelectNewestFirst(offers: seq<JobOffer>, cs: seq<Candidate>, q: Query)
    requires OffersByCreation(offers)
    ensures OffersNewestFirst(Select(offers, cs, q))
  {
    if offers != [] {
      var prefix := offers[..|offers| - 1];
      var last := offers[|offers| - 1];
      assert OffersByCreation(prefix);
      SelectNewestFirst(prefix, cs, q);
      var rest := Select(prefix, cs, q);
      if Matches(q, last) {
        OlderThanLast(offers);
        assert forall j :: 0 <= j < |rest| ==> rest[j].offer in prefix;
        PrependNewest(ListedOffer(last, CountCandidates(cs, last.id)), rest);
      }
    }
  }

  /** A listing stays newest first when a strictly newer offer goes in front. */
  lemma PrependNewest(head: ListedOffer, rest: seq<ListedOffer>)
    requires OffersNewestFirst(rest)
    requires forall j :: 0 <= j < |rest| ==> rest[j].offer.createdAt < head.offer.createdAt
    ensures OffersNewestFirst([head] + rest)
  {
    var r := [head] + rest;
    forall i, j | 0 <= i < j < |r| ensures r[i].offer.createdAt > r[j].offer.createdAt {
      assert r[j] == rest[j - 1];
      if i > 0 {
        assert r[i] == rest[i - 1];
      }
    }
  }

  lemma OlderThanLast(offers: seq<JobOffer>)
    requires offers != [] && OffersByCreation(offers)
    ensures forall o :: o in offers[..|offers| - 1] ==> o.createdAt < offers[|offers| - 1].createdAt
  {
    var prefix := offers[..|offers| - 1];
    forall o | o in prefix ensures o.createdAt < offers[|offers| - 1].createdAt {
      var k :| 0 <= k < |prefix| && prefix[k] == o;
      assert offers[k] == o;
    }
  }

  /** What `getJobOffers` returns: exactly the offers that pass the filters,
      each with its number of candidate rows, newest first. */
  ghost function IsListing(r: seq<ListedOffer>, offers: seq<JobOffer>, cs: seq<Candidate>, f: Option<ListFilters>): (b: bool)
    ensures b && OffersByCreation(offers) ==> forall i, j :: 0 <= i < j < |r| ==> r[i].offer != r[j].offer
  {
    && (forall o :: o in offers && PassesFilters(f, o) ==> ListedOffer(o, CountCandidates(cs, o.id)) in r)
    && (forall l :: l in r ==>
          l.offer in offers && PassesFilters(f, l.offer) && l.candidateCount == CountCandidates(cs, l.offer.id))
    && (OffersByCreation(offers) ==> OffersNewestFirst(r))
  }

  // ---------------------------------------------------------------------------
  // SELECT c.*, jo.title AS job_title FROM Candidate c
  //   LEFT JOIN JobOffer jo ON c.job_offer_id = jo.id ORDER BY c.created_at DESC

  datatype CandidateRow = CandidateRow(candidate: Candidate, jobTitle: Option<string>)

  /** The title of the candidate's offer, NULL when the offer is gone. */
  function JobTitleOf(offers: seq<JobOffer>, c: Candidate): (t: Option<string>)
    ensures t.None? <==> NoOfferWithId(offers, c.jobOfferId)
    ensures t.Some? ==> exists o :: o in offers && o.id == c.jobOfferId && o.title == t.value
  {
    match Lookup(offers, c.jobOfferId)
    case None => None
    case Some(o) => Some(o.title)
  }

  function WithJobTitles(offers: seq<JobOffer>, cs: seq<Candidate>): (r: seq<CandidateRow>)
    ensures |r| == |cs|
    ensures forall i :: 0 <= i < |cs| ==> r[i].candidate == cs[i] && r[i].jobTitle == JobTitleOf(offers, cs[i])
  {
    if cs == [] then []
    else [CandidateRow(cs[0], JobTitleOf(offers, cs[0]))] + WithJobTitles(offers, cs[1..])
  }

  // ---------------------------------------------------------------------------
  // SELECT * FROM Candidate WHERE id = ?

  /** Position `i` holds the first candidate row with this id. */
  ghost predicate FirstCandidateWithId(cs: seq<Candidate>, id: int, i: int) {
    0 <= i < |cs| && cs[i].id == id && forall j :: 0 <= j < i ==> cs[j].id != id
  }

  function FindCandidate(cs: seq<Candidate>, id: int): (r: Option<Candidate>)
    ensures r.None? <==> forall c :: c in cs ==> c.id != id
    ensures r.Some? ==> r.value in cs && r.value.id == id
    ensures r.Some? ==> exists i :: FirstCandidateWithId(cs, id, i) && cs[i] == r.value
  {
    if cs == [] then None
    else if cs[0].id == id then
      assert FirstCandidateWithId(cs, id, 0);
      Some(cs[0])
    else
      assert forall c :: c in cs ==> c == cs[0] || c in cs[1..];
      var r := FindCandidate(cs[1..], id);
      if r.Some? then
        FirstCandidateShifts(cs, id, r.value);
        r
      else r
  }

  /** A first match in the tail is a first match one position later when
      the head does not match. */
  lemma FirstCandidateShifts(cs: seq<Candidate>, id: int, c: Candidate)
    requires cs != [] && cs[0].id != id
    requires exists i :: FirstCandidateWithId(cs[1..], id, i) && cs[1..][i] == c
    ensures exists i :: FirstCandidateWithId(cs, id, i) && cs[i] == c
  {
    var i :| FirstCandidateWithId(cs[1..], id, i) && cs[1..][i] == c;
    assert FirstCandidateWithId(cs, id, i + 1);
  }
}
