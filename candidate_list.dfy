// frontend/components/recruitment/candidate-list.tsx: the candidates of one
// offer, each with a status badge, and a message when there are none.
module CandidateList {
  import opened Base

  datatype CandidateStatus = New | InReview | Shortlisted | Rejected | Hired

  /** A badge text: the translation of a known status, or the raw string. */
  datatype StatusLabel = Translated(status: CandidateStatus) | Raw(text: string)

  datatype Variant = DefaultVariant | SecondaryVariant | DestructiveVariant | OutlineVariant

  /** The keys of `statusMap` and `variantMap`. */
  function KnownStatus(s: string): (k: Option<CandidateStatus>)
    ensures k == Some(New) <==> s == "new"
    ensures k == Some(InReview) <==> s == "inReview"
    ensures k == Some(Shortlisted) <==> s == "shortlisted"
    ensures k == Some(Rejected) <==> s == "rejected"
    ensures k == Some(Hired) <==> s == "hired"
  {
    if s == "new" then Some(New)
    else if s == "inReview" then Some(InReview)
    else if s == "shortlisted" then Some(Shortlisted)
    else if s == "rejected" then Some(Rejected)
    else if s == "hired" then Some(Hired)
    else None
  }

  /** `statusMap[status] || status`. */
  function GetStatusLabel(s: string): (l: StatusLabel)
    ensures KnownStatus(s).Some? ==> l == Translated(KnownStatus(s).value)
    ensures KnownStatus(s).None? ==> l == Raw(s)
  {
    match KnownStatus(s)
    case Some(k) => Translated(k)
    case None => Raw(s)
  }

  /** `variantMap[status] || "secondary"`. */
  function GetStatusVariant(s: string): (v: Variant)
    ensures s == "new" ==> v == SecondaryVariant
    ensures s == "inReview" || s == "shortlisted" ==> v == DefaultVariant
    ensures s == "rejected" ==> v == DestructiveVariant
    ensures s == "hired" ==> v == OutlineVariant
    ensures KnownStatus(s).None? ==> v == SecondaryVariant
  {
    match KnownStatus(s)
    case Some(New) => SecondaryVariant
    case Some(InReview) => DefaultVariant
    case Some(Shortlisted) => DefaultVariant
    case Some(Rejected) => DestructiveVariant
    case Some(Hired) => OutlineVariant
    case None => SecondaryVariant
  }

  /** The fields of a candidate the list shows. */
  datatype ListedCandidate = ListedCandidate(
    id: int, firstName: string, lastName: string, email: string, phone: string,
    status: string, cvUrl: Option<string>)

  datatype CandidateCard = CandidateCard(
    id: int,
    name: string,
    badge: StatusLabel,
    variant: Variant,
    mailto: string,
    tel: string,
    cvLink: Option<string>)

  datatype ListView = NoCandidatesMessage | Cards(cards: seq<CandidateCard>)

  /** The CV link appears only for a truthy `cv_url`. */
  function CvLink(c: ListedCandidate): (l: Option<string>)
    ensures l.Some? <==> c.cvUrl.Some? && c.cvUrl.value != ""
    ensures l.Some? ==> l.value == c.cvUrl.value
  {
    if c.cvUrl.Some? && c.cvUrl.value != "" then c.cvUrl else None
  }

  function Card(c: ListedCandidate): (k: CandidateCard)
    ensures k.id == c.id && k.badge == GetStatusLabel(c.status) && k.variant == GetStatusVariant(c.status)
    ensures k.cvLink == CvLink(c)
  {
    CandidateCard(c.id, c.firstName + " " + c.lastName, GetStatusLabel(c.status), GetStatusVariant(c.status),
                  "mailto:" + c.email, "tel:" + c.phone, CvLink(c))
  }

  function CardsOf(cs: seq<ListedCandidate>): (r: seq<CandidateCard>)
    ensures |r| == |cs|
    ensures forall i :: 0 <= i < |cs| ==> r[i] == Card(cs[i])
  {
    if cs == [] then [] else [Card(cs[0])] + CardsOf(cs[1..])
  }

  /** An empty list renders only the "no candidates" message; otherwise one
      card per candidate, in the given order. */
  function Render(cs: seq<ListedCandidate>): (v: ListView)
    ensures v == NoCandidatesMessage <==> cs == []
    ensures v.Cards? ==> |v.cards| == |cs| && forall i :: 0 <= i < |cs| ==> v.cards[i] == Card(cs[i])
  {
    if |cs| == 0 then NoCandidatesMessage else Cards(CardsOf(cs))
  }

  /** Every status the candidate schema allows has its own translation. */
  lemma SchemaStatusesTranslated()
    ensures forall s :: s in ["new", "inReview", "shortlisted", "rejected", "hired"] ==> GetStatusLabel(s).Translated?
  {
  }
}
