// The validation schema and the role gate of the recruitment server actions
// (app/recruitment/actions.ts): which payloads are accepted, which message
// the first violated rule produces, and which callers may write.
module RecruitmentSchema {
  import opened Base
  import opened Strings

  const MaxLength: nat := 191

  const TitleTooShort := "Le titre doit contenir au moins 3 caractères"
  const TitleTooLong := "Titre trop long"
  const DepartmentRequired := "Le département est requis"
  const DepartmentTooLong := "Département trop long"
  const LocationRequired := "Le lieu est requis"
  const LocationTooLong := "Lieu trop long"
  const InvalidContractType := "Type de contrat invalide"
  const DescriptionTooShort := "La description doit contenir au moins 10 caractères"
  const InvalidStatus := "Statut invalide"

  const NotAuthenticated := "Non authentifié"
  const UserNotFound := "Utilisateur non trouvé"
  const PermissionDenied := "Permission refusée. Seuls les Admin et RH peuvent effectuer cette action."

  const ContractTypes: seq<string> := ["CDI", "CDD", "Stage", "Freelance"]
  const OfferStatuses: seq<string> := ["open", "closed"]

  /** The payload of `createJobOffer`: every field is required except `status`. */
  datatype OfferInput = OfferInput(
    title: string,
    department: string,
    location: string,
    contractType: string,
    description: string,
    status: Option<string>)

  /** The payload of `updateJobOffer` after the schema has stripped unknown
      keys: `None` is a key that was not supplied. */
  datatype OfferPatch = OfferPatch(
    title: Option<string>,
    department: Option<string>,
    location: Option<string>,
    contractType: Option<string>,
    description: Option<string>,
    status: Option<string>)

  // ---------------------------------------------------------------------------
  // The rule of each field, stated as a property of the value

  ghost predicate ValidTitle(s: string) { 3 <= JsLength(s) <= MaxLength }
  ghost predicate ValidDepartment(s: string) { 2 <= JsLength(s) <= MaxLength }
  ghost predicate ValidLocation(s: string) { 2 <= JsLength(s) <= MaxLength }
  ghost predicate ValidContractType(s: string) { s == "CDI" || s == "CDD" || s == "Stage" || s == "Freelance" }
  ghost predicate ValidDescription(s: string) { JsLength(s) >= 10 }
  ghost predicate ValidStatus(s: string) { s == "open" || s == "closed" }

  /** Every supplied field satisfies its rule. */
  ghost predicate PatchValid(p: OfferPatch) {
    && (p.title.Some? ==> ValidTitle(p.title.value))
    && (p.department.Some? ==> ValidDepartment(p.department.value))
    && (p.location.Some? ==> ValidLocation(p.location.value))
    && (p.contractType.Some? ==> ValidContractType(p.contractType.value))
    && (p.description.Some? ==> ValidDescription(p.description.value))
    && (p.status.Some? ==> ValidStatus(p.status.value))
  }

  ghost predicate InputValid(d: OfferInput) {
    && ValidTitle(d.title) && ValidDepartment(d.department) && ValidLocation(d.location)
    && ValidContractType(d.contractType) && ValidDescription(d.description)
    && (d.status.Some? ==> ValidStatus(d.status.value))
  }

  // ---------------------------------------------------------------------------
  // The message of each field's check, in the order `min` then `max`

  function LengthError(s: string, min: nat, tooShort: string, tooLong: string): (e: Option<string>)
    ensures e.None? <==> min <= JsLength(s) <= MaxLength
    ensures JsLength(s) < min ==> e == Some(tooShort)
    ensures min <= JsLength(s) && e.Some? ==> e == Some(tooLong)
  {
    if JsLength(s) < min then Some(tooShort)
    else if JsLength(s) > MaxLength then Some(tooLong)
    else None
  }

  function TitleError(s: string): (e: Option<string>)
    ensures e.None? <==> ValidTitle(s)
    ensures e.Some? ==> e.value in {TitleTooShort, TitleTooLong}
    ensures JsLength(s) < 3 ==> e == Some(TitleTooShort)
    ensures JsLength(s) > MaxLength ==> e == Some(TitleTooLong)
  {
    LengthError(s, 3, TitleTooShort, TitleTooLong)
  }

  function DepartmentError(s: string): (e: Option<string>)
    ensures e.None? <==> ValidDepartment(s)
    ensures e.Some? ==> e.value in {DepartmentRequired, DepartmentTooLong}
    ensures JsLength(s) < 2 ==> e == Some(DepartmentRequired)
    ensures JsLength(s) > MaxLength ==> e == Some(DepartmentTooLong)
  {
    LengthError(s, 2, DepartmentRequired, DepartmentTooLong)
  }

  function LocationError(s: string): (e: Option<string>)
    ensures e.None? <==> ValidLocation(s)
    ensures e.Some? ==> e.value in {LocationRequired, LocationTooLong}
    ensures JsLength(s) < 2 ==> e == Some(LocationRequired)
    ensures JsLength(s) > MaxLength ==> e == Some(LocationTooLong)
  {
    LengthError(s, 2, LocationRequired, LocationTooLong)
  }

  function ContractTypeError(s: string): (e: Option<string>)
    ensures e.None? <==> ValidContractType(s)
    ensures e.Some? ==> e.value == InvalidContractType
  {
    if s in ContractTypes then None else Some(InvalidContractType)
  }

  function DescriptionError(s: string): (e: Option<string>)
    ensures e.None? <==> ValidDescription(s)
    ensures e.Some? ==> e.value == DescriptionTooShort
  {
    if JsLength(s) < 10 then Some(DescriptionTooShort) else None
  }

  function StatusError(s: string): (e: Option<string>)
    ensures e.None? <==> ValidStatus(s)
    ensures e.Some? ==> e.value == InvalidStatus
  {
    if s in OfferStatuses then None else Some(InvalidStatus)
  }

  /** `jobOfferSchema.partial().parse(data)`: the message of the first issue,
      fields taken in the schema's order, absent fields skipped. */
  function ValidatePatch(p: OfferPatch): (e: Option<string>)
    ensures e.None? <==> PatchValid(p)
    ensures p.title.Some? && !ValidTitle(p.title.value) ==> e == TitleError(p.title.value)
    ensures (p.title.Some? ==> ValidTitle(p.title.value))
      && p.department.Some? && !ValidDepartment(p.department.value)
      ==> e == DepartmentError(p.department.value)
    ensures (p.title.Some? ==> ValidTitle(p.title.value))
      && (p.department.Some? ==> ValidDepartment(p.department.value))
      && p.location.Some? && !ValidLocation(p.location.value)
      ==> e == LocationError(p.location.value)
    ensures (p.title.Some? ==> ValidTitle(p.title.value))
      && (p.department.Some? ==> ValidDepartment(p.department.value))
      && (p.location.Some? ==> ValidLocation(p.location.value))
      && p.contractType.Some? && !ValidContractType(p.contractType.value)
      ==> e == Some(InvalidContractType)
    ensures (p.title.Some? ==> ValidTitle(p.title.value))
      && (p.department.Some? ==> ValidDepartment(p.department.value))
      && (p.location.Some? ==> ValidLocation(p.location.value))
      && (p.contractType.Some? ==> ValidContractType(p.contractType.value))
      && p.description.Some? && !ValidDescription(p.description.value)
      ==> e == Some(DescriptionTooShort)
    ensures (p.title.Some? ==> ValidTitle(p.title.value))
      && (p.department.Some? ==> ValidDepartment(p.department.value))
      && (p.location.Some? ==> ValidLocation(p.location.value))
      && (p.contractType.Some? ==> ValidContractType(p.contractType.value))
      && (p.description.Some? ==> ValidDescription(p.description.value))
      && p.status.Some? && !ValidStatus(p.status.value)
      ==> e == Some(InvalidStatus)
  {
    if p.title.Some? && TitleError(p.title.value).Some? then TitleError(p.title.value)
    else if p.department.Some? && DepartmentError(p.department.value).Some? then DepartmentError(p.department.value)
    else if p.location.Some? && LocationError(p.location.value).Some? then LocationError(p.location.value)
    else if p.contractType.Some? && ContractTypeError(p.contractType.value).Some? then ContractTypeError(p.contractType.value)
    else if p.description.Some? && DescriptionError(p.description.value).Some? then DescriptionError(p.description.value)
    else if p.status.Some? && StatusError(p.status.value).Some? then StatusError(p.status.value)
    else None
  }

  /** The create payload seen as a patch that supplies every required field. */
  function AsPatch(d: OfferInput): (p: OfferPatch)
    ensures PatchValid(p) <==> InputValid(d)
  {
    OfferPatch(Some(d.title), Some(d.department), Some(d.location), Some(d.contractType),
               Some(d.description), d.status)
  }

  /** `jobOfferSchema.parse(data)`: the same per-field rules as the partial
      schema, with every field but `status` required. */
  function ValidateInput(d: OfferInput): (e: Option<string>)
    ensures e.None? <==> InputValid(d)
    ensures !ValidTitle(d.title) ==> e == TitleError(d.title)
    ensures ValidTitle(d.title) && !ValidDepartment(d.department) ==> e == DepartmentError(d.department)
    ensures ValidTitle(d.title) && ValidDepartment(d.department) && !ValidLocation(d.location)
      ==> e == LocationError(d.location)
  {
    ValidatePatch(AsPatch(d))
  }

  /** No key of the schema survived parsing: `Object.keys(validated).length === 0`. */
  function EmptyPatch(p: OfferPatch): (b: bool)
    ensures b <==> p == OfferPatch(None, None, None, None, None, None)
  {
    p.title.None? && p.department.None? && p.location.None? && p.contractType.None?
    && p.description.None? && p.status.None?
  }

  // ---------------------------------------------------------------------------
  // The role gate

  /** The roles allowed to change offers. */
  predicate IsManager(role: string) {
    role == "admin" || role == "hr"
  }

  /** A `user_id` cookie is present and truthy (an empty value counts as absent). */
  predicate HasSession(cookie: Option<string>) {
    cookie.Some? && cookie.value != ""
  }

  datatype Session = Session(userId: string, role: string)

  /** `checkPermissions`: the cookie is resolved through the `User` table
      (`users` maps an id to a role); the three failures are checked in the
      order missing cookie, unknown user, other role. */
  function CheckPermissions(cookie: Option<string>, users: map<string, string>): (r: Result<Session, string>)
    ensures r.Success? <==> HasSession(cookie) && cookie.value in users && IsManager(users[cookie.value])
    ensures !HasSession(cookie) ==> r == Failure(NotAuthenticated)
    ensures HasSession(cookie) && cookie.value !in users ==> r == Failure(UserNotFound)
    ensures HasSession(cookie) && cookie.value in users && !IsManager(users[cookie.value])
      ==> r == Failure(PermissionDenied)
    ensures r.Success? ==> r.value.userId == cookie.value && IsManager(r.value.role)
  {
    if !HasSession(cookie) then Failure(NotAuthenticated)
    else if cookie.value !in users then Failure(UserNotFound)
    else if !IsManager(users[cookie.value]) then Failure(PermissionDenied)
    else Success(Session(cookie.value, users[cookie.value]))
  }

  // ---------------------------------------------------------------------------
  // Examples of the rules at their boundaries

  lemma TitleOfTwoCharactersRejected()
    ensures ValidateInput(OfferInput("ab", "IT", "Tunis", "CDI", "0123456789", None)) == Some(TitleTooShort)
  {
    JsLengthOfBmp("ab");
  }

  lemma DescriptionOfNineCharactersRejected()
    ensures ValidateInput(OfferInput("Dev", "IT", "Tunis", "CDI", "012345678", None)) == Some(DescriptionTooShort)
  {
    JsLengthOfBmp("Dev");
    JsLengthOfBmp("IT");
    JsLengthOfBmp("Tunis");
    JsLengthOfBmp("012345678");
  }

  lemma UnknownContractTypeRejected()
    ensures ValidateInput(OfferInput("Dev", "IT", "Tunis", "Contractor", "0123456789", None)) == Some(InvalidContractType)
  {
    JsLengthOfBmp("Dev");
    JsLengthOfBmp("IT");
    JsLengthOfBmp("Tunis");
  }
}
