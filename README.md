# Recruitment core of the HR management app, in Dafny

This project models the recruitment part of a French/Arabic HR web
application and proves properties of the model. It covers:

- the server actions of the recruitment module: the job-offer validation
  schema, the admin/HR permission gate, listing with filters and candidate
  counts, get-by-id, create, update, close, the two-phase delete that
  cascades to candidates, the candidate listings, the department list and
  the checks made before a CV summary is requested;
- the recruitment page's state machine: filters, listed offers, and the
  delete dialog (open, confirm, cancel, refresh);
- the delete dialog's wording and its `force` flag, the filter bar, the
  offer card's badge and menu, and the candidate list's status badges;
- three small decision functions elsewhere: the route guard that redirects
  unauthenticated users, the sidebar's highlighted item, and the employee
  search box.

The database is an in-memory store (`RecruitmentActions.Store`). The offer
and candidate tables are sequences of rows kept in insertion order. Offer
ids are unique and creation times strictly increase, so `ORDER BY
created_at DESC` is the reverse of table order. `NOW()` reads an abstract
clock that advances with every INSERT and UPDATE, and the auto-increment
id is a counter. Every write statement the actions send is appended to a
journal, so "no write happens" and "candidates are deleted before the offer" can be
stated. JavaScript string length counts UTF-16 code units: a character
above U+FFFF counts twice. Case folding is ASCII-only.

Module layout, one per source file: `RecruitmentSchema`,
`RecruitmentTables` and `RecruitmentActions` (app/recruitment/actions.ts),
`RecruitmentPage` (app/recruitment/page.tsx), `DeleteOfferDialog`,
`JobOfferFilters`, `JobOfferCard`, `CandidateList`, `Proxy` (the route
guard), `Sidebar`, `EmployeesContent`. `Base` and `Strings` hold shared
datatypes and the string functions of JavaScript the sources use.

## Model

| member | source | states |
|---|---|---|
| Strings.JsLength | app/recruitment/actions.ts:10-16 | The string length zod measures lies between the number of characters and twice that number. |
| Strings.Lower | frontend/components/employees/employees-content.tsx:83-84 | Models `toLowerCase` on ASCII only: the length is kept, each ASCII capital becomes its lower-case letter, and every other character is kept as it is. |
| Strings.Includes | frontend/components/employees/employees-content.tsx:84 | `includes` is true exactly when the term occurs at some position of the string. |
| RecruitmentSchema.TitleError | app/recruitment/actions.ts:10 | A title is rejected iff its length is outside [3, 191], with the "too short" message below 3 and "Titre trop long" above 191. |
| RecruitmentSchema.DepartmentError | app/recruitment/actions.ts:11 | A department is rejected iff its length is outside [2, 191], with "Le département est requis" or "Département trop long". |
| RecruitmentSchema.LocationError | app/recruitment/actions.ts:12 | A location is rejected iff its length is outside [2, 191], with "Le lieu est requis" or "Lieu trop long". |
| RecruitmentSchema.ContractTypeError | app/recruitment/actions.ts:13-15 | A contract type is rejected iff it is not CDI, CDD, Stage or Freelance, with "Type de contrat invalide". |
| RecruitmentSchema.DescriptionError | app/recruitment/actions.ts:16 | A description is rejected iff it is shorter than 10, with the "au moins 10 caractères" message. |
| RecruitmentSchema.StatusError | app/recruitment/actions.ts:17-19 | A supplied status is rejected iff it is neither open nor closed, with "Statut invalide". |
| RecruitmentSchema.ValidatePatch | app/recruitment/actions.ts:155 | The partial schema accepts a patch iff every supplied field obeys its rule; otherwise it reports the message of the first failing field in schema order. Absent fields are skipped. |
| RecruitmentSchema.ValidateInput | app/recruitment/actions.ts:114 | The full schema accepts iff all required fields obey their rules and a supplied status is valid; a bad title is reported before a bad department, which is reported before a bad location. |
| RecruitmentSchema.EmptyPatch | app/recruitment/actions.ts:158-159 | No key survived parsing exactly when every field of the patch is absent. |
| RecruitmentSchema.CheckPermissions | app/recruitment/actions.ts:25-46 | The gate passes iff the cookie is present and non-empty, names a known user, and that user is admin or hr. The failures come in the order "Non authentifié", "Utilisateur non trouvé", "Permission refusée…". |
| RecruitmentSchema.TitleOfTwoCharactersRejected | app/recruitment/actions.ts:10 | A two-character title is refused with the title's "too short" message. |
| RecruitmentSchema.DescriptionOfNineCharactersRejected | app/recruitment/actions.ts:16 | A nine-character description is refused with the description message when every earlier field is valid. |
| RecruitmentSchema.UnknownContractTypeRejected | app/recruitment/actions.ts:13-15 | An unknown contract type is refused with "Type de contrat invalide". |
| RecruitmentTables.Lookup | app/recruitment/actions.ts:94-98 | Get-by-id finds nothing iff no row has the id; a found row is in the table and has that id. |
| RecruitmentTables.LookupFindsRow | app/recruitment/actions.ts:94-100 | With unique ids, looking up any row's id returns that very row. |
| RecruitmentTables.NewOffer | app/recruitment/actions.ts:117-128 | The inserted row carries the validated fields and the current time in both timestamps, and its status is "open" when none was supplied. |
| RecruitmentTables.LookupAppended | app/recruitment/actions.ts:117-128 | Create then get-by-id: a row inserted under a fresh id is found under that id. |
| RecruitmentTables.ApplyPatch | app/recruitment/actions.ts:163-166 | An updated row takes exactly the supplied fields and the new update time; id, creation time and the other fields are kept. |
| RecruitmentTables.PatchRows | app/recruitment/actions.ts:166 | The UPDATE patches every row with the id, leaves every other row untouched and moves no row. |
| RecruitmentTables.PatchRowsKeepsKeys | app/recruitment/actions.ts:166 | An update never changes a row's id or creation time. |
| RecruitmentTables.PatchAbsentIdIsNoOp | app/recruitment/actions.ts:166 | Updating an id that no row has leaves the table as it was. |
| RecruitmentTables.CloseRows | app/recruitment/actions.ts:191 | Closing sets status "closed" and the update time on the rows with the id, whatever their prior status, and leaves the others untouched. |
| RecruitmentTables.CloseIdempotent | app/recruitment/actions.ts:191 | Closing twice equals closing once at the later time. |
| RecruitmentTables.CandidatesOf | app/recruitment/actions.ts:250 | The candidates of an offer are exactly the rows that reference it. |
| RecruitmentTables.CandidatesOfKeepsOrder | app/recruitment/actions.ts:250 | Selecting one offer's candidates keeps them in creation order. |
| RecruitmentTables.CountCandidates | app/recruitment/actions.ts:212-214 | The count is zero iff no candidate references the offer, and never exceeds the table size. |
| RecruitmentTables.RemoveCandidatesOf | app/recruitment/actions.ts:227 | The cascade keeps exactly the candidates of the other offers. |
| RecruitmentTables.RemoveCandidatesKeepsOrder | app/recruitment/actions.ts:227 | The cascade keeps the remaining candidates in creation order. |
| RecruitmentTables.CandidatePartition | app/recruitment/actions.ts:212-227 | Every candidate row is either counted and removed, or kept: the two parts together are the table, as a multiset. |
| RecruitmentTables.CascadeRemovesCount | app/recruitment/actions.ts:212-227 | The cascade removes exactly as many rows as the count reported. |
| RecruitmentTables.OtherOffersCandidatesUntouched | app/recruitment/actions.ts:227 | Deleting one offer's candidates leaves every other offer's candidates exactly as they were, in order. |
| RecruitmentTables.NoCandidateLeft | app/recruitment/actions.ts:227 | After the cascade no candidate references the offer. |
| RecruitmentTables.RemoveOffer | app/recruitment/actions.ts:232 | The DELETE keeps exactly the rows with another id. |
| RecruitmentTables.RemoveOfferKeepsOrder | app/recruitment/actions.ts:232 | Deleting an offer keeps ids unique and rows in creation order. |
| RecruitmentTables.RemoveAbsentOffer | app/recruitment/actions.ts:232 | Deleting an id that no row has changes nothing. |
| RecruitmentTables.RemovedOfferNotFound | app/recruitment/actions.ts:232 | After the delete, get-by-id finds nothing. |
| RecruitmentTables.Newest | app/recruitment/actions.ts:250 | Reading newest first returns the rows in reverse table order. |
| RecruitmentTables.NewestSameRows | app/recruitment/actions.ts:250 | Reading newest first returns the same rows, no more and no fewer. |
| RecruitmentTables.NewestReverses | app/recruitment/actions.ts:250 | With rows in creation order, the reversed read is strictly newest first. |
| RecruitmentTables.InsertSorted | app/recruitment/actions.ts:283 | Inserting into a strictly sorted list keeps it strictly sorted and adds only the new value. |
| RecruitmentTables.Departments | app/recruitment/actions.ts:283 | The distinct departments are exactly those of some offer, in strictly ascending order. |
| RecruitmentTables.SortedIsDistinct | app/recruitment/actions.ts:283 | A strictly sorted list has no repeated value, which is what DISTINCT promises. |
| RecruitmentTables.Narrows | app/recruitment/actions.ts:65-70 | A status or department filter narrows the listing unless it is missing, empty or "all". |
| RecruitmentTables.PassesFilters | app/recruitment/actions.ts:65-79 | With no filters, or with the page's default all / all / empty filters, every offer passes. An offer that passes a narrowing status filter has that status. |
| RecruitmentTables.IsListing | app/recruitment/actions.ts:55-83 | A listing of tables in creation order never lists the same offer twice. |
| RecruitmentTables.Select | app/recruitment/actions.ts:55-81 | The listing holds exactly the matching offers, each with its number of candidate rows. |
| RecruitmentTables.SelectNewestFirst | app/recruitment/actions.ts:81 | With rows in creation order, the listing is strictly newest first, so no offer appears twice. |
| RecruitmentTables.JobTitleOf | app/recruitment/actions.ts:264-270 | The joined title is NULL iff the candidate's offer row is missing, and otherwise is that offer's title. |
| RecruitmentTables.WithJobTitles | app/recruitment/actions.ts:264-270 | The LEFT JOIN pairs each candidate, in order, with its offer's title. |
| RecruitmentTables.FindCandidate | app/recruitment/actions.ts:298-303 | Finding a candidate fails iff no row has the id; otherwise it returns the first row with that id. |
| RecruitmentTables.FirstCandidateShifts | app/recruitment/actions.ts:298-303 | When the head row does not have the id, the first match in the tail is the first match of the whole table. |
| RecruitmentActions.DeleteVerdict | app/recruitment/actions.ts:209-223 | A gate failure gives its message. Otherwise confirmation is requested, with the count, iff the offer has candidates and force is off; in every other case the offer is deleted. |
| RecruitmentActions.Store.GetJobOffers | app/recruitment/actions.ts:49-89 | The listing holds exactly the offers that pass the filters, each with its candidate count, newest first. A missing or empty filter, or "all", does not narrow. |
| RecruitmentActions.Store.GetJobOfferById | app/recruitment/actions.ts:92-105 | Fails with "Offre non trouvée" iff no row has the id; otherwise returns a row with that id. |
| RecruitmentActions.Store.GetCandidatesByOffer | app/recruitment/actions.ts:247-259 | Returns exactly the offer's candidates, as many as the count, newest first; an unknown offer gives an empty list. |
| RecruitmentActions.Store.GetCandidates | app/recruitment/actions.ts:262-278 | Returns every candidate, newest first, each with its offer's title or none when the offer is gone. |
| RecruitmentActions.Store.GetDepartments | app/recruitment/actions.ts:281-289 | Returns each department in use exactly once, in ascending order. |
| RecruitmentActions.Store.SummarizeCandidateCV | app/recruitment/actions.ts:292-303 | Before the AI call: a gate failure gives its message, then an unknown candidate gives "Candidat non trouvé". The checks pass iff the gate passes and some candidate has the id, and then they carry the first row with that id. |
| RecruitmentActions.Store.CreateJobOffer | app/recruitment/actions.ts:108-146 | The gate runs first, then validation; either failure returns its message and writes nothing. It succeeds iff the caller may write and the data is valid. A success appends one row under a fresh id, journals one INSERT, and get-by-id then finds that row. |
| RecruitmentActions.Store.UpdateJobOffer | app/recruitment/actions.ts:149-183 | The checks run in this order: gate, partial validation, empty patch ("Aucune donnée à mettre à jour"); each failure writes nothing. A success patches the rows with the id, even when there are none, and journals one UPDATE. |
| RecruitmentActions.Store.CloseJobOffer | app/recruitment/actions.ts:186-203 | Succeeds iff the gate passes. The rows with the id are then closed, whatever their status and even when none exists. A failure writes nothing. |
| RecruitmentActions.Store.DeleteJobOffer | app/recruitment/actions.ts:206-244 | The result is the delete verdict, and anything but a deletion leaves the store unchanged. A deletion removes the offer and its candidates. The journal shows the candidate DELETE only when there were candidates, and it always comes before the offer DELETE. |
| RecruitmentActions.NothingToCascade | app/recruitment/actions.ts:226-232 | When the offer has no candidates, skipping the candidate DELETE leaves the same table the cascade would. |
| RecruitmentPage.AsListFilters | app/recruitment/page.tsx:76 | The page passes all three of its filter values to the listing. |
| RecruitmentPage.ListedCount | app/recruitment/page.tsx:111-115 | The dialog's count is the candidate count of the first listed offer with the id, or 0 when the offer is not listed. |
| RecruitmentPage.HasTarget | app/recruitment/page.tsx:120 | `confirmDelete` has an offer to delete unless the id is missing or 0. |
| RecruitmentPage.StaleCountAsksAgain | app/recruitment/page.tsx:115-133 | With a dialog count of 0 on an offer that does have candidates, confirming sends force = false, and the action asks for confirmation again. |
| RecruitmentPage.Page.constructor | app/recruitment/page.tsx:19-30 | The page starts with filters all / all / empty search, the dialog closed, and no offers or departments. |
| RecruitmentPage.Page.LoadData | app/recruitment/page.tsx:73-93 | Loading replaces the offers with the listing for the current filters and the departments with the distinct sorted list. |
| RecruitmentPage.Page.SetFilters | app/recruitment/page.tsx:69-71 | Changing the filters stores them and reloads the listing for them. |
| RecruitmentPage.Page.HandleCloseOffer | app/recruitment/page.tsx:95-108 | A permitted close closes the rows and reloads both the listing and the departments. A refused close changes neither the page nor the store. |
| RecruitmentPage.Page.HandleDeleteOffer | app/recruitment/page.tsx:110-117 | Opens the dialog on the offer with its listed candidate count, or 0. |
| RecruitmentPage.Page.ConfirmDelete | app/recruitment/page.tsx:119-142 | With no offer id, or id 0, nothing happens. A confirmation request leaves dialog and store exactly as they were. A deletion closes the dialog and reloads. Any other failure, or a thrown call, closes the dialog and leaves the tables alone. |
| RecruitmentPage.Page.ConfirmFromDialog | app/recruitment/page.tsx:119-142 | The confirm button runs `confirmDelete` with force = count > 0, then the dialog's own close, so the dialog always ends closed. When the server's verdict for that force is a deletion, the offer and its candidates are removed and the listing and departments are reloaded; in every other case the store, the listing and the departments are unchanged. With a stale count of 0 on an offer that has candidates, a permitted confirm is one of those other cases. |
| RecruitmentPage.Page.DeleteRound | app/recruitment/page.tsx:110-142 | Opening the dialog from a card and confirming always ends with the dialog closed. For id 0 nothing changes. Otherwise the round deletes the offer and its candidates and reloads the listing exactly when the server's verdict for force = (listed count > 0) is a deletion, and leaves the store and the listing unchanged otherwise. When the listing shows 0 for an offer that has candidates, the round leaves the store and the listing unchanged, so the next round reopens with the same 0 and the offer cannot be deleted from the page until the listing reloads. |
| RecruitmentPage.Page.OnOpenChange | app/recruitment/page.tsx:193 | Opening or closing the dialog from the dialog itself drops the offer id and the count. |
| DeleteOfferDialog.ShownCount | components/recruitment/delete-offer-dialog.tsx:26 | An omitted count is shown as 0; a given count is shown as it is. |
| DeleteOfferDialog.ConfirmForce | components/recruitment/delete-offer-dialog.tsx:62 | Confirm forces the cascade iff the shown count is defined and positive. |
| DeleteOfferDialog.Texts | components/recruitment/delete-offer-dialog.tsx:31-46 | Title, description and confirm label all use the "with candidates" wording iff the count is positive, in either language; only that wording names the count. |
| DeleteOfferDialog.Press | components/recruitment/delete-offer-dialog.tsx:60-66 | Both buttons end with the dialog's own close. Only the confirm button calls the confirm handler first, with the force flag. |
| DeleteOfferDialog.WarningMatchesForce | components/recruitment/delete-offer-dialog.tsx:31-62 | The user is warned about candidates exactly when confirming forces the cascade. |
| DeleteOfferDialog.OmittedCountDoesNotForce | components/recruitment/delete-offer-dialog.tsx:26 | An omitted count defaults to 0: plain wording and force = false. |
| JobOfferFilters.HasActiveFilters | components/recruitment/job-offer-filters.tsx:55 | Filters are inactive exactly when they equal the default all / all / empty. |
| JobOfferFilters.ClearFilters | components/recruitment/job-offer-filters.tsx:57-63 | Clearing emits filters with no active filter. |
| JobOfferFilters.WithSearch | components/recruitment/job-offer-filters.tsx:75 | Typing a search changes only the search field. |
| JobOfferFilters.WithStatus | components/recruitment/job-offer-filters.tsx:83 | Choosing a status changes only the status field. |
| JobOfferFilters.WithDepartment | components/recruitment/job-offer-filters.tsx:98 | Choosing a department changes only the department field. |
| JobOfferFilters.StatusOptions | components/recruitment/job-offer-filters.tsx:89-91 | The status options are exactly all, open and closed, in that order. |
| JobOfferFilters.DepartmentOptions | components/recruitment/job-offer-filters.tsx:104-109 | The department options are "all" followed by the given departments in their order. |
| JobOfferCard.StatusBadge | frontend/components/recruitment/job-offer-card.tsx:69-71 | The badge shows the open label and variant iff the status is exactly "open"; any other status shows closed. |
| JobOfferCard.DetailHref | frontend/components/recruitment/job-offer-card.tsx:57 | The card links to /recruitment/ followed by the offer id. |
| JobOfferCard.EditHref | frontend/components/recruitment/job-offer-card.tsx:103 | The edit link is /recruitment/{id}/edit. |
| JobOfferCard.ShownCandidateCount | frontend/components/recruitment/job-offer-card.tsx:83-88 | The count is shown iff it is defined, 0 included. |
| JobOfferCard.Menu | frontend/components/recruitment/job-offer-card.tsx:102-136 | The edit link always comes first. Close is offered iff the offer is open and a close handler exists. Delete is offered iff a delete handler exists. Each appears at most once, Close before Delete, and every handler receives the card's own id. |
| JobOfferCard.ClosedOfferMenu | frontend/components/recruitment/job-offer-card.tsx:108-136 | A closed offer's menu is edit then delete, never close. |
| CandidateList.KnownStatus | frontend/components/recruitment/candidate-list.tsx:48-54 | Exactly the five status keys are recognised, each as its own status. |
| CandidateList.GetStatusLabel | frontend/components/recruitment/candidate-list.tsx:47-56 | A known status is shown by its translation; any other is shown as the raw string. |
| CandidateList.GetStatusVariant | frontend/components/recruitment/candidate-list.tsx:58-67 | The variants are new→secondary, inReview and shortlisted→default, rejected→destructive, hired→outline, and unknown→secondary. |
| CandidateList.CvLink | frontend/components/recruitment/candidate-list.tsx:106-118 | The CV link is shown iff the CV URL is present and non-empty, and it points to that URL. |
| CandidateList.Card | frontend/components/recruitment/candidate-list.tsx:79-123 | A card shows the candidate's status label and variant and its CV link rule. |
| CandidateList.CardsOf | frontend/components/recruitment/candidate-list.tsx:79-124 | There is one card per candidate, in the given order. |
| CandidateList.Render | frontend/components/recruitment/candidate-list.tsx:69-126 | The list shows only the "no candidates" message iff it is empty, and otherwise one card per candidate in order. |
| CandidateList.SchemaStatusesTranslated | frontend/components/recruitment/candidate-list.tsx:47-56 | Every status of the candidate status enum has a translation. |
| Proxy.SomePrefix | backend/proxy.ts:10 | A path is protected iff some protected route is a prefix of it. |
| Proxy.Guard | backend/proxy.ts:5-21 | A protected path without a signed-in cookie goes to /login. Otherwise /login with a cookie goes to /dashboard. Every other request passes through. |
| Proxy.LoginIsNotProtected | backend/proxy.ts:3 | /login starts with no protected route. |
| Proxy.DashboardIsProtected | backend/proxy.ts:3 | /dashboard is protected. |
| Proxy.NoRedirectLoop | backend/proxy.ts:10-20 | The target of any redirect passes through for the same cookie, so redirects never loop. |
| Proxy.PrefixMatchesLongerPaths | backend/proxy.ts:10 | Protection is a bare prefix test: /trainings and /dashboard-old are protected, and /trainings without a cookie goes to /login. |
| Proxy.UnlistedPagesPassThrough | backend/proxy.ts:3 | /recruitment and /settings pass through without a cookie. |
| Sidebar.IsActive | frontend/components/dashboard/sidebar.tsx:62 | An item is highlighted iff the path equals its href, or the path continues the href with a slash. |
| Sidebar.AtMostOneActive | frontend/components/dashboard/sidebar.tsx:62 | Two different one-segment hrefs are never both highlighted for any path. |
| Sidebar.MenuHrefsAreSingleSegments | frontend/components/dashboard/sidebar.tsx:40-49 | Every menu href is a slash followed by one segment. |
| Sidebar.MenuHrefsDistinct | frontend/components/dashboard/sidebar.tsx:40-49 | The eight menu hrefs are pairwise different. |
| Sidebar.OneHighlightedItem | frontend/components/dashboard/sidebar.tsx:40-62 | For every path, at most one of the eight items is highlighted. |
| Sidebar.SubpageActivatesItsItem | frontend/components/dashboard/sidebar.tsx:62 | /employees/42 highlights Employees; /employeesX does not. |
| Sidebar.OutsidePageHighlightsNothing | frontend/components/dashboard/sidebar.tsx:40-62 | A one-segment path that is not a menu href highlights no item. |
| Sidebar.LoginHighlightsNothing | frontend/components/dashboard/sidebar.tsx:40-62 | /login highlights no item. |
| EmployeesContent.SearchKey | frontend/components/employees/employees-content.tsx:82 | The key holds first name, last name, code and email, in that order, separated by single spaces. |
| EmployeesContent.MatchesSearch | frontend/components/employees/employees-content.tsx:82-84 | An employee matches iff the lower-cased term occurs in the lower-cased key; the empty term matches everyone. |
| EmployeesContent.FilterEmployees | frontend/components/employees/employees-content.tsx:81-85 | The search keeps every occurrence of each matching employee and none of the others, as an order-preserving subsequence of the list. |
| EmployeesContent.EmptyTermKeepsAll | frontend/components/employees/employees-content.tsx:84 | An empty term keeps the whole list. |
| EmployeesContent.SearchIgnoresCase | frontend/components/employees/employees-content.tsx:82-84 | Terms that differ only in letter case select the same employees. |
| EmployeesContent.MatchAcrossFields | frontend/components/employees/employees-content.tsx:82 | The first name, a space and the start of the last name always match, so a term can span a field boundary. |
| EmployeesContent.AhmedBayeMatches | frontend/components/employees/employees-content.tsx:82 | "ahmed baye" matches an employee named ahmed bayed. |
| EmployeesContent.EmployeesView.constructor | frontend/components/employees/employees-content.tsx:17-22 | The page starts with empty lists, an empty term and the dialog closed. |
| EmployeesContent.EmployeesView.Loaded | frontend/components/employees/employees-content.tsx:65-66 | The first fetch fills both the full and the shown list. |
| EmployeesContent.EmployeesView.HandleSearch | frontend/components/employees/employees-content.tsx:79-87 | Searching stores the term and shows the filter of the full list, never of the previous result. |
| EmployeesContent.EmployeesView.HandleAddEmployee | frontend/components/employees/employees-content.tsx:89-92 | Adding opens the dialog and changes nothing else. |
| EmployeesContent.EmployeesView.HandleSaveEmployee | frontend/components/employees/employees-content.tsx:94-112 | A successful save sets both lists to the refetched list, closes the dialog and keeps the term. A failed save changes nothing. |
| EmployeesContent.StaleFilterAfterSave | frontend/components/employees/employees-content.tsx:102-107 | After a save, the shown list disagrees with the kept term as soon as one fetched employee does not match it. |

## Left out

- Database driver, SQL text and engine: the tables are sequences. `NOW()` is an abstract clock that strictly increases, so ties in `created_at` (two rows in the same second) are not modelled.
- Database errors: a failing query and the generic "Erreur lors de …" messages of the catch blocks are not modelled. Every read succeeds, and the page's `loadData` always replaces both lists.
- Collation: string comparison in the database is modelled as exact, code-point comparison. Under a case-insensitive collation the database would also treat "IT" and "it" as one value. This affects `SELECT DISTINCT department` (RecruitmentTables.Departments), the `=` filters on status and department (RecruitmentTables.Narrows, RecruitmentTables.Matches) and the order of `ORDER BY department`; the model keeps such values apart and sorts by code point.
- SQL `LIKE`: search is a substring match on ASCII-lower-cased text. The `%` and `_` wildcards inside a term and non-ASCII case and accent folding are not modelled.
- Strings.Lower: only ASCII capitals are folded. JavaScript's `toLowerCase` also folds accented and other non-ASCII capitals ("É" becomes "é", and some characters change length), so EmployeesContent.MatchesSearch and EmployeesContent.SearchIgnoresCase differ from the source on such names.
- MySQL's coercion of a string `user_id` cookie, or of a string id, to a number is not modelled; ids are integers and the cookie is matched as a key of the user table.
- RecruitmentSchema.ValidateInput: its contract states the first three fields' message order; the order of the later fields follows from `ValidatePatch`, whose contract states all six.
- RecruitmentSchema.ValidatePatch: unknown keys are taken as absent, as zod strips them. A key supplied with an explicit `undefined` value is also taken as absent, which differs from the source. Zod keeps such a key, so it is listed by `Object.keys`, `undefined` is bound in the UPDATE, and the database driver throws; the action then returns the driver's message. Database errors are not part of this model. A patch that reopens a closed offer is accepted, as in the source.
- Type errors zod would raise for non-string fields are not modelled; every field is a string.
- RecruitmentActions.Store.SummarizeCandidateCV: the prompt assembly and the AI call (`generateSummary`) are an external HTTP service; the model stops at the gate and the candidate lookup.
- Concurrency: requests are sequential, and the two DELETE statements of `deleteJobOffer` are assumed atomic (the source runs no transaction).
- Toasts, console logging, translations and styling: labels are constructors of small enumerations.
- RecruitmentPage.Page.ConfirmDelete: a thrown call is a parameter; the model assumes it left the tables unchanged.
- The auth check that redirects the page to /login, the add-offer navigation and the loading flag are not modelled.
- RecruitmentPage.Page.ConfirmFromDialog: the dialog's close is applied right after `confirmDelete` returns; the interleaving of the close with the pending server call is not modelled, and the resulting state is the same.
- CandidateList.GetStatusLabel: a status equal to a key inherited by JavaScript objects (such as "constructor") is not modelled and is treated as unknown.
- CandidateList.GetStatusVariant: the same holds for `variantMap[status] || "secondary"`: an inherited key is treated as unknown and gets "secondary". None of these keys is a status in the candidate status enum at app/recruitment/actions.ts:22.
- EmployeesContent.FilterEmployees: employee fields that are `null` (printed as "null" in the search key) are not modelled; all four fields are strings.
- Proxy.Guard: which paths reach the guard (the framework matcher) is taken as given.
- The login flow, the other pages of the application and the employee creation route are not modelled.
