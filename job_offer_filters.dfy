// components/recruitment/job-offer-filters.tsx: the filter bar of the
// recruitment page. Every change emits a new filters value built by spread.
module JobOfferFilters {

  datatype Filters = Filters(status: string, department: string, search: string)

  /** The filters the page starts with and that "clear" emits. */
  const Default: Filters := Filters("all", "all", "")

  /** The clear button is shown iff some filter differs from its default. */
  function HasActiveFilters(f: Filters): (b: bool)
    ensures !b <==> f == Default
  {
    f.status != "all" || f.department != "all" || f.search != ""
  }

  function ClearFilters(): (f: Filters)
    ensures !HasActiveFilters(f)
  {
    Filters("all", "all", "")
  }

  /** `{ ...filters, search: value }`. */
  function WithSearch(f: Filters, value: string): (g: Filters)
    ensures g.search == value && g.status == f.status && g.department == f.department
  {
    f.(search := value)
  }

  /** `{ ...filters, status: value }`. */
  function WithStatus(f: Filters, value: string): (g: Filters)
    ensures g.status == value && g.department == f.department && g.search == f.search
  {
    f.(status := value)
  }

  /** `{ ...filters, department: value }`. */
  function WithDepartment(f: Filters, value: string): (g: Filters)
    ensures g.department == value && g.status == f.status && g.search == f.search
  {
    f.(department := value)
  }

  /** The values of the status select. */
  function StatusOptions(): (r: seq<string>)
    ensures |r| == 3 && r[0] == "all" && r[1] == "open" && r[2] == "closed"
  {
    ["all", "open", "closed"]
  }

  /** The values of the department select: "all", then the departments in
      their given order. */
  function DepartmentOptions(departments: seq<string>): (r: seq<string>)
    ensures |r| == |departments| + 1 && r[0] == "all"
    ensures forall i :: 0 <= i < |departments| ==> r[i + 1] == departments[i]
  {
    ["all"] + departments
  }
}
