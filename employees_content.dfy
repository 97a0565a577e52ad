// frontend/components/employees/employees-content.tsx: the employee search
// box and the list reset after an employee is saved.
module EmployeesContent {
  import opened Strings

  /** The fields of an employee row the search reads. */
  datatype Employee = Employee(firstName: string, lastName: string, employeeCode: string, email: string)

  /** The four fields joined by single spaces. */
  function SearchKey(e: Employee): (k: string)
    ensures var a := |e.firstName|;
      var b := a + 1 + |e.lastName|;
      var c := b + 1 + |e.employeeCode|;
      && |k| == c + 1 + |e.email|
      && k[..a] == e.firstName && k[a] == ' '
      && k[a + 1..b] == e.lastName && k[b] == ' '
      && k[b + 1..c] == e.employeeCode && k[c] == ' '
      && k[c + 1..] == e.email
  {
    e.firstName + " " + e.lastName + " " + e.employeeCode + " " + e.email
  }

  /** The lowercased key contains the lowercased term; the empty term
      matches every employee. */
  function MatchesSearch(e: Employee, term: string): (b: bool)
    ensures b <==> exists i :: OccursAt(Lower(SearchKey(e)), Lower(term), i)
    ensures term == "" ==> b
  {
    IncludesEmpty(Lower(SearchKey(e)));
    Includes(Lower(SearchKey(e)), Lower(term))
  }

  /** `r` keeps some elements of `s`, in their order. */
  ghost predicate Subsequence<T>(r: seq<T>, s: seq<T>)
    decreases |s|
  {
    if r == [] then true
    else if s == [] then false
    else if r[0] == s[0] then Subsequence(r[1..], s[1..])
    else Subsequence(r, s[1..])
  }

  /** `employees.filter(...)` with the search predicate. */
  function FilterEmployees(employees: seq<Employee>, term: string): (r: seq<Employee>)
    ensures forall e :: e in r <==> e in employees && MatchesSearch(e, term)
    ensures Subsequence(r, employees)
    ensures forall e :: multiset(r)[e] == if MatchesSearch(e, term) then multiset(employees)[e] else 0
  {
    if employees == [] then []
    else
      var rest := FilterEmployees(employees[1..], term);
      assert employees == [employees[0]] + employees[1..];
      if MatchesSearch(employees[0], term) then
        [employees[0]] + rest
      else
        assert rest == [] || rest[0] != employees[0];
        rest
  }

  /** An empty search term keeps the whole list. */
  lemma {:induction false} EmptyTermKeepsAll(employees: seq<Employee>)
    ensures FilterEmployees(employees, "") == employees
  {
    if employees != [] {
      IncludesEmpty(Lower(SearchKey(employees[0])));
      EmptyTermKeepsAll(employees[1..]);
    }
  }

  /** Terms that differ only in letter case select the same employees. */
  lemma {:induction false} SearchIgnoresCase(employees: seq<Employee>, v1: string, v2: string)
    requires Lower(v1) == Lower(v2)
    ensures FilterEmployees(employees, v1) == FilterEmployees(employees, v2)
  {
    if employees != [] {
      SearchIgnoresCase(employees[1..], v1, v2);
    }
  }

  /** Because the fields are joined with spaces, a term can run from the
      first name into the start of the last name. */
  lemma {:induction false} MatchAcrossFields(e: Employee, p: string)
    requires p <= e.lastName
    ensures MatchesSearch(e, e.firstName + " " + p)
  {
    var term := e.firstName + " " + p;
    var rest := e.lastName[|p|..] + " " + e.employeeCode + " " + e.email;
    assert e.lastName == p + e.lastName[|p|..];
    assert SearchKey(e) == term + rest;
    LowerAppend(term, rest);
    var key := Lower(SearchKey(e));
    assert key[0..|Lower(term)|] == Lower(term);
    IncludesAt(key, Lower(term), 0);
  }

  lemma AhmedBayeMatches()
    ensures MatchesSearch(Employee("ahmed", "bayed", "E001", "ahmed@example.com"), "ahmed baye")
  {
    var e := Employee("ahmed", "bayed", "E001", "ahmed@example.com");
    MatchAcrossFields(e, "baye");
    assert e.firstName + " " + "baye" == "ahmed baye";
  }

  /** State of the employees page that the search and the save touch. */
  class EmployeesView {
    var employees: seq<Employee>
    var filteredEmployees: seq<Employee>
    var searchTerm: string
    var dialogOpen: bool

    constructor()
      ensures employees == [] && filteredEmployees == [] && searchTerm == "" && !dialogOpen
    {
      employees := [];
      filteredEmployees := [];
      searchTerm := "";
      dialogOpen := false;
    }

    /** The first fetch of `/api/employees` fills both lists. */
    method Loaded(data: seq<Employee>)
      modifies this
      ensures employees == data && filteredEmployees == data
      ensures searchTerm == old(searchTerm) && dialogOpen == old(dialogOpen)
    {
      employees := data;
      filteredEmployees := data;
    }

    /** `handleSearch(value)`: always filters the full list, never the
        previous result. */
    method HandleSearch(value: string)
      modifies this
      ensures searchTerm == value
      ensures filteredEmployees == FilterEmployees(employees, value)
      ensures employees == old(employees) && dialogOpen == old(dialogOpen)
    {
      searchTerm := value;
      filteredEmployees := FilterEmployees(employees, value);
    }

    /** `handleAddEmployee`: opens the dialog. */
    method HandleAddEmployee()
      modifies this
      ensures dialogOpen
      ensures employees == old(employees) && filteredEmployees == old(filteredEmployees) && searchTerm == old(searchTerm)
    {
      dialogOpen := true;
    }

    /** `handleSaveEmployee`: when the POST succeeds, both lists become the
        refetched list and the dialog closes; the search term is kept.
        A failed POST, or one that throws, changes nothing. */
    method HandleSaveEmployee(saved: bool, fetched: seq<Employee>)
      modifies this
      ensures saved ==> employees == fetched && filteredEmployees == fetched && !dialogOpen
      ensures saved ==> searchTerm == old(searchTerm)
      ensures !saved ==> unchanged(this)
    {
      if saved {
        employees := fetched;
        filteredEmployees := fetched;
        dialogOpen := false;
      }
    }
  }

  /** After a save the shown list is the full list, so it disagrees with
      the kept search term as soon as one fetched employee does not match. */
  lemma StaleFilterAfterSave(fetched: seq<Employee>, term: string, e: Employee)
    requires e in fetched && !MatchesSearch(e, term)
    ensures FilterEmployees(fetched, term) != fetched
  {
  }
}
