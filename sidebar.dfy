// frontend/components/dashboard/sidebar.tsx: which navigation item is
// highlighted for the current pathname.
module Sidebar {
  const MenuHrefs: seq<string> := ["/dashboard", "/employees", "/attendance", "/leave", "/payroll", "/training", "/recruitment", "/settings"]

  /** An item is highlighted on its own page and on every page below it. */
  function IsActive(pathname: string, href: string): (b: bool)
    ensures b <==> (pathname == href || (|pathname| > |href| && pathname[..|href|] == href && pathname[|href|] == '/'))
  {
    pathname == href || href + "/" <= pathname
  }

  /** A slash followed by one non-empty path segment. */
  ghost predicate SingleSegment(href: string) {
    |href| >= 2 && href[0] == '/' && forall i :: 1 <= i < |href| ==> href[i] != '/'
  }

  /** Two different single-segment hrefs are never highlighted together. */
  lemma {:induction false} AtMostOneActive(pathname: string, h1: string, h2: string)
    requires SingleSegment(h1) && SingleSegment(h2) && h1 != h2
    ensures !(IsActive(pathname, h1) && IsActive(pathname, h2))
  {
  }

  lemma MenuHrefsAreSingleSegments()
    ensures forall i :: 0 <= i < |MenuHrefs| ==> SingleSegment(MenuHrefs[i])
  {
  }

  lemma MenuHrefsDistinct()
    ensures forall i, j :: 0 <= i < j < |MenuHrefs| ==> MenuHrefs[i] != MenuHrefs[j]
  {
  }

  /** For the eight menu hrefs, at most one item is highlighted. */
  lemma {:induction false} OneHighlightedItem(pathname: string)
    ensures forall i, j :: 0 <= i < j < |MenuHrefs| && IsActive(pathname, MenuHrefs[i]) ==> !IsActive(pathname, MenuHrefs[j])
  {
    MenuHrefsAreSingleSegments();
    MenuHrefsDistinct();
    forall i, j | 0 <= i < j < |MenuHrefs| && IsActive(pathname, MenuHrefs[i])
      ensures !IsActive(pathname, MenuHrefs[j])
    {
      AtMostOneActive(pathname, MenuHrefs[i], MenuHrefs[j]);
    }
  }

  lemma SubpageActivatesItsItem()
    ensures IsActive("/employees/42", "/employees")
    ensures !IsActive("/employeesX", "/employees")
  {
    assert "/employees" + "/" <= "/employees/42";
    assert "/employeesX"[10] != ("/employees" + "/")[10];
  }

  /** A single-segment page outside the menu, such as the login page,
      highlights nothing. */
  lemma {:induction false} OutsidePageHighlightsNothing(pathname: string)
    requires SingleSegment(pathname) && pathname !in MenuHrefs
    ensures forall i :: 0 <= i < |MenuHrefs| ==> !IsActive(pathname, MenuHrefs[i])
  {
    MenuHrefsAreSingleSegments();
    forall i | 0 <= i < |MenuHrefs| ensures !IsActive(pathname, MenuHrefs[i]) {
      AtMostOneActive(pathname, pathname, MenuHrefs[i]);
    }
  }

  lemma LoginHighlightsNothing()
    ensures forall i :: 0 <= i < |MenuHrefs| ==> !IsActive("/login", MenuHrefs[i])
  {
    OutsidePageHighlightsNothing("/login");
  }
}
