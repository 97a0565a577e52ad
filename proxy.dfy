// backend/proxy.ts: the request guard run before every page (the framework's
// matcher, which decides which paths reach it, is taken as given).
module Proxy {
  import opened Base

  const ProtectedRoutes: seq<string> := ["/dashboard", "/employees", "/attendance", "/leave", "/payroll", "/training"]

  datatype Response = Next | Redirect(to: string)

  /** `routes.some((route) => pathname.startsWith(route))`. */
  function SomePrefix(routes: seq<string>, pathname: string): (b: bool)
    ensures b <==> exists i :: 0 <= i < |routes| && routes[i] <= pathname
  {
    if routes == [] then false
    else if routes[0] <= pathname then true
    else
      var rest := SomePrefix(routes[1..], pathname);
      assert forall i :: 1 <= i < |routes| ==> routes[i] == routes[1..][i - 1];
      rest
  }

  predicate IsProtectedRoute(pathname: string) {
    SomePrefix(ProtectedRoutes, pathname)
  }

  /** A truthy `user_id` cookie value. */
  predicate SignedIn(userId: Option<string>) {
    userId.Some? && userId.value != ""
  }

  /** `proxy(request)`: the redirect decision from the path and the cookie. */
  function Guard(pathname: string, userId: Option<string>): (r: Response)
    ensures IsProtectedRoute(pathname) && !SignedIn(userId) ==> r == Redirect("/login")
    ensures !(IsProtectedRoute(pathname) && !SignedIn(userId)) && pathname == "/login" && SignedIn(userId)
      ==> r == Redirect("/dashboard")
    ensures r == Next <==> !(IsProtectedRoute(pathname) && !SignedIn(userId)) && !(pathname == "/login" && SignedIn(userId))
  {
    if IsProtectedRoute(pathname) && !SignedIn(userId) then Redirect("/login")
    else if pathname == "/login" && SignedIn(userId) then Redirect("/dashboard")
    else Next
  }

  lemma LoginIsNotProtected()
    ensures !IsProtectedRoute("/login")
  {
    assert !("/dashboard" <= "/login") by { assert "/dashboard"[1] != "/login"[1]; }
    assert !("/employees" <= "/login") by { assert "/employees"[1] != "/login"[1]; }
    assert !("/attendance" <= "/login") by { assert "/attendance"[1] != "/login"[1]; }
    assert !("/leave" <= "/login") by { assert "/leave"[2] != "/login"[2]; }
    assert !("/payroll" <= "/login") by { assert "/payroll"[1] != "/login"[1]; }
    assert !("/training" <= "/login") by { assert "/training"[1] != "/login"[1]; }
  }

  lemma DashboardIsProtected()
    ensures IsProtectedRoute("/dashboard")
  {
    assert ProtectedRoutes[0] <= "/dashboard";
  }

  /** No redirect loop: the target of a redirect lets the same request
      through. */
  lemma NoRedirectLoop(pathname: string, userId: Option<string>)
    ensures Guard(pathname, userId).Redirect? ==> Guard(Guard(pathname, userId).to, userId) == Next
  {
    LoginIsNotProtected();
  }

  /** Protection is a plain prefix test, so longer paths sharing the prefix
      are protected too. */
  lemma PrefixMatchesLongerPaths()
    ensures IsProtectedRoute("/trainings") && IsProtectedRoute("/dashboard-old")
    ensures Guard("/trainings", None) == Redirect("/login")
  {
    assert ProtectedRoutes[5] <= "/trainings";
    assert ProtectedRoutes[0] <= "/dashboard-old";
  }

  /** The recruitment and settings pages are not in the list. */
  lemma UnlistedPagesPassThrough()
    ensures Guard("/recruitment", None) == Next && Guard("/settings", None) == Next
  {
    assert !IsProtectedRoute("/recruitment") by {
      assert "/dashboard"[1] != "/recruitment"[1];
      assert "/employees"[1] != "/recruitment"[1];
      assert "/attendance"[1] != "/recruitment"[1];
      assert "/leave"[1] != "/recruitment"[1];
      assert "/payroll"[1] != "/recruitment"[1];
      assert "/training"[1] != "/recruitment"[1];
    }
    assert !IsProtectedRoute("/settings") by {
      assert "/dashboard"[1] != "/settings"[1];
      assert "/employees"[1] != "/settings"[1];
      assert "/attendance"[1] != "/settings"[1];
      assert "/leave"[1] != "/settings"[1];
      assert "/payroll"[1] != "/settings"[1];
      assert "/training"[1] != "/settings"[1];
    }
  }
}
