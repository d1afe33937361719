/**
 The route guard run before every matched page request. It reads the `token`
 cookie and decides between letting the request through and redirecting it.
 Verifying a token (signature and expiry) is a parameter: `verifies(t)` holds
 when verification of `t` succeeds.
 */
module Middleware {
  import opened Optional

  const LoginPath := "/login"
  const LandingPath := "/dashboard/news"
  const DashboardPrefix := "/dashboard"

  datatype Decision = Redirect(location: string) | Next

  /** The pages that need a session: the root, and every path that starts with
      `/dashboard` as a string (so `/dashboardx` too). */
  predicate IsProtected(pathname: string): (b: bool)
    ensures pathname == "/" || pathname == DashboardPrefix ==> b
    ensures DashboardPrefix + "/" <= pathname ==> b
    ensures pathname == LoginPath ==> !b
  {
    pathname == "/" || DashboardPrefix <= pathname
  }

  /** The cookie parser yields the token or nothing; an empty token is falsy. */
  predicate HasToken(token: Option<string>) {
    token.Some? && token.value != ""
  }

  /** A token is present and passes verification. */
  predicate Authenticated(token: Option<string>, verifies: string -> bool) {
    HasToken(token) && verifies(token.value)
  }

  /** The guard's decision. An authenticated visit to the login page goes to the
      news dashboard; a protected page without a verifying token goes to the
      login page; everything else proceeds. */
  function Guard(pathname: string, token: Option<string>, verifies: string -> bool): (d: Decision)
    ensures d == Redirect(LandingPath) <==> pathname == LoginPath && Authenticated(token, verifies)
    ensures d == Redirect(LoginPath) <==> IsProtected(pathname) && !Authenticated(token, verifies)
    ensures d == Next <==>
              if IsProtected(pathname) then Authenticated(token, verifies)
              else !(pathname == LoginPath && Authenticated(token, verifies))
  {
    if pathname == LoginPath && HasToken(token) && verifies(token.value) then
      Redirect(LandingPath)
    else if IsProtected(pathname) then
      if !HasToken(token) then Redirect(LoginPath)
      else if verifies(token.value) then Next
      else Redirect(LoginPath)
    else
      Next
  }

  /** The paths the guard is configured to run on: `/`, `/login`, and
      `/dashboard` followed by zero or more path segments. */
  predicate Matched(pathname: string): (b: bool)
    ensures b ==> pathname == LoginPath || IsProtected(pathname)
    ensures pathname == LoginPath ==> b
    ensures IsProtected(pathname) && !b ==>
              |pathname| > |DashboardPrefix| && DashboardPrefix <= pathname && pathname[|DashboardPrefix|] != '/'
  {
    pathname == "/" || pathname == LoginPath || pathname == DashboardPrefix
    || DashboardPrefix + "/" <= pathname
  }

  /** A request as the framework handles it: unmatched paths skip the guard. */
  function Handle(pathname: string, token: Option<string>, verifies: string -> bool): (d: Decision)
    ensures !Matched(pathname) ==> d == Next
    ensures Matched(pathname) ==> d == Guard(pathname, token, verifies)
  {
    if Matched(pathname) then Guard(pathname, token, verifies) else Next
  }

  /** Behind the matcher, the pages that demand a session are exactly the root,
      `/dashboard` and the paths below it; a bare `/dashboard` prefix such as
      `/dashboardx` never reaches the guard. */
  lemma MatchedProtection(pathname: string, token: Option<string>, verifies: string -> bool)
    ensures Handle(pathname, token, verifies) == Redirect(LoginPath) <==>
              (pathname == "/" || pathname == DashboardPrefix || DashboardPrefix + "/" <= pathname)
              && !Authenticated(token, verifies)
  {
    if DashboardPrefix + "/" <= pathname {
      assert pathname[..|DashboardPrefix|] == (DashboardPrefix + "/")[..|DashboardPrefix|];
      assert DashboardPrefix <= pathname;
    }
    if pathname == LoginPath {
      assert !IsProtected(pathname) by {
        assert pathname[1] != DashboardPrefix[1];
      }
    }
  }

  /** The guard by itself does treat `/dashboardx` as protected. */
  lemma PrefixIsProtected(token: Option<string>, verifies: string -> bool)
    ensures IsProtected("/dashboardx")
    ensures !Authenticated(token, verifies) ==> Guard("/dashboardx", token, verifies) == Redirect(LoginPath)
    ensures Handle("/dashboardx", token, verifies) == Next
  {
    assert DashboardPrefix == "/dashboardx"[..10];
    assert !Matched("/dashboardx") by {
      assert "/dashboardx"[10] != (DashboardPrefix + "/")[10];
    }
  }
}
