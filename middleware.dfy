/**
 * The access-control middleware that runs before every page and API route.
 * With the authentication provider's session lookup reduced to a boolean and
 * the request URL reduced to its pathname, the callback is a pure decision:
 * let the request through, or redirect it to the dashboard or the sign-in page.
 *
 * The route matchers are modelled as exact membership in their literal lists
 * of paths.
 */
module Middleware {

  datatype Decision = Allow | Redirect(target: string)

  const Root: string := "/"
  const Home: string := "/home"
  const SignIn: string := "/sign-in"
  const SignUp: string := "/sign-up"
  const ApiPrefix: string := "/api"
  const VideosApi: string := "/api/videos"

  /** The pages reachable without a session. */
  const PublicRoutes: seq<string> := [SignIn, SignUp]
  /** The API routes reachable without a session. */
  const PublicApiRoutes: seq<string> := [VideosApi]

  predicate IsAccessingDashboard(path: string)
  {
    path == Home
  }

  /** `pathname.startsWith("/api")`. */
  predicate IsApiRequest(path: string)
  {
    ApiPrefix <= path
  }

  predicate IsPublicRoute(path: string)
  {
    path in PublicRoutes
  }

  predicate IsPublicApiRoute(path: string)
  {
    path in PublicApiRoutes
  }

  /**
   * The middleware callback: its early returns, tried in the order they are
   * written. The contract is the decision table they add up to.
   */
  function Decide(authenticated: bool, path: string): (d: Decision)
    ensures d == Allow || d == Redirect(Home) || d == Redirect(SignIn)
    ensures d == Redirect(Home) <==> authenticated && (path == Root || IsPublicRoute(path))
    ensures d == Redirect(SignIn) <==>
              !authenticated && !IsPublicRoute(path) && !IsPublicApiRoute(path)
    ensures d == Allow <==>
              (authenticated && path != Root && !IsPublicRoute(path)) ||
              (!authenticated && (IsPublicRoute(path) || IsPublicApiRoute(path)))
  {
    if authenticated && path == Root then
      Redirect(Home)
    else if authenticated && IsPublicRoute(path) && !IsAccessingDashboard(path) then
      Redirect(Home)
    else if !authenticated then
      if path == Root then
        Redirect(SignIn)
      else if !IsPublicRoute(path) && !IsPublicApiRoute(path) then
        Redirect(SignIn)
      else if IsApiRequest(path) && !IsPublicApiRoute(path) then
        ApiCheckNeverFires(path);
        Redirect(SignIn)
      else
        Allow
    else
      Allow
  }

  /** The callback with its third unauthenticated check (the API-prefix test) deleted. */
  function DecideWithoutApiCheck(authenticated: bool, path: string): Decision
  {
    if authenticated && path == Root then
      Redirect(Home)
    else if authenticated && IsPublicRoute(path) && !IsAccessingDashboard(path) then
      Redirect(Home)
    else if !authenticated then
      if path == Root then
        Redirect(SignIn)
      else if !IsPublicRoute(path) && !IsPublicApiRoute(path) then
        Redirect(SignIn)
      else
        Allow
    else
      Allow
  }

  /** The callback with the `!isAccessingDashboard` conjunct deleted. */
  function DecideWithoutDashboardTest(authenticated: bool, path: string): Decision
  {
    if authenticated && path == Root then
      Redirect(Home)
    else if authenticated && IsPublicRoute(path) then
      Redirect(Home)
    else if !authenticated then
      if path == Root then
        Redirect(SignIn)
      else if !IsPublicRoute(path) && !IsPublicApiRoute(path) then
        Redirect(SignIn)
      else if IsApiRequest(path) && !IsPublicApiRoute(path) then
        Redirect(SignIn)
      else
        Allow
    else
      Allow
  }

  /**
   * No public page starts with "/api", so a path that got past the second
   * unauthenticated check is never caught by the third.
   */
  lemma ApiCheckNeverFires(path: string)
    requires IsPublicRoute(path) || IsPublicApiRoute(path)
    ensures !(IsApiRequest(path) && !IsPublicApiRoute(path))
  {
    if IsPublicRoute(path) {
      assert path == SignIn || path == SignUp;
      assert path[1] != 'a';
    }
  }

  /** Deleting the API-prefix check changes no decision. */
  lemma ApiCheckIsDeadCode(authenticated: bool, path: string)
    ensures DecideWithoutApiCheck(authenticated, path) == Decide(authenticated, path)
  {
    if IsPublicRoute(path) || IsPublicApiRoute(path) {
      ApiCheckNeverFires(path);
    }
  }

  /** "/home" is not a public page, so the dashboard test decides nothing. */
  lemma DashboardTestIsRedundant(authenticated: bool, path: string)
    ensures DecideWithoutDashboardTest(authenticated, path) == Decide(authenticated, path)
  {
    assert !IsPublicRoute(Home);
  }

  /** Following a redirect with the same session state lands on a page that is let through. */
  lemma NoRedirectLoop(authenticated: bool, path: string)
    ensures Decide(authenticated, path).Redirect? ==>
              Decide(authenticated, Decide(authenticated, path).target) == Allow
  {
    assert IsPublicRoute(SignIn);
    assert !IsPublicRoute(Home);
  }
}
