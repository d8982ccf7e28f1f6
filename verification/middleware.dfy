/**
 * The request middleware's routing decision: public routes pass, protected
 * routes need a session cookie, everything else passes.
 */
module Middleware {
  import Text

  /** The routes open to everyone, matched exactly or as a path prefix followed by `/`. */
  const PublicRoutes: seq<string> := ["/", "/login", "/signup", "/api/auth"]

  /** The route prefixes that need a session, matched as plain string prefixes. */
  const ProtectedRoutes: seq<string> := ["/dashboard", "/notebook", "/protocols", "/replications"]

  /** The two cookie names that carry a session token. */
  const SessionCookie := "next-auth.session-token"
  const SecureSessionCookie := "__Secure-next-auth.session-token"

  datatype Decision = Next | RedirectToLogin(callbackUrl: string)

  predicate MatchesPublic(path: string, route: string) {
    path == route || Text.StartsWith(path, route + "/")
  }

  predicate IsPublic(path: string) {
    exists k :: 0 <= k < |PublicRoutes| && MatchesPublic(path, PublicRoutes[k])
  }

  predicate IsProtected(path: string) {
    exists k :: 0 <= k < |ProtectedRoutes| && Text.StartsWith(path, ProtectedRoutes[k])
  }

  /** The decision for a request to `path` carrying the cookies named in `cookies`. */
  function Route(path: string, cookies: set<string>): (d: Decision)
    ensures IsPublic(path) ==> d == Next
    ensures d.RedirectToLogin? <==>
      !IsPublic(path) && IsProtected(path) && SessionCookie !in cookies && SecureSessionCookie !in cookies
    ensures d.RedirectToLogin? ==> d.callbackUrl == path
  {
    if IsPublic(path) then Next
    else if IsProtected(path) && !(SessionCookie in cookies || SecureSessionCookie in cookies) then
      RedirectToLogin(path)
    else Next
  }

  /** A route and its subpaths are public, but a longer name sharing the prefix is not. */
  lemma PublicNeedsSlashBoundary()
    ensures IsPublic("/api/auth") && IsPublic("/api/auth/session")
    ensures !IsPublic("/api/authx")
  {
    assert MatchesPublic("/api/auth", PublicRoutes[3]);
    assert MatchesPublic("/api/auth/session", PublicRoutes[3]);
    NotPrefixAt("/api/authx", "//", 1);
    NotPrefixAt("/api/authx", "/login/", 1);
    NotPrefixAt("/api/authx", "/signup/", 1);
    NotPrefixAt("/api/authx", "/api/auth/", 9);
    assert !MatchesPublic("/api/authx", PublicRoutes[0]);
    assert !MatchesPublic("/api/authx", PublicRoutes[1]);
    assert !MatchesPublic("/api/authx", PublicRoutes[2]);
    assert !MatchesPublic("/api/authx", PublicRoutes[3]);
  }

  /** A string does not start with `p` when the two differ at some index both reach. */
  lemma NotPrefixAt(s: string, p: string, i: nat)
    requires i < |s| && i < |p| && s[i] != p[i]
    ensures !Text.StartsWith(s, p)
  {
  }

  /** The root route matches only itself: `/` followed by `/` is the only prefix form it admits. */
  lemma RootIsExact(path: string)
    requires MatchesPublic(path, "/")
    ensures path == "/" || Text.StartsWith(path, "//")
  {
  }

  /** Protected prefixes have no boundary: a longer name sharing the prefix is protected too. */
  lemma ProtectedHasNoBoundary(cookies: set<string>)
    requires SessionCookie !in cookies && SecureSessionCookie !in cookies
    ensures Route("/protocolsX", cookies) == RedirectToLogin("/protocolsX")
    ensures Route("/dashboard/stats", cookies) == RedirectToLogin("/dashboard/stats")
  {
    assert Text.StartsWith("/protocolsX", ProtectedRoutes[2]);
    assert Text.StartsWith("/dashboard/stats", ProtectedRoutes[0]);
    NotPublicByFirstLetter("/protocolsX");
    NotPublicByFirstLetter("/dashboard/stats");
  }

  /** A path whose first segment starts with none of the letters opening a public route is not public. */
  lemma NotPublicByFirstLetter(path: string)
    requires |path| >= 2 && path[0] == '/' && path[1] !in {'/', 'l', 's', 'a'}
    ensures !IsPublic(path)
  {
    forall k | 0 <= k < |PublicRoutes| ensures !MatchesPublic(path, PublicRoutes[k]) {
      var route := PublicRoutes[k];
      assert |route + "/"| >= 2 && (route + "/")[1] in {'/', 'l', 's', 'a'};
      NotPrefixAt(path, route + "/", 1);
      assert path != route by {
        if k == 0 {
          assert |route| == 1;
        } else {
          assert route[1] in {'l', 's', 'a'};
        }
      }
    }
  }

  /** Either session cookie lets a protected path through. */
  lemma EitherCookieSuffices(path: string, cookies: set<string>)
    requires SessionCookie in cookies || SecureSessionCookie in cookies
    ensures Route(path, cookies) == Next
  {
  }

  /** A path that is neither public nor protected passes without a session. */
  lemma UnlistedPathPasses(path: string, cookies: set<string>)
    requires !IsProtected(path)
    ensures Route(path, cookies) == Next
  {
  }
}
