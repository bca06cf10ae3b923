/** The request gate of app/middleware.ts: a chain of path-prefix tests that
    lets a request through, redirects it, or answers 401, depending on
    whether the request carries a session token. */
module Middleware {

  datatype Decision = Next | Redirect(path: string) | Unauthorized401

  /** `s.startsWith(prefix)` */
  predicate StartsWith(s: string, prefix: string)
  {
    |prefix| <= |s| && s[..|prefix|] == prefix
  }

  const LoginPrefix: string := "/login"
  const ApiPrefix: string := "/api/documents"
  const PagesPrefix: string := "/documents"

  /** `middleware(request)` with `hasToken` standing for `getToken` finding a session. */
  function Decide(path: string, hasToken: bool): (r: Decision)
    ensures StartsWith(path, LoginPrefix) ==> r == (if hasToken then Redirect(PagesPrefix) else Next)
    ensures StartsWith(path, ApiPrefix) ==> r == (if hasToken then Next else Unauthorized401)
    ensures StartsWith(path, PagesPrefix) ==> r == (if hasToken then Next else Redirect(LoginPrefix))
    ensures !StartsWith(path, LoginPrefix) && !StartsWith(path, ApiPrefix) && !StartsWith(path, PagesPrefix) ==> r == Next
  {
    PrefixesExclusive(path);
    if StartsWith(path, LoginPrefix) then
      if hasToken then Redirect(PagesPrefix) else Next
    else if StartsWith(path, ApiPrefix) then
      if hasToken then Next else Unauthorized401
    else if StartsWith(path, PagesPrefix) then
      if hasToken then Next else Redirect(LoginPrefix)
    else Next
  }

  /** No path starts with two of the three prefixes, so the order of the
      tests does not matter. */
  lemma PrefixesExclusive(path: string)
    ensures !(StartsWith(path, LoginPrefix) && StartsWith(path, ApiPrefix))
    ensures !(StartsWith(path, LoginPrefix) && StartsWith(path, PagesPrefix))
    ensures !(StartsWith(path, ApiPrefix) && StartsWith(path, PagesPrefix))
  {
    if StartsWith(path, LoginPrefix) {
      assert path[1] == 'l';
    }
    if StartsWith(path, ApiPrefix) {
      assert path[1] == 'a';
    }
  }

  /** A signed-in request is never answered 401. */
  lemma TokenNeverUnauthorized(path: string)
    ensures Decide(path, true) != Unauthorized401
  {
  }

  /** 401 comes only from the document API, and only without a token. */
  lemma UnauthorizedOnlyForApi(path: string, hasToken: bool)
    ensures Decide(path, hasToken) == Unauthorized401 <==> StartsWith(path, ApiPrefix) && !hasToken
  {
  }

  /** Redirects go to the page list when signed in and to the login page when not. */
  lemma RedirectTargets(path: string, hasToken: bool)
    ensures Decide(path, hasToken).Redirect? ==>
              Decide(path, hasToken).path == (if hasToken then PagesPrefix else LoginPrefix)
  {
  }
}
