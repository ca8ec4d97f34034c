/**
 * The request gate (middleware.ts): a few public paths always pass; every
 * other path passes only with the `oulipo-auth` cookie, and without it a
 * page request is sent to the login page while an API request gets 401.
 */
module Middleware {
  import Strings

  const AuthCookie := "oulipo-auth"

  datatype Decision =
    | Next                 // `NextResponse.next()`
    | RedirectToLogin      // redirect to `/login`
    | Unauthorized         // 401 `{ error: 'Unauthorized' }`

  /** The paths that never need the cookie: three exact paths and everything under `/api/auth`. */
  predicate IsPublic(pathname: string) {
    pathname == "/login"
    || Strings.StartsWith(pathname, "/api/auth")
    || pathname == "/api/health"
    || pathname == "/api/google/callback"
  }

  /**
   * `middleware`, over the pathname and the request's cookies (name to
   * value). A cookie that is present passes whatever its value.
   */
  function Gate(pathname: string, cookies: map<string, string>): (d: Decision)
    ensures d == Next <==> IsPublic(pathname) || AuthCookie in cookies
    ensures d == RedirectToLogin <==>
      !IsPublic(pathname) && AuthCookie !in cookies && !Strings.StartsWith(pathname, "/api/")
    ensures d == Unauthorized <==>
      !IsPublic(pathname) && AuthCookie !in cookies && Strings.StartsWith(pathname, "/api/")
  {
    if IsPublic(pathname) then Next
    else if AuthCookie !in cookies then
      if !Strings.StartsWith(pathname, "/api/") then RedirectToLogin else Unauthorized
    else Next
  }

  /** The public exemptions other than `/api/auth` are exact: a path below them still needs the cookie. */
  lemma ExactExemptions(rest: string)
    requires rest != []
    ensures Gate("/api/health/" + rest, map[]) == Unauthorized
    ensures Gate("/api/google/callback/" + rest, map[]) == Unauthorized
    ensures Gate("/login/" + rest, map[]) == RedirectToLogin
  {
    var health, callback, login := "/api/health/" + rest, "/api/google/callback/" + rest, "/login/" + rest;
    assert health[..5] == "/api/" && health[5] == 'h' && "/api/auth"[5] == 'a';
    assert callback[..5] == "/api/" && callback[5] == 'g';
    assert login[1] == 'l' && "/api/"[1] == 'a' && "/api/auth"[1] == 'a';
    assert |health| != |"/api/health"| && |callback| != |"/api/google/callback"|;
  }

  /** Everything under `/api/auth`, including paths like `/api/authx`, passes without the cookie. */
  lemma AuthApiIsPublic(rest: string)
    ensures Gate("/api/auth" + rest, map[]) == Next
  {
    assert ("/api/auth" + rest)[..9] == "/api/auth";
  }
}
