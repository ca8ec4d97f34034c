/**
 * `POST /api/auth/login` (app/api/auth/login/route.ts): check the password
 * against `DASHBOARD_PASSWORD` and, on a match, set the session cookie that
 * the request gate looks for.
 */
module Login {
  import opened Wrappers
  import opened JsValues
  import Middleware

  /** The attributes `cookieStore.set` is given. */
  datatype Cookie = Cookie(
    name: string, value: string, httpOnly: bool, secure: bool,
    sameSite: string, path: string, maxAge: nat)

  datatype LoginResponse =
    | LoggedIn(cookie: Cookie)                 // `{ success: true }` plus the cookie
    | LoginError(status: nat, error: string)

  /** Thirty days in seconds. */
  const ThirtyDays: nat := 60 * 60 * 24 * 30

  function SessionCookie(nodeEnv: Option<string>): Cookie {
    Cookie(Middleware.AuthCookie, "authenticated", true, nodeEnv == Some("production"), "lax", "/", ThirtyDays)
  }

  /**
   * The handler. `body` is the parsed request body (`None` when it is not
   * JSON), `dashboardPassword` the environment variable, `nodeEnv` the
   * `NODE_ENV` setting. Destructuring a `null` body throws and ends in the
   * same 400 as unparsable JSON.
   */
  function PostLogin(body: Option<JsValue>, dashboardPassword: Option<string>, nodeEnv: Option<string>): (r: LoginResponse)
    ensures body.None? || body == Some(JNull) ==> r == LoginError(400, "Invalid request")
    ensures body.Some? && body != Some(JNull) ==>
      var password := Prop(body, "password");
      (!Truthy(password) ==> r == LoginError(400, "Password is required"))
      && (Truthy(password) && (dashboardPassword.None? || dashboardPassword.value == "") ==>
            r == LoginError(500, "Server configuration error"))
      && (Truthy(password) && dashboardPassword.Some? && dashboardPassword.value != "" ==>
            if password == Some(JStr(dashboardPassword.value)) then r == LoggedIn(SessionCookie(nodeEnv))
            else r == LoginError(401, "Invalid password"))
  {
    if body.None? || body == Some(JNull) then LoginError(400, "Invalid request")
    else
      var password := Prop(body, "password");
      if !Truthy(password) then LoginError(400, "Password is required")
      else if dashboardPassword.None? || dashboardPassword.value == "" then LoginError(500, "Server configuration error")
      else if password != Some(JStr(dashboardPassword.value)) then LoginError(401, "Invalid password")
      else LoggedIn(SessionCookie(nodeEnv))
  }

  /**
   * A login succeeds exactly when the body carries, as a string, the
   * non-empty configured password; the cookie then lasts thirty days on
   * every path, is HTTP-only, and is `secure` only in production.
   */
  lemma LoginSucceedsExactly(body: Option<JsValue>, dashboardPassword: Option<string>, nodeEnv: Option<string>)
    ensures PostLogin(body, dashboardPassword, nodeEnv).LoggedIn? <==>
      dashboardPassword.Some? && dashboardPassword.value != ""
      && body.Some? && body.value.JObject? && "password" in body.value.fields
      && body.value.fields["password"] == JStr(dashboardPassword.value)
    ensures PostLogin(body, dashboardPassword, nodeEnv).LoggedIn? ==>
      var c := PostLogin(body, dashboardPassword, nodeEnv).cookie;
      c.name == "oulipo-auth" && c.value == "authenticated" && c.path == "/" && c.httpOnly
      && c.maxAge == 2592000 && c.sameSite == "lax" && (c.secure <==> nodeEnv == Some("production"))
  {
    var r := PostLogin(body, dashboardPassword, nodeEnv);
    if body.Some? && body.value.JArray? {
      assert Prop(body, "password").None? by {
        assert "password" != "0";
      }
    }
  }

  /** A missing password is reported before the server's configuration is looked at. */
  lemma PasswordCheckedFirst(body: JsValue, configured1: Option<string>, configured2: Option<string>, nodeEnv: Option<string>)
    requires body != JNull && !Truthy(Prop(Some(body), "password"))
    ensures PostLogin(Some(body), configured1, nodeEnv) == PostLogin(Some(body), configured2, nodeEnv)
    ensures PostLogin(Some(body), configured1, nodeEnv) == LoginError(400, "Password is required")
  {
  }

  /** The cookie a successful login sets lets every later request through the gate. */
  lemma LoginOpensGate(body: Option<JsValue>, dashboardPassword: Option<string>, nodeEnv: Option<string>,
                       cookies: map<string, string>, pathname: string)
    requires PostLogin(body, dashboardPassword, nodeEnv).LoggedIn?
    ensures var c := PostLogin(body, dashboardPassword, nodeEnv).cookie;
      Middleware.Gate(pathname, cookies[c.name := c.value]) == Middleware.Next
  {
  }
}
