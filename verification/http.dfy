/**
 What a handler hands back to the HTTP layer: a status code, the JSON body
 `{ success, message?, data?: { user } }`, and what to do with the session
 cookie. Cookie attributes other than the value and `maxAge` (httpOnly,
 secure, sameSite) are fixed by the handlers and not represented.
 */
module Http {
  import opened Base
  import opened Schema

  /** Name of the cookie that carries the session token. */
  const SessionCookie: string := "sessionToken"

  datatype CookieDirective =
    | KeepCookie
    | SetCookie(name: string, value: string, maxAge: int)
    | ClearCookie(name: string)

  datatype Body = Body(success: bool, message: Option<string>, user: Option<UserView>)

  datatype Response = Response(status: int, body: Body, cookie: CookieDirective)

  /** An error response that leaves the cookie alone. */
  function Failure(status: int, message: string): Response {
    Response(status, Body(false, Some(message), None), KeepCookie)
  }

  /** An error response that also tells the client to drop the session cookie. */
  function FailureClearingCookie(status: int, message: string): Response {
    Response(status, Body(false, Some(message), None), ClearCookie(SessionCookie))
  }

  /** `req.cookies?.sessionToken` is truthy: present and not the empty string. */
  predicate TokenPresent(cookie: Option<string>) {
    cookie.Some? && cookie.value != ""
  }
}
