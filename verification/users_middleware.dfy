/**
 The request middleware: `Authenticate` resolves the session cookie to a
 principal, `RequireRole` admits principals by role. Both only read the
 store: neither takes part in producing a new one, so every path through
 them leaves users and sessions as they were.
 */
module UsersMiddleware {
  import opened Base
  import opened Schema
  import opened Http

  /** Where a middleware leaves a request: answered here, or handed on to
      `next` (exactly once) with what it attached to the request. */
  datatype AuthResult =
    | Halt(resp: Response)
    | Next(principal: UserView, sessionId: string)

  /** No cookie at all: 401 without touching the cookie. */
  const AuthenticationRequired: Response := Failure(401, "Authentication required")
  /** A cookie that leads nowhere: 401, and the client is told to drop it. */
  const UnauthorizedClearing: Response := FailureClearingCookie(401, "Unauthorized")

  /** The session row `token` names, if it has not expired at `now`. Expired and
      unknown tokens are alike here: neither yields a row. */
  predicate ResolvesAt(st: Store, token: string, now: int) {
    exists i | 0 <= i < |st.sessions| :: Live(st.sessions[i], token, now)
  }

  /** Session verification: no token, then no live session, then no user,
      else the request carries the user's view and the session id. */
  function Authenticate(st: Store, cookie: Option<string>, now: int): (r: AuthResult)
    ensures !TokenPresent(cookie) ==> r == Halt(AuthenticationRequired)
    ensures TokenPresent(cookie) && !ResolvesAt(st, cookie.value, now) ==> r == Halt(UnauthorizedClearing)
    ensures r.Halt? ==> r.resp.status == 401 && r.resp.body.user.None?
    ensures r.Halt? && TokenPresent(cookie) ==> r.resp == UnauthorizedClearing
    ensures r.Next? ==>
              && TokenPresent(cookie)
              && (exists s :: s in st.sessions && Live(s, cookie.value, now) && s.id == r.sessionId
                    && exists u :: u in st.users && u.id == s.userId && r.principal == ViewOf(u))
  {
    if !TokenPresent(cookie) then Halt(AuthenticationRequired)
    else
      match LiveSession(st.sessions, cookie.value, now)
      case None => Halt(UnauthorizedClearing)
      case Some(session) =>
        match UserWithId(st.users, session.userId)
        case None => Halt(UnauthorizedClearing)
        case Some(user) => Next(ViewOf(user), session.id)
  }

  /** In a store that keeps its foreign key the "no user" branch cannot be
      taken: a token is accepted exactly when it names a live session, and then
      the principal is that session's user. */
  lemma AuthenticateOnValidStore(st: Store, token: string, now: int)
    requires Valid(st)
    requires token != ""
    ensures Authenticate(st, Some(token), now).Next? <==> ResolvesAt(st, token, now)
    ensures forall i | 0 <= i < |st.sessions| && Live(st.sessions[i], token, now) ::
              exists j | 0 <= j < |st.users| :: st.users[j].id == st.sessions[i].userId
                && Authenticate(st, Some(token), now) == Next(ViewOf(st.users[j]), st.sessions[i].id)
  {
    forall i | 0 <= i < |st.sessions| && Live(st.sessions[i], token, now)
      ensures exists j | 0 <= j < |st.users| :: st.users[j].id == st.sessions[i].userId
                && Authenticate(st, Some(token), now) == Next(ViewOf(st.users[j]), st.sessions[i].id)
    {
      var s := st.sessions[i];
      LiveSessionIsUnique(st.sessions, s, now);
      assert HasUser(st.users, s.userId);
      var j :| 0 <= j < |st.users| && st.users[j].id == s.userId;
      UserWithIdIsUnique(st.users, st.users[j]);
    }
    if ResolvesAt(st, token, now) {
      var i :| 0 <= i < |st.sessions| && Live(st.sessions[i], token, now);
      var s := st.sessions[i];
      LiveSessionIsUnique(st.sessions, s, now);
      assert HasUser(st.users, s.userId);
    }
  }

  /** Authorisation by role. */
  datatype Gate = Pass | Deny(resp: Response)

  const Forbidden: Response := Failure(403, "Forbidden")

  /** `requireRole(roles)`: 401 without a principal, 403 when the principal's
      role label is not listed, otherwise the request passes on untouched. */
  function RequireRole(roles: seq<string>, principal: Option<UserView>): (g: Gate)
    ensures principal.None? ==> g == Deny(Failure(401, "Unauthorized"))
    ensures principal.Some? ==> (g == Pass <==> RoleName(principal.value.role) in roles)
    ensures principal.Some? && g != Pass ==> g == Deny(Forbidden)
  {
    match principal
    case None => Deny(Failure(401, "Unauthorized"))
    case Some(p) => if RoleName(p.role) in roles then Pass else Deny(Forbidden)
  }

  /** An empty role list admits nobody; the administrator list admits only administrators. */
  lemma RequireRoleExamples(p: UserView)
    ensures RequireRole([], Some(p)) == Deny(Forbidden)
    ensures RequireRole(["ADMINISTRATOR"], Some(p)) == Pass <==> p.role == Administrator
    ensures p.role == Participant ==> RequireRole(["ADMINISTRATOR"], Some(p)) == Deny(Forbidden)
  {
    if p.role == Participant {
      assert RoleName(p.role) != "ADMINISTRATOR";
    }
  }
}
