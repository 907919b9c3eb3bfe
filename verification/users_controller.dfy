/**
 The authentication handlers: sign-up, sign-in, sign-out and current-user.
 Each is a function of the store and the request. What the source obtains
 from outside is a parameter: `now` is the clock in milliseconds, `hash` is
 the password hash (comparing a password with a stored hash is comparing
 `hash(password)` with it), and the user id, session id and session token are
 the random values the handler draws. A request body field that is missing
 is the empty string, which JavaScript treats as false just like "".
 */
module UsersController {
  import opened Base
  import opened JsText
  import opened Schema
  import opened Http
  import EmailPattern

  /** One day and one week, in milliseconds. */
  const Day: int := 24 * 60 * 60 * 1000
  const Week: int := 7 * 24 * 60 * 60 * 1000

  datatype SignUpRequest = SignUpRequest(
    firstName: string,
    lastName: string,
    email: string,
    phone: string,
    password: string)

  datatype SignInRequest = SignInRequest(email: string, password: string, rememberMe: bool)

  /** Client metadata recorded on a session: `req.ip` and the User-Agent header. */
  datatype Client = Client(ip: Option<string>, userAgent: Option<string>)

  /** A handler's response and the store it leaves behind. */
  datatype Outcome = Outcome(resp: Response, store: Store)

  const BadRequest: Response := Failure(400, "Bad Request")
  const Unauthorized: Response := Failure(401, "Unauthorized")
  const Conflict: Response := Failure(409, "Conflict")
  const InternalError: Response := Failure(500, "Internal Server Error")

  /** Sign-up input checks, all answered 400: every field present, the e-mail
      shape, and a password of at least 6 UTF-16 code units. */
  predicate SignUpInputValid(req: SignUpRequest) {
    && req.firstName != "" && req.lastName != "" && req.email != "" && req.phone != "" && req.password != ""
    && EmailPattern.IsEmail(req.email)
    && Utf16Length(req.password) >= 6
  }

  predicate EmailTaken(users: seq<User>, email: string) {
    exists i | 0 <= i < |users| :: users[i].email == email
  }

  /** The session row a handler inserts; an empty User-Agent header is stored as null. */
  function NewSession(id: string, userId: string, token: string, client: Client, expiresAt: int, now: int): (s: Session)
    ensures s.id == id && s.userId == userId && s.token == token && s.expiresAt == expiresAt
    ensures s.ipAddress == client.ip
    ensures s.userAgent.None? <==> client.userAgent.None? || client.userAgent == Some("")
    ensures s.userAgent.Some? ==> s.userAgent == client.userAgent
    ensures s.createdAt == now && s.updatedAt == now
  {
    var userAgent := if client.userAgent == Some("") then None else client.userAgent;
    Session(id, userId, token, client.ip, userAgent, expiresAt, now, now)
  }

  /** The user row sign-up inserts. */
  function SignUpUser(req: SignUpRequest, hash: string -> string, userId: string, now: int): (u: User)
    ensures u.id == userId && u.name == req.firstName + " " + req.lastName
    ensures u.firstName == req.firstName && u.lastName == req.lastName
    ensures u.email == req.email && u.phone == req.phone && u.password == hash(req.password)
    ensures u.role == Participant && !u.emailVerified && !u.phoneVerified
    ensures u.createdAt == now && u.updatedAt == now
  {
    UserRow(UserInsert(userId, req.firstName + " " + req.lastName, req.firstName, req.lastName,
                       req.email, hash(req.password), req.phone, Some(false), Some(false), Some(Participant)), now)
  }

  /** `st'` is `st` with exactly one user added at the end, built from the sign-up request. */
  predicate AddsSignUpUser(st: Store, st': Store, req: SignUpRequest, hash: string -> string, userId: string) {
    && |st'.users| == |st.users| + 1
    && st'.users[..|st.users|] == st.users
    && var u := st'.users[|st.users|];
       && u.id == userId
       && u.name == req.firstName + " " + req.lastName
       && u.firstName == req.firstName && u.lastName == req.lastName
       && u.email == req.email && u.phone == req.phone
       && u.password == hash(req.password)
       && u.role == Participant && !u.emailVerified && !u.phoneVerified
  }

  /** `st'` is `st` with exactly one session for `userId` added at the end. */
  predicate AddsSession(st: Store, st': Store, sessionId: string, userId: string, token: string, expiresAt: int) {
    && |st'.sessions| == |st.sessions| + 1
    && st'.sessions[..|st.sessions|] == st.sessions
    && var s := st'.sessions[|st.sessions|];
       s.id == sessionId && s.userId == userId && s.token == token && s.expiresAt == expiresAt
  }

  /** POST /sign-up. */
  function SignUp(st: Store, req: SignUpRequest, hash: string -> string, userId: string,
                  sessionId: string, token: string, client: Client, now: int): (out: Outcome)
    ensures out.resp.status in {201, 400, 409, 500}
    // Input is checked before the store is consulted.
    ensures out.resp.status == 400 <==> !SignUpInputValid(req)
    ensures out.resp.status == 400 ==> out == Outcome(BadRequest, st)
    // A taken e-mail is a conflict, whatever the other fields.
    ensures out.resp.status == 409 <==> SignUpInputValid(req) && EmailTaken(st.users, req.email)
    ensures out.resp.status == 409 ==> out == Outcome(Conflict, st)
    // A taken phone number or user id is refused by the store and answered 500.
    ensures (SignUpInputValid(req) && !EmailTaken(st.users, req.email)
             && UserClash(st.users, SignUpUser(req, hash, userId, now)))
            ==> out == Outcome(InternalError, st)
    // Success: one user and one session for it, and a week-long cookie.
    ensures out.resp.status == 201 ==>
              && AddsSignUpUser(st, out.store, req, hash, userId)
              && AddsSession(st, out.store, sessionId, userId, token, now + Week)
              && out.resp.cookie == SetCookie(SessionCookie, token, Week)
              && out.resp.body.user == Some(ViewOf(out.store.users[|st.users|]))
    ensures out.resp.status != 201 ==> out.resp.cookie == KeepCookie && out.resp.body.user.None?
  {
    if !SignUpInputValid(req) then Outcome(BadRequest, st)
    else if UserWithEmail(st.users, req.email).Some? then Outcome(Conflict, st)
    else
      var user := SignUpUser(req, hash, userId, now);
      match InsertUser(st, user)
      case None => Outcome(InternalError, st)
      case Some(st1) =>
        match InsertSession(st1, NewSession(sessionId, userId, token, client, now + Week, now))
        case None => Outcome(InternalError, st1)
        case Some(st2) =>
          assert st2.users[..|st.users|] == st.users;
          assert st2.sessions[..|st.sessions|] == st.sessions;
          Outcome(Response(201, Body(true, Some("User created successfully"), Some(ViewOf(user))),
                           SetCookie(SessionCookie, token, Week)), st2)
  }

  /** Session lifetime in milliseconds: a week when the client asks to be remembered, else a day. */
  function SessionDuration(rememberMe: bool): (d: int)
    ensures d == (if rememberMe then 604800000 else 86400000)
  {
    if rememberMe then Week else Day
  }

  /** A session of `userId` that expired strictly before `now`; sign-in deletes these. */
  predicate Stale(s: Session, userId: string, now: int) {
    s.userId == userId && s.expiresAt < now
  }

  /** The e-mail names a user and the password hashes to that user's stored hash. */
  predicate CredentialsMatch(users: seq<User>, req: SignInRequest, hash: string -> string) {
    match UserWithEmail(users, req.email)
    case None => false
    case Some(u) => hash(req.password) == u.password
  }

  /** POST /sign-in. */
  function SignIn(st: Store, req: SignInRequest, hash: string -> string, sessionId: string,
                  token: string, client: Client, now: int): (out: Outcome)
    ensures out.resp.status in {200, 400, 401, 500}
    ensures out.resp.status == 400 <==> req.email == "" || req.password == ""
    ensures out.resp.status == 400 ==> out == Outcome(BadRequest, st)
    // An unknown e-mail and a wrong password get one and the same answer.
    ensures out.resp.status == 401 <==> req.email != "" && req.password != "" && !CredentialsMatch(st.users, req, hash)
    ensures out.resp.status == 401 ==> out == Outcome(Unauthorized, st)
    ensures out.resp.status == 200 ==>
              && CredentialsMatch(st.users, req, hash)
              && var u := UserWithEmail(st.users, req.email).value;
                 && out.store.users == st.users
                 && out.resp.body.user == Some(ViewOf(u))
                 && out.resp.cookie == SetCookie(SessionCookie, token, SessionDuration(req.rememberMe))
                 && |out.store.sessions| > 0
                 && var s := out.store.sessions[|out.store.sessions| - 1];
                    && s.id == sessionId && s.userId == u.id && s.token == token
                    && s.expiresAt == now + SessionDuration(req.rememberMe)
                    && s.expiresAt - now == out.resp.cookie.maxAge
                    && forall x :: x in out.store.sessions <==> x == s || (x in st.sessions && !Stale(x, u.id, now))
    // A refused session insert comes after the clean-up, which stays done.
    ensures out.resp.status == 500 ==>
              && out.resp == InternalError
              && CredentialsMatch(st.users, req, hash)
              && out.store.users == st.users
              && var u := UserWithEmail(st.users, req.email).value;
                 forall x :: x in out.store.sessions <==> x in st.sessions && !Stale(x, u.id, now)
    ensures out.resp.status != 200 ==> out.resp.cookie == KeepCookie && out.resp.body.user.None?
  {
    if req.email == "" || req.password == "" then Outcome(BadRequest, st)
    else
      match UserWithEmail(st.users, req.email)
      case None => Outcome(Unauthorized, st)
      case Some(user) =>
        if hash(req.password) != user.password then Outcome(Unauthorized, st)
        else
          var duration := SessionDuration(req.rememberMe);
          var st1 := KeepSessions(st, (s: Session) => !Stale(s, user.id, now));
          match InsertSession(st1, NewSession(sessionId, user.id, token, client, now + duration, now))
          case None => Outcome(InternalError, st1)
          case Some(st2) =>
            Outcome(Response(200, Body(true, Some("Signed in successfully"), Some(ViewOf(user))),
                             SetCookie(SessionCookie, token, duration)), st2)
  }

  /** Matching credentials, with a session id and token no session carries,
      always sign in: 400, 401 and
      500 have no other causes. */
  lemma SignInSucceeds(st: Store, req: SignInRequest, hash: string -> string, sessionId: string,
                       token: string, client: Client, now: int)
    requires req.email != "" && req.password != ""
    requires CredentialsMatch(st.users, req, hash)
    requires forall i | 0 <= i < |st.sessions| :: st.sessions[i].id != sessionId && st.sessions[i].token != token
    ensures SignIn(st, req, hash, sessionId, token, client, now).resp.status == 200
  {
    var u := UserWithEmail(st.users, req.email).value;
    var st1 := KeepSessions(st, (s: Session) => !Stale(s, u.id, now));
    forall i | 0 <= i < |st1.sessions|
      ensures st1.sessions[i].id != sessionId && st1.sessions[i].token != token
    {
      assert st1.sessions[i] in st.sessions;
    }
    var k :| 0 <= k < |st.users| && st.users[k] == u;
    assert HasUser(st1.users, u.id);
    assert !SessionClash(st1, NewSession(sessionId, u.id, token, client, now + SessionDuration(req.rememberMe), now));
  }

  const SignedOut: Response := Response(200, Body(true, Some("Signed out successfully"), None), ClearCookie(SessionCookie))

  /** POST /sign-out. */
  function SignOut(st: Store, cookie: Option<string>): (out: Outcome)
    ensures out.resp == SignedOut
    ensures out.store.users == st.users
    ensures !TokenPresent(cookie) ==> out.store == st
    ensures TokenPresent(cookie) ==>
              forall s :: s in out.store.sessions <==> s in st.sessions && s.token != cookie.value
  {
    if TokenPresent(cookie) then
      Outcome(SignedOut, KeepSessions(st, (s: Session) => s.token != cookie.value))
    else
      Outcome(SignedOut, st)
  }

  /** GET /me, after the authentication middleware has run: re-reads the
      principal's user row, which may have disappeared in between. */
  function GetCurrentUser(st: Store, principal: Option<UserView>): (resp: Response)
    ensures resp.status == 200 <==> principal.Some? && HasUser(st.users, principal.value.id)
    ensures resp.status != 200 ==> resp == Unauthorized
    ensures resp.status == 200 ==>
              && resp.cookie == KeepCookie && resp.body.success && resp.body.message.None?
              && exists u :: u in st.users && u.id == principal.value.id && resp.body.user == Some(ViewOf(u))
  {
    match principal
    case None => Unauthorized
    case Some(p) =>
      match UserWithId(st.users, p.id)
      case None => Unauthorized
      case Some(u) => Response(200, Body(true, None, Some(ViewOf(u))), KeepCookie)
  }

  // ---- Every handler keeps the schema constraints ----

  lemma SignUpKeepsValid(st: Store, req: SignUpRequest, hash: string -> string, userId: string,
                         sessionId: string, token: string, client: Client, now: int)
    requires Valid(st)
    ensures Valid(SignUp(st, req, hash, userId, sessionId, token, client, now).store)
  {
    if SignUpInputValid(req) && UserWithEmail(st.users, req.email).None? {
      var user := SignUpUser(req, hash, userId, now);
      if InsertUser(st, user).Some? {
        var st1 := InsertUser(st, user).value;
        InsertUserKeepsValid(st, user);
        var session := NewSession(sessionId, userId, token, client, now + Week, now);
        if InsertSession(st1, session).Some? {
          InsertSessionKeepsValid(st1, session);
        }
      }
    }
  }

  lemma SignInKeepsValid(st: Store, req: SignInRequest, hash: string -> string, sessionId: string,
                         token: string, client: Client, now: int)
    requires Valid(st)
    ensures Valid(SignIn(st, req, hash, sessionId, token, client, now).store)
  {
    if req.email != "" && req.password != "" && UserWithEmail(st.users, req.email).Some? {
      var user := UserWithEmail(st.users, req.email).value;
      if hash(req.password) == user.password {
        var st1 := KeepSessions(st, (s: Session) => !Stale(s, user.id, now));
        KeepSessionsKeepsValid(st, (s: Session) => !Stale(s, user.id, now));
        var session := NewSession(sessionId, user.id, token, client, now + SessionDuration(req.rememberMe), now);
        if InsertSession(st1, session).Some? {
          InsertSessionKeepsValid(st1, session);
        }
      }
    }
  }

  lemma SignOutKeepsValid(st: Store, cookie: Option<string>)
    requires Valid(st)
    ensures Valid(SignOut(st, cookie).store)
  {
    if TokenPresent(cookie) {
      KeepSessionsKeepsValid(st, (s: Session) => s.token != cookie.value);
    }
  }

  /** Signing out twice with the same cookie is signing out once. */
  lemma SignOutIdempotent(st: Store, cookie: Option<string>)
    ensures SignOut(SignOut(st, cookie).store, cookie) == SignOut(st, cookie)
  {
    if TokenPresent(cookie) {
      FilterIdempotent(st.sessions, (s: Session) => s.token != cookie.value);
    }
  }
}
