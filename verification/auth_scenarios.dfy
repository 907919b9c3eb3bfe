/**
 Properties that span several requests: what a client can do with the cookie
 a handler hands it, and what happens to a session when expiry, sign-out or
 the deletion of its user comes in between.
 */
module AuthScenarios {
  import opened Base
  import opened Schema
  import opened Http
  import opened UsersController
  import opened UsersMiddleware
  import EmailPattern

  /** A live session of an existing user authenticates that user, and the
      current-user handler then answers with the same view. */
  lemma LiveCookieAuthenticates(st: Store, s: Session, u: User, now: int)
    requires Valid(st)
    requires s in st.sessions && u in st.users && u.id == s.userId
    requires s.token != "" && now < s.expiresAt
    ensures Authenticate(st, Some(s.token), now) == Next(ViewOf(u), s.id)
    ensures GetCurrentUser(st, Some(ViewOf(u))) == Response(200, Body(true, None, Some(ViewOf(u))), KeepCookie)
  {
    var i :| 0 <= i < |st.sessions| && st.sessions[i] == s;
    AuthenticateOnValidStore(st, s.token, now);
    var j :| 0 <= j < |st.users| && st.users[j].id == s.userId
             && Authenticate(st, Some(s.token), now) == Next(ViewOf(st.users[j]), s.id);
    KeyDeterminesRow(st.users, UserKey, st.users[j], u);
    var found := UserWithId(st.users, u.id);
    KeyDeterminesRow(st.users, UserKey, found.value, u);
  }

  /** The cookie that sign-up sets authenticates the new user for a week. */
  lemma SignUpThenAuthenticate(st: Store, req: SignUpRequest, hash: string -> string, userId: string,
                               sessionId: string, token: string, client: Client, now: int, later: int)
    requires Valid(st)
    requires token != ""
    requires later < now + Week
    requires SignUp(st, req, hash, userId, sessionId, token, client, now).resp.status == 201
    ensures var out := SignUp(st, req, hash, userId, sessionId, token, client, now);
            var view := ViewOf(out.store.users[|st.users|]);
            && out.resp.cookie == SetCookie(SessionCookie, token, Week)
            && out.resp.body.user == Some(view)
            && Authenticate(out.store, Some(token), later) == Next(view, sessionId)
            && GetCurrentUser(out.store, Some(view)) == Response(200, Body(true, None, Some(view)), KeepCookie)
  {
    var out := SignUp(st, req, hash, userId, sessionId, token, client, now);
    SignUpKeepsValid(st, req, hash, userId, sessionId, token, client, now);
    var u := out.store.users[|st.users|];
    var s := out.store.sessions[|st.sessions|];
    LiveCookieAuthenticates(out.store, s, u, later);
  }

  /** The cookie that sign-in sets authenticates the signed-in user until the
      session it names expires, a day or a week later. */
  lemma SignInThenAuthenticate(st: Store, req: SignInRequest, hash: string -> string, sessionId: string,
                               token: string, client: Client, now: int, later: int)
    requires Valid(st)
    requires token != ""
    requires later < now + SessionDuration(req.rememberMe)
    requires SignIn(st, req, hash, sessionId, token, client, now).resp.status == 200
    ensures var out := SignIn(st, req, hash, sessionId, token, client, now);
            var view := out.resp.body.user.value;
            && out.resp.body.user.Some?
            && view.email == req.email
            && Authenticate(out.store, Some(token), later) == Next(view, sessionId)
            && GetCurrentUser(out.store, Some(view)) == Response(200, Body(true, None, Some(view)), KeepCookie)
  {
    var out := SignIn(st, req, hash, sessionId, token, client, now);
    SignInKeepsValid(st, req, hash, sessionId, token, client, now);
    var u := UserWithEmail(st.users, req.email).value;
    var s := out.store.sessions[|out.store.sessions| - 1];
    LiveCookieAuthenticates(out.store, s, u, later);
  }

  /** Signing in with the credentials just used to sign up succeeds and
      answers with the same user view, which the current-user handler then
      returns as well. */
  lemma SignUpThenSignIn(st: Store, req: SignUpRequest, hash: string -> string, userId: string,
                         sessionId: string, token: string, client: Client, now: int,
                         rememberMe: bool, sessionId': string, token': string, client': Client, later: int)
    requires Valid(st)
    requires SignUp(st, req, hash, userId, sessionId, token, client, now).resp.status == 201
    requires var up := SignUp(st, req, hash, userId, sessionId, token, client, now).store;
             forall i | 0 <= i < |up.sessions| :: up.sessions[i].id != sessionId' && up.sessions[i].token != token'
    ensures var up := SignUp(st, req, hash, userId, sessionId, token, client, now);
            var signIn := SignIn(up.store, SignInRequest(req.email, req.password, rememberMe), hash,
                                 sessionId', token', client', later);
            && signIn.resp.status == 200
            && signIn.resp.body.user == up.resp.body.user
            && GetCurrentUser(signIn.store, up.resp.body.user).status == 200
            && GetCurrentUser(signIn.store, up.resp.body.user).body.user == up.resp.body.user
  {
    var up := SignUp(st, req, hash, userId, sessionId, token, client, now);
    SignUpKeepsValid(st, req, hash, userId, sessionId, token, client, now);
    var u := up.store.users[|st.users|];
    assert u in up.store.users;
    UserWithEmailIsUnique(up.store.users, u);
    UserWithIdIsUnique(up.store.users, u);
    var signInReq := SignInRequest(req.email, req.password, rememberMe);
    assert CredentialsMatch(up.store.users, signInReq, hash);
    SignInSucceeds(up.store, signInReq, hash, sessionId', token', client', later);
  }

  /** A token whose session has expired is answered exactly like a token no
      session carries: 401 and the cookie cleared. */
  lemma ExpiredTokenRejected(st: Store, s: Session, now: int)
    requires Valid(st)
    requires s in st.sessions && s.token != ""
    requires s.expiresAt <= now
    ensures Authenticate(st, Some(s.token), now) == Halt(UnauthorizedClearing)
  {
    forall i | 0 <= i < |st.sessions|
      ensures !Live(st.sessions[i], s.token, now)
    {
      if st.sessions[i].token == s.token {
        KeyDeterminesRow(st.sessions, SessionToken, st.sessions[i], s);
      }
    }
  }

  /** An expired token and an unknown one cannot be told apart. */
  lemma ExpiredLikeUnknown(st: Store, s: Session, unknown: string, now: int)
    requires Valid(st)
    requires s in st.sessions && s.token != "" && s.expiresAt <= now
    requires unknown != ""
    requires forall i | 0 <= i < |st.sessions| :: st.sessions[i].token != unknown
    ensures Authenticate(st, Some(s.token), now) == Authenticate(st, Some(unknown), now)
  {
    ExpiredTokenRejected(st, s, now);
  }

  /** At the instant `expiresAt` the middleware already refuses a session while
      the sign-in clean-up, which only removes sessions that expired strictly
      earlier, still keeps it; one millisecond later the clean-up removes it. */
  lemma ExpiryBoundary(st: Store, s: Session, req: SignInRequest, hash: string -> string,
                       sessionId: string, token: string, client: Client)
    requires Valid(st)
    requires s in st.sessions && s.token != ""
    ensures Authenticate(st, Some(s.token), s.expiresAt) == Halt(UnauthorizedClearing)
    ensures var out := SignIn(st, req, hash, sessionId, token, client, s.expiresAt);
            out.resp.status == 200 ==> s in out.store.sessions
    ensures var out := SignIn(st, req, hash, sessionId, token, client, s.expiresAt + 1);
            out.resp.status == 200 && out.resp.body.user.value.id == s.userId ==> s !in out.store.sessions
  {
    ExpiredTokenRejected(st, s, s.expiresAt);
  }

  /** After sign-out the cookie it cleared no longer authenticates, even if the
      client keeps sending it. */
  lemma SignedOutTokenRejected(st: Store, cookie: Option<string>, now: int)
    requires TokenPresent(cookie)
    ensures Authenticate(SignOut(st, cookie).store, cookie, now) == Halt(UnauthorizedClearing)
  {
    var after := SignOut(st, cookie).store;
    forall i | 0 <= i < |after.sessions|
      ensures !Live(after.sessions[i], cookie.value, now)
    {
      assert after.sessions[i] in after.sessions;
    }
  }

  /** The middleware and the handler read the store separately: when the user
      is deleted in between, the request that passed authentication gets 401
      from the handler, and the next request gets 401 from the middleware,
      because the deletion took the user's sessions with it. */
  lemma UserDeletedAfterAuthentication(st: Store, s: Session, u: User, now: int)
    requires Valid(st)
    requires s in st.sessions && u in st.users && u.id == s.userId
    requires s.token != "" && now < s.expiresAt
    ensures Authenticate(st, Some(s.token), now) == Next(ViewOf(u), s.id)
    ensures var after := DeleteUser(st, u.id);
            && GetCurrentUser(after, Some(ViewOf(u))) == Unauthorized
            && Authenticate(after, Some(s.token), now) == Halt(UnauthorizedClearing)
  {
    LiveCookieAuthenticates(st, s, u, now);
    var after := DeleteUser(st, u.id);
    forall i | 0 <= i < |after.users|
      ensures after.users[i].id != u.id
    {
      assert after.users[i] in after.users;
    }
    forall i | 0 <= i < |after.sessions|
      ensures !Live(after.sessions[i], s.token, now)
    {
      var x := after.sessions[i];
      assert x in after.sessions;
      if x.token == s.token {
        KeyDeterminesRow(st.sessions, SessionToken, x, s);
      }
    }
  }

  /** When the session insert that follows a successful user insert is
      refused, because its id or its token is taken, sign-up answers 500 but
      the user row stays: the two inserts are not one transaction. */
  lemma SignUpSessionRefusedKeepsUser(st: Store, req: SignUpRequest, hash: string -> string, userId: string,
                                      sessionId: string, token: string, client: Client, now: int)
    requires SignUpInputValid(req) && !EmailTaken(st.users, req.email)
    requires !UserClash(st.users, SignUpUser(req, hash, userId, now))
    requires SessionClash(InsertUser(st, SignUpUser(req, hash, userId, now)).value,
                          NewSession(sessionId, userId, token, client, now + Week, now))
    ensures var out := SignUp(st, req, hash, userId, sessionId, token, client, now);
            && out.resp == InternalError
            && AddsSignUpUser(st, out.store, req, hash, userId)
            && out.store.sessions == st.sessions
  {
    var user := SignUpUser(req, hash, userId, now);
    var st1 := InsertUser(st, user).value;
    assert st1.users[..|st.users|] == st.users;
  }

  // ---- A worked example ----

  const Alice: SignUpRequest := SignUpRequest("A", "B", "a@b.com", "+1000", "secret1")
  /** Someone else, with Alice's phone number. */
  const Bob: SignUpRequest := SignUpRequest("C", "D", "c@d.com", "+1000", "secret2")

  /** Sign-up succeeds whenever the input is valid, the e-mail is free and
      neither insert is refused: 400, 409 and 500 have no other causes. */
  lemma SignUpSucceeds(st: Store, req: SignUpRequest, hash: string -> string, userId: string,
                       sessionId: string, token: string, client: Client, now: int)
    requires SignUpInputValid(req) && !EmailTaken(st.users, req.email)
    requires !UserClash(st.users, SignUpUser(req, hash, userId, now))
    requires forall i | 0 <= i < |st.sessions| :: st.sessions[i].id != sessionId && st.sessions[i].token != token
    ensures SignUp(st, req, hash, userId, sessionId, token, client, now).resp.status == 201
  {
    var user := SignUpUser(req, hash, userId, now);
    var st1 := InsertUser(st, user).value;
    assert st1.users[|st.users|] == user;
    var session := NewSession(sessionId, userId, token, client, now + Week, now);
    assert !SessionClash(st1, session);
  }

  /** On an empty store Alice signs up as a participant. */
  lemma FirstSignUpExample(hash: string -> string, client: Client, now: int)
    ensures var first := SignUp(Store([], []), Alice, hash, "u1", "s1", "t1", client, now);
            && first.resp.status == 201
            && first.resp.body.user.Some?
            && first.resp.body.user.value.role == Participant
            && first.resp.body.user.value.email == "a@b.com"
            && |first.store.users| == 1
            && first.store.users[0].email == Alice.email && first.store.users[0].phone == Alice.phone
  {
    EmailExamples();
    SignUpSucceeds(Store([], []), Alice, hash, "u1", "s1", "t1", client, now);
  }

  /** After that, signing up with her e-mail again is a conflict. */
  lemma SignUpAgainExample(hash: string -> string, client: Client, now: int)
    ensures var first := SignUp(Store([], []), Alice, hash, "u1", "s1", "t1", client, now);
            SignUp(first.store, Alice, hash, "u2", "s2", "t2", client, now).resp.status == 409
  {
    EmailExamples();
    FirstSignUpExample(hash, client, now);
    var first := SignUp(Store([], []), Alice, hash, "u1", "s1", "t1", client, now);
    assert EmailTaken(first.store.users, Alice.email);
  }

  /** Bob's e-mail is free next to Alice's row, his phone number is not. */
  lemma BobClashesWithAlice(users: seq<User>, hash: string -> string, now: int)
    requires |users| == 1 && users[0].email == Alice.email && users[0].phone == Alice.phone
    ensures !EmailTaken(users, Bob.email) && UserClash(users, SignUpUser(Bob, hash, "u2", now))
  {
    assert "a@b.com" != "c@d.com";
  }

  /** Someone else with her phone number is refused by the store: a server error. */
  lemma SamePhoneExample(hash: string -> string, client: Client, now: int)
    ensures var first := SignUp(Store([], []), Alice, hash, "u1", "s1", "t1", client, now);
            SignUp(first.store, Bob, hash, "u2", "s2", "t2", client, now).resp == InternalError
  {
    EmailExamples();
    FirstSignUpExample(hash, client, now);
    var first := SignUp(Store([], []), Alice, hash, "u1", "s1", "t1", client, now);
    BobClashesWithAlice(first.store.users, hash, now);
  }

  /** Both example requests pass the input checks. */
  lemma EmailExamples()
    ensures SignUpInputValid(Alice) && SignUpInputValid(Bob)
  {
    AliceIsValid();
    BobIsValid();
  }

  lemma AliceIsValid()
    ensures SignUpInputValid(Alice)
  {
    ExampleAddress("a", "b", "a@b.com");
    assert |Alice.password| == 7;
  }

  lemma BobIsValid()
    ensures SignUpInputValid(Bob)
  {
    ExampleAddress("c", "d", "c@d.com");
    assert |Bob.password| == 7;
  }

  /** `local@host.com` for one-letter parts is an address. */
  lemma ExampleAddress(local: string, host: string, address: string)
    requires |local| == 1 && |host| == 1
    requires 'a' <= local[0] <= 'z' && 'a' <= host[0] <= 'z'
    requires address == local + "@" + host + ".com"
    ensures EmailPattern.IsEmail(address)
  {
    assert EmailPattern.AllPlain(local) && EmailPattern.AllPlain(host);
    assert EmailPattern.AllPlain("com");
    EmailPattern.JoinedAddress(local, host, "com");
    assert local + "@" + host + "." + "com" == address;
  }
}
