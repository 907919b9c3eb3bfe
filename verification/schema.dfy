/**
 The `users` and `sessions` tables and the `user_role` enum as an in-memory
 store. A table is a sequence of rows; an insert appends a row unless it
 violates a unique key or the foreign key, in which case the database refuses
 it; a delete keeps the rows that do not match. `Valid` collects the
 constraints the schema declares, and every store operation keeps it.
 Timestamps are integers counting milliseconds.
 */
module Schema {
  import opened Base

  /** The `user_role` enum. */
  datatype Role = Participant | Administrator

  /** The enum label stored in the database and sent to clients. */
  function RoleName(r: Role): string {
    match r
    case Participant => "PARTICIPANT"
    case Administrator => "ADMINISTRATOR"
  }

  /** Reading an enum label back; any other text is not a role. */
  function ParseRole(s: string): Option<Role> {
    if s == "PARTICIPANT" then Some(Participant)
    else if s == "ADMINISTRATOR" then Some(Administrator)
    else None
  }

  /** The role column takes exactly the two enum labels: parsing inverts
      `RoleName`, and only the two labels parse. */
  lemma RoleLabels(r: Role, s: string)
    ensures ParseRole(RoleName(r)) == Some(r)
    ensures ParseRole(s).Some? <==> s == "PARTICIPANT" || s == "ADMINISTRATOR"
    ensures ParseRole(s) == Some(r) ==> s == RoleName(r)
    ensures RoleName(Participant) != RoleName(Administrator)
  {
  }

  datatype User = User(
    id: string,
    name: string,
    firstName: string,
    lastName: string,
    email: string,
    password: string,
    emailVerified: bool,
    phone: string,
    phoneVerified: bool,
    role: Role,
    createdAt: int,
    updatedAt: int)

  datatype Session = Session(
    id: string,
    userId: string,
    token: string,
    ipAddress: Option<string>,
    userAgent: Option<string>,
    expiresAt: int,
    createdAt: int,
    updatedAt: int)

  datatype Store = Store(users: seq<User>, sessions: seq<Session>)

  /** The values an insert into `users` supplies; `None` leaves a column with a
      default to that default. */
  datatype UserInsert = UserInsert(
    id: string,
    name: string,
    firstName: string,
    lastName: string,
    email: string,
    password: string,
    phone: string,
    emailVerified: Option<bool>,
    phoneVerified: Option<bool>,
    role: Option<Role>)

  function OrDefault<T>(o: Option<T>, default: T): T {
    match o
    case Some(v) => v
    case None => default
  }

  /** The row the database stores for an insert: omitted flags default to
      false, an omitted role to PARTICIPANT, both timestamps to the time of
      the insert. */
  function UserRow(ins: UserInsert, now: int): (u: User)
    ensures u.id == ins.id && u.name == ins.name && u.firstName == ins.firstName && u.lastName == ins.lastName
    ensures u.email == ins.email && u.password == ins.password && u.phone == ins.phone
    ensures ins.role.None? ==> u.role == Participant
    ensures ins.emailVerified.None? ==> !u.emailVerified
    ensures ins.phoneVerified.None? ==> !u.phoneVerified
    ensures ins.role.Some? ==> u.role == ins.role.value
    ensures ins.emailVerified.Some? ==> u.emailVerified == ins.emailVerified.value
    ensures ins.phoneVerified.Some? ==> u.phoneVerified == ins.phoneVerified.value
    ensures u.createdAt == now && u.updatedAt == now
  {
    User(ins.id, ins.name, ins.firstName, ins.lastName, ins.email, ins.password,
         OrDefault(ins.emailVerified, false), ins.phone, OrDefault(ins.phoneVerified, false),
         OrDefault(ins.role, Participant), now, now)
  }

  /** What responses and the request principal expose of a user: every column
      except the password hash, the full name and the timestamps. The type has
      no password field, so no value of it can leak one. */
  datatype UserView = UserView(
    id: string,
    firstName: string,
    lastName: string,
    email: string,
    phone: string,
    role: Role,
    emailVerified: bool,
    phoneVerified: bool)

  function ViewOf(u: User): UserView {
    UserView(u.id, u.firstName, u.lastName, u.email, u.phone, u.role, u.emailVerified, u.phoneVerified)
  }

  // Key columns, as functions for `KeysUnique`.
  function UserKey(u: User): string { u.id }
  function UserEmail(u: User): string { u.email }
  function UserPhone(u: User): string { u.phone }
  function SessionKey(s: Session): string { s.id }
  function SessionToken(s: Session): string { s.token }

  predicate HasUser(users: seq<User>, id: string) {
    exists i | 0 <= i < |users| :: users[i].id == id
  }

  /** The constraints of the schema: primary keys, unique email, phone and
      token, and every session referencing an existing user. */
  predicate Valid(st: Store) {
    && KeysUnique(st.users, UserKey)
    && KeysUnique(st.users, UserEmail)
    && KeysUnique(st.users, UserPhone)
    && KeysUnique(st.sessions, SessionKey)
    && KeysUnique(st.sessions, SessionToken)
    && forall i | 0 <= i < |st.sessions| :: HasUser(st.users, st.sessions[i].userId)
  }

  /** An existing user shares the new row's id, email or phone. */
  predicate UserClash(users: seq<User>, u: User) {
    exists i | 0 <= i < |users| :: users[i].id == u.id || users[i].email == u.email || users[i].phone == u.phone
  }

  /** An existing session shares the new row's id or token, or the row's user does not exist. */
  predicate SessionClash(st: Store, s: Session) {
    || (exists i | 0 <= i < |st.sessions| :: st.sessions[i].id == s.id || st.sessions[i].token == s.token)
    || !HasUser(st.users, s.userId)
  }

  /** `INSERT INTO users`: refused (`None`) on a unique-key violation. */
  function InsertUser(st: Store, u: User): (r: Option<Store>)
    ensures r.None? <==> UserClash(st.users, u)
    ensures r.Some? ==> r.value.users == st.users + [u] && r.value.sessions == st.sessions
  {
    if UserClash(st.users, u) then None else Some(Store(st.users + [u], st.sessions))
  }

  /** `INSERT INTO sessions`: refused (`None`) on a unique-key or foreign-key violation. */
  function InsertSession(st: Store, s: Session): (r: Option<Store>)
    ensures r.None? <==> SessionClash(st, s)
    ensures r.Some? ==> r.value.users == st.users && r.value.sessions == st.sessions + [s]
  {
    if SessionClash(st, s) then None else Some(Store(st.users, st.sessions + [s]))
  }

  /** `DELETE FROM sessions`: keeps exactly the sessions `keep` accepts. */
  function KeepSessions(st: Store, keep: Session -> bool): (r: Store)
    ensures r.users == st.users
    ensures forall s :: s in r.sessions <==> s in st.sessions && keep(s)
  {
    Store(st.users, Filter(st.sessions, keep))
  }

  /** `DELETE FROM users WHERE id = ...` with the cascade of the foreign key. */
  function DeleteUser(st: Store, id: string): (r: Store)
    ensures forall u :: u in r.users <==> u in st.users && u.id != id
    ensures forall s :: s in r.sessions <==> s in st.sessions && s.userId != id
  {
    Store(Filter(st.users, (u: User) => u.id != id), Filter(st.sessions, (s: Session) => s.userId != id))
  }

  /** `SELECT ... WHERE email = ... LIMIT 1`. */
  function UserWithEmail(users: seq<User>, email: string): (r: Option<User>)
    ensures r.None? <==> forall i | 0 <= i < |users| :: users[i].email != email
    ensures r.Some? ==> r.value in users && r.value.email == email
  {
    First(users, (u: User) => u.email == email)
  }

  /** `SELECT ... WHERE id = ... LIMIT 1`. */
  function UserWithId(users: seq<User>, id: string): (r: Option<User>)
    ensures r.None? <==> !HasUser(users, id)
    ensures r.Some? ==> r.value in users && r.value.id == id
  {
    First(users, (u: User) => u.id == id)
  }

  /** A session that `token` names and that has not expired at `now`. */
  predicate Live(s: Session, token: string, now: int) {
    s.token == token && s.expiresAt > now
  }

  /** `SELECT ... WHERE token = ... AND expires_at > now LIMIT 1`. */
  function LiveSession(sessions: seq<Session>, token: string, now: int): (r: Option<Session>)
    ensures r.None? <==> forall i | 0 <= i < |sessions| :: !Live(sessions[i], token, now)
    ensures r.Some? ==> r.value in sessions && Live(r.value, token, now)
  {
    First(sessions, (s: Session) => Live(s, token, now))
  }

  // ---- The schema constraints survive every store operation ----

  lemma InsertUserKeepsValid(st: Store, u: User)
    requires Valid(st)
    requires InsertUser(st, u).Some?
    ensures Valid(InsertUser(st, u).value)
  {
    var users := st.users;
    AppendKeepsKeysUnique(users, u, UserKey);
    AppendKeepsKeysUnique(users, u, UserEmail);
    AppendKeepsKeysUnique(users, u, UserPhone);
    var r := InsertUser(st, u).value;
    forall i | 0 <= i < |r.sessions|
      ensures HasUser(r.users, r.sessions[i].userId)
    {
      assert r.sessions[i] == st.sessions[i];
      assert HasUser(users, st.sessions[i].userId);
      var j :| 0 <= j < |users| && users[j].id == st.sessions[i].userId;
      assert r.users[j] == users[j];
    }
  }

  lemma InsertSessionKeepsValid(st: Store, s: Session)
    requires Valid(st)
    requires InsertSession(st, s).Some?
    ensures Valid(InsertSession(st, s).value)
  {
    AppendKeepsKeysUnique(st.sessions, s, SessionKey);
    AppendKeepsKeysUnique(st.sessions, s, SessionToken);
    var r := InsertSession(st, s).value;
    forall i | 0 <= i < |r.sessions|
      ensures HasUser(r.users, r.sessions[i].userId)
    {
      if i < |st.sessions| {
        assert r.sessions[i] == st.sessions[i];
      }
    }
  }

  lemma KeepSessionsKeepsValid(st: Store, keep: Session -> bool)
    requires Valid(st)
    ensures Valid(KeepSessions(st, keep))
  {
    FilterKeepsKeysUnique(st.sessions, keep, SessionKey);
    FilterKeepsKeysUnique(st.sessions, keep, SessionToken);
    var r := KeepSessions(st, keep);
    forall i | 0 <= i < |r.sessions|
      ensures HasUser(r.users, r.sessions[i].userId)
    {
      assert r.sessions[i] in st.sessions;
    }
  }

  /** Deleting a user, with the cascade, leaves no dangling session. */
  lemma DeleteUserKeepsValid(st: Store, id: string)
    requires Valid(st)
    ensures Valid(DeleteUser(st, id))
  {
    var keepUser := (u: User) => u.id != id;
    var keepSession := (s: Session) => s.userId != id;
    FilterKeepsKeysUnique(st.users, keepUser, UserKey);
    FilterKeepsKeysUnique(st.users, keepUser, UserEmail);
    FilterKeepsKeysUnique(st.users, keepUser, UserPhone);
    FilterKeepsKeysUnique(st.sessions, keepSession, SessionKey);
    FilterKeepsKeysUnique(st.sessions, keepSession, SessionToken);
    var r := DeleteUser(st, id);
    forall i | 0 <= i < |r.sessions|
      ensures HasUser(r.users, r.sessions[i].userId)
    {
      var s := r.sessions[i];
      assert s in st.sessions && s.userId != id;
      var k :| 0 <= k < |st.sessions| && st.sessions[k] == s;
      var j :| 0 <= j < |st.users| && st.users[j].id == s.userId;
      assert st.users[j] in r.users;
    }
  }

  // ---- Lookups under the unique keys ----

  lemma UserWithEmailIsUnique(users: seq<User>, u: User)
    requires KeysUnique(users, UserEmail)
    requires u in users
    ensures UserWithEmail(users, u.email) == Some(u)
  {
    var v := UserWithEmail(users, u.email).value;
    KeyDeterminesRow(users, UserEmail, u, v);
  }

  lemma UserWithIdIsUnique(users: seq<User>, u: User)
    requires KeysUnique(users, UserKey)
    requires u in users
    ensures UserWithId(users, u.id) == Some(u)
  {
    var v := UserWithId(users, u.id).value;
    KeyDeterminesRow(users, UserKey, u, v);
  }

  lemma LiveSessionIsUnique(sessions: seq<Session>, s: Session, now: int)
    requires KeysUnique(sessions, SessionToken)
    requires s in sessions && s.expiresAt > now
    ensures LiveSession(sessions, s.token, now) == Some(s)
  {
    var v := LiveSession(sessions, s.token, now).value;
    KeyDeterminesRow(sessions, SessionToken, s, v);
  }
}
