# Cookie-session authentication of sophovote, in Dafny

This project models the part of the sophovote Express API that has behaviour
worth stating: cookie-session authentication. Four handlers are covered:
sign-up, sign-in, sign-out and current-user. So are the `authenticateUser`
middleware, the `requireRole` gate and the `users`/`sessions` tables with
their constraints. It also covers the pure helpers of room creation: the slug
pipeline, the room code and the order of `createRoom`'s checks.

Everything is a pure function over an immutable store:

- Each table is a sequence of rows.
- `SELECT ... LIMIT 1` takes the first matching row.
- `INSERT` appends a row, or is refused (`None`) when it would break a unique
  key or the foreign key.
- `DELETE` keeps the rows that do not match.

A handler takes the store, the request and `now` (milliseconds). It returns the
response (status, body, cookie directive) together with the store it leaves
behind. The middleware only reads the store, so it returns a decision and no
store.

`Schema.Valid` collects the schema's constraints:

- unique user id, e-mail and phone;
- unique session id and token;
- every session belongs to an existing user.

Every operation and every handler preserves `Valid`.

Modules, one per source concern:

| module | file | models |
|---|---|---|
| `Base` | base.dfy | option type, filtering, first match, key uniqueness |
| `JsText` | text.dfy | JavaScript white space, `length` in UTF-16 units, searching |
| `EmailPattern` | email.dfy | the sign-up e-mail regular expression |
| `Schema` | schema.dfy | `user_role`, `users`, `sessions`, store operations |
| `Http` | http.dfy | responses and cookie directives |
| `UsersController` | users_controller.dfy | sign-up, sign-in, sign-out, current user |
| `UsersMiddleware` | users_middleware.dfy | `authenticateUser`, `requireRole` |
| `RoomsController` | rooms_controller.dfy | room code, slug, `createRoom` checks |
| `AuthScenarios` | auth_scenarios.dfy | properties across several requests, worked examples |

Two consequences of the code are worth stating plainly:

- A taken phone number makes the user insert fail, and the catch block of
  sign-up (users.controller.ts:168-174) answers 500. Only the e-mail
  pre-check answers 409.
- `expiresAt` and the cookie's `maxAge` come from one duration and one `now`,
  so they are equal.

The password hash never appears in a response or in the request principal.
Both carry `Schema.UserView`, a type with no password field.

## Model

| member | source | states |
|---|---|---|
| Schema.RoleLabels | packages/database/src/schema.ts:11-14 | the role column takes exactly the labels PARTICIPANT and ADMINISTRATOR; parsing a label gives back its role, and only these two labels parse |
| Schema.UserRow | packages/database/src/schema.ts:16-29 | an insert that omits the verification flags stores false, one that omits the role stores PARTICIPANT, supplied values are stored as given, and both timestamps are the insert time |
| Schema.InsertUser | packages/database/src/schema.ts:16-29 | a user insert is refused exactly when an existing row shares the id, e-mail or phone; otherwise the row is appended and sessions are untouched |
| Schema.InsertSession | packages/database/src/schema.ts:31-40 | a session insert is refused exactly when an existing session shares the id or token, or the referenced user does not exist; otherwise the row is appended |
| Schema.KeepSessions | apps/express-api/src/controllers/users.controller.ts:219-223 | a session delete leaves users alone and keeps exactly the sessions that do not match |
| Schema.DeleteUser | packages/database/src/schema.ts:33 | deleting a user also deletes exactly that user's sessions (the cascade) and nothing else |
| Schema.UserWithEmail | apps/express-api/src/controllers/users.controller.ts:90 | the e-mail lookup finds nothing exactly when no user has that e-mail, and otherwise returns a stored user with it |
| Schema.UserWithId | apps/express-api/src/middleware/users.middleware.ts:54-57 | the id lookup finds nothing exactly when no user has that id, and otherwise returns a stored user with it |
| Schema.LiveSession | apps/express-api/src/middleware/users.middleware.ts:37-43 | the session lookup returns a stored session whose token matches and whose expiry is strictly after now, and finds nothing exactly when there is none |
| Schema.InsertUserKeepsValid | packages/database/src/schema.ts:16-29 | an accepted user insert keeps every uniqueness constraint and the foreign key |
| Schema.InsertSessionKeepsValid | packages/database/src/schema.ts:31-40 | an accepted session insert keeps every uniqueness constraint and the foreign key |
| Schema.KeepSessionsKeepsValid | packages/database/src/schema.ts:31-40 | deleting sessions keeps every constraint |
| Schema.DeleteUserKeepsValid | packages/database/src/schema.ts:31-34 | deleting a user with its sessions leaves no session pointing at a missing user and keeps the unique keys |
| Schema.UserWithEmailIsUnique | packages/database/src/schema.ts:21 | under the unique e-mail constraint the e-mail lookup returns the one user with that e-mail |
| Schema.UserWithIdIsUnique | packages/database/src/schema.ts:17 | under the primary key the id lookup returns the one user with that id |
| Schema.LiveSessionIsUnique | packages/database/src/schema.ts:34 | under the unique token the session lookup returns the one unexpired session with that token |
| JsText.Utf16Length | apps/express-api/src/controllers/users.controller.ts:81 | the JavaScript length of a password lies between its character count and twice that; it equals the character count when every character is in the Basic Multilingual Plane, and twice it when none is |
| JsText.Utf16LengthAppend | apps/express-api/src/controllers/users.controller.ts:81 | the length of a concatenation is the sum of the lengths |
| EmailPattern.IsEmail | apps/express-api/src/controllers/users.controller.ts:72-73 | the e-mail check as four plain conditions; an accepted address has at least five characters |
| EmailPattern.IsEmailMatchesRegex | apps/express-api/src/controllers/users.controller.ts:72-73 | the check accepts exactly the strings the regular expression matches: no white space, exactly one '@', a non-empty local part, and a domain with a '.' that is neither its first nor its last character |
| EmailPattern.IsEmailSplits | apps/express-api/src/controllers/users.controller.ts:72-73 | every accepted address splits into three non-empty runs of non-space, non-'@' characters around an '@' and a '.' |
| EmailPattern.SplitPassesCheck | apps/express-api/src/controllers/users.controller.ts:72-73 | every such split is accepted |
| EmailPattern.JoinedAddress | apps/express-api/src/controllers/users.controller.ts:72-73 | three non-empty runs of plain characters joined by '@' and '.' form an accepted address |
| UsersController.SignUpUser | apps/express-api/src/controllers/users.controller.ts:104-118 | the user row sign-up inserts has the drawn id, the full name "first last", the given names, e-mail and phone, the hashed password, role PARTICIPANT and both flags false |
| UsersController.NewSession | apps/express-api/src/controllers/users.controller.ts:133-140 | the session row has the given id, owner, token, expiry and client address; an absent or empty User-Agent is stored as null, any other is stored as given; both timestamps are the insert time |
| UsersController.SignUp | apps/express-api/src/controllers/users.controller.ts:54-175 | returns 400 with the store unchanged exactly when a field is empty, the e-mail fails the regular expression or the password is shorter than 6. Returns 409 with the store unchanged exactly when the input is valid and the e-mail is taken. A phone or id clash gives 500. Success adds exactly one PARTICIPANT user with both flags false, the full name and the hashed password, plus one session expiring a week later and a week-long cookie |
| UsersController.SessionDuration | apps/express-api/src/controllers/users.controller.ts:215 | the session lasts 604800000 ms when the client asks to be remembered and 86400000 ms otherwise |
| UsersController.SignIn | apps/express-api/src/controllers/users.controller.ts:178-267 | returns 400 exactly when e-mail or password is empty. Returns the same 401 with the store unchanged for an unknown e-mail and for a wrong password. Success keeps users, removes exactly this user's sessions that expired strictly before now, and adds one session whose expiry minus now equals the cookie's maxAge. A 500 leaves the store with that clean-up already done |
| UsersController.SignInSucceeds | apps/express-api/src/controllers/users.controller.ts:190-258 | a non-empty e-mail and password that match a user, with a session id and token no session carries, always give 200 |
| UsersController.SignOut | apps/express-api/src/controllers/users.controller.ts:270-293 | always returns 200 and clears the cookie. Without a token the store is unchanged; with one, exactly the sessions carrying that token are removed |
| UsersController.GetCurrentUser | apps/express-api/src/controllers/users.controller.ts:296-344 | answers 200 exactly when a principal is attached and its id still names a user, returning that user's view; otherwise 401 |
| UsersController.SignUpKeepsValid | apps/express-api/src/controllers/users.controller.ts:99-140 | sign-up keeps every store constraint, on every path |
| UsersController.SignInKeepsValid | apps/express-api/src/controllers/users.controller.ts:218-233 | sign-in keeps every store constraint, on every path |
| UsersController.SignOutKeepsValid | apps/express-api/src/controllers/users.controller.ts:272-276 | sign-out keeps every store constraint |
| UsersController.SignOutIdempotent | apps/express-api/src/controllers/users.controller.ts:272-284 | signing out twice with the same cookie has the same effect as signing out once |
| UsersMiddleware.Authenticate | apps/express-api/src/middleware/users.middleware.ts:24-79 | without a token: 401 and the cookie is kept. Without a live session for the token: 401 and the cookie is cleared. Every refusal after the token check clears the cookie. Passing on means a live session with that token exists, its id is attached, and the principal is the view of that session's user |
| UsersMiddleware.AuthenticateOnValidStore | apps/express-api/src/middleware/users.middleware.ts:36-79 | on a store that keeps its constraints, a token passes exactly when it names an unexpired session. The principal is then that session's user and the attached id is that session's id |
| UsersMiddleware.RequireRole | apps/express-api/src/middleware/users.middleware.ts:89-108 | no principal gives 401; otherwise the request passes exactly when the principal's role label is listed, and is refused with 403 when it is not |
| UsersMiddleware.RequireRoleExamples | apps/express-api/src/middleware/users.middleware.ts:100-105 | an empty role list refuses every principal with 403, and the administrator list admits exactly administrators |
| AuthScenarios.LiveCookieAuthenticates | apps/express-api/src/middleware/users.middleware.ts:36-79 | an unexpired session of an existing user authenticates exactly that user with that session id, and the current-user handler then returns the same view |
| AuthScenarios.SignUpThenAuthenticate | apps/express-api/src/controllers/users.controller.ts:127-148 | the cookie sign-up sets authenticates the new user at any time within the following week |
| AuthScenarios.SignInThenAuthenticate | apps/express-api/src/controllers/users.controller.ts:210-241 | the cookie sign-in sets authenticates the user with the given e-mail for as long as the chosen duration |
| AuthScenarios.SignUpThenSignIn | apps/express-api/src/controllers/users.controller.ts:178-258 | signing in with the credentials just used to sign up succeeds with the same user view, and the current-user handler returns that view |
| AuthScenarios.ExpiredTokenRejected | apps/express-api/src/middleware/users.middleware.ts:37-51 | a token whose session has expired gets 401 and the cookie is cleared |
| AuthScenarios.ExpiredLikeUnknown | apps/express-api/src/middleware/users.middleware.ts:37-51 | an expired token and a token no session carries get identical answers |
| AuthScenarios.ExpiryBoundary | apps/express-api/src/middleware/users.middleware.ts:41 | at the instant a session expires the middleware already refuses it, while sign-in's clean-up, which uses a strict less-than, still keeps it. One millisecond later the owner's sign-in removes it |
| AuthScenarios.SignedOutTokenRejected | apps/express-api/src/controllers/users.controller.ts:272-276 | after sign-out, the token it removed no longer authenticates |
| AuthScenarios.UserDeletedAfterAuthentication | apps/express-api/src/controllers/users.controller.ts:308-319 | if the authenticated user is deleted before the handler reads it, the handler answers 401; the cascade also makes the next request fail authentication |
| AuthScenarios.SignUpSessionRefusedKeepsUser | apps/express-api/src/controllers/users.controller.ts:107-174 | when the session insert is refused after the user insert succeeded, whether for a taken session id or a taken token, sign-up answers 500 yet the new user row stays and sessions are unchanged |
| AuthScenarios.SignUpSucceeds | apps/express-api/src/controllers/users.controller.ts:64-166 | valid input, a free e-mail and no key clash always give 201: 400, 409 and 500 have no other causes |
| AuthScenarios.FirstSignUpExample | apps/express-api/src/controllers/users.controller.ts:54-166 | on an empty store, a@b.com / secret1 signs up with 201 as a PARTICIPANT |
| AuthScenarios.SignUpAgainExample | apps/express-api/src/controllers/users.controller.ts:90-97 | signing up again with the same e-mail gives 409 |
| AuthScenarios.SamePhoneExample | packages/database/src/schema.ts:24 | a second person with a fresh e-mail but the same phone number gets 500 |
| RoomsController.AlphabetByArithmetic | apps/express-api/src/controllers/rooms.controller.ts:20 | the code alphabet is the 26 capital letters followed by the 10 digits |
| RoomsController.RoomCode | apps/express-api/src/controllers/rooms.controller.ts:19-27 | eight draws in [0, 36) give an eight-character code of capital letters and digits |
| RoomsController.RoomCodeDeterminesDraws | apps/express-api/src/controllers/rooms.controller.ts:19-27 | each code character's alphabet position is the draw that chose it, so the code determines the draws |
| RoomsController.ToLower | apps/express-api/src/controllers/rooms.controller.ts:32 | lower-casing keeps the length, turns each ASCII capital letter into its lower-case letter, leaves every other character alone and leaves no capital |
| RoomsController.TrimStart | apps/express-api/src/controllers/rooms.controller.ts:33 | removes exactly a leading run of white space and leaves a non-space first character |
| RoomsController.TrimEnd | apps/express-api/src/controllers/rooms.controller.ts:33 | removes exactly a trailing run of white space and leaves a non-space last character |
| RoomsController.Trim | apps/express-api/src/controllers/rooms.controller.ts:33 | the result is a slice of the input with only white space outside it, and it neither starts nor ends with white space |
| RoomsController.TrimKeepsWords | apps/express-api/src/controllers/rooms.controller.ts:33 | trimming keeps every word character in order |
| RoomsController.StripSymbols | apps/express-api/src/controllers/rooms.controller.ts:34 | only word characters, white space and '-' remain, and nothing is added |
| RoomsController.StripSymbolsAppend | apps/express-api/src/controllers/rooms.controller.ts:34 | the strip works character by character: stripping a concatenation is stripping each part and concatenating |
| RoomsController.StripSymbolsOne | apps/express-api/src/controllers/rooms.controller.ts:34 | a single character is kept exactly when it is a word character, white space or '-', and removed otherwise |
| RoomsController.StripSymbolsKeepsWords | apps/express-api/src/controllers/rooms.controller.ts:34 | dropping symbols keeps every word character in order |
| RoomsController.DashForSpaces | apps/express-api/src/controllers/rooms.controller.ts:35 | replacing white-space runs by hyphens leaves no white space |
| RoomsController.DashForSpacesChars | apps/express-api/src/controllers/rooms.controller.ts:35 | every character of the result is a hyphen or a character of the input |
| RoomsController.DashForSpacesKeepsWords | apps/express-api/src/controllers/rooms.controller.ts:35 | replacing white-space runs keeps every word character in order |
| RoomsController.DashForSpacesAppend | apps/express-api/src/controllers/rooms.controller.ts:35 | text ending in a non-space character is rewritten independently of what follows it |
| RoomsController.DashForSpacesRun | apps/express-api/src/controllers/rooms.controller.ts:35 | a whole run of white space between non-space neighbours becomes exactly one '-' |
| RoomsController.SqueezeDashes | apps/express-api/src/controllers/rooms.controller.ts:36 | collapsing hyphen runs leaves no two adjacent hyphens and keeps the first character |
| RoomsController.SqueezeDashesOnSqueezed | apps/express-api/src/controllers/rooms.controller.ts:36 | text without two adjacent hyphens is left unchanged |
| RoomsController.SqueezeDashesKeepsWords | apps/express-api/src/controllers/rooms.controller.ts:36 | collapsing hyphen runs keeps every word character in order |
| RoomsController.SqueezeDashesAppend | apps/express-api/src/controllers/rooms.controller.ts:36 | text ending in a character other than '-' is squeezed independently of what follows it |
| RoomsController.SqueezeDashesRun | apps/express-api/src/controllers/rooms.controller.ts:36 | a whole run of hyphens between other characters becomes exactly one '-' |
| RoomsController.GenerateSlug | apps/express-api/src/controllers/rooms.controller.ts:30-37 | a slug consists only of a-z, 0-9, '_' and '-', has no white space and never two adjacent hyphens |
| RoomsController.GenerateSlugKeepsWords | apps/express-api/src/controllers/rooms.controller.ts:30-37 | the slug's word characters are exactly those of the lower-cased name, in order |
| RoomsController.GenerateSlugIdempotent | apps/express-api/src/controllers/rooms.controller.ts:30-37 | the slug of a slug is the slug itself |
| RoomsController.GenerateSlugOfLowered | apps/express-api/src/controllers/rooms.controller.ts:32 | the slug depends on the name only through its lower-cased form |
| RoomsController.SlugOfTwoWords | apps/express-api/src/controllers/rooms.controller.ts:30-37 | two words separated by a space become the two lower-cased words joined by one hyphen |
| RoomsController.SlugKeepsTrailingDash | apps/express-api/src/controllers/rooms.controller.ts:32-36 | symbols are removed after trimming, so a word followed by " !" gives a slug ending in a hyphen |
| RoomsController.HelloWorldExample | apps/express-api/src/controllers/rooms.controller.ts:30-37 | "Hello World" gives "hello-world" |
| RoomsController.TrailingSymbolExample | apps/express-api/src/controllers/rooms.controller.ts:32-36 | "a !" gives "a-" |
| RoomsController.UniqueId | apps/express-api/src/controllers/rooms.controller.ts:64 | the id part is a prefix of the room id with hyphens removed, of length six, or less when fewer characters remain, and contains no hyphen |
| RoomsController.RoomSlugSplits | apps/express-api/src/controllers/rooms.controller.ts:64-66 | splitting a room slug at its last hyphen gives back the name slug and the id part |
| RoomsController.CreateRoom | apps/express-api/src/controllers/rooms.controller.ts:40-81 | an empty name gives 400 before the user is looked at. A missing user or user id gives 401. Otherwise a room with that id, owner and name, inactive, whose slug is the name slug, '-' and the id part, and whose code is the code of the draws |

## Left out

- Password hashing: bcrypt is salted and lives in a foreign library. It is the parameter `hash`, and comparing a password with a stored hash is `hash(password) == stored`.
- Randomness: user ids, session ids, tokens, the room UUID and the room-code draws are parameters. A clash is handled like the database handles it: the insert is refused and the handler answers 500.
- The clock: each request takes one `now` in milliseconds. Sign-in reads the clock twice, for the expiry and for the clean-up; the model uses one reading for both.
- Express and Drizzle plumbing: request and response objects, `asyncHandler`, SQL text, and the `returning()` round trip.
- Cookie attributes: `httpOnly`, `secure` and `sameSite` are constant in the handlers and not represented.
- Database failures other than a refused insert (connection errors, and the catch blocks of sign-out, current-user and the middleware, which answer 500) are not represented; sign-in's 500 answer for a refused session insert is modelled. The sign-out failure message differs only in case.
- The `!newUser` branch of sign-up is not represented: an insert with `returning()` that succeeds always yields its row.
- Request bodies whose fields are not strings: a missing field is the empty string, and `rememberMe` is a boolean.
- RoomsController.ToLower: lower-casing, and so RoomsController.GenerateSlug, covers only the ASCII letters; JavaScript's full Unicode `toLowerCase`, including characters that lower-case into ASCII, is not modelled.
- RoomsController.CreateRoom: the room insert, its 500 answer and the reply's field selection are not modelled. The `rooms` table is not part of this model, so the result is the row to insert.
- The other room handlers (listing, deleting, refreshing the code) and the route files are not part of this model.
- Concurrency: requests run one at a time. The check-then-insert race on the e-mail is therefore not represented; uniqueness is a store invariant instead.
- Database and server setup, and the Next.js client, are not part of this model.
