# Employee API: authentication, authorisation and the employee store

This Dafny project models the core of an Express/TypeORM employee-management API:

- the credential service: `register`, `login`, `logout` and `cleanExpiredTokens`. These are transitions over the `users` table and the `token_blacklist` table.
- the two request gates: `authenticateToken` and `requireAdmin`.
- the access policy of the `/employees` router.
- the employee service, with its listing, lookup, creation, partial update, deletion, status filter and search.
- the two controllers that check request fields and map service outcomes to HTTP statuses.

Everything is a pure function over immutable values:

- Tables are `seq`s of rows in insertion order. The blacklist is a `map` keyed by the raw token text, which the store keeps unique.
- A store failure is a `Result` failure. The caller keeps the table it passed in, so a failed call changes nothing.
- Time is a parameter, in milliseconds.
- The `jsonwebtoken` library is a `Jwt.TokenCodec`. It bundles `sign`, `decode` (no signature check) and the signature check. `Jwt.Sound` states the laws the core relies on.
- `bcryptjs` is a `Bcrypt.PasswordHasher` whose random salt is an argument. `Bcrypt.Sound` says a password always matches its own digest.
- `new Date(text)` for the hiring date is a `parseDate` parameter. It returns `None` for text the store would refuse.

Behaviour of the code worth knowing:

- `authenticateToken` looks the token up in the blacklist *before* verifying its signature. A revoked token gets 401 whatever its signature.
- A bad signature or an expired token gets 403, not 401.
- The scheme word of the `Authorization` header is never checked. The token is simply the second space-separated piece.
- `cleanExpiredTokens` returns nothing, not a count.
- A second logout with the same token is not idempotent. The unique `token` column refuses it, and the controller answers 500.
- Emails are compared exactly, not case-insensitively.
- The controller and the service pass the body's `role` through unchecked. A request that reaches `register` with `role: "admin"` creates an admin account (see the contract of `AuthService.Register`). The gates on that route are not modelled.

## Model

| member | source | states |
|---|---|---|
| `Text.Truthy` | src/controllers/AuthController.ts:13 | a request field counts as given when it is present and not the empty string, as JavaScript's `!field` test decides for a string or `undefined` |
| `Text.Split` | src/middlewares/auth.ts:19 | `split(' ')` always yields at least one piece, no piece contains a space, and there is exactly one piece when the text has no space |
| `Text.JoinSplit` | src/middlewares/auth.ts:19 | joining the pieces of `split(' ')` with single spaces gives back the header exactly |
| `Text.SplitJoin` | src/middlewares/auth.ts:19 | splitting the join of space-free pieces gives back the same pieces |
| `Text.ContainsIgnoringCase` | src/services/EmployeeService.ts:76-84 | `field ILIKE '%term%'` holds exactly when the lower-cased term occurs at some position of the lower-cased field |
| `UserEntity.ParseRole` | src/entities/User.ts:10-13 | only the texts `admin` and `staff` name a role; any other text is refused by the enum column |
| `UserEntity.RoleNameRoundTrip` | src/entities/User.ts:10-13 | role names and roles correspond one to one |
| `UserEntity.WithoutPassword` | src/services/AuthService.ts:35-36 | the user sent back keeps every column except `password` |
| `UserEntity.FindByEmail` | src/services/AuthService.ts:15-17 | finds a stored user with exactly that email, and finds nothing only when no user has it |
| `UserEntity.FindById` | src/middlewares/auth.ts:43-44 | finds a stored user with that id, and finds nothing only when no user has it |
| `UserEntity.LookupsFindTheRow` | src/entities/User.ts:17-22 | with `id` a primary key and `email` unique, looking a stored user up by either column returns that very user |
| `UserEntity.InsertUser` | src/entities/User.ts:17-37 | a new user gets an id no stored user has and `isActive = true`; the table stays valid, with emails still unique |
| `TokenBlacklistEntity.IsBlacklisted` | src/middlewares/auth.ts:26-33 | a token is revoked exactly when the blacklist holds an entry under that token text |
| `TokenBlacklistEntity.AddEntry` | src/entities/TokenBlacklist.ts:13-23 | an insert fails exactly when the token is already present; otherwise it files one entry with that token, user, insertion time and expiry, and leaves every other entry unchanged |
| `EmployeeEntity.ParseStatus` | src/entities/Employee.ts:10-14 | only `active`, `absent` and `quitte` name a status |
| `EmployeeEntity.StatusNameRoundTrip` | src/entities/Employee.ts:10-14 | status names and statuses correspond one to one |
| `Jwt.Sign` | src/services/AuthService.ts:53-57 | for a sound codec, the token is compact, carries the secret's signature and decodes to the claims `userId`, `email`, `role` with `iat` the current whole second and `exp = iat + expiresIn` |
| `Jwt.Verify` | src/middlewares/auth.ts:37-40 | a token verifies only when it carries a valid signature, decodes, and its expiry second is still ahead; it fails in every other case |
| `Jwt.SignVerifyRoundTrip` | src/services/AuthService.ts:53-57 | a signed token decodes to exactly the signed claims, and verifies exactly while the current second is below `iat + expiresIn` |
| `Jwt.OnlySignedTokensVerify` | src/middlewares/auth.ts:37-40 | any token that verifies is the signing of its own claims, so an altered token cannot verify |
| `Jwt.ZeroLifetimeRejected` | src/services/AuthService.ts:55-57 | a token with a zero lifetime is refused as expired from the moment it is issued |
| `AuthService.ExpiresIn` | src/services/AuthService.ts:56 | the token lifetime is the configured value, or 86400 seconds (`'24h'`) when none is configured |
| `AuthService.RequestedRole` | src/services/AuthService.ts:13 | an omitted role means `staff`; a given role must be `admin` or `staff` |
| `AuthService.Register` | src/services/AuthService.ts:13-37 | a taken email fails with the duplicate error; otherwise a bad role fails, and those are the only failures. Success appends exactly one active user with the given email, the digest of the password, and the requested or default role; the returned user has no password |
| `AuthService.RegisterTwiceFails` | src/services/AuthService.ts:15-20 | once an email is registered, registering it again fails whatever the other arguments |
| `AuthService.RegisterThenLogin` | src/services/AuthService.ts:23-50 | a freshly registered user logs in with the same password and gets back the same password-free user |
| `AuthService.Login` | src/services/AuthService.ts:39-62 | login succeeds exactly when the email exists, the user is active and the password matches; every failure is the single invalid-credentials error; on success the token's claims are exactly the user's id, email and role, with expiry `iat + JWT_EXPIRES_IN` (24 h by default) |
| `AuthService.Logout` | src/services/AuthService.ts:64-82 | logout fails, always with the single logout error, exactly when the token does not decode or is already revoked; on success it adds one entry (token, user id, time, `exp * 1000`) and leaves every other entry as it was |
| `AuthService.LogoutTwiceFails` | src/entities/TokenBlacklist.ts:13-14 | the same token cannot be logged out twice |
| `AuthService.CleanExpiredTokens` | src/services/AuthService.ts:84-91 | exactly the entries with `expiresAt < now` are removed; the kept entries are unchanged |
| `AuthService.CleanExpiredTokensIdempotent` | src/services/AuthService.ts:86-90 | purging again at the same time removes nothing more; purging at `a` and then at `b` equals purging at the later of the two |
| `AuthService.FiledByLogoutPreserved` | src/services/AuthService.ts:67-78 | logout and purge keep every blacklist entry's `expiresAt` equal to its own token's expiry in milliseconds |
| `AuthMiddleware.BearerToken` | src/middlewares/auth.ts:18-23 | the token is exactly the second piece of the header split on spaces, present only when that piece exists and is non-empty |
| `AuthMiddleware.BearerTokenOfHeader` | src/middlewares/auth.ts:18-19 | `<any scheme> <token>`, with or without trailing space-separated text, yields `token`; the scheme word is not checked |
| `AuthMiddleware.BearerTokenShape` | src/middlewares/auth.ts:18-19 | a header that yields a token is a space-free word, a space and that token, followed by nothing or by a space |
| `AuthMiddleware.AuthenticateToken` | src/middlewares/auth.ts:13-57 | no token gets 401; a blacklisted token gets 401; a token that fails verification gets 403; a missing or inactive user gets 401. The gate passes exactly when all four checks pass, and then attaches the active stored user named by the claims |
| `AuthMiddleware.BlacklistCheckedBeforeVerify` | src/middlewares/auth.ts:27-40 | for a blacklisted token the answer is 401 whatever the codec and the clock, so verification plays no part |
| `AuthMiddleware.RequireAdmin` | src/middlewares/auth.ts:59-75 | no user gets 401, a non-admin gets 403, and an admin passes unchanged, for exactly that case |
| `EmployeeService.InsertNewestFirst` | src/services/EmployeeService.ts:10 | inserting into a newest-first sequence keeps it newest first and adds exactly that one row |
| `EmployeeService.SortNewestFirst` | src/services/EmployeeService.ts:10 | the result is ordered by `createdAt` descending and is a permutation of the input |
| `EmployeeService.GetAllEmployees` | src/services/EmployeeService.ts:8-12 | every row appears exactly once, newest first |
| `EmployeeService.GetEmployeeById` | src/services/EmployeeService.ts:14-20 | fails with "not found" exactly when no row has the id; otherwise returns a stored row with that id |
| `EmployeeService.GetEmployeeByIdFindsTheRow` | src/entities/Employee.ts:18-19 | with `id` a primary key, the lookup by id returns a row exactly when that row is stored with that id |
| `EmployeeService.StatusOrDefault` | src/services/EmployeeService.ts:32 | a falsy status becomes `active`; a truthy one must name an enum value |
| `EmployeeService.CreateEmployee` | src/services/EmployeeService.ts:22-36 | succeeds exactly when the date parses and the status is falsy or valid; appends one row with the given names, parsed date, status (defaulting to `active`), creation time and a fresh id |
| `EmployeeService.CreateThenGet` | src/services/EmployeeService.ts:22-36 | after a creation the new row is found under its id, and every other id is looked up as before |
| `EmployeeService.Patch` | src/services/EmployeeService.ts:50-55 | each field takes the supplied value when it is truthy and keeps its old value otherwise; id and timestamps are kept; a truthy date or status the store would refuse makes the patch fail |
| `EmployeeService.PatchIdempotent` | src/services/EmployeeService.ts:50-55 | supplying no field changes nothing, and applying the same fields twice equals applying them once |
| `EmployeeService.PatchKeepsNamesNonEmpty` | src/services/EmployeeService.ts:50-54 | an update never empties `prenom`, `nom` or `fonction` |
| `EmployeeService.UpdateEmployee` | src/services/EmployeeService.ts:38-58 | a missing id fails with "not found". Otherwise the row with that id becomes its patch in place, with `updatedAt` moved only if something changed. Every other row is unchanged, and so is the id sequence |
| `EmployeeService.UpdateThenGet` | src/services/EmployeeService.ts:38-58 | after an update the id is found in its saved form, and every other id is looked up as before |
| `EmployeeService.DeleteEmployee` | src/services/EmployeeService.ts:60-64 | fails exactly when no row has the id; otherwise exactly the rows with other ids remain, one fewer than before |
| `EmployeeService.RemovingTheRowWithId` | src/services/EmployeeService.ts:60-63 | with `id` a primary key, removing its one row leaves exactly the other rows, ids still distinct |
| `EmployeeService.DeleteThenGet` | src/services/EmployeeService.ts:60-64 | after a deletion the id is no longer found, and every other id is looked up as before |
| `EmployeeService.GetEmployeesByStatus` | src/services/EmployeeService.ts:66-71 | exactly the rows with that status, each once, newest first |
| `EmployeeService.SearchEmployees` | src/services/EmployeeService.ts:73-87 | exactly the rows where the lower-cased term occurs in the lower-cased `prenom`, `nom` or `fonction`, each once, newest first |
| `AuthController.Register` | src/controllers/AuthController.ts:9-28 | a falsy email or password gets 400 and the table is untouched; service success gets 201 with the new user and table; a service error gets 400 and the table is untouched |
| `AuthController.Login` | src/controllers/AuthController.ts:30-49 | a falsy email or password gets 400; a service failure gets 401 with the one invalid-credentials message; success gets 200 with the user and token |
| `AuthController.Logout` | src/controllers/AuthController.ts:51-66 | no token (the gate's splitting rule) or no attached user gets 400; a service error gets 500; only a 200 changes the blacklist |
| `AuthController.Profile` | src/controllers/AuthController.ts:68-79 | no attached user gets 401; otherwise 200 with that user minus its password |
| `EmployeeController.ListingFor` | src/controllers/EmployeeController.ts:15-25 | a truthy `search` wins; otherwise a truthy `status` filters; otherwise every employee is listed |
| `EmployeeController.GetAllEmployees` | src/controllers/EmployeeController.ts:9-35 | the response lists what the chosen service call returns, and `count` equals the number of employees listed; a status outside the enum gets 500 |
| `EmployeeController.GetEmployeeById` | src/controllers/EmployeeController.ts:37-49 | 404 exactly when no row has the id; otherwise 200 with a stored row with that id |
| `EmployeeController.CreateEmployee` | src/controllers/EmployeeController.ts:51-76 | any of the four required fields falsy gets 400 and the table is untouched; 201 appends one row with non-empty names; a store refusal gets 400 and the table is untouched |
| `EmployeeController.UpdateEmployee` | src/controllers/EmployeeController.ts:78-98 | the five body fields are passed to the service as they are; success gets 200 and any failure, a missing id included, gets 400 with the table untouched |
| `EmployeeController.DeleteEmployee` | src/controllers/EmployeeController.ts:100-109 | 404 exactly when no row has the id, with the table untouched; otherwise 200 and exactly the other rows remain |
| `EmployeeRoutes.Dispatch` | src/routes/employees.ts:54-242 | listing, lookup, creation, update and deletion each end in their own controller with the request's query, id and body; `GET` routes never change the table |
| `EmployeeRoutes.Handle` | src/routes/employees.ts:17-242 | every request meets `authenticateToken` first and a rejection is returned as is. `PUT` and `DELETE` from a non-admin get 403. Every other authenticated request reaches its controller. A refused request leaves the table unchanged |
| `EmployeeRoutes.OnlyAuthorizedRequestsChangeTheTable` | src/routes/employees.ts:17-242 | a request that changes the table was made by an active, authenticated user, is not a `GET`, and comes from an admin if it is a `PUT` or `DELETE` |
| `EmployeeRoutes.StaffMayCreateButNotModify` | src/routes/employees.ts:133-242 | an authenticated `staff` user reaches the create controller but gets 403 on update and delete |
| `Scenarios.LogoutRevokesToken` | src/services/AuthService.ts:64-78 | after a successful logout, the gate answers 401 to that token at any later time |
| `Scenarios.CleanupNeverRevives` | src/services/AuthService.ts:84-91 | purging the blacklist never re-enables a revoked token. From the purge on, the gate refuses it: by the blacklist while its entry remains, and because it has expired once the entry is gone |
| `Scenarios.LoginTokenPassesGate` | src/services/AuthService.ts:53-61 | a login token sent as `<scheme> <token>` passes the gate until it expires or is revoked, and attaches the user who logged in |
| `Scenarios.LoginFailuresIndistinguishable` | src/services/AuthService.ts:41-50 | an unknown email, an inactive account and a wrong password all get the same 401 response |
| `Scenarios.StaffLifecycle` | src/services/AuthService.ts:13-81 | the full sequence holds: register as `staff`, log in, pass the gate, get 403 from `requireAdmin`, log out, and then get 401 from the gate for the same token |

## Left out

- JSON Web Token cryptography is not modelled. `Jwt.TokenCodec` abstracts it, and the lemmas assume `Jwt.Sound`, the laws of a signature scheme. The payload of a token the server did not sign is restricted to the claim shape the server signs.
- bcrypt is not modelled: `Bcrypt.PasswordHasher` abstracts it. The cost factor 12 is not modelled, and the salt is a parameter.
- The hourly timer in src/index.ts:76-86 and its logging are left out as scheduling concerns. Only its body, `cleanExpiredTokens`, is modelled.
- Races between a logout and a concurrent gate check are left out: the model is sequential.
- Express, helmet, cors, rate limiting, the 404/500 handlers in src/index.ts and the route mounting and health route in src/routes/index.ts are left out as transport plumbing.
- src/routes/auth.ts is not part of this model. So which gates protect `logout` and `profile` is not modelled, and those controllers take `req.user` as a parameter.
- src/config/swagger.ts and src/config/database.ts are left out as static configuration. `JWT_SECRET` is folded into the codec, and `JWT_EXPIRES_IN` is a number of seconds, not a duration string.
- src/scripts/seedData.ts and src/scripts/createAdmin.ts are left out as one-shot I/O scripts. Note that the seed script refers to `EmployeeStatus.QUITTE`, while the enum member is `QUIT`.
- Date parsing (`new Date(...)`) is left out: `parseDate` stands for it. Real clocks are replaced by a `now` parameter.
- Route parameters arrive as text and go through `parseInt`. The model takes the parsed integer, so ids with trailing text (`12abc` reads as 12) and ids that parse to `NaN` are not modelled.
- `ILIKE` wildcards (`%` and `_` inside the term) and Unicode case folding are left out: search is an ASCII case-insensitive literal substring test.
- The `class-validator` decorators are never invoked by the code, so they are not enforced in the model.
- Store failures other than the ones modelled are left out. Those are a refused enum value, a refused date and the unique constraints; a lost connection is an example of one left out. In the source, any such failure inside `authenticateToken` becomes a 403.
- Primary-key sequence gaps after a failed insert are not modelled: a failed insert does not consume an id.
- Request values that are not strings are not modelled: `null`, numbers, and repeated query parameters. A field is either absent or a string.
- A token that decodes without an `exp` claim is left out: every payload carries one.
- `EmployeeService.UpdateEmployee` moves `updatedAt` exactly when some field changes value. This approximates the store's own change detection.
