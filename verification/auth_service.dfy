/** The credential service: registration, login, logout and the purge of
    expired revocations, as transitions over the `users` table and the
    token blacklist. */
module AuthService {
  import opened Wrappers
  import opened UserEntity
  import opened TokenBlacklistEntity
  import Jwt
  import Bcrypt

  /** The errors the service throws. `RoleRejected` is the store refusing
      a role outside the enum; the other three carry the service's own
      message. */
  datatype AuthError = EmailTaken | RoleRejected | InvalidCredentials | LogoutFailed

  /** The message each of the service's own errors carries. */
  function Message(e: AuthError): Option<string> {
    match e
    case EmailTaken => Some("Un utilisateur avec cet email existe déjà")
    case RoleRejected => None
    case InvalidCredentials => Some("Email ou mot de passe incorrect")
    case LogoutFailed => Some("Erreur lors de la déconnexion")
  }

  /** The role a registration asks for: `'staff'` when the argument is
      left out, otherwise the enum value named by the text, if any. */
  function RequestedRole(role: Option<string>): (r: Option<UserRole>)
    ensures role.None? ==> r == Some(DefaultRole)
    ensures role.Some? ==> (r.Some? <==> role.value in {"admin", "staff"})
    ensures role.Some? && r.Some? ==> RoleName(r.value) == role.value
  {
    if role.None? then Some(DefaultRole) else ParseRole(role.value)
  }

  /** A registration's outcome: the stored user without its digest, and
      the table after the insertion. */
  datatype Registered = Registered(user: UserView, users: UserTable)

  /** `register(email, password, role = 'staff')`. The email lookup comes
      first; the digest `hasher.hash(password, salt)` is what is stored. */
  function Register(users: UserTable, hasher: Bcrypt.PasswordHasher, salt: nat,
                    email: string, password: string, role: Option<string>, now: int)
    : (r: Result<Registered, AuthError>)
    requires ValidUsers(users)
    ensures FindByEmail(users, email).Some? ==> r == Failure(EmailTaken)
    ensures FindByEmail(users, email).None? && RequestedRole(role).None? ==> r == Failure(RoleRejected)
    ensures r.Success? <==> FindByEmail(users, email).None? && RequestedRole(role).Some?
    ensures r.Success? ==>
      var rows := r.value.users.rows;
      && |rows| == |users.rows| + 1
      && rows[..|users.rows|] == users.rows
      && rows[|users.rows|].email == email
      && rows[|users.rows|].password == hasher.hash(password, salt)
      && rows[|users.rows|].role == RequestedRole(role).value
      && rows[|users.rows|].isActive
      && r.value.user == WithoutPassword(rows[|users.rows|])
      && ValidUsers(r.value.users)
  {
    if FindByEmail(users, email).Some? then Failure(EmailTaken)
    else
      match RequestedRole(role)
      case None => Failure(RoleRejected)
      case Some(granted) =>
        var (u, users') := InsertUser(users, email, hasher.hash(password, salt), granted, now);
        assert users'.rows[..|users.rows|] == users.rows;
        Success(Registered(WithoutPassword(u), users'))
  }

  /** A successful login: the user without its digest and the signed token. */
  datatype LoggedIn = LoggedIn(user: UserView, token: string)

  /** The token lifetime in seconds: `JWT_EXPIRES_IN`, or `'24h'` when it
      is unset or empty. */
  function ExpiresIn(configured: Option<nat>): (seconds: nat)
    ensures configured.None? ==> seconds == 86400
    ensures configured.Some? ==> seconds == configured.value
  {
    if configured.Some? then configured.value else Jwt.DefaultExpiresIn
  }

  /** `login(email, password)` at time `nowMs`. */
  function Login(users: UserTable, hasher: Bcrypt.PasswordHasher, codec: Jwt.TokenCodec,
                 email: string, password: string, nowMs: nat, configured: Option<nat>)
    : (r: Result<LoggedIn, AuthError>)
    ensures r.Failure? ==> r.error == InvalidCredentials
    ensures r.Success? <==>
      && FindByEmail(users, email).Some?
      && FindByEmail(users, email).value.isActive
      && hasher.compare(password, FindByEmail(users, email).value.password)
    ensures r.Success? ==>
      var u := FindByEmail(users, email).value;
      && r.value.user == WithoutPassword(u)
      && (Jwt.Sound(codec) ==>
            codec.decode(r.value.token) ==
              Some(Jwt.Payload(u.id, u.email, u.role, Jwt.Seconds(nowMs),
                               Jwt.Seconds(nowMs) + ExpiresIn(configured))))
  {
    match FindByEmail(users, email)
    case None => Failure(InvalidCredentials)
    case Some(u) =>
      if !u.isActive then Failure(InvalidCredentials)
      else if !hasher.compare(password, u.password) then Failure(InvalidCredentials)
      else
        var token := Jwt.Sign(codec, u.id, u.email, u.role, nowMs, ExpiresIn(configured));
        Success(LoggedIn(WithoutPassword(u), token))
  }

  /** `logout(token, userId)` at time `nowMs`: the token is decoded without
      checking its signature and filed under its own text with its expiry
      in milliseconds. Every failure is the same error. */
  function Logout(codec: Jwt.TokenCodec, blacklist: Blacklist, token: string, userId: nat, nowMs: nat)
    : (r: Result<Blacklist, AuthError>)
    requires ValidBlacklist(blacklist)
    ensures r.Failure? ==> r.error == LogoutFailed
    ensures r.Failure? <==> codec.decode(token).None? || IsBlacklisted(blacklist, token)
    ensures r.Success? ==> r.value.entries.Keys == blacklist.entries.Keys + {token}
    ensures r.Success? ==>
      var e := r.value.entries[token];
      && e.token == token && e.userId == userId && e.blacklistedAt == nowMs
      && e.expiresAt == codec.decode(token).value.exp * 1000
      && (forall t :: t in blacklist.entries ==> r.value.entries[t] == blacklist.entries[t])
      && ValidBlacklist(r.value)
  {
    match codec.decode(token)
    case None => Failure(LogoutFailed)
    case Some(claims) =>
      match AddEntry(blacklist, token, userId, nowMs, claims.exp * 1000)
      case Failure(_) => Failure(LogoutFailed)
      case Success(b) => Success(b)
  }

  /** `cleanExpiredTokens()` at time `nowMs`: deletes the entries with
      `expiresAt < now` and no others. */
  function CleanExpiredTokens(blacklist: Blacklist, nowMs: int): (r: Blacklist)
    ensures forall t :: t in r.entries <==> t in blacklist.entries && blacklist.entries[t].expiresAt >= nowMs
    ensures forall t :: t in r.entries ==> r.entries[t] == blacklist.entries[t]
    ensures r.nextId == blacklist.nextId
    ensures ValidBlacklist(blacklist) ==> ValidBlacklist(r)
  {
    var kept := map t | t in blacklist.entries && !(blacklist.entries[t].expiresAt < nowMs) :: blacklist.entries[t];
    Blacklist(kept, blacklist.nextId)
  }

  /** Purging twice at the same time purges nothing more, and purging at
      `a` then at `b` is purging at the later of the two. */
  lemma CleanExpiredTokensIdempotent(blacklist: Blacklist, a: int, b: int)
    ensures CleanExpiredTokens(CleanExpiredTokens(blacklist, a), a) == CleanExpiredTokens(blacklist, a)
    ensures CleanExpiredTokens(CleanExpiredTokens(blacklist, a), b)
         == CleanExpiredTokens(blacklist, if a <= b then b else a)
  {
  }

  /** Logging the same token out twice fails the second time: the token
      column is unique. */
  lemma LogoutTwiceFails(codec: Jwt.TokenCodec, blacklist: Blacklist, token: string,
                         userId: nat, userId': nat, nowMs: nat, nowMs': nat)
    requires ValidBlacklist(blacklist)
    requires Logout(codec, blacklist, token, userId, nowMs).Success?
    ensures Logout(codec, Logout(codec, blacklist, token, userId, nowMs).value, token, userId', nowMs')
         == Failure(LogoutFailed)
  {
  }

  /** Every entry of the blacklist is a token filed by `Logout`: it decodes
      and its `expiresAt` is its own expiry in milliseconds. */
  ghost predicate FiledByLogout(codec: Jwt.TokenCodec, blacklist: Blacklist) {
    forall t :: t in blacklist.entries ==>
      codec.decode(t).Some? && blacklist.entries[t].expiresAt == codec.decode(t).value.exp * 1000
  }

  /** `Logout` and `CleanExpiredTokens` keep every entry tied to the
      expiry of its token. */
  lemma FiledByLogoutPreserved(codec: Jwt.TokenCodec, blacklist: Blacklist, token: string,
                               userId: nat, nowMs: nat)
    requires ValidBlacklist(blacklist)
    requires FiledByLogout(codec, blacklist)
    ensures Logout(codec, blacklist, token, userId, nowMs).Success? ==>
              FiledByLogout(codec, Logout(codec, blacklist, token, userId, nowMs).value)
    ensures FiledByLogout(codec, CleanExpiredTokens(blacklist, nowMs))
  {
  }

  /** Registering an email that is already in use fails and, the result
      carrying no table, leaves the table as it was; a second registration
      of an email that succeeded once always fails. */
  lemma RegisterTwiceFails(users: UserTable, hasher: Bcrypt.PasswordHasher, salt: nat, salt': nat,
                           email: string, password: string, password': string,
                           role: Option<string>, role': Option<string>, now: int, now': int)
    requires ValidUsers(users)
    requires Register(users, hasher, salt, email, password, role, now).Success?
    ensures
      var users' := Register(users, hasher, salt, email, password, role, now).value.users;
      Register(users', hasher, salt', email, password', role', now') == Failure(EmailTaken)
  {
  }

  /** A user who has just registered can log in with the same password,
      receiving a token for their own id, email and role. */
  lemma RegisterThenLogin(users: UserTable, hasher: Bcrypt.PasswordHasher, codec: Jwt.TokenCodec,
                          salt: nat, email: string, password: string, role: Option<string>,
                          now: int, nowMs: nat, configured: Option<nat>)
    requires ValidUsers(users)
    requires Bcrypt.Sound(hasher)
    requires Register(users, hasher, salt, email, password, role, now).Success?
    ensures
      var reg := Register(users, hasher, salt, email, password, role, now).value;
      var r := Login(reg.users, hasher, codec, email, password, nowMs, configured);
      && r.Success?
      && r.value.user == reg.user
  {
  }
}
