/** Properties that span several components: a revoked token stays
    refused until it could no longer verify anyway, a fresh login token
    passes the gate, and the register / login / gate / logout sequence. */
module Scenarios {
  import opened Wrappers
  import opened Text
  import opened UserEntity
  import opened TokenBlacklistEntity
  import opened Http
  import AuthService
  import AuthMiddleware
  import AuthController
  import Jwt
  import Bcrypt

  /** After a successful logout the gate refuses the token with 401, at
      any later time and whatever header carries it. */
  lemma LogoutRevokesToken(users: UserTable, blacklist: Blacklist, codec: Jwt.TokenCodec,
                           header: Option<string>, user: Option<User>, nowMs: nat,
                           header': Option<string>, laterMs: nat)
    requires ValidBlacklist(blacklist)
    requires AuthController.Logout(blacklist, codec, header, user, nowMs).0.status == 200
    requires AuthMiddleware.BearerToken(header') == AuthMiddleware.BearerToken(header)
    ensures
      var revoked := AuthController.Logout(blacklist, codec, header, user, nowMs).1;
      AuthMiddleware.AuthenticateToken(users, revoked, codec, header', laterMs)
        == AuthMiddleware.Reject(401, AuthMiddleware.TokenInvalid)
  {
  }

  /** The purge never brings a revoked token back: a token that was on the
      blacklist is refused at any time from the purge on, by the blacklist
      while its entry remains and by its expiry once the entry is gone. */
  lemma CleanupNeverRevives(users: UserTable, blacklist: Blacklist, codec: Jwt.TokenCodec,
                            header: Option<string>, cleanedAt: nat, nowMs: nat)
    requires AuthService.FiledByLogout(codec, blacklist)
    requires AuthMiddleware.BearerToken(header).Some?
    requires IsBlacklisted(blacklist, AuthMiddleware.BearerToken(header).value)
    requires cleanedAt <= nowMs
    ensures
      var cleaned := AuthService.CleanExpiredTokens(blacklist, cleanedAt);
      AuthMiddleware.AuthenticateToken(users, cleaned, codec, header, nowMs).Reject?
  {
  }

  /** A token handed out by a successful login, sent as
      `<scheme> <token>`, passes the gate for as long as it has not expired
      or been revoked, and attaches the user who logged in. */
  lemma LoginTokenPassesGate(users: UserTable, blacklist: Blacklist, hasher: Bcrypt.PasswordHasher,
                             codec: Jwt.TokenCodec, email: string, password: string,
                             loginMs: nat, configured: Option<nat>, scheme: string, nowMs: nat)
    requires ValidUsers(users)
    requires Jwt.Sound(codec)
    requires AuthService.Login(users, hasher, codec, email, password, loginMs, configured).Success?
    requires !IsBlacklisted(blacklist, AuthService.Login(users, hasher, codec, email, password, loginMs, configured).value.token)
    requires Jwt.Seconds(nowMs) < Jwt.Seconds(loginMs) + AuthService.ExpiresIn(configured)
    requires Space !in scheme
    ensures
      var token := AuthService.Login(users, hasher, codec, email, password, loginMs, configured).value.token;
      AuthMiddleware.AuthenticateToken(users, blacklist, codec, Some(scheme + [Space] + token), nowMs)
        == AuthMiddleware.Next(FindByEmail(users, email).value)
  {
    var u := FindByEmail(users, email).value;
    var token := AuthService.Login(users, hasher, codec, email, password, loginMs, configured).value.token;
    var ttl := AuthService.ExpiresIn(configured);
    Jwt.SignVerifyRoundTrip(codec, u.id, u.email, u.role, loginMs, ttl, nowMs);
    assert Jwt.Compact(token);
    AuthMiddleware.BearerTokenOfHeader(scheme, token, None);
    LookupsFindTheRow(users, u);
  }

  /** Unknown email, inactive account and wrong password are answered
      identically, so a caller cannot tell which one happened. */
  lemma LoginFailuresIndistinguishable(users: UserTable, hasher: Bcrypt.PasswordHasher,
                                       codec: Jwt.TokenCodec, nowMs: nat, configured: Option<nat>,
                                       body: AuthController.CredentialsBody,
                                       body': AuthController.CredentialsBody)
    requires Truthy(body.email) && Truthy(body.password)
    requires Truthy(body'.email) && Truthy(body'.password)
    requires AuthService.Login(users, hasher, codec, body.email.value, body.password.value, nowMs, configured).Failure?
    requires AuthService.Login(users, hasher, codec, body'.email.value, body'.password.value, nowMs, configured).Failure?
    ensures AuthController.Login(users, hasher, codec, body, nowMs, configured)
         == AuthController.Login(users, hasher, codec, body', nowMs, configured)
         == Response(401, Message(AuthService.Message(AuthService.InvalidCredentials).value))
  {
  }

  /** Register a staff member, log in, pass the gate as `staff`, be
      refused by `requireAdmin`, log out, and be refused by the gate with
      the same token. */
  lemma StaffLifecycle(users: UserTable, blacklist: Blacklist, hasher: Bcrypt.PasswordHasher,
                       codec: Jwt.TokenCodec, salt: nat, email: string, password: string,
                       registeredAt: int, loginMs: nat, requestMs: nat, logoutMs: nat, laterMs: nat)
    requires ValidUsers(users) && ValidBlacklist(blacklist)
    requires Jwt.Sound(codec) && Bcrypt.Sound(hasher)
    requires email != "" && password != ""
    requires FindByEmail(users, email).None?
    requires !IsBlacklisted(blacklist, AuthService.Login(
               AuthService.Register(users, hasher, salt, email, password, Some("staff"), registeredAt).value.users,
               hasher, codec, email, password, loginMs, None).value.token)
    requires Jwt.Seconds(requestMs) < Jwt.Seconds(loginMs) + Jwt.DefaultExpiresIn
    ensures
      var reg := AuthService.Register(users, hasher, salt, email, password, Some("staff"), registeredAt);
      var login := AuthService.Login(reg.value.users, hasher, codec, email, password, loginMs, None);
      var header := Some("Bearer " + login.value.token);
      var user := FindByEmail(reg.value.users, email);
      var gate := AuthMiddleware.AuthenticateToken(reg.value.users, blacklist, codec, header, requestMs);
      var logout := AuthController.Logout(blacklist, codec, header, user, logoutMs);
      && reg.Success?
      && login.Success?
      && user.Some? && user.value.role == Staff
      && gate == AuthMiddleware.Next(user.value)
      && AuthMiddleware.RequireAdmin(user) == AuthMiddleware.Reject(403, AuthMiddleware.AdminRequired)
      && logout.0.status == 200
      && AuthMiddleware.AuthenticateToken(reg.value.users, logout.1, codec, header, laterMs)
           == AuthMiddleware.Reject(401, AuthMiddleware.TokenInvalid)
  {
    var reg := AuthService.Register(users, hasher, salt, email, password, Some("staff"), registeredAt);
    AuthService.RegisterThenLogin(users, hasher, codec, salt, email, password, Some("staff"), registeredAt, loginMs, None);
    var login := AuthService.Login(reg.value.users, hasher, codec, email, password, loginMs, None);
    var token := login.value.token;
    assert "Bearer " + token == "Bearer" + [Space] + token;
    LoginTokenPassesGate(reg.value.users, blacklist, hasher, codec, email, password, loginMs, None, "Bearer", requestMs);
    var u := FindByEmail(reg.value.users, email).value;
    LookupsFindTheRow(reg.value.users, reg.value.users.rows[|users.rows|]);
    assert u.role == Staff;
    var header := Some("Bearer " + token);
    assert Jwt.Compact(token);
    AuthMiddleware.BearerTokenOfHeader("Bearer", token, None);
    Jwt.SignVerifyRoundTrip(codec, u.id, u.email, u.role, loginMs, Jwt.DefaultExpiresIn, loginMs);
    assert codec.decode(token).Some?;
  }
}
