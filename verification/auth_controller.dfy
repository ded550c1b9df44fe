/** The authentication controller: presence checks on the request, the
    call into the credential service and the mapping of its outcome to a
    response. `user` is `req.user`, attached by the gate upstream. */
module AuthController {
  import opened Wrappers
  import opened Text
  import opened UserEntity
  import opened TokenBlacklistEntity
  import opened Http
  import AuthService
  import AuthMiddleware
  import Jwt
  import Bcrypt

  /** The fields `register` and `login` read from the request body. */
  datatype CredentialsBody = CredentialsBody(email: Option<string>, password: Option<string>, role: Option<string>)

  const CredentialsRequired: string := "Email et mot de passe requis"
  const UserCreatedMessage: string := "Utilisateur créé avec succès"
  const LoginMessage: string := "Connexion réussie"
  const TokenRequired: string := "Token requis"
  const LogoutMessage: string := "Déconnexion réussie"
  const NotAuthenticated: string := "Utilisateur non authentifié"

  /** The body carrying a service error's message. */
  function ErrorBody(e: AuthService.AuthError): Body {
    match AuthService.Message(e)
    case Some(m) => Message(m)
    case None => StoreError
  }

  /** `register`: 400 without a truthy email and password (the table
      untouched), 201 with the new user, 400 when the service throws. */
  function Register(users: UserTable, hasher: Bcrypt.PasswordHasher, salt: nat,
                    body: CredentialsBody, now: int)
    : (r: (Response, UserTable))
    requires ValidUsers(users)
    ensures !Truthy(body.email) || !Truthy(body.password) ==>
              r == (Response(400, Message(CredentialsRequired)), users)
    ensures Truthy(body.email) && Truthy(body.password) ==>
      var s := AuthService.Register(users, hasher, salt, body.email.value, body.password.value, body.role, now);
      && (s.Success? ==> r == (Response(201, UserCreated(UserCreatedMessage, s.value.user)), s.value.users))
      && (s.Failure? ==> r == (Response(400, ErrorBody(s.error)), users))
    ensures r.0.status in {201, 400}
    ensures r.0.status == 400 ==> r.1 == users
    ensures r.0.status == 201 ==> |r.1.rows| == |users.rows| + 1 && ValidUsers(r.1)
  {
    if !Truthy(body.email) || !Truthy(body.password) then
      (Response(400, Message(CredentialsRequired)), users)
    else
      match AuthService.Register(users, hasher, salt, body.email.value, body.password.value, body.role, now)
      case Success(reg) => (Response(201, UserCreated(UserCreatedMessage, reg.user)), reg.users)
      case Failure(e) => (Response(400, ErrorBody(e)), users)
  }

  /** `login`: 400 without a truthy email and password, 401 with the one
      service message on any failure, 200 with the user and token. */
  function Login(users: UserTable, hasher: Bcrypt.PasswordHasher, codec: Jwt.TokenCodec,
                 body: CredentialsBody, nowMs: nat, configured: Option<nat>)
    : (r: Response)
    ensures !Truthy(body.email) || !Truthy(body.password) ==> r == Response(400, Message(CredentialsRequired))
    ensures Truthy(body.email) && Truthy(body.password) ==>
      var s := AuthService.Login(users, hasher, codec, body.email.value, body.password.value, nowMs, configured);
      && (s.Success? ==> r == Response(200, LoginSucceeded(LoginMessage, s.value.user, s.value.token)))
      && (s.Failure? ==> r == Response(401, Message(AuthService.Message(AuthService.InvalidCredentials).value)))
    ensures r.status in {200, 400, 401}
  {
    if !Truthy(body.email) || !Truthy(body.password) then Response(400, Message(CredentialsRequired))
    else
      match AuthService.Login(users, hasher, codec, body.email.value, body.password.value, nowMs, configured)
      case Success(s) => Response(200, LoginSucceeded(LoginMessage, s.user, s.token))
      case Failure(e) => Response(401, ErrorBody(e))
  }

  /** `logout`: 400 when the header yields no token (the gate's rule) or no
      user is attached, 500 when the service throws, otherwise 200 with
      the token revoked on behalf of the attached user. */
  function Logout(blacklist: Blacklist, codec: Jwt.TokenCodec, header: Option<string>,
                  user: Option<User>, nowMs: nat)
    : (r: (Response, Blacklist))
    requires ValidBlacklist(blacklist)
    ensures AuthMiddleware.BearerToken(header).None? || user.None? ==>
              r == (Response(400, Message(TokenRequired)), blacklist)
    ensures AuthMiddleware.BearerToken(header).Some? && user.Some? ==>
      var s := AuthService.Logout(codec, blacklist, AuthMiddleware.BearerToken(header).value, user.value.id, nowMs);
      && (s.Success? ==> r == (Response(200, Message(LogoutMessage)), s.value))
      && (s.Failure? ==> r == (Response(500, Message(AuthService.Message(AuthService.LogoutFailed).value)), blacklist))
    ensures r.0.status in {200, 400, 500}
    ensures r.0.status != 200 ==> r.1 == blacklist
    ensures ValidBlacklist(r.1)
  {
    match AuthMiddleware.BearerToken(header)
    case None => (Response(400, Message(TokenRequired)), blacklist)
    case Some(token) =>
      match user
      case None => (Response(400, Message(TokenRequired)), blacklist)
      case Some(u) =>
        match AuthService.Logout(codec, blacklist, token, u.id, nowMs)
        case Success(b) => (Response(200, Message(LogoutMessage)), b)
        case Failure(e) => (Response(500, ErrorBody(e)), blacklist)
  }

  /** `profile`: 401 without an attached user, otherwise the user without
      its password. */
  function Profile(user: Option<User>): (r: Response)
    ensures user.None? ==> r == Response(401, Message(NotAuthenticated))
    ensures user.Some? ==> r.status == 200 && r.body.UserProfile? && r.body.user == WithoutPassword(user.value)
  {
    match user
    case None => Response(401, Message(NotAuthenticated))
    case Some(u) => Response(200, UserProfile(WithoutPassword(u)))
  }
}
