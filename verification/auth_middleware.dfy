/** The request gates: `authenticateToken`, which every protected route
    passes first, and `requireAdmin`, which the mutating employee routes
    add after it. */
module AuthMiddleware {
  import opened Wrappers
  import opened Text
  import opened UserEntity
  import opened TokenBlacklistEntity
  import Jwt

  /** `authHeader && authHeader.split(' ')[1]`, kept only when truthy:
      the second space-separated piece of the `Authorization` header. The
      first piece, the scheme word, is not looked at. */
  function BearerToken(header: Option<string>): (token: Option<string>)
    ensures token.Some? ==> header.Some? && token.value != "" && Space !in token.value
    ensures header.Some? && |Split(header.value)| >= 2 && Split(header.value)[1] != "" <==> token.Some?
    ensures token.Some? ==> token.value == Split(header.value)[1]
  {
    if header.None? then None
    else
      var pieces := Split(header.value);
      if |pieces| >= 2 && pieces[1] != "" then Some(pieces[1]) else None
  }

  /** `Authorization: <scheme> <token>`, possibly followed by more
      space-separated text, yields `token`, whatever the scheme word. */
  lemma {:induction false} BearerTokenOfHeader(scheme: string, token: string, tail: Option<string>)
    requires Space !in scheme && Space !in token && token != ""
    ensures tail.None? ==> BearerToken(Some(scheme + [Space] + token)) == Some(token)
    ensures tail.Some? ==> BearerToken(Some(scheme + [Space] + token + [Space] + tail.value)) == Some(token)
  {
    if tail.None? {
      SplitWordThenSpace(scheme, token);
      SplitNoSpace(token);
      var pieces := Split(scheme + [Space] + token);
      assert pieces == [scheme] + [token];
    } else {
      var rest := token + [Space] + tail.value;
      SplitWordThenSpace(scheme, rest);
      SplitWordThenSpace(token, tail.value);
      assert scheme + [Space] + token + [Space] + tail.value == scheme + [Space] + rest;
      var pieces := Split(scheme + [Space] + rest);
      assert pieces == [scheme] + ([token] + Split(tail.value));
      assert pieces[1] == token;
    }
  }

  /** Conversely, a header that yields a token is a space-free scheme
      word, a space and the token, then either nothing or a space. */
  lemma {:induction false} BearerTokenShape(header: string)
    requires BearerToken(Some(header)).Some?
    ensures
      var token := BearerToken(Some(header)).value;
      var scheme := Split(header)[0];
      && Space !in scheme
      && (|| header == scheme + [Space] + token
          || scheme + [Space] + token + [Space] <= header)
  {
    var ps := Split(header);
    JoinSplit(header);
    if |ps| == 2 {
      assert ps[1..] == [ps[1]];
    } else {
      assert ps[1..][1..] == ps[2..];
      assert Join(ps) == ps[0] + [Space] + (ps[1] + [Space] + Join(ps[2..]));
      assert Join(ps) == (ps[0] + [Space] + ps[1] + [Space]) + Join(ps[2..]);
    }
  }

  /** What a gate does with a request: call `next` with the user attached
      to the request, or answer with a status and a message. */
  datatype GateResult = Next(user: User) | Reject(status: nat, message: string)

  const TokenRequired: string := "Token d'accès requis"
  const TokenInvalid: string := "Token invalide"
  const UserUnavailable: string := "Utilisateur non trouvé ou inactif"
  const AuthenticationRequired: string := "Authentification requise"
  const AdminRequired: string := "Accès refusé. Droits administrateur requis."

  /** `authenticateToken` at time `nowMs`, in its order: extract the token,
      look it up in the blacklist, verify signature and expiry, load the
      user named by the claims and require it to be active. */
  function AuthenticateToken(users: UserTable, blacklist: Blacklist, codec: Jwt.TokenCodec,
                             header: Option<string>, nowMs: nat)
    : (r: GateResult)
    ensures BearerToken(header).None? ==> r == Reject(401, TokenRequired)
    ensures BearerToken(header).Some? && IsBlacklisted(blacklist, BearerToken(header).value) ==>
              r == Reject(401, TokenInvalid)
    ensures && BearerToken(header).Some?
            && !IsBlacklisted(blacklist, BearerToken(header).value)
            && Jwt.Verify(codec, BearerToken(header).value, nowMs).Failure?
            ==> r == Reject(403, TokenInvalid)
    ensures && BearerToken(header).Some?
            && !IsBlacklisted(blacklist, BearerToken(header).value)
            && Jwt.Verify(codec, BearerToken(header).value, nowMs).Success?
            && (|| FindById(users, Jwt.Verify(codec, BearerToken(header).value, nowMs).value.userId).None?
                || !FindById(users, Jwt.Verify(codec, BearerToken(header).value, nowMs).value.userId).value.isActive)
            ==> r == Reject(401, UserUnavailable)
    ensures r.Reject? ==> r.status in {401, 403}
    ensures r.Next? <==>
      && BearerToken(header).Some?
      && !IsBlacklisted(blacklist, BearerToken(header).value)
      && Jwt.Verify(codec, BearerToken(header).value, nowMs).Success?
      && FindById(users, Jwt.Verify(codec, BearerToken(header).value, nowMs).value.userId).Some?
      && FindById(users, Jwt.Verify(codec, BearerToken(header).value, nowMs).value.userId).value.isActive
    ensures r.Next? ==>
      && r.user in users.rows
      && r.user.isActive
      && r.user.id == Jwt.Verify(codec, BearerToken(header).value, nowMs).value.userId
  {
    match BearerToken(header)
    case None => Reject(401, TokenRequired)
    case Some(token) =>
      if IsBlacklisted(blacklist, token) then Reject(401, TokenInvalid)
      else
        match Jwt.Verify(codec, token, nowMs)
        case Failure(_) => Reject(403, TokenInvalid)
        case Success(claims) =>
          match FindById(users, claims.userId)
          case None => Reject(401, UserUnavailable)
          case Some(u) => if !u.isActive then Reject(401, UserUnavailable) else Next(u)
  }

  /** The blacklist is consulted before the signature: a revoked token is
      refused the same way whatever the codec would say about it. */
  lemma BlacklistCheckedBeforeVerify(users: UserTable, blacklist: Blacklist,
                                     codec: Jwt.TokenCodec, codec': Jwt.TokenCodec,
                                     header: Option<string>, nowMs: nat, nowMs': nat)
    requires BearerToken(header).Some? && IsBlacklisted(blacklist, BearerToken(header).value)
    ensures AuthenticateToken(users, blacklist, codec, header, nowMs)
         == AuthenticateToken(users, blacklist, codec', header, nowMs')
         == Reject(401, TokenInvalid)
  {
  }

  /** `requireAdmin`: 401 without an authenticated user, 403 for a user
      whose role is not `admin`, and an admin passes unchanged. */
  function RequireAdmin(user: Option<User>): (r: GateResult)
    ensures user.None? ==> r == Reject(401, AuthenticationRequired)
    ensures user.Some? && user.value.role != Admin ==> r == Reject(403, AdminRequired)
    ensures r.Next? <==> user.Some? && user.value.role == Admin
    ensures r.Next? ==> r.user == user.value
  {
    match user
    case None => Reject(401, AuthenticationRequired)
    case Some(u) => if u.role != Admin then Reject(403, AdminRequired) else Next(u)
  }
}
