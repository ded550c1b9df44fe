/** The `jsonwebtoken` library as the core uses it, bound to the server's
    signing secret. Its cryptography is not modelled: a codec is a triple
    of functions, and `Sound` states the laws the core relies on. */
module Jwt {
  import opened Wrappers
  import opened UserEntity

  /** The claims the core signs: `{ userId, email, role }`, plus the
      issue and expiry times the library adds, in whole seconds. */
  datatype Payload = Payload(userId: nat, email: string, role: UserRole, iat: int, exp: int)

  /** `sign` signs a payload with the secret; `decode` reads the payload
      WITHOUT checking the signature (`jwt.decode`); `signedWithSecret`
      is the signature check that `jwt.verify` performs. */
  datatype TokenCodec = TokenCodec(
    sign: Payload -> string,
    decode: string -> Option<Payload>,
    signedWithSecret: string -> bool)

  /** The compact serialisation: non-empty, made of base64url text and
      dots, so in particular free of spaces. */
  predicate Compact(token: string) {
    token != "" && ' ' !in token
  }

  /** The laws of a signature scheme: a signed token is compact, decodes
      to what was signed and carries a valid signature, and a token with a
      valid signature is the signing of what it decodes to (it cannot be
      forged or altered). */
  ghost predicate Sound(c: TokenCodec) {
    && (forall p :: Compact(c.sign(p)))
    && (forall p :: c.decode(c.sign(p)) == Some(p))
    && (forall p :: c.signedWithSecret(c.sign(p)))
    && (forall t :: c.signedWithSecret(t) ==> c.decode(t).Some? && c.sign(c.decode(t).value) == t)
  }

  /** `expiresIn` when `JWT_EXPIRES_IN` is unset: `'24h'`, in seconds. */
  const DefaultExpiresIn: nat := 24 * 60 * 60

  /** The library's clock: whole seconds of a millisecond time. */
  function Seconds(nowMs: nat): nat {
    nowMs / 1000
  }

  /** `jwt.sign(claims, secret, { expiresIn })` at time `nowMs`. */
  function Sign(c: TokenCodec, userId: nat, email: string, role: UserRole, nowMs: nat, expiresIn: nat)
    : (token: string)
    ensures Sound(c) ==> Compact(token) && c.signedWithSecret(token)
    ensures Sound(c) ==>
      c.decode(token) == Some(Payload(userId, email, role, nowMs / 1000, nowMs / 1000 + expiresIn))
  {
    c.sign(Payload(userId, email, role, Seconds(nowMs), Seconds(nowMs) + expiresIn))
  }

  /** Why `jwt.verify` throws. */
  datatype VerifyError = InvalidSignature | Malformed | TokenExpired

  /** `jwt.verify(token, secret)` at time `nowMs`: the signature must hold
      and the expiry must lie strictly after the current second. */
  function Verify(c: TokenCodec, token: string, nowMs: nat): (r: Result<Payload, VerifyError>)
    ensures r.Success? ==> c.signedWithSecret(token) && c.decode(token) == Some(r.value)
    ensures r.Success? ==> Seconds(nowMs) < r.value.exp
    ensures r.Failure? <==>
      (|| !c.signedWithSecret(token)
       || c.decode(token).None?
       || Seconds(nowMs) >= c.decode(token).value.exp)
  {
    if !c.signedWithSecret(token) then Failure(InvalidSignature)
    else
      match c.decode(token)
      case None => Failure(Malformed)
      case Some(p) => if Seconds(nowMs) >= p.exp then Failure(TokenExpired) else Success(p)
  }

  /** A token signed at `signedAt` with lifetime `expiresIn` verifies at
      `nowMs` exactly while the current second is before its expiry, and
      then yields exactly the signed claims. */
  lemma SignVerifyRoundTrip(c: TokenCodec, userId: nat, email: string, role: UserRole,
                            signedAt: nat, expiresIn: nat, nowMs: nat)
    requires Sound(c)
    ensures var t := Sign(c, userId, email, role, signedAt, expiresIn);
      && c.decode(t) == Some(Payload(userId, email, role, Seconds(signedAt), Seconds(signedAt) + expiresIn))
      && (Verify(c, t, nowMs).Success? <==> Seconds(nowMs) < Seconds(signedAt) + expiresIn)
      && (Verify(c, t, nowMs).Success? ==> Verify(c, t, nowMs).value == c.decode(t).value)
  {
  }

  /** Only tokens produced by `sign` verify: altering a token in any way
      that is not itself a signing with the secret makes it fail. */
  lemma OnlySignedTokensVerify(c: TokenCodec, token: string, nowMs: nat)
    requires Sound(c)
    requires Verify(c, token, nowMs).Success?
    ensures token == c.sign(Verify(c, token, nowMs).value)
  {
  }

  /** A token with lifetime zero is rejected from the moment it is issued. */
  lemma ZeroLifetimeRejected(c: TokenCodec, userId: nat, email: string, role: UserRole,
                             signedAt: nat, nowMs: nat)
    requires Sound(c)
    requires signedAt <= nowMs
    ensures Verify(c, Sign(c, userId, email, role, signedAt, 0), nowMs) == Failure(TokenExpired)
  {
  }
}

/** `bcryptjs` as the core uses it. A hasher is a pair of functions; the
    salt, drawn at random by the library, is an explicit argument. */
module Bcrypt {

  /** `hash(password, salt)` is the digest stored for a password;
      `compare(password, digest)` is `bcrypt.compare`. */
  datatype PasswordHasher = PasswordHasher(
    hash: (string, nat) -> string,
    compare: (string, string) -> bool)

  /** A password always matches a digest made from it, whatever the salt. */
  ghost predicate Sound(h: PasswordHasher) {
    forall password, salt :: h.compare(password, h.hash(password, salt))
  }
}
