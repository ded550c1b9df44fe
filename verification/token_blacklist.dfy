/** The `token_blacklist` table: one row per revoked token, keyed by the
    raw token text, which the store keeps unique. */
module TokenBlacklistEntity {
  import opened Wrappers

  /** A revoked token. `blacklistedAt` is filled in by the store at
      insertion; `expiresAt` is the token's own expiry, in milliseconds. */
  datatype BlacklistEntry = BlacklistEntry(
    id: nat,
    token: string,
    userId: nat,
    blacklistedAt: int,
    expiresAt: int)

  /** The table, indexed by its unique `token` column, and the next value
      of the generated primary key. */
  datatype Blacklist = Blacklist(entries: map<string, BlacklistEntry>, nextId: nat)

  /** Each entry is filed under its own token and has an id below the
      sequence's next value. */
  ghost predicate ValidBlacklist(b: Blacklist) {
    forall t :: t in b.entries ==> b.entries[t].token == t && b.entries[t].id < b.nextId
  }

  /** `findOne({ where: { token } })` reduced to presence. */
  predicate IsBlacklisted(b: Blacklist, token: string) {
    token in b.entries
  }

  /** The insertion refused by the unique constraint on `token`. */
  datatype InsertError = DuplicateToken

  /** `save` of a new entry: refused when the token is already present,
      otherwise the entry is added under its token and nothing else moves. */
  function AddEntry(b: Blacklist, token: string, userId: nat, now: int, expiresAt: int)
    : (r: Result<Blacklist, InsertError>)
    requires ValidBlacklist(b)
    ensures IsBlacklisted(b, token) <==> r.Failure?
    ensures r.Success? ==> r.value.entries.Keys == b.entries.Keys + {token}
    ensures r.Success? ==> r.value.entries[token].token == token
    ensures r.Success? ==> r.value.entries[token].userId == userId
    ensures r.Success? ==> r.value.entries[token].blacklistedAt == now
    ensures r.Success? ==> r.value.entries[token].expiresAt == expiresAt
    ensures r.Success? ==> forall t :: t in b.entries ==> r.value.entries[t] == b.entries[t]
    ensures r.Success? ==> ValidBlacklist(r.value)
  {
    if token in b.entries then Failure(DuplicateToken)
    else
      var e := BlacklistEntry(b.nextId, token, userId, now, expiresAt);
      Success(Blacklist(b.entries[token := e], b.nextId + 1))
  }
}
