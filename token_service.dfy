/** The token service the orchestrator calls: minting a signed token pair,
    validating a refresh or access token, and the refresh-token store with
    its upsert, lookup and delete.

    Signing is modelled by what it guarantees rather than by cryptography:
    the signer remembers every token it issued together with the secret that
    signed it and the claims inside, and only those tokens validate. A token
    the signer never issued stands for a forged, malformed or foreign one. */
module TokenService {
  import opened Types

  /** `issued` maps each token the signer produced to what it signed;
      `nextSerial` is the first serial it has not used. */
  datatype Signer = Signer(issued: map<Token, Grant>, nextSerial: nat)

  /** Every issued token carries a serial below `nextSerial`, so a token
      minted next is distinct from all earlier ones. */
  ghost predicate Valid(sg: Signer) {
    forall t :: t in sg.issued ==> t.serial < sg.nextSerial
  }

  /** A signer that has issued nothing yet. */
  function Fresh(): (sg: Signer)
    ensures Valid(sg) && sg.issued == map[]
  {
    Signer(map[], 0)
  }

  /** `tokenService.generateTokens(payload)`: an access token and a refresh
      token carrying `claims`, each signed with its own secret. */
  function GenerateTokens(sg: Signer, claims: UserDto): (r: (TokenPair, Signer))
    ensures r.0.accessToken != r.0.refreshToken
    ensures Valid(sg) ==> r.0.accessToken !in sg.issued && r.0.refreshToken !in sg.issued
    ensures r.1.issued == sg.issued[r.0.accessToken := Grant(AccessKind, claims)][r.0.refreshToken := Grant(RefreshKind, claims)]
    ensures Valid(sg) ==> Valid(r.1)
  {
    var pair := TokenPair(Token(sg.nextSerial), Token(sg.nextSerial + 1));
    var issued := sg.issued[pair.accessToken := Grant(AccessKind, claims)][pair.refreshToken := Grant(RefreshKind, claims)];
    (pair, Signer(issued, sg.nextSerial + 2))
  }

  /** `tokenService.validateAccessToken(token)`: the claims of a token signed
      with the access secret, nothing for any other token. */
  function ValidateAccessToken(sg: Signer, t: Token): (r: Option<UserDto>)
    ensures r.Some? <==> t in sg.issued && sg.issued[t].kind == AccessKind
    ensures r.Some? ==> r.value == sg.issued[t].claims
  {
    if t in sg.issued && sg.issued[t].kind == AccessKind then Some(sg.issued[t].claims) else None
  }

  /** `tokenService.validateRefreshToken(token)`: the claims of a token signed
      with the refresh secret, nothing for any other token. */
  function ValidateRefreshToken(sg: Signer, t: Token): (r: Option<UserDto>)
    ensures r.Some? <==> t in sg.issued && sg.issued[t].kind == RefreshKind
    ensures r.Some? ==> r.value == sg.issued[t].claims
  {
    if t in sg.issued && sg.issued[t].kind == RefreshKind then Some(sg.issued[t].claims) else None
  }

  /** Round trip: each token of a freshly minted pair validates, under its
      own secret, to exactly the claims it was minted from. */
  lemma MintRoundTrip(sg: Signer, claims: UserDto)
    ensures var (pair, sg') := GenerateTokens(sg, claims);
      && ValidateAccessToken(sg', pair.accessToken) == Some(claims)
      && ValidateRefreshToken(sg', pair.refreshToken) == Some(claims)
  {
  }

  /** Cross-use rejection: no token validates under both secrets, so in
      particular a minted access token is never accepted as a refresh token
      and a minted refresh token never as an access token. */
  lemma CrossUseRejected(sg: Signer, t: Token)
    ensures ValidateAccessToken(sg, t).None? || ValidateRefreshToken(sg, t).None?
  {
  }

  /** Minting leaves the verdict on every token issued before unchanged. */
  lemma MintKeepsEarlierTokens(sg: Signer, claims: UserDto, t: Token)
    requires Valid(sg) && t in sg.issued
    ensures var sg' := GenerateTokens(sg, claims).1;
      && ValidateAccessToken(sg', t) == ValidateAccessToken(sg, t)
      && ValidateRefreshToken(sg', t) == ValidateRefreshToken(sg, t)
  {
  }

  /** The persisted refresh records: at most one token per user id. */
  type RefreshStore = map<Id, Token>

  /** `tokenService.saveToken(userId, refreshToken)`: an upsert keyed by the
      user id, replacing any earlier token of that user and no other record. */
  function SaveToken(st: RefreshStore, id: Id, t: Token): (r: RefreshStore)
    ensures r.Keys == st.Keys + {id} && r[id] == t
    ensures forall other :: other in st && other != id ==> r[other] == st[other]
  {
    st[id := t]
  }

  /** `tokenService.findToken(refreshToken)`: whether some record holds the
      token (the service only tests the record for presence). */
  function FindToken(st: RefreshStore, t: Token): (found: bool)
    ensures found <==> exists id :: id in st && st[id] == t
  {
    t in st.Values
  }

  /** `tokenService.removeToken(refreshToken)`: deletes the record holding the
      token, if any; every other record stays as it was. */
  function RemoveToken(st: RefreshStore, t: Token): (r: RefreshStore)
    ensures !FindToken(r, t)
    ensures forall id :: id in r <==> id in st && st[id] != t
    ensures forall id :: id in r ==> r[id] == st[id]
  {
    map id | id in st && st[id] != t :: st[id]
  }

  /** Deleting a token nobody holds is a no-op. */
  lemma RemoveAbsent(st: RefreshStore, t: Token)
    requires !FindToken(st, t)
    ensures RemoveToken(st, t) == st
  {
    assert RemoveToken(st, t).Keys == st.Keys;
  }

  /** Deleting is idempotent: a second delete of the same token changes
      nothing. */
  lemma RemoveIdempotent(st: RefreshStore, t: Token)
    ensures RemoveToken(RemoveToken(st, t), t) == RemoveToken(st, t)
  {
    RemoveAbsent(RemoveToken(st, t), t);
  }

  /** Supersession: after an upsert for `id`, the new token is found and the
      token `id` held before, which no other user held, is gone. */
  lemma SaveSupersedes(st: RefreshStore, id: Id, t: Token, prior: Token)
    requires id in st && st[id] == prior && prior != t
    requires forall other :: other in st && other != id ==> st[other] != prior
    ensures FindToken(SaveToken(st, id, t), t)
    ensures !FindToken(SaveToken(st, id, t), prior)
  {
    var st' := SaveToken(st, id, t);
    assert st'[id] == t;
  }
}
