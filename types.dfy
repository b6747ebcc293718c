/** Values shared by the authentication core: users and their public view,
    signed tokens, the password hasher and the tagged failures that replace
    the thrown `ApiError`s. */
module Types {

  /** A user record's identifier, as the document store assigns it. */
  type Id = nat

  datatype Option<+T> = None | Some(value: T)

  /** The two `ApiError` factories the service throws. */
  datatype ErrorKind = BadRequest | Unauthorized

  datatype ApiError = ApiError(kind: ErrorKind, message: string)

  /** What an operation returns instead of throwing. */
  datatype Result<+T> = Ok(value: T) | Err(error: ApiError)

  /** A stored user: `password` holds the hash, never the plaintext. */
  datatype User = User(id: Id, name: string, email: string, password: string)

  /** The public view of a user (the claim set embedded in tokens and returned
      to callers); it has no field for the password hash. */
  datatype UserDto = UserDto(id: Id, name: string, email: string)

  /** `new UserDto(user)`: the projection of a user onto its public fields. */
  function ToDto(u: User): (dto: UserDto)
    ensures dto.id == u.id && dto.name == u.name && dto.email == u.email
  {
    UserDto(u.id, u.name, u.email)
  }

  /** A signed token. Its text is opaque to the service; the signer tells
      tokens apart by the serial it issued them under. */
  datatype Token = Token(serial: nat)

  /** Access and refresh tokens are signed with different secrets. */
  datatype TokenKind = AccessKind | RefreshKind

  /** What the signer put into a token it issued: which secret signed it and
      the claims it carries. */
  datatype Grant = Grant(kind: TokenKind, claims: UserDto)

  datatype TokenPair = TokenPair(accessToken: Token, refreshToken: Token)

  /** `{...tokens, user: userDto}`, the value of every successful operation. */
  datatype AuthResponse = AuthResponse(tokens: TokenPair, user: UserDto)

  /** The password-hashing capability: `hash(plaintext, cost)` and
      `compare(plaintext, hash)`. */
  datatype Hasher = Hasher(hash: (string, nat) -> string, compare: (string, string) -> bool)

  /** The cost factor passed to the hasher on registration. */
  const HashCost: nat := 3

  /** A hasher that accepts every password against its own hash. */
  ghost predicate Consistent(h: Hasher) {
    forall p :: h.compare(p, h.hash(p, HashCost))
  }

  /** `part` occurs in `text` starting at index `i`. */
  ghost predicate OccursAt(text: string, part: string, i: nat) {
    i + |part| <= |text| && text[i..i + |part|] == part
  }

  /** `part` occurs somewhere inside `text`. */
  ghost predicate Contains(text: string, part: string) {
    exists i: nat :: OccursAt(text, part, i)
  }
}
