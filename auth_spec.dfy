/** The authentication operations of `UserService` as functions from the
    state of its collaborators to a result and the state afterwards. The class
    in `user_service.dfy` performs the same steps one store call at a time and
    is proved to end where these functions say. */
module AuthSpec {
  import opened Types
  import D = Directory
  import TS = TokenService

  /** Everything the operations read or change: the user directory, the
      signer's record of issued tokens and the refresh-token store. */
  datatype State = State(dir: D.Directory, signer: TS.Signer, store: TS.RefreshStore)

  /** What an operation returns together with the state it leaves. */
  datatype Step = Step(result: Result<AuthResponse>, post: State)

  /** The claims in an issued token are the public view of an existing user. */
  ghost predicate SignedFor(dir: D.Directory, g: Grant) {
    g.claims.id in dir.users && g.claims == ToDto(dir.users[g.claims.id])
  }

  /** The token stored for `id` is a refresh token issued for that user. */
  ghost predicate StoredFor(s: State, id: Id)
    requires id in s.store
  {
    && id in s.dir.users
    && s.store[id] in s.signer.issued
    && s.signer.issued[s.store[id]] == Grant(RefreshKind, ToDto(s.dir.users[id]))
  }

  /** The invariant every operation keeps. */
  ghost predicate Valid(s: State) {
    && D.Valid(s.dir)
    && TS.Valid(s.signer)
    && (forall t :: t in s.signer.issued ==> SignedFor(s.dir, s.signer.issued[t]))
    && (forall id :: id in s.store ==> StoredFor(s, id))
  }

  /** No user, no token, no record. */
  function Init(): (s: State)
    ensures Valid(s)
  {
    State(D.Empty(), TS.Fresh(), map[])
  }

  /** The `BadRequest` message for a duplicate registration, naming the
      address ("a user with the email address ... already exists"). */
  function DuplicateEmailMessage(email: string): string {
    "Користувач із поштовою адресою " + email + " вже існує"
  }

  /** The `BadRequest` message of a login with an unknown address. */
  const UserNotFoundMessage: string := "Користувач з таким email не був знайдений"

  /** The `BadRequest` message of a login with a wrong password. */
  const IncorrectPasswordMessage: string := "Некоректний пароль"

  /** The message of `ApiError.UnauthorizedError()`; its text is defined in
      `exceptions/api-error.js`, which is not part of this model. */
  const UnauthorizedMessage: string := "Unauthorized"

  const UnauthorizedError: ApiError := ApiError(Unauthorized, UnauthorizedMessage)

  /** The tail shared by registration, login and refresh: project the user
      onto its public view, mint a token pair from it, upsert the refresh
      token under the user's id and answer with both tokens and the view. */
  function Issue(s: State, user: User): (st: Step)
    ensures st.result.Ok? && st.result.value.user == ToDto(user)
    ensures st.post.dir == s.dir
    ensures st.post.store == s.store[user.id := st.result.value.tokens.refreshToken]
    ensures TS.Valid(s.signer) ==> st.result.value.tokens.refreshToken !in s.signer.issued
  {
    var userDto := ToDto(user);
    var (tokens, signer) := TS.GenerateTokens(s.signer, userDto);
    var store := TS.SaveToken(s.store, userDto.id, tokens.refreshToken);
    Step(Ok(AuthResponse(tokens, userDto)), State(s.dir, signer, store))
  }

  /** `registration(name, email, password)`. */
  function Registration(s: State, bcrypt: Hasher, name: string, email: string, password: string): (st: Step)
    ensures D.Valid(s.dir) ==> (st.result.Ok? <==> email !in s.dir.emails)
    ensures st.result.Err? ==> st.result.error.kind == BadRequest && st.post == s
    ensures st.result.Ok? ==>
      && (D.Valid(s.dir) ==> st.result.value.user.id !in s.dir.users)
      && st.post.dir.users == s.dir.users[st.result.value.user.id := User(st.result.value.user.id, name, email, bcrypt.hash(password, HashCost))]
      && st.post.store == s.store[st.result.value.user.id := st.result.value.tokens.refreshToken]
  {
    var candidate := D.FindOne(s.dir, email);
    if candidate.Some? then
      Step(Err(ApiError(BadRequest, DuplicateEmailMessage(email))), s)
    else
      var hashPassword := bcrypt.hash(password, HashCost);
      var (user, dir) := D.Create(s.dir, name, email, hashPassword);
      Issue(s.(dir := dir), user)
  }

  /** `login(email, password)`. */
  function Login(s: State, bcrypt: Hasher, email: string, password: string): (st: Step)
    ensures st.post.dir == s.dir
    ensures st.result.Err? ==> st.result.error.kind == BadRequest && st.post == s
    ensures st.result.Ok? ==>
      && email in s.dir.emails && s.dir.emails[email] in s.dir.users
      && var user := s.dir.users[s.dir.emails[email]];
      && bcrypt.compare(password, user.password)
      && st.result.value.user == ToDto(user)
      && (D.Valid(s.dir) ==> user.email == email)
      && st.post.store == s.store[user.id := st.result.value.tokens.refreshToken]
  {
    match D.FindOne(s.dir, email)
    case None => Step(Err(ApiError(BadRequest, UserNotFoundMessage)), s)
    case Some(user) =>
      if !bcrypt.compare(password, user.password) then
        Step(Err(ApiError(BadRequest, IncorrectPasswordMessage)), s)
      else
        Issue(s, user)
  }

  /** `logout(refreshToken)`: deletes the record holding the token without
      validating it. */
  function Logout(s: State, refreshToken: Token): (s': State)
    ensures s'.dir == s.dir && s'.signer == s.signer
    ensures !TS.FindToken(s'.store, refreshToken)
    ensures forall id :: id in s.store && s.store[id] != refreshToken ==> id in s'.store && s'.store[id] == s.store[id]
  {
    s.(store := TS.RemoveToken(s.store, refreshToken))
  }

  /** `refresh(refreshToken)` with the check of line 50 as intended: the
      token must both validate and be found in the store. `None` stands for
      an absent or empty token. The user is re-read by the id in the
      validated claims; under `Valid` that user exists. */
  function Refresh(s: State, refreshToken: Option<Token>): (st: Step)
    requires Valid(s)
    ensures st.post.dir == s.dir
    ensures st.result.Ok? <==>
      && refreshToken.Some?
      && TS.ValidateRefreshToken(s.signer, refreshToken.value).Some?
      && TS.FindToken(s.store, refreshToken.value)
    ensures st.result.Err? ==> st.result.error == UnauthorizedError && st.post == s
  {
    if refreshToken.None? then
      Step(Err(UnauthorizedError), s)
    else
      var userData := TS.ValidateRefreshToken(s.signer, refreshToken.value);
      var tokenFromDB := TS.FindToken(s.store, refreshToken.value);
      if userData.None? || !tokenFromDB then
        Step(Err(UnauthorizedError), s)
      else
        var user := D.FindById(s.dir, userData.value.id).value;
        Issue(s, user)
  }

  /** `refresh(refreshToken)` as the code is written: `findToken` is not
      awaited, so `tokenFromDB` is a pending promise, always truthy, and only
      the signature check can reject the token. */
  function RefreshAsWritten(s: State, refreshToken: Option<Token>): (st: Step)
    requires Valid(s)
    ensures st.post.dir == s.dir
    ensures st.result.Ok? <==>
      refreshToken.Some? && TS.ValidateRefreshToken(s.signer, refreshToken.value).Some?
    ensures st.result.Err? ==> st.result.error == UnauthorizedError && st.post == s
  {
    if refreshToken.None? then
      Step(Err(UnauthorizedError), s)
    else
      var userData := TS.ValidateRefreshToken(s.signer, refreshToken.value);
      if userData.None? then
        Step(Err(UnauthorizedError), s)
      else
        var user := D.FindById(s.dir, userData.value.id).value;
        Issue(s, user)
  }
}
