/** `UserService`: the four operations performed one collaborator call at a
    time over the stores they change in place. Each method is proved to
    leave the stores exactly as the matching function of `AuthSpec` says and
    to keep `Valid`; what those functions promise is proved in
    `AuthProperties`. */
module Service {
  import opened Types
  import D = Directory
  import TS = TokenService
  import AuthSpec
  import AuthProperties

  class UserService {
    /** The user documents, by id, and the unique index on their email. */
    var users: map<Id, User>
    var emails: map<string, Id>
    var nextId: nat
    /** The refresh-token records, one per user id. */
    var refreshStore: TS.RefreshStore
    /** What the token service has signed so far. */
    var issued: map<Token, Grant>
    var nextSerial: nat
    /** The password hasher (bcrypt). */
    const bcrypt: Hasher

    function Dir(): D.Directory
      reads this
    {
      D.Directory(users, emails, nextId)
    }

    function Signer(): TS.Signer
      reads this
    {
      TS.Signer(issued, nextSerial)
    }

    /** The abstract state the operations are specified over. */
    function Model(): AuthSpec.State
      reads this
    {
      AuthSpec.State(Dir(), Signer(), refreshStore)
    }

    ghost predicate Valid()
      reads this
    {
      AuthSpec.Valid(Model())
    }

    /** A service over empty stores. */
    constructor (bcrypt: Hasher)
      ensures Valid() && Model() == AuthSpec.Init() && this.bcrypt == bcrypt
    {
      users, emails, nextId := map[], map[], 0;
      refreshStore := map[];
      issued, nextSerial := map[], 0;
      this.bcrypt := bcrypt;
    }

    /** `UserModel.create`: inserts the record under the next id. */
    method CreateUser(name: string, email: string, password: string) returns (user: User)
      modifies this`users, this`emails, this`nextId
      ensures (user, Dir()) == D.Create(old(Dir()), name, email, password)
    {
      user := User(nextId, name, email, password);
      users := users[user.id := user];
      emails := emails[email := user.id];
      nextId := nextId + 1;
    }

    /** `tokenService.generateTokens`: signs a fresh pair for `claims`. */
    method GenerateTokens(claims: UserDto) returns (tokens: TokenPair)
      modifies this`issued, this`nextSerial
      ensures (tokens, Signer()) == TS.GenerateTokens(old(Signer()), claims)
    {
      tokens := TokenPair(Token(nextSerial), Token(nextSerial + 1));
      issued := issued[tokens.accessToken := Grant(AccessKind, claims)];
      issued := issued[tokens.refreshToken := Grant(RefreshKind, claims)];
      nextSerial := nextSerial + 2;
    }

    /** `tokenService.saveToken`: upserts the record of `id`. */
    method SaveToken(id: Id, refreshToken: Token)
      modifies this`refreshStore
      ensures refreshStore == TS.SaveToken(old(refreshStore), id, refreshToken)
    {
      refreshStore := refreshStore[id := refreshToken];
    }

    /** `tokenService.removeToken`: deletes the record holding the token. */
    method RemoveToken(refreshToken: Token)
      modifies this`refreshStore
      ensures refreshStore == TS.RemoveToken(old(refreshStore), refreshToken)
    {
      refreshStore := map id | id in refreshStore && refreshStore[id] != refreshToken :: refreshStore[id];
    }

    /** Projects the user, mints a pair, stores its refresh token and answers. */
    method Issue(user: User) returns (r: Result<AuthResponse>)
      modifies this`issued, this`nextSerial, this`refreshStore
      ensures AuthSpec.Step(r, Model()) == AuthSpec.Issue(old(Model()), user)
    {
      var userDto := ToDto(user);
      var tokens := GenerateTokens(userDto);
      SaveToken(userDto.id, tokens.refreshToken);
      r := Ok(AuthResponse(tokens, userDto));
    }

    /** `registration(name, email, password)`. */
    method Registration(name: string, email: string, password: string) returns (r: Result<AuthResponse>)
      requires Valid()
      modifies this
      ensures Valid()
      ensures AuthSpec.Step(r, Model()) == AuthSpec.Registration(old(Model()), bcrypt, name, email, password)
      ensures r.Ok? <==> forall id :: id in old(users) ==> old(users)[id].email != email
      ensures r.Ok? ==> && users == old(users)[r.value.user.id := User(r.value.user.id, name, email, bcrypt.hash(password, HashCost))]
                        && refreshStore == old(refreshStore)[r.value.user.id := r.value.tokens.refreshToken]
      ensures r.Err? ==> r.error.kind == BadRequest && Model() == old(Model())
    {
      ghost var s := Model();
      AuthProperties.RegistrationSucceedsIff(s, bcrypt, name, email, password);
      AuthProperties.RegistrationValid(s, bcrypt, name, email, password);
      if forall id :: id in users ==> users[id].email != email {
        AuthProperties.RegistrationCreates(s, bcrypt, name, email, password);
      }
      var candidate := D.FindOne(Dir(), email);
      if candidate.Some? {
        return Err(ApiError(BadRequest, AuthSpec.DuplicateEmailMessage(email)));
      }
      var hashPassword := bcrypt.hash(password, HashCost);
      var user := CreateUser(name, email, hashPassword);
      r := Issue(user);
    }

    /** `login(email, password)`. */
    method Login(email: string, password: string) returns (r: Result<AuthResponse>)
      requires Valid()
      modifies this
      ensures Valid()
      ensures AuthSpec.Step(r, Model()) == AuthSpec.Login(old(Model()), bcrypt, email, password)
      ensures users == old(users)
      ensures r.Ok? ==> refreshStore == old(refreshStore)[r.value.user.id := r.value.tokens.refreshToken]
      ensures r.Err? ==> r.error.kind == BadRequest && Model() == old(Model())
    {
      ghost var s := Model();
      AuthProperties.LoginValid(s, bcrypt, email, password);
      var user := D.FindOne(Dir(), email);
      if user.None? {
        return Err(ApiError(BadRequest, AuthSpec.UserNotFoundMessage));
      }
      var isPassEquals := bcrypt.compare(password, user.value.password);
      if !isPassEquals {
        return Err(ApiError(BadRequest, AuthSpec.IncorrectPasswordMessage));
      }
      AuthProperties.LoginSucceeds(s, bcrypt, email, password, user.value.id);
      r := Issue(user.value);
    }

    /** `logout(refreshToken)`. */
    method Logout(refreshToken: Token)
      requires Valid()
      modifies this
      ensures Valid()
      ensures Model() == AuthSpec.Logout(old(Model()), refreshToken)
      ensures !TS.FindToken(refreshStore, refreshToken)
      ensures users == old(users) && issued == old(issued)
    {
      AuthProperties.LogoutRemovesOnly(Model(), refreshToken);
      RemoveToken(refreshToken);
    }

    /** `refresh(refreshToken)`, with the store lookup of line 50 taking
        effect as intended (see `AuthSpec.RefreshAsWritten` for the code as
        written). */
    method Refresh(refreshToken: Option<Token>) returns (r: Result<AuthResponse>)
      requires Valid()
      modifies this
      ensures Valid()
      ensures AuthSpec.Step(r, Model()) == AuthSpec.Refresh(old(Model()), refreshToken)
      ensures r.Ok? <==> && refreshToken.Some?
                         && TS.ValidateRefreshToken(old(Signer()), refreshToken.value).Some?
                         && TS.FindToken(old(refreshStore), refreshToken.value)
      ensures r.Ok? ==> r.value.tokens.refreshToken != refreshToken.value
      ensures r.Err? ==> r.error.kind == Unauthorized && Model() == old(Model())
    {
      ghost var s := Model();
      AuthProperties.RefreshSucceedsIff(s, refreshToken);
      AuthProperties.RefreshValid(s, refreshToken);
      if refreshToken.None? {
        return Err(AuthSpec.UnauthorizedError);
      }
      var userData := TS.ValidateRefreshToken(Signer(), refreshToken.value);
      var tokenFromDB := TS.FindToken(refreshStore, refreshToken.value);
      if userData.None? || !tokenFromDB {
        return Err(AuthSpec.UnauthorizedError);
      }
      AuthProperties.RefreshRotates(s, refreshToken.value);
      var user := D.FindById(Dir(), userData.value.id);
      r := Issue(user.value);
    }
  }
}
