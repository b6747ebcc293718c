/** What the four operations promise, stated over `AuthSpec`: the invariant
    each one keeps, their error cases, exactly which records they change, and
    the session properties that tie several calls together. */
module AuthProperties {
  import opened Types
  import D = Directory
  import TS = TokenService
  import opened AuthSpec

  /** Two users never hold the same refresh token: the stored token names
      the user it was issued for. */
  lemma StoreTokensUnique(s: State, id1: Id, id2: Id)
    requires Valid(s) && id1 in s.store && id2 in s.store
    requires s.store[id1] == s.store[id2]
    ensures id1 == id2
  {
    assert StoredFor(s, id1) && StoredFor(s, id2);
  }

  /** A token found in the store validates as a refresh token whose claims
      name the user holding it. */
  lemma StoredTokenValidates(s: State, id: Id)
    requires Valid(s) && id in s.store
    ensures TS.ValidateRefreshToken(s.signer, s.store[id]) == Some(ToDto(s.dir.users[id]))
  {
    assert StoredFor(s, id);
  }

  /** The shared tail of the successful operations, for a user of the
      directory: it answers with the user's public view and a freshly minted
      pair, leaves the directory alone, replaces exactly the user's record in
      the store, keeps every earlier token's verdict, and keeps `Valid`. */
  lemma IssueFacts(s: State, user: User)
    requires Valid(s) && user.id in s.dir.users && s.dir.users[user.id] == user
    ensures var st := Issue(s, user);
      && st.result.Ok?
      && st.result.value.user == ToDto(user)
      && st.post.dir == s.dir
      && st.post.store == s.store[user.id := st.result.value.tokens.refreshToken]
      && st.result.value.tokens.refreshToken !in s.signer.issued
      && TS.ValidateRefreshToken(st.post.signer, st.result.value.tokens.refreshToken) == Some(ToDto(user))
      && TS.ValidateAccessToken(st.post.signer, st.result.value.tokens.accessToken) == Some(ToDto(user))
      && (forall t :: t in s.signer.issued ==> t in st.post.signer.issued && st.post.signer.issued[t] == s.signer.issued[t])
      && Valid(st.post)
  {
    var st := Issue(s, user);
    var pair := st.result.value.tokens;
    var s' := st.post;
    forall t | t in s'.signer.issued
      ensures SignedFor(s'.dir, s'.signer.issued[t])
    {
      if t != pair.accessToken && t != pair.refreshToken {
        assert s'.signer.issued[t] == s.signer.issued[t];
      }
    }
    forall id | id in s'.store
      ensures StoredFor(s', id)
    {
      if id != user.id {
        assert StoredFor(s, id);
        assert s.store[id] != pair.accessToken && s.store[id] != pair.refreshToken;
      }
    }
  }

  // ---------------------------------------------------------------- registration

  /** A registration for an address already in the directory fails with
      `BadRequest`, its message names the address, and nothing changes. */
  lemma RegistrationDuplicate(s: State, bcrypt: Hasher, name: string, email: string, password: string, existing: Id)
    requires Valid(s) && existing in s.dir.users && s.dir.users[existing].email == email
    ensures var st := Registration(s, bcrypt, name, email, password);
      && st.result.Err?
      && st.result.error.kind == BadRequest
      && Contains(st.result.error.message, email)
      && st.post == s
  {
    var prefix := "Користувач із поштовою адресою ";
    var m := DuplicateEmailMessage(email);
    assert m[|prefix|..|prefix| + |email|] == email;
    assert OccursAt(m, email, |prefix|);
  }

  /** A registration for a new address succeeds and adds exactly one user,
      under an id no user had, with the given name and email and the hash of
      the password; every other user stays as it was. The store gains or
      replaces only the new user's record, which holds the returned refresh
      token, and the returned user is the public view of the stored one. */
  lemma RegistrationCreates(s: State, bcrypt: Hasher, name: string, email: string, password: string)
    requires Valid(s)
    requires forall id :: id in s.dir.users ==> s.dir.users[id].email != email
    ensures var st := Registration(s, bcrypt, name, email, password);
      && st.result.Ok?
      && var dto := st.result.value.user;
      && dto.id !in s.dir.users
      && st.post.dir.users == s.dir.users[dto.id := User(dto.id, name, email, bcrypt.hash(password, HashCost))]
      && dto == ToDto(st.post.dir.users[dto.id])
      && st.post.store == s.store[dto.id := st.result.value.tokens.refreshToken]
      && D.FindOne(st.post.dir, email) == Some(st.post.dir.users[dto.id])
      && Valid(st.post)
  {
    assert email !in s.dir.emails;
    var (user, dir) := D.Create(s.dir, name, email, bcrypt.hash(password, HashCost));
    D.CreateValid(s.dir, name, email, bcrypt.hash(password, HashCost));
    var s1 := s.(dir := dir);
    assert Valid(s1) by {
      forall t | t in s1.signer.issued
        ensures SignedFor(s1.dir, s1.signer.issued[t])
      {
        assert SignedFor(s.dir, s.signer.issued[t]);
      }
      forall id | id in s1.store
        ensures StoredFor(s1, id)
      {
        assert StoredFor(s, id);
      }
    }
    IssueFacts(s1, user);
  }

  /** Registration succeeds exactly when no user has the address. */
  lemma RegistrationSucceedsIff(s: State, bcrypt: Hasher, name: string, email: string, password: string)
    requires Valid(s)
    ensures Registration(s, bcrypt, name, email, password).result.Ok?
        <==> forall id :: id in s.dir.users ==> s.dir.users[id].email != email
  {
    if forall id :: id in s.dir.users ==> s.dir.users[id].email != email {
      RegistrationCreates(s, bcrypt, name, email, password);
    } else {
      var id :| id in s.dir.users && s.dir.users[id].email == email;
      RegistrationDuplicate(s, bcrypt, name, email, password, id);
    }
  }

  /** Registration keeps the invariant. */
  lemma RegistrationValid(s: State, bcrypt: Hasher, name: string, email: string, password: string)
    requires Valid(s)
    ensures Valid(Registration(s, bcrypt, name, email, password).post)
  {
    if forall id :: id in s.dir.users ==> s.dir.users[id].email != email {
      RegistrationCreates(s, bcrypt, name, email, password);
    }
  }

  // ---------------------------------------------------------------- login

  /** Login fails with `BadRequest` "user not found" for an unknown address
      and with `BadRequest` "incorrect password" when the hasher rejects the
      password; the two messages differ, and a failed login changes nothing. */
  lemma LoginFailures(s: State, bcrypt: Hasher, email: string, password: string)
    requires Valid(s)
    ensures UserNotFoundMessage != IncorrectPasswordMessage
    ensures (forall id :: id in s.dir.users ==> s.dir.users[id].email != email) ==>
      Login(s, bcrypt, email, password) == Step(Err(ApiError(BadRequest, UserNotFoundMessage)), s)
    ensures forall id :: id in s.dir.users && s.dir.users[id].email == email
                         && !bcrypt.compare(password, s.dir.users[id].password) ==>
      Login(s, bcrypt, email, password) == Step(Err(ApiError(BadRequest, IncorrectPasswordMessage)), s)
  {
    assert UserNotFoundMessage[0] != IncorrectPasswordMessage[0];
    if email in s.dir.emails {
      assert s.dir.users[s.dir.emails[email]].email == email;
    }
  }

  /** A login whose password the hasher accepts succeeds, answers with the
      user's public view, leaves the directory alone and upserts only that
      user's record in the store, to the returned refresh token. */
  lemma LoginSucceeds(s: State, bcrypt: Hasher, email: string, password: string, id: Id)
    requires Valid(s) && id in s.dir.users && s.dir.users[id].email == email
    requires bcrypt.compare(password, s.dir.users[id].password)
    ensures var st := Login(s, bcrypt, email, password);
      && st.result.Ok?
      && st.result.value.user == ToDto(s.dir.users[id])
      && st.post.dir == s.dir
      && st.post.store == s.store[id := st.result.value.tokens.refreshToken]
      && st.result.value.tokens.refreshToken !in s.signer.issued
      && Valid(st.post)
  {
    assert D.FindOne(s.dir, email) == Some(s.dir.users[id]);
    IssueFacts(s, s.dir.users[id]);
  }

  /** Login keeps the invariant. */
  lemma LoginValid(s: State, bcrypt: Hasher, email: string, password: string)
    requires Valid(s)
    ensures Valid(Login(s, bcrypt, email, password).post)
  {
    var found := D.FindOne(s.dir, email);
    if found.Some? && bcrypt.compare(password, found.value.password) {
      LoginSucceeds(s, bcrypt, email, password, found.value.id);
    }
  }

  // ---------------------------------------------------------------- logout

  /** Logout, whatever the token, removes only the record holding it: the
      token is no longer found, every other record, the directory and the
      signer are unchanged, and the invariant holds. */
  lemma LogoutRemovesOnly(s: State, refreshToken: Token)
    requires Valid(s)
    ensures var s' := Logout(s, refreshToken);
      && !TS.FindToken(s'.store, refreshToken)
      && (forall id :: id in s.store && s.store[id] != refreshToken ==> id in s'.store && s'.store[id] == s.store[id])
      && s'.store.Keys <= s.store.Keys
      && s'.dir == s.dir && s'.signer == s.signer
      && Valid(s')
  {
    var s' := Logout(s, refreshToken);
    forall id | id in s'.store
      ensures StoredFor(s', id)
    {
      assert StoredFor(s, id);
    }
  }

  /** Logging out with a token no record holds changes nothing, and logging
      out twice is the same as logging out once. */
  lemma LogoutIdempotent(s: State, refreshToken: Token)
    ensures !TS.FindToken(s.store, refreshToken) ==> Logout(s, refreshToken) == s
    ensures Logout(Logout(s, refreshToken), refreshToken) == Logout(s, refreshToken)
  {
    if !TS.FindToken(s.store, refreshToken) {
      TS.RemoveAbsent(s.store, refreshToken);
    }
    TS.RemoveIdempotent(s.store, refreshToken);
  }

  // ---------------------------------------------------------------- refresh

  /** Refresh succeeds exactly when a token is presented, validates as a
      refresh token and is found in the store; otherwise it fails with
      `Unauthorized` and changes nothing. */
  lemma RefreshSucceedsIff(s: State, refreshToken: Option<Token>)
    requires Valid(s)
    ensures var st := Refresh(s, refreshToken);
      && (st.result.Ok? <==>
            && refreshToken.Some?
            && TS.ValidateRefreshToken(s.signer, refreshToken.value).Some?
            && TS.FindToken(s.store, refreshToken.value))
      && (st.result.Err? ==> st.result.error == UnauthorizedError && st.post == s)
  {
    if refreshToken.Some? {
      var userData := TS.ValidateRefreshToken(s.signer, refreshToken.value);
      if userData.Some? && TS.FindToken(s.store, refreshToken.value) {
        var id := userData.value.id;
        assert SignedFor(s.dir, s.signer.issued[refreshToken.value]);
        IssueFacts(s, s.dir.users[id]);
      }
    }
  }

  /** A successful refresh re-reads the user by the id in the token's
      claims, answers with that user's current public view, replaces that
      user's record with a new refresh token different from the presented
      one, and keeps the invariant; presenting the old token again then
      fails. */
  lemma RefreshRotates(s: State, refreshToken: Token)
    requires Valid(s)
    requires TS.ValidateRefreshToken(s.signer, refreshToken).Some? && TS.FindToken(s.store, refreshToken)
    ensures var st := Refresh(s, Some(refreshToken));
      && var id := TS.ValidateRefreshToken(s.signer, refreshToken).value.id;
      && st.result.Ok?
      && id in s.dir.users
      && st.result.value.user == ToDto(s.dir.users[id])
      && st.post.dir == s.dir
      && st.post.store == s.store[id := st.result.value.tokens.refreshToken]
      && st.result.value.tokens.refreshToken != refreshToken
      && Valid(st.post)
      && Refresh(st.post, Some(refreshToken)).result.Err?
  {
    var claims := TS.ValidateRefreshToken(s.signer, refreshToken).value;
    var holder :| holder in s.store && s.store[holder] == refreshToken;
    assert StoredFor(s, holder);
    var user := s.dir.users[holder];
    assert claims.id == holder;
    IssueFacts(s, user);
    var st := Refresh(s, Some(refreshToken));
    forall other | other in st.post.store
      ensures st.post.store[other] != refreshToken
    {
      if other != holder {
        if s.store[other] == refreshToken {
          StoreTokensUnique(s, other, holder);
        }
      }
    }
    RefreshSucceedsIff(st.post, Some(refreshToken));
  }

  /** Refresh keeps the invariant. */
  lemma RefreshValid(s: State, refreshToken: Option<Token>)
    requires Valid(s)
    ensures Valid(Refresh(s, refreshToken).post)
  {
    if refreshToken.Some? && TS.ValidateRefreshToken(s.signer, refreshToken.value).Some?
       && TS.FindToken(s.store, refreshToken.value) {
      RefreshRotates(s, refreshToken.value);
    }
  }

  // ---------------------------------------------------------------- sessions

  /** One refresh token per user: after two successful logins for the same
      user, the second refresh token is found in the store and the first is
      not, so refreshing with the first fails even though its signature still
      validates. */
  lemma SecondLoginSupersedesFirst(s: State, bcrypt: Hasher, email: string, password: string)
    requires Valid(s)
    requires Login(s, bcrypt, email, password).result.Ok?
    ensures var first := Login(s, bcrypt, email, password);
      && var second := Login(first.post, bcrypt, email, password);
      && var t1 := first.result.value.tokens.refreshToken;
      && second.result.Ok?
      && TS.FindToken(second.post.store, second.result.value.tokens.refreshToken)
      && !TS.FindToken(second.post.store, t1)
      && TS.ValidateRefreshToken(second.post.signer, t1).Some?
      && Refresh(second.post, Some(t1)).result == Err(UnauthorizedError)
  {
    var user := D.FindOne(s.dir, email).value;
    LoginSucceeds(s, bcrypt, email, password, user.id);
    var first := Login(s, bcrypt, email, password);
    var t1 := first.result.value.tokens.refreshToken;
    IssueFacts(s, user);
    LoginSucceeds(first.post, bcrypt, email, password, user.id);
    var second := Login(first.post, bcrypt, email, password);
    IssueFacts(first.post, user);
    var t2 := second.result.value.tokens.refreshToken;
    assert t2 != t1 by {
      assert t1 in first.post.signer.issued;
    }
    forall id | id in second.post.store
      ensures second.post.store[id] != t1
    {
      if id != user.id && first.post.store[id] == t1 {
        StoreTokensUnique(first.post, id, user.id);
      }
    }
    assert TS.ValidateRefreshToken(second.post.signer, t1).Some?;
    assert second.post.store[user.id] == t2;
    RefreshSucceedsIff(second.post, Some(t1));
  }

  /** Revocation: after logout with a token, refreshing with it fails with
      `Unauthorized` even though its signature validates exactly as before. */
  lemma LogoutRevokes(s: State, refreshToken: Token)
    requires Valid(s)
    ensures var s' := Logout(s, refreshToken);
      && TS.ValidateRefreshToken(s'.signer, refreshToken) == TS.ValidateRefreshToken(s.signer, refreshToken)
      && Refresh(s', Some(refreshToken)) == Step(Err(UnauthorizedError), s')
  {
    LogoutRemovesOnly(s, refreshToken);
    RefreshSucceedsIff(Logout(s, refreshToken), Some(refreshToken));
  }

  /** Registering and then logging in with the same address and password
      succeeds whenever the hasher accepts a password against its own hash,
      and answers with the registered user. */
  lemma RegistrationThenLogin(s: State, bcrypt: Hasher, name: string, email: string, password: string)
    requires Valid(s) && Consistent(bcrypt)
    requires Registration(s, bcrypt, name, email, password).result.Ok?
    ensures var reg := Registration(s, bcrypt, name, email, password);
      && var log := Login(reg.post, bcrypt, email, password);
      && log.result.Ok?
      && log.result.value.user == reg.result.value.user
  {
    RegistrationSucceedsIff(s, bcrypt, name, email, password);
    RegistrationCreates(s, bcrypt, name, email, password);
    var reg := Registration(s, bcrypt, name, email, password);
    var id := reg.result.value.user.id;
    assert bcrypt.compare(password, bcrypt.hash(password, HashCost));
    LoginSucceeds(reg.post, bcrypt, email, password, id);
  }

  /** A concrete run: registering "Ann" succeeds and answers with the name "Ann";
      registering the same address again fails with `BadRequest` naming the
      address; logging in with an unknown address fails with "user not found". */
  lemma RegistrationScenario(bcrypt: Hasher)
    ensures var first := Registration(Init(), bcrypt, "Ann", "ann@x.com", "Secret1!");
      && first.result.Ok?
      && first.result.value.user.name == "Ann"
      && var second := Registration(first.post, bcrypt, "Ann", "ann@x.com", "Secret1!");
      && second.result.Err?
      && second.result.error.kind == BadRequest
      && Contains(second.result.error.message, "ann@x.com")
      && Login(first.post, bcrypt, "nouser@x.com", "anything").result == Err(ApiError(BadRequest, UserNotFoundMessage))
  {
    var s0 := Init();
    RegistrationCreates(s0, bcrypt, "Ann", "ann@x.com", "Secret1!");
    var first := Registration(s0, bcrypt, "Ann", "ann@x.com", "Secret1!");
    var id := first.result.value.user.id;
    RegistrationDuplicate(first.post, bcrypt, "Ann", "ann@x.com", "Secret1!", id);
    LoginFailures(first.post, bcrypt, "nouser@x.com", "anything");
  }

  // ---------------------------------------------------------------- the missing await

  /** Where the presented token is in the store, the code as written and the
      intended check agree. */
  lemma AsWrittenAgreesWhenStored(s: State, refreshToken: Token)
    requires Valid(s) && TS.FindToken(s.store, refreshToken)
    ensures RefreshAsWritten(s, Some(refreshToken)) == Refresh(s, Some(refreshToken))
  {
  }

  /** The code as written accepts a revoked token: after logout with a token
      that was issued as a refresh token, the as-written refresh succeeds and
      hands out a new pair, while the intended check rejects it. */
  lemma AsWrittenAcceptsRevokedToken(s: State, refreshToken: Token)
    requires Valid(s) && TS.ValidateRefreshToken(s.signer, refreshToken).Some?
    ensures var s' := Logout(s, refreshToken);
      && RefreshAsWritten(s', Some(refreshToken)).result.Ok?
      && Refresh(s', Some(refreshToken)).result.Err?
  {
    LogoutRevokes(s, refreshToken);
    var s' := Logout(s, refreshToken);
    LogoutRemovesOnly(s, refreshToken);
    assert SignedFor(s'.dir, s'.signer.issued[refreshToken]);
  }

  /** A concrete run: register a user, log out with the refresh token just
      issued, and the as-written refresh still accepts that token. */
  lemma AsWrittenCounterexample(bcrypt: Hasher)
    ensures var reg := Registration(Init(), bcrypt, "Ann", "ann@x.com", "Secret1!");
      && reg.result.Ok?
      && var t := reg.result.value.tokens.refreshToken;
      && var s := Logout(reg.post, t);
      && RefreshAsWritten(s, Some(t)).result.Ok?
      && Refresh(s, Some(t)).result.Err?
  {
    var s0 := Init();
    RegistrationCreates(s0, bcrypt, "Ann", "ann@x.com", "Secret1!");
    var reg := Registration(s0, bcrypt, "Ann", "ann@x.com", "Secret1!");
    var t := reg.result.value.tokens.refreshToken;
    IssueFacts(s0.(dir := D.Create(s0.dir, "Ann", "ann@x.com", bcrypt.hash("Secret1!", HashCost)).1),
               D.Create(s0.dir, "Ann", "ann@x.com", bcrypt.hash("Secret1!", HashCost)).0);
    AsWrittenAcceptsRevokedToken(reg.post, t);
  }
}
