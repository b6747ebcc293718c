# UserService authentication core, modelled in Dafny

This project models the server-side authentication orchestrator `UserService`
of the application. It covers the four operations `registration`, `login`,
`logout` and `refresh`, and the two stores they change:

- the user directory, keyed by id with a unique email index (`UserModel`);
- the refresh-token store, one record per user id, written by upsert (`tokenService.saveToken`).

Every failure is a `Result` value carrying the error kind (`BadRequest` or
`Unauthorized`) and its message. Nothing is thrown.

Layout:

- `types.dfy` (`Types`): users, the public user view (`UserDto`), tokens, token pairs, errors and the hasher interface.
- `directory.dfy` (`Directory`): `findOne`, `findById` and `create` of the user model, as map lookups and updates.
- `token_service.dfy` (`TokenService`): minting, access and refresh validation, and the refresh-token store (save, find, remove).
- `auth_spec.dfy` (`AuthSpec`): the state, its invariant `Valid`, and the four operations as functions from a state to a result and a new state. It also holds `RefreshAsWritten`, the refresh check exactly as the code is written.
- `auth_properties.dfy` (`AuthProperties`): what the operations promise, proved about `AuthSpec`.
- `user_service.dfy` (`Service`): the class `UserService`. Its fields are the stores, and its methods make the collaborator calls one at a time. Each method is proved to end in the state the matching `AuthSpec` function gives, and to keep `Valid`.

Collaborators that are not part of this model are abstracted as follows:

- bcrypt is a `Hasher` parameter: a pair of functions `hash(plaintext, cost)` and `compare(plaintext, hash)`. The cost factor is the constant 3. Where a property needs bcrypt to accept a password against its own hash, this is the explicit hypothesis `Consistent(bcrypt)`.
- JWT signing is a signer that remembers each token it issued, with the secret that signed it (access or refresh) and the claims inside. Only issued tokens validate, and only under their own secret. A token the signer never issued stands for a forged or malformed one. A serial counter makes every minted token fresh. This is an assumption, stronger than a real signer guarantees (see "## Left out").
- The Mongo models become maps.

Two modelling choices:

- Error kinds follow the code: a duplicate email and both login failures are `BadRequest` errors (lines 11, 26 and 30).
- `findToken` at line 49 is not awaited (see Findings). `Service.UserService.Refresh` and `AuthSpec.Refresh` model the intended check, which requires both a valid signature and a stored token. `AuthSpec.RefreshAsWritten` models the code as written.

## Model

| member | source | states |
|---|---|---|
| Directory.FindOne | server/services/user-service.js:9 | on a valid directory, finds a user exactly when the address is indexed, and the user found has that address |
| Directory.FindById | server/services/user-service.js:54 | finds a user exactly when the id is present; on a valid directory the record found carries the requested id |
| Directory.Create | server/services/user-service.js:14 | the new record gets an id no existing user has; the directory gains exactly that record and its index entry |
| Directory.CreateValid | server/services/user-service.js:14 | creating a user for a new address keeps ids and the email index consistent; `findOne` and `findById` then return the new record, and lookups of other addresses are unchanged |
| TokenService.GenerateTokens | server/services/user-service.js:17 | the access and refresh tokens differ, neither was issued before, and they are signed with different secrets over the same claims |
| TokenService.ValidateRefreshToken | server/services/user-service.js:48 | yields claims exactly for a token signed with the refresh secret, and they are the claims it was minted with |
| TokenService.ValidateAccessToken | server/services/user-service.js:17 | for the access token minted here: yields claims exactly for a token signed with the access secret, and they are the claims it was minted with (no operation calls it; see "## Left out") |
| TokenService.MintRoundTrip | server/services/user-service.js:17 | each token of a minted pair validates under its own secret to exactly the claims it was minted from |
| TokenService.CrossUseRejected | server/services/user-service.js:48 | no token validates as both an access and a refresh token |
| TokenService.MintKeepsEarlierTokens | server/services/user-service.js:17 | minting does not change the verdict on any earlier token |
| TokenService.SaveToken | server/services/user-service.js:18 | upsert: the user's record now holds the new token, and every other record is unchanged |
| TokenService.FindToken | server/services/user-service.js:49 | true exactly when some record holds the token |
| TokenService.RemoveToken | server/services/user-service.js:41 | afterwards no record holds the token; records holding other tokens are kept unchanged |
| TokenService.RemoveAbsent | server/services/user-service.js:41 | removing a token no record holds changes nothing |
| TokenService.RemoveIdempotent | server/services/user-service.js:41 | removing the same token twice equals removing it once |
| TokenService.SaveSupersedes | server/services/user-service.js:57 | after an upsert, the new token is found and the user's previous token is not |
| Types.ToDto | server/services/user-service.js:16 | the public view carries the user's id, name and email, and has no password field |
| AuthSpec.Issue | server/services/user-service.js:16-20 | always succeeds, answering with the user's public view; the directory is unchanged; the store changes by exactly one upsert of the user's record to the returned refresh token, which the signer had not issued before |
| AuthSpec.Registration | server/services/user-service.js:8-21 | on a valid directory, succeeds if and only if the address is not indexed; a failure is `BadRequest` and changes nothing; a success adds exactly one user, under a fresh id, with the given name and email and `hash(password, 3)`, and upserts that id's store record to the returned refresh token |
| AuthSpec.Login | server/services/user-service.js:23-38 | never changes the directory; a failure is `BadRequest` and changes nothing; a success means the address is indexed and the hasher accepts the password against that user's hash, answers with that user's public view and upserts only that user's store record |
| AuthSpec.Logout | server/services/user-service.js:40-42 | afterwards no record holds the token; every other record, the directory and the signer are unchanged |
| AuthSpec.Refresh | server/services/user-service.js:44-60 | line 50 as intended: succeeds if and only if a token is presented, validates as a refresh token and is in the store; every failure is `Unauthorized` and changes nothing; the directory never changes |
| AuthSpec.RefreshAsWritten | server/services/user-service.js:44-60 | line 50 as written: succeeds if and only if a token is presented and validates as a refresh token, whether or not it is stored; every failure is `Unauthorized` and changes nothing |
| AuthProperties.StoreTokensUnique | server/services/user-service.js:18 | on a valid state, two users never hold the same refresh token |
| AuthProperties.StoredTokenValidates | server/services/user-service.js:48-50 | a stored token validates as a refresh token carrying its holder's public view |
| AuthProperties.IssueFacts | server/services/user-service.js:16-20 | the shared success tail returns the user's public view and a fresh pair; the directory is unchanged, only the user's store record is replaced by the returned refresh token, and `Valid` holds |
| AuthProperties.RegistrationDuplicate | server/services/user-service.js:9-12 | registering an address that is already present fails with `BadRequest`; the message contains the address; the state is unchanged |
| AuthProperties.RegistrationCreates | server/services/user-service.js:13-20 | registering a new address adds exactly one user, under a fresh id, with the given name and email and `hash(password, 3)`; other users are untouched; the store record of the new id is the returned refresh token; the returned user is the public view of the stored one |
| AuthProperties.RegistrationSucceedsIff | server/services/user-service.js:9-14 | registration succeeds if and only if no user has the address |
| AuthProperties.RegistrationValid | server/services/user-service.js:8-21 | registration keeps the invariant |
| AuthProperties.LoginFailures | server/services/user-service.js:24-31 | an unknown address fails `BadRequest` "user not found"; a password the hasher rejects fails `BadRequest` "incorrect password"; the messages differ; both failures leave the state unchanged |
| AuthProperties.LoginSucceeds | server/services/user-service.js:28-37 | a password the hasher accepts logs in; the answer is the user's public view; users are unchanged; only that user's store record changes, to the returned refresh token |
| AuthProperties.LoginValid | server/services/user-service.js:23-38 | login keeps the invariant |
| AuthProperties.LogoutRemovesOnly | server/services/user-service.js:40-42 | without any validation, logout leaves no record holding the token; every other record, the users and the signer are unchanged; `Valid` holds |
| AuthProperties.LogoutIdempotent | server/services/user-service.js:41 | logout with an absent token is a no-op, and logging out twice equals logging out once |
| AuthProperties.RefreshSucceedsIff | server/services/user-service.js:45-52 | refresh succeeds if and only if a token is presented, validates as a refresh token and is in the store; every failure is `Unauthorized` and leaves the state unchanged |
| AuthProperties.RefreshRotates | server/services/user-service.js:54-59 | on success, the user is re-read by the id in the claims and the answer is their current view; that user's record is replaced by a new token that differs from the presented one; `Valid` holds; presenting the old token again fails |
| AuthProperties.RefreshValid | server/services/user-service.js:44-60 | refresh keeps the invariant |
| AuthProperties.SecondLoginSupersedesFirst | server/services/user-service.js:35 | after two logins of one user, only the second refresh token is in the store; refreshing with the first fails `Unauthorized` although its signature still validates |
| AuthProperties.LogoutRevokes | server/services/user-service.js:40-52 | after logout with a token, refresh with it fails `Unauthorized` and leaves the state unchanged, while its signature validates as before |
| AuthProperties.RegistrationThenLogin | server/services/user-service.js:13-28 | with a hasher that accepts a password against its own hash, logging in right after a successful registration succeeds and returns the registered user |
| AuthProperties.RegistrationScenario | server/services/user-service.js:9-26 | registering "Ann" succeeds with name "Ann"; a second registration of "ann@x.com" fails `BadRequest` with a message naming the address; a login with an unknown address fails "user not found" |
| AuthProperties.AsWrittenAgreesWhenStored | server/services/user-service.js:49-50 | for a token in the store, the code as written and the intended check give the same result |
| AuthProperties.AsWrittenAcceptsRevokedToken | server/services/user-service.js:49-50 | after logout with an issued refresh token, the code as written still refreshes with it, while the intended check rejects it |
| AuthProperties.AsWrittenCounterexample | server/services/user-service.js:49-50 | concrete run: register, log out with the new refresh token, and the code as written still accepts that token |
| Service.UserService.constructor | server/services/user-service.js:63 | the service starts over empty stores, in a valid state |
| Service.UserService.CreateUser | server/services/user-service.js:14 | the user fields change exactly as `Directory.Create` says |
| Service.UserService.GenerateTokens | server/services/user-service.js:17 | the signer fields change exactly as `TokenService.GenerateTokens` says |
| Service.UserService.SaveToken | server/services/user-service.js:18 | the store changes by exactly one upsert |
| Service.UserService.RemoveToken | server/services/user-service.js:41 | the store changes by exactly the removal of the token |
| Service.UserService.Issue | server/services/user-service.js:16-20 | mints, saves and answers as `AuthSpec.Issue` says |
| Service.UserService.Registration | server/services/user-service.js:8-21 | ends in the state `AuthSpec.Registration` gives and keeps `Valid`; succeeds if and only if the address is new; on success adds exactly the new user, with the hashed password, and upserts its store record; on failure returns `BadRequest` and changes nothing |
| Service.UserService.Login | server/services/user-service.js:23-38 | ends in the state `AuthSpec.Login` gives and keeps `Valid`; never changes users; on success upserts only the user's store record; on failure returns `BadRequest` and changes nothing |
| Service.UserService.Logout | server/services/user-service.js:40-42 | ends in the state `AuthSpec.Logout` gives and keeps `Valid`; the token is no longer stored; users and issued tokens are unchanged |
| Service.UserService.Refresh | server/services/user-service.js:44-60 | ends in the state `AuthSpec.Refresh` gives and keeps `Valid`; succeeds if and only if the token is presented, validates and is stored; the new refresh token differs from the presented one; on failure returns `Unauthorized` and changes nothing |

## Findings

| source | as written | input that shows it | evidently intended | confidence | as-written member | corrected member |
|---|---|---|---|---|---|---|
| server/services/user-service.js:49-50 | `findToken` is called without `await`, so `tokenFromDB` is a pending promise and always truthy; only the signature check can reject a token | register a user, log out with the refresh token it received, then refresh with that token: the refresh succeeds and issues a new pair | reject the token unless it validates AND is found in the store, so that logout and a later login revoke it | high, not executed | AuthProperties.AsWrittenAcceptsRevokedToken | AuthProperties.LogoutRevokes |

`AuthSpec.RefreshAsWritten` is the refresh as written, and `AuthProperties.AsWrittenCounterexample` is the concrete run above. `AuthSpec.Refresh` is the corrected check, and the class uses it.

## Left out

- bcrypt: hashing is a deterministic function of the password and the cost. The random salt is not modelled. Comparison is an arbitrary function, constrained only where `Consistent` is assumed.
- AuthProperties.RegistrationCreates: states that the stored password is `hash(password, 3)`. It does not state that the hash differs from the plaintext, because the hasher is abstract.
- TokenService.GenerateTokens: every minted token is assumed to differ from every token issued before (a serial counter). A real JWT signer is deterministic except for the issued-at and expiry timestamps, which have one-second resolution, so two mints of the same claims within one second yield the same token. These stated facts rest on that assumption and not on the code: `TokenService.GenerateTokens` ("neither was issued before"), `AuthSpec.Issue`, `AuthProperties.IssueFacts`, `AuthProperties.RefreshRotates` (the new token differs from the presented one, and the old one is then rejected), `AuthProperties.SecondLoginSupersedesFirst` (the first token is no longer found) and `Service.UserService.Refresh` (the new token differs from the presented one).
- `generateTokens` (lines 17, 34 and 56) and `validateRefreshToken` (line 48) are taken to be synchronous, since neither is awaited. The Findings row depends on `validateRefreshToken` returning its verdict directly rather than a promise.
- JWT: signatures, secrets and expiry are not modelled. An issued token keeps validating forever, so expiry never causes a rejection.
- `validateAccessToken` is modelled (`TokenService.ValidateAccessToken`) only to state cross-use rejection. No operation here calls it.
- The token service, the user model, the user DTO and `exceptions/api-error.js` are not part of this model. The DTO is taken to hold the id, name and email. The text of `UnauthorizedError`'s message is a placeholder.
- `removeToken` deletes every record holding the token. A single-document delete would remove at most one. On a valid state the two agree, because no two users hold the same token (`AuthProperties.StoreTokensUnique`).
- The value `logout` returns (the store's deletion report) is not modelled. `Service.UserService.Logout` returns nothing.
- Logout with an absent cookie is not modelled: `Logout` takes a token. Refresh with an absent or empty token is modelled as `None`.
- `findById` returning nothing at line 54 cannot happen on a valid state: users are never deleted, and every issued token names an existing user. `Refresh` therefore requires `Valid`.
- Uniqueness of emails is assumed to be enforced by the user schema's index. Registration only calls `create` for an address `findOne` did not find.
- async/await and concurrent requests: each operation is one atomic step. Races between concurrent logins, refreshes and logouts are not modelled.
- Client pages (sign-up, sign-in, main, app routing) are user interface and HTTP plumbing, so they are left out. So are their form-validation regular expressions, which the server does not enforce.
