# express-mongodb-boilerplate: the authentication and user-management core, in Dafny

This project models the part of the Express/Mongoose boilerplate that decides who
may do what:

- the session manager (`generateSession`, `checkAccess`, `refreshSession`,
  `deleteUser`, `logout`) and the session schema behind it (token defaults,
  unique indexes, the access-token deadline, the TTL index on the refresh date);
- the authorization gate (`authMiddleware`, `verifyCallback`) with the role table;
- the user schema (setters, validators, the pre-save hash, `isEmailTaken`,
  `isPasswordMatch`) and the user service;
- the auth and user controllers and the `/users` routes;
- the `toJSON` and `paginate` schema plugins and `pickObjProps`.

The two MongoDB collections are sequences in natural (insertion) order, so
`findOne` is "the first match". A `World` holds both collections.

The following outside inputs are parameters:

- the clock (`now`, in milliseconds);
- the uuids the schema defaults draw (`FreshTokens`, `freshUid`);
- the new document's `_id`;
- bcrypt's hash and `validator.isEmail` (`Libraries`);
- the token lifetimes (`TokenConfig`, defaulting to 60 minutes and 30 days).

A unique index becomes an insert that fails with `DuplicateKey`. The TTL monitor
becomes an explicit `Expire` step. Each operation returns the collections it
leaves behind together with its result or the `ApiError` it throws.

Modules follow the source layout:

- `Outcomes` holds the results and the thrown errors;
- `Strings` holds the JavaScript string primitives;
- `Collection` holds the store operations;
- the remaining modules are `Roles`, `SessionModel`, `SessionService`,
  `UserModel`, `UserService`, `Database`, `AuthMiddleware`, `UserRoutes`,
  `AuthController`, `UserController`, `ToJson`, `Pick` and `Paginate`.

`Database.SessionsOwned` states that every session references a stored user,
which is what `populate("user")` in the middleware relies on. Lemmas show that
register, login and remove keep it.

Three behaviours of the code that are easy to misread:

- The `Authorization` header is not checked for a `Bearer ` prefix. The first
  occurrence of `"Bearer "` anywhere in the header is cut out
  (`AuthMiddleware.BearerRemovedAnywhere`).
- Account deletion cascades to sessions only through the `remove` controller.
  `deleteByUid` alone leaves the sessions in place.
- `register` stores the user before it generates a session. If the insert of the
  session fails, the user stays without a session.

Mongoose query casting is assumed to apply the schema setters to query filters, so
`findOne({ email })` compares the trimmed, lower-cased address.

## Model

| member | source | states |
|---|---|---|
| `Roles.RoleNames` | src/config/roles.config.ts:9 | `ROLES` holds each role's name once, in declaration order |
| `Roles.ParseRole` | src/database/models/user.model.ts:71-75 | a role string passes the enum check iff it is one of `ROLES`, and it reads back as the role of that name |
| `Roles.ParseName` | src/config/roles.config.ts:1-9 | every role's name is in `ROLES` and parses back to that role |
| `Roles.AllRights` | src/config/roles.config.ts:7 | the `Rights` type is exactly the set of rights some role grants |
| `Roles.RoleTable` | src/config/roles.config.ts:1-4 | `user` grants nothing, `admin` grants `getUsers` and `manageUsers`, and `ROLES` is `["user", "admin"]` |
| `Strings.Trim` | src/database/models/user.model.ts:53-57 | the trimmed string has no white space at either end and is no longer than the input |
| `Strings.TrimIsInfix` | src/database/models/user.model.ts:53-57 | what `trim` keeps is a contiguous piece of the input: a prefix of the suffix that `trimStart` leaves |
| `Strings.TrimDropsWhiteSpace` | src/database/models/user.model.ts:53-57 | every character `trim` drops, before or after the kept piece, is white space |
| `Strings.TrimIdempotent` | src/database/models/user.model.ts:53-57 | trimming twice gives the same string as trimming once |
| `Strings.TrimOfTrimmed` | src/database/models/user.model.ts:58-62 | a string without surrounding white space is left unchanged by `trim` |
| `Strings.LowerChar` | src/database/models/user.model.ts:42 | an upper-case ASCII letter becomes the matching lower-case letter, every other character is kept, and no upper-case letter remains |
| `Strings.ToLower` | src/database/models/user.model.ts:37-42 | lower-casing keeps the length and lowers each character in place |
| `Strings.ToLowerIdempotent` | src/database/models/user.model.ts:37-42 | lower-casing twice gives the same string as lower-casing once |
| `Strings.ToLowerKeepsTrimmed` | src/database/models/user.model.ts:37-42 | lower-casing a trimmed string leaves it trimmed, so the two email setters commute on their result |
| `Strings.ReplaceFirst` | src/middlewares/auth.middleware.ts:30-32 | with a string pattern only the first occurrence is replaced, and a string without the pattern comes back unchanged |
| `Strings.ReplaceFirstAtStart` | src/middlewares/auth.middleware.ts:32 | a pattern at the very start is the occurrence that gets replaced |
| `Strings.RemoveFirstOccurrence` | src/middlewares/auth.middleware.ts:32 | replacing with the empty string cuts out the first occurrence and keeps the text on both sides of it |
| `Strings.Split` | src/database/plugins/paginate.plugin.ts:46-47 | `split` yields at least one piece, no piece contains the separator, and joining the pieces gives back the input |
| `Strings.Join` | src/database/plugins/paginate.plugin.ts:50 | `sortingCriteria.join(" ")` starts with the first piece, puts the separator right after it when there is a second, and is as long as all pieces plus one separator between each pair of neighbours; the empty list joins to the empty string |
| `Strings.JoinSnoc` | src/database/plugins/paginate.plugin.ts:45-50 | pushing one more criterion adds one separator and that criterion at the end of the joined sort string |
| `Strings.SplitJoin` | src/database/plugins/paginate.plugin.ts:46-50 | splitting a join of separator-free pieces recovers those pieces |
| `Strings.ParseIntOfNatToString` | src/database/plugins/paginate.plugin.ts:55-62 | `parseInt(_, 10)` reads every canonical decimal numeral back as its value |
| `Strings.ParseInt` | src/database/plugins/paginate.plugin.ts:55-62 | `parseInt(_, 10)` finds no number in a string without digits, and a string that starts with a digit reads as the value of its leading run of digits |
| `Strings.ParseIntSkipsWhiteSpace` | src/database/plugins/paginate.plugin.ts:55-62 | leading white space does not change what `parseInt` reads |
| `Strings.ParseIntIgnoresTail` | src/database/plugins/paginate.plugin.ts:55-62 | anything after the numeral that does not start with a digit is ignored, so `"12abc"` reads as 12 |
| `Strings.ParseIntSign` | src/database/plugins/paginate.plugin.ts:55-62 | a leading `-` negates the numeral and a leading `+` keeps it |
| `Strings.Utf16Length` | src/database/models/user.model.ts:61 | JavaScript's `length` counts UTF-16 code units: at least one per character and at most two |
| `Strings.Utf16LengthOfBmp` | src/database/models/user.model.ts:61 | a string inside the Basic Multilingual Plane has one code unit per character |
| `Strings.Utf16LengthAppend` | src/database/models/user.model.ts:61 | the code-unit length of a concatenation is the sum of the parts' lengths |
| `Collection.FindFirst` | src/services/user.service.ts:23-29 | `findOne` returns a matching document with no match before it, and nothing iff no document matches |
| `Collection.RemoveAt` | src/services/session.service.ts:40 | `deleteOne` removes exactly that document, and the others keep their order |
| `Collection.RemoveAtMembers` | src/services/user.service.ts:48 | after `deleteOne` a value is present iff it was present at some other position |
| `Collection.DeleteMany` | src/services/session.service.ts:32-35 | `deleteMany` leaves only non-matching documents, keeps every non-matching one, and never adds any |
| `Collection.DeleteManySingle` | src/services/session.service.ts:33 | a single document survives exactly when the filter does not match it |
| `Collection.DeleteManyAppend` | src/services/session.service.ts:33 | the survivors of a concatenation are the survivors of each part, in the original order |
| `Collection.DeleteManyNoMatch` | src/services/session.service.ts:32-35 | a filter that matches nothing leaves the collection as it was |
| `Collection.DeleteManyIdempotent` | src/services/session.service.ts:32-35 | a second `deleteMany` with the same filter changes nothing |
| `Collection.DeletedCount` | src/services/session.service.ts:33 | the reported count is the number of documents removed, and it is zero iff nothing matched |
| `SessionModel.NewSession` | src/database/models/session.model.ts:15-49 | a new session belongs to the given user, carries the two drawn uuids, expires its access token `ACCESS_EXPIRATION_MINUTES * 60000` ms after creation, and records the creation time as the refresh date |
| `SessionModel.ReapableAfterRefreshLifetime` | src/database/models/session.model.ts:44-49 | the TTL index may reap a session exactly when more than `REFRESH_EXPIRATION_DAYS` days have passed since its refresh date |
| `SessionModel.DefaultLifetimes` | src/config/env.config.ts:25-30 | with the defaults of 60 minutes and 30 days, a new session's access token expires 3,600,000 ms after creation, and the TTL index may reap it exactly when more than 2,592,000,000 ms have passed since its refresh date |
| `SessionModel.Insert` | src/database/models/session.model.ts:22-35 | an insert succeeds iff no stored session already holds the same access token or the same refresh token; on success the session is appended, otherwise a `DuplicateKey` on one of the two token paths is thrown |
| `SessionModel.InsertKeepsUnique` | src/database/models/session.model.ts:22-35 | a successful insert keeps every token unique across the collection |
| `SessionModel.Expire` | src/database/models/session.model.ts:44-49 | a pass of the TTL monitor keeps exactly the sessions that are not yet reapable |
| `SessionModel.SessionJsonShowsOnlyTokens` | src/database/models/session.model.ts:56-59 | a serialised session shows its access and refresh tokens and nothing else: no id, owner or dates |
| `SessionService.GenerateSession` | src/services/session.service.ts:8-11 | exactly one new session is appended, for the given user and with fresh defaults; with unused tokens it always succeeds, and a token collision leaves the store unchanged |
| `SessionService.CheckAccess` | src/services/session.service.ts:13-21 | an access token is accepted iff a stored session holds it with its deadline strictly after now; otherwise "Please authenticate" |
| `SessionService.RefreshSession` | src/services/session.service.ts:23-30 | an unknown refresh token is refused and nothing changes; a known one deletes its session and issues a new one for the same user, with the drawn tokens, an access deadline one lifetime after `now` and `now` as its refresh date |
| `SessionService.RefreshedSessionPassesCheck` | src/services/session.service.ts:23-30 | with fresh tokens and a positive lifetime, the access token a rotation hands out passes `checkAccess` at once and names the new session |
| `SessionService.DeleteUser` | src/services/session.service.ts:32-35 | every session of the user is removed, every other session stays, and the count is zero iff the user had none |
| `SessionService.Logout` | src/services/session.service.ts:37-41 | an unknown access token is "Not found" with the store unchanged; a known one removes exactly the session holding it |
| `SessionService.GenerateKeepsUnique` | src/services/session.service.ts:8-11 | issuing a session keeps every token unique |
| `SessionService.RefreshKeepsUnique` | src/services/session.service.ts:23-30 | rotating a session keeps every token unique |
| `SessionService.LogoutKeepsUnique` | src/services/session.service.ts:37-41 | logging out keeps every token unique |
| `SessionService.DeleteUserKeepsUnique` | src/services/session.service.ts:32-35 | revoking a user's sessions keeps every token unique |
| `SessionService.ExpireKeepsUnique` | src/database/models/session.model.ts:44-49 | a pass of the TTL monitor keeps every token unique |
| `SessionService.FreshSessionPassesCheck` | src/services/session.service.ts:8-21 | with a positive lifetime, the access token of a session just issued passes `checkAccess` at the same instant |
| `SessionService.AccessExpiresAfterLifetime` | src/services/session.service.ts:13-17 | the access token of a session issued at time t is accepted at time `now` exactly while `now < t + lifetime` |
| `SessionService.RefreshIsSingleUse` | src/services/session.service.ts:23-30 | after a successful rotation the same refresh token is refused |
| `SessionService.RefreshPreservesOwner` | src/services/session.service.ts:23-30 | with fresh tokens, rotating any stored session succeeds, the new session has the old one's owner, and its tokens differ from the old ones |
| `SessionService.RefreshIgnoresClock` | src/services/session.service.ts:23-30 | whether a rotation succeeds does not depend on the clock; only the TTL reaper retires a refresh token |
| `SessionService.ExpiredRefreshRefused` | src/services/session.service.ts:23-26 | once the TTL monitor has reaped a session, its refresh token is refused |
| `SessionService.DeleteUserRevokesAccess` | src/services/session.service.ts:32-35 | after `deleteUser(u)` no former access token of `u` passes `checkAccess` |
| `SessionService.DeleteUserIdempotent` | src/services/session.service.ts:32-35 | a second `deleteUser` for the same user deletes nothing |
| `SessionService.LogoutTwiceNotFound` | src/services/session.service.ts:37-41 | logging out twice with the same token fails the second time with "Not found" |
| `SessionService.LogoutIgnoresExpiry` | src/services/session.service.ts:37-41 | a session can be logged out after its access token has expired |
| `UserModel.NormalizeEmail` | src/database/models/user.model.ts:37-42 | the stored address is the trimmed input with each character lower-cased in place: same length as the trimmed input, no surrounding white space, no upper-case letter |
| `UserModel.NormalizeEmailIdempotent` | src/database/models/user.model.ts:37-42 | applying the email setters to an already stored address leaves it unchanged |
| `UserModel.FailingPaths` | src/database/models/user.model.ts:35-81 | the list of failing schema paths is empty iff the draft passes every validator |
| `UserModel.PasswordPolicyOfBmp` | src/database/models/user.model.ts:58-70 | inside the Basic Multilingual Plane the password rule is: at least 8 characters, a digit and an ASCII letter |
| `UserModel.PasswordPolicyExamples` | src/database/models/user.model.ts:58-70 | `minLength` counts code units, so `ab1` and three emoji (nine units) pass; eight letters without a digit, or a five-character password, do not |
| `UserModel.Validate` | src/database/models/user.model.ts:35-117 | a save passes iff every validator of every set path does, the unmodified password's hash included, and a refused save names exactly the failing paths; the password is hashed iff it was modified, and the other fields are stored as given |
| `UserModel.PasswordModifiedIffChanged` | src/database/models/user.model.ts:111-117 | the pre-save hook re-hashes exactly when the assigned password differs from the stored one |
| `UserModel.StoredPasswordMatches` | src/database/models/user.model.ts:105-117 | a user saved with a new password matches that password, and with a collision-free hash nothing else |
| `UserModel.ValidatedIsWellFormed` | src/database/models/user.model.ts:35-117 | a validated draft whose email and name came through their setters is a well-formed stored user |
| `UserModel.NewDraft` | src/database/models/user.model.ts:35-84 | a new document takes the body's fields through their setters, with `user`, a fresh uuid and `false` as defaults for role, uid and verification flag |
| `UserModel.Assign` | src/services/user.service.ts:38 | `Object.assign` sends each present field through its setter and keeps every absent field |
| `UserModel.IsEmailTaken` | src/database/models/user.model.ts:96-102 | the address counts as taken iff some stored user other than the excluded `_id` holds its normalized form |
| `UserModel.Save` | src/database/models/user.model.ts:37-81 | a write succeeds iff no other document shares `_id`, email or uid with the new one; on success exactly that position changes or the user is appended; otherwise `DuplicateKey` |
| `UserModel.UserJsonShowsPublicFields` | src/database/models/user.model.ts:88-91 | a serialised user shows its email, uid and name and nothing else: no id, password, role, verification flag or timestamps |
| `UserService.Create` | src/services/user.service.ts:8-13 | a taken address is refused with "Email already taken" and nothing stored; otherwise a failing validator is refused with exactly the failing paths, and a unique-key clash with `DuplicateKey`; the create succeeds iff none of these happens, and then it appends one well-formed user with the given `_id`, the normalized email, the trimmed name, the body's or the fresh uid, the hashed trimmed password and the requested role |
| `UserService.QueryByUid` | src/services/user.service.ts:23-25 | the first user with that uid, and none iff no user has it |
| `UserService.QueryByEmail` | src/services/user.service.ts:27-29 | the first user holding the normalized address, and none iff no user holds it |
| `UserService.CreatedFoundByEmail` | src/services/user.service.ts:27-29 | the user `create` just stored is the one a lookup by the same address finds |
| `UserService.CreateHonoursRequestedRole` | src/services/user.service.ts:8-13 | a body asking for the `admin` role creates an administrator |
| `UserService.UpdateByUid` | src/services/user.service.ts:31-41 | an unknown uid is "User not found" with nothing changed; otherwise the update applies at the first user with that uid |
| `UserService.UpdateAt` | src/services/user.service.ts:35-39 | an update is refused with "Email already taken" iff a truthy new address is held by another user; it succeeds iff that does not happen, the assigned document passes validation and no other user shares its `_id`, email or uid; a validation failure names the failing paths; a success replaces only that user, keeping its `_id`, with every present field assigned through its setter (the role by name) and every absent one kept |
| `UserService.UnchangedPasswordRevalidated` | src/database/models/user.model.ts:58-70 | an update that leaves the password alone succeeds only if the stored hash passes the password validators |
| `UserService.DeleteByUid` | src/services/user.service.ts:43-50 | an unknown uid is "User not found"; otherwise the delete always succeeds, and exactly the first user with that uid is removed and returned |
| `UserService.UpdateEmailConflictOnlyWithOthers` | src/services/user.service.ts:35-36 | an email conflict on update always involves a user other than the one being updated |
| `UserService.UpdateOwnEmailAllowed` | src/services/user.service.ts:35-36 | resubmitting one's own address never fails with "Email already taken" |
| `UserService.CreateKeepsInvariant` | src/services/user.service.ts:8-13 | `create` keeps the stored users well formed and free of unique-key conflicts |
| `UserService.UpdatedIsWellFormed` | src/services/user.service.ts:38-39 | a validated update of a well-formed user is well formed |
| `UserService.UpdateKeepsInvariant` | src/services/user.service.ts:31-41 | `updateByUid` keeps the stored users well formed and free of unique-key conflicts |
| `UserService.DeleteKeepsInvariant` | src/services/user.service.ts:43-50 | `deleteByUid` keeps the stored users well formed and free of unique-key conflicts |
| `UserService.DeletedUserNotFound` | src/services/user.service.ts:43-50 | once deleted, a uid no longer resolves |
| `AuthMiddleware.VerifyCallback` | src/middlewares/auth.middleware.ts:11-23 | the check passes iff every required right is granted to the role, so an empty list always passes; a failure is "Forbidden" |
| `AuthMiddleware.ExtractToken` | src/middlewares/auth.middleware.ts:30-32 | a non-empty cookie is the token; otherwise the header with the text at the first occurrence of `"Bearer "` cut out, or the header unchanged when it has none; without a header, no token |
| `AuthMiddleware.BearerHeaderYieldsToken` | src/middlewares/auth.middleware.ts:30-32 | the header `Bearer <t>` without a cookie yields exactly `t` |
| `AuthMiddleware.BearerRemovedAnywhere` | src/middlewares/auth.middleware.ts:32 | the prefix is not anchored: `xBearer y` yields `xy` |
| `AuthMiddleware.CookieWins` | src/middlewares/auth.middleware.ts:30-31 | a non-empty cookie shadows any header |
| `AuthMiddleware.Owner` | src/middlewares/auth.middleware.ts:43 | `populate("user")` finds a user with the session's reference, and none iff no stored user has it |
| `AuthMiddleware.Authenticate` | src/middlewares/auth.middleware.ts:26-53 | a request passes iff it carries a token, the token passes `checkAccess`, the owner exists and holds the required rights; the locals then name that owner and the token; a missing token or a failed `checkAccess` is "Please authenticate", a live session whose user is gone is the dangling-user error, and a live session whose user lacks a right is Forbidden |
| `AuthMiddleware.NoTokenIgnoresStore` | src/middlewares/auth.middleware.ts:33-35 | a missing or empty token is refused whatever the stores and the clock hold |
| `AuthMiddleware.RightsCheckedAfterSession` | src/middlewares/auth.middleware.ts:37-44 | an unknown or expired token is "Please authenticate", never "Forbidden" |
| `AuthMiddleware.OwnedSessionsNeverDangle` | src/middlewares/auth.middleware.ts:37-44 | while every session references a stored user (`Database.SessionsOwned`), `populate("user")` always finds one and the gate never fails with the dangling-user error |
| `AuthMiddleware.AdminPasses` | src/middlewares/auth.middleware.ts:37-48 | an administrator with a live session passes every rights check |
| `UserRoutes.Resolve` | src/routes/v1/user.route.ts:17-26 | a request is served iff some registration matches its verb and path, and it is served by a matching registration |
| `UserRoutes.RouteRights` | src/routes/v1/user.route.ts:17-26 | exactly the five registered verb and path pairs are served; reads need `getUsers` and writes need `manageUsers` |
| `UserRoutes.UserRoleForbiddenEverywhere` | src/routes/v1/user.route.ts:17-26 | every route requires a right, so the `user` role is forbidden on all of them |
| `UserRoutes.UserRoleRefusedByGate` | src/routes/v1/user.route.ts:17-26 | a request from a `user` with a live session is refused with Forbidden on every route |
| `UserRoutes.AdminAllowedEverywhere` | src/routes/v1/user.route.ts:17-26 | the `admin` role passes the rights check of every route |
| `AuthController.Register` | src/controllers/auth.controller.ts:6-10 | a failed create changes nothing; a success appends the user and one session for that user's `_id`; with fresh tokens a created user always gets a session; a token collision keeps the user without a session |
| `AuthController.RegisterHonoursRequestedRole` | src/controllers/auth.controller.ts:6-10 | self-registration with `role: "admin"` yields an administrator |
| `AuthController.Login` | src/controllers/auth.controller.ts:12-19 | an unknown email and a wrong password both give "Incorrect email or password" with nothing changed; a found user whose password matches gets a session, always when the drawn tokens are fresh and otherwise unless a token collides; a success issues a session for the found user |
| `AuthController.LoginFailuresIndistinguishable` | src/controllers/auth.controller.ts:15-16 | an unknown email and a wrong password produce identical outcomes |
| `AuthController.Logout` | src/controllers/auth.controller.ts:21-24 | the session service's `logout` on the body's token; users are untouched |
| `AuthController.RefreshTokens` | src/controllers/auth.controller.ts:26-29 | the session service's rotation on the body's token; users are untouched |
| `AuthController.RegisteredUserFound` | src/controllers/auth.controller.ts:12-14 | the user `register` stored is the one `login` finds by the same email |
| `AuthController.PaddedPasswordLocksOut` | src/controllers/auth.controller.ts:12-16 | a registered password with surrounding white space is refused at login, given an injective hash |
| `AuthController.RegisterThenLogin` | src/controllers/auth.controller.ts:6-19 | a password without surrounding white space logs in right after registering |
| `AuthController.LoginTrimmed` | src/controllers/auth.controller.ts:12-19 | the corrected login behaves like `login`, except that the candidate goes through the password's setter before the comparison: unknown email or wrong password is "Incorrect email or password", and a match gets a session whenever the drawn tokens are fresh |
| `AuthController.RegisterThenLoginTrimmed` | src/controllers/auth.controller.ts:6-19 | with the corrected login, any registered password logs in, and the session belongs to the registered user |
| `Database.OwnedWithNewUser` | src/controllers/auth.controller.ts:7 | storing a new user keeps every session owned by a stored user (`Database.SessionsOwned`) |
| `Database.OwnedWithNewSession` | src/controllers/auth.controller.ts:8 | storing a session whose `user` is the `_id` of a stored user keeps every session owned |
| `Database.OwnedAfterCascade` | src/controllers/user.controller.ts:24-27 | removing a user and keeping only sessions of other `_id`s keeps every session owned, given unique `_id`s |
| `AuthController.RegisterKeepsSessionsOwned` | src/controllers/auth.controller.ts:6-10 | `register` keeps every session owned by a stored user |
| `AuthController.LoginKeepsSessionsOwned` | src/controllers/auth.controller.ts:12-19 | `login` keeps every session owned by a stored user |
| `UserController.Get` | src/controllers/user.controller.ts:8-12 | `get` fails with "User not found" iff no user has the uid; otherwise it returns a stored user with that uid |
| `UserController.Create` | src/controllers/user.controller.ts:14-17 | `create` is the user service's `create`; sessions are untouched |
| `UserController.Update` | src/controllers/user.controller.ts:19-22 | `update` is the user service's `updateByUid`; sessions are untouched |
| `UserController.Remove` | src/controllers/user.controller.ts:24-28 | an unknown uid is "User not found" with nothing changed; otherwise the remove always succeeds: the user is removed and then every session of that user's `_id` |
| `UserController.RemoveRevokesAccess` | src/controllers/user.controller.ts:24-28 | after `remove`, every access token of the removed user is refused |
| `UserController.RemovedUserNotFound` | src/controllers/user.controller.ts:24-28 | after `remove`, `get` on the same uid is "User not found" |
| `UserController.RemoveKeepsSessionsOwned` | src/controllers/user.controller.ts:24-28 | `remove` keeps every session owned by a stored user |
| `UserController.Filter` | src/controllers/user.controller.ts:31 | the filter holds exactly the `name` and `role` parameters present in the query, with their values |
| `UserController.PageOptions` | src/controllers/user.controller.ts:32 | the options carry `sortBy`, `limit` and `page` from the query when present, and never `populate` |
| `UserController.Select` | src/controllers/user.controller.ts:33 | `find(filter)` returns only stored users that match and every stored user that matches |
| `UserController.QueryAll` | src/controllers/user.controller.ts:30-35 | the page counts every matching user, uses the effective limit and page, and lists at most `limit` matching users |
| `UserController.QueryAllIgnoresOtherParameters` | src/controllers/user.controller.ts:30-35 | query parameters other than the five picked ones do not change the answer |
| `UserController.UnfilteredSelectsAll` | src/controllers/user.controller.ts:31-33 | without `name` or `role` in the query, every stored user is selected |
| `Pick.Pick` | src/utils/pickObjectProperties.ts:1-11 | the result holds exactly the requested keys that the source has, with the source's values; a missing source gives `{}` |
| `Pick.PickIdempotent` | src/utils/pickObjectProperties.ts:1-11 | picking the same keys again changes nothing |
| `Pick.PickIsRestriction` | src/utils/pickObjectProperties.ts:1-11 | the result is the source restricted to the requested keys |
| `Pick.PickNarrows` | src/utils/pickObjectProperties.ts:1-11 | picking fewer keys from a pick is the same as picking them directly |
| `Paginate.Criterion` | src/database/plugins/paginate.plugin.ts:47-48 | an option without a colon is a bare key and passes through unchanged |
| `Paginate.CriterionOfOption` | src/database/plugins/paginate.plugin.ts:47-48 | `key:rest` gives the key, prefixed with `-` exactly when the text after the first colon, up to any second colon, is `desc` |
| `Paginate.CriterionOfKeyOrder` | src/database/plugins/paginate.plugin.ts:47-48 | `key:order` gives `-key` when the order is `desc` and `key` for any other order |
| `Paginate.CriterionExamples` | src/database/plugins/paginate.plugin.ts:47-48 | `name:desc` gives `-name`; `name:DESC`, `name:asc` and `name` give `name` |
| `Paginate.Criteria` | src/database/plugins/paginate.plugin.ts:44-49 | each comma-separated option gives one criterion, in order, and a `sortBy` whose options have no colon is passed through as its list of keys |
| `Paginate.SortSpec` | src/database/plugins/paginate.plugin.ts:43-53 | a missing or empty `sortBy` sorts by `createdAt`; otherwise the criteria are joined by spaces |
| `Paginate.CriterionOfWritten` | src/database/plugins/paginate.plugin.ts:47-48 | `key:desc` becomes `-key`, and `key:asc` becomes `key` |
| `Paginate.CriteriaOfWritten` | src/database/plugins/paginate.plugin.ts:44-49 | comma-joined sort options are read back as their intended criteria |
| `Paginate.SortSpecRoundTrip` | src/database/plugins/paginate.plugin.ts:43-53 | the sort string of comma-joined options splits on spaces into the intended criteria, in order |
| `Paginate.PositiveOr` | src/database/plugins/paginate.plugin.ts:55-62 | a given value that parses to a positive integer is used; anything else falls back to the default |
| `Paginate.EffectiveLimit` | src/database/plugins/paginate.plugin.ts:55-58 | the page size is always at least 1 |
| `Paginate.EffectivePage` | src/database/plugins/paginate.plugin.ts:59-62 | the page number is always at least 1 |
| `Paginate.PositiveRoundTrip` | src/database/plugins/paginate.plugin.ts:55-62 | a positive decimal numeral is taken as its value |
| `Paginate.ZeroFallsBack` | src/database/plugins/paginate.plugin.ts:55-62 | `"0"` falls back to the default |
| `Paginate.Skip` | src/database/plugins/paginate.plugin.ts:63 | the skip is non-negative and ends, one page later, at `page * limit` |
| `Paginate.TotalPages` | src/database/plugins/paginate.plugin.ts:85 | there are no pages iff there are no results; otherwise the last page is the one that holds the last result |
| `Paginate.TotalPagesUnique` | src/database/plugins/paginate.plugin.ts:85 | the page count is the only number with that ceiling property |
| `Paginate.Window` | src/database/plugins/paginate.plugin.ts:66 | `skip(s).limit(l)` returns at most `l` documents, each the one at offset `s + i` |
| `Paginate.Paginate` | src/database/plugins/paginate.plugin.ts:38-93 | the result reports the effective page and limit and the total count; a page before the last is full, the last page is non-empty, and a page past the end is empty |
| `Paginate.PagesPartition` | src/database/plugins/paginate.plugin.ts:63-85 | pages `1..totalPages`, laid end to end, are the matching documents, each exactly once |
| `Paginate.PagesPrefix` | src/database/plugins/paginate.plugin.ts:63-66 | the first `n` pages cover exactly the first `n * limit` documents |
| `Paginate.Wrap` | src/database/plugins/paginate.plugin.ts:74 | folding adds one level of nesting per path |
| `Paginate.WrapReverse` | src/database/plugins/paginate.plugin.ts:72-74 | folding the reversed segments nests them from the outside in |
| `Paginate.PopulateOption` | src/database/plugins/paginate.plugin.ts:69-75 | a populate option nests one level per dot-separated segment |
| `Paginate.PopulateNesting` | src/database/plugins/paginate.plugin.ts:69-75 | `a.b.c` populates `a`, inside it `b`, and inside that `c` |
| `Paginate.PopulateSpecs` | src/database/plugins/paginate.plugin.ts:68-77 | one nested specification per comma-separated option, in order, and none without `populate` |
| `ToJson.DeleteAt` | src/database/plugins/toJSON.plugin.ts:9-21 | deleting at a path never adds keys and never touches other top-level keys; a one-segment path removes exactly that key |
| `ToJson.DeleteAtRemoves` | src/database/plugins/toJSON.plugin.ts:9-21 | after `deleteAtPath` nothing is left at that path |
| `ToJson.DeleteAtUnreachable` | src/database/plugins/toJSON.plugin.ts:18-20 | a missing or non-object intermediate makes the deletion a no-op |
| `ToJson.DeleteAtNeverAdds` | src/database/plugins/toJSON.plugin.ts:9-21 | deleting at one path never makes another path appear |
| `ToJson.DeletePrivate` | src/database/plugins/toJSON.plugin.ts:35-38 | deleting the private paths never adds keys |
| `ToJson.DeletePrivateKeepsOthers` | src/database/plugins/toJSON.plugin.ts:35-38 | a top-level key that no private path starts with keeps its value |
| `ToJson.DeletePrivateNeverAdds` | src/database/plugins/toJSON.plugin.ts:35-38 | deleting the private paths never makes a path appear |
| `ToJson.PrivatePathsGone` | src/database/plugins/toJSON.plugin.ts:35-38 | no private path survives the loop |
| `ToJson.SetId` | src/database/plugins/toJSON.plugin.ts:40 | `id` is set to the string form of `_id` unless the option list names `id`; a missing `_id` makes the transform throw |
| `ToJson.DropFields` | src/database/plugins/toJSON.plugin.ts:41-45 | a key survives iff it is not `_id` or `__v`, not a truthy timestamp, and not in the option list; survivors keep their values |
| `ToJson.Redact` | src/database/plugins/toJSON.plugin.ts:34-45 | the output has no `_id`, `__v`, listed key or truthy timestamp; it has `id` iff the list does not name it; every other key keeps its value |
| `ToJson.RedactWithoutId` | src/database/plugins/toJSON.plugin.ts:40-45 | with `id` in the option list and no private schema path, redaction is just the deletions |
| `ToJson.Transform` | src/database/plugins/toJSON.plugin.ts:27-49 | the transform is the redaction, passed on to the schema's earlier transform when there was one |

## Left out

- HTTP itself is left out: status codes, response bodies, `catchAsync`, the error
  middleware, the rate limiter, `cookie-parser`, the logger, configuration
  loading and the server start-up. Errors are modelled as the `ApiError` value
  that is thrown.
- The auth routes file is not part of this model. Its handlers carry no
  middleware and map one-to-one onto the `AuthController` functions.
- bcrypt's salt, cost factor and 72-byte input limit are left out. The hash is a
  function parameter, and the absence of collisions is the hypothesis
  `HashInjective` wherever it is needed.
- `validator.isEmail` is a parameter. Its grammar is not modelled.
- `toLowerCase` is modelled on ASCII letters only. Full Unicode case mapping is
  left out.
- `parseInt` is modelled on decimal integers without floating-point precision
  loss. Numbers beyond 2^53 are not modelled.
- Concurrency is left out. Each operation runs to completion. `refreshSession`
  is a single step, so the race between two simultaneous rotations of the same
  token, and a crash between its delete and its insert, are not modelled.
- Token lifetimes are whole numbers: `SessionModel.TokenConfig` holds whole
  minutes and whole days. The configuration schema accepts any number, so a
  fractional setting would give a fractional millisecond offset, which `new Date`
  truncates, and a fractional TTL in seconds. Neither is modelled.
- The TTL monitor's lag of up to a minute is left out. `Expire` is one pass at a
  given instant.
- Values are modelled as strings and not as arrays. JSON arrays are not
  represented in `ToJson.Json`. `ObjectId` and `Date` values are not descended
  into by `deleteAtPath`. The `toString` of `_id` is a parameter. No schema path
  carries the `private` option, so both schemas pass an empty path list.
- Mongo's execution of the sort string is left out. `UserController.QueryAll`
  paginates the matching users in collection order. The sort string is computed
  by `Paginate.SortSpec` and proved correct, but it is not applied to the
  results.
- The resolution of `populate` against other collections is left out. Only the
  specifications passed to Mongoose are modelled.
- Optional body fields are `Option` values: `role`, `uid` and `isEmailVerified` when
  creating, and every field of an update. An absent `email`, `name` or `password`
  in a register, create or login body is not modelled, because those fields are
  plain strings. So `undefined` passed on to `findOne` or to `bcrypt.compare` is
  left out, and so is Mongoose's treatment of `undefined` inside filters.
- The stored password is re-validated on every save, as the hash it holds.
  bcrypt's 60-character hashes always pass `minLength: 8` and the letter and
  digit checks, but the hash is a parameter here. So the model keeps the check
  and does not assume that it passes.
- `UserController.QueryAll`: states that the page holds only matching users and
  at most `limit` of them, and not which window of the sorted result it is,
  because sorting is left out.
- `Strings.Trim`: states what is kept and dropped through `Strings.TrimIsInfix`
  and `Strings.TrimDropsWhiteSpace` rather than in its own contract.

## Findings

| source | as written | input that shows it | evidently intended | confidence | as-written member | corrected member |
|---|---|---|---|---|---|---|
| src/controllers/auth.controller.ts:15 | the password path's `trim` setter (src/database/models/user.model.ts:58-62) stores the hash of the trimmed password, but `isPasswordMatch` (src/database/models/user.model.ts:105-108) compares the candidate as given | register with password `" Passw0rd1 "`, then log in with the same string: the hash of `"Passw0rd1"` is compared against `" Passw0rd1 "`, and the login fails with "Incorrect email or password" | the password a user registered with logs them in | not executed; follows from the two source lines, given a hash without collisions | `AuthController.PaddedPasswordLocksOut` | `AuthController.RegisterThenLoginTrimmed` |
