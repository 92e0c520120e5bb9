# Learn project: sessions, route rules and messages in Dafny

This project models the authentication and session layer of the learning
Spring application, and its small message table.

- **Sessions** (`user_service.dfy`): registration, login, refresh-token rotation and logout, over an in-place user table and refresh-token table.
- **Access tokens** (`jwt_utils.dfy`, `java_long.dfy`): the user id is written as decimal text into the JWT `kid` header, and `exp` is set five minutes after issue.
- **The JWT filter** (`jwt_filter.dfy`): one pass of the filter placed before the route rules. It attaches the token's user or writes a JSON error.
- **The route rules** (`security_config.dfy`): a permit list, moderator routes, admin routes and a catch-all, where the first matching rule decides.
- **The registration body's constraints** (`register_request.dfy`).
- **The message service** (`message_service.dfy`): create, newest-first paging, delete and edit.
- **The validation-error response** (`exception_handler.dfy`).

State that the Java code changes in place becomes a class:
- `UserService` has a user map and the id sequence, and owns a `RefreshTokenRepository` with a token-keyed map.
- `MessageService` has a message map and its id sequence.

Everything else is datatypes, functions and lemmas.

The clock, the random refresh-token string and BCrypt become parameters:
- `now` is the clock reading;
- `freshToken` is the random refresh-token string;
- a `PasswordEncoder` is a pair of function values for BCrypt.

The auth0 library is also a pair of function values (`sign`, and `serialize`/`parse`). The assumptions about it (`Sound`) are that parsing a serialized token gives the token back, and that a serialized token starts with `e` (every compact JWT starts with `eyJ`).

The identity attached by the filter is passed as an `Option<LearnUser>` rather than read from a thread-local holder.

Behaviour of the code worth knowing, which the model keeps:
- The whole `Authorization` header is decoded as the token. No `Bearer ` prefix is stripped.
- The expired-refresh-token branch of `doReset` throws inside a transaction. The delete before it is rolled back, so the expired row stays until the sweep (`DoReset`).
- Inside `decode`, the "Token expired" exception is caught by the catch-all. Callers only ever see 401 "Token is invalid" (`DecodeAfterExpiry`).
- An unknown login is a 404 "User not found". An unknown or used refresh token is a 401 "Bad refresh token".
- The filter writes the raw exception message even for a 500.
- The sweep returns nothing, so no deleted-row count exists.
- Logins and emails are unique ignoring case, yet register's two-argument lookup can still find two rows: one by the login and another by the email. That lookup then fails with the non-unique-result error, a 500, where the 400 "Login or email are used" was evidently meant (`CrossClashIsAFault`). In the same way, a login that equals another user's email makes that login fail with a 500 (`RegisterThenLogIn` requires this away).

## Model

| member | source | states |
|---|---|---|
| Users.NewLearnUser | src/main/java/ru/cazyx/semperante/learnProject/entities/LearnUser.java:126-131 | the constructor stores login, email, digest and role unchanged; the id is the one save assigns |
| Users.Authorities | src/main/java/ru/cazyx/semperante/learnProject/entities/LearnUser.java:210-212 | exactly one authority, "ROLE_" + the role's name, and it names the user's own role and no other |
| Users.AuthorityInjective | src/main/java/ru/cazyx/semperante/learnProject/entities/LearnUser.java:211 | distinct roles give distinct authority strings |
| Users.Username | src/main/java/ru/cazyx/semperante/learnProject/entities/LearnUser.java:223-225 | the username is the login |
| Users.Password | src/main/java/ru/cazyx/semperante/learnProject/entities/LearnUser.java:217-219 | the password Spring checks is the stored digest |
| Users.AccountAlwaysUsable | src/main/java/ru/cazyx/semperante/learnProject/entities/LearnUser.java:228-250 | the four account-status flags hold for every user |
| JavaLong.ParseLong | src/main/java/ru/cazyx/semperante/learnProject/config/filters/JwtUtils.java:64 | accepted exactly when an optional sign is followed by at least one decimal digit and the signed value fits in a long; the value is the digits' value, negated after a minus |
| JavaLong.NatToDecimalDenotes | src/main/java/ru/cazyx/semperante/learnProject/config/filters/JwtUtils.java:47 | the decimal text of a natural number is a non-empty digit string denoting that number |
| JavaLong.ParseValueOf | src/main/java/ru/cazyx/semperante/learnProject/config/filters/JwtUtils.java:47-64 | parsing the kid text written for a long id gives that id back |
| JavaLong.ValueOfInjective | src/main/java/ru/cazyx/semperante/learnProject/config/filters/JwtUtils.java:47 | two longs with the same decimal text are equal |
| JwtUtils.Inspect | src/main/java/ru/cazyx/semperante/learnProject/config/filters/JwtUtils.java:60-64 | an accepted token yields an id inside the long range |
| JwtUtils.Decode | src/main/java/ru/cazyx/semperante/learnProject/config/filters/JwtUtils.java:58-70 | every failure, expiry included, is the same 401 "Token is invalid"; success exactly when the token is well formed, correctly signed, not past exp and carries a decimal kid |
| JwtUtils.EncodeClaims | src/main/java/ru/cazyx/semperante/learnProject/config/filters/JwtUtils.java:45-50 | an issued token reads back with kid = the id's decimal text, exp = issue time + 300000 ms and a valid signature |
| JwtUtils.DecodeEncode | src/main/java/ru/cazyx/semperante/learnProject/config/filters/JwtUtils.java:45-70 | decode(encode(id)) == id for every long id until the exp instant, that instant included |
| JwtUtils.DecodeAfterExpiry | src/main/java/ru/cazyx/semperante/learnProject/config/filters/JwtUtils.java:61-67 | after exp the token is rejected as expired, and the caller sees 401 "Token is invalid" |
| JwtUtils.DecodeAcceptsOnlyValid | src/main/java/ru/cazyx/semperante/learnProject/config/filters/JwtUtils.java:60-64 | a decoded id comes from a parseable, correctly signed, unexpired token whose kid parses to that id |
| JwtUtils.NonDecimalKeyIdRejected | src/main/java/ru/cazyx/semperante/learnProject/config/filters/JwtUtils.java:64-67 | a missing or non-decimal kid gives 401 "Token is invalid" |
| UserRepository.Lower | src/main/java/ru/cazyx/semperante/learnProject/entities/repositories/LearnUserRepository.java:35 | lower() keeps the length and lower-cases character by character |
| UserRepository.LowerIdempotent | src/main/java/ru/cazyx/semperante/learnProject/entities/repositories/LearnUserRepository.java:35 | lower-casing twice equals lower-casing once |
| UserRepository.SingleResult | src/main/java/ru/cazyx/semperante/learnProject/entities/repositories/LearnUserRepository.java:36 | no row gives an empty Optional; one row gives that row; more than one row is a 500 fault |
| UserRepository.SelectByCredentialEmpty | src/main/java/ru/cazyx/semperante/learnProject/entities/repositories/LearnUserRepository.java:35 | the one-argument WHERE clause selects nothing exactly when no row matches |
| UserRepository.SelectByLoginOrEmailEmpty | src/main/java/ru/cazyx/semperante/learnProject/entities/repositories/LearnUserRepository.java:45 | the two-argument WHERE clause selects nothing exactly when no row matches |
| UserRepository.FindByCredentials | src/main/java/ru/cazyx/semperante/learnProject/entities/repositories/LearnUserRepository.java:35-36 | empty exactly when no login or email equals the argument ignoring case; a found user is the stored row, matches, and is the only match; the lookup fails with a 500 fault exactly when more than one row matches |
| UserRepository.FindsUniqueMatch | src/main/java/ru/cazyx/semperante/learnProject/entities/repositories/LearnUserRepository.java:35-36 | a row that alone matches the credential is the user found |
| UserRepository.FindByLoginOrEmail | src/main/java/ru/cazyx/semperante/learnProject/entities/repositories/LearnUserRepository.java:45-46 | empty exactly when no login equals the login and no email equals the email, ignoring case; a found user is the stored, unique matching row; the lookup fails with a 500 fault exactly when more than one row matches |
| UserRepository.FindsUniqueLoginOrEmail | src/main/java/ru/cazyx/semperante/learnProject/entities/repositories/LearnUserRepository.java:45-46 | a row that alone matches the login or the email is the user found |
| UserRepository.CredentialIsLoginOrEmailTwice | src/main/java/ru/cazyx/semperante/learnProject/entities/repositories/LearnUserRepository.java:35-46 | the one-argument query is the two-argument query with the same string twice |
| UserRepository.FindIgnoresCase | src/main/java/ru/cazyx/semperante/learnProject/entities/repositories/LearnUserRepository.java:35 | arguments that agree after lower-casing give the same answer |
| UserRepository.FindByLowered | src/main/java/ru/cazyx/semperante/learnProject/entities/repositories/LearnUserRepository.java:35 | querying with the lower-cased argument gives the same answer |
| RefreshTokens.NewRefreshToken | src/main/java/ru/cazyx/semperante/learnProject/entities/RefreshToken.java:52-56 | the new row holds the given token and user and expires 86400000 ms after creation |
| RefreshTokens.NewTokenExpiry | src/main/java/ru/cazyx/semperante/learnProject/entities/RefreshToken.java:55 | a new token counts as expired exactly when more than 24 hours have passed, and is live when made |
| TokenRepository.SweptRemovesExactlyExpired | src/main/java/ru/cazyx/semperante/learnProject/entities/repositories/RefreshTokenRepository.java:17-19 | deleteExpired removes a row exactly when its expiresAt is strictly before now |
| TokenRepository.SweptKeepsLive | src/main/java/ru/cazyx/semperante/learnProject/entities/repositories/RefreshTokenRepository.java:18 | rows expiring at or after now stay unchanged, and nothing is added |
| TokenRepository.SweptIdempotent | src/main/java/ru/cazyx/semperante/learnProject/entities/repositories/RefreshTokenRepository.java:18 | running the sweep twice at one instant is running it once |
| TokenRepository.SweptKeyedByToken | src/main/java/ru/cazyx/semperante/learnProject/entities/repositories/RefreshTokenRepository.java:18 | the sweep keeps every row under its own token |
| TokenRepository.RefreshTokenRepository.FindById | src/main/java/ru/cazyx/semperante/learnProject/services/UserService.java:110 | findById finds a row exactly when its token is a key, and returns that row |
| TokenRepository.RefreshTokenRepository.Save | src/main/java/ru/cazyx/semperante/learnProject/services/UserService.java:95 | save inserts the row under its token, overwriting any row with that token |
| TokenRepository.RefreshTokenRepository.DeleteById | src/main/java/ru/cazyx/semperante/learnProject/services/UserService.java:134 | deleteById removes the row with that token and no other |
| TokenRepository.RefreshTokenRepository.DeleteExpired | src/main/java/ru/cazyx/semperante/learnProject/entities/repositories/RefreshTokenRepository.java:17-19 | deleteExpired leaves exactly the swept table |
| Sessions.InsertKeepsCredentialsDistinct | src/main/java/ru/cazyx/semperante/learnProject/services/UserService.java:68-75 | saving a user whose login and email clash with no one keeps logins and emails unique ignoring case |
| Sessions.AuthorizedUser | src/main/java/ru/cazyx/semperante/learnProject/services/AParentService.java:17-19 | the principal the gate attached, or a 500 fault when none is attached |
| Sessions.SweepAgreesWithReset | src/main/java/ru/cazyx/semperante/learnProject/services/UserService.java:114 | doReset refuses a present token as expired exactly when the sweep would delete it |
| Sessions.UserService.constructor | src/main/java/ru/cazyx/semperante/learnProject/services/UserService.java:39-44 | the service starts with empty user and token tables, wired to the given encoder and token codec |
| Sessions.UserService.GetMe | src/main/java/ru/cazyx/semperante/learnProject/services/UserService.java:51-53 | the signed-in user, or a 500 fault for an anonymous caller |
| Sessions.UserService.Register | src/main/java/ru/cazyx/semperante/learnProject/services/UserService.java:61-76 | password mismatch gives 400 "Passwords not matches"; a login or email clash gives 400 "Login or email are used"; otherwise exactly the new user is saved; a failure stores nothing; logins and emails stay unique |
| Sessions.UserService.Auth | src/main/java/ru/cazyx/semperante/learnProject/services/UserService.java:84-99 | unknown login gives 404 "User not found", a wrong password 401 "Password is invalid"; success stores exactly one new refresh token and returns it with the user's access token; a failure stores nothing |
| Sessions.UserService.DoReset | src/main/java/ru/cazyx/semperante/learnProject/services/UserService.java:107-125 | an unknown token gives 401 "Bad refresh token"; an expired one 401 "Token is expired" with the table rolled back; otherwise the old token is replaced by the new one for the same user |
| Sessions.UserService.DoLogout | src/main/java/ru/cazyx/semperante/learnProject/services/UserService.java:133-135 | the given refresh token is deleted, every other row stays |
| Sessions.RefreshTwice | src/main/java/ru/cazyx/semperante/learnProject/services/UserService.java:110-112 | a refresh token is single use: a second refresh with it gives 401 "Bad refresh token" |
| Sessions.CrossClashIsAFault | src/main/java/ru/cazyx/semperante/learnProject/services/UserService.java:68-73 | a table with unique logins and unique emails where the login names one user and the email another: the lookup fails with a 500 fault, not the 400 |
| Sessions.LogInWithRightPassword | src/main/java/ru/cazyx/semperante/learnProject/services/UserService.java:84-99 | when BCrypt accepts a password against its own digest and the login names exactly one user whose digest is that password's, login succeeds with that user's access token and stores the refresh token for them |
| Sessions.RegisterThenLogIn | src/main/java/ru/cazyx/semperante/learnProject/services/UserService.java:61-99 | registration succeeds exactly when no stored login or email clashes; after it, logging in with the same login and password succeeds for the new user, unless a stored email equals the login |
| Sessions.LoginThenDecode | src/main/java/ru/cazyx/semperante/learnProject/services/UserService.java:93-98 | a login's access token decodes to the logged-in user's id within five minutes, and its refresh token is in the ledger for that user |
| JwtFilter.ErrorBody | src/main/java/ru/cazyx/semperante/learnProject/config/filters/JwtFilter.java:90-92 | the body is { "message": " + message + "}, unescaped |
| JwtFilter.DoFilter | src/main/java/ru/cazyx/semperante/learnProject/config/filters/JwtFilter.java:55-95 | the chain runs unless the gate rejects; a resolved user is attached with their authorities; any exception, from the gate or downstream, writes its status (500 unless a ResponseStatusException) and JSON body, and a 500 prints the stack trace |
| JwtFilter.AnonymousPassesThrough | src/main/java/ru/cazyx/semperante/learnProject/config/filters/JwtFilter.java:57-59 | non-HTTP requests and missing or blank headers pass through with no identity |
| JwtFilter.ValidTokenAttachesUser | src/main/java/ru/cazyx/semperante/learnProject/config/filters/JwtFilter.java:60-65 | a live token of a stored user attaches that user |
| JwtFilter.RejectionReasons | src/main/java/ru/cazyx/semperante/learnProject/config/filters/JwtFilter.java:60-63 | a present header is 401 "Token is invalid" when decode fails, 401 "User not found" when its id is not stored, and attaches the user otherwise |
| SecurityConfig.RoleAuthorities | src/main/java/ru/cazyx/semperante/learnProject/config/SecurityConfig.java:84-87 | hasAnyRole / hasRole look for "ROLE_" + each role name |
| SecurityConfig.IdentityOf | src/main/java/ru/cazyx/semperante/learnProject/config/SecurityConfig.java:84-87 | a signed-in user's identity holds the authority of their role and no other role's |
| SecurityConfig.AnyDeepMatchesAll | src/main/java/ru/cazyx/semperante/learnProject/config/SecurityConfig.java:88 | the catch-all pattern matches every path |
| SecurityConfig.LiteralMatchesOnlyItself | src/main/java/ru/cazyx/semperante/learnProject/config/SecurityConfig.java:74-77 | a literal pattern matches only the path it spells |
| SecurityConfig.ContainsMatch | src/main/java/ru/cazyx/semperante/learnProject/config/SecurityConfig.java:83 | a double star on both sides of a literal matches exactly the paths containing that segment |
| SecurityConfig.UnderV1Match | src/main/java/ru/cazyx/semperante/learnProject/config/SecurityConfig.java:83-86 | the moderator and admin patterns match exactly the paths starting with v1 that contain the role segment later |
| SecurityConfig.PrefixMatch | src/main/java/ru/cazyx/semperante/learnProject/config/SecurityConfig.java:78-80 | the documentation patterns match exactly the paths starting with their segment |
| SecurityConfig.PermittedPaths | src/main/java/ru/cazyx/semperante/learnProject/config/SecurityConfig.java:73-81 | the permit list is exactly the four user routes and the three documentation prefixes |
| SecurityConfig.RolePathsNotPermitted | src/main/java/ru/cazyx/semperante/learnProject/config/SecurityConfig.java:73-87 | no moderator or admin route is on the permit list |
| SecurityConfig.PermitListOpen | src/main/java/ru/cazyx/semperante/learnProject/config/SecurityConfig.java:73-81 | permit-list routes are granted with or without an identity |
| SecurityConfig.ModeratorRoutes | src/main/java/ru/cazyx/semperante/learnProject/config/SecurityConfig.java:83-84 | moderator routes are granted exactly to identities holding ROLE_MODERATOR or ROLE_ADMIN |
| SecurityConfig.AdminRoutes | src/main/java/ru/cazyx/semperante/learnProject/config/SecurityConfig.java:86-87 | admin routes with no moderator segment are granted exactly to identities holding ROLE_ADMIN |
| SecurityConfig.OtherRoutes | src/main/java/ru/cazyx/semperante/learnProject/config/SecurityConfig.java:88 | every other route is granted exactly to a signed-in identity, whatever its role |
| SecurityConfig.RoleAccess | src/main/java/ru/cazyx/semperante/learnProject/config/SecurityConfig.java:83-87 | USER is refused on moderator routes; only ADMIN passes the admin-only routes |
| SecurityConfig.MeRoute | src/main/java/ru/cazyx/semperante/learnProject/controllers/UserController.java:42 | /v1/user/me is granted to any signed-in user and refused to anonymous callers |
| SecurityConfig.FirstMatchWins | src/main/java/ru/cazyx/semperante/learnProject/config/SecurityConfig.java:73-88 | the first matching rule decides: a path matching both role patterns is open to MODERATOR |
| SecurityConfig.MessageRoutes | src/main/java/ru/cazyx/semperante/learnProject/controllers/MessageController.java:86-101 | USER may neither edit nor delete messages, MODERATOR may edit only, ADMIN may do both |
| SecurityConfig.FilterBeforeRules | src/main/java/ru/cazyx/semperante/learnProject/config/SecurityConfig.java:90 | the JWT filter decides first: a bad token is a 401 even on the permit list, and an anonymous request is admitted exactly on the permit list |
| RegisterRequest.WordIsNotBlank | src/main/java/ru/cazyx/semperante/learnProject/dto/requests/RegisterRequest.java:18-20 | a login of word characters is never blank |
| RegisterRequest.ValidShape | src/main/java/ru/cazyx/semperante/learnProject/dto/requests/RegisterRequest.java:17-32 | a request is valid exactly when login is 3-16 word characters, email is non-empty and well formed, password is 8-16 characters and non-blank, the confirmation is non-blank and role is present |
| RegisterRequest.ViolationFields | src/main/java/ru/cazyx/semperante/learnProject/dto/requests/RegisterRequest.java:17-32 | every violation names one of the five fields |
| RegisterRequest.ConfirmationOnlyNotBlank | src/main/java/ru/cazyx/semperante/learnProject/dto/requests/RegisterRequest.java:28-29 | a valid request can have a confirmation longer than 16 characters and different from the password |
| RegisterRequest.BlankPasswordRejected | src/main/java/ru/cazyx/semperante/learnProject/dto/requests/RegisterRequest.java:25-27 | a password of eight spaces has an accepted length but fails @NotBlank |
| RegisterRequest.BadLoginsRejected | src/main/java/ru/cazyx/semperante/learnProject/dto/requests/RegisterRequest.java:19-20 | a two-character login fails @Size, and a login containing '-' fails @Pattern |
| Messages.MessageToResponse | src/main/java/ru/cazyx/semperante/learnProject/services/MessageService.java:111-113 | the response copies id, text and sentAt and takes the author's username (the login) and role |
| Messages.PrependInOrder | src/main/java/ru/cazyx/semperante/learnProject/services/MessageService.java:76 | an id listed before all of an ordered list can head it |
| Messages.NewestExists | src/main/java/ru/cazyx/semperante/learnProject/services/MessageService.java:76 | every non-empty set of messages has a newest one |
| Messages.NewestFirst | src/main/java/ru/cazyx/semperante/learnProject/services/MessageService.java:76 | the listing holds every message exactly once, newest sentAt first |
| Messages.NewestFirstDistinct | src/main/java/ru/cazyx/semperante/learnProject/services/MessageService.java:76 | no message is listed twice |
| Messages.PageIds | src/main/java/ru/cazyx/semperante/learnProject/services/MessageService.java:76 | page p of size l is listing entries p*l onwards, at most l of them, in listing order |
| Messages.SliceInOrder | src/main/java/ru/cazyx/semperante/learnProject/services/MessageService.java:76 | a page cut out of the newest-first listing keeps its order and lists only stored messages |
| Messages.PageContent | src/main/java/ru/cazyx/semperante/learnProject/services/MessageService.java:77 | each entry of the page is the response for the listed message |
| Messages.MessageService.constructor | src/main/java/ru/cazyx/semperante/learnProject/entities/UserMessage.java:18-21 | an empty table and the id sequence at 1 |
| Messages.MessageService.Create | src/main/java/ru/cazyx/semperante/learnProject/services/MessageService.java:53-57 | exactly one new message with the given text, by the signed-in user, stamped now, under a new id; an anonymous caller gives a 500 and no change |
| Messages.MessageService.GetMessages | src/main/java/ru/cazyx/semperante/learnProject/services/MessageService.java:69-78 | a negative page or a limit below 1 is an error; otherwise the page is the right slice of the newest-first listing, at most limit long, with the total counts |
| Messages.MessageService.DeleteMessage | src/main/java/ru/cazyx/semperante/learnProject/services/MessageService.java:85-88 | the message with that id goes, every other message stays |
| Messages.MessageService.Edit | src/main/java/ru/cazyx/semperante/learnProject/services/MessageService.java:97-103 | an unknown id gives 404 "Message not found" and no change; otherwise only the text changes and id, author and sentAt are kept |
| Messages.SlicesCover | src/main/java/ru/cazyx/semperante/learnProject/services/MessageService.java:76 | consecutive pages cover the listing: element k is entry k mod l of page k div l |
| Messages.PagesCoverListing | src/main/java/ru/cazyx/semperante/learnProject/services/MessageService.java:76 | paging through the table reaches every message |
| Messages.NewestHeadsFirstPage | src/main/java/ru/cazyx/semperante/learnProject/services/MessageService.java:76 | a message newer than all others heads the listing |
| ExceptionHandler.Entry | src/main/java/ru/cazyx/semperante/learnProject/config/ExceptionHandler.java:42-45 | a line is the name, ": ", then the message ("null" for a null message) |
| ExceptionHandler.FieldEntries | src/main/java/ru/cazyx/semperante/learnProject/config/ExceptionHandler.java:41-43 | one line per field error, in binding-result order |
| ExceptionHandler.GlobalEntries | src/main/java/ru/cazyx/semperante/learnProject/config/ExceptionHandler.java:44-46 | one line per global error, in binding-result order |
| ExceptionHandler.BuildResponseEntity | src/main/java/ru/cazyx/semperante/learnProject/config/ExceptionHandler.java:97-100 | the HTTP status is the ApiError's status and the body is the ApiError |
| ExceptionHandler.HandleMethodArgumentNotValid | src/main/java/ru/cazyx/semperante/learnProject/config/ExceptionHandler.java:34-48 | status 400, message "Validation error", and the field lines followed by the global lines |
| ExceptionHandler.ErrorCount | src/main/java/ru/cazyx/semperante/learnProject/config/ExceptionHandler.java:40-46 | the list has as many lines as field and global errors together |
| ExceptionHandler.ErrorOrder | src/main/java/ru/cazyx/semperante/learnProject/config/ExceptionHandler.java:41-46 | field lines come first and global lines after, each group in its own order |
| ExceptionHandler.FieldEntriesAppend | src/main/java/ru/cazyx/semperante/learnProject/config/ExceptionHandler.java:41-43 | one more field error appends exactly its line |

## Left out

- HMAC-SHA512, base64url and the JWT JSON encoding are abstract function values. `exp` is kept in milliseconds, not truncated to seconds. The library's own `exp` check is folded into the check of `JwtUtils.java:61`.
- BCrypt is an abstract `encode`/`matches` pair. `Consistent` (a password matches its own digest) is the only assumption about it, and only the login-success methods use it.
- `JwtUtils.Decode`: the model assumes that the library's own `exp` check inside `verify` accepts the same instants as the check at `JwtUtils.java:61`, so a token is accepted up to and including its `exp` (`DecodeEncode`). The library's version is not pinned, and a release that refuses a token already at `exp` would refuse that one instant too.
- `JavaLong.ParseLong` accepts ASCII digits only. `Long.parseLong` also accepts other Unicode decimal digits (through `Character.digit`); those are not modelled.
- The UUID pair of `generateRefreshToken` is the `freshToken` parameter. Uniqueness is not assumed; a colliding token overwrites the row, as `save` would.
- Clock reads (`System.currentTimeMillis`, `new Date()`, `CURRENT_TIMESTAMP`, the `@CreationTimestamp` of `UserMessage.sentAt`) are the `now` parameter.
- `LearnUser.registeredAt` (`entities/LearnUser.java:83-84`, set by `@CreationTimestamp`) is not a field of the model, and `Register` takes no clock. No operation of the core reads it.
- `JwtFilter.DoFilter` models one invocation. The filter is a plain `GenericFilterBean` annotated `@Component`, so Spring Boot may also register it with the servlet container besides the security chain, and it may then run twice on one request. That second pass is not modelled.
- Concurrency, transaction isolation and the `@Scheduled` timer of `SchedulerConfig` are not modelled. Only sequential calls are; the timer's effect is `DeleteExpired`.
- `TokenRepository.RefreshTokenRepository.DeleteById`: on an absent key the table is unchanged, and no claim is made about whether Spring Data throws there.
- `UserRepository.SingleResult`: more than one matching row is a `Fault`. Its message stands in for Spring's IncorrectResultSizeDataAccessException text. Unique logins and unique emails do not rule this case out: a login can equal another user's email, and register's lookup can match one user by login and another by email (`Sessions.CrossClashIsAFault`).
- `Messages.MessageService.DeleteMessage`: on an absent id the table is unchanged, and no claim is made about whether Spring Data throws there.
- `UserRepository.Lower` folds ASCII letters only; the database's full Unicode `lower()` is not modelled.
- `SecurityConfig.Match`:
  - paths are given already split into their non-empty segments;
  - only literal segments and whole-segment `**` are modelled (the rest of AntPathMatcher is not);
  - a denial is `Denied`, and the HTTP status the framework writes for it is not modelled.
- `RegisterRequest.IsEmail` takes the `@Email` grammar as a parameter. `@Size` counts characters, not UTF-16 units. The default constraint messages are not modelled.
- `Messages.NewestFirst` breaks ties on equal `sentAt` by the larger id first. The database's order for ties is unspecified.
- `Messages.MessageService.GetMessages`: the PageRequest error texts stand in for Spring Data's IllegalArgumentException messages. Entity ids and the Java `int`/`long` widths of ids, page and limit are unbounded integers.
- `Sessions.UserService.Register` takes the validated fields of the request, not the record. `@Valid` in the controller rejects null fields before the service runs.
- `JwtFilter.DoFilter` models what the rest of the chain does as a `ChainOutcome` (returns or throws). Writes made downstream are not modelled.
- The entity setters of `LearnUser` and `UserMessage` are not modelled separately. `Edit` models the one use of `setMessage`.
- `ApiError`'s setters are not modelled, since the handler never calls them.
- Controllers, CORS, Swagger annotations and the DTO records are carriers only. They appear as datatypes or not at all.
