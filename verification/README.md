# Verification of the authentication server's protocol core

This project models the parts of the authentication server and of its admin UI whose correctness
rests on an argument over many steps, and proves properties of them in Dafny. `dafny verify
dfyconfig.toml` checks everything.

Times in the SAML and JWKS models are integers in nanoseconds, the resolution of the clock that the
code reads; whole seconds are floor divisions, as `timestamp()` makes them. App-role and app-token
times are whole seconds. Integers are unbounded. A clock reading, a fresh random id, the iteration
order of a hash map and the answer of a library or a remote host are parameters of the operation
that uses them, so every theorem holds for all of them.

| area | files |
|---|---|
| SAML sign-in: stores, backends, validation, the step machine, the endpoints | `RequestStore`, `MySqlRequestStore`, `RedisKeys`, `RedisRequestStore`, `SamlAssertion`, `ResponseValidation`, `SamlLogin`, `RedisLogin`, `MySqlLogin`, `SamlEndpoints` |
| From assertion to token: identity mapping, claims, reserved names, markup | `IdentityMapping`, `ClaimPolicy`, `ClientClaims`, `HashMaps`, `SpMetadata` |
| Administration and credentials | `AdminEndpoints`, `AppSecretIds`, `AppTokens` |
| Certificates in the admin UI | `Der`, `CertificateTime`, `X509` |
| The JWKS cache | `Jwks` |

Code that changes state is a class or a method with loops, proved equal to a specification function;
what the repository promises is then proved of that function, for single calls, for every run of the
state machine, or for every interleaving of concurrent transactions.

## What the proofs show about the code

Where a promise does not hold of the code as it stands, the model follows the code, a lemma says
exactly when it holds, and a witness shows an input or a run on which it does not.

- **Replay table.** `ensure_unexpired` reads the clock before the insert runs. Over the SQL tables an
  assertion id is recorded twice exactly when, after it was recorded, a purge forgets its row and a post
  that passed the expiry check before then inserts it (`SamlLogin.AtMostOnceExactlyWhen`); over Redis
  exactly when its marker lapses before such an insert (`RedisLogin.AtMostOnceExactlyWhen`). Such runs
  exist over both (`SamlLogin.LateInsertRecordsTwice`, `RedisLogin.LateInsertRecordsTwice`). Over SQL none
  does among the runs in which the reading and the insert are one step
  (`SamlLogin.RecordedAtMostOncePerReading`). In every run over every backend no assertion opens two
  sessions, because pending requests are single-use (`SamlLogin.NoAssertionOpensTwoSessions`,
  `RedisLogin.RedisSignInsAreSafe`, `MySqlLogin.MySqlSignInsAreSafe`).
- **Realm ids in Redis keys.** Requests that are stored never share a key, but a posted RelayState is
  any text. On Redis a take answers another realm's request exactly when that realm's id is the posted
  realm's, a `:` and a text that the RelayState puts before the request's id
  (`RedisRequestStore.AnswersAnotherRealmExactly`, `RedisRequestStore.RelayStateTakesAnotherRealm`). Over
  whole runs, posts take requests of their own realm exactly when no take does that
  (`RedisLogin.PostsTakeTheirOwnRealmsExactlyWhen`), and the backends reply alike exactly when none does
  (`RedisRequestStore.BackendsDifferExactlyWhen`). The CHECK on PostgreSQL and MySQL excludes such realm
  ids; the GLOB pattern on SQLite only constrains the first character
  (`RedisKeys.OnlyTheGlobCheckConfuses`).
- **App-token renewal.** A renewal reads the clock before its UPDATE runs. An expiry decreases exactly when
  a renewal takes effect after one that read the clock later (`AppTokens.ExpiriesDecreaseExactlyWhen`),
  and an expired token is found again exactly when a renewal that read the clock before the expiry takes
  effect after it and sets one still ahead (`AppTokens.DeadTokensReturnExactlyWhen`). Both happen
  (`AppTokens.LateRenewalLowersTheExpiry`, `AppTokens.LateRenewalRevives`); neither does when renewals take
  effect at their readings (`AppTokens.PromptRenewalsAreMonotone`). Revocation is final in every run.
- **Certificate dates.** `Date.UTC` takes the years 0 to 99 for 1900 to 1999, so a GeneralizedTime
  of the year 99 reads as later than one of the year 100 (`CertificateTime.YearsBelow100AreOutOfOrder`),
  and 0000-02-29, whose year is then no leap year, reads as 1900-03-01
  (`CertificateTime.LeapDayIsNotInOrder`). `CertificateTime.ReadTimeIsMonotone` says of any two dates
  whether their order is kept.
- **JWKS documentation.** It says that a lookup which misses refreshes and searches again; the second
  search is of the snapshot taken before the refresh (`Jwks.AnswersComeFromTheCacheBefore`). It says
  that the cache keeps its data when all refreshes fail; the code replaces it
  (`Jwks.KnownKeyIsLostExactlyWhen`).
- **JWKS throttling.** A lookup decides by a snapshot of the cache. The fetches of a realm are further
  apart than its interval exactly in the runs in which, for each lookup that fetches, neither a fetch that
  was under way at its snapshot nor anything that happened to the realm since lies within the interval
  (`Jwks.FetchesAreSpacedExactlyWhen`). Two lookups at one moment, or one with an old snapshot, break it
  (`Jwks.OverlappingLookupsBothFetch`, `Jwks.StaleSnapshotFetchesAgain`); lookups that do not overlap never
  do (`Jwks.SerialRunsAreSpaced`).
- **Claimed realms.** In runs in which none of its admins acts, a claimed realm keeps them exactly if no
  super admin deletes the realm (`AdminEndpoints.ClaimedRealmIsItsAdmins`,
  `AdminEndpoints.DeletionEmptiesARealm`).

## Model

| member | source | states |
|---|---|---|
| RequestStore.TakeIsSingleUse | server/src/saml/request_store.rs:36-43 | a take answers exactly the unexpired request of that id and realm, removes it and nothing else, and a take that answers nothing changes nothing |
| RequestStore.PurgeIsInvisible | server/src/saml/impls/sqlite.rs:167-186 | no take and no record with its key's own expiry can tell whether an earlier purge ran |
| RequestStore.SqlRequestStore.StorePendingRequest | server/src/saml/impls/sqlite.rs:79-96 | refuses exactly an expired request or a used id, each with its error, and otherwise adds one row |
| RequestStore.SqlRequestStore.TakePendingRequest | server/src/saml/impls/sqlite.rs:98-142 | DELETE ... RETURNING in one step: answers and removes exactly the unexpired row of that id and realm |
| RequestStore.SqlRequestStore.RecordAssertionId | server/src/saml/impls/sqlite.rs:144-165 | true exactly for an unexpired key that is not in the table, which it adds; an existing row is left as it is |
| RequestStore.SqlRequestStore.DeleteExpiredRows | server/src/saml/impls/postgres.rs:164-183 | keeps exactly the rows of both tables whose expiry lies ahead |
| MySqlRequestStore.InterleavingIsAtomic | server/src/saml/impls/mysql.rs:111-161 | every interleaving of begin, SELECT FOR UPDATE, DELETE, commit, abort, inserts and purges replies as one order of atomic operations that leaves the same table, and each committed transaction is one entry of it |
| MySqlRequestStore.AtMostOneTransactionTakes | server/src/saml/impls/mysql.rs:111-161 | of any number of concurrent transactions at most one returns a request that was stored once |
| MySqlRequestStore.TakesAreStored | server/src/saml/request_store.rs:36-43 | conservation: requests handed out and requests left never outnumber those put in |
| MySqlRequestStore.MySqlSamlRequestStore.TakePendingRequest | server/src/saml/impls/mysql.rs:111-161 | alone, the transaction is the atomic take and releases its lock |
| MySqlRequestStore.UnhinderedTakeCommits | server/src/saml/impls/mysql.rs:111-161 | among any other open transactions, one whose row is not locked goes through as the atomic take and leaves every lock as it was |
| MySqlRequestStore.HinderedTakeWaits | server/src/saml/impls/mysql.rs:111-161 | one whose row is locked has done nothing yet |
| RedisKeys.SeenKeyIsInjective | server/src/saml/impls/redis.rs:32-35 | the decimal length prefix keeps any two (realm, assertion id) pairs apart |
| RedisKeys.PendingKeyCollision | server/src/saml/impls/redis.rs:28-30 | exactly which (realm, request id) pairs share a key |
| RedisKeys.PendingKeyIsInjective | server/src/database/impls/postgres.rs:31 | injective over realm ids without a colon, as the CHECK demands, and over request ids without one |
| RedisKeys.StoredKeysAreApart | server/src/saml/authn_request.rs:13-15 | requests under generated ids never share a key, whatever their realms are called |
| RedisKeys.RelayStateReachesExactly | server/src/saml/impls/redis.rs:28-30 | exactly which posted text reaches the key of another realm's generated request id |
| RedisKeys.OnlyTheGlobCheckConfuses | server/src/database/impls/sqlite.rs:54 | realm ids that pass the regular expression of the other backends are never confused; the GLOB pattern admits two that are, for every request id |
| RedisKeys.FamiliesAreDisjoint | server/src/saml/impls/redis.rs:28-35 | no pending key is a seen key |
| RedisKeys.SampleKeys | server/src/saml/impls/redis.rs:28-35 | a key of each family, written out |
| RedisRequestStore.BackendsDifferExactlyWhen | server/src/saml/impls/redis.rs:47-112 | on every sequence of calls with fresh ids that are not confused with each other and one expiry per assertion id, Redis (time-to-live, recheck after GETDEL) and SQL (rows kept until purged) reply differently exactly when some take names, under another realm or id, the key of a stored, untaken, unexpired request |
| RedisRequestStore.GeneratedIdsAreNotConfused | server/src/saml/authn_request.rs:13-15 | stored requests under generated ids are never confused with each other |
| RedisRequestStore.BackendsAgree | server/src/saml/impls/redis.rs:47-112 | a corollary: they give the same replies wherever no take is confused with a stored request |
| RedisRequestStore.ColonFreeCallsAreNotConfused | server/src/database/impls/mysql.rs:36 | no keys are confused where all realm ids, or all request ids stored and posted, are without a colon |
| RedisRequestStore.BackendsDifferOnATakeExactly | server/src/saml/impls/redis.rs:61-89 | exactly when a stored request and a take get different replies from the backends |
| RedisRequestStore.BackendsDifferOnASecondExpiryExactly | server/src/saml/impls/redis.rs:91-112 | exactly when two records of one assertion id, with any two expiries and a purge in between, get different replies |
| RedisRequestStore.AnswersAnotherRealmExactly | server/src/saml/request_store.rs:36-43 | exactly when a take answers a request of a realm other than the one it names |
| RedisRequestStore.RelayStateTakesAnotherRealm | server/src/saml/impls/redis.rs:61-89 | with a realm whose id continues another's after a colon, one posted RelayState takes its request on Redis and nothing on SQL |
| RedisRequestStore.OperationsKeepItWellFiled | server/src/saml/impls/redis.rs:47-112 | every operation keeps pending requests under their own keys |
| RedisRequestStore.RedisSamlRequestStore.StorePendingRequest | server/src/saml/impls/redis.rs:47-59 | SET EX under the pending key, with a deadline at the remaining whole seconds; an expired request is refused |
| RedisRequestStore.RedisSamlRequestStore.TakePendingRequest | server/src/saml/impls/redis.rs:61-89 | GETDEL removes a live key whatever it holds; the request is answered only if it has not expired, and a dead key answers nothing |
| RedisRequestStore.RedisSamlRequestStore.RecordAssertionId | server/src/saml/impls/redis.rs:91-112 | SET NX EX: true exactly when no live key was there, and then a marker with its deadline is |
| ResponseValidation.RequireAudience | server/src/saml/response_validation.rs:136-153 | succeeds exactly when there is an audience restriction and every one names this service provider (section 2.5.1.4 of SAMLCore) |
| ResponseValidation.RetentionOutlivesAcceptance | server/src/saml/response_validation.rs:45-56 | an assertion that passes the age check is not refused as expired at the same reading, and its id is remembered past its acceptance by at most a second |
| ResponseValidation.RoundingUpIsNeeded | server/src/saml/response_validation.rs:52-54 | without the extra second some accepted assertion is refused by the store, exactly when the limit is not a whole second |
| ResponseValidation.AcceptedExactlyWhen | server/src/saml/response_validation.rs:27-58 | the complete condition for acceptance, what is recorded then, and that a rejected response leaves no trace |
| ResponseValidation.RejectionsNameTheirReason | server/src/saml/response_validation.rs:27-58 | each error is given exactly when its check is the first to fail |
| ResponseValidation.ValidateSamlResponse | server/src/saml/response_validation.rs:27-58 | the steps in code order equal the specification that AcceptedExactlyWhen characterises |
| SamlLogin.SessionsMapInjectivelyToLogins | server/src/saml/endpoints.rs:79-230 | in every interleaving of statements and older clock readings each session answers one login of the same realm, less than 600 s before the reading of its take, never twice, and continues to the URL that login stored |
| SamlLogin.LoginsAreSteps | server/src/saml/endpoints.rs:79-105 | the logins sessions map to are login requests that were made, with their own realm and URL |
| SamlLogin.NoAssertionOpensTwoSessions | server/src/saml/endpoints.rs:186-230 | no assertion opens two sessions in any run, however late inserts into the replay table are |
| SamlLogin.RecordedTwiceOnlyAfterRetention | server/src/saml/response_validation.rs:45-56 | a second record of one id in a realm comes after both its retention and its acceptance have ended, although rows are purged |
| SamlLogin.RecordedTwiceExactlyWhen | server/src/saml/request_store.rs:64-72 | an id is recorded twice exactly when a purge forgets it after it was recorded and a post past the expiry check then inserts it |
| SamlLogin.AtMostOnceExactlyWhen | server/src/saml/request_store.rs:45-56 | exactly in which runs every id is recorded at most once and opens at most one session |
| SamlLogin.WholePurge | server/src/saml/impls/sqlite.rs:167-186 | a purge step that names all rows is the purge of both tables |
| SamlLogin.RecordedAtMostOnce | server/src/saml/request_store.rs:45-56 | a corollary: an id is recorded at most once per realm and IssueInstant when inserts come before the retention ends |
| SamlLogin.RecordedAtMostOncePerReading | server/src/saml/impls/sqlite.rs:144-186 | a corollary: at most once for every schedule in which the expiry check and the insert are one step |
| SamlLogin.LateInsertRecordsTwice | server/src/saml/request_store.rs:64-72 | a run with a delayed insert that records one id twice |
| RedisLogin.RedisRunsAreRunsExactlyWhen | server/src/saml/impls/redis.rs:47-112 | a run over Redis, with its times-to-live and late commands, has the logins, posts and records of some run over the SQL tables exactly when no take of it reaches another realm's live, unexpired request |
| RedisLogin.RedisSignInsAreSafe | server/src/saml/endpoints.rs:79-230 | in every run over Redis sessions answer logins one to one with their return URLs, no assertion opens two, and ids repeat only after their retention, never when inserts are in time |
| RedisLogin.StepsAreCalls | server/src/saml/impls/redis.rs:47-89 | a login and a take of the machine that run at their readings are the calls of the store: logins are exactly the stored requests, posts exactly the answered ones |
| RedisLogin.RecordIsACall | server/src/saml/impls/redis.rs:91-112 | likewise for the record of a post: it goes on exactly when the store calls its assertion new |
| RedisLogin.PostsTakeTheirOwnRealmsExactlyWhen | server/src/saml/impls/redis.rs:61-89 | exactly in which runs over Redis every post takes a request of its own realm |
| RedisLogin.AtMostOnceExactlyWhen | server/src/saml/impls/redis.rs:91-112 | exactly in which runs over Redis every id is recorded at most once: the marker of none lapses before a waiting insert |
| RedisLogin.LateInsertRecordsTwice | server/src/saml/impls/redis.rs:91-112 | a run over Redis with a delayed insert that records one id twice |
| MySqlLogin.MySqlRunsAreRuns | server/src/saml/impls/mysql.rs:92-195 | every run over MySQL, its takes split into the statements of their transactions, has the committed state, logins, posts and records of a run with atomic takes |
| MySqlLogin.RunsAreMySqlRuns | server/src/saml/impls/mysql.rs:92-195 | conversely every run with atomic takes and whole purges is one of MySQL, with the same committed state, logins, posts and records |
| MySqlLogin.MySqlSignInsAreSafe | server/src/saml/endpoints.rs:79-230 | so the whole-run theorems, the realm among them, hold over MySQL |
| SamlEndpoints.ValidateReturnUrls | server/src/saml/params_validation.rs:249-285 | accepts exactly https origins, with an https default under one of them |
| SamlEndpoints.ResolvedUrlIsAllowed | server/src/saml/endpoints.rs:248-268 | without return_to the default; a return_to is answered as it was parsed exactly if it is an https URL under an allowed origin without credentials, and refused otherwise, never replaced; under accepted settings no other URL results |
| SamlEndpoints.SamlLogin | server/src/saml/endpoints.rs:79-105 | succeeds exactly for an existing realm, a URL that may be asked for, an unused id, an unexpired request and a redirect that can be signed; the request it stores has the fresh id, the realm, the URL that was asked for and 600 s to live, is one login step of the machine, and is stored already when signing fails |
| SamlEndpoints.FreshIdsAreUnused | server/src/saml/endpoints.rs:87 | in every run the id of a new login is not in the table |
| SamlEndpoints.SignInSucceedsExactlyWhen | server/src/saml/endpoints.rs:186-230 | a post succeeds exactly when cookie, pending request, response, replay table and identity mapping all agree |
| SamlEndpoints.SignInAnswersWhatWasAsserted | server/src/saml/endpoints.rs:186-230 | a post that succeeds answers the pending request stored under its RelayState, the assertion that `samael` verified for it, and the identity this assertion states: its subject, its roles, its mapped attributes |
| SamlEndpoints.RefusalsNameTheirReason | server/src/saml/endpoints.rs:186-230 | each refusal before validation is given exactly when its check is the first to fail |
| SamlEndpoints.AnyPostUsesUpItsRequest | server/src/saml/endpoints.rs:202-206 | a post that reached a pending request removes it, whether it succeeds or not; earlier refusals change nothing |
| SamlEndpoints.ConsumeResponse | server/src/saml/endpoints.rs:186-230 | one post answers what was asserted for its login, equals its specification, and is one path of the machine, with a session exactly when it answers with one |
| IdentityMapping.ValuesAreAsserted | server/src/saml/identity_mapping.rs:85-96 | an attribute's values are the non-empty ones asserted under its name in any statement |
| IdentityMapping.ValuesAreInOrder | server/src/saml/identity_mapping.rs:85-96 | and they are listed as they are stated: statement by statement, attribute by attribute, value by value |
| IdentityMapping.SubjectIsAsserted | server/src/saml/identity_mapping.rs:20-35 | a subject is found exactly when the subject attribute has one value, or there is a NameID that is not transient; it is that text, never empty, and the only value asserted |
| IdentityMapping.FirstOccurrencesAre | server/src/saml/identity_mapping.rs:40-47 | roles are without duplicates, have the elements of the attribute's values, and are in first-occurrence order |
| IdentityMapping.MapIdentity | server/src/saml/identity_mapping.rs:19-66 | the loops compute the specified identity, and it is what the assertion says: subject, roles in first-occurrence order, and each mapped attribute as its text or the list of its texts |
| IdentityMapping.MappedExactlyWhen | server/src/saml/identity_mapping.rs:19-66 | an assertion maps to an identity exactly when it has a subject and its extra claims take at most 4096 bytes; each error is given exactly when its rule fails |
| IdentityMapping.ClaimsAre | server/src/saml/identity_mapping.rs:49-57 | extra claims hold an entry for each mapped attribute with a value, each from such an attribute |
| IdentityMapping.OrderIsIrrelevantExactly | server/src/saml/identity_mapping.rs:49-57 | the extra claims do not depend on hash-map order exactly when attributes sharing a claim do not differ in value |
| IdentityMapping.ValidateIdentityMapping | server/src/saml/params_validation.rs:206-247 | accepts exactly non-blank, unshared, unreserved claim names with a subject attribute where NameIDs are transient, and reports which rule failed |
| IdentityMapping.MappingIgnoresIterationOrder | server/src/saml/params_validation.rs:228-242 | under accepted settings the identity is the same for all iteration orders, one claim per mapped attribute with a value |
| IdentityMapping.AdvertisedTransientIsNeverUsed | server/src/saml/params_validation.rs:207-216 | where transient NameIDs are advertised, the subject comes from the subject attribute |
| IdentityMapping.UniquenessIsNeeded | server/src/saml/params_validation.rs:228-242 | claim names are unique exactly when no assertion's claims depend on iteration order |
| IdentityMapping.ReservedCheckIsNeeded | server/src/saml/params_validation.rs:243-246 | no claim name is reserved exactly when no assertion maps to claims that a token would lose |
| IdentityMapping.MappedIdentitiesSurvive | client/src/models/client_claims.rs:177-198 | every identity mapped without reserved names gives lossless tokens with unique claim names |
| IdentityMapping.TokenSaysWhatWasAsserted | server/src/session/jwt.rs:95-129 | under accepted settings the token of a mapped identity reads back as the asserted subject, roles and attribute values, for this realm and scheme and from now to the end of the session |
| IdentityMapping.TokenClaimsAre | server/src/session/jwt.rs:95-129 | the session token entry by entry: which name carries the subject, the issue and expiry times, the roles, the scheme and the realm, and that nothing else is in it but the extra claims |
| ClientClaims.FlatteningIsLossless | client/src/models/client_claims.rs:177-198 | writing typed and extra claims into one object and splitting it again is the identity exactly when no extra claim has a typed name |
| ClientClaims.NamesAreUnique | client/src/models/client_claims.rs:160-198 | claim names are unique (section 4 of RFC 7519) exactly when no extra claim has the name of a typed claim that is set |
| ClaimPolicy.AudienceRoundTrip | client/src/models/client_claims.rs:16-61 | a list of audiences reads back as itself, a single string as a list of one |
| ClaimPolicy.SessionRoundTrip | client/src/models/client_claims.rs:177-198 | session claims read back exactly when no extra claim is named like a session claim |
| ClaimPolicy.CertificateRoundTrip | client/src/models/certificate_claims.rs:13-43 | certificate claims read back exactly when no extra claim is named like a certificate claim |
| ClaimPolicy.SessionIsWritten | client/src/models/client_claims.rs:160-198 | which session claim goes under which name |
| ClaimPolicy.CertificateIsWritten | client/src/models/certificate_claims.rs:13-43 | which certificate claim goes under which name |
| ClaimPolicy.SessionReadsExactlyWhen | client/src/models/client_claims.rs:160-198 | session claims are read exactly from objects in which no typed name repeats and every typed claim has its type |
| ClaimPolicy.CertificateReadsExactlyWhen | client/src/models/certificate_claims.rs:13-43 | likewise for certificate claims, none of which but the subject may be missing |
| ClaimPolicy.ReservedClaimNames | client/src/models/claim_policy.rs:26-62 | the keys of two fully populated samples are the names of all typed claims, no more and no fewer |
| ClaimPolicy.RejectReservedClaimNames | client/src/models/claim_policy.rs:75-87 | accepts exactly lists without reserved names, and names the first one otherwise |
| ClaimPolicy.PolicyIsExact | client/src/models/claim_policy.rs:13-25 | extra claims pass the policy exactly when every session and every certificate carrying them reads back |
| ClaimPolicy.SessionNamesAreUnique | client/src/models/client_claims.rs:160-198 | accepted extra claims keep the names in a session token unique |
| SpMetadata.FiveReplacesAreOnePass | server/src/saml/sp_metadata.rs:45-51 | the five whole-string replaces equal one pass that escapes each character on its own |
| SpMetadata.EscapedIsSafe | server/src/saml/sp_metadata.rs:45-51 | no angle bracket or quote is left and every ampersand begins one of the five entities |
| SpMetadata.UnescapeRestores | server/src/saml/sp_metadata.rs:45-51 | resolving the entities gives the text back |
| AdminEndpoints.ListingAgreesWithGetting | server/src/server/endpoints/admin_endpoints.rs:228-262 | an admin is listed exactly when it can be got, which is when the requester owns it, and in the order of the table |
| AdminEndpoints.HelpersDecideManaging | server/src/server/endpoints/mod.rs:73-124 | the authorization helpers decide exactly this: a realm is its admins' to manage, and a realm without admins the super admins' |
| AdminEndpoints.ChangesAreManaged | server/src/server/endpoints/admin_endpoints.rs:55-372 | a step changes the admins of a realm only if its caller may manage that realm then, or deletes it as super admin |
| AdminEndpoints.ClaimedRealmIsItsAdmins | server/src/server/endpoints/mod.rs:73-124 | over whole runs in which none of its admins acts, a claimed realm has the same admins in every state exactly if no super admin deletes it |
| AdminEndpoints.DeletionEmptiesARealm | server/src/server/endpoints/super_admins_endpoints.rs:172-195 | deletion by a super admin leaves the realm without admins |
| AdminEndpoints.OnlySuperAdminsClaim | server/src/server/endpoints/mod.rs:73-124 | a realm without admins gets its first one only by a super admin's step |
| AdminEndpoints.UnclaimedRealmStaysUnclaimed | server/src/server/endpoints/mod.rs:73-124 | over whole runs in which no super admin acts, a realm without admins has none in any state |
| AdminEndpoints.SuperAdminsCanClaim | server/src/server/endpoints/admin_endpoints.rs:55-85 | a super admin's create for an existing realm without admins succeeds and claims it |
| AdminEndpoints.OnlySuperAdminsChangeSuperAdmins | server/src/server/endpoints/admin_endpoints.rs:3-18 | the set of super admins changes only by a super admin's step |
| AdminEndpoints.NoSuperAdminEverAgain | server/src/server/endpoints/admin_endpoints.rs:3-18 | once there is no super admin, no run makes one |
| AdminEndpoints.CreateExactly | server/src/server/endpoints/admin_endpoints.rs:55-85 | who may create an admin with which realms, each refusal, that it then administers exactly those, and what a half-failed write stores |
| AdminEndpoints.DeleteExactly | server/src/server/endpoints/admin_endpoints.rs:178-220 | who may delete whom, each refusal and the answer for a missing id, and that nobody else loses a membership |
| AdminEndpoints.CreateRealmExactly | server/src/server/endpoints/super_admins_endpoints.rs:54-79 | only super admins create realms, which then have no admins |
| AdminEndpoints.DeleteRealmExactly | server/src/server/endpoints/super_admins_endpoints.rs:172-195 | a realm is deleted exactly by its own admins or a super admin; it and its memberships go, and nothing else |
| AdminEndpoints.AddExactly | server/src/server/endpoints/admin_endpoints.rs:280-332 | who may add whom to which realm, each refusal, that exactly this membership is gained, and that refusals change nothing |
| AdminEndpoints.RemoveExactly | server/src/server/endpoints/admin_endpoints.rs:334-372 | who may remove whom, each refusal, and that exactly this membership is lost |
| AdminEndpoints.UpdateExactly | server/src/server/endpoints/admin_endpoints.rs:124-176 | when an update succeeds, its exact effect, and the bounds on one that fails half way |
| AdminEndpoints.MembershipsAreOfRealms | server/src/database/impls/sqlite.rs:803-875 | memberships name existing realms, each once, in every reachable state |
| AdminEndpoints.AdminApi.PutAdmin | server/src/database/impls/sqlite.rs:803-862 | rows are inserted one at a time and the first bad one stops the write there |
| AdminEndpoints.AdminApi.CreateAdmin | server/src/server/endpoints/admin_endpoints.rs:55-85 | the checks in code order equal the specification of a create step |
| AdminEndpoints.AdminApi.UpdateAdmin | server/src/server/endpoints/admin_endpoints.rs:124-176 | likewise for an update |
| AdminEndpoints.AdminApi.DeleteAdmin | server/src/server/endpoints/admin_endpoints.rs:178-220 | likewise for a delete, with the different answers to super and other admins for a missing id |
| AdminEndpoints.AdminApi.AddAdminToRealm | server/src/server/endpoints/admin_endpoints.rs:280-332 | likewise for adding to a realm |
| AdminEndpoints.AdminApi.RemoveAdminFromRealm | server/src/server/endpoints/admin_endpoints.rs:334-372 | likewise for removing from a realm |
| AdminEndpoints.AdminApi.ListAdmins | server/src/server/endpoints/admin_endpoints.rs:228-262 | the one-pass filter with precomputed claims keeps exactly the admins the per-target check keeps, in order |
| AppSecretIds.UsesAreConserved | server/src/database/impls/postgres.rs:1246-1303 | for all concurrent runs, uses consumed plus uses left equal those granted while the row lives, at least one is left, and there are never more consumes than uses granted |
| AppSecretIds.ConsumesAreAuthorised | server/src/database/impls/sqlite.rs:1182-1345 | each consume is of a secret created before for that role and hash, unexpired at its reading, and not gone by destroy or with its role, re-created or not |
| AppSecretIds.CommitIsAtomic | server/src/database/impls/mysql.rs:1288-1336 | a committing transaction consumes the row as it is then, as one atomic consume does |
| AppSecretIds.AnswersAreConsumes | server/src/database/impls/postgres.rs:1246-1294 | every call that answered an accessor is one of the counted consumes |
| AppSecretIds.EachCallConsumesOnce | server/src/database/impls/postgres.rs:1246-1303 | in every concurrent run one call consumes at most one use, by a clock reading that had been made |
| AppSecretIds.AloneACallConsumes | server/src/database/impls/sqlite.rs:1269-1336 | from any state with no open call, a call for a usable secret goes through: one use less, its accessor answered, one event |
| AppSecretIds.AloneACallMisses | server/src/database/impls/sqlite.rs:1269-1336 | and one without a usable secret answers nothing and changes nothing |
| AppSecretIds.AbortsChangeNothing | server/src/database/impls/postgres.rs:1246-1303 | an abort at any moment takes no use, and leaves answers that were given |
| AppSecretIds.WritersWait | server/src/database/impls/sqlite.rs:1182-1345 | which statements wait while a call is open, under SQLite's lock and under row locks |
| AppSecretIds.AloneStatementsTakeEffect | server/src/database/impls/sqlite.rs:1182-1345 | with no open call, what creating and deleting roles, creating and destroying secrets do, in full |
| AppSecretIds.SqliteDatabase.ConsumeSecretId | server/src/database/impls/sqlite.rs:1269-1336 | consumes one use of one unexpired secret of that role and hash if there is one, the row going with its last use, and otherwise nothing happens |
| AppSecretIds.SqliteDatabase.DestroySecretId | server/src/database/impls/sqlite.rs:1338-1345 | afterwards no call for the role can consume the secret, and every other secret and role is as before |
| AppSecretIds.DestroyedForEver | server/src/database/impls/sqlite.rs:1338-1345 | in every concurrent run no consume of a secret follows its destruction |
| AppTokens.DeadIsNotFound | server/src/database/impls/sqlite.rs:1104-1170 | revoked and expired tokens are exactly those not found, and a renewal that reads the clock then refuses them |
| AppTokens.TokensEvolve | server/src/database/impls/sqlite.rs:1084-1178 | over any run, renewals delayed or not, a revoked token never comes back, the expiry 0 is never entered or left, and nothing but a renewable token's expiry changes |
| AppTokens.RevokedForEver | server/src/database/impls/sqlite.rs:1172-1178 | after a revocation no run makes a lookup or a renewal succeed, at any clock reading |
| AppTokens.ExpiriesDecreaseExactlyWhen | server/src/database/impls/sqlite.rs:1135-1170 | a token's expiry never decreases exactly in the runs in which no renewal takes effect after one that read the clock later |
| AppTokens.DeadTokensReturnExactlyWhen | server/src/database/impls/sqlite.rs:1135-1170 | a dead token stays dead exactly in the runs in which no renewal that read the clock before the expiry sets, after it, an expiry still ahead |
| AppTokens.PromptRenewalsAreMonotone | server/src/database/impls/sqlite.rs:1135-1170 | when renewals take effect at their readings, expiries never decrease and dead tokens stay dead |
| AppTokens.LateRenewalLowersTheExpiry | server/src/database/impls/sqlite.rs:1135-1152 | a run with a delayed renewal that lowers an expiry |
| AppTokens.LateRenewalRevives | server/src/database/impls/sqlite.rs:1135-1152 | a run with a delayed renewal after which an expired token is found |
| AppTokens.TtlIsWithinLease | server/src/middleware/app_token_extract.rs:46-61 | the lifetime reported for an expiring token that a lookup found at this or an older reading is what is left of it, between 0 and its lease, and after a renewal the lease less the age of its reading |
| AppTokens.FoundExactlyWithinLease | server/src/server/endpoints/mod.rs:131-165 | a token with a lease is found at exactly the readings before the lease after the reading of its issue or last renewal |
| AppTokens.AppTokenStore.IssueAppToken | server/src/server/endpoints/mod.rs:131-165 | a new token has the given entity, policies, lease and renewability, and expires its lease after its issue, or never for a lease of 0 or less; a known hash is refused |
| AppTokens.AppTokenStore.LookupAppToken | server/src/database/impls/sqlite.rs:1104-1133 | finds exactly tokens without expiry or with one ahead, as they are stored |
| AppTokens.AppTokenStore.RenewAppToken | server/src/database/impls/sqlite.rs:1135-1170 | succeeds exactly for a renewable token without expiry, which it leaves alone, or with one ahead, which it moves to the lease after the reading; it changes nothing else |
| AppTokens.AppTokenStore.RevokeAppToken | server/src/database/impls/sqlite.rs:1172-1178 | at no reading is the token found or renewed afterwards, and every other token is found and renewed as before |
| Der.ReadTlv | admin-ui/src/utils/x509.ts:19-34 | total on every byte string; equal to the specification, whose items lie inside the bytes |
| Der.ReadChildren | admin-ui/src/utils/x509.ts:36-44 | total and terminating; the accumulating loop equals the recursive specification |
| Der.ReadExactlyWhenComplete | admin-ui/src/utils/x509.ts:19-34 | an item is read exactly when header, at most four length octets (section 8.1.3 of ITU-T X.690) and content are all there; where its content lies, and which error is given otherwise |
| Der.BigEndianIs | admin-ui/src/utils/x509.ts:19-34 | what up to four length octets stand for |
| Der.ChildrenTile | admin-ui/src/utils/x509.ts:36-44 | the children are exactly the items that lie end to end from the parent's start and reach its end |
| Der.ReadsEncoded | admin-ui/src/utils/x509.ts:19-34 | an encoded value is read back as its tag and content wherever it stands |
| Der.ChildrenInvertEncoding | admin-ui/src/utils/x509.ts:36-44 | on a concatenation of encodings the children are that list |
| CertificateTime.InstantsAreOrdered | admin-ui/src/utils/x509.ts:51-61 | later dates and times are later instants, across months, years and leap days |
| CertificateTime.ReadsUtcTime | admin-ui/src/utils/x509.ts:51-61 | a UTCTime of 1950 to 2049 reads as the instant it was written for, which CertificateTime.EpochReadsZero and the rows after it pin to the calendar |
| CertificateTime.ReadsGeneralizedTime | admin-ui/src/utils/x509.ts:51-61 | every GeneralizedTime reads as the instant of the date it is taken for: its own, or for the years 0 to 99 one of 1900 to 1999, 0000-02-29 as 1900-03-01 |
| CertificateTime.EpochReadsZero | admin-ui/src/utils/x509.ts:51-61 | the texts of 1970-01-01 00:00:00 in both encodings read as 0 |
| CertificateTime.LeapDayReads | admin-ui/src/utils/x509.ts:51-61 | which digits are which, on a text of 2024-02-29 12:34:56 |
| CertificateTime.DaysFollowEachOther | admin-ui/src/utils/x509.ts:51-61 | from the year 100 on each calendar day reads exactly 86,400,000 ms after the one before it, over month ends, leap days and year ends |
| CertificateTime.FieldsCount | admin-ui/src/utils/x509.ts:51-61 | whatever two digits stand for day, hour, minute and second, in range or not, they count from the first of the month |
| CertificateTime.MonthsCarryOver | admin-ui/src/utils/x509.ts:51-61 | a month past December is one of the next year, and the month 00 the December before |
| CertificateTime.RefusedExactlyWhen | admin-ui/src/utils/x509.ts:51-61 | a time is refused exactly when a byte up to the seconds is no digit |
| CertificateTime.MissingReadsZero | admin-ui/src/utils/x509.ts:51-61 | fields that are missing at the end read as 00 |
| CertificateTime.EncodingsAgree | admin-ui/src/utils/x509.ts:51-61 | the two encodings of one instant of 1950 to 2049 agree (section 4.1.2.5 of RFC 5280) |
| CertificateTime.ReadTimeIsMonotone | admin-ui/src/utils/x509.ts:51-61 | exactly when any two GeneralizedTimes are read in their order, and that they always are from the year 100 on |
| CertificateTime.ReadUtcTimeIsMonotone | admin-ui/src/utils/x509.ts:51-61 | UTCTimes are always read in their order |
| CertificateTime.YearsBelow100AreOutOfOrder | admin-ui/src/utils/x509.ts:51-61 | two dates that are read in the wrong order |
| CertificateTime.LeapDayIsNotInOrder | admin-ui/src/utils/x509.ts:51-61 | two consecutive dates that read as one instant |
| X509.CommonName | admin-ui/src/utils/x509.ts:63-73 | the nested loops compute the specified first common name |
| X509.ReadCertificateInfo | admin-ui/src/utils/x509.ts:76-98 | the reader equals its specification, with the error of the first step that fails |
| X509.ReadsName | admin-ui/src/utils/x509.ts:63-73 | the name read is the first common name written, in the order of the distinguished name |
| X509.ReadingInvertsEncoding | admin-ui/src/utils/x509.ts:76-98 | for every certificate, with or without a version and whatever follows, reading returns its first common name and its two times |
| X509.RefusesOtherStructures | admin-ui/src/utils/x509.ts:76-98 | a first part with too few fields, or none, and a validity period without two times are refused, each with its error |
| X509.ReadsValidity | admin-ui/src/utils/x509.ts:76-98 | a certificate dated as section 4.1.2.5 of RFC 5280 demands reads as valid between exactly those instants |
| X509.EarliestExpiry | admin-ui/src/utils/x509.ts:110-121 | the least notAfter of the certificates that can be read, and nothing exactly when none can |
| Jwks.SearchFinds | server/src/middleware/jwt/jwks.rs:137-148 | a search finds a key exactly when some cached set has one with that id, and returns such a key |
| Jwks.SearchIgnoresOrderExactly | server/src/middleware/jwt/jwks.rs:137-148 | which key is found is independent of iteration order exactly when the sets that have one agree |
| Jwks.AnswersComeFromTheCacheBefore | server/src/middleware/jwt/jwks.rs:277-302 | a lookup answers a key exactly when the cache held one before it, whatever it fetched |
| Jwks.LookupChangesExactly | server/src/middleware/jwt/jwks.rs:277-302 | exactly when a lookup replaces the realm's sets: when it misses and more than the realm's own interval, or 60 s, has passed; by what, and that nothing else changes |
| Jwks.NextLookupSeesTheRefresh | server/src/middleware/jwt/jwks.rs:277-302 | after a fetching lookup the next one answers exactly what an endpoint of the realm had served |
| Jwks.KnownKeyIsLostExactlyWhen | server/src/middleware/jwt/jwks.rs:208-224 | exactly when a lookup of one key makes another, cached key unavailable |
| Jwks.EveryRunIsThrottled | server/src/middleware/jwt/jwks.rs:150-159 | in every run, overlapping or not, a fetch begins more than the interval after each refresh and configuration that had happened when its lookup took its snapshot |
| Jwks.FetchesAreSpacedExactlyWhen | server/src/middleware/jwt/jwks.rs:277-302 | exactly in which runs, old snapshots included, the fetches of a realm are more than the interval apart |
| Jwks.SerialRunsAreSpaced | server/src/middleware/jwt/jwks.rs:277-302 | a corollary: without overlapping lookups of a realm, or its configuration while one decides, its fetches are more than the interval apart, even when they fail |
| Jwks.OverlappingLookupsBothFetch | server/src/middleware/jwt/jwks.rs:277-302 | two overlapping lookups that fetch at the same moment |
| Jwks.StaleSnapshotFetchesAgain | server/src/middleware/jwt/jwks.rs:278-291 | a lookup with an old snapshot that fetches a second after another one's refresh |
| Jwks.FetchesAreBounded | server/src/middleware/jwt/jwks.rs:150-159 | in those runs a window of W seconds holds at most floor(W / I) + 1 fetches of a realm |
| Jwks.LookupIsASerialRun | server/src/middleware/jwt/jwks.rs:277-302 | a lookup on its own is a path of the machine with the same effect |
| Jwks.WritesAreOperations | server/src/middleware/jwt/jwks.rs:208-406 | the machine's steps that write the cache do what the manager's operations do, and are events exactly if the realm is there |
| Jwks.JwksManager.FetchAll | server/src/middleware/jwt/jwks.rs:311-337 | keeps exactly the sets of the endpoints that answered, each under its address |
| Jwks.JwksManager.SetRealmJwks | server/src/middleware/jwt/jwks.rs:208-224 | replaces a configured realm's sets and update time, and refuses an unknown realm |
| Jwks.JwksManager.FindJwk | server/src/middleware/jwt/jwks.rs:277-302 | the steps in code order equal the specified lookup |
| Jwks.JwksManager.UpsertRealm | server/src/middleware/jwt/jwks.rs:376-406 | overrides the realm's whole entry: its addresses, what they served, its interval and the time |
| Jwks.JwksManager.RemoveRealm | server/src/middleware/jwt/jwks.rs:347-360 | removes that realm, and refuses an unknown one |
| Jwks.JwksManager.RemoveStaleEntries | server/src/middleware/jwt/jwks.rs:418-444 | the loop without its locks: it removes exactly the realms last updated more than the retention ago |

## Left out

- Cryptography, `samael`, JSON, base64 and UTF-8: signatures, `InResponseTo` checking and document parsing are functions passed in; the model relies on an accepted assertion answering the expected request.
- Integer widths: `i64` overflow and the range limits of `chrono` are not modelled; the instants of a JavaScript date are limited as `Date.UTC` limits them.
- SamlEndpoints.SamlLogin: how the redirect to the identity provider is built and signed is a function passed in.
- SamlEndpoints.ConsumeResponse: issuing the cookie and writing the session store, which can fail after it, are not modelled; a session in `SamlLogin` stands for an accepted post.
- MySqlRequestStore.InterleavingIsAtomic: row locks only; gap locks, deadlock detection and connection errors are an abort or a step that waits.
- MySqlRequestStore.MySqlSamlRequestStore.TakePendingRequest: the class is run with no other transaction open; overlapping ones are the step machine's.
- AppSecretIds.SqliteDatabase.ConsumeSecretId: the class is one call by itself; concurrent calls are the step machine's, which covers the other two engines by their row locks.
- RedisRequestStore.BackendsAgree: replies other than a marker found under a pending key are always decodable; connection errors are not modelled.
- AdminEndpoints: an endpoint is one step, so the time between its authorization check and its writes is not; names, credentials and second factors of admins carry no rule and are not rows of the model; user accounts of a deleted realm are not modelled.
- AdminEndpoints.NoSuperAdminEverAgain: runs of requests only. A start of the server seeds a super admin when its user account is missing (server/src/database/trait.rs:100-137), which is no step of the model.
- AdminEndpoints.CreateRealmExactly: the realm's SAML settings are taken to be valid; their checks are `IdentityMapping.ValidateIdentityMapping` and `SamlEndpoints.ValidateReturnUrls`.
- AppSecretIds: creating a role whose `role_id` another role uses, where the backends differ, is not modelled; hashes stand for the values they are of.
- AppTokens: the routes that issue and revoke tokens and their authorization are not modelled.
- CertificateTime.ReadsGeneralizedTime: digits only; the signs, exponents, hexadecimal digits and white space that JavaScript's `Number` accepts within a field read as "not a number" here.
- CertificateTime.RefusedExactlyWhen: for the same reason it speaks of digits only; a field such as `+1` or one with a space is refused here and read by the code.
- Jwks.JwksManager.RemoveStaleEntries: the locks are not modelled. The code keeps its read guard alive while `remove_realm` asks for the write lock, so its task stops for good at the first stale entry and nothing is removed.
- X509.CommonName: the decoding of a value's bytes as UTF-8 text, and the byte-order mark it drops, are not modelled.
- X509.ReadingInvertsEncoding: encodings shorter than 4 GiB, which is what four length octets can express.
- ClaimPolicy.SessionRoundTrip: numbers are integers; JSON numbers outside `i64` are rejected by the code and not modelled.
- IdentityMapping.MapIdentity: lower-casing and the byte length of claims as JSON are functions passed in.
- Jwks.JwksManager.FetchAll: one answer per address; an address listed twice is fetched twice by the code. The HTTP request, the proxy and the filtering of malformed keys are not modelled.
- Jwks.JwksManager.FindJwk: the class runs one lookup with no other operation in between; overlapping operations are the step machine's.
- Identity provider metadata parsing, the service provider's metadata document and the redirect page around the escaped texts are not modelled.
- React pages, HTTP wiring, cookies, schedules of the cleanup tasks, Kubernetes and user/password sign-in are not modelled.
