# Verified model of the authentication service

The service logs users in with a password and an optional time-based code, keeps their
sessions in a database table and in an in-memory cache, limits the rate of attempts per
address, resolves roles and permissions through a per-user cache, and logs recent events in
a ring buffer. This project models these five kernels in Dafny and proves what they guarantee.

* **Sessions** (`Sessions`, `SessionMachine`, `SessionRevocation`, `SessionStore`,
  `SessionAtomicity`, `Credentials`, `SessionCredentials`, `AuthHandlers`, `AuthRoundTrips`). Every
  handler is a coroutine that others may overtake at each `co_await`, so `SessionMachine` is a state machine whose steps are single database
  statements and cache accesses, with the coroutines in flight as part of the state. Over all its
  interleavings: what a token stands for never changes, no request passes unless its cookie was
  issued for this client, and exactly which states let a revoked token come back. `SessionStore`
  describes handlers that nobody interrupts, for which the cache agrees with the table;
  `SessionAtomicity` shows them to be runs of the machine, and `AuthHandlers` holds the classes whose
  methods are proved to perform them. A login starts only with credentials that are right by what is stored about its user (`Credentials`), and
  `SessionCredentials` traces a passing request back to them.
* **Rate limiter** (`RateLimiting`, `RateLimiterBounds`). The class that purges its vectors is
  proved against the full history of calls, first for any clock and any parameters, then with the
  consequences: the greedy choice is optimal, and exactly when a call site keeps its own bound on
  the shared record.
* **One-time codes** (`Bits`, `Base32`, `Hotp`, `Totp`). The Base32 decoder with its wrapping 32-bit
  buffer against section 6 of RFC 4648, dynamic truncation against section 5.3 of RFC 4226, the
  window against sections 4.2 and 5.2 of RFC 6238.
* **Ring buffer** (`RingBuffers`, `RingInterleaving`, `RingSnapshots`, `RingOverlaps`). Sequentially a
  bounded queue. Interleaved load by load and store by store, for one producer, one consumer and a
  reader: the guarantee `Fifo` says that pops return items in the order of the pushes, none twice
  and none that is still in the buffer, and that every other item that is no longer there was
  taken out by a push. Items are told apart by their position among all pushes. A run keeps it at
  every moment exactly if all its stores to the indices are smooth
  (`RingInterleaving.RunKeepsFifoIffSmooth`).
* **Roles** (`RbacTables`, `RbacCache`, `RbacHandlers`). Joins over the tables, transactions under the
  key constraints, and the cache of joined lists as a machine of coroutines.

Random tokens are assumed new (they carry 128 random bits). The clock readings, the password
verifier, the HMAC and the success of each database statement are parameters. A statement is
atomic; columns give back what was stored. A statement that is reported as failed has had no effect.

## Where the code and its documentation differ

* CHANGELOG.md promises the most recent 100 authentication events. One slot of the buffer stays
  unused: it shows 99 (`RingBuffers.AuthEventLogKeeps99`). A snapshot of the full log that a push
  overtakes between its two loads shows none (`RingOverlaps.FullLogSnapshotIsEmpty`).
* CHANGELOG.md and docs/SECURITY_GUIDE.md call the limiter a token bucket. It keeps a sliding log.
  Its window of w seconds spans w + 1, because the cast to seconds truncates.
* All call sites share one record per address. The reset request's bound of 3 per 300 seconds does
  not hold, because a login purges what the longer window still counts
  (`RateLimiterBounds.RepositoryCallSites`).
* docs/SECURITY_GUIDE.md says a fingerprint mismatch invalidates the session. The handler deletes
  the row only; the bound client still passes until a logout or a sync takes the token out
  (`SessionRevocation.MismatchRevokesIff`, `SessionRevocation.StaysCachedIff`,
  `SessionRevocation.MismatchHoldsFromNextSync`).
* A NUL in a secret is not skipped like other foreign characters
  (`Base32.ForeignSkippedIffNotNul`).
* A logout whose DELETE fails is the one operation that breaks the agreement of cache and table
  (`SessionStore.AgreementBreaksIffLostLogout`).
* Renaming or deleting a role does not drop cached lists, and a lookup that straddles an
  invalidation stores the old list (`RbacCache.RenameKeepsCoherenceIff`,
  `RbacCache.DeletionKeepsCoherenceIff`, `RbacCache.InvalidationRestoresIff`). These are the only
  steps that harm (`RbacCache.StepKeepsCoherenceForIff`).
* The ring buffer is called lock-free. When pops overlap a push into the full buffer it can lose
  the newest item or return one twice (`RingOverlaps.OverlapLosesNewestItem`,
  `RingOverlaps.OverlapRevivesPoppedItem`).

## Model

| member | source | states |
|---|---|---|
| RateLimiting.StaleIsDurationCast | include/utils/rate_limiter.hpp:35-37 | the division-free test equals the truncating `duration_cast` comparison, for either sign of the difference |
| RateLimiting.RateLimiter.IsAllowed | include/utils/rate_limiter.hpp:27-45 | the method answers as all earlier calls of the address lead to, keeps in each vector the record that they leave, and touches no other address |
| RateLimiting.AddressesAreIsolated | include/utils/rate_limiter.hpp:31 | in a run of calls from any addresses the record of one depends on its own calls only |
| RateLimiting.RecordIsSurvivors | include/utils/rate_limiter.hpp:31-44 | for any clock and parameters the record is the admissions that no later call found stale, in order |
| RateLimiting.AnswerCountsSurvivors | include/utils/rate_limiter.hpp:34-44 | a call is admitted iff fewer surviving admissions than its maximum (as a 64-bit `size_t`) remain |
| RateLimiting.PurgedRecordRefinesHistory | include/utils/rate_limiter.hpp:31-44 | one window, clock not running backwards: admitted iff fewer than max of all earlier admissions ever are younger than window + 1 seconds |
| RateLimiting.AnswersCountHistory | include/utils/rate_limiter.hpp:27-45 | of the class's own history of answers: with one window and a steady clock a call was admitted iff fewer than max earlier calls from the address were, less than (window + 1) * 10^9 ticks before |
| RateLimiterBounds.SpanBoundIsSpacing | include/utils/rate_limiter.hpp:34-41 | at most m in every span iff times m places apart are a span apart |
| RateLimiterBounds.AdmissionsSpaced | include/utils/rate_limiter.hpp:31-44 | with windows at least w and maxima at most m, admissions m apart are at least w + 1 seconds apart |
| RateLimiterBounds.MixedSpanBound | include/utils/rate_limiter.hpp:34-43 | any mixture of parameters: no span under (min window) + 1 seconds holds more than the largest maximum |
| RateLimiterBounds.RecordIsBounded | include/utils/rate_limiter.hpp:39-43 | the record never exceeds the largest maximum |
| RateLimiterBounds.GreedyIsOptimal | include/utils/rate_limiter.hpp:27-45 | no feasible choice of calls admits more on any prefix, and no k-th admission of it is earlier; for all parameters but a maximum of 0 with a negative window |
| RateLimiterBounds.EmptySpansDefeatGreedy | include/utils/rate_limiter.hpp:34-41 | for those, admitting every call is feasible and the limiter admits none |
| RateLimiterBounds.GreedyIsFeasible | include/utils/rate_limiter.hpp:27-45 | the limiter's own admissions are a feasible choice |
| RateLimiterBounds.SiteBoundIff | include/utils/rate_limiter.hpp:31-44 | for any call sites, maxima and windows: a site keeps its own bound on the shared record in all runs iff no site with a shorter window leaves fewer entries than the maximum when it finds all stale, or the site makes no calls, or its window is negative |
| RateLimiterBounds.SiteBoundIffShortestWindow | src/auth_ctrl.cpp:453 | hence, for a maximum of 2 or more, iff no site has a shorter window |
| RateLimiterBounds.RepositoryCallSites | src/auth_ctrl.cpp:73 | for (5,60) and (3,300): the login bound holds in all runs, the reset bound does not |
| RateLimiterBounds.RepositorySpanBound | src/auth_ctrl.cpp:167 | all sites together: 5 admissions per address in any span under 61 seconds, record at most 5 |
| RingBuffers.LockFreeRingBuffer.Push | include/utils/ring_buffer.hpp:21-34 | contents become the last Size - 1 items of the old contents and the new item |
| RingBuffers.LockFreeRingBuffer.Pop | include/utils/ring_buffer.hpp:36-46 | takes the first item, or none from an empty buffer |
| RingBuffers.LockFreeRingBuffer.Snapshot | include/utils/ring_buffer.hpp:49-63 | the loop, ending by modular distance, returns exactly the contents |
| RingBuffers.EnqueueIntoSlots | include/utils/ring_buffer.hpp:21-33 | modular index updates, full or not, implement the bounded queue for every Size from 1 on |
| RingBuffers.RunConserves | include/utils/ring_buffer.hpp:21-46 | in every run: pushed items are those popped or overwritten, in order, followed by the content |
| RingBuffers.ContentIsSuffix | include/utils/ring_buffer.hpp:21-46 | the content is a suffix of what was pushed |
| RingBuffers.OnlyPushesKeepLast | include/utils/ring_buffer.hpp:21-34 | without pops the content is exactly the last Size - 1 items ever pushed |
| RingBuffers.OverwriteIffNextTailIsHead | include/utils/ring_buffer.hpp:22-29 | a push drops an item iff the source's test `next_tail == head` holds, and then the oldest |
| RingBuffers.AuthEventLogKeeps99 | include/metrics_registry.hpp:63 | after 100 or more events the log shows 99 |
| RingInterleaving.StepKeepsRecorded | include/utils/ring_buffer.hpp:21-46 | in every interleaving each slot, and each item a pop returns, is the item of the push that its index arithmetic says |
| RingInterleaving.FifoInItems | include/utils/ring_buffer.hpp:21-63 | under the guarantee `Fifo` the content is the last items pushed, and pops returned earlier ones, in order, each once |
| RingInterleaving.StepKeepsFifoIff | include/utils/ring_buffer.hpp:21-63 | of all steps of producer, consumer and reader, exactly those that are not smooth break `Fifo`: in order, nothing twice, nothing gone but what was popped or taken out by a push |
| RingInterleaving.RunKeepsFifoIffSmooth | include/utils/ring_buffer.hpp:21-63 | an interleaving of one producer, one consumer and a reader keeps `Fifo` at every moment iff all its index stores are smooth |
| RingInterleaving.OverwriteKeepsFifoIff | include/utils/ring_buffer.hpp:25-29 | the producer's head store: iff the head is where it was loaded and the buffer not empty, or one further |
| RingInterleaving.PublishKeepsFifoIff | include/utils/ring_buffer.hpp:31-32 | the tail store: iff the buffer is not full at that moment |
| RingInterleaving.ExclusiveRunIsSmooth | include/utils/ring_buffer.hpp:21-46 | runs in which full pushes and pops do not overlap are smooth |
| RingInterleaving.NeverFullIsFifo | include/utils/ring_buffer.hpp:21-46 | one producer, one consumer, never full: under every interleaving pushed = popped ++ content |
| RingInterleaving.NoPopsIsExclusive | include/utils/ring_buffer.hpp:21-34 | runs without pops are such interleavings |
| RingSnapshots.SnapshotReturnsLastPushed | include/utils/ring_buffer.hpp:49-63 | with overwrites and pops going on, as long as no slot still to be read is written: the last items pushed at the tail load, as many as slots from the loaded head to that tail |
| RingSnapshots.WriteKeepsViewIff | include/utils/ring_buffer.hpp:31-61 | a push tears a snapshot in progress iff it writes another item into a slot that is still to be read |
| RingSnapshots.MovedHeadChangesSnapshot | include/utils/ring_buffer.hpp:51-60 | that is the content at the tail load iff the head is still where it was loaded, and nothing at all iff the loaded head is the tail |
| RingSnapshots.SnapshotIsOneMoment | include/utils/ring_buffer.hpp:49-63 | if nobody moves the head between the two loads the snapshot is the content of one moment: consecutive pushed items |
| RingSnapshots.LogSnapshotIsOneMoment | include/metrics_registry.hpp:63 | so it is for a log nobody pops from, overwriting pushes included |
| RingOverlaps.FullLogSnapshotIsEmpty | include/metrics_registry.hpp:63 | one push between the two loads makes the snapshot of a full log return nothing |
| RingInterleaving.PopKeepsFifoIff | include/utils/ring_buffer.hpp:36-46 | the store that completes a pop: iff it takes out nothing, or just the item the pop returns, and does not leave that item in |
| RingInterleaving.LappedPopIsHarmless | include/utils/ring_buffer.hpp:36-46 | a pop lapped by overwrites whose store leaves the head as it is returns its item and changes nothing else |
| RingOverlaps.OverlapLosesNewestItem | include/utils/ring_buffer.hpp:25-44 | a pop overlapped by two overwrites after which the newest item is gone |
| RingOverlaps.OverlapRevivesPoppedItem | include/utils/ring_buffer.hpp:25-44 | a full push overlapped by two pops after which an item already popped is in the buffer again |
| RingOverlaps.UninterruptedPushIsSequential | include/utils/ring_buffer.hpp:21-34 | the steps of a push in a row do what the sequential contract says |
| RingOverlaps.UninterruptedPopIsSequential | include/utils/ring_buffer.hpp:36-46 | so do those of a pop, on an empty buffer and on others |
| RingOverlaps.UninterruptedSnapshotIsSequential | include/utils/ring_buffer.hpp:49-63 | and those of a snapshot |
| Base32.Base32Decode | src/utils/totp_utils.cpp:65-85 | the loop computes `AbsorbAll`; on NUL-free secrets the RFC 4648 decoding |
| Base32.StrChrSearchesAlphabet | src/utils/totp_utils.cpp:72-74 | `strchr` as a search in the alphabet string including its terminator |
| Base32.TableOfLetters | src/utils/totp_utils.cpp:71-74 | the value of every character, upper and lower case alike, and which characters have none |
| Base32.DecoderFollowsRfc | src/utils/totp_utils.cpp:65-85 | any NUL-free string: the 5-bit values concatenated, cut into bytes, remainder dropped, although the 32-bit buffer wraps |
| Base32.ForeignSkippedIffNotNul | src/utils/totp_utils.cpp:72-74 | a foreign character is skipped in every context iff it is not NUL |
| Base32.RoundTrip | src/utils/totp_utils.cpp:65-85 | decoding the encoding of any bytes returns them, whatever the letter case, padding or foreign characters |
| Base32.GenerateSecret | src/utils/totp_utils.cpp:35-45 | 32 alphabet letters whose values are the random draws, or empty without libsodium |
| Base32.SecretDecodesToKey | src/utils/totp_utils.cpp:35-85 | every 32-letter secret decodes to 20 bytes that encode as it: with the next row, a bijection |
| Base32.KeyEncodesAsSecret | src/utils/totp_utils.cpp:35-85 | every 20-byte key encodes as a 32-letter secret that decodes to it |
| Hotp.PackCounter | src/utils/totp_utils.cpp:89-94 | the shift loop fills the array with the big-endian two's complement of any 64-bit step |
| Hotp.CounterIsInjective | src/utils/totp_utils.cpp:89-94 | different steps are different messages |
| Hotp.CounterIsBigEndian | src/utils/totp_utils.cpp:89-94 | the eight bytes read as a big-endian number are the step |
| Hotp.AssembledWord | src/utils/totp_utils.cpp:104-106 | masks, shifts and ors equal the big-endian word modulo 2^31 |
| Hotp.TruncateReadsAtOffset | src/utils/totp_utils.cpp:103-106 | the truncated value is the big-endian word at the offset that the low half of the last byte names, without its sign bit |
| Hotp.TruncationExample | src/utils/totp_utils.cpp:103-108 | the worked example of section 5.4 of RFC 4226 |
| Hotp.PrintedCode | src/utils/totp_utils.cpp:110-112 | a value below 10^k prints as exactly k digits that read back as it |
| Hotp.GenerateCodeForStep | src/utils/totp_utils.cpp:87-113 | the method computes `Code`; the offsets stay inside any 20-byte MAC |
| Hotp.CodeIsHotp | src/utils/totp_utils.cpp:87-113 | six digits that spell the truncated MAC modulo 10^6, or empty when the HMAC fails |
| Totp.ValidateCode | src/utils/totp_utils.cpp:115-128 | for a NUL-free secret: true iff it is not empty, the code has six characters and is the code of one of the three steps for the RFC 4648 decoding of the secret; for any encoding of a key, of that key |
| Totp.TimeStepIsFloor | src/utils/totp_utils.cpp:59-63 | from the epoch on the truncating division is the floor |
| Totp.TimeStepTruncates | src/utils/totp_utils.cpp:59-63 | before the epoch it truncates toward zero |
| Totp.CodeIsAcceptedInWindow | src/utils/totp_utils.cpp:115-128 | a code generated successfully is accepted at all times at most 30 s away |
| Totp.AcceptedCodeIsHotp | src/utils/totp_utils.cpp:115-128 | an accepted code is the HOTP value of one of the three steps, from an HMAC that succeeded |
| Totp.FailedHmacAcceptsNothing | src/utils/totp_utils.cpp:100-126 | failing HMACs never accept a code |
| Totp.AcceptedIffNeighbours | src/utils/totp_utils.cpp:115-128 | with distinct codes in the window: accepted iff the steps are at most one apart |
| Sessions.RowRoundTrip | src/cache/session_cache.cpp:21-38 | the entry built from an inserted row is the one the login cached, with or without CSRF token |
| Sessions.PassIffFits | src/auth_middleware.cpp:48-109 | the branches of the middleware pass a request iff it fits the cached session's binding |
| Sessions.JudgeCases | src/auth_middleware.cpp:31-100 | when each of the four refusals is given, in the order of the tests |
| Sessions.SessionLastsADay | src/auth_ctrl.cpp:117 | a new session expires 86400 seconds later and holds the given user, address, agent and CSRF token |
| SessionMachine.RunKeepsInvariant | src/auth_ctrl.cpp:126-268 | every interleaving keeps every copy of a session, stored or in flight, equal to what its token was issued for |
| SessionMachine.BindingIsStable | src/cache/session_cache.cpp:18-42 | any copies of one token's session, at any two times and places, have the same user, address, agent and CSRF token |
| SessionMachine.IssuedHasOrigin | src/auth_ctrl.cpp:116-133 | every issued token goes back to one login of the run with that binding, or to the start |
| SessionMachine.PassedRequestsWereIssued | src/auth_middleware.cpp:48-109 | whenever a request passes, its cookie comes from the start or from an earlier login that went on past its insert, issued to that user for this address and agent, and a change carries the CSRF token issued with it |
| SessionCredentials.PassGoesBackToCredentials | src/auth_ctrl.cpp:76-191 | whenever a request passes, whatever happens to accounts meanwhile: the login that issued its session, to the user it passes as, accepted that user's stored password, or a code of the secret stored for that user |
| SessionMachine.MisfitNeverPasses | src/auth_middleware.cpp:68-100 | a request that does not fit what its cookie was issued for never passes |
| SessionMachine.ReceiveDeletesIffMismatch | src/auth_middleware.cpp:68-70 | a request starts the deletion of its session iff that is cached for another client, whatever the verb, and changes no store itself |
| SessionMachine.SweepDeletesExpired | src/main.cpp:104 | the sweep removes exactly the rows that expired before now |
| SessionRevocation.DeletionIsPermanent | src/db/auth_repository.cpp:208-222 | a deleted row never returns in any interleaving |
| SessionRevocation.ReturnsIff | src/cache/session_cache.cpp:18-42 | a token can be in the cache again in some continuation iff `CanReturn` holds of the present state |
| SessionRevocation.CannotReturnNeverPasses | src/auth_middleware.cpp:48-60 | a token that cannot return admits no request in any continuation |
| SessionRevocation.LogoutRevokesIff | src/auth_ctrl.cpp:228-232 | a completed logout has revoked iff its row is gone, or expired with no refresh in flight, and nothing in flight carries the token |
| SessionRevocation.SyncCutsOff | src/cache/session_cache.cpp:18-42 | the next sync to swap in after a deletion keeps the token out for ever, if no login, refresh or older sync carries it |
| SessionRevocation.MismatchRevokesIff | src/auth_middleware.cpp:68-82 | a completed mismatch has revoked iff the token is not cached, nothing in flight carries it, and a row left by a failed DELETE is expired with no refresh in flight |
| SessionRevocation.TokenLeavesCacheIff | src/cache/session_cache.cpp:40-43 | a step takes a token out of the cache iff it is a logout's removal or the swap of a sync that did not see the row |
| SessionRevocation.StaysCachedIff | src/auth_middleware.cpp:68-82 | so after a mismatch a cached token is cached at every later moment iff no such step has been taken |
| SessionRevocation.BoundClientPassesIffCached | src/auth_middleware.cpp:48-109 | and the bound client passes iff it is cached |
| SessionRevocation.MismatchHoldsFromNextSync | src/cache/session_cache.cpp:18-42 | after a mismatch whose token nothing in flight carries, the next sync to swap in keeps it out for ever |
| SessionStore.AdvanceKeepsConsistent | src/auth_ctrl.cpp:126-268 | no operation, failing or not, makes table and cache say different things about a session both know |
| SessionStore.AgreementBreaksIffLostLogout | src/auth_ctrl.cpp:228-232 | of all operations, with failures, exactly a logout losing its DELETE on a live session breaks agreement |
| SessionStore.SyncRestoresEquality | src/cache/session_cache.cpp:15-47 | after a sync the cache is exactly the unexpired rows |
| SessionStore.AgreesFromFirstSync | src/main.cpp:86-98 | from the first sync on every unexpired row is cached with identical data |
| SessionStore.ExpiredPassOnlyBeforeSync | src/main.cpp:86-98 | a request passes on an expired session only if no sync has run since it expired |
| SessionAtomicity.UninterruptedIsPerform | src/auth_ctrl.cpp:62-283 | each operation of the previous rows is a run of the interleaved machine |
| AuthHandlers.SessionRepository.CreateSession | src/db/auth_repository.cpp:144-157 | inserts the row unless the statement fails or the token exists |
| AuthHandlers.SessionRepository.RefreshSession | src/db/auth_repository.cpp:208-212 | moves the expiry of an existing row, expired or not, and reports whether there was one |
| AuthHandlers.SessionRepository.DeleteExpired | src/main.cpp:99-110 | the sweep removes exactly the rows that expired before now and leaves the cache alone |
| AuthHandlers.SessionCache.SyncFromDb | src/cache/session_cache.cpp:15-47 | the loop over the rows, in any order, builds exactly the unexpired rows' entries, field by field; a failed query keeps the old cache |
| AuthHandlers.AccountRepository.FindUserByLoginOrEmail | src/db/auth_repository.cpp:14-31 | a stored user whose login name or email is the identifier, if there is one and the query succeeds |
| AuthHandlers.AuthCtrl.CheckPassword | src/auth_ctrl.cpp:76-108 | which answer the account, the password and the second factor lead to; a failed read of the second factor counts as none |
| AuthHandlers.AuthCtrl.Login | src/auth_ctrl.cpp:62-155 | when each answer is given; on success, and only then, row and entry with this user, address, agent and CSRF token for a day; the limiter's history and the HTTP session |
| AuthHandlers.AuthCtrl.CheckCode | src/auth_ctrl.cpp:171-182 | which answer the stored secret and the code lead to |
| AuthHandlers.AuthCtrl.LoginTotp | src/auth_ctrl.cpp:157-213 | the same for a code of the secret stored for the user; the entry is cached even if the insert fails |
| AuthHandlers.AuthCtrl.OpenSession | src/auth_ctrl.cpp:116-152 | what both logins end with: which of row, entry and attributes come into being, field by field |
| AuthRoundTrips.RequestAfterLogin | src/auth_middleware.cpp:48-109 | after a password login exactly the same client passes, as that user, a change only with its CSRF token; any other client loses the row |
| AuthRoundTrips.RequestAfterLoginTotp | src/auth_middleware.cpp:48-109 | the same after a second-factor login |
| AuthRoundTrips.RequestAfterLogout | src/auth_ctrl.cpp:228-232 | after an uninterrupted logout the cookie is unknown, even if the DELETE failed |
| AuthHandlers.AuthCtrl.Logout | src/auth_ctrl.cpp:215-244 | row and entry go, the entry and the attributes even if the DELETE fails |
| AuthHandlers.AuthCtrl.RefreshSession | src/auth_ctrl.cpp:246-283 | succeeds iff the session is cached and its row exists; both expiries move |
| AuthHandlers.AuthCtrl.ResetPasswordRequest | src/auth_ctrl.cpp:446-456 | consults the same limiter with other parameters |
| AuthHandlers.AuthMiddleware.Invoke | src/auth_middleware.cpp:27-116 | when each refusal is given, that a mismatch and nothing else deletes the row, and the session populated only on a pass, as the session's user |
| RbacTables.ReplacementIsExact | src/db/admin_repository.cpp:94-102 | an accepted roles update leaves precisely the existing roles of the list, and every other user's row, roles and permissions unchanged |
| RbacTables.CreationIsExact | src/db/admin_repository.cpp:49-72 | an accepted creation adds this row and precisely the existing roles of the list, and leaves other users' roles and permissions alone |
| RbacTables.UpdateAllowedIffConsistent | src/db/admin_repository.cpp:78-92 | without roles: accepted iff the constraints hold with the named columns written, and that is what is written |
| RbacTables.RoleListAllowedIff | src/db/admin_repository.cpp:94-102 | a list of roles adds one condition, that no role of the database is named twice |
| RbacTables.UnknownUserUpdate | src/db/admin_repository.cpp:78-102 | for an unknown user: accepted iff no listed role exists, and then nothing changes |
| RbacTables.JoinedRows | src/db/auth_repository.cpp:324-347 | the two joins, table by table |
| RbacTables.RenamingChangesNamesIff | src/db/admin_repository.cpp:152-154 | renaming changes no permissions and exactly the role lists of the role's holders |
| RbacTables.DeletionChangesRolesIff | migrations/001_pg_schema.sql:136-141 | deleting a role changes exactly the role lists of its holders |
| RbacTables.DeletionKeepsPermissionsIff | migrations/002_pg_schema.sql:15-20 | ... and keeps a user's permissions iff the user's other roles give all the role gave |
| RbacTables.UpdateKeepsConstraints | migrations/001_pg_schema.sql:32-41 | an accepted update keeps all UNIQUE and REFERENCES constraints |
| RbacCache.StepKeepsCoherenceForIff | src/rbac/rbac_service.cpp:19-59 | of all steps, exactly three kinds leave a wrong list of a user's behind: a straddled last invalidation, a rename and a deletion that hit the user |
| RbacCache.StepKeepsCoherenceIff | src/rbac/rbac_service.cpp:19-59 | a step keeps every list of every settled user equal to the join iff it harms no user |
| RbacCache.InvalidationRestoresIff | src/rbac/rbac_service.cpp:55-59 | whatever has happened before, an invalidation makes the user's lists right iff another is to follow or no lookup in flight holds a list that is not the join |
| RbacCache.RunKeepsCoherenceFor | src/rbac/rbac_service.cpp:19-59 | in any interleaving, with failing reads, a user's lists stay right as long as no step harms this user, whatever happens to others |
| RbacCache.RunKeepsCoherenceForIff | src/rbac/rbac_service.cpp:19-59 | they are right at every moment of the run iff no step harms the user |
| RbacCache.InvalidationRestoresGuarantee | src/rbac/rbac_service.cpp:55-59 | after any run with any steps, an invalidation that is not straddled restores the guarantee for its user |
| RbacCache.RenameKeepsCoherenceIff | src/admin_ctrl.cpp:205 | a rename keeps a user's lists right iff it has no effect, or the user does not hold the role, or no role list of the settled user is in use |
| RbacCache.DeletionKeepsCoherenceIff | src/admin_ctrl.cpp:224 | the same for a deletion, where permission lists survive if the role was redundant |
| RbacCache.SettledAnswersAreExact | src/rbac/rbac_service.cpp:19-53 | for a user with no update under way and not harmed so far: never falsely positive, equal to the join whenever a non-empty list decides; an empty cached list never decides |
| RbacCache.PositiveAnswersWereTrueSince | src/rbac/rbac_service.cpp:19-59 | in every interleaving, with renames and deletions: a name found after the user's lists were dropped is one the user has had since |
| RbacCache.InvalidationBlanksIff | src/rbac/rbac_service.cpp:55-59 | an invalidation leaves the user without lists iff no lookup in flight holds a non-empty one |
| RbacCache.RenamedRoleKeepsOldName | src/admin_ctrl.cpp:205 | after a rename a holder's cached lookup finds the old name and misses the new one |
| RbacCache.StraddlingLookupRestoresOldList | src/rbac/rbac_service.cpp:46-50 | the runs in which a lookup reads before an update and stores after its invalidation, and finds what was taken away from then on; `InvalidationRestoresIff` has the exact condition |
| RbacCache.ProperRunsStayCoherent | src/admin_ctrl.cpp:108-111 | uninterrupted operations stay coherent and leave nothing in flight |
| RbacCache.UninterruptedLookupsAreExact | src/rbac/rbac_service.cpp:19-53 | after any run of them cached lookups answer exactly like the joins |
| RbacHandlers.RoleListReads | src/db/auth_repository.cpp:339-355 | a result set of the query lists exactly the joined role names, none twice |
| RbacHandlers.PermissionListReads | src/db/auth_repository.cpp:320-337 | the same for permissions, up to repetition |
| RbacHandlers.RoleRepository.GetUserRoles | src/db/auth_repository.cpp:339-355 | the loop returns the join, or an empty list when the query fails |
| RbacHandlers.RoleRepository.GetUserPermissions | src/db/auth_repository.cpp:320-337 | the loop returns the join, or an empty list when the query fails |
| RbacHandlers.AdminRepository.GetAllUsers | src/db/admin_repository.cpp:13-47 | the nested loops list every user once with exactly the roles of the second query, none twice; nothing if a query fails |
| RbacHandlers.AdminRepository.CreateUser | src/db/admin_repository.cpp:49-72 | succeeds iff nothing throws, id, login name and email are new and no role is named twice; then the row and the grants, otherwise nothing |
| RbacHandlers.AdminRepository.UpdateUser | src/db/admin_repository.cpp:74-108 | all or nothing, with the exact condition of success; each of the five columns, the user's roles, and everything else unchanged |
| RbacHandlers.AdminRepository.GrantRoles | src/db/admin_repository.cpp:96-101 | the insertion loop succeeds iff no role of the database is listed twice and no role is given to an unknown user |
| RbacHandlers.AdminRepository.UpdateRole | src/db/admin_repository.cpp:149-162 | two separate statements: the name stays changed when the description fails |
| RbacHandlers.RbacService.HasPermission | src/rbac/rbac_service.cpp:19-35 | a non-empty cached list decides, otherwise the list read, which is cached; on a coherent cache and a successful read the join |
| RbacHandlers.RbacService.HasRole | src/rbac/rbac_service.cpp:37-53 | a non-empty cached list decides, otherwise the list read, which is cached; on a coherent cache and a successful read the join |
| RbacHandlers.AdminCtrl.UpdateUser | src/admin_ctrl.cpp:85-121 | keeps coherence in all cases; only an administrator's accepted update changes the tables; a new password's hash wins; the user's lists are dropped if roles were given |

## Left out

- HTTP, JSON and cookie handling, response texts, the gRPC service, health checks and the metrics text.
- Argon2id, HMAC-SHA1, JWT signing and libsodium: parameters; tokens are assumed new.
- SQL syntax, drivers and transaction isolation: statements and committed transactions are atomic. A statement that takes effect but is reported as failed is not modelled.
- Column types: values that do not fit a VARCHAR, are no UUID or INET address, or timestamps that lose their zone are not modelled; reads that fail for such reasons are failed reads.
- 64-bit overflow of clock ticks.
- Weak memory orderings of the ring buffer's atomics, several producers or consumers, and the interleaved buffer of Size 1; the sequential buffer covers Size 1.
- Several threads inside one critical section: each section under a mutex is one step.
- Registration, password change and reset completion, profile and communication editing, the seeder, configuration and the stored procedures: short sequential updates.
- SessionCredentials.PassGoesBackToCredentials: the machine's login step reads the user or the secret and checks at once; the later read of whether a second factor is set up is in the contract of AuthCtrl.CheckPassword only.
- Audit and metrics events and the warning about new devices: logging without influence on decisions.
- Latency sums of the metrics registry.
- AdminRepository's list, create and delete of roles and its deactivation of users as methods: their effect on the tables is in RbacTables, deactivation changes nothing these kernels read.
- user_profiles rows that a user creation inserts: a new user has none yet, so the insert cannot conflict.
- Totp.ValidateCode: assumes of the HMAC only that it returns 20 bytes or fails.
