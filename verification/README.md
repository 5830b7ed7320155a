# Syndra, modelled in Dafny

Syndra decides who holds which role and carries that decision to the machines behind it. This
project models the parts of it whose correctness is hardest to see from any one function, and
proves what its code, comments and tests promise of them.

| file | what it models |
|---|---|
| `Closure.dfy` | the mapping-rule fixpoint: which roles a person holds and until when |
| `Text.dfy`, `Chain.dfy`, `LogDisk.dfy`, `MutationLog.dfy` | the add-on's hash-chained mutation log: framing, chain, disk, and the writer over crashes, failed writes, rotations and prunes |
| `Session.dfy` | the shared TrueNAS session: login spacing and the circuit breaker |
| `DrainGate.dfy` | the lifecycle gate that lets mutations finish before a drain |
| `Lru.dfy` | the bounded last-known-good cache |
| `Policy.dfy` | the meet of an add-on's manifest with Syndra's operation policy |
| `Idempotency.dfy` | replayed calls, their 30-day window and the sweep |
| `Subjects.dfy`, `Target.dfy`, `Converge.dfy`, `Locating.dfy` | one account: how it is read, fingerprinted, planned, found and converged, against the target's recorded credential and SMB rules |
| `Invariants.dfy`, `Changes.dfy`, `AddOn.dfy` | the add-on over whole runs: applies, passwords, adoption, release, purge and other people's hands on the target |

`dafny verify dfyconfig.toml` checks everything.

State that the code updates in place is a class. The outside world is a parameter: clocks, the
bytes of a written line that reach the disk, whether a call works, is refused, or takes effect
and loses its answer, and whether a target honours a query filter. A run is a sequence of steps
that carry these.

## Main results

- **Closure.** For every rule list, cyclic or not, `Ends` yields exactly the latest end any base
  role carries along a rule chain, in at most as many passes as there are rules. It is the least
  fixpoint, unique, monotone, idempotent and blind to rule order.
- **Mutation log.** Over every run of appends, failed writes, rotations, prunes, kills at any
  point and reopens, the verifier rejects the disk only for a torn tail that no open has repaired
  yet; every segment ever rotated is still listed as it was renamed, or among the oldest and removed
  beyond `keep`; every acknowledged record is still read unless its whole segment went that way;
  the reported count never falls; every append whose calls succeed is acknowledged,
  unless since its last open the writer died, lost its file or left a failed write behind. Two steps keep the log verifiable only on a condition, and both
  conditions are exact: an append after a failed write verifies if and only if the file is as long
  as the writer remembers (`AppendNeedsSize`), and a rotation verifies if and only if its stamp is newer than the last
  one, or replaces the only rotated segment (`RotationNeedsClock`). Even then it loses records if
  and only if a listed segment has its stamp (`RotationKeepsAll`).
- **Tamper evidence.** With a collision-free digest, verified logs with one head agree record for
  record; a splice in the middle cannot keep the head. A cut at the end is invisible to the chain
  alone, which is why the head is anchored elsewhere.
- **SMB and passwords.** From a target that follows the recorded rules, in every run in which
  nobody else renames or makes accounts, the target turns nothing down by those rules; after an
  apply that wanted SMB off for a subject, nothing turns it on until an apply for that subject wants
  it on, whatever is applied, purged or removed for everybody else; after one that wanted it on,
  the next password leaves it on. The subject's binding must not be released or purged meanwhile. The wish must have reached the store: writing it is
  best-effort in the code.
- **Homes.** In every run, renames, deletions, home-root changes and foreign accounts included,
  no folder is given to two numbers, no two created accounts share a home, and none gets a folder
  that was already there.
- **Plan and apply.** The plan says something would happen exactly when the apply makes a
  mutating call, and the call carries exactly the planned difference; nothing is
  written for an account that moved, vanished or appeared since the plan; one apply converges, keeps built-in memberships, and a second is silent. A
  membership missing from the group table is lost by the full replace: the exact condition is
  `UnlistedIsLost`.
- **No second account.** An apply makes no group, claims no number and creates no account while
  the target holds the subject's own, even when the target ignores the filter and cuts its list;
  and the only account it writes to is the subject's.
- **Enough numbers.** Each new account takes exactly the next number above everything claimed or
  seen, so with n numbers left n creates whose calls work all succeed (`EnrolAll`), and no run uses
  more numbers than it has applies.
- **Session, gate, cache, policy, replays.** At most five logins a minute and one per 11 minutes
  with the breaker open; a gate that stays shut after a set until the next one, whose in-flight count is exact and whose drained answer can be
  relied on if and only if the state was still not active when the counter was read; a cache that refines a recency-ordered map; a policy meet that
  declarations can only narrow; replays within the window that run again if and only
  if their kind is never remembered, which a release is not.

## Model

| member | source | states |
|---|---|---|
| `Closure.Shorten` | backend/internal/access/closure.go:33-37 | any chain, however long or cyclic, can be cut to one of at most as many rules as the list has |
| `Closure.OneFurther` | backend/internal/access/closure.go:33-37 | a full pass carries every value at least one rule further |
| `Closure.EnoughPasses` | backend/internal/access/closure.go:33-43 | after as many passes as rules, every supported end has arrived |
| `Closure.Pass` | backend/internal/access/closure.go:43-60 | one pass applies every rule to the map it started from, adds nothing unsupported, and reports no change only when it made none |
| `Closure.Ends` | backend/internal/access/closure.go:38-66 | every role's end is the latest one a base role carries to it along rules; roles nothing reaches are absent; at any moment a role is held exactly when some chain of rules all still running leads to it from a base role still running |
| `Closure.HeldWhileGiven` | backend/internal/access/closure.go:23-66 | held at a moment if and only if some chain gives it at that moment, in terms of dates compared one by one |
| `Closure.BestEndsUnique` | backend/internal/access/closure.go:38-66 | the meaning determines the map |
| `Closure.LeastFixpoint` | backend/internal/access/closure.go:23-31 | the result is below every closed map above the base |
| `Closure.EndsMonotone` | backend/internal/access/closure.go:23-31 | more base, later ends and more rules never shorten or remove an answer |
| `Closure.EndsIgnoreRuleOrder` | backend/internal/access/closure.go:43-64 | permuting or repeating rules changes nothing |
| `Closure.EndsIdempotent` | backend/internal/access/closure.go:23-31 | closing a closure changes nothing |
| `Closure.DomainIgnoresDates` | backend/internal/access/closure.go:80-81 | which roles are held does not depend on the dates |
| `Closure.ClosureOf` | backend/internal/access/closure.go:82-94 | exactly the roles a base role is granted along some chain of rules, all marked held |
| `Closure.Fired` | backend/internal/access/closure.go:100-108 | the rules whose source is in the closure, in order |
| `Closure.FiredConcat` | backend/internal/access/closure.go:100-108 | firing keeps order and multiplicity: two lists fire what each fires, joined |
| `Closure.FiredOne` | backend/internal/access/closure.go:100-108 | one rule fires, once, if and only if its source role is in the closure |
| `Closure.FiredExplains` | backend/internal/access/closure.go:96-108 | every derived role is the end of a chain of fired rules that starts at a base role |
| `Text.FramesInjective` | addons/truenas/mutationlog.go:71-80 | length-prefixed fields are uniquely decodable, whatever they contain |
| `Text.SortedCanonical` | addons/truenas/apply.go:1086-1100 | two lists sort to the same list exactly when they hold the same elements as often |
| `Text.StrLeqMeans` | addons/truenas/apply.go:1086-1100 | the order sorted by: a prefix first, else the first differing character decides |
| `Chain.PreImageInjective` | addons/truenas/mutationlog.go:71-80 | two records are hashed as the same bytes only if all eight fields agree, and never because of their digest field |
| `Chain.HashCollisionFree` | addons/truenas/mutationlog.go:71-80 | a hash without collisions on the hashed bytes gives a collision-free record digest |
| `Chain.ExtendFromStart` | addons/truenas/mutationlog.go:278-285 | the record a writer appends next continues the chain |
| `Chain.CommonSuffix` | addons/truenas/mutationlog.go:422-482 | verified logs with one head agree record for record, counting back from it |
| `Chain.SameEndsSameLog` | addons/truenas/mutationlog.go:422-482 | verified logs that open with one number and end in one head are the same log |
| `Chain.SpliceDetected` | addons/truenas/mutationlog.go:27-32 | altering, inserting or removing in the middle cannot keep both verification and head |
| `Chain.TruncationUnseen` | addons/truenas/mutationlog.go:27-32 | cutting the end off leaves a log that verifies, with a lower count |
| `LogDisk.RollbackUndoes` | addons/truenas/mutationlog.go:319-324 | truncating to the remembered size undoes a partial, torn or complete write |
| `LogDisk.WalkMeaning` | addons/truenas/mutationlog.go:443-482 | a walk accepts exactly the lines that all read and form one unbroken chain |
| `LogDisk.VerifySegment` | addons/truenas/mutationlog.go:443-482 | one segment continues the walk of the segments before it |
| `LogDisk.VerifyLog` | addons/truenas/mutationlog.go:422-436 | accepts if and only if all lines of all segments, oldest first, form one chain; a rejection names the first line that breaks it, and why |
| `LogDisk.RejectionPinpoints` | addons/truenas/mutationlog.go:443-482 | everything before the rejected line forms one chain, and that line is unreadable, misnumbered, or does not match its predecessor or its own hash, as the verdict says |
| `LogDisk.TruncateTornTail` | addons/truenas/mutationlog.go:192-217 | removes the tail and trailing unreadable lines only, and nothing when every line reads |
| `LogDisk.LastRecordIn` | addons/truenas/mutationlog.go:232-261 | the last readable record of a file |
| `LogDisk.RecoverHead` | addons/truenas/mutationlog.go:171-187 | the last record on the disk, also when the live file is empty after a rotation |
| `LogDisk.GoodDiskVerifies` | addons/truenas/mutationlog.go:422-482 | the verifier objects to a reachable disk exactly when it has an unrepaired torn tail |
| `LogDisk.LandedStaysGood` | addons/truenas/mutationlog.go:293-312 | however much of the next line lands, the disk stays good |
| `LogDisk.RotatedStaysGood` | addons/truenas/mutationlog.go:344-375 | a rename under a newer stamp keeps the chain, with or without the reopened file |
| `LogDisk.PrunedStaysGood` | addons/truenas/mutationlog.go:377-394 | removing the oldest of several segments keeps the rest one chain |
| `LogDisk.RepairedStaysGood` | addons/truenas/mutationlog.go:137-155 | after repair every complete record counts and the recovered one is the last |
| `MutationLogs.MutationLog.constructor` | addons/truenas/mutationlog.go:115-125 | an empty directory, with the defaults in place of non-positive limits |
| `MutationLogs.MutationLog.Open` | addons/truenas/mutationlog.go:115-156 | an open, or one cut short at any point, keeps the log good and counts every complete record; one that comes through leaves a writer with a file to write to |
| `MutationLogs.MutationLog.Kill` | addons/truenas/mutationlog.go:115-156 | the process may be gone between any two calls |
| `MutationLogs.MutationLog.GetHead` | addons/truenas/mutationlog.go:331-335 | digest and number of the whole history, pruned records included |
| `MutationLogs.MutationLog.Prune` | addons/truenas/mutationlog.go:377-394 | removes exactly the oldest whole segments, only beyond `keep` and down to it when nothing fails, and never touches the live file or another segment |
| `MutationLogs.MutationLog.RotateIfNeeded` | addons/truenas/mutationlog.go:344-375 | every end of a rotation, between rename and reopen included, keeps log, history and every listed segment but the oldest beyond `keep`; below the limit nothing happens; the append goes on exactly when no rotation was due or it succeeded, and the writer keeps a file unless the reopen failed or the process died |
| `MutationLogs.MutationLog.RollOver` | addons/truenas/mutationlog.go:354-375 | rename, new live file and prune: the segment is the live file as it was, the writer goes on exactly when all three succeeded, and nothing is removed unless `keep` remain |
| `MutationLogs.MutationLog.Write` | addons/truenas/mutationlog.go:293-316 | a record counts if and only if it became durable; a failed write changes no history, and one that was undone leaves disk and size as they were; the writer keeps its file and lives unless the process died |
| `MutationLogs.MutationLog.Append` | addons/truenas/mutationlog.go:270-317 | an acknowledgement means exactly one more record with the given fields, and comes exactly when there is a file to write to and rotation and write succeed; none means no change; segments change only as a rotation changes them; the writer keeps its file unless a rotation could not reopen one |
| `MutationLogs.MutationLog.Take` | addons/truenas/mutationlog.go:115-394 | what one open, append or kill keeps |
| `MutationLogs.MutationLog.Run` | addons/truenas/mutationlog.go:115-394 | over every run: the log verifies but for an unrepaired torn tail; rotated segments stay as they were or go oldest first beyond `keep`; acknowledged records are read unless their whole segment went; reported counts never fall; every acknowledgement answers its own append with its own fields, and every append whose calls succeed, by a writer that was opened and has since neither died, nor lost its file, nor left a failed write behind, is acknowledged |
| `MutationLogs.ShelvedFewer` | addons/truenas/mutationlog.go:377-394 | removing one more oldest segment drops exactly its records |
| `MutationLogs.AppendOnResidue` | addons/truenas/mutationlog.go:307-324 | an append after a failed one verifies if and only if nothing was left behind |
| `MutationLogs.AppendNeedsSize` | addons/truenas/mutationlog.go:307-324 | the same by what the writer can read: it verifies if and only if the file is as long as the writer remembers |
| `MutationLogs.ResidueExample` | addons/truenas/mutationlog.go:307-324 | a failed fsync, a failed rollback and the same number written twice: the log no longer verifies |
| `MutationLogs.RotationNeedsClock` | addons/truenas/mutationlog.go:344-375 | a rotation verifies if and only if its stamp is newer than the last, or replaces the only rotated segment |
| `MutationLogs.RotationKeepsAll` | addons/truenas/mutationlog.go:344-375 | a rotation leaves every record readable if and only if no listed segment has its stamp, verified or not |
| `MutationLogs.RotationExample` | addons/truenas/mutationlog.go:344-375 | two rotations under one stamp lose a segment from the middle, and the log no longer verifies |
| `MutationLogs.SegmentReplaced` | addons/truenas/mutationlog.go:344-375 | an equal stamp overwrites a segment, which breaks the chain unless it was the only one |
| `MutationLogs.SegmentMisplaced` | addons/truenas/mutationlog.go:344-375 | an older stamp puts the segment before earlier ones, and the log no longer verifies |
| `Session.NAS.constructor` | addons/truenas/nas.go:150-156 | no session, nothing tried |
| `Session.NAS.RecordFailure` | addons/truenas/nas.go:334-343 | counts a failure, jumps to five on a rate limit, and from five on holds the breaker open for 11 minutes |
| `Session.NAS.Connect` | addons/truenas/nas.go:163-205 | a login happens exactly when no session is live, the breaker is not open and 15 seconds have passed since the last try; a session proven in the last 30 seconds makes none; what a success and a failure do to the counters |
| `Session.NAS.LogIn` | addons/truenas/nas.go:186-205 | one attempt: a success clears failures and breaker, a failure counts, and the fifth or a rate limit opens the breaker |
| `Session.NAS.RateLimited` | addons/truenas/nas.go:421-459 | a rate-limit answer on a live session opens the breaker for 11 minutes |
| `Session.NAS.Drop` | addons/truenas/nas.go:355-362 | a dropped session keeps every spacing promise |
| `Session.NAS.Answered` | addons/truenas/nas.go:380-382 | an answer proves the session as of now and keeps every promise |
| `Session.NAS.Run` | addons/truenas/nas.go:163-459 | any interleaving under a monotone clock: logins are spaced, the open breaker holds, and no minute holds more than five |
| `Session.AtMostFiveLogins` | addons/truenas/nas.go:24-33 | spaced logins mean at most five in any 60 seconds |
| `Session.OneLoginWhileOpen` | addons/truenas/nas.go:61-70 | once tripped and until a success, logins are at least a breaker cooldown apart |
| `Session.TrippedPersists` | addons/truenas/nas.go:334-343 | only a successful login closes the breaker |
| `Session.LoginSafe` | addons/truenas/nas.go:163-205 | a login the gate let through keeps every spacing promise |
| `DrainGate.Lifecycle.constructor` | addons/truenas/lifecycle.go:53-63 | an unknown configured state becomes read-only |
| `DrainGate.Lifecycle.Set` | addons/truenas/lifecycle.go:69-80 | sets state and reason if the state is one of the three known, and otherwise refuses without effect |
| `DrainGate.Lifecycle.Begin` | addons/truenas/lifecycle.go:104-116 | hands out a ticket if and only if active, check and count in one step |
| `DrainGate.DoneFunc.Call` | addons/truenas/lifecycle.go:113-115 | finishes its mutation once, however often it is called |
| `DrainGate.Lifecycle.Drained` | addons/truenas/lifecycle.go:124-127 | true if and only if not active and nothing is running |
| `DrainGate.InFlightExact` | addons/truenas/lifecycle.go:104-119 | on every run in-flight is the number begun and unfinished, never negative |
| `DrainGate.StaysShut` | addons/truenas/lifecycle.go:104-127 | without a reactivation nothing begins |
| `DrainGate.SetShuts` | addons/truenas/lifecycle.go:69-116 | after a set to draining or read-only nothing begins until the next set to active, whatever else happens |
| `DrainGate.SetOpens` | addons/truenas/lifecycle.go:69-116 | after a set to active every begin is let in and counted until the next set to draining or read-only |
| `DrainGate.DrainedIsStable` | addons/truenas/lifecycle.go:121-127 | a drained answer from two separate reads stays true until the next reactivation |
| `DrainGate.DrainedStableIff` | addons/truenas/lifecycle.go:121-127 | nothing runs after a drained answer until the next reactivation, whatever follows, if and only if the state was not active when the counter was read |
| `DrainGate.DrainedCanBeOvertaken` | addons/truenas/lifecycle.go:124-127 | with a reactivation between the two reads the answer is true one step before a mutation begins |
| `DrainGate.Play` | addons/truenas/lifecycle.go:53-127 | the gate and its finishing functions over any interleaving are the modelled run, and reads see its state and counter |
| `Lru.Cache.constructor` | backend/internal/claimserve/lru.go:28-30 | an empty cache of that capacity |
| `Lru.Cache.Put` | backend/internal/claimserve/lru.go:32-46 | list and map stay in step and refine the recency-ordered put |
| `Lru.Cache.Renew` | backend/internal/claimserve/lru.go:35-38 | a held key gets its new entry in front, all others keep their order |
| `Lru.Cache.Insert` | backend/internal/claimserve/lru.go:40-45 | a new key goes in front and only the last one can go |
| `Lru.Cache.Evict` | backend/internal/claimserve/lru.go:41-45 | the last of the list leaves both list and map |
| `Lru.Cache.Get` | backend/internal/claimserve/lru.go:48-58 | a hit returns the held entry and moves it to the front |
| `Lru.Cache.Drop` | backend/internal/claimserve/lru.go:60-67 | the key leaves list and map, nothing else moves |
| `Lru.Cache.Len` | backend/internal/claimserve/lru.go:69-73 | never above capacity |
| `Lru.AlwaysRecent` | backend/internal/claimserve/lru.go:11-13 | on every run keys are distinct, at most capacity, ordered by last touch, each with its last put value |
| `Lru.HitIsLastPut` | backend/internal/claimserve/lru.go:48-58 | a hit is the last value put for the key since its last drop |
| `Lru.EvictsLeastRecent` | backend/internal/claimserve/lru.go:40-45 | a put without room removes exactly the key touched longest ago |
| `Lru.AlwaysEvictedLast` | backend/internal/claimserve/lru.go:32-67 | a key put and not dropped is missing only if a capacity's worth of others was touched since |
| `Lru.Serve` | backend/internal/claimserve/lru.go:28-67 | the cache over any run holds what the run says, hits exactly the held keys, and answers the last value put |
| `Policy.DedupeStrings` | backend/internal/addons/policy.go:251-265 | each value once, ascending |
| `Policy.UnionSecretParams` | backend/internal/addons/policy.go:284-303 | exactly the secret names of policy and declaration, each once, ascending |
| `Policy.MeetFirst` | backend/internal/addons/policy.go:197-212 | the first declaration of an id, bounded by policy, is the meet so far |
| `Policy.MeetStep` | backend/internal/addons/policy.go:226-245 | combining with one more declaration gives the meet of one more |
| `Policy.MeetSameSet` | backend/internal/addons/policy.go:226-245 | the meet depends only on which declarations there are |
| `Policy.MeetUnique` | backend/internal/addons/policy.go:226-245 | the meet determines every field but the quoted reason |
| `Policy.ResolveOperations` | backend/internal/addons/policy.go:179-223 | one row per known declared id, ascending, each the meet of policy and all its declarations with the first reason given; unknown ids listed once |
| `Policy.FirstReasonMeans` | backend/internal/addons/policy.go:204-245 | the reason quoted is that of the first unavailable declaration, put into words when it gave none |
| `Policy.SortedRows` | backend/internal/addons/policy.go:214-220 | every row once, by id, whatever order the map is walked in |
| `Policy.MoreOnlyNarrows` | backend/internal/addons/policy.go:164-179 | more declarations narrow every row and remove none |
| `Policy.OrderDoesNotMatter` | backend/internal/addons/policy.go:179-223 | permuted or repeated declarations give the same rows |
| `Policy.PurgeStaysGuarded` | backend/internal/addons/policy.go:89-105 | whatever a manifest declares, purge stays admin-only, confirmed, with its key secret |
| `Policy.PolicyHolds` | backend/internal/addons/policy.go:56-149 | whatever a manifest declares, only setting a password and the storage status can be offered to a member, rotating a password and adopting, purging and releasing an account ask first, and passwords and elevated keys are secret |
| `Policy.MemberOffered` | backend/internal/addons/policy.go:56-149 | and those two are offered to a member when declared so, without a confirmation |
| `Idempotency.Store.Remember` | addons/truenas/store.go:92-104 | stores the result under the call id, with kind and time |
| `Idempotency.Store.Recall` | addons/truenas/store.go:111-138 | nothing for an unknown id or past 30 days, a refusal for an unreadable entry or another kind, the stored result otherwise |
| `Idempotency.Store.Sweep` | addons/truenas/store.go:141-170 | removes exactly the readable entries older than 30 days, leaves every other one as it was, and reports how many went |
| `Idempotency.Store.Handle` | addons/truenas/operations.go:110-172 | a call runs exactly when nothing stored answers it and no shut gate stops its kind, and is remembered exactly when it then succeeded and its kind is on the list |
| `Idempotency.OnlyReleaseIsForgotten` | addons/truenas/operations.go:166-172 | the kinds gated and remembered are all that alter the target or the bindings, but for a release |
| `Idempotency.Store.Serve` | addons/truenas/apply.go:347-418 | calls and sweeps as they come: the answers, the entries and the calls actually run are those of the modelled run |
| `Idempotency.StaysRemembered` | addons/truenas/store.go:92-170 | a remembered result stays through any calls and sweeps of its window |
| `Idempotency.ReplayIsSafe` | addons/truenas/operations.go:110-164 | a replay within the window gets the stored result, or a refusal at another kind, and runs nothing |
| `Idempotency.ReplayRunsIff` | addons/truenas/operations.go:166-172 | a replay of the same kind within the window runs again if and only if that kind is never remembered |
| `Idempotency.ReleaseRunsTwice` | addons/truenas/operations.go:166-172 | a release sent twice is carried out twice |
| `Idempotency.ReplayWindowEnds` | addons/truenas/store.go:111-138 | past the window the call runs again |
| `Idempotency.SweepsInvisible` | addons/truenas/store.go:141-170 | sweeps inserted anywhere change no answer |
| `Subjects.GroupIndex` | addons/truenas/subjects.go:245-261 | an id or a name resolves to what the last row with it says, and to nothing without one |
| `Subjects.IndexMeans` | addons/truenas/subjects.go:245-261 | both tables and the built-in set, entry by entry, in terms of the rows |
| `Subjects.LastDecides` | addons/truenas/subjects.go:245-261 | the last row with an id, or with a name, decides what it resolves to |
| `Subjects.DistinctRowsOneToOne` | addons/truenas/subjects.go:245-261 | a list without repeats is read one-to-one |
| `Subjects.GroupIdsFor` | addons/truenas/subjects.go:375-398 | resolves a list if and only if every name is known and none is built in |
| `Subjects.ReadMemberships` | addons/truenas/subjects.go:173-188 | managed memberships by name, built-in ones by id |
| `Subjects.ReadSubjects` | addons/truenas/subjects.go:130-210 | truncation is decided on what was sent, 5000 rows at most, before system accounts are dropped |
| `Subjects.ReadIffSent` | addons/truenas/subjects.go:190-232 | a subject is read exactly when a row for it was sent that is not built in and has a uid of 1000 or more |
| `Subjects.ReadConcat` | addons/truenas/subjects.go:190-232 | rows are read in the order sent, each on its own |
| `Subjects.WrittenIsRead` | addons/truenas/subjects.go:375-398 | names written as ids are read back as those names and touch no built-in group |
| `Subjects.OrderUnread` | addons/truenas/subjects.go:173-188 | the order a target stores memberships in shows in nothing read back |
| `Subjects.SameSetMeans` | addons/truenas/apply.go:1086-1100 | the comparison is equality of multisets |
| `Subjects.FingerprintExact` | addons/truenas/apply.go:301-319 | equal bytes if and only if both absent, or equal username, uid, enabled, SMB and groups as a multiset |
| `Target.RecordedRules` | scripts/lib/record-truenas.py:302-320 | the recorded cases, of any account: which creates are refused, that a password alone enables nothing, and that SMB goes on only with a new password and enabled authentication in one call |
| `Converge.HomeGiven` | addons/truenas/home.go:77-112 | a home is made if and only if one is due and its folder is free or owned by this very number, at root, slash, name; when that cannot be told; when the outcome says why not |
| `Converge.LimitGiven` | addons/truenas/home.go:150-187 | a limit is owed if and only if it is managed, given, and not what the home's dataset says already |
| `Converge.PlanIsApply` | addons/truenas/plan.go:213-263 | the plan says apply exactly when the apply makes a mutating call, which is exactly when a managed field differs or a home or limit is owed; it is blocked exactly when a home is due and its folder cannot be read |
| `Converge.PlanIsWritten` | addons/truenas/apply.go:675-776 | the update carries exactly the fields in which the planned state differs |
| `Converge.ChangeIsCarried` | addons/truenas/apply.go:630-672 | a decided change and its update say the same thing, a change that writes changes something, and SMB is pending exactly when it is still not as desired |
| `Converge.PatchShape` | addons/truenas/apply.go:675-723 | field by field what the update says, as equivalences; SMB is never switched on by it, and a home is in it if and only if one is due and its folder is free or the account's own |
| `Converge.DoneIff` | addons/truenas/apply.go:675-776 | an apply can be carried out if and only if the groups that change resolve, the folder is readable where a home is due, and the limit is readable where nothing else is written |
| `Converge.CallsAre` | addons/truenas/apply.go:675-776 | its calls: one update exactly when something differs, then one limit exactly when it is owed, to the dataset and of the size wanted |
| `Converge.ConvergesInOne` | addons/truenas/apply.go:675-856 | after one apply managed fields are as desired, built-in memberships and unmanaged fields as before |
| `Converge.SecondApplyIsQuiet` | addons/truenas/apply.go:764-776 | the same apply again makes no mutating call, whatever the target now says of a folder the first one made, and succeeds if and only if the folder is readable where a home is still due and the limit where one is asked for |
| `Converge.Settled` | addons/truenas/home.go:77-187 | after an apply neither the home nor its limit is owed |
| `Converge.UnlistedIsLost` | addons/truenas/apply.go:679-692 | the full replace keeps every unmanaged membership if and only if the group table lists every membership |
| `Converge.UnlistedExample` | addons/truenas/apply.go:679-692 | a membership of an unlisted group is not in the replacement |
| `Locating.SubjectWhere` | addons/truenas/apply.go:1028-1040 | what is found matches the key and is on the target; nothing found in an uncut list means nothing there |
| `Locating.LocateAccount` | addons/truenas/apply.go:511-603 | creation is possible only where the subject has no account; a converged account is the subject's own, never against an in-range bound uid, and its in-range number is the one bound; a conflict is a real one, with the name and the number of the account in the way |
| `Invariants.SmbUpdate` | addons/truenas/apply.go:675-723 | an allowed update that does not enable SMB on an off account keeps the SMB promise |
| `Invariants.SmbCreate` | addons/truenas/apply.go:873-901 | so does an account created without SMB under a new number |
| `Invariants.SmbBind` | addons/truenas/store.go:312-336 | so does a binding to a name nobody else holds |
| `Invariants.SmbWant` | addons/truenas/apply.go:487-500 | so does recording the wish of a successful apply |
| `Invariants.SmbUnbind` | addons/truenas/store.go:344-348 | so does forgetting a binding |
| `Invariants.SmbDelete` | addons/truenas/operations.go:463-465 | so does deleting an account |
| `Invariants.HomeUpdate` | addons/truenas/home.go:77-112 | a home set to a free or own folder keeps every folder with one number |
| `Invariants.HomeCreate` | addons/truenas/apply.go:906-955 | so does an account created with a claimed number and a free folder |
| `Invariants.HomeRename` | addons/truenas/apply.go:551-566 | so does a rename by hand |
| `Invariants.HomesNeverShared` | addons/truenas/home.go:77-112 | no folder has been given to two numbers, and no two created accounts share a home |
| `Changes.OffWithPassword` | addons/truenas/operations.go:256-259 | a password switches SMB on only for a subject who wants it on, never for one with it off |
| `Changes.OffWithPurge` | addons/truenas/operations.go:423-483 | a purge takes its own subject's account and leaves everybody else's SMB state alone |
| `Changes.ApplyKeeps` | addons/truenas/apply.go:614-622 | an apply can end another subject's SMB-off state never, and its own subject's only by wanting SMB on |
| `Changes.HomesAreOwned` | addons/truenas/home.go:77-112 | a created account's home belongs to its own number |
| `Changes.HomesWereFree` | addons/truenas/identity.go:7-12 | a number claimed during a run had no folder before it, so no home given in the run was there before |
| `Changes.TakesOverIff` | addons/truenas/home.go:77-112 | a folder that is already there goes to an account if and only if the account's number owns it |
| `AddOns.AddOn.constructor` | addons/truenas/store.go:48-66 | the target as found and the store as it was left, any contents |
| `AddOns.AddOn.ClaimId` | addons/truenas/store.go:392-412 | a number is claimed if and only if one is left; it is the very next above the stored mark and the observed maximum, and becomes the mark; a refused claim changes nothing |
| `AddOns.AddOn.NextIdentity` | addons/truenas/identity.go:44-72 | the number exceeds every in-range uid and gid on the target and every number claimed before, and the one just below it is such a number or the bottom; there is one if and only if one is left |
| `AddOns.HighestIn` | addons/truenas/identity.go:44-72 | the highest in-range number of a table |
| `AddOns.AddOn.BindIfFree` | addons/truenas/store.go:312-336 | binds if and only if no other subject holds the name |
| `AddOns.AddOn.Query` | addons/truenas/apply.go:1028-1040 | every matching account is answered; a target that ignores the filter answers all |
| `AddOns.AddOn.LookupOne` | addons/truenas/subjects.go:450-473 | the only answer, none, or a refusal to choose; it matches the key if and only if the target filtered or the one account there is matches anyway |
| `AddOns.AddOn.RecordId` | addons/truenas/subjects.go:415-437 | from a target that filters, the account with the bound uid, or the one with the bound name when no account has that uid; from one that does not, an answer if and only if it holds one account |
| `AddOns.AddOn.UserUpdate` | scripts/lib/record-truenas.py:302-320 | takes effect whole or not at all, is refused exactly by the recorded rules, makes a folder for its own number only, keeps both run invariants |
| `AddOns.AddOn.UserCreate` | scripts/lib/record-truenas.py:302-320 | adds exactly the given account and its folder or nothing, counts a refusal exactly when the rules say so, and keeps both run invariants |
| `AddOns.AddOn.ConvergeAccount` | addons/truenas/apply.go:675-856 | the account becomes exactly what the decided update says, or stays as it was without success; success exactly when the reads and the first call work; no update is refused by the rules; no other account changes |
| `AddOns.ConvergesIff` | addons/truenas/apply.go:675-856 | exactly which reads and calls success hangs on: the update works if anything differs, else the limit can be read and set if it is asked for and owed |
| `AddOns.PlannedKeeps` | addons/truenas/apply.go:675-723 | such a success leaves managed fields as desired, every built-in membership and unmanaged field as it was, and a home exactly where one was due and its folder free or the account's own |
| `AddOns.AddOn.MakeGroup` | addons/truenas/apply.go:906-927 | the personal group, taken again when the answer to its creation was lost |
| `AddOns.AddOn.CreateHomed` | addons/truenas/apply.go:932-955 | one account more or none, and one exactly when its home can be decided, its id and name are free and the call works; its home is its own folder exactly when one is due and nobody has it, and the placeholder otherwise |
| `AddOns.AddOn.CreateNumbered` | addons/truenas/apply.go:906-955 | group, then account under the same claimed number, exactly when both can be made; exactly which group is left behind when not; the home as above |
| `AddOns.AddOn.MakeAccount` | addons/truenas/apply.go:859-955 | an account is made if and only if the name is valid, the groups resolve, a number and the record id and name are free, the stat is readable and the calls work; at most one more, under the next number, with a group of that number, the home that is due and no SMB |
| `AddOns.AddOn.CreateAndConverge` | addons/truenas/apply.go:859-1007 | succeeds if and only if the account can be made, nobody else is bound to its name and it can be read back; the subject is bound to exactly its name and number also where it cannot be read back; nobody else's binding or account changes |
| `AddOns.AddOn.FindAccount` | addons/truenas/apply.go:511-603 | the same with the binding brought up to date, in-range number included; only the subject's own binding changes, and while bindings and target agree no name moves |
| `AddOns.AddOn.LocateFor` | addons/truenas/apply.go:511-603 | what is found is the subject's own account as the target holds it; not finding one that is there means a real conflict or a cut list |
| `AddOns.AddOn.RememberWanted` | addons/truenas/apply.go:487-500 | the binding carries the wish of the last successful apply |
| `AddOns.AddOn.WriteAccount` | addons/truenas/apply.go:459-481 | makes the account where there is none and converges it where there is one, touching no other and giving nobody SMB; afterwards account and binding name each other and managed fields are as desired |
| `AddOns.AddOn.Settle` | addons/truenas/apply.go:459-481 | the same with the wish recorded: listed as off exactly when off was wanted |
| `AddOns.AddOn.Carry` | addons/truenas/apply.go:452-481 | nothing is written unless what was found is what the fingerprint was made of, and no create unless the absence is certain |
| `AddOns.AddOn.Apply` | addons/truenas/apply.go:421-481 | only the subject's own account is written to, as the decided update says, and only if its fingerprint still holds; no group, number or account is made while the subject has one; success means the account is as desired; it comes exactly when the calls on the account work or, for a subject without one, when a create works, which leaves the home that is due, a group of the same number, and exactly that name and number bound; both run invariants kept, at most one number used, no refusal drawn, no other binding changed |
| `AddOns.AddOn.ApplyPlanned` | addons/truenas/apply.go:452-457 | with a digest that tells them apart, an account that moved, vanished or appeared since the plan means nothing is written to the target; for one that did not, success comes exactly when its calls work and means the account is as desired by exactly the decided update; so too for a planned create |
| `AddOns.AddOn.SetCredential` | addons/truenas/operations.go:236-270 | password, password authentication and, when asked for, SMB in one call the rules never refuse |
| `AddOns.AddOn.SetPassword` | addons/truenas/operations.go:224-290 | a usable password on the bound account, with SMB on exactly if it was or the recorded wish says so; never refused by the rules, and succeeds whenever the account is there and the call works |
| `AddOns.AddOn.OnOnlyWhenWanted` | addons/truenas/operations.go:256-259 | a subject who wants SMB on never resolves to an account last applied with it off |
| `AddOns.AddOn.Rotate` | addons/truenas/operations.go:367-395 | a usable password on the bound account, SMB as it was |
| `AddOns.AddOn.Release` | addons/truenas/operations.go:337-360 | the binding goes and nothing else |
| `AddOns.AddOn.UserDelete` | addons/truenas/operations.go:463-465 | exactly the one account goes, unless refused |
| `AddOns.AddOn.Purge` | addons/truenas/operations.go:423-483 | for a bound account that is there and known not to be the add-on's own, success exactly when the call works, and the account goes unless it is refused, also when the answer is lost; its binding goes with it when the store allows; never the account the add-on logs in with |
| `AddOns.AddOn.Adopt` | addons/truenas/operations.go:1028-1124 | binds an unbound subject to an existing account nobody holds, by its name and its number, with no wish, never rebinds, and never to the account the add-on logs in with |
| `AddOns.AddOn.Rename` | addons/truenas/apply.go:551-566 | a rename by hand keeps the home invariant |
| `AddOns.AddOn.Take` | addons/truenas/apply.go:421-1007 | what every single step keeps, and which subjects' SMB-off state it may end |
| `AddOns.AddOn.Run` | addons/truenas/operations.go:174-200 | what every run keeps: both invariants, no refusal by the rules, untouched wishes, SMB off for every subject no step unsettles, folders with their owners, numbers that only rise, and by at most one for every apply |
| `AddOns.AddOn.EnrolAll` | addons/truenas/identity.go:7-72 | while n numbers are left, n newcomers whose calls work all get an account, a group and a binding, under the next n numbers in order |
| `AddOns.AddOn.Enrol` | addons/truenas/apply.go:421-481 | one of them: the apply succeeds, with the very next number |
| `AddOns.AddOn.OffUntilWantedOn` | addons/truenas/apply.go:614-622 | a subject applied with SMB off stays bound with it off, and no account of that name has it, after any run without an apply for that subject that wants it on or a release or purge of that subject |
| `AddOns.AddOn.OnFromNextPassword` | addons/truenas/operations.go:236-259 | after an apply that wanted SMB on, and any run that leaves the wish alone, the next password leaves SMB on |
| `AddOns.RunFromStart` | addons/truenas/identity.go:7-29 | from a store and target that agree, over every run: one number per folder, no shared homes, every created account's home owned by its own number and not a folder that was already there, and no refusal while nobody changes who an account is |

## Left out

- HTTP handlers, status codes, JSON decoding of desired states, and every sentence of an outcome: no deep property.
- TLS, key derivation, signatures and the WebSocket client: the record and fingerprint hashes are functions assumed free of collisions only where a statement says so.
- The storage engine and the file system: a store transaction is one step, and the disk is whole lines plus at most one unfinished one. Durability of a rename, and the scanner's line limit, are not modelled.
- 64-bit wrap-around of record numbers and 64-bit ids: numbers are unbounded.
- MutationLogs.MutationLog.Run: a process that failed to roll back a write is restarted before its next append, and rotation stamps rise; what happens otherwise is `AppendNeedsSize` and `RotationNeedsClock`.
- Session.NAS.Run: the clock starts at least one reconnect cooldown after the zero time, as any real clock does.
- AddOns.AddOn.MakeAccount: a group of the same name that an older attempt left behind is not taken over, so a refused group ends the attempt; the number of such a group is not freshly claimed, and by `Changes.TakesOverIff` an account made under it gets whatever folder of its name that number owned before. A group made by this very attempt whose answer was lost is taken over.
- AddOns.AddOn.Run: the SMB half assumes nobody else renames or makes accounts, because finding an account by uid follows a rename without checking the other bindings; the home half assumes other hands use only numbers outside the add-on's range.
- AddOns.RunFromStart: a store whose bindings disagree with the target, such as those of older versions that hold a record key in place of a uid, and in-range numbers in use above the stored mark are not starting states of runs; `Locating.LocateAccount` covers the former.
- AddOns.AddOn.SetPassword: like rotation and purge, asks a target that honours the filter; what one that does not would do is in `RecordId` and `LookupOne`.
- AddOns.AddOn.CreateAndConverge: the home folder limit set after a create, whose failure changes no outcome, is left out.
- AddOns.AddOn.Purge: the elevated session is left out, and letter case is folded for ASCII only; adoption leaves out the trimming of names.
- Converge.PlanIsApply: the plan of an account that does not exist yet, and the wording of any plan, are left out; where homes may be placed is one flag of the quota read.
- A home path is root, slash, name; cleaning of paths is left out.
- Settings, health, activity, storage, reach, name derivation, refresh and people views: reads or single-pass functions that would only add easy members. A derived name is a parameter.
- The user interface, design files, recording script (except as the source of the target's rules), entry points and the backend's transport to add-ons.
