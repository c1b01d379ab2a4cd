# Verification of the policy agent

A Dafny model of the parts of the custom policy agent in which one component must agree with another
over all runs or all inputs, with proofs that they do, or of the exact condition under which they do.
`dafny verify dfyconfig.toml` checks everything.

## What is modelled

* **Cache and store** (`CacheProtocol`, `CacheCoherence`, `LockGate`, `Calls`, `CallAnswers`, `Heap`,
  `PolicyService`).
  A machine whose steps are the atomic sections of the service: the miss, the storage read and the cache
  write of a retrieve, saves, lock changes, schedule writes, the listener taking an event and purging, and
  a sender giving up. Runs are arbitrary interleavings. Three layers are connected by proof: the methods of
  the service on real heap objects compute the functions of `Calls` on the shared state; calls made one
  after another are runs of the machine; and the theorems are about all runs of the machine. On the heap
  every section may be interleaved with any other: objects once handed out stay outside the store, with
  their fields.
* **Data refresh lease** (`RefreshLease`, `Polling`, `Refreshing`). Claims, settlements and imports as timed
  steps of any number of refreshers. A poll and an execution over heap
  objects are proved to be legal steps of it, in any interleaving of several refreshers.
* **did:web** (`Escaping`, `DidWeb`). The printer and the parser as loops, their meaning as functions on
  segments, and exact round-trip conditions in both directions.
* **Bundles** (`Bundles`, `BundleResults`, `BundleAnswers`). Export, the key behind the URL in the metadata, signature check
  and the rebuilding pass, down to import through the exporting host.
* **Repository and database** (`Clone`, `GitSync`, `SyncResults`). The repository walk, the comparison by key
  and the upsert by four fields: convergence, idempotence, and locks.
* **Automatic import** (`AutoImport`). The schedule of the Mongo collection as timed polls, and the import pass.
* **Credential manager functions** (`Ocm`). The two loops.

Times are integers in nanoseconds with Go's zero time at 0. The refresh postpone period is the five
minutes of `internal/storage/types.go:10`. Code of other libraries (Rego, JSON Schema, JSON, zip, SHA-256,
signatures, HTTP responses) is a function parameter; only the inverse laws of `Bundles.Library.Lawful` are
assumed of it.

## Where the code does less than its comments or callers suggest

* The cache key joins four parts with commas, and requests can carry commas. Settled caches answer as the
  store exactly for sets of identities without collisions (`CacheCoherence.AnswersAsStoreIffCollisionFree`).
* The key of policy maps joins them with dots. A synchronisation keeps locks, and is idempotent, exactly for
  sets of identities without collisions (`SyncResults.LocksSafeIffInjective`, `SyncResults.IdempotentIffInjective`).
* A lock is not always effective. A locked policy is still admitted exactly when the cache entry was last
  written from a read before the lock and not purged since (`LockGate.AdmittedIffEarlierRead`). A late write
  and a dropped event are two ways there (`LockGate.LateWriteHidesLock`, `LockGate.DroppedEventHidesLock`).
* An unlock likewise: the policy is still refused exactly when the entry was last written from a locked read
  before it and not purged since (`LockGate.RefusedIffEarlierRead`).
* Of two locks of one policy, or two unlocks, that nothing else interferes with, the one that writes later
  succeeds as well exactly when it has read before the other writes (`LockGate.SecondSucceedsIffOverlap`, with
  `LockGate.OverlappingChangesBothSucceed` as an input).
* A synchronisation reads the rows and writes them later. A lock survives exactly when its policy was not
  selected or the lock is still the one that was read (`SyncResults.LockSurvivesIff`, `SyncResults.LockBetweenIsLost`).
* A refresher that takes longer than the postpone period shares its policy (`RefreshLease.LateHolderIsJoined`).
* A retired schedule stays retired exactly when nobody holds it with a usable configuration
  (`RefreshLease.RetiredForeverIff`), so a late settlement undoes an import (`RefreshLease.LateSettleRevives`).
* In memory storage nothing ever writes a first refresh time (`Clone.RepositoryIsNeverRefreshed`).
* `urlToDID` escapes path segments and `didToURL` does not unescape them, so a segment outside the unreserved
  set is escaped once more on each trip (`DidWeb.AtSignDoesNotRoundTrip`).
* `ActiveImportConfigs` only logs a failed re-arm, so the configuration is claimed again at every poll until
  one succeeds (`AutoImport.FailedRearmIsClaimedAgain`); and stored dates keep milliseconds, so a claim may come
  up to a millisecond before the interval has passed (`AutoImport.ClaimedEarly`).

## Model

| member | source | states |
|---|---|---|
| Policies.KeyInjective | internal/clone/clone.go:168-170 | Both keys determine the identity when the first three parts lack the separator, whatever the version contains |
| Policies.KeyCollides | internal/service/policy/service.go:699-701 | A separator inside a part may as well be the boundary to the next: two different identities share a key at each of the three boundaries, for all parts |
| Policies.AmbiguousIffSeparatorInside | internal/clone/clone.go:168-170 | An identity shares its key with another one if and only if one of its four parts contains the separator |
| CacheProtocol.CacheHoldsStoredPolicies | internal/service/policy/service.go:679-697 | In every reachable state, each cached policy was the stored one at the recorded step in which its writer read it, under a request that was made |
| CacheProtocol.CommaFreeIsCollisionFree | internal/service/policy/service.go:699-701 | Identities without commas before the version never share a cache key without sharing a store key |
| CacheProtocol.RequestsCanCollide | internal/service/policy/service.go:699-701 | Two identities that requests can ask for and that share a cache key but no store key |
| CacheCoherence.CoherenceKept | internal/service/policy/service.go:679-697 | Every step but a dropped event of the policy keeps the coherence of its entries and of its retrieves in flight |
| CacheCoherence.StaleEntriesAreExcused | internal/storage/memory/storage.go:67-113 | In every run without a dropped event of a policy, a cached copy that differs from the store has an event of that very policy outstanding, or was read before the latest purge |
| CacheCoherence.CleanEntriesAreCurrent | internal/regocache/regocache.go:24-48 | With timely cache writes every cached policy was read after the latest purge |
| CacheCoherence.SettledCacheAnswersAsStore | internal/service/policy/service.go:679-697 | After a clean run with all events delivered, a retrieve answers as the storage does, missing policies included |
| CacheCoherence.DrainDelivers | internal/storage/memory/storage.go:179-201 | Delivering the waiting events one by one, in any order, ends in two steps an event with none left and the store untouched |
| CacheCoherence.QuiescenceAfterDrain | internal/storage/memory/storage.go:179-201 | Any clean run followed by the delivery of its events, in any order, answers every request as the storage does |
| CacheCoherence.CollisionGivesWrongAnswer | internal/service/policy/service.go:699-701 | Two requests with one cache key and two store keys: the second gets the first one's policy |
| CacheCoherence.AnswersAsStoreIffCollisionFree | internal/service/policy/service.go:679-701 | Settled caches answer as the store for all runs over a set of identities if and only if no two of them collide |
| LockGate.LockPersists | internal/storage/memory/storage.go:91-113 | A stored lock, or its absence, survives every interleaving of steps other than writes of the opposite for that policy |
| LockGate.EntryIsLatestWrite | internal/regocache/regocache.go:24-48 | In every run the cache holds exactly what the latest write of each entry since the latest purge put there |
| LockGate.WriterHasRead | internal/service/policy/service.go:686-693 | A retrieve that writes has read its policy from the store at the earlier step it records |
| LockGate.AdmittedIffEarlierRead | internal/service/policy/service.go:618-628 | Exactly what a lock does in every interleaving: an evaluation is still admitted if and only if the latest write of the cache entry since the latest purge came from a read before the lock; otherwise it is refused |
| LockGate.RefusedIffEarlierRead | internal/service/policy/service.go:618-628 | And what an unlock does: an evaluation is still refused if and only if the latest write of the cache entry since the latest purge came from a read, still locked, before the unlock |
| LockGate.CurrentAfterPurge | internal/regocache/regocache.go:38-48 | From any purge on, timely writes of one cache entry keep that entry free of older reads |
| LockGate.LockTakesEffect | internal/service/policy/service.go:618-628 | From the first purge after a lock, whichever event caused it, every evaluation is refused until an unlock or a replacement, as long as writes of this one entry are timely |
| LockGate.LateWriteHidesLock | internal/service/policy/service.go:686-693 | A run without dropped events in which a locked policy is still admitted with no event outstanding |
| LockGate.DroppedEventHidesLock | internal/storage/memory/storage.go:104-110 | A run with timely writes and one dropped event with the same outcome |
| LockGate.ChangesAlternateOrOverlap | internal/service/policy/service.go:239-310 | With the read and the write of a call as separate steps, two successful locks, or two successful unlocks, have a step between them that may undo the first unless the second read before the first wrote |
| LockGate.SecondSucceedsIffOverlap | internal/service/policy/service.go:239-310 | When both of two locks, or two unlocks, succeed: given the first, and no other write of the lock between the reads, the one that writes later succeeds if and only if it read before the other wrote |
| LockGate.OverlappingChangesBothSucceed | internal/service/policy/service.go:239-310 | An example: two reads and then two writes, from any state in which the policy can be changed; both calls succeed |
| Calls.ValidateNeverUnlocks | internal/service/policy/service.go:188-236 | Validating never unlocks any policy and changes nothing but locks, whatever its outcome |
| Calls.ValidateLocksOnRejection | internal/service/policy/service.go:221-232 | A validation locks the policy it validated exactly when the lock is configured and the schema rejected its output, and changes the lock of no other policy |
| Calls.LockEffect | internal/service/policy/service.go:239-310 | For every call and policy: it loses its lock if and only if the call is a successful unlock of it, and gains it if and only if the call is a successful lock of it or a validation that rejects its output |
| Calls.LocksAndUnlocksAlternate | internal/service/policy/service.go:239-310 | Over whole runs, two successful locks of a policy have an unlock of it between them, two unlocks a lock of it or a validation that rejects its output |
| Calls.CallIsRun | internal/service/policy/service.go:106-310 | Each call is a clean stretch of machine steps with the same effect |
| Calls.CallsAreRun | internal/service/policy/service.go:106-310 | So calls one after another are a clean run, whatever their number and order |
| Calls.RetrievedIsStored | internal/service/policy/service.go:679-697 | In every run of calls the policy a retrieve returns is stored under the key of the request |
| Calls.RejectionLocks | internal/service/policy/service.go:221-232 | After any calls, a schema failure with the lock configured fails and leaves the stored policy locked |
| Calls.RejectedPolicyIsRefused | internal/service/policy/service.go:188-236 | Once events have drained, every later evaluation of a rejected policy is refused until an unlock or a save |
| CallAnswers.RetrieveAnswers | internal/service/policy/service.go:679-697 | After a clean run with all events delivered, a retrieve gives the stored policy, equal in every field but the schedule, or not found |
| CallAnswers.EvaluateAnswers | internal/service/policy/service.go:106-185 | Then an evaluation answers not found, refused, failed, or the output of evaluating the stored policy, each exactly in its case |
| CallAnswers.EvaluatesToIff | internal/service/policy/service.go:106-185 | A result is the answer if and only if the stored policy is unlocked, evaluates to it, and the external cache does not refuse it |
| CallAnswers.EvaluateGate | internal/service/policy/service.go:618-628 | At any time, settled or not, an evaluation is refused exactly when the lock gate refuses it |
| CallAnswers.ValidateAnswers | internal/service/policy/service.go:188-236 | A validation answers only an output that the stored policy's schema accepts, with the error of each other case |
| CallAnswers.LockAnswers | internal/service/policy/service.go:239-278 | Locking answers from the stored lock, changes only that lock, raises one event, and changes nothing when it fails |
| CallAnswers.UnlockAnswers | internal/service/policy/service.go:280-310 | Unlocking likewise |
| CallAnswers.SavedStays | internal/storage/memory/storage.go:67-89 | From a save until the next save or lock of its key, the store holds what was saved, in every interleaving; only a refresh can change the schedule |
| CallAnswers.SavedIsRetrieved | internal/storage/memory/storage.go:67-89 | And once the events of a clean run are delivered, a retrieve of its identity gives it |
| Heap.RegoCache.Set | internal/regocache/regocache.go:24-28 | The cache holds the object under the key, and its values change at that key only |
| Heap.RegoCache.Get | internal/regocache/regocache.go:30-35 | The object under the key, or none |
| Heap.RegoCache.Purge | internal/regocache/regocache.go:38-42 | The cache is empty |
| Heap.RegoCache.PolicyDataChange | internal/regocache/regocache.go:45-48 | Any change empties the whole cache |
| Heap.MemoryStorage.constructor | internal/storage/memory/storage.go:42-53 | A storage over a filled map, no event waiting |
| Heap.MemoryStorage.Policy | internal/storage/memory/storage.go:55-65 | A new object with the stored value, or not found exactly when the key is absent |
| Heap.MemoryStorage.SavePolicy | internal/storage/memory/storage.go:67-89 | The caller's object is stored under its key, nothing else changes, one event of that key more waits |
| Heap.MemoryStorage.SetPolicyLock | internal/storage/memory/storage.go:91-113 | The lock of the stored object changes in place and one event of it waits; an unknown policy changes nothing |
| Heap.MemoryStorage.TakeChange | internal/storage/memory/storage.go:184 | The received event no longer waits and is the listener's |
| Heap.MemoryStorage.DeliverChange | internal/storage/memory/storage.go:185-196 | The listener's event is passed on: every subscriber cache before the first failing subscriber is empty, and a failure is returned, which ends the listener |
| Heap.MemoryStorage.UpdateNextRefreshTime | internal/storage/memory/storage.go:160-173 | Only the schedule of that policy changes; unknown policies are reported |
| Heap.MemoryStorage.ClaimIfDue | internal/storage/memory/storage.go:148-154 | Copies and postpones a policy exactly when its time is non-zero and past |
| Heap.MemoryStorage.GetRefreshPolicies | internal/storage/memory/storage.go:142-158 | One poll visits every policy once, returns copies of the due ones as they were, and postpones exactly those |
| PolicyService.Service.constructor | internal/service/policy/service.go:69-104 | Store and cache start without a shared object, with the cache and the notifier as subscribers |
| PolicyService.Service.ReadStored | internal/service/policy/service.go:687-690 | The storage read of a retrieve hands out a private copy, which joins the objects that no store write reaches |
| PolicyService.Service.WriteCached | internal/service/policy/service.go:693 | Caching any object read in an earlier section, whatever happened since, is the machine's step and keeps all objects handed out disjoint from the store |
| PolicyService.Service.WriteLock | internal/service/policy/service.go:267-278 | The lock write is the machine's step, and every object ever handed out keeps its fields although the store writes in place |
| PolicyService.Service.WriteStored | internal/storage/memory/storage.go:67-89 | A save stores exactly the given policy under its key in a new object, raises one event of it, and changes nothing else |
| PolicyService.Service.LateWrite | internal/service/policy/service.go:686-693 | On real objects: a retrieve that reads before a lock and writes after its purge leaves the policy admitted, with every event delivered |
| PolicyService.Service.Take | internal/storage/memory/storage.go:184 | The listener's receive of a waiting event is the machine's take |
| PolicyService.Service.Purge | internal/storage/memory/storage.go:185-196 | Passing the event on is the machine's purge, even when the notifier fails afterwards |
| PolicyService.Service.RetrievePolicy | internal/service/policy/service.go:679-697 | Returns the cached object, or caches a private copy of the stored one; the returned object stays outside the store through all later calls |
| PolicyService.Service.Evaluate | internal/service/policy/service.go:106-185 | The gate, the evaluation and the storing of the result in the external cache have the result and effect of the call function |
| PolicyService.Service.LockHeld | internal/service/policy/service.go:267-278 | Refuses a policy held as locked, else locks the stored one by its own identity |
| PolicyService.Service.Lock | internal/service/policy/service.go:239-265 | Locks a stored unlocked policy, with the error of each other case |
| PolicyService.Service.Unlock | internal/service/policy/service.go:280-310 | Unlocks a stored locked policy, with the error of each other case |
| PolicyService.Service.Validate | internal/service/policy/service.go:188-236 | Every branch of a validation with its result and its effect on store, cache and events |
| PolicyService.Service.Deliver | internal/storage/memory/storage.go:184-196 | One uninterrupted turn of the listener is the two sections in sequence |
| PolicyService.Service.ExportBundle | internal/service/policy/service.go:312-380 | The archive or the error of an export of the stored policy |
| PolicyService.Service.PolicyPublicKey | internal/service/policy/service.go:384-416 | The signer's key for the stored export configuration, or the error |
| PolicyService.Service.ImportBundle | internal/service/policy/service.go:419-466 | An accepted archive stores exactly the answered policy under its key and raises one event; a refused one changes neither store nor events |
| PolicyService.Service.TryImport | internal/service/policy/autoimport.go:46-58 | One configuration is counted exactly when download and import succeed |
| PolicyService.Service.DoImport | internal/service/policy/autoimport.go:43-62 | Counts exactly the successes and has the effect of their saves in order, whatever failed before |
| PolicyService.Service.AutoImportTurn | internal/service/policy/autoimport.go:21-38 | One turn tries every due configuration once and no other |
| RefreshLease.ClaimsAreSpaced | internal/storage/memory/storage.go:142-173 | Claims of one policy that nothing else rescheduled are more than the postpone period, five minutes in nanoseconds, apart, in every run |
| RefreshLease.PromptRefreshersExclude | internal/storage/types.go:10 | If every claim is settled within the postpone period, no policy ever has two outstanding claims |
| RefreshLease.LeaseIsExact | internal/storage/memory/storage.go:148-153 | After any run, another refresher gets a claimed and not rescheduled policy at a moment if and only if the lease has run out |
| RefreshLease.LateHolderIsJoined | internal/storage/memory/storage.go:148-153 | A run in which a slow holder shares its policy |
| RefreshLease.RetiredForGood | internal/service/policy/policydata/refresher.go:80-130 | Zero is absorbing, and a policy with a usable configuration and positive period never becomes zero |
| RefreshLease.RetiredForeverIff | internal/service/policy/policydata/refresher.go:80-130 | A zero time is absorbing over all runs without an import if and only if nobody holds the policy with a usable configuration |
| RefreshLease.NeverRetiredIff | internal/service/policy/policydata/refresher.go:80-130 | A scheduled policy stays scheduled over all runs without an import if and only if its configuration and those of all its holders are usable |
| RefreshLease.LateSettleRevives | internal/service/policy/policydata/refresher.go:127 | So an import between claim and settlement does not retire the policy for good |
| RefreshLease.UnscheduledStaysSo | internal/storage/memory/storage.go:148 | Where no policy has a refresh time, no run ever contains a claim |
| RefreshLease.NextTimeIsBounded | internal/service/policy/policydata/refresher.go:80-130 | The next time is never later than the last touch plus the larger of postpone period and refresh period |
| RefreshLease.NeverForgotten | internal/storage/memory/storage.go:142-158 | So after any run a poll past that bound claims the policy |
| RefreshLease.PollAcquires | internal/storage/memory/storage.go:142-158 | After a poll the claims are the earlier ones and one for each claimed policy; nothing else moved |
| RefreshLease.SettleNext | internal/service/policy/policydata/refresher.go:63-65 | Settling claims in order is always possible and writes the time the configuration demands |
| Polling.VisitsArePoll | internal/storage/memory/storage.go:147-155 | The visits of a poll, in any map order, are legal claims that account for the store and miss nothing due |
| Polling.CopiesMatchSteps | internal/storage/memory/storage.go:149-150 | The copies handed out are those of the claimed policies, in order |
| Refreshing.PollHandsOut | internal/service/policy/policydata/refresher.go:56-63 | What a poll hands out is stored, claimed, and carries the configuration its claim was taken with |
| Refreshing.SettleHeld | internal/service/policy/policydata/refresher.go:72-132 | In every state of the lease in which the claim is held, whatever other refreshers have done, the execution of its policy is the settlement of the claim |
| Refreshing.SettleTracked | internal/service/policy/policydata/refresher.go:72-132 | Within one turn the executions settle the claims of its poll one after another |
| Refreshing.RefreshedIsScheduled | internal/service/policy/policydata/refresher.go:80-130 | The settlement writes the clock reading plus the period for a configuration with URL, method, non-zero period and a buildable request, and zero for any other |
| Refreshing.Refresher.Execute | internal/service/policy/policydata/refresher.go:72-132 | Told from the fields of the decoded configuration: a usable one is stored as due its period after the call's clock reading whatever the response, any other as zero, nothing else changes, and the data is the body exactly on a readable 200 |
| Refreshing.Refresher.ReadConfig | internal/service/policy/policydata/refresher.go:80-100 | The configuration, or none when it does not decode, lacks a field, or makes no request |
| Refreshing.Refresher.ExecuteHeld | internal/service/policy/policydata/refresher.go:72-132 | An execution as a section of its own, between any sections of other refreshers, is a legal settlement that accounts for the store |
| Refreshing.Refresher.ExecuteAll | internal/service/policy/policydata/refresher.go:63-65 | In an uninterrupted turn all claims of the poll are settled, one step each |
| Refreshing.Refresher.Poll | internal/service/policy/policydata/refresher.go:55-66 | One uninterrupted turn is a legal run of the lease that claims everything due and leaves no claim behind |
| Escaping.UnescapeOfEscape | internal/regofunc/did_web.go:107-125 | Path-unescaping a query-escaped string never fails and turns spaces into plus signs, for every byte string |
| Escaping.UnescapeInvertsEscapeIffSpaceFree | internal/regofunc/did_web.go:107-125 | It is the identity exactly on space-free strings |
| Escaping.UnescapeShortens | internal/regofunc/did_web.go:107 | Unescaping never lengthens a string, and shortens it exactly when it has a percent sign |
| Escaping.EscapeInjective | internal/regofunc/did_web.go:125-133 | Query-escaping is injective |
| Escaping.EscapeIsIdentityIffUnreserved | internal/regofunc/did_web.go:133 | Escaping leaves exactly the unreserved strings of section 2.3 of RFC 3986 alone |
| Escaping.CanonicalIffReescapes | internal/regofunc/did_web.go:107-125 | Canonically escaped strings are exactly those that unescaping and escaping give back |
| Escaping.UnreservedTable | internal/regofunc/did_web.go:125-133 | The unreserved characters of section 2.3 of RFC 3986, by code |
| Escaping.UnHexIff | internal/regofunc/did_web.go:107 | A hexadecimal digit has its value in either case, and no other character has one |
| Escaping.UnescapeStep | internal/regofunc/did_web.go:107 | How unescaping goes on from a character, and that a cut-off percent sign fails |
| Escaping.UnescapeTripleStep | internal/regofunc/did_web.go:107 | A percent sign and two digits stand for the character of that value; other digits fail |
| DidWeb.DidToUrlLoop | internal/regofunc/did_web.go:89-117 | The loop computes the host and the path of the segments, with each error case |
| DidWeb.UrlToDidLoop | internal/regofunc/did_web.go:121-141 | The loop with its break and continue joins the escaped host and the segments before the default path |
| DidWeb.TrimNeededIffNoHost | internal/regofunc/did_web.go:139 | The final trim removes something exactly for a URL with segments and no host |
| DidWeb.SameDidIffSameSegments | internal/regofunc/did_web.go:121-141 | URLs with hosts have the same DID exactly when hosts and segment lists are equal |
| DidWeb.DidOfUrlIsAccepted | internal/regofunc/did_web.go:89-141 | The DID of any URL with a host is accepted, and what its URL is |
| DidWeb.CanonicalPathIffPrinted | internal/regofunc/did_web.go:98-105 | The default path and the paths of unreserved names are exactly those that printing their own segments gives back |
| DidWeb.UrlRoundTripsIffCanonical | internal/regofunc/did_web.go:89-141 | A URL comes back, up to the leading slash, exactly when its host is space-free and its path canonical |
| DidWeb.DidRoundTripsIffCanonical | internal/regofunc/did_web.go:89-146 | An accepted DID comes back exactly when its host is canonically escaped and its segments are non-empty, unreserved and not the default path |
| DidWeb.AtSignDoesNotRoundTrip | internal/regofunc/did_web.go:98-104 | A user segment behind an at sign comes back escaped, for every host |
| DidWeb.KeptMore | internal/regofunc/did_web.go:126-134 | The parts that count are the non-empty ones, in order, up to the first default path |
| DidWeb.DidText | internal/regofunc/did_web.go:121-146 | The text of the DID of a URL with a host |
| DidWeb.UrlOfText | internal/regofunc/did_web.go:89-117 | The URL of the text of a DID, for every host and list of parts without colons |
| DidWeb.OtherTextIsRefused | internal/regofunc/did_web.go:89-97 | Any other text is refused |
| Strings.TrimIs | internal/regofunc/did_web.go:139 | Trimming removes nothing but the separator, and all of it at both ends |
| Strings.TrimSuffixIs | internal/regofunc/did_web.go:122 | The suffix is removed once, if it is there |
| Bundles.CreatePolicyBundle | internal/service/policy/bundle.go:42-95 | Appending the files one by one gives metadata, source and the optional files that are not blank, in order |
| Bundles.PolicyFromBundle | internal/service/policy/bundle.go:166-201 | The pass over the files gives each field the last file of its name, and fails exactly on unreadable metadata |
| BundleResults.KeyURLResolvesIffPlain | internal/service/policy/bundle.go:156-164 | The key URL leads back to the exported identity exactly when neither host nor parts contain a control character, a question mark or a number sign, nor the parts a slash or a percent sign |
| BundleResults.UnknownFilesIgnored | internal/service/policy/bundle.go:173-198 | Files of other names have no effect |
| BundleResults.OrderIrrelevantIff | internal/service/policy/bundle.go:173-198 | A readable file list rebuilds to the same policy in every order if and only if files that share a known name agree in what is taken from them |
| BundleResults.OrderIrrelevant | internal/service/policy/bundle.go:173-198 | So file lists with distinct names rebuild to the same policy under every permutation |
| BundleResults.LaterFileWins | internal/service/policy/bundle.go:187-188 | With repeated names the order matters |
| BundleResults.RebuiltBundle | internal/service/policy/bundle.go:42-201 | Rebuilding an exported file list gives the original with blank optional files emptied, the file name recomputed and no schedule |
| BundleResults.NormalizedHasSameBundle | internal/service/policy/bundle.go:42-107 | That policy has the same bundle as the original, and normalizing it again changes nothing |
| BundleResults.SameBundleIffSameNormalized | internal/service/policy/bundle.go:42-107 | Two policies have the same bundle exactly when they normalize to the same policy |
| BundleResults.ImportOfExport | internal/service/policy/service.go:312-466 | Importing an exported archive stores the normalized policy or is forbidden, decided only by whether the library's verification for the type of the first key under the policy's URL accepts the signature |
| BundleResults.ImportThroughHost | internal/service/policy/service.go:384-466 | With the export configuration unchanged at the host, the import succeeds exactly when the signer has the key and its type is supported |
| BundleResults.RevokedBundleIsRefused | internal/service/policy/bundle.go:203-206 | When the host no longer has the policy or its export configuration, the import is forbidden |
| BundleResults.ReexportOfImport | internal/service/policy/service.go:312-466 | Exporting an imported policy from the same host gives the same bundle and archive |
| BundleResults.CheckedMetadataIsStored | internal/service/policy/bundle_verify.go:34-59 | In an accepted bundle with distinct names, the metadata that named the key is the one that is stored |
| BundleAnswers.MalformedImport | internal/service/policy/service.go:429-440 | An import answers bad request exactly when the archive does not unzip to two files |
| BundleAnswers.ForgedImportIsRefused | internal/service/policy/bundle_verify.go:17-135 | Every other import is forbidden unless names, metadata and key are there and the library function of the key's type accepts the signature of the right digest |
| BundleAnswers.SignedImportSucceeds | internal/service/policy/service.go:442-452 | And when all that holds it gives what the files rebuild to, failing only on metadata that does not decode |
| BundleAnswers.RebuiltParts | internal/service/policy/bundle.go:166-201 | Rebuilding fails exactly on undecodable metadata, and no files give the empty policy |
| BundleAnswers.OneMoreFile | internal/service/policy/bundle.go:173-198 | One more file changes the part of its literal name and nothing else |
| BundleAnswers.PublicKeyAnswers | internal/service/policy/service.go:384-416 | A key request answers the signer's key for the stored export configuration, or the error of each other case |
| BundleAnswers.RefusedExport | internal/service/policy/service.go:321-334 | An export is not found or forbidden exactly without a policy or without an export configuration |
| BundleAnswers.ExportsIff | internal/service/policy/service.go:312-380 | An export gives an archive if and only if it zips the literal bundle and the signer's signature of the bundle's digest, the bundle zipping metadata, source and the files that are not blank |
| BundleAnswers.SpaceTable | internal/service/policy/bundle.go:63 | White space by code point |
| Clone.IterateRepo | internal/clone/clone.go:72-95 | The walk gives one new object a key, every policy under the key of its identity, or fails exactly when a policy file cannot be made a policy |
| Clone.PolicyFileIff | internal/clone/clone.go:84 | A policy file is one named policy.rego, in any folder |
| Clone.CreatedFromFiles | internal/clone/clone.go:98-166 | Which file becomes which field, where it is looked up, what an absent one gives, and exactly when the policy cannot be made |
| Clone.WalkedOnlyFiles | internal/clone/clone.go:80-92 | Nothing is in the result of a walk but the policies of its files, under their keys |
| Clone.WalkFailsIff | internal/clone/clone.go:80-94 | A walk fails if and only if one of its policy files does not become a policy |
| Clone.FilenameEndsPath | internal/clone/clone.go:105-122 | The stored file name is the end of the path, and group, name and version have no slash |
| Clone.PathGivesIdentity | internal/clone/clone.go:105-114 | The file of a group, name and version in any folder gives back exactly that identity |
| Clone.LastFileStays | internal/clone/clone.go:80-92 | Every policy file leaves its key in the map, and of files with one key the last of the walk stays |
| Clone.WalkedIsUnscheduled | internal/clone/clone.go:153-165 | No policy that a walk makes has a refresh time |
| Clone.RepositoryIsNeverRefreshed | internal/storage/memory/storage.go:148 | So a memory storage that a repository fills never has a policy to refresh, in any run |
| Clone.RepoNameOfURL | internal/clone/clone.go:175-179 | The last URL segment, with or without the suffix |
| Clone.RepoNameHasNoSlash | internal/clone/clone.go:175-179 | A repository name never has a slash, for every URL |
| Clone.RepositoryPolicyIsNormalized | internal/clone/clone.go:98-166 | A policy from a repository survives export and import unchanged exactly when no optional file is blank but not empty |
| GitSync.Collection.FetchCurrPolicies | cmd/sync/main.go:132-153 | The map by key; of rows with one key the last is seen |
| GitSync.CompareOne | cmd/sync/main.go:159-171 | Picks a new or modified policy with the lock of the row under its key, written into the repository's object |
| GitSync.Compare | cmd/sync/main.go:157-174 | Picks exactly the policies whose key is new or whose row differs in one of ten fields, each once, in any map order |
| GitSync.SelectedIffDiffers | cmd/sync/main.go:223-238 | A policy is selected if and only if its key is new or one of the ten fields differs |
| GitSync.Collection.Upsert | cmd/sync/main.go:180-213 | Each policy updates the first row with its four fields or is inserted, in order |
| GitSync.Collection.UpsertPolicies | cmd/sync/main.go:112-127 | The whole synchronisation of rows with repository objects |
| SyncResults.FindAfterUpsert | cmd/sync/main.go:183-203 | An upsert changes what its identity finds and nothing else |
| SyncResults.SyncConverges | cmd/sync/main.go:132-238 | After a sync every repository policy has an equal row, without any assumption on keys |
| SyncResults.SyncConvergesInFields | cmd/sync/main.go:132-238 | Field by field, after a sync some row has each repository policy's source, data, configurations, schema, file name and identity |
| SyncResults.SelectedRow | cmd/sync/main.go:180-221 | A selected policy's row is the repository's policy with the lock seen under its key, the time of the write, and a refresh due at once exactly with a data configuration |
| SyncResults.OthersUntouched | cmd/sync/main.go:157-213 | Identities that no selected policy has keep what they had |
| SyncResults.SyncKeepsLocks | cmd/sync/main.go:165-193 | With keys that tell identities apart and nothing between reading and writing the rows, no sync changes the lock of a row, and equal or unrelated rows stay wholly as they were |
| SyncResults.WrittenRow | cmd/sync/main.go:112-127 | Whatever happened to the rows between reading and writing, a selected identity ends with the repository's policy and the lock that was read, and any other with what it has by then |
| SyncResults.LockSurvivesIff | cmd/sync/main.go:112-127 | So the lock of a row survives a sync if and only if its policy was not selected or its lock is still the one that was read |
| SyncResults.LockBetweenIsLost | cmd/sync/main.go:112-127 | A lock set in between is lost for every policy that the repository modified |
| SyncResults.SyncIsIdempotent | cmd/sync/main.go:157-213 | A second comparison selects nothing |
| SyncResults.DotFreeIsInjective | internal/clone/clone.go:168-170 | Dot-free repository, group and name suffice for that |
| SyncResults.CollisionSpreadsLock | cmd/sync/main.go:161-166 | Two identities with one key: the lock of one spreads to the row of the other |
| SyncResults.CollisionIsSelectedAgain | cmd/sync/main.go:132-174 | After the same sync a comparison selects the policy again |
| SyncResults.LocksSafeIffInjective | cmd/sync/main.go:157-213 | Syncs among a set of identities never change a lock if and only if the keys tell the set apart |
| SyncResults.IdempotentIffInjective | cmd/sync/main.go:157-213 | Syncs among a set of identities leave nothing to select if and only if the keys tell the set apart |
| AutoImport.ImportCollection.SaveAutoImportConfig | internal/storage/mongodb/storage.go:363-376 | Sets interval and next import, as the millisecond it falls into, under the URL |
| AutoImport.ImportCollection.DeleteAutoImportConfig | internal/storage/mongodb/storage.go:468-480 | Removes it, or reports that there is none |
| AutoImport.ImportCollection.ActiveImportConfigs | internal/storage/mongodb/storage.go:378-433 | Claims exactly the configurations whose stored date is not after now, each once, and sets the date of those whose write succeeds to the millisecond of the write's reading plus the interval |
| AutoImport.ClaimsAreSpaced | internal/storage/mongodb/storage.go:378-433 | In every run, two claims without reconfiguration between are more than the interval less one millisecond apart if the first was re-armed |
| AutoImport.ClaimedIffIntervalPassed | internal/storage/mongodb/storage.go:378-433 | Between re-arms a poll claims a configuration exactly from the beginning of the millisecond in which its interval ends |
| AutoImport.ClaimedEarly | internal/storage/mongodb/storage.go:428-433 | A run in which the claim comes almost a millisecond before the interval has passed, because stored dates keep milliseconds |
| AutoImport.FailedRearmIsClaimedAgain | internal/storage/mongodb/storage.go:398-402 | After a failed re-arm every poll claims the configuration again, however soon |
| AutoImport.SavesAreSuccesses | internal/service/policy/autoimport.go:43-62 | There is one save for each configuration whose download and import succeed |
| AutoImport.TriedIff | internal/service/policy/autoimport.go:46-58 | A URL imports exactly the policy that its download imports |
| AutoImport.PassStores | internal/service/policy/autoimport.go:43-62 | After a pass the store holds under each key the policy of the last success with that key, or else what it held before |
| Ocm.CredentialTypes | internal/regofunc/ocm.go:45-60 | The distinct non-empty types in order of first occurrence, failing exactly on an unmapped scope or when all types are empty |
| Ocm.MergeClaims | internal/regofunc/ocm.go:144-149 | The right-biased union of the claims, whatever the map order |
| Ocm.ClaimOfLastPresentation | internal/regofunc/ocm.go:144-149 | A claim has the value of the last presentation that makes it, and there are no other claims |

## Left out

- PolicyService.Service.Evaluate: header, evaluation identifier, ETag and time to live are not part of the call; evaluation and the external cache are functions of request, policy, input and output.
- PolicyService.Service.ExportBundle: the attachment name and length headers are not part of the result.
- PolicyService.Service.Deliver: one turn of the listener loop; that the process stops after a listener error is not modelled, nor what the notifier sends, nor the order of the subscribers' arguments, which differs from the interface's.
- Heap.MemoryStorage.UpdateNextRefreshTime: as in the code, the memory storage does not store the refreshed data.
- Heap.MemoryStorage.GetRefreshPolicies: the returned copies are values, since the refresher alone holds them.
- PolicyService.Service.RetrievePolicy: the returned object is the cached one, as in the code; its caller never writes to it.
- PolicyService.Service.Validate: one call at a time on the heap; interleavings are those of the sections it is made of.
- Refreshing.Refresher.Poll: a turn that nothing interrupts; other refreshers in between are covered by Refreshing.Refresher.ExecuteHeld, one execution at a time.
- SyncResults.SyncIsIdempotent: nothing runs between reading and writing the rows; what may happen there is the subject of SyncResults.WrittenRow.
- RefreshLease.RetiredForGood: stated for positive periods; a negative period, which the code accepts, is covered by RefreshLease.RetiredForeverIff only.
- RefreshLease.PromptRefreshersExclude: claims are atomic, as under the mutex of the memory storage; the Mongo transaction, which does not pass its session on, is not modelled.
- BundleResults.KeyURLResolvesIffPlain: a segment is decoded once, while the muxer may decode one with an escaped percent sign twice; a host is a prefix of the URL, not resolved.
- BundleResults.ImportThroughHost: stated for memory storage; the Mongo storage does not write export configuration and file name on save.
- Bundles.PolicyFromBundle: opening and reading the entries of an archive is part of the zip library function.
- PolicyService.Service.ImportBundle: reading the payload stream is left to the caller.
- AutoImport.ImportCollection.ActiveImportConfigs: a failing query returns no configurations and changes nothing, so it is not a step; the cursor order is arbitrary.
- GitSync.Collection.Upsert: the bulk write is applied in order and as a whole; driver errors are not modelled.
- GitSync.Collection.FetchCurrPolicies: decoding errors end the synchronisation before it writes.
- Clone.IterateRepo: cloning, the directory walk and file reads are parameters; the map filled before an error is not returned.
- DidWeb.UrlToDidLoop: the check for an https URL with a host, and the parsing and printing of URL text, are outside; theorems that need a host say so.
- Ocm.CredentialTypes: decoding of terms and the request to the credential manager.
- Integer width: times and counters are unbounded.
- Polling loops: the refresher and the auto importer are modelled turn by turn; waiting and cancellation are not.
- Automatic import in memory storage: its map is never created and its due test is reversed, so nothing is claimed about it.
- Subscribers, notifier, webhooks, NATS, HTTP, logging, configuration and generated code.
- Rego built-in functions other than did:web and the two credential loops: thin wrappers around clients.
