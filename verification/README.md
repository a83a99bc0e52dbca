# Verified models of Nymbal's protocols, limiters and text transformations

Nymbal is a commerce platform kept in one repository: packages that run in production, and the scripts its
maintainers rely on before a merge. This project models the parts of both whose correctness is not visible from one
body, and proves what they promise. Every module names the source file it models; identifiers follow the source.

| module | what it models |
|---|---|
| `QuietLock`, `StackSlots` | the two multi-process file protocols of `scripts/stack.ts`, as interleaved file-system calls with crashes |
| `RateLimiter`, `SecurityGuard` | the fixed-window limiter with its amortised sweep, and the guard that counts logins and checkouts with it |
| `PathPattern`, `Glob`, `Regex` | the two compilers from globs to regular expressions, and what the expressions they write accept |
| `EditDistance` | the optimal string alignment distance and the suggestion drawn from it |
| `ReadHelpers` | the memoised search for helpers that only read, over a graph that may have cycles |
| `DocumentOrder`, `DocumentWalk` | the order every document store is held to, a store's query, and the cursor walk of the contract tests |
| `Gate`, `WorkspaceClosure`, `MoveSources`, `InputsStamp` | the gate's planner and runner, and three computations over the repository it decides by |
| `MutationRatchet` | scores, the check and the update of the mutation ratchet |
| `StreamLifecycle`, `StorefrontForward` | the life of server-sent-event streams through shutdown, and the draining of the storefront forward |
| `ShopperAttestation` | minting and verifying the token of a shopper's address |
| `CatalogueEdit` | an edit of the adapter catalogue's source text, and reading the text again |
| `TextOrder`, `TextSplit`, `Arithmetic`, `Wrappers` | shared by the others |

Concurrency is a state machine whose action is one file-system call or one turn of the event loop; a claim about every
run is a lemma over all sequences of actions. What the source changes in place is a class, and each of its methods is
proved equal to a function of the old state; the runs are sequences of those functions. Loops of the source are loops.

Where a property the code is meant to have is false of it, the lemma says exactly when it holds and another shows it
fail:

- `QuietLock.QuietExactly`: two shared holds of one process under one label share a file, so releasing the first uncovers
  the second, and so does releasing the first again when it is long over; the comment at `scripts/stack.ts:445-446`
  promises more (the gate itself holds one at a time, and releases it once).
- `StackSlots.ExclusiveExactly`: `resolveSlot` takes a failing `git worktree list` for an empty one, so its sweep then
  removes every live claim; and a worktree that comes back at its path during a sweep loses its claim.
- `SecurityGuard.BoundedExactly`: the address of a login is verified again when it is answered. If its attestation has
  expired by then, the failure counts under the peer's own address, which was never asked whether it is full
  (`LapsedLoginsAddUp`); `FailuresAreBounded` says what holds then.
- `InputsStamp.SurvivesCommitExactly`: a commit changes the stamp when an input is left on the disk ignored and out of the
  index (`LeftBehindChanges`), or when a dirty input is a link (`NewLinkChanges`); the comment at
  `scripts/gate.ts:1790-1794` promises more.
- `PathPattern.PassesCompileExactly` and `AcceptanceExactly`: a pattern whose own text reads as the placeholder of `**`.
- `RateLimiter.SpanIsBoundedExactly`: a window of no length, which `parseWindow` accepts, bounds nothing.
- `DocumentWalk.GoesOnExactly`: a cursor carries the value as JSON writes it. A date at the field ordered by comes back as
  a string, so that a walk upwards never ends and one downwards stops short (`DatesStrayInCursors`); a NaN or an infinity
  comes back as a null (`UnprintableLosesDocuments`); a BigInt throws. Only an in-memory store can hold such values.
- `CatalogueEdit.EditIsReadBackExactly`: an empty item that comes to be last on one line is lost (`EmptyItemIsLost`); two
  commas in a row are no valid object literal, so no catalogue that compiles has one.

Assumptions, beyond those the modules state: the clock handed to the limiter does not go back; a `.lock` is broken as
stale only after its holder died, in one step; file names, tokens and pids are unique; the mac of a shopper's token is
any function whose output has no `~`; git's listings are inputs.

## Model

| member | source | states |
|---|---|---|
| QuietLock.NextKeepsInv | scripts/stack.ts:175-196 | one file-system call of any process, a crash or the breaking of a stale lock keeps the whole invariant: the lock is exclusive, a takeover holds a dead owner's text, an owner's file is its own, and of a quiet owner and a shared holder one sees the other |
| QuietLock.QuietExcludesShared | scripts/stack.ts:433-490 | in every interleaving, with any crashes and any hold released more than once, a live quiet exclusive hold and a live quiet shared hold of another worktree are never out together, unless the shared call ran at once with a call of its own process under its label, or with a further release of one that was done |
| QuietLock.QuietExactly | scripts/stack.ts:435-460 | a set of calls can never break the quiet if and only if no two of its shared calls share a process and a label while an exclusive call of another worktree is among them |
| QuietLock.ReleasedTwinUncovers | scripts/stack.ts:445-459 | a concrete run: two shared holds of one process and label, one released, and an exclusive hold of another worktree is granted quiet beside the other |
| QuietLock.SecondReleaseUncovers | scripts/stack.ts:459 | a concrete run: the first of two such holds is over before the other begins, and its second release lets an exclusive hold in beside the other |
| QuietLock.OneOwner | scripts/stack.ts:463-490 | in every run two live calls that created `quiet` and have not released it are one call, and the file is its own |
| QuietLock.QuietGoesOnlyByReleaseOrDeath | scripts/stack.ts:360-369 | in every run `quiet` goes only by its owner's release or after its owner's death, never a fresh one by a late takeover |
| QuietLock.LockIsExclusive | scripts/stack.ts:175-196 | in every run two live calls are never inside `.lock` together |
| QuietLock.DeadQuietIsTakenOver | scripts/stack.ts:345-369 | from any state with a dead owner's `quiet` or none, and the lock free or a dead process's, the own steps of a live exclusive call that has found `quiet` taken, wherever it is in its look, make it the owner; no shared file is touched |
| QuietLock.DeadQuietIsPassed | scripts/stack.ts:360-375 | from any such state, or with its own worktree's live `quiet`, the own steps of a live shared call that waits give it its hold, its file written; a `quiet` still there is the one that was, of a live owner unless the call had read it before |
| QuietLock.DeadSharedAreSweptAside | scripts/stack.ts:378-390 | a draining call that only dead processes' files and its own worktree's stand before gets the quiet by its own steps; of the files it had still to look at the dead ones are gone, and no live one |
| QuietLock.PatientWaits | scripts/stack.ts:415-428 | in every run a call none of whose own steps found its wait over has not given up and holds nothing but a quiet hold, shared and exclusive alike |
| QuietLock.WaitingLeavesNoFile | scripts/stack.ts:447-459 | in every run a shared call that waits, or whose hold is over, has no file on disk that others would wait for |
| QuietLock.SharedMakesWay | scripts/stack.ts:450-453 | a shared call that sees another worktree's live `quiet` after writing its file takes the file away by its own steps and looks again |
| QuietLock.SharedGoesOnWithout | scripts/stack.ts:447-459 | once its wait is over a shared call that sees such a `quiet` goes on without it, its file written, and says so |
| QuietLock.WithdrawnGoesOnWithout | scripts/stack.ts:447-459 | and so does one that has just made way |
| QuietLock.ExclusiveGoesOnWithout | scripts/stack.ts:474-489 | once its wait is over an exclusive call that finds a live `quiet` goes on with no file of its own and touches none |
| QuietLock.OwnerGoesOnWithout | scripts/stack.ts:484-489 | an owner whose wait for a live shared hold of another worktree is over keeps `quiet` and answers that it is not quiet |
| QuietLock.OwnerReleases | scripts/stack.ts:486-488 | a release by the owner removes `quiet` in two steps of its own and changes nothing else |
| QuietLock.ReleaseLetsSharedIn | scripts/stack.ts:415-460 | from any state, once the owner's own release is done the own steps of a shared call that waited, of any worktree and wherever it is in its look, give it a quiet hold |
| QuietLock.ReleaseLetsExclusiveIn | scripts/stack.ts:415-490 | and those of an exclusive call that waited, when no live shared hold of another worktree is out |
| QuietLock.CrashLetsExclusiveIn | scripts/stack.ts:360-369 | from any state, once the owner's process has crashed the own steps of an exclusive call of another process that found `quiet` taken make it the owner |
| QuietLock.CrashLetsSharedIn | scripts/stack.ts:360-375 | and those of a shared call of another process give it a quiet hold |
| StackSlots.NextKeepsInv | scripts/stack.ts:236-293 | every step keeps: claims read are true where they are acted on, a sweep spares live worktrees, each worktree has one claim, and every answer stands |
| StackSlots.SlotsAreExclusive | scripts/stack.ts:236-293 | in every run in which git answers and no worktree comes back at its path, two answers in live worktrees are one slot exactly when they are one worktree |
| StackSlots.LiveClaimIsNeverSwept | scripts/stack.ts:271-277 | in the same runs no action takes away or overwrites a live worktree's claim |
| StackSlots.ClaimIsLowestFree | scripts/stack.ts:271-292 | in every run a new claim is the lowest slot free after the sweep, each lower one held by a worktree that git had just listed and whose directory the sweep itself saw; and a call fails only when all nine are held so |
| StackSlots.SightedWasThere | scripts/stack.ts:274 | in every run a directory that a sweep saw was on the disk at some moment of the run |
| StackSlots.ResolvesAlone | scripts/stack.ts:236-293 | from any state with the lock free a call of a live worktree, undisturbed and git answering, ends with the worktree's lowest claim; without one, with the lowest slot that no standing claim holds, exactly the claims that do not stand gone; and fails exactly when all nine stand |
| StackSlots.MissingDirectoryIsSwept | scripts/stack.ts:273-277 | a claim of a worktree that git lists and whose directory is gone gives way: the call answers slot 1 by its own steps |
| StackSlots.GoneTreeFreesItsSlot | scripts/stack.ts:265-284 | from any state, a worktree that goes, with git told or not, leaves its slot 1 to the next call of a worktree without a claim |
| StackSlots.CrashKeepsNobodyOut | scripts/stack.ts:175-213 | from any state, after the process that has the lock crashed and the stale lock is broken, a call of another process answers or fails by its own steps and leaves the lock free |
| StackSlots.FailedListingClashes | scripts/stack.ts:265-277 | a concrete run in which a failing `git worktree list` gives two live worktrees one slot |
| StackSlots.ReturningTreeClashes | scripts/stack.ts:252-277 | a concrete run in which a worktree put back at its path during another's sweep ends sharing a slot |
| StackSlots.ExclusiveExactly | scripts/stack.ts:236-293 | live worktrees never share a slot, in any interleaving, if and only if git always answers and no worktree comes back at a path that had one |
| RateLimiter.RateLimiter.Check | packages/http/src/rate-limit.ts:83-103 | the state and decision of `check`: one more in the key's live bucket or a new one, refused exactly past the count times the scale; keeps the amortisation invariant |
| RateLimiter.RateLimiter.Full | packages/http/src/rate-limit.ts:109-120 | refuses exactly when some key's live bucket holds the rule's count, with the wait of the first such, and changes nothing |
| RateLimiter.RateLimiter.Hit | packages/http/src/rate-limit.ts:123-137 | counts one under each key in order and answers each count after it; keeps the invariant |
| RateLimiter.RateLimiter.Clear | packages/http/src/rate-limit.ts:149-153 | takes away exactly the keys' buckets |
| RateLimiter.RateLimiter.Reset | packages/http/src/rate-limit.ts:155-158 | the state is a fresh limiter's |
| RateLimiter.RateLimiter.Open | packages/http/src/rate-limit.ts:165-171 | sweeps exactly when the map has reached `pruneAt`, then sets the new bucket; the sweep's looks are paid by the openings so far |
| RateLimiter.RateLimiter.Sweep | packages/http/src/rate-limit.ts:166-169 | what is left is the unexpired entries, one look at each entry, and `pruneAt` doubles past what survived |
| RateLimiter.RuleIsTheFirst | packages/http/src/rate-limit.ts:173-177 | for patterns without the placeholder, the rule applied is the first in order that means the path and whose header, if it names one, is there; none exactly when none does |
| RateLimiter.CountedOne | packages/http/src/rate-limit.ts:127-136 | counting under a key adds one to what its live bucket holds and to no other key of the rule; a live bucket keeps its end, a new one ends a window later |
| RateLimiter.HitCountsEach | packages/http/src/rate-limit.ts:123-137 | after `hit` each key holds as many more as it occurs among the keys, and each answer is the key's count so far |
| RateLimiter.ClearTakesExactly | packages/http/src/rate-limit.ts:149-153 | after `clear` a bucket is there exactly when it was and belongs to none of the keys, as it was |
| RateLimiter.CheckAdmitsExactly | packages/http/src/rate-limit.ts:94-102 | `check` admits exactly without a live bucket or within the scaled count, with the rule's action, and says how long to wait exactly when it refuses |
| RateLimiter.FullAdmitsExactly | packages/http/src/rate-limit.ts:113-119 | `full` admits exactly while no key's live bucket holds the rule's count; else the wait is that of the first key, in order, whose bucket does |
| RateLimiter.OpeningIsPaidFor | packages/http/src/rate-limit.ts:160-171 | an opening and its sweep cost at most two with the potential max(0, 2 size - pruneAt), and size stays at most pruneAt |
| RateLimiter.SweepIsAmortised | packages/http/src/rate-limit.ts:160-171 | over any sequence of operations, clears and resets included, size stays at most pruneAt and the sweeps look at no more than twice as many entries as were opened |
| RateLimiter.AnswersDependOnLiveOnly | packages/http/src/rate-limit.ts:83-158 | on every trace of a clock that does not go back, limiters with the same live buckets give the same answers, whatever expired entries they hold and whenever they sweep |
| RateLimiter.SweepNeverShows | packages/http/src/rate-limit.ts:165-171 | the limiter answers every such trace as one that never sweeps |
| RateLimiter.WindowAdmits | packages/http/src/rate-limit.ts:89-102 | of n requests in one window of a key at a fixed scale, exactly min(n, max(1, requests times scale)) are admitted, whatever else the trace does to other keys |
| RateLimiter.SpanIsBoundedExactly | packages/http/src/rate-limit.ts:89-102 | any span of at most one window's length admits at most twice that, on every trace and from every state, if and only if the window has a length |
| RateLimiter.SpanAdmitsAtMostTwice | packages/http/src/rate-limit.ts:89-102 | the bound for one such trace, when the window has a length |
| RateLimiter.NoLengthRefusesNothing | packages/http/src/rate-limit.ts:94-97 | a window of no length admits every request |
| RateLimiter.RetryAfterOutlasts | packages/http/src/rate-limit.ts:180-182 | waiting `retryAfter` seconds outlasts the bucket, and one second less does not unless one is the least |
| RateLimiter.RefusedIsAdmittedLater | packages/http/src/rate-limit.ts:98-101 | a refused request is admitted after that wait, over every trace in between that does what it will to other buckets and only retries this one before it resets |
| RateLimiter.ResetIsNotPutOff | packages/http/src/rate-limit.ts:94-99 | over such a trace the bucket is gone by the end: retries do not put its end off |
| RateLimiter.BucketKeysAreDistinct | packages/http/src/rate-limit.ts:91 | with patterns free of the separator, as the configuration's schema has them (`packages/config/src/schema.ts:24`), two bucket keys are equal exactly when pattern and key are |
| RateLimiter.BucketsMeetExactly | packages/http/src/rate-limit.ts:91 | for any two patterns, some keys share a bucket exactly when one pattern goes on after the other with the separator |
| SecurityGuard.Guard.Admit | packages/http/src/security-middleware.ts:139-160 | the answer and the limiter's state after `admit`, under the address its attestation verifies as at that moment: logins ask without counting, checkouts ask the address first and the cart only if it passes, the rest count per address; then the CSRF refusal |
| SecurityGuard.Guard.Finish | packages/http/src/security-middleware.ts:162-181 | the limiter's state after `finish`, the address verified anew, and the warning exactly when an account's count reaches the rule's |
| SecurityGuard.ClientIpExactly | packages/http/src/security-middleware.ts:116-119 | the address of a request is the one its token attests at that moment, and its own when the token attests none |
| SecurityGuard.LoginLimitedExactly | packages/http/src/security-middleware.ts:139-148 | a login is refused exactly when its address holds the rule's count, and asking changes nothing |
| SecurityGuard.CheckoutLimitedExactly | packages/http/src/security-middleware.ts:121-127 | a checkout is refused exactly when its address is over ten allowances or its cart at that address over one; the address counts it, and the cart unless the address was over |
| SecurityGuard.OtherLimitedExactly | packages/http/src/security-middleware.ts:141-148 | any other request is refused exactly when its address is over one allowance of the rule it meets, counts there, and passes where no rule applies |
| SecurityGuard.CsrfRefusedExactly | packages/http/src/security-middleware.ts:146-159 | a request is refused for its token exactly when the check is on, the method unsafe, the route not exempt, the header not the cookie's token, and its rate no reason before it |
| SecurityGuard.SuccessClearsTheAccount | packages/http/src/security-middleware.ts:163-169 | under the login rule a successful login empties its account's bucket and leaves every other as it was, its address's among them |
| SecurityGuard.FailureCountsBoth | packages/http/src/security-middleware.ts:163-172 | under the login rule a failed login adds one under its address and one under its account and nowhere else, and the count that may be warned of is the account's |
| SecurityGuard.FailuresAreBounded | packages/http/src/security-middleware.ts:139-181 | over any run in which logins are answered only after being let in, an address never holds more failures than requests - 1, the most logins let in under it that were under way at once, and the failures counted under it of logins let in under another address |
| SecurityGuard.TurnCounts | packages/http/src/security-middleware.ts:139-181 | one turn of the guard keeps that account: failures and logins under way together grow only by such a stray failure, or the failures are below the rule's count |
| SecurityGuard.NoLapseNoStray | packages/http/src/security-middleware.ts:117-119 | in a run in which no login's attestation expires between its two turns, no failure is counted under an address the login was not let in under |
| SecurityGuard.BoundedExactly | packages/http/src/security-middleware.ts:117-181 | in every run from a fresh limiter an address holds at most requests - 1 failures and its logins under way, if and only if no login's attestation may expire between its `admit` and its `finish` |
| SecurityGuard.LapsedLoginsAddUp | packages/http/src/security-middleware.ts:162-181 | a run of two logins of two shoppers through one peer, let in while their attestations last and failed after: the peer holds two failures where the rule allows one and none was let in under it |
| SecurityGuard.EventCounts | packages/http/src/security-middleware.ts:139-181 | one request adds at most one failure to an address, only as an answered login of that address; a login let in finds the address short of the count and changes nothing |
| SecurityGuard.AccountsNeverChangeAdmissions | packages/http/src/security-middleware.ts:56-61 | over any trace the guard admits the same with every account left out and every success taken out |
| SecurityGuard.WindowOpensAtMostCeilingCarts | packages/http/src/security-middleware.ts:121-127 | in one window of an address its checkouts open at most the ceiling times requests cart buckets, whatever carts they name |
| SecurityGuard.OtherPathsOtherBuckets | packages/http/src/rate-limit.ts:173-177 | off a plain rule's own path no request counts under that rule's buckets |
| PathPattern.PassesCompileExactly | packages/http/src/rate-limit.ts:202-209 | the four `replace` passes give the text one left-to-right compile gives if and only if no text of the pattern reads as the placeholder |
| PathPattern.CompiledAccepts | packages/http/src/rate-limit.ts:202-209 | the compiled expression accepts exactly what the pattern means: `**` any text, a lone `*` some text without a slash, the rest itself |
| PathPattern.AcceptanceExactly | packages/http/src/rate-limit.ts:202-209 | the expression accepts exactly the paths the pattern means, if and only if no text of the pattern reads as the placeholder; otherwise some path tells them apart |
| PathPattern.PathPatternAccepts | packages/http/src/rate-limit.ts:202-209 | the code's own expression accepts exactly that, for every pattern that does not read as the placeholder |
| Glob.GlobToRegExp | scripts/gate.ts:963-980 | the loop writes the text the case-by-case compiler gives |
| Glob.GlobAcceptsExactly | scripts/gate.ts:963-980 | for every glob whose `**` are whole segments and every path of one line, the expression accepts the joined path exactly when the glob matches it segment by segment |
| Glob.GlobTextAcceptsExactly | scripts/gate.ts:963-980 | the same on the glob and path as texts |
| Glob.DoubleStarAcceptsExactly | scripts/gate.ts:963-980 | a leading `**` segment takes zero or more whole segments before the rest |
| EditDistance.EditDistance | packages/config/src/adapter-names.ts:85-100 | the table's last entry is the least cost of an edit script between the two texts, in which no substring is edited twice |
| EditDistance.EntryIsLeast | packages/config/src/adapter-names.ts:91-96 | the best of the four earlier entries is the least cost again |
| EditDistance.EdgeIsLeast | packages/config/src/adapter-names.ts:86-88 | with one text empty the least cost is the other's length |
| EditDistance.Symmetric | packages/config/src/adapter-names.ts:84-100 | the distance is symmetric |
| EditDistance.ZeroExactlyForEqual | packages/config/src/adapter-names.ts:84-100 | it is zero exactly for equal texts |
| EditDistance.Bounded | packages/config/src/adapter-names.ts:84-100 | it lies between the difference of the lengths and the longer length |
| EditDistance.OneExactlyForAStep | packages/config/src/adapter-names.ts:84-100 | it is one exactly when one letter was put in, left out or replaced, or two neighbours were swapped |
| EditDistance.SuggestProvider | packages/config/src/adapter-names.ts:108-120 | the nearest candidate within two edits, the alphabetically first of them; none exactly when all are further |
| EditDistance.SuggestionIsUnique | packages/config/src/adapter-names.ts:104-107 | there is at most one suggestion, so the catalogue's order does not matter |
| ReadHelpers.Context.IsReadHelper | scripts/test-census.ts:1010-1025 | whatever was asked before and whatever provisional marks are set, the answer is whether the helper only reads; every mark kept is right but for the helpers being looked at |
| ReadHelpers.Context.Visit | scripts/test-census.ts:1017-1022 | true exactly when no call anywhere in the node but reads |
| ReadHelpers.Context.IsRead | scripts/test-census.ts:1032-1056 | true exactly when the expression reads, given the helpers that only read |
| ReadHelpers.Context.IsReadArgument | scripts/test-census.ts:998-1007 | the same for an argument |
| ReadHelpers.ReadsExactly | scripts/test-census.ts:998-1056 | an expression reads exactly when nothing in it that has to read acts: a builder, a call of an unknown helper or of one given only literals, an unknown method with arguments, an awaited call |
| ReadHelpers.OnlyReadsExactly | scripts/test-census.ts:1016-1022 | a body only reads exactly when every call that stands anywhere in it, at any depth, reads |
| ReadHelpers.Context.AskAll | scripts/test-census.ts:1009-1025 | helpers asked in any order are each answered as the graph says |
| ReadHelpers.ReadersReachNoTrouble | scripts/test-census.ts:1009-1025 | a helper only reads exactly when no call leads from it to an undeclared helper, an acting one, or a cycle |
| ReadHelpers.ReaderIsStep | scripts/test-census.ts:1009-1025 | a helper only reads exactly when it is declared, does not act by itself and calls only helpers that only read |
| ReadHelpers.NoReaderOnACycle | scripts/test-census.ts:1015 | no helper on a cycle only reads, so the provisional mark answers right |
| DocumentOrder.ValuesArePreordered | packages/types/src/adapters/document-order.ts:37-53 | without NaN, value comparison is a total preorder for any collator that is one |
| DocumentOrder.NaNTiesWithAll | packages/types/src/adapters/document-order.ts:41-42 | with a NaN it is none: the NaN ties with two numbers that do not tie |
| DocumentOrder.BeforeIsTotal | packages/types/src/adapters/document-order.ts:110-122 | of two positions with different keys exactly one comes first, in either direction |
| DocumentOrder.BeforeIsTransitive | packages/types/src/adapters/document-order.ts:110-122 | the order is transitive in either direction, missing values last |
| DocumentWalk.ReferenceComparesAsPositions | packages/contract-tests/src/document-store-model.ts:126-136 | the comparator the reference writes out itself agrees with the one every store runs |
| DocumentWalk.OrderedIsUnique | packages/contract-tests/src/document-store-model.ts:126-137 | a list in this order is determined by its members |
| DocumentWalk.ReferenceIsOrdered | packages/contract-tests/src/document-store-model.ts:118-137 | the reference is in order and has exactly the matches |
| DocumentWalk.Store.Query | packages/types/src/adapters/document-order.ts:124-182 | a cursor of another order or partition is refused, and no other; it throws exactly when a filter, a seek, a sort or the next cursor asks JSON for a text there is none of; else the page is the first `limit` of the matches past the cursor, and the next cursor, when there is one, is the last item's position as JSON gives it back, bound to this order and partition |
| DocumentWalk.AnsweredBySortKey | packages/types/src/adapters/document-order.ts:57-74 | which documents a query answers: numbers above, below or between the bounds as numbers, texts by the collator's sign, equals as they are; a number is less than any text, and either less than a null or a missing value |
| DocumentWalk.AnsweredBeyondNumbers | packages/types/src/adapters/document-order.ts:44-45 | an infinity is beyond every number, on its own side |
| DocumentWalk.AnsweredByOtherValues | packages/types/src/adapters/document-order.ts:23-74 | values that are neither number nor text come behind numbers and are compared by kind and then JSON text; only booleans and BigInts are ever equal |
| DocumentWalk.AnsweredWithoutSortKey | packages/types/src/adapters/document-order.ts:161-164 | without a sort key exactly the partition's documents are answered |
| DocumentWalk.AnsweredInOrder | packages/types/src/adapters/document-order.ts:99-122 | with `orderBy`: numbers upwards or downwards, texts by the collator, other values by kind and text, the three in this order upwards, missing values last either way, equals by key |
| DocumentWalk.AnsweredInSortKeyOrder | packages/types/src/adapters/document-order.ts:99-122 | without `orderBy` the sort key's field orders so, downwards unless ascending |
| DocumentWalk.AnsweredByKeys | packages/types/src/adapters/document-order.ts:99-122 | without either the keys order |
| DocumentWalk.FirstPageIs | packages/types/src/adapters/document-order.ts:172-181 | a page is the first of all there is, and a cursor comes with it exactly when more is to come, or the page is full and the store does not look ahead |
| DocumentWalk.RefusedExactly | packages/types/src/adapters/document-order.ts:125-142 | a cursor is refused by exactly the queries over another partition, by another field or in the other direction, whether these come from `orderBy` or the sort key |
| DocumentWalk.FailsExactly | packages/types/src/adapters/document-order.ts:23-181 | a first page throws exactly when a filter, or the sort of two matches, has to tell two values of one kind apart by JSON texts of which one is not to be had, or its cursor would hold such a value |
| DocumentWalk.SeekingFails | packages/types/src/adapters/document-order.ts:165-167 | and a later page when a match has to be told apart so from what the cursor holds |
| DocumentWalk.GoesOnExactly | packages/types/src/adapters/document-order.ts:146-182 | whatever values may stand at the field ordered by: in every store and query that can be filtered, every page is answered and the next begins exactly where it ended, if and only if each such value reads back from JSON as it was: finite numbers, strings, booleans, nulls, plain objects and arrays |
| DocumentWalk.ReadsBackExactly | packages/types/src/adapters/document-order.ts:37-53 | those are exactly the values that can be written and compare as equal, or are missing alike, once read back |
| DocumentWalk.DatesStrayInCursors | packages/types/src/adapters/document-order.ts:124-181 | two documents of one date on pages of one: upwards the second page is the first with its cursor again, so the walk never ends; downwards it is empty |
| DocumentWalk.UnprintableLosesDocuments | packages/types/src/adapters/document-order.ts:173-181 | two documents of one NaN or infinity on pages of one: the second page is empty |
| DocumentWalk.RestIsTail | packages/types/src/adapters/document-order.ts:146-170 | what is left past a cursor is the reference from that place on less what was deleted, the cursor's own document deleted or not |
| DocumentWalk.Chunk | packages/contract-tests/src/document-store-model.ts:171-175 | the pieces put together are the list, all full but the last, none empty |
| DocumentWalk.ChunkingIsUnique | packages/contract-tests/src/document-store-model.ts:171-175 | there is one such cutting |
| DocumentWalk.Walk | packages/contract-tests/src/document-store-model.ts:151-167 | with any deletions after any pages the walk ends within the page bound and returns, in order and each once, only matches and every match never deleted, in chunks of `limit` once an empty last page is dropped |
| DocumentWalk.PagesAreChunks | packages/contract-tests/src/document-store-model.ts:228-242 | an undisturbed walk's pages are the chunks of the reference, whether the store hands out cursors early or late |
| DocumentWalk.UndisturbedWalkIsReference | packages/contract-tests/src/document-store-model.ts:249-275 | the walked list is the reference; without `orderBy` it is the reference once sorted by key |
| DocumentWalk.DisturbedWalkFollowsReference | packages/contract-tests/src/document-store-model.ts:277-309 | across deletions: no repeat, no stranger, no match missing that was not deleted, and the reference's order |
| Gate.Run | scripts/gate.ts:500-564 | it throws exactly when a need is no earlier step; else each result is the outcome after those before it and the exit code is 1 exactly with a red step |
| Gate.SettleStep | scripts/gate.ts:1399-1416 | the planned step keeps the needs no flag decides, in order, and is skipped for its own reason or for all the reasons its needs give |
| Gate.Select | scripts/gate.ts:1420-1435 | none exactly on an unknown name; else each chosen step settled, in plan order |
| Gate.PlanKeepsNeedsEarlier | scripts/gate.ts:1378-1435 | for any `--only` and flags the settled plan of a plan whose needs are earlier has its needs earlier |
| Gate.RunsExactly | scripts/gate.ts:500-564 | a step runs exactly when it has no reason of its own to be skipped and each need it declared is met by a flag, or not ruled out by one and ok before it; it is red exactly when it runs and exits nonzero |
| Gate.NeedsByFlags | scripts/gate.ts:1383-1398 | with services from outside a step that needs one runs exactly when its own URL is given, and without a build exactly when the artefact is there; otherwise, and for any other need, on the step that provides it |
| Gate.PlanSays | scripts/gate.ts:1387-1416 | a step with one need is skipped by the plan with the words of the flag that rules it out, or as left out by `--only`; a need a flag meets is dropped, and any other kept |
| Gate.PlanSaysInTurn | scripts/gate.ts:1399-1416 | a step with more needs is planned as its parts are: what is kept in turn, and the reasons joined in turn |
| Gate.RunSays | scripts/gate.ts:510-522 | a step with one need keeps its own reason to be skipped, and else is skipped with the need's name and how it came out, or runs |
| Gate.RunSaysInTurn | scripts/gate.ts:510-522 | a step with more needs waits for all, and names in turn what is not ok |
| Gate.RunPlan | scripts/gate.ts:500-564 | planning and running such a plan never throws, gives each chosen step its result in plan order as above, and exits 1 exactly with a red step |
| WorkspaceClosure.Closure | scripts/gate.ts:320-343 | the packages reachable from the start through known dependencies, and no others, sorted and each once |
| WorkspaceClosure.ChainIsSeen | scripts/gate.ts:331-341 | once the queue is empty every chain of dependencies from a directory seen ends in one seen |
| WorkspaceClosure.LastOfNameDecides | scripts/gate.ts:323-324 | of several packages of one name the last gives the directory |
| WorkspaceClosure.LastInDirectoryDecides | scripts/gate.ts:325-329 | of several manifests of one directory the last gives the dependencies |
| MoveSources.MoveSources | scripts/gate.ts:748-775 | every target has an entry; the one removed file of a name goes to the first target of that name, and git's pairing settles the rest unless that file is taken |
| MoveSources.NoSourceTwice | scripts/gate.ts:761-774 | when git pairs no file twice, no file is the source of two targets |
| MoveSources.SourceWasRemoved | scripts/gate.ts:749-774 | whatever a target moved from is a file the change removes |
| MoveSources.RemovedExactly | scripts/gate.ts:754-757 | removed are exactly the paths deleted and the paths renamed from |
| MoveSources.LastLinePairs | scripts/gate.ts:755-758 | the last line that names a target says how git pairs it |
| MoveSources.FirstNamedFirst | scripts/gate.ts:750-763 | targets are taken in the order in which they are first named |
| MoveSources.BasenameIs | scripts/gate.ts:739-741 | for any directory and name, the name of the joined path is the name |
| InputsStamp.Stamp | scripts/gate.ts:1795-1814 | whatever HEAD, the index and the ignored paths are, the lines hashed are those of the inputs git sees on the disk, a dirty one with the blob of what opening it reads |
| InputsStamp.SurvivesCommitExactly | scripts/gate.ts:1790-1814 | committing the whole tree leaves the lines as they were if and only if no input at HEAD is left on the disk ignored and out of the index, and no other dirty input is a link that leads to anything but its own text |
| InputsStamp.LeftBehindChanges | scripts/gate.ts:1801-1810 | a source untracked, ignored and left on the disk is in the stamp before the commit and not after |
| InputsStamp.NewLinkChanges | scripts/gate.ts:1805-1810 | a new link is stamped with its target's blob before the commit and its own after |
| InputsStamp.LinesTellTrees | scripts/gate.ts:1790-1813 | two stamps hash the same lines exactly when the inputs are the same paths with the same blobs |
| InputsStamp.CleanExactly | scripts/gate.ts:1801-1804 | nothing is dirty exactly when committing the whole tree would leave HEAD as it is and the index has all of HEAD's paths |
| MutationRatchet.Tally | scripts/mutation-ratchet.ts:89-107 | the loop's three counts |
| MutationRatchet.ScoreByFile | scripts/mutation-ratchet.ts:114-121 | each file's score, a file without a valid mutant absent |
| MutationRatchet.ScoreByStatus | scripts/mutation-ratchet.ts:73-121 | a score by how many mutants ended in each status: none without one killed, timed out, survived or uncovered; zero when some were caught and none killed; else the rounded share of the killed and the timeouts, or of those timeouts the hit limit ended |
| MutationRatchet.PercentIsNearest | scripts/mutation-ratchet.ts:78-80 | rounding is to the nearest hundredth |
| MutationRatchet.ScoreIsPercentage | scripts/mutation-ratchet.ts:114-121 | every score is between 0 and 100 |
| MutationRatchet.RecordedIsNoHigher | scripts/mutation-ratchet.ts:82-121 | for every report both ways of counting score the same files, and a file recorded never scores above the file checked, through rounding and the unmeasured rule |
| MutationRatchet.Compare | scripts/mutation-ratchet.ts:143-154 | exactly the files whose score fell below, and rose above, their entry |
| MutationRatchet.Check | scripts/mutation-ratchet.ts:346-382 | passes exactly when no file is below its entry, and names exactly the files whose recorded score is above |
| MutationRatchet.Raise | scripts/mutation-ratchet.ts:157-164 | the higher of entry and score, new files added |
| MutationRatchet.RaiseWithin | scripts/mutation-ratchet.ts:171-177 | the same, only for changed files and files with no entry |
| MutationRatchet.Update | scripts/mutation-ratchet.ts:468-503 | every entry after the update, by file; nothing is written when a `--total` report misses a file of the mutate set |
| MutationRatchet.UpdatedExactly | scripts/mutation-ratchet.ts:468-486 | what an update makes of each file of the mutate set: its score counts when all was run, or it changed, or had no entry; then the entry is the higher of the two, or zero when nothing was killed; else it stays |
| MutationRatchet.PassesAfterExactly | scripts/mutation-ratchet.ts:468-486 | a ratchet updated from a report passes on it exactly when no file that keeps its entry was below it, leaving out unmeasured files the update reached |
| MutationRatchet.PassingStaysPassing | scripts/mutation-ratchet.ts:15-22 | a ratchet that passes on a report still passes after an update from it |
| MutationRatchet.UpdateIsIdempotent | scripts/mutation-ratchet.ts:468-486 | a second update from the same report changes nothing |
| MutationRatchet.UpdateLowersOnlyUnmeasured | scripts/mutation-ratchet.ts:468-486 | an update lowers unmeasured files only, to 0, leaves entries outside the changed files alone, and drops an entry exactly when its file left the mutate set |
| MutationRatchet.RoseExactlyWhenRaised | scripts/mutation-ratchet.ts:17-20 | a score is reported as risen exactly when an update that reaches the file would raise its entry |
| StreamLifecycle.Adapter.Open | packages/http/src/fastify-adapter.ts:349-356 | 503 and no stream once stopping, else one more stream, open |
| StreamLifecycle.Adapter.Send | packages/http/src/fastify-adapter.ts:409-417 | writes the text unless the stream is ending |
| StreamLifecycle.Adapter.OnClose | packages/http/src/fastify-adapter.ts:419-421 | appends the callback, whatever the state of the stream |
| StreamLifecycle.Adapter.Close | packages/http/src/fastify-adapter.ts:392-404 | ends the stream; the first close also takes it off the open ones and runs its callbacks, with whatever they do to any stream |
| StreamLifecycle.Adapter.RunCallbacks | packages/http/src/fastify-adapter.ts:397-403 | the loop over a list that any callback may grow, and whose callbacks may close other streams inside it, ends in the state of the loop's own definition |
| StreamLifecycle.Adapter.Perform | packages/http/src/fastify-adapter.ts:397-403 | a callback's calls, on any streams, nested closes included |
| StreamLifecycle.Adapter.PreClose | packages/http/src/fastify-adapter.ts:209-212 | ends every open stream with a bound and no other |
| StreamLifecycle.LoopedGoes | packages/http/src/fastify-adapter.ts:397-403 | a close's loop ends with all of the list run; every stream's list gains a callback exactly as often as callbacks started meanwhile register it there; a stream closed inside runs what it held, and all its own callbacks register; one that was closed before runs nothing |
| StreamLifecycle.OwnCallbacksRunInOrder | packages/http/src/fastify-adapter.ts:397-403 | callbacks that keep to their stream: what runs is the list followed by what each of those that ran registered, in order, and no other stream changes |
| StreamLifecycle.ExecKeepsInv | packages/http/src/fastify-adapter.ts:207-212 | in every run, open are exactly the streams not closed, and once stopping each of them is ending with its socket's end bounded |
| StreamLifecycle.StreamsGoOn | packages/http/src/fastify-adapter.ts:373-421 | in every run nothing is written to a stream after it starts ending, and no callback runs after the turn that closed it |
| StreamLifecycle.NoneJoinsOnceStopping | packages/http/src/fastify-adapter.ts:349-356 | in every run, once stopping no stream joins |
| StreamLifecycle.CallbacksRunOnce | packages/http/src/fastify-adapter.ts:392-421 | none of a stream's callbacks runs before the turn that closes it and none after; in it those registered before run first, in order, then what they register, each as often as it is registered; and the list holds exactly what was registered |
| StreamLifecycle.SentIsWritten | packages/http/src/fastify-adapter.ts:373-421 | in every run what is written to a stream is exactly the texts sent to it before it was closed or the hook ran, in order, by turns and by callbacks alike; its list exactly the callbacks registered on it, in order; and it is ending exactly when it was closed or the hook ran |
| StreamLifecycle.CallsAreAccounted | packages/http/src/fastify-adapter.ts:392-421 | in every run each call, a send among them, was made exactly as often as the turns make it and the callbacks that were started make it |
| StorefrontForward.Forward.PreHandler | packages/http/src/storefront-forward.ts:92-103 | forwards and counts unless refusing |
| StorefrontForward.Forward.Settle | packages/http/src/storefront-forward.ts:70-73 | counts down, and at zero answers every wait true |
| StorefrontForward.Forward.Drained | packages/http/src/storefront-forward.ts:135-147 | true at once with none in flight, else a wait |
| StorefrontForward.Forward.Timeout | packages/http/src/storefront-forward.ts:138-144 | the wait is over, with false |
| StorefrontForward.CounterIsOpen | packages/http/src/storefront-forward.ts:67-73 | in every run the counter equals the open forwards, and nobody waits with none open |
| StorefrontForward.DrainedStaysDrained | packages/http/src/storefront-forward.ts:130-148 | after the refusal, an answer of true means no forward is in flight from then on |
| StorefrontForward.AnswersTellTruth | packages/http/src/storefront-forward.ts:135-147 | in every run true is answered with none in flight and false with one |
| StorefrontForward.AnswersStand | packages/http/src/storefront-forward.ts:138-144 | an answer is given once |
| StorefrontForward.NobodyWaitsForever | packages/http/src/storefront-forward.ts:70-73 | once nothing is in flight, everyone who waited was answered |
| StorefrontForward.TimeoutEndsTheWait | packages/http/src/storefront-forward.ts:138-144 | in every run a wait its timer ends is answered false then and there, whatever is in flight, and no other is |
| StorefrontForward.DrainedBeforeRefusalPromisesNothing | packages/http/src/storefront-forward.ts:130-137 | before the refusal an answer of true is followed by a new forward in flight |
| ShopperAttestation.VerifiesExactly | packages/http/src/shopper-attestation.ts:28-42 | a token verifies as an address exactly when it is the text signed for that nonempty `~`-free address and a later safe expiry |
| ShopperAttestation.MintedVerifiesExactly | packages/http/src/shopper-attestation.ts:25-42 | for every address and time, what was minted verifies as its address exactly when the address is nonempty and `~`-free, the expiry a safe integer not below zero, and now is before it |
| ShopperAttestation.AttestsOne | packages/http/src/shopper-attestation.ts:10-15 | a token attests one address |
| ShopperAttestation.MacVouchesForBoth | packages/http/src/shopper-attestation.ts:20-42 | under the mac of one address and expiry another address or expiry verifies exactly when the mac of the two texts is the same: the mac is over both |
| ShopperAttestation.StaysExpired | packages/http/src/shopper-attestation.ts:35 | a token that verifies at a time verified at every earlier one |
| CatalogueEdit.Closing | scripts/new-adapter.ts:226-233 | the scan stops exactly where the depth counted from `open` first falls back to zero |
| CatalogueEdit.ReadItems | scripts/new-adapter.ts:258-269 | the scan's answer is the pieces between commas outside braces, trimmed |
| CatalogueEdit.CatalogueBlocks | scripts/new-adapter.ts:247-274 | the loop reads the slots one by one up to the catalogue's closing brace |
| CatalogueEdit.CatalogueIsReadBack | scripts/new-adapter.ts:246-274 | a catalogue laid out slot by slot, for any slots with balanced insides, is read back as those slots in order with their items |
| CatalogueEdit.SlotsExactly | scripts/new-adapter.ts:247-274 | for any text that can be read: each slot is a line inside the catalogue's braces that starts with a head, and each such line is a slot or stands inside one |
| CatalogueEdit.HeadExactly | scripts/new-adapter.ts:254 | a head is spaces, a name of letters, digits or underscores, a colon, a space and a brace |
| CatalogueEdit.LastNamedIsLast | scripts/new-adapter.ts:270 | of several slots of one name the last is edited |
| CatalogueEdit.ItemsAreClean | scripts/new-adapter.ts:258-269 | every item read from a closed brace is trimmed, balanced, and has no comma outside its braces |
| CatalogueEdit.OneLineReads | scripts/new-adapter.ts:624 | the one-line form is read back as its items, but for a last one that is empty |
| CatalogueEdit.MultiLineReads | scripts/new-adapter.ts:629 | the form with an item a line is read back as its items |
| CatalogueEdit.AddedIsRead | scripts/new-adapter.ts:243-244 | the item added is read as its provider, quoted or not, and never as a built-in |
| CatalogueEdit.AddedSdkIsRead | scripts/new-adapter.ts:282-288 | the item added is read back as a package with exactly the SDK given, and with none when none was or it is empty |
| CatalogueEdit.AddedIsWritten | scripts/new-adapter.ts:616-618 | how the item stands in the text: the key plain exactly when it starts with a letter and has no hyphen, and braces with the SDK or nothing in them |
| CatalogueEdit.ProviderIsTheKey | scripts/new-adapter.ts:243-244 | a key is read as it is or without its quotes, and loses its last letter with no colon behind it |
| CatalogueEdit.BuiltInExactly | scripts/new-adapter.ts:287 | an item is built in exactly when it ends in a colon, blanks or none, and `builtIn` |
| CatalogueEdit.ReplacedIsReadBack | scripts/new-adapter.ts:247-274 | whatever balanced text replaces a slot's inside, the catalogue read again has the same slots, names, indents and items, but for the slot's items, which are the new text's |
| CatalogueEdit.EditIsReadBackExactly | scripts/new-adapter.ts:605-635 | the edited catalogue read again has every other slot unchanged, and the edited one its old items in order with the new one among them, exactly unless it is written on one line with an empty last item |
| CatalogueEdit.EditedEntryIsRead | scripts/new-adapter.ts:605-635 | at the provider's place the edited slot, read again, has an item that names it with the SDK given; before it the items that were before, and behind it those that were behind, but for an empty last one lost |
| CatalogueEdit.EditedLayout | scripts/new-adapter.ts:623-634 | the slot stays on one line exactly when it was and the line with its comma is at most a hundred letters; else each item has a line of its own, two deeper than the slot; the text around stays |
| CatalogueEdit.EmptyItemIsLost | scripts/new-adapter.ts:269 | a catalogue text whose one slot holds an item and an empty one on a line that the new provider fits: the edit, read again, lacks the empty item |
| CatalogueEdit.NextStaysSorted | scripts/new-adapter.ts:619-622 | package providers that were in order stay in order with the new one among them |

## Left out

- FailuresAreBounded: the login and checkout rules are at their own paths, no pattern has a `|` (the configuration's schema allows none), addresses have no `|` and do not start with `account:`, only the login and the checkout are routed at their paths, a request goes in once and a login is answered only if it was let in, and each turn reads the clock once.
- BoundedExactly: the same, for runs from a fresh limiter.
- WindowAdmits: says max(1, requests times scale), since a count of zero still admits the request that opens the window.
- SpanAdmitsAtMostTwice: the window has a positive length; `SpanIsBoundedExactly` has both cases.
- PathPatternAccepts: `.` and `*` stay on one line, as the regular expressions do.
- Walk: where the query orders by, documents hold only values that read back from JSON, and its filter does not throw; `GoesOnExactly` says what happens otherwise.
- Query: the cursor is a record where the source writes and parses its JSON text, so a text that is no cursor is not modelled; nor are getters or proxies that give another value each time, or one object held by two documents and asked for by `eq`.
- Reference: lists documents where the source lists their keys, which are distinct.
- Compare: answers sets; the source lists the files by name in locale order.
- ScoreByFile: scores are exact hundredths; the rounding of the floating-point division before `Math.round` is not modelled.
- MintedVerifiesExactly: times are integers; the addition of floating-point times past the safe integers is not modelled.
- Run: the time, the exit detail, the quiet hold and the Vitest workers of a step are left out of its result.
- LinesTellTrees: is about the lines hashed; the hash is not modelled.
- SurvivesCommitExactly: every path is a file or a link: submodules, nested repositories and a failing `hash-object` are not modelled.
- EditIsReadBackExactly: SDK names have no brace, comma, quote, colon or line break, as package names have none.
- EditedEntryIsRead: the same, and a given SDK is not the empty text, which `AddedSdkIsRead` says is read as none.
- EditedLayout: no item and no indent of the slot has a line break in it.
- AnsweredInOrder: where the query orders by, documents hold only values that read back from JSON; `NaNTiesWithAll` says why.
- FailsExactly: is about first pages; a later one may also fail on what its cursor holds (`SeekingFails`).
- CheckoutLimitedExactly: the rule's window has a length; without one nothing is refused (`NoLengthRefusesNothing`).
- CountedOne: the same.
- HitCountsEach: the same.
- FailureCountsBoth: the same, and the address is an address: it has no `|` and does not start with `account:`.
- RuleIsTheFirst: no pattern reads as the placeholder of `**`; `AcceptanceExactly` says what happens otherwise.
- A call outside any checkout, and `liveHolders`: the one takes no hold and the other only reads.
- A stale `.lock` broken by two stats and an unlink (`scripts/stack.ts:198-213`) is one step after its holder's death.
- `resolveSlot` with a slot forced by the environment or in the main checkout, which answer without a claim.
- The limiter's `parseWindow`, and rules read from configuration: parsing of fixed shapes.
- How CSRF tokens are issued, the security headers, and how a request's header, cookies and body are read: fields of a request.
- `#resolveClientIp` and the origin lock: a chain of branches that would only add easier members.
- TTLs and conditional puts of document stores: checks beside the walk.
- The store adapters themselves: the model's store is the one in-memory query all of them are held to.
- Which steps the gate plans for a change, command execution and git: inputs of the plan and the run.
- `gate.ts` test selection, census rules and reports: decisions over finite tables.
- The ratchet's total score, `--static` check and target floors: easier members over the same scores.
- A close callback that begins the adapter's own shutdown: callbacks act on streams.
- Writing heads and frames of streams and the forward's proxying: library behaviour.
- The rest of `new-adapter.ts` (renames, manifests, registry): other texts with plainer edits.
