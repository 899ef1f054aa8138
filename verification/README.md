# Verified model of the evaluation platform's evidence machinery

This project models the parts of the repository that decide things: the rate limiter's token
bucket, the redaction of local paths, the identifier codec, the gates that re-run earlier gates
in pruned clones, the self-test that plants violations and takes them back, the analysers of the
SQL schema and of the API description, the traceability and cross-reference verdicts, and the
crash-injected worker of the durable-execution spike. For each, the code is written out as Dafny
in its own form (classes for objects that change their fields, loops where the source loops,
functions where it computes), tied to a specification, and the specification is proved to have
the property the code exists for.

Run `dafny verify dfyconfig.toml` in this directory.

| module | what it models |
|---|---|
| `Collections` | optional values and counting |
| `TokenBucket` | the in-memory bucket: bounds, envelope, optimality, isolation of tenants |
| `RateLimiter` | the production script, its fail-closed check, retry advice and expiry, related to `TokenBucket` |
| `Redaction` | the token table and the rewriting of paths in evidence |
| `Base32`, `Ulid` | fixed-width base 32 and the 26-character identifiers |
| `Reachability` | the worklist closure over validators and the verdict on it |
| `PrunedClone` | the clone an earlier gate runs in, over a commit graph with refs |
| `GateRuns` | exit codes of gates inside gates, and the cost of naming the earlier ones |
| `Splitter`, `ScriptText` | cutting a gate script on its banners and printing a subset of it |
| `WorkTree`, `SelfTest` | planting, restoring, and the loop that judges every plant |
| `Columns`, `Tenancy`, `AuditGrants` | the schema checks, and what they say about rows and statements |
| `Json`, `References`, `Requirements` | walks over the API description |
| `Traceability`, `CrossReferences` | verdicts that mean agreement |
| `CrashInjection` | the commit-then-report worker under every schedule of kills and restarts |

## Where a property holds only under a condition

Some of the promises are false of the code as it stands. The code is modelled unchanged, and the
exact condition is proved:

- A redacted text can still show a registered path when the path's token is open. A token is safe
  for every resolved POSIX path exactly when it starts with an angle bracket; for every resolved
  Windows path exactly when, besides, it does not end in a drive letter or one and a colon; and
  for every path with a separator exactly when a bracket closes both ends
  (`Redaction.TokenIsSafeIff`, with a resolved path and a text that fail for every open token in
  `Redaction.OpenOnTheLeft`, `Redaction.DriveOnTheRight`, `Redaction.EmptyTokenJoins`). The
  tokens registered at `docs/evidence/phase-11/ci_execution.py:510-514` have a bracket at both
  ends, which is safe for all of them (`Redaction.BracketedIsClosed`).
- A registered path becomes its own token exactly when no path that differs only in case has
  another token (`Redaction.MostSpecificTokenIff`); on a case-sensitive system two such
  directories can be registered (`Redaction.CaseSiblingsCollide`).
- Identifiers of one millisecond are not in creation order, which the documentation of
  `new_ulid` suggests, and the order restarts after 2^48 milliseconds (`Ulid.FreshOrder`).
- The pruned clone holds one history exactly when every tag lies inside it, because only branches
  are deleted (`PrunedClone.OneHistoryIffTagsInside`, and a repository where it fails in
  `PrunedClone.LaterTagIsKept`). The Phase 5 form leaves no branch, so a
  nested gate's lookup on any branch finds nothing (`PrunedClone.GateWithoutMain`).
- A gate hears nothing from `docs/evidence/M1.1/check_m11.py`, which prints its counts and always
  exits 0. Whatever the checks record, exit codes tell of every failure exactly when the tree of
  runs holds no such script, or the root is bound to fail anyway for a commit that was not found
  (`GateRuns.ExitCodesComposeIff`; `GateRuns.DeafGateExitsZero` is a run that exits 0 over a FAIL).
- Undoing `create` restores the tree exactly when the file was absent and no existing parent
  directory was empty (`WorkTree.CreateIsUndoneIff`; `WorkTree.EmptyParentIsLost` is a tree that
  does not come back).
- Reassembling a gate script gives the script back exactly when the `done` block is last or
  absent (`Splitter.ReassemblyIff`), and keeping every check gives it back exactly when the ids
  ascend in the text (`Splitter.KeepAllIffAscending`). Two scripts that do not come back are in
  `Splitter.DoneFirstComesBackLonger` and `Splitter.DescendingComesBackSorted`.
- Splitting columns inverts joining exactly on pieces without a top-level comma of which all but
  the last are balanced (`Columns.SplitInvertsJoinIff`); a blank piece in front of a top-level
  comma makes the parser fail (`Columns.ParseFailsIff`), as in every body that starts with a comma
  (`Columns.LeadingCommaFails`).
- The tenancy rule asks that a foreign key mentions `organization_id`, not that it pairs it with
  the target's, and does not see references written on a column or added by ALTER TABLE. What it
  sees is enough: under a passing schema whose parsed references pair what they list, no chain of
  parsed references leaves its organization (`Tenancy.PassingChainsStayInOneTenant`). What it does
  not see may be harmless, when another reference of the same row leads to the same key and
  carries the organization along (`Tenancy.GuardedSchemaIsolates`), or not, when the two ends can
  be exchanged between two organizations without breaking any key or reference
  (`Tenancy.LooseReferenceEscapes`). Where every tenant reference is of one of these two kinds,
  the schema isolates exactly when all are of the first (`Tenancy.PassingSchemaIsolatesIff`). The
  repository's own `artifact.erasure_audit_id` is of the second kind
  (`Tenancy.ErasureReferenceIsLoose`): four rows that keep every
  key and reference link two organizations (`Tenancy.ColumnReferenceEscapes`).
- Accepted grants keep an audit table append-only exactly when three things hold
  (`AuditGrants.AcceptedIsAppendOnlyIff`): none gives UPDATE or DELETE on it in a form the check
  overlooks (ALL; a statement its expression does not take apart; the whole schema; another role
  the runtime role holds); no foreign key hands it a change the runtime role may make elsewhere;
  and it cannot be truncated together with all that refers to it. Accepted grants under which
  audit rows are altered or removed are in `AuditGrants.ColumnGrantEscapes`,
  `AuditGrants.UnparsedGrantEscapes`, `AuditGrants.GrantAllEscapes` and
  `AuditGrants.CascadeEscapes`; the reference of `suite_grant` as it stands does not cascade
  (`AuditGrants.RefusingReferenceKeeps`).
- The comment on the requirement walk speaks of the nearest enclosing named context; the code
  uses the nearest enclosing `operationId`, and without one the context it was given or the first
  key it passed (`Requirements.WalkedIffDeclared`).
- A passing cross-reference check makes its two tables inverse relations exactly when no repeated
  use-case id has an earlier section declaring more than its last one
  (`CrossReferences.PassMakesInverseIff`; sections and tables that pass without being inverse are
  in `CrossReferences.RestatedUseCasePasses`).

## Model

| member | source | states |
|---|---|---|
| TokenBucket.Memory.constructor | docs/evidence/phase-12/check_phase12.py:759-760 | a new stand-in broker holds no bucket |
| TokenBucket.Memory.Eval | docs/evidence/phase-12/check_phase12.py:762-768 | in plain arithmetic, the reply and the whole new dictionary: a new bucket is full, a held one has grown with time up to its capacity, one token is spent exactly when there is one, and no other key changes |
| TokenBucket.TokensStayInBounds | docs/evidence/phase-12/check_phase12.py:763-767 | over every time-ordered trace of every set of keys, no balance is negative or above its capacity |
| TokenBucket.TenantsDoNotInterfere | docs/evidence/phase-12/check_phase12.py:762-778 | in any interleaving, each key gets the verdicts it would get alone |
| TokenBucket.RunGoesOn | docs/evidence/phase-12/check_phase12.py:762-778 | a trace in two parts gives the verdicts of the first part and then those from the dictionary it left |
| TokenBucket.RefusalKeepsLevels | docs/evidence/phase-12/check_phase12.py:763-767 | a refused call leaves every later balance as if it had not been made |
| TokenBucket.RefusalsAreFree | docs/evidence/phase-12/check_phase12.py:762-778 | deleting any refused call from a trace leaves every other verdict unchanged |
| TokenBucket.ConformsIffWithinEnvelope | docs/evidence/phase-12/check_phase12.py:763-767 | a choice spends only from its own bucket if and only if every window of the trace admits at most capacity + rate * length |
| TokenBucket.WindowBound | docs/evidence/phase-12/check_phase12.py:763-767 | the bucket keeps every window of every time-ordered list of calls inside capacity + rate * length |
| TokenBucket.GreedyDominates | docs/evidence/phase-12/check_phase12.py:765-766 | from any two buckets a bounded lead apart, the greedy choice trails no conforming choice by more than that lead |
| TokenBucket.BucketIsOptimal | docs/evidence/phase-12/check_phase12.py:762-768 | no choice that keeps every window inside the envelope admits more calls than the bucket |
| TokenBucket.EnvelopeIsWindows | docs/evidence/phase-12/check_phase12.py:763-767 | inside the envelope means: from each call to each later one, the picked calls counted, at most capacity + rate * (the time between) |
| TokenBucket.EveryTenantGetsItsEnvelope | docs/evidence/phase-12/check_phase12.py:770-779 | in every interleaved trace each tenant admits in every window at most capacity + rate * (the time between its ends), and as many calls as any choice that does so |
| RateLimiter.Limiter.constructor | src/clep/security/limits.py:81-86 | a new limiter has no buckets |
| RateLimiter.Limiter.Eval | src/clep/security/limits.py:35-54 | the reply and the whole new dictionary of one atomic run of the script, which moves its clock only when something was refilled |
| RateLimiter.Limiter.Check | src/clep/security/limits.py:88-117 | an empty limit refuses and an unreachable store is unavailable, both without a change; a new tenant finds its configured number of tokens and leaves one less; an admission needs a reachable store, a limit and a token; a refusal carries the wait |
| RateLimiter.Limiter.CheckEach | src/clep/security/limits.py:88-117 | repeated checks for one organization give the run of the script |
| RateLimiter.Limiter.CheckNewTenant | src/clep/security/limits.py:88-117 | for a new tenant with a configured number on a forward clock: every window admits at most that number and a sixtieth of it for each second, no choice of calls that does so is larger, and of the calls at the first instant exactly the configured number is admitted |
| RateLimiter.ScriptKeepsTheLimit | src/clep/security/limits.py:23-54 | the same of the script for any capacity and rate |
| RateLimiter.SameInstant | src/clep/security/limits.py:35-54 | at one instant a bucket admits exactly as many calls as it holds whole tokens |
| RateLimiter.ScriptIsNextAtHighWater | src/clep/security/limits.py:42-51 | one call of the script is one call of the in-memory bucket at the latest instant seen |
| RateLimiter.ScriptRunIsAdmitAtHighWater | src/clep/security/limits.py:29-54 | on any clock the script gives the in-memory bucket's verdicts on the high-water mark of that clock; on a forward clock the two are the same |
| RateLimiter.ScriptAgreesIffClockHeld | src/clep/security/limits.py:42-46 | script and stand-in leave the same bucket if and only if the clock has not gone back |
| RateLimiter.HighWaterAscends | src/clep/security/limits.py:43-46 | the instants the script works at never go back, whatever the clock does |
| RateLimiter.ScriptWindowBound | src/clep/security/limits.py:23-54 | on any clock every window of the high-water mark stays inside the envelope |
| RateLimiter.RetryAdviceIsExact | src/clep/security/limits.py:112-124 | after a refusal, waiting w whole seconds is enough if and only if w reaches the advice |
| RateLimiter.TimeToLiveRefills | src/clep/security/limits.py:96-99 | the time to live is twice the time in which any bucket refills completely |
| RateLimiter.ForgettingIsInvisible | src/clep/security/limits.py:97-99 | with the broker counting the time to live on its own clock, expiring idle buckets at any of the points it allows changes no verdict, as long as the limiter's clock runs at least half as fast |
| RateLimiter.StoppedClockForgets | src/clep/security/limits.py:97-101 | where the limiter's clock stands still, forgetting an empty bucket admits a call |
| Redaction.Redactor.constructor | docs/evidence/phase-11/ci_execution.py:95-96 | the table starts empty |
| Redaction.Redactor.Register | docs/evidence/phase-11/ci_execution.py:99-110 | the table holds each resolved pair, once for each time it was given, longest path first, and those of one length in the order they were given |
| Redaction.EntriesKeep | docs/evidence/phase-11/ci_execution.py:108-109 | a registered entry has its token unchanged and its path character by character, with slashes for backslashes |
| Redaction.Redactor.RedactString | docs/evidence/phase-11/ci_execution.py:115-119 | the string branch computes the specified rewriting, entry by entry |
| Redaction.RegistrationSorts | docs/evidence/phase-11/ci_execution.py:107-110 | registration loses nothing, orders by descending length and keeps equal lengths in their order |
| Redaction.BracketedIsClosed | docs/evidence/phase-11/ci_execution.py:510-514 | a bracket at both ends, as every registered token has, closes a token for paths of every kind |
| Redaction.TokenIsAWall | docs/evidence/phase-11/ci_execution.py:117-118 | text around a closed token shows no resolved path that neither side shows |
| Redaction.SubCreatesNothing | docs/evidence/phase-11/ci_execution.py:117-118 | a replacement removes its own path and never recreates any path removed earlier |
| Redaction.RewriteClears | docs/evidence/phase-11/ci_execution.py:117-118 | with resolved paths and closed tokens, after the whole loop no path of the table occurs, in any case |
| Redaction.NormaliseDropsBackslashes | docs/evidence/phase-11/ci_execution.py:116 | no backslash survives separator normalisation |
| Redaction.NormaliseReads | docs/evidence/phase-11/ci_execution.py:116 | two backslashes in a row become one slash, so does one alone, and every other character stays |
| Redaction.SubKeepsOut | docs/evidence/phase-11/ci_execution.py:116-118 | replacing brings no character into a text that neither it nor the token has |
| Redaction.RedactTextIsClean | docs/evidence/phase-11/ci_execution.py:115-119 | no redacted string shows a registered path, in any case, or a backslash |
| Redaction.RedactIsCleanAndIdempotent | docs/evidence/phase-11/ci_execution.py:113-124 | on every nested value: no string leaf shows a path or a backslash, shape, keys and other leaves are unchanged, and a second pass changes nothing |
| Redaction.CleanValueIsKept | docs/evidence/phase-11/ci_execution.py:113-124 | a value whose leaves show neither a registered path nor a backslash comes back as it is |
| Redaction.LeafIsRedacted | docs/evidence/phase-11/ci_execution.py:113-124 | the result has exactly the positions of the value, and at each string leaf what redacting that string gives |
| Redaction.PathLeafBecomesToken | docs/evidence/phase-11/ci_execution.py:113-124 | a leaf that is a registered path, in any case, becomes the token of its first entry in the table |
| Redaction.PathInText | docs/evidence/phase-11/ci_execution.py:115-119 | a registered path named once in a text, with every match inside it, becomes its token and all around it stays |
| Redaction.TokenIsSafeIff | docs/evidence/phase-11/ci_execution.py:108-118 | for resolved POSIX paths, resolved Windows paths and any paths: a token is safe for every path of the kind and every text if and only if it is closed for that kind |
| Redaction.OpenOnTheLeft | docs/evidence/phase-11/ci_execution.py:108-118 | a token open on the left has a resolved path, of either system, and a text in which the path survives its own replacement |
| Redaction.DriveOnTheRight | docs/evidence/phase-11/ci_execution.py:108-118 | a token that ends like a drive has a resolved path on a drive that survives |
| Redaction.OpenOnTheRight | docs/evidence/phase-11/ci_execution.py:117-118 | where paths need not be resolved, a token open on the right has a path that survives |
| Redaction.EmptyTokenJoins | docs/evidence/phase-11/ci_execution.py:108-118 | an empty token can join two halves of a resolved path of either system |
| Redaction.WholePathGetsFirstAlike | docs/evidence/phase-11/ci_execution.py:117-118 | with longest first, a whole path becomes the token of the first entry equal to it up to case, whatever prefixes are registered |
| Redaction.MostSpecificTokenIff | docs/evidence/phase-11/ci_execution.py:102-118 | every registered path becomes its own token if and only if no two paths equal up to case have different tokens |
| Redaction.CaseSiblingsCollide | docs/evidence/phase-11/ci_execution.py:102-118 | of two resolved paths that differ only in case, one becomes the other's token |
| Base32.ValueOfDigits | src/clep/identity.py:37-42 | the digits of a number that fits are worth that number |
| Base32.DigitsOfValue | src/clep/identity.py:60-65 | any digits are the digits of their value |
| Base32.DigitsOrder | src/clep/identity.py:37-42 | numbers are ordered as their digit sequences are |
| Ulid.DecodeTable | src/clep/identity.py:20-21 | the table inverts the alphabet in both directions |
| Ulid.LegalIff | src/clep/identity.py:62 | the characters read are the digits, the letters but I, L, O and U in either case, and the long s |
| Ulid.DigitIs | src/clep/identity.py:62 | a digit counts itself, a letter its place behind the ten digits with I, L, O and U passed over, in either case |
| Ulid.CaseIsIgnored | src/clep/identity.py:62 | a letter and its lower-case form are both legal or both not, and count the same |
| Ulid.Encode | src/clep/identity.py:37-42 | the low-digit-first loop and its reversal write the number's 26 digits |
| Ulid.Decode | src/clep/identity.py:57-71 | the loop accepts and refuses as the specification does, and refuses for the length exactly the texts that do not have 26 characters |
| Ulid.NewUlid | src/clep/identity.py:25-34 | the identifier of the 48-bit clock field above the random ten bytes |
| Ulid.IsUlid | src/clep/identity.py:74-79 | true if and only if 26 legal characters of which the first is at most 7 |
| Ulid.DecodeInvertsEncode | src/clep/identity.py:37-71 | every 128-bit value survives being written and read |
| Ulid.DecodeAcceptsExactly | src/clep/identity.py:57-71 | exactly which strings are accepted and which overflow; an accepted string written again is that string in upper case |
| Ulid.DecodingIgnoresCase | src/clep/identity.py:57-73 | an accepted identifier with any of its ASCII letters changed in case is accepted, with the same value |
| Ulid.FirstIllegalIsNamed | src/clep/identity.py:61-65 | a text of the right length with an illegal character is refused for the first of them |
| Ulid.FitsIffLeadingDigit | src/clep/identity.py:66-70 | 26 legal characters fit 128 bits if and only if the first digit is at most 7 |
| Ulid.SpellingsOfOneValue | src/clep/identity.py:61-65 | two accepted strings name one value if and only if they differ at most in case |
| Ulid.EncodeKeepsOrder | src/clep/identity.py:37-42 | for 128-bit values, text order is numeric order, both ways |
| Ulid.FreshDecodes | src/clep/identity.py:25-34 | every fresh identifier decodes to the value it was made from |
| Ulid.FreshShape | src/clep/identity.py:32-34 | the first ten characters are the clock field alone, the other sixteen the random part alone |
| Ulid.FreshOrder | src/clep/identity.py:25-34 | exactly when one fresh identifier sorts before another |
| Ulid.LaterMillisecondSortsLater | src/clep/identity.py:26-34 | within 48 bits a later millisecond sorts strictly later, whatever the random parts |
| Reachability.Expand | docs/evidence/phase-7/check_phase7.py:778-781 | every target not seen before is marked and pushed once, nothing else |
| Reachability.Closure | docs/evidence/phase-7/check_phase7.py:775-781 | the loop ends with exactly the nodes an invocation path leads to from the root, each pushed once |
| Reachability.ValidatorsVerdict | docs/evidence/phase-7/check_phase7.py:774-785 | PASS if and only if every validator has an invocation path from the root and no edge leaves the validators |
| Reachability.ClosedContainsReachable | docs/evidence/phase-7/check_phase7.py:776-781 | a set the edges do not leave holds everything reachable from inside it |
| Reachability.NoneMissingIffClosed | docs/evidence/phase-7/check_phase7.py:783-784 | nothing invoked is absent if and only if the edges stay among the validators |
| PrunedClone.Repository.constructor | docs/evidence/phase-6/check_phase6.py:143-150 | a repository as a commit graph, refs, HEAD and an empty reflog |
| PrunedClone.Repository.Clone | docs/evidence/phase-6/check_phase6.py:149-150 | the clone has every commit, every tag and HEAD of its source, each branch as a remote branch, and the branch HEAD is on |
| PrunedClone.Repository.CheckoutDetached | docs/evidence/phase-6/check_phase6.py:151-152 | HEAD is the commit and the reflog remembers it |
| PrunedClone.Repository.DeleteRef | docs/evidence/phase-6/check_phase6.py:156-158 | that ref is gone and no other |
| PrunedClone.Repository.CreateBranch | docs/evidence/phase-6/check_phase6.py:159-160 | the branch names the commit |
| PrunedClone.Repository.ExpireReflog | docs/evidence/phase-6/check_phase6.py:162 | nothing is held by the reflog any more |
| PrunedClone.Repository.CollectGarbage | docs/evidence/phase-6/check_phase6.py:163-164 | exactly the commits some ref, HEAD or the reflog reaches remain, with their parents |
| PrunedClone.ReachableFrom | docs/evidence/phase-6/check_phase6.py:163-164 | exactly the commits reached from some root |
| PrunedClone.Isolate | docs/evidence/phase-6/check_phase6.py:149-158 | after the ref loop only the tags are left, and HEAD is detached at the commit |
| PrunedClone.GateAtItsOwnTree | docs/evidence/phase-6/check_phase6.py:149-164 | the clone holds exactly what the commit and the tags reach, `main` and HEAD are the commit, and the commit's ancestors are those it has in the whole repository |
| PrunedClone.GateWithoutMain | docs/evidence/phase-5/check_phase5.py:149-166 | the same history, and no branch on which a lookup could find any commit |
| PrunedClone.NestedGate | docs/evidence/phase-6/check_phase6.py:130-164 | pruning at an outer commit and then at an ancestor leaves what pruning at the ancestor alone leaves, and a lookup on `main` chooses among that ancestor's history |
| PrunedClone.PartKeepsAncestors | docs/evidence/phase-5/check_phase5.py:136-141 | a part of a history closed under parents gives each of its commits the ancestors the whole gives it |
| PrunedClone.OneHistoryIffTagsInside | docs/evidence/phase-6/check_phase6.py:153-164 | what is left is exactly the commit's ancestors if and only if every tag is one of them |
| PrunedClone.LaterTagIsKept | docs/evidence/phase-6/check_phase6.py:153-164 | in a history of two commits, a tag on the later one keeps it in the earlier one's clone |
| PrunedClone.LaterHistoryIsInvisible | docs/evidence/phase-5/check_phase5.py:136-141 | however much history and however many branches are added later, the clone keeps the same commits |
| PrunedClone.KeptThroughMiddle | docs/evidence/phase-6/check_phase6.py:149-164 | an outer prune removes nothing an ancestor's prune would keep |
| GateRuns.Summarise | docs/evidence/phase-12/check_phase12.py:1182-1186 | the counts are the number of each status, and the exit code is 1 if and only if some check recorded FAIL, and 0 otherwise |
| GateRuns.ExitHears | docs/evidence/phase-12/check_phase12.py:162-170 | over every tree of runs, exit 0 if and only if no FAIL outside a silent subtree |
| GateRuns.ExitCodesComposeIff | docs/evidence/phase-12/check_phase12.py:1181-1186 | whatever the checks of a tree of runs record, exit 0 means no FAIL at any depth if and only if the tree holds no silent script or a commit was not found in earshot of the root |
| GateRuns.DeafGateExitsZero | docs/evidence/M1.1/check_m11.py:277-293 | a gate that starts a failing silent script exits 0 |
| GateRuns.SchemeRuns | docs/evidence/phase-9/check_phase9.py:168-180 | naming all earlier gates causes 2^k runs, naming the predecessor one more run each, and a chain that changes over at m causes 2^m + (k - m) |
| GateRuns.SchemeExecutes | docs/evidence/phase-10/check_phase10.py:169-187 | either way gate k executes exactly the gates 0 to k |
| GateRuns.ShortFormIsSufficient | docs/evidence/phase-10/check_phase10.py:179-187 | the short form exits with the code of the full listing, which is 0 if and only if no gate's own checks failed |
| Splitter.Blocks | docs/evidence/phase-13/selftest_phase13.py:52-65 | the loop over the banners found in the text yields the header, the last block of each id and the last footer of the cut |
| Splitter.Sorted | docs/evidence/phase-13/selftest_phase13.py:73-82 | each kept id once, in ascending order of its number |
| Splitter.Printed | docs/evidence/phase-13/selftest_phase13.py:73 | the body is the blocks of these ids one after the other |
| Splitter.Subset | docs/evidence/phase-13/selftest_phase13.py:68-82 | the derived text, printed in ascending order, with exactly the ids some printed line mentions, or exactly the requested ids that do not exist |
| Splitter.BannersOfSource | docs/evidence/phase-13/selftest_phase13.py:54-57 | the banners found line by line are the marks of the segments of the cut, each where its segment starts |
| Splitter.OneMoreMatch | docs/evidence/phase-13/selftest_phase13.py:59-64 | one turn of the loop adds the segment between its banner and the next, or makes the rest of the text the footer |
| Splitter.FoundIsLast | docs/evidence/phase-13/selftest_phase13.py:56-64 | of several blocks of one id the dictionary holds the last |
| Splitter.CutIsComplete | docs/evidence/phase-13/selftest_phase13.py:54-64 | cutting at the banners loses nothing |
| Splitter.CutIsUnique | docs/evidence/phase-13/selftest_phase13.py:54-64 | text assembled from segments is cut back into those segments |
| Splitter.ReassemblyIff | docs/evidence/phase-13/selftest_phase13.py:52-65 | with no mark repeated, header, blocks in text order and footer are the source if and only if `done` is last or absent |
| Splitter.SubsetResplits | docs/evidence/phase-13/selftest_phase13.py:68-74 | cutting a printed subset gives the same header and the segments of the kept checks and the footer |
| Splitter.SubsetRoundTrip | docs/evidence/phase-13/selftest_phase13.py:52-78 | splitting a printed subset returns the same header and footer and exactly the kept blocks |
| Splitter.KeepAllIffTextOrder | docs/evidence/phase-13/selftest_phase13.py:73-74 | keeping every check reproduces the source if and only if the ids are printed in text order |
| Splitter.KeepAllIffAscending | docs/evidence/phase-13/selftest_phase13.py:73-82 | with the numeric sort, keeping every check reproduces the source if and only if the ids ascend in the text |
| Splitter.SortedOnce | docs/evidence/phase-13/selftest_phase13.py:73-82 | ids with different numbers have one sorted order |
| Splitter.DoneFirstComesBackLonger | docs/evidence/phase-13/selftest_phase13.py:52-65 | a script with its `done` block in front of a check does not come back |
| Splitter.DescendingComesBackSorted | docs/evidence/phase-13/selftest_phase13.py:73-82 | a script of two checks whose numbers descend does not come back |
| ScriptText.JoinSplitLines | docs/evidence/phase-13/selftest_phase13.py:43-57 | cutting a text into lines loses nothing |
| ScriptText.SplitLinesJoin | docs/evidence/phase-13/selftest_phase13.py:73-74 | lines joined into a text are cut back into those lines |
| ScriptText.ReassembledTextIsSource | docs/evidence/phase-13/selftest_phase13.py:52-65 | with `done` last or absent, the pieces put together as text are the script |
| ScriptText.SubsetTextKeepsLines | docs/evidence/phase-13/selftest_phase13.py:68-78 | a subset written to a file and read again is cut into the lines it was printed from, so the round trip holds of the text |
| WorkTree.EditIsUndone | docs/evidence/phase-13/selftest_phase13.py:106-114 | editing and writing back is the identity on the tree |
| WorkTree.EditReplacesFirst | docs/evidence/phase-13/selftest_phase13.py:111-113 | the edit puts the new text where the old text first stood and changes nothing else |
| WorkTree.ApplyPlants | docs/evidence/phase-13/selftest_phase13.py:106-120 | an edit gives exactly the tree whose file has the new text where the old first stood, and is refused exactly where the old text is missing; a create gives exactly the tree with that file and its parents |
| WorkTree.RestoreRestores | docs/evidence/phase-13/selftest_phase13.py:114-130 | restoring an edit writes the original back; restoring a create takes the file away and, of its parents, exactly those that hold nothing but further such parents |
| WorkTree.SweepTakes | docs/evidence/phase-13/selftest_phase13.py:125-129 | sweeping removes a parent exactly when nothing but further parents of the same file is below it |
| WorkTree.CreateIsUndoneIff | docs/evidence/phase-13/selftest_phase13.py:117-130 | creating and undoing is the identity if and only if the path was absent and no parent was an empty directory |
| WorkTree.EmptyParentIsLost | docs/evidence/phase-13/selftest_phase13.py:117-130 | an empty directory is gone after a file in it is created and undone |
| WorkTree.SweepKeepsIff | docs/evidence/phase-13/selftest_phase13.py:125-129 | sweeping parents changes nothing if and only if none of them is empty |
| WorkTree.SweepTakesBackGrowth | docs/evidence/phase-13/selftest_phase13.py:119-129 | parents that planting created are swept away again |
| WorkTree.RestorablePlantIsUndone | docs/evidence/phase-13/selftest_phase13.py:106-130 | exactly which plants their own restore undoes |
| SelfTest.Session.constructor | docs/evidence/phase-13/selftest_phase13.py:267-274 | a session starts on the tree it is given |
| SelfTest.Session.PlayPlant | docs/evidence/phase-13/selftest_phase13.py:283-299 | the gate runs on exactly the planted tree and what it reports of this check is the verdict; the tree it leaves is restored; a plant that cannot be made changes nothing and is an error where the text is missing, a crash otherwise |
| SelfTest.PlayOneIs | docs/evidence/phase-13/selftest_phase13.py:283-299 | the same of the specification of one plant |
| SelfTest.ShowsHeadIff | docs/evidence/phase-13/selftest_phase13.py:90-91 | the tree shows HEAD exactly when the files that are not ignored are those of HEAD, with the same contents |
| SelfTest.Session.Loop | docs/evidence/phase-13/selftest_phase13.py:272-303 | the verdicts, the counters and the tree of the whole loop; a finished loop leaves the tree showing HEAD |
| SelfTest.Session.Execute | docs/evidence/phase-13/selftest_phase13.py:251-314 | exit 0 if and only if the run starts clean on known checks, finishes and every plant is caught; and then the tree shows HEAD |
| SelfTest.FinishesIffEveryHeadShowsHead | docs/evidence/phase-13/selftest_phase13.py:267-303 | whatever the gate does to the tree: the loop finishes if and only if every subset is the one asked for, nothing crashes and the tree, plant after plant, shows HEAD each time; the verdicts are those of the plants played one after the other |
| SelfTest.SucceedsIff | docs/evidence/phase-13/selftest_phase13.py:271-314 | exit 0 if and only if the tree shows HEAD before every plant and after the last, and every plant is caught by its own check |
| SelfTest.DeriveOne | docs/evidence/phase-13/selftest_phase13.py:278 | deriving the subset of one check reports what the loop takes it to contain |
| SelfTest.PresentIsAskedIff | docs/evidence/phase-13/selftest_phase13.py:278-282 | the derived subset is the one asked for if and only if header, block and footer together mention this check and no other |
| SelfTest.DerivedRunSucceedsIff | docs/evidence/phase-13/selftest_phase13.py:271-314 | with subsets derived from a script whose header and footer mention no check, exit 0 if and only if every planted block mentions its own check alone and the check catches the plant from a tree that shows HEAD |
| SelfTest.PlantsAreJudgedAlone | docs/evidence/phase-13/selftest_phase13.py:271-314 | with a gate that only reads and plants that can be taken back, the tree is never changed and success means each plant alone makes its own check fail |
| SelfTest.PlantLeavesATraceIff | docs/evidence/phase-13/selftest_phase13.py:283-299 | one iteration leaves the tree as it was if and only if the plant can be taken back |
| SelfTest.AllCaughtIffCount | docs/evidence/phase-13/selftest_phase13.py:314 | the two counters decide whether every plant was caught |
| Columns.SplitBody | docs/evidence/phase-4/check_schema_conformance.py:109-123 | the character loop cuts exactly at the top-level commas, strips the pieces and drops a blank last one |
| Columns.ParseColumns | docs/evidence/phase-4/check_schema_conformance.py:124-131 | the named columns in order, or the failure at a blank definition |
| Columns.JoinOfPieces | docs/evidence/phase-4/check_schema_conformance.py:111-123 | the unstripped pieces of any body join back to that body |
| Columns.FirstPiece | docs/evidence/phase-4/check_schema_conformance.py:112-121 | the first piece reaches exactly to the first comma at depth 0 |
| Columns.NoTopCommaIff | docs/evidence/phase-4/check_schema_conformance.py:112-121 | a comma is top-level exactly where as many brackets were opened as closed |
| Columns.StripTakesBlanks | docs/evidence/phase-4/check_schema_conformance.py:118-123 | stripping takes blanks off both ends, as many as there are, and nothing else |
| Columns.FirstWordEnds | docs/evidence/phase-4/check_schema_conformance.py:129 | the first word reaches to the first blank |
| Columns.StretchFillsBuffer | docs/evidence/phase-4/check_schema_conformance.py:112-121 | a stretch without a top-level comma only fills the buffer |
| Columns.SplitInvertsJoinIff | docs/evidence/phase-4/check_schema_conformance.py:111-123 | splitting a comma-join returns the pieces if and only if none has a top-level comma and all but the last are balanced |
| Columns.DefinitionsOfJoin | docs/evidence/phase-4/check_schema_conformance.py:111-123 | well-split pieces with a last one that is not blank come back stripped |
| Columns.ParseFailsIff | docs/evidence/phase-4/check_schema_conformance.py:118-130 | the parser fails if and only if some piece in front of a top-level comma is blank |
| Columns.LeadingCommaFails | docs/evidence/phase-4/check_schema_conformance.py:118-130 | every body that starts with a comma makes it fail |
| Tenancy.Check | docs/evidence/phase-4/check_schema_conformance.py:158-227 | exactly the failures of ten kinds, each with the literal condition it is reported under, and the exit code they decide |
| Tenancy.FailureIff | docs/evidence/phase-4/check_schema_conformance.py:158-227 | each failure is reported exactly for the tables named, exempted and configured as the rule says |
| Tenancy.SecurityFailuresOf | docs/evidence/phase-4/check_schema_conformance.py:196-210 | exactly the row-level-security failures of one table and its policies |
| Tenancy.LinkFailuresOf | docs/evidence/phase-4/check_schema_conformance.py:213-227 | one failure for each parsed tenant link without organization_id |
| Tenancy.CheckPassesIff | docs/evidence/phase-4/check_schema_conformance.py:158-227 | no failure if and only if every table keeps its scope, is secured, and every parsed link between tenant tables names organization_id |
| Tenancy.PassingReferenceKeepsTenant | docs/evidence/phase-4/check_schema_conformance.py:212-227 | under a passing schema a parsed tenant reference that pairs what it lists joins, in any database, only rows of one organization |
| Tenancy.PassingParsedSchemaIsolates | docs/evidence/phase-4/check_schema_conformance.py:212-227 | a passing schema whose tenant references are all parsed, and pair what they list, isolates every database |
| Tenancy.PassingChainsStayInOneTenant | docs/evidence/phase-4/check_schema_conformance.py:212-227 | under a passing schema, a chain of parsed references of any length, from a row of a tenant table, stays in its organization |
| Tenancy.ChainsStayInOneTenant | docs/evidence/phase-4/check_schema_conformance.py:212-227 | in an isolated database no chain of references of any length leaves its organization |
| Tenancy.RouteFinds | docs/data/schema/04-artifacts-and-audit.sql:75-79 | the rows a forced route of references leads to exist and agree with the first row wherever the route matches columns |
| Tenancy.CompanionKeepsTenant | docs/data/schema/04-artifacts-and-audit.sql:75-79 | because referenced columns are unique, a reference with a companion route joins only rows of one organization |
| Tenancy.GuardedSchemaIsolates | docs/evidence/phase-4/check_schema_conformance.py:212-227 | every database that obeys a schema whose tenant references are guarded, parsed or not, is isolated |
| Tenancy.TwinsObey | docs/evidence/phase-4/check_schema_conformance.py:212-227 | two organizations with one row per table, their cells exchanged and nullable ones left null so that every reference is waived or moves whole, obey every key and reference |
| Tenancy.LooseReferenceEscapes | docs/evidence/phase-4/check_schema_conformance.py:225-227 | a loose tenant reference admits an obeying database with a link across organizations |
| Tenancy.FreestandingIsLoose | docs/data/schema/04-artifacts-and-audit.sql:73 | a reference that leaves organization_id out, is referred to by none, and shares its columns only with references that have a spare nullable column is loose |
| Tenancy.ErasureReferenceIsLoose | docs/data/schema/04-artifacts-and-audit.sql:73 | among the three tables it touches, this column reference is loose |
| Tenancy.PassingSchemaIsolatesIff | docs/evidence/phase-4/check_schema_conformance.py:212-227 | for a passing schema whose tenant references are guarded or loose, every database that obeys it is isolated if and only if all are guarded |
| Tenancy.ColumnReferenceEscapes | docs/data/schema/04-artifacts-and-audit.sql:73 | a schema with this column reference passes, and four rows that keep its keys and references link two organizations |
| Tenancy.CompositeReferenceGuards | docs/data/schema/04-artifacts-and-audit.sql:145-146 | the same column reference next to a composite one to the same table is guarded |
| AuditGrants.CheckGrants | docs/evidence/phase-4/check_schema_conformance.py:230-240 | a finding exactly for each UPDATE or DELETE that some match gives clep_runtime on one of the three audit tables |
| AuditGrants.StatementsNeed | docs/evidence/phase-4/check_schema_conformance.py:63-65 | on one row without references, each of the four statements acts exactly when a held role was granted it, or ALL, on the table or the whole schema; DELETE and TRUNCATE not by a grant limited to columns |
| AuditGrants.SafeRowsAreUnhurt | docs/evidence/phase-4/check_schema_conformance.py:63-65 | a harm reaches a row of a table through foreign keys only along a chain of harms between tables |
| AuditGrants.SafeRunsKeep | docs/evidence/phase-4/check_schema_conformance.py:63-65 | over every run of statements, with cascades, clearing and refusing foreign keys, a table that is neither endangered nor truncatable loses and changes no row |
| AuditGrants.ChainEscapes | docs/evidence/phase-4/check_schema_conformance.py:63-65 | along any chain of harms that starts with something the runtime role may do, some store has a statement that harms a row at its end |
| AuditGrants.TruncatableEscapes | docs/evidence/phase-4/check_schema_conformance.py:63-65 | a table that may be truncated with all that refers to it is not append-only |
| AuditGrants.AppendOnlyIff | docs/evidence/phase-4/check_schema_conformance.py:63-65 | over every run, no row is removed or altered if and only if no chain of foreign keys leads to the table from a DELETE or UPDATE the runtime role may make, and the tables that refer to it cannot be truncated with it |
| AuditGrants.AcceptedIsAppendOnlyIff | docs/evidence/phase-4/check_schema_conformance.py:229-240 | accepted grants keep an audit table append-only if and only if none gives UPDATE or DELETE on it in a form the check overlooks, no foreign key hands it a change made elsewhere, and it cannot be truncated |
| AuditGrants.ColumnGrantEscapes | docs/evidence/phase-4/check_schema_conformance.py:230 | UPDATE limited to a column is not matched, and alters audit rows |
| AuditGrants.UnparsedGrantEscapes | docs/evidence/phase-4/check_schema_conformance.py:230 | a lower-case statement, or one with a second role, is not matched and lets audit rows be altered or removed |
| AuditGrants.GrantAllEscapes | docs/evidence/phase-4/check_schema_conformance.py:237-240 | GRANT ALL is matched, accepted, and lets audit rows be removed |
| AuditGrants.CascadeEscapes | docs/data/schema/03-benchmark-registry.sql:99-101 | were this reference to cascade, the check would be silent and deleting a suite version would remove its grants |
| AuditGrants.RefusingReferenceKeeps | docs/data/schema/03-benchmark-registry.sql:99-101 | as it is declared, the grants on both tables keep suite_grant append-only |
| References.Collector.constructor | docs/evidence/phase-3/check_phase3.py:211 | nothing is collected yet |
| Json.GetIff | docs/evidence/phase-3/check_phase3.py:230-231 | a lookup finds a value exactly when some member holds it under the key and no earlier one has that key, and nothing exactly when no member has the key |
| Json.PositionsGoThrough | docs/evidence/phase-3/check_phase3.py:213-223 | positions go through the members of objects and the items of arrays, and end at texts and atoms |
| References.Collector.Collect | docs/evidence/phase-3/check_phase3.py:213-223 | the recursion adds exactly the collected references of the node |
| References.CollectedIffOccurs | docs/evidence/phase-3/check_phase3.py:213-223 | a reference is collected if and only if some object at some depth has it as a `$ref` string |
| References.JoinOfSplit | docs/evidence/phase-3/check_phase3.py:229 | the parts of a reference hold no separator and join back to it |
| References.FollowsIffResolves | docs/evidence/phase-3/check_phase3.py:228-234 | following the parts succeeds if and only if a chain of nodes, each a member of the one before under the next part, leads along them |
| References.Resolve | docs/evidence/phase-3/check_phase3.py:228-234 | the step loop answers whether the reference resolves |
| References.CheckReferences | docs/evidence/phase-3/check_phase3.py:211-234 | for the `$ref` strings at any depth: a non-local defect exactly for each that does not start with `#/`, an unresolved one exactly for each that does and leads nowhere, and no defect if and only if all are local and resolve |
| Requirements.Scanner.constructor | docs/evidence/phase-3/generate_traceability.py:102 | no hits yet |
| Requirements.Scanner.Note | docs/evidence/phase-3/generate_traceability.py:104-106 | exactly the pair of a valid requirement and its place is added |
| Requirements.Scanner.NoteAll | docs/evidence/phase-3/generate_traceability.py:115-116 | every valid requirement the node lists is noted, at the node's context |
| Requirements.Scanner.Walk | docs/evidence/phase-3/generate_traceability.py:113-128 | the recursion adds exactly the walked pairs |
| Requirements.WalkedIffDeclared | docs/evidence/phase-3/generate_traceability.py:108-128 | a requirement is recorded with a place if and only if some position outside every `x-requirements` value lists it and the place is the nearest operationId above it, or else the given context, or where that is nothing the first key passed since |
| Requirements.AttributionStep | docs/evidence/phase-3/generate_traceability.py:120-125 | the context handed down one level is the attribution seen from that level |
| Requirements.DeclaredIff | docs/evidence/phase-3/generate_traceability.py:115 | a node lists a requirement exactly when its `x-requirements` member yields it, as an item, a key or a character |
| Requirements.OperationIff | docs/evidence/phase-3/generate_traceability.py:121-122 | the context changes exactly at an object, below a member, that holds an operationId |
| Requirements.StandsForIff | docs/evidence/phase-3/generate_traceability.py:134 | an operation stands for its operationId, for nothing when that is null, and without one for its method and path |
| Requirements.VisitedIff | docs/evidence/phase-3/generate_traceability.py:118-120 | the walk reaches exactly the positions whose steps take no member named `x-requirements` |
| Requirements.IsOperationIff | docs/evidence/phase-3/generate_traceability.py:130-134 | the operations walked are the members of path items named get, post, put, patch or delete |
| Requirements.IsComponentIff | docs/evidence/phase-3/generate_traceability.py:135-137 | the components walked are the members of the named groups under `components` |
| Requirements.Scanner.ScanItem | docs/evidence/phase-3/generate_traceability.py:131-134 | every operation of one path is walked under its id, or its method and path, and no other member |
| Requirements.Scanner.ScanPaths | docs/evidence/phase-3/generate_traceability.py:130-134 | the same for every path |
| Requirements.Scanner.ScanGroup | docs/evidence/phase-3/generate_traceability.py:136-137 | every component of one group is walked under its group and name |
| Requirements.Scanner.ScanGroups | docs/evidence/phase-3/generate_traceability.py:135-137 | the same for every group |
| Requirements.Scanner.ScanOpenApi | docs/evidence/phase-3/generate_traceability.py:130-138 | what is recorded afterwards is what was before and, exactly, what some operation under `paths` or some component of the three groups declares at some depth, with its attribution |
| Requirements.ScanRecordsIff | docs/evidence/phase-3/generate_traceability.py:130-138 | a requirement is recorded with a place if and only if some operation or named component declares it at some depth and the walk attributes it there |
| Traceability.NoteCitations | docs/evidence/phase-3/generate_traceability.py:90-92 | one file adds exactly itself to each valid requirement it cites |
| Traceability.ScanMarkdown | docs/evidence/phase-3/generate_traceability.py:84-93 | a layer records exactly the defined requirements cited, each with exactly the citing files |
| Traceability.Verdict | docs/evidence/phase-3/generate_traceability.py:147-180 | PASS if and only if traced and deferred are disjoint and together the defined set; their sizes then add up |
| CrossReferences.AddKeys | docs/evidence/M1.1/check_crossrefs.py:37-40 | the id is added under exactly these keys |
| CrossReferences.Derive | docs/evidence/M1.1/check_crossrefs.py:29-40 | the header loop derives the forward and the two inverted indexes |
| CrossReferences.TruthIsDeclared | docs/evidence/M1.1/check_crossrefs.py:31-40 | an id stands under a capability, or under a persona, if and only if some section of that id declares it; the forward entry is one of its sections |
| CrossReferences.KeysAreDeclared | docs/evidence/M1.1/check_crossrefs.py:37-40 | the derived keys are the capabilities and the personas some section declares |
| CrossReferences.CompareAll | docs/evidence/M1.1/check_crossrefs.py:62-69 | no failure if and only if something was parsed and the table agrees on every derived key |
| CrossReferences.CheckTables | docs/evidence/M1.1/check_crossrefs.py:60-117 | exit 0 if and only if, read off the sections, the index gives each use case the capabilities of its last section and each inverted table has under every declared key exactly the use cases that declare it |
| CrossReferences.AgreementIff | docs/evidence/M1.1/check_crossrefs.py:60-117 | agreeing with the derived truth is that statement about the sections |
| CrossReferences.PassMakesInverseIff | docs/evidence/M1.1/check_crossrefs.py:60-79 | when the check passes, index and capability table are inverse on all derived keys if and only if no section of a repeated id declares a capability the last section of that id does not |
| CrossReferences.LastIsKept | docs/evidence/M1.1/check_crossrefs.py:31-36 | the forward index keeps the last section of each id |
| CrossReferences.UniqueIdsDecide | docs/evidence/M1.1/check_crossrefs.py:29-36 | with unique ids last sections decide |
| CrossReferences.RestatedUseCasePasses | docs/evidence/M1.1/check_crossrefs.py:60-117 | sections that state a use case twice, and tables that restate them, pass without being inverse |
| CrashInjection.Spike.constructor | docs/evidence/spike-sprint/common.py:34-65 | empty tables, no checkpoint, no marker |
| CrashInjection.Spike.MaybeCrash | docs/evidence/spike-sprint/crash.py:21-30 | exits if and only if the target sample passes without a marker, and leaves the marker |
| CrashInjection.Spike.ResetMarker | docs/evidence/spike-sprint/crash.py:33-35 | the marker is gone and nothing else changes |
| CrashInjection.Spike.EvaluationRun | docs/evidence/spike-sprint/cand_arq_worker.py:45-53 | one worker process is a run of the state machine, to its end or to its only crash |
| CrashInjection.Spike.Drive | docs/evidence/spike-sprint/cand_arq_worker.py:45-53 | redelivery ends after at most one restart, with the exact rows of every sample in both tables |
| CrashInjection.SampleTicks | docs/evidence/spike-sprint/cand_arq_worker.py:48-52 | what one sample's steps leave behind, crashed or reported |
| CrashInjection.CrashesAtMostOnce | docs/evidence/spike-sprint/crash.py:21-30 | from any state and over any schedule of ticks, kills and restarts, the injected crash fires at most once, and exactly when it leaves the marker |
| CrashInjection.CheckpointHolds | docs/evidence/spike-sprint/cand_arq_worker.py:31-42 | over any schedule from any state the checkpoint never goes back |
| CrashInjection.KillAndStart | docs/evidence/spike-sprint/cand_arq_worker.py:45-53 | a process killed anywhere in a sample keeps what is durable, and the next starts behind the checkpoint |
| CrashInjection.KilledSampleRepeats | docs/evidence/spike-sprint/cand_arq_worker.py:45-53 | killed between effects and report, a sample is done again: its result stands twice, its cost twice in naive mode and once with the unique key |
| CrashInjection.RunKeeps | docs/evidence/spike-sprint/crash.py:3-13 | what every event keeps, every schedule keeps |
| CrashInjection.SafeRun | docs/evidence/spike-sprint/crash.py:3-13 | the safety invariant holds after every schedule |
| CrashInjection.FinishedRunIsComplete | docs/evidence/spike-sprint/common.py:68-86 | over every schedule, a finished run lost no sample, repeated and charged each at most once more per interruption, and with the unique key has one cost for each |
| CrashInjection.UninterruptedRun | docs/evidence/spike-sprint/crash.py:10-13 | with the injected crash alone, the crashed sample is delivered twice and every other once, with the exact counts of both modes |

## Left out

- Floating point: `TokenBucket` and `RateLimiter` compute over reals. Rounding could move a verdict
  that sits exactly on a whole token and could truncate the time to live one step lower.
- Integer parsing of `SPIKE_CRASH_AT`, and decimal text in the broker's reply.
- Regular expressions as an engine. Banners, mentioned ids, table constraints, whitespace and
  case-blind matching are functions the lemmas hold for all of (the last one constrained to be an
  equivalence that keeps separators and brackets apart); tables, grants, citations and sections
  are given as parsed.
- Resolving paths on the file system before they are registered (so a registered path is never
  empty, which the rewriting requires; what a particular file system does to names that end in a
  dot or a space is not modelled), and the later refusal to publish
  evidence that still holds a local path.
- Redaction.RedactIsCleanAndIdempotent: says nothing about dict keys, which the code does not rewrite.
- Ulid.NewUlid: the clock reading and the ten random bytes are arguments.
- `ulid_to_uuid`, `uuid_to_ulid`: wrappers of the codec around a library type. `actor_uuid`: a
  hash computed by a library.
- PrunedClone.Repository.Clone: symbolic refs, refs outside branches, remotes and tags, annotated
  tag objects and the index are not modelled; a clone's objects are its commits.
- PrunedClone.GateAtItsOwnTree: copying the document, PYTHONPATH, the temporary directory and the
  printed count of remaining commits are not modelled.
- GateRuns.Summarise: printing.
- Splitter.Subset: ids of equal number may stand in either order.
- WorkTree: bytes that are not UTF-8, permissions, links and line-ending translation.
- SelfTest.Session.PlayPlant: the run of a derived script is an arbitrary function from the check
  and the tree to a report and a new tree, or a hang past its time limit.
- Tenancy.Check: the rules on roles, naming, content columns and required entities are not
  modelled; `notNull` stands for both the text the rule looks for and the constraint the database
  keeps.
- Tenancy.PassingSchemaIsolatesIff: covers the schemas whose tenant references are each guarded or
  loose; `GuardedSchemaIsolates` and `LooseReferenceEscapes` hold without that. A reference that is
  neither is possible (a chain of references back from the target can decide either way), and since
  implication between keys and inclusion dependencies is undecidable in general, no test of a
  schema is known to settle all of them.
- Tenancy.ColumnReferenceEscapes: of the three tables, the columns that no key or reference uses are
  left out. Partial unique indexes and CHECK constraints are not modelled anywhere in `Tenancy`; a
  reference with a null column is satisfied, as under MATCH SIMPLE.
- AuditGrants.CheckGrants: the rule that every audit table must be granted at all.
- AuditGrants.AppendOnlyIff: REVOKE, ownership, inheritance, triggers, views, rules and functions of
  other roles are not modelled; nor are values, so an update may change a key column to anything,
  and a reference that clears only some of its columns counts as clearing all.
- References.CheckReferences: the version test and the checks on operations beside the `$ref`
  block; `~0` and `~1` escapes and array indices of RFC 6901, which the code does not follow.
- Requirements.Scanner.Walk: the errors raised by an operationId that is an object or array and by
  an `x-requirements` value that is a number or lists objects or arrays.
- Requirements.Scanner.ScanOpenApi: paths, path items, operations and components that are not
  objects have no members here, where the code would raise.
- Traceability.Verdict: writing the matrix and printing the counts.
- CrashInjection.Spike.Drive: no kill besides the injected one; kills at any step are in
  FinishedRunIsComplete. Races on the marker between processes, and the other candidate engine,
  are not modelled.
- The documentation, secret and attribution scans, `src/clep/config.py`, the probes and the
  end-to-end runs: pattern lists, single branches and calls to external services.
