# rdda: a verified model of its stateful parts

rdda runs a two-node proxy: a Russian entry node (RU), a foreign exit node (EU), and a command line that
configures, updates and watches them. This project models in Dafny the parts whose correctness is not obvious
from one body, and proves what they promise over all inputs, all runs, all fault patterns and all schedules.

- `RateLimit.dfy`: the keyed token bucket with eviction. A class with heap-allocated buckets, tied to a run of
  calls; runs are proved to be exactly the greedy window policy, key by key, in bounded memory.
- `Alert.dfy`: the alert engine. A persisted firing set, sends and saves that may fail; sequences of runs are
  proved to alternate ALERT and RESOLVED, and to converge.
- `SelfUpdate.dfy`: the binary swap. The faults of every system call are inputs and every intermediate disk state is
  recorded, so that a crash may leave any of them; each outcome has its exact condition on disk, release and faults.
- `ShellWord.dfy`: the tokenizer, against an independent lexeme grammar, with round trips and compositionality.
- `RuleOrder.dfy`: the LCG-driven Fisher-Yates rule order and the client rules whose meaning it must not change.
- `Routing.dfy`: the RU route renderer and the first-match evaluator that must read it as the configuration meant.
- `Dest.dfy`: bounded-concurrency probing as interleaved threads, then the stable ranking and the pick.
- `Backup.dfy`: the backup header, sealing, and Create/Restore over file trees with faults.
- `PullEnv.dfy`: the control-channel file, written in one package and read back in another.
- `Prelude.dfy`, `Text.dfy`, `Permutation.dfy`: result types, the Go string functions used, and permutations.

Code that changes state is a method with loops, proved against a function; the lemmas are about that function.
Several proofs use `hide` to keep definitions they do not need out of the solver's way.

Where the code and its own documentation disagree, the model follows the code:

- `Restore` says that a failure leaves existing state untouched (internal/backup/backup.go:57-58). It does not when
  everything before the first rename goes well and then the last rename fails or an old client file cannot be removed:
  the new configuration is already live and the removable client files are gone. `Backup.FailedRestore` gives the
  exact condition, `Backup.LastRenameFailureLosesClients` an input.
- `Update` says that it rolls back if the new binary fails to run or the service stays down
  (internal/selfupdate/selfupdate.go:85-87). When the chmod after the rename fails, or the rollback itself does not get
  past its rename, a binary that was not proven to work stays live; it is still the genuine one, and the old bytes are
  in `.prev`. `SelfUpdate.UpdateLeavesOldOrProven` gives the exact condition,
  `SelfUpdate.ChmodFailureLeavesUnprovenBinary` an input.
- Alerts alternate only if the firing set is really saved: an alert that was delivered while the save failed is sent
  again. `Alert.ConsistencyKeptExactly` says for each run exactly when the mails and the persisted set stay in step,
  `Alert.UnsavedAlertIsRepeated` gives two runs that mail the same ALERT twice.
- `Create` accepts files that `Restore` refuses; the round trip holds exactly for files of at most 8 MiB
  (`Backup.RestoreInvertsCreate`).

## Model

| member | source | states |
|---|---|---|
| RateLimit.Limiter.constructor | internal/ratelimit/ratelimit.go:33-44 | a new limiter is empty; a burst below 1 counts as 1, any rate is kept |
| RateLimit.SecondEarnsRate | internal/ratelimit/ratelimit.go:58-61 | a bucket earns the rate per second, and nothing at a rate that is not positive |
| RateLimit.Limiter.Allow | internal/ratelimit/ratelimit.go:47-70 | for any clock reading, the heap after the call mirrors the run extended by this call, and the answer is the run's decision for it |
| RateLimit.Limiter.BucketFor | internal/ratelimit/ratelimit.go:52-61 | the key's bucket, created full or refilled and capped, is in the map and no other bucket changed |
| RateLimit.Limiter.SweepLocked | internal/ratelimit/ratelimit.go:75-88 | the deletion loop leaves exactly the swept map, at most once per minute, and keeps bucket identities |
| RateLimit.OwnBucketSurvives | internal/ratelimit/ratelimit.go:52-69 | whatever the clock says, the sweep triggered by a call never evicts that call's own bucket |
| RateLimit.OtherKeyInvisible | internal/ratelimit/ratelimit.go:72-88 | another key's call, including the sweep it triggers, changes nothing that this key can ever observe: eviction is lossless |
| RateLimit.OwnCall | internal/ratelimit/ratelimit.go:52-69 | a call takes one whole token exactly when one is there; afterwards the level grows with time up to the burst |
| RateLimit.LevelIsTightestWindow | internal/ratelimit/ratelimit.go:47-70 | a key's tokens are the minimum, over all windows opened by its earlier calls, of what the window still grants |
| RateLimit.GreedyWindowPolicy | internal/ratelimit/ratelimit.go:47-70 | with nondecreasing times, a call is admitted iff no window ending at it would exceed burst + max(rate, 0) * length: no window is ever exceeded and nothing is refused needlessly |
| RateLimit.KeysDoNotInterfere | internal/ratelimit/ratelimit.go:46-88 | in every interleaving each key is answered as by a limiter of its own that never evicts |
| RateLimit.BucketsAreRecent | internal/ratelimit/ratelimit.go:72-88 | with refill on, every bucket held after a call was used within one sweep interval plus the time to refill |
| RateLimit.MemoryBound | internal/ratelimit/ratelimit.go:72-88 | the map holds no more buckets than there were distinct callers in that trailing window |
| ShellWord.Split | internal/shellword/shellword.go:15-74 | the loop computes the automaton's run, words or error |
| ShellWord.SplitMeansWords | internal/shellword/shellword.go:1-7 | every valid way of writing words down (plain, escaped, single- or double-quoted, glued in any mix) is read back as what it means |
| ShellWord.AcceptsExactlyLines | internal/shellword/shellword.go:12-74 | Split succeeds iff the text is a list of complete lexemes, and returns its meaning |
| ShellWord.RejectsExactlyBrokenLines | internal/shellword/shellword.go:64-69 | Split fails iff the text breaks off inside a quoted group or after a backslash, with the error that says which |
| ShellWord.SplitInvertsQuoting | internal/shellword/shellword.go:1-7 | any words, also empty ones or with quotes, backslashes and blanks, come back from their single- or double-quoted form |
| ShellWord.SplitIsCompositional | internal/shellword/shellword.go:28-73 | after a complete line and one or more of the four separators, the rest is split as if it stood alone, errors included |
| ShellWord.FourSeparators | internal/shellword/shellword.go:55-62 | of all characters without a quoting role, space, tab, line feed and carriage return separate words, and no other does |
| ShellWord.SplitUnquoted | internal/shellword/shellword.go:55-62 | without quotes and backslashes, the words are nonempty, blank-free and together the input minus blanks |
| Alert.EvaluateBeat | internal/alert/alert.go:79-97 | a down node, a blocked exit of a live node, or neither, with the message for it |
| Alert.Evaluate | internal/alert/alert.go:77-109 | reports each condition that holds exactly once, with its message, and no other |
| Alert.SixConditions | internal/alert/alert.go:77-109 | by value: which six conditions there are, and when the two of the beat and the three of the units hold |
| Alert.CertWarnsInTime | internal/alert/alert.go:104-107 | for any warning time up to 106751 days the certificate alert is on iff less time than that is left; the 64-bit product does not wrap |
| Alert.MessagesByValue | internal/alert/alert.go:80-106 | the texts about the node and the certificate |
| Alert.BlockedMessageByValue | internal/alert/alert.go:90-94 | the text about a blocked exit, with its detail |
| Alert.UnitMessageByValue | internal/alert/alert.go:99-103 | the text about a unit |
| Alert.CurrentSet | internal/alert/alert.go:147-150 | the map of the reported conditions, none lost |
| Alert.SortedKeys | internal/alert/alert.go:197-204 | the keys in ascending order |
| Alert.SortedListIsUnique | internal/alert/alert.go:197-204 | ascending order leaves one list per key set, so map iteration order cannot show |
| Alert.Engine.Run | internal/alert/alert.go:142-186 | one run is one step of the system: mails, persisted set, reported keys in order, and the first error; nothing at all when disabled or without a recipient |
| Alert.Engine.FireNew | internal/alert/alert.go:154-167 | mails exactly the new conditions whose send goes through, in key order; the others are not persisted |
| Alert.Engine.ResolveCleared | internal/alert/alert.go:168-180 | mails exactly the cleared conditions whose send goes through; the others stay persisted |
| Alert.TrailStep | internal/alert/alert.go:154-180 | a run adds at most one mail per key: ALERT if new, RESOLVED if cleared |
| Alert.PersistedMessage | internal/alert/alert.go:154-180 | what a saved run persists for a key: the current message, else the one that was loaded |
| Alert.PersistedIsLastMessage | internal/alert/alert.go:142-186 | over all runs with any faults, a key is persisted with the message of the last saved run in which its condition held |
| Alert.MailsCarryMessages | internal/alert/alert.go:142-186 | after any runs, the mails of the next one: ALERTs with the current message before RESOLVEDs with the message the condition last had, each in ascending key order |
| Alert.RunErrorIsFirst | internal/alert/alert.go:152-185 | no error iff every pending key was announced and the set was saved; otherwise the error names the first failure |
| Alert.NotificationsAlternate | internal/alert/alert.go:142-186 | over all runs with working reads and saves, each key's mails alternate from ALERT on, and it is persisted iff the last was an ALERT |
| Alert.ConsistencyKeptExactly | internal/alert/alert.go:142-186 | one run keeps mails and persisted set in step iff it saved a set it had really read, or did not save and delivered nothing |
| Alert.UnsavedAlertIsRepeated | internal/alert/alert.go:154-186 | two runs whose save fails mail the same ALERT twice |
| Alert.ResolvedNeedsAlert | internal/alert/alert.go:164-179 | whatever fails, a key's first mail is an ALERT, and only keys that were mailed an ALERT are persisted |
| Alert.PendingAfterRun | internal/alert/alert.go:143-184 | a run attempts exactly the symmetric difference between what it could load and the current conditions; saved, what remains is what failed; not saved, the persisted set is as before |
| Alert.SettledRunsConverge | internal/alert/alert.go:142-186 | under fixed conditions a pending key stays pending until a send works, is then mailed exactly once, and nothing else is mailed |
| SelfUpdate.SumFor | internal/selfupdate/selfupdate.go:297-305 | the first line of exactly two fields that names the file |
| SelfUpdate.SumForReadsSumsFile | internal/selfupdate/selfupdate.go:295-305 | reads back the digest from any well-formed SHA256SUMS file |
| SelfUpdate.FirstSumIsOnFirstLine | internal/selfupdate/selfupdate.go:297-305 | for any file: the digest on the first line of exactly two fields whose second is the name; none if there is no such line |
| SelfUpdate.Gate | internal/selfupdate/selfupdate.go:88-119 | there is a refusal iff the release is not genuine: key, signature over the sums, listed digest |
| SelfUpdate.EqualFoldIsExact | internal/selfupdate/selfupdate.go:117 | two digests agree iff they differ in nothing but the case of letters |
| SelfUpdate.WrongDigestIsRefused | internal/selfupdate/selfupdate.go:113-119 | a release whose digest differs from the listed one, other than in case, is refused with no file touched |
| SelfUpdate.UnsignedIsRefused | internal/selfupdate/selfupdate.go:96-112 | no key, no download or no valid signature: refused with the error that says which, before the digest is looked at |
| SelfUpdate.SwapIsAtomic | internal/selfupdate/selfupdate.go:181-197 | under any faults, at every moment of a swap the live file is the old or the complete new one and the backup is untouched; new iff the rename is reached and works; executable on success; the temporary file is gone unless its removal failed |
| SelfUpdate.VerdictIsExact | internal/selfupdate/selfupdate.go:130-145 | the proof succeeds iff the new binary prints the target tag and the unit is absent, or was restarted and one of five polls saw it active; the events name the cause otherwise |
| SelfUpdate.RollbackRestores | internal/selfupdate/selfupdate.go:171-205 | the previous binary is never touched, is live again iff the rename of the rollback is reached and works, and the rollback succeeds iff also chmod and restart do |
| SelfUpdate.RollbackNeedsPrevious | internal/selfupdate/selfupdate.go:161-166 | a manual rollback refuses iff it finds no previous binary, and then does nothing |
| SelfUpdate.InstallIsSafe | internal/selfupdate/selfupdate.go:124-146 | in every state of backup, swap and rollback the old bytes are live, or the complete new ones with the old ones in .prev |
| SelfUpdate.UpdateIsSafe | internal/selfupdate/selfupdate.go:88-147 | under any faults every state that an update goes through holds the old bytes live, or genuine new bytes live with the old ones in .prev |
| SelfUpdate.UpdateRefuses | internal/selfupdate/selfupdate.go:88-126 | an update that does not get past its backup leaves the live file alone, asks systemd nothing, before the backup touches no file at all, and says whether reading or backing up failed |
| SelfUpdate.UpdateOutcome | internal/selfupdate/selfupdate.go:120-158 | for every disk, genuine release and faults: which bytes are live in the end, when it succeeds, when it says rolled back, when the chmod alone fails, and what was asked of binary and systemd |
| SelfUpdate.UpdateSucceedsExactly | internal/selfupdate/selfupdate.go:88-147 | a nil error iff up to date, or release genuine, no call failed, and the new binary and its service proved to work |
| SelfUpdate.UpdateLeavesOldOrProven | internal/selfupdate/selfupdate.go:85-87 | the live binary is the old one or one proven to work, unless exactly: the chmod fails after the rename, or an unproven binary is not rolled back |
| SelfUpdate.ChmodFailureLeavesUnprovenBinary | internal/selfupdate/selfupdate.go:192-196 | an input after which the new binary is live without having been run |
| SelfUpdate.UpdateThenRollback | internal/selfupdate/selfupdate.go:85-179 | after any update that got past its backup, a manual rollback is safe at every step, restores the old bytes iff its rename is reached and works, and else changes nothing live |
| SelfUpdate.LiveIsOriginalOrGenuine | internal/selfupdate/selfupdate.go:85-147 | over any number of runs of Update, each finished or crashed in any state it goes through, the live file is the original or some genuine release, complete |
| SelfUpdate.Node.WriteFile | internal/selfupdate/selfupdate.go:183-186 | the interruptible write goes through exactly the growing contents that its faults allow |
| SelfUpdate.Node.WaitActive | internal/selfupdate/selfupdate.go:207-215 | true iff one of at most five polls saw the unit active, polling no further |
| SelfUpdate.Node.WriteBin | internal/selfupdate/selfupdate.go:181-197 | write beside, rename, chmod, cleaning up after the first two: the states and the failed step of the swap |
| SelfUpdate.Node.RestoreBin | internal/selfupdate/selfupdate.go:199-205 | swaps the previous bytes in, or cannot read them |
| SelfUpdate.Node.RollbackNow | internal/selfupdate/selfupdate.go:171-179 | the states, the events and the error of the rollback |
| SelfUpdate.Node.Rollback | internal/selfupdate/selfupdate.go:161-166 | the same for the manual rollback, which refuses without a previous binary |
| SelfUpdate.Node.Revert | internal/selfupdate/selfupdate.go:153-158 | "rolled back" iff the rollback had no error; a failed one says so |
| SelfUpdate.Node.Prove | internal/selfupdate/selfupdate.go:130-145 | self-check, unit test, restart and polling give the verdict and its events |
| SelfUpdate.Node.Install | internal/selfupdate/selfupdate.go:124-146 | states, events and error of everything after the gate |
| SelfUpdate.Node.Update | internal/selfupdate/selfupdate.go:88-147 | states, events and error of a run for every disk, release and faults; every new state is safe |
| RuleOrder.RuleOrder | internal/state/config.go:208-224 | the in-place swap loop, seeded from the tunnel UUID, computes the shuffle under the generator's choices, all indices in range |
| RuleOrder.SeedVectors | internal/state/config.go:174-181 | the seed of the empty UUID is 0, and FNV-1a has its published values for the empty string and "a" |
| RuleOrder.OneByteChangesSeed | internal/state/config.go:174-181 | tunnel UUIDs that differ in one byte, wherever it is, have different seeds |
| RuleOrder.EveryOrderOfThreeIsTaken | internal/state/config.go:206-224 | each of the six orders of the block rules is some deployment's; the seeds fix generator, shift and remainder |
| RuleOrder.OrderIsPermutation | internal/state/config.go:206-224 | for every length and 64-bit seed a permutation of 0..n-1; the identity for seed 0 |
| RuleOrder.ShuffledInjective | internal/state/config.go:217-222 | different choices give different orders |
| RuleOrder.ShuffledSurjective | internal/state/config.go:217-222 | every permutation is reached by some choices |
| RuleOrder.OrderedBlockRules | internal/subscription/subscription.go:120-131 | the block rules read in the deployment's order |
| RuleOrder.ClientRules | internal/subscription/subscription.go:101-108 | private addresses first, the reordered blocks, the tunnel as final; whatever matches: private goes direct, the three shapes are blocked, the rest is tunnelled |
| RuleOrder.PermutedRunKeepsMeaning | internal/subscription/subscription.go:102-105 | permuting a contiguous run of rules with one outbound changes no first-match decision |
| RuleOrder.ReorderingKeepsRouting | internal/subscription/subscription.go:116-131 | for every seed and every reading of the match conditions, clients route as with the canonical order |
| RuleOrder.MuxParametersAreSpread | internal/state/config.go:165-204 | every protocol goes with every stream count for some deployment seed |
| RuleOrder.MuxParametersAreValid | internal/state/config.go:185-204 | a supported protocol and 4 to 16 streams for every seed; the defaults for seed 0 |
| Routing.ToStrings | internal/routing/routing.go:173-187 | the strings among the items, in order; one string stands for itself |
| Routing.MatchDomainSuffix | internal/routing/routing.go:139-157 | true iff some suffix covers the domain label by label, whatever the order of the suffixes |
| Routing.DotSuffixIsProperTail | internal/routing/routing.go:136-151 | ending in a dot and a name is having its labels as a proper tail |
| Routing.SuffixIsLabelTail | internal/routing/routing.go:136-155 | the string test means: exact domain or sub-label for a bare suffix, sub-labels only after a leading dot |
| Routing.CaseAndFinalDotDoNotMatter | internal/routing/routing.go:139-142 | the verdict depends neither on the case of domain and suffixes nor on a dot that ends the domain |
| Routing.Evaluate | internal/routing/routing.go:48-118 | the first matching rule decides, k+1 trace lines when rule k does, n+1 ending in final otherwise; the two input errors |
| Routing.RenderRURoute | internal/singboxconf/render.go:122-141 | the route block for each geoip path and allow-list; every decision on it is the one the configuration promises |
| Routing.RenderedRouteMeansConfig | internal/singboxconf/render.go:122-141 | the evaluator answers "direct" for the rendered route iff private IP, or determinately matched IP with a geoip path, or allow-listed domain; else "proxy" |
| Routing.WhereTo | internal/routing/routing.go:45-118 | the same end to end, from the configuration to the decision, or the error for a blank destination |
| Routing.HandWrittenSuffix | internal/routing/routing.go:57-118 | a rule not written by the renderer: a suffix as a plain string, a private flag that may be anything, and any final outbound |
| Routing.HandWrittenRuleSet | internal/routing/routing.go:82-108 | a rule on a list of rule sets: the first tag counts |
| Dest.StepKeepsInv | internal/dest/dest.go:202-216 | every step of every thread keeps semaphore, wait group and slots in agreement and uses up one of the steps left |
| Dest.NeverStuck | internal/dest/dest.go:202-216 | until Discover returns, some thread can move |
| Dest.DiscoverOnAnySchedule | internal/dest/dest.go:199-216 | on every schedule at most eight probes are in flight, it returns after exactly 6n + 2 steps, and slot i then holds the probe of host i |
| Dest.EightProbesAtOnce | internal/dest/dest.go:202-216 | the bound of eight is reached: for every n up to eight some schedule has n probes in flight |
| Dest.RankingIsUnique | internal/dest/dest.go:218-226 | there is one stable ranking, so the sorting algorithm does not matter |
| Dest.RankedIsStable | internal/dest/dest.go:218-226 | the ranking is a permutation: validating hosts first, by RTT and then by position, failures after them in input order |
| Dest.Best | internal/dest/dest.go:232-239 | the first validating result |
| Dest.BestIsNearest | internal/dest/dest.go:230-239 | the pick is the validating host of least RTT, earliest in input on ties; none iff none validates |
| Dest.DiscoveryIsScheduleIndependent | internal/dest/dest.go:199-239 | results and pick are those of probing one host after the other |
| Backup.ParseInvertsMarshal | internal/backup/crypto.go:36-65 | a written header is read back, whatever follows it |
| Backup.MarshalInvertsParse | internal/backup/crypto.go:36-65 | an accepted header is byte for byte what would be written for it |
| Backup.ParseHeaderIsExact | internal/backup/crypto.go:47-65 | a header is accepted iff 58 bytes are there and start with magic and version; its fields by position, big-endian |
| Backup.DecryptInvertsEncrypt | internal/backup/crypto.go:73-111 | with a lawful AEAD a sealed text opens to itself; sealing fails only without passphrase or randomness |
| Backup.EncryptSaysHow | internal/backup/crypto.go:73-90 | a sealed archive starts with a header that holds the parameters, the salt and the nonce that were used |
| Backup.DecryptIsExact | internal/backup/crypto.go:93-111 | decrypting succeeds only with what the AEAD opened under the key, nonce and associated data of the archive's own header |
| Backup.Create | internal/backup/backup.go:15-42 | archives config.yaml and the regular client files, in order; any unreadable file is an error |
| Backup.ClientFilesAreTheFiles | internal/backup/backup.go:27-34 | the restored clients are each regular file under its name and nothing else |
| Backup.AcceptedEntryStaysInside | internal/backup/backup.go:94-101 | whatever an entry is called, if accepted it lands on config.yaml or directly under clients/ |
| Backup.OutsideIsRefused | internal/backup/backup.go:94-101 | an absolute entry or one that climbs out of the archive is refused |
| Backup.CleanFollowsRules | internal/backup/backup.go:94-95 | what may be struck out of a path: empty parts, ".", a name with the ".." after it, ".." at the root |
| Backup.CleanIsStable | internal/backup/backup.go:94-95 | a clean path stays as it is |
| Backup.ExtractAllIsExact | internal/backup/backup.go:83-112 | an archive is extracted iff every entry is acceptable; the last entry on each path wins |
| Backup.StateDir.Restore | internal/backup/backup.go:59-124 | destination and error as a function of archive, flags and faults, step by step; a crash leaves the old state, or the complete new configuration with part of the old client files or all the new ones |
| Backup.StateDir.RemoveClients | internal/backup/backup.go:121-123 | removes file by file all that can be removed; nothing in between is anything but part of the old files |
| Backup.RestoreSucceedsExactly | internal/backup/backup.go:59-124 | a restore succeeds iff nothing is overwritten without force, the AEAD opens the archive, it unpacks unbroken to acceptable entries with a configuration, and no call fails; the destination is then what the archive says |
| Backup.RestoreRefuses | internal/backup/backup.go:59-72 | an existing configuration without force, or an archive that does not open: an error, and the destination as before |
| Backup.LeftIsWhatIsKept | internal/backup/backup.go:122 | after a failed removal exactly the files that resist are left |
| Backup.FailedRestore | internal/backup/backup.go:56-124 | when a failed restore leaves the destination unchanged, exactly; what the only late failure leaves; when a restore succeeds |
| Backup.LastRenameFailureLosesClients | internal/backup/backup.go:57-123 | a concrete restore whose failure does not leave the state untouched |
| Backup.RestoreInvertsCreate | internal/backup/backup.go:14-124 | restoring a created archive succeeds iff every file is at most 8 MiB, and then yields exactly the source, dropping stale clients |
| PullEnv.NormalizeHostIsIdempotent | internal/controlchannel/controlchannel.go:25-40 | unless the host is taken from a parsed URL: trimmed, no path or query, and normalizing again changes nothing |
| PullEnv.PastedPathIsDropped | internal/controlchannel/controlchannel.go:23-40 | a host comes out as it went in, whatever path or query was pasted after it, unless it is taken from a parsed URL |
| PullEnv.PastedUrlIsParsed | internal/controlchannel/controlchannel.go:30-34 | from a pasted URL that parses, the parsed host; the rendered file read back points there |
| Text.TrimSpaceCutsSpaces | internal/controlchannel/controlchannel.go:26 | trimming cuts spaces off both ends, all of them and nothing else |
| PullEnv.RenderEnv | internal/controlchannel/controlchannel.go:45-60 | the file for a host and a token; which of the two is missing otherwise |
| PullEnv.ReadPullEnv | internal/doctor/doctor.go:242-262 | the line loop keeps the last value of each of the two keys |
| PullEnv.LastAssignmentWins | internal/doctor/doctor.go:248-260 | in any file the last line that assigns to a key counts, and no other line matters to it |
| PullEnv.ReadRendered | internal/doctor/doctor.go:242-262 | what the reader makes of a rendered file, also when a line is too long for the scanner |
| PullEnv.PullEnvRoundTrip | internal/controlchannel/controlchannel.go:42-60 | the reader gets back the rendered URL and token iff neither contains a line break and their lines fit the scanner |

## Left out

- Floating-point rounding in the limiter and the saturation of `time.Duration` at 292 years: tokens are exact reals, times exact integers.
- Clocks that run backwards: the run theorems of `RateLimit` assume nondecreasing times (`Allow` itself does not).
- The mutex of the limiter: calls are taken in the order in which they hold it.
- Invalid UTF-8: strings are sequences of Unicode scalar values; `ToLower` and `EqualFold` cover ASCII letters.
- The formatting of ages and dates in alert messages: the formatted texts are inputs.
- The JSON of alert-state.json and of the sing-box configuration: maps and objects are passed directly.
- The download, the signature scheme, SHA-256, Argon2, XChaCha20-Poly1305, tar and gzip: parameters, with their inverse laws as hypotheses.
- `.prev` after a backup write that failed or crashed half way, followed by a manual rollback: sequences of updates are covered, and one update followed by its rollback.
- Exit of a goroutine by panic, and the algorithm of `sort.SliceStable`: the ranking is a function that is proved to be the only stable one.
- A tar entry that breaks off in its body while also violating a name or size check: the model reports the read error after whole entries.
- The error text of `url.Parse`, `net.ParseIP` and private ranges: parameters of the model.
- The inbounds, outbounds and users of the rendered configurations, the HTTP servers and clients, REALITY probing, and the command line: straight-line code or library plumbing.
