# Plumbline: a model and proofs of its central promises

Plumbline audits a Linux host. It collects facts once, seals them in a bundle, judges the bundle, and
proposes remediation. It promises never to report more than it saw, and to give the same answer for the
same evidence. This project models the code behind that promise in Dafny and proves what it keeps.

Code that changes state is modelled as it is written: `Walker.WalkState`, `Tally.TallyState`,
`Registry.Registry`, `Registry.CycleSearch`, `FactSet.Set`, `Evidence.EvidenceStore` and `Suppress.Set` are
classes with the original's fields, and loops are loops with invariants. Each method is proved against a
specification on values, and the theorems are about that specification. The goroutines of the runner are
a step relation in which any enabled step may come next.

| files | what they cover |
|---|---|
| `WalkSpec`, `WalkFacts`, `Tally`, `FsFacts`, `Walker`, `WalkTheorems`, `WalkRecursion` | the shared filesystem walk: what it offers, lists and cuts; its facts; the explicit stack against a plain recursion |
| `LiveSystem`, `PathOrder`, `WalkOrder`, `WalkAbsence`, `WalkGuarantees`, `WalkPaths` | filesystems as the live system answers them; the order of a walk; the absence rule and how far it reaches |
| `Mounts` | the kernel's mount table, from the text the kernel prints to the boundaries of the walk |
| `Graphs`, `Registry` | the collectors' dependency graph, cycle search and plan |
| `FactSet` | facts and errors, at most one of the two under each ID |
| `Runner`, `RunnerSafety`, `RunnerOverlap`, `RunnerProgress`, `RunnerMerge`, `RunnerOutcomes`, `RunnerEndings` | the concurrent runner as a step system: invariants, when abandoned work overlaps, progress, schedule independence, how each collector ends |
| `Evidence`, `BundleFormat`, `BundleIO`, `BundleTheorems`, `BundleReading`, `BundleAccepted` | the bundle writer and verifying reader: round trips, tampering, what was read, which archives are accepted |
| `Sysctl`, `SysctlOrder`, `SysctlTies` | which sysctl settings apply to a key and in which order, when the configuration is ambiguous, and when map order shows |
| `Units`, `UnitParse`, `UnitLayout`, `UnitAssembly` | systemd units: links and masks, parsing any layout, drop-in precedence, effective lists |
| `LineEdit`, `AwkStrings`, `SysctlEdit`, `LoginDefsEdit` | the idempotent editors: `Merge`, and the two awk programs with the escape processing of `-v` |
| `Shell`, `Remediation` | printing commands a shell reads back; what a plan and its script contain |
| `Findings`, `Suppress`, `Score`, `Diff`, `DiffReport`, `Filling`, `Sanitize`, `SanitizeSpelling` | accepting risks, scoring, comparing runs, neutralising text |
| `Basics`, `Lex`, `Ids`, `Text` | sequences, string order and sorting, names, trimming and splitting |

## What the proofs found

Each of these is a property that does not hold as promised, with an input that shows it and the condition
under which it does hold. The code is followed.

- **Skipping a directory met before is not free for a question that reads the path.** A comment in the walker
  says that everything inside has been seen, so absence is still safe to conclude. The entries were offered
  under the first path only. Over filesystems laid out as `Stat` and `ReadDir` answer them, no match in scope is
  missed exactly when the question reads no more of a path than its last name
  (`WalkPaths.MatchesAreFoundExactlyWhen`). `deviceOutsideDev` reads more: where the roots `/dev` and `/srv` are
  one directory holding a device `sda`, `/srv/sda` is in scope and matches, the fact is complete, and nothing is
  reported (`WalkPaths.DeviceCanBeMissed`).
- **Discarded folds, not keys.** `keysDropped` counts every discarded fold, although its comment speaks of
  distinct keys (`Tally.DroppedCountsFoldsNotKeys`). The two numbers agree exactly when each key left out was
  met once (`Tally.DroppedAreKeysExactlyWhen`).
- **The slot covers `runOne`, not `Collect`.** An abandoned Expensive `Collect` goes on while the next one
  runs (`RunnerSafety.AbandonedCollectOverlaps`). That can happen exactly when an Expensive collector with a
  budget and another that it does not wait for can both start; never, where no Expensive collector has a
  budget (`RunnerOverlap.OverlapExactlyWhen`).
- **A fact ID that contains `..` or ends in a dot** makes the archive `Write` produces unreadable, and no other
  ID does (`BundleTheorems.WellNamed`, `BundleTheorems.BadNameCannotBeRead`).
- **`integrity.json` may list itself** under any digest: put `none` there in any archive that verifies, and it
  still does (`BundleTheorems.SelfListingIsUnchecked`). An archive verifies exactly when all other names and
  digests agree (`BundleTheorems.RecordedNames`).
- **Ties in `SettingsFor`.** Two settings of different patterns with the same file position and line come out
  in map order (`SysctlTies.TiesDependOnEnumeration`). Every order gives the same settings exactly when the key
  is named literally, or withheld, or there is no such pair (`SysctlTies.SettingsAgreeExactlyWhen`).
- **`Merge` of one pair is idempotent exactly when the key's written line reads back as the key**, on every
  file (`SysctlEdit.MergeIsIdempotentExactlyWhen`). Any other key is appended again by every run after the
  first (`SysctlEdit.IllFormedKeyRepeats`). For several pairs, well-formed keys are enough
  (`SysctlEdit.MergeIsIdempotent`) but not needed: one pair may write the line another would be read from.
- **awk unescapes what `-v` assigns.** With the value `a\t` the script writes a tab where `Merge` writes a
  backslash and a `t` (`SysctlEdit.ScriptDiffers`). And for the empty key `Merge` overwrites a comment that the
  script keeps (`SysctlEdit.EmptyKeyDiffers`). They write the same into every file exactly when there is a key
  and every backslash in key and value ends the string or starts an undefined escape this awk keeps
  (`SysctlEdit.ScriptAgreesWithMerge`), so always for a key without a backslash in it or in the value
  (`SysctlEdit.PlainScriptAgrees`).
- **login.defs: the program trims blanks and tabs, the parser trims every space.** A definition indented by
  a vertical tab stays in force above the line the program writes (`LoginDefsEdit.OddIndentHides`);
  `LoginDefsEdit.WhatIsInForce` says for every file which value is in force.
- **login.defs: the parser cuts a line at its first space, the program at a tab too.** To the parser a line
  "KEY, tab, A, space, B" defines a key with a tab in it; the program rewrites that line as `KEY`, and the other
  key loses its value (`LoginDefsEdit.TabbedKeyIsLost`). Another key keeps its value in every file exactly when
  it is not of that form (`LoginDefsEdit.OtherKeysKeptExactlyWhen`).
- **Coverage relies on marks being skips.** `finding.go` sets `SkippedBy` only together with SKIPPED, and then
  accepting a risk never raises coverage (`Score.CoverageNeverRises`). `Compute` takes any findings: among all
  inputs, coverage is monotone exactly when no UNKNOWN finding is marked or nothing was evaluated
  (`Score.CoverageIsMonotoneExactlyWhen`).
- **`clean` is not idempotent**: under any cap there is a text that changes when it is cleaned again
  (`Sanitize.NotAlwaysIdempotent`). A text does not change exactly when its escaped form fits the cap or one of
  its pieces ends at the cap (`Sanitize.IdempotentExactlyWhen`).
- **A mount point with a space the kernel does not escape** (a carriage return, a no-break space) is cut in
  two by the field splitting. A mount at "/mnt/a", carriage return, " b" is read as one at `/mnt/a` with the
  option `\040b` (`Mounts.ReturnCutsThePoint`). A line splits into the parts it was printed from exactly when
  the kernel left no space of the point alone (`Mounts.PartsReadBackExactlyWhen`).

## Hypotheses

- Walk: the filesystem, the mount table, `Match` and `Key` answer the same question the same way throughout
  one walk; the clock and the context are arbitrary sequences of readings. The absence theorems also assume
  what the cycle detection relies on (`WalkAbsence.FaithfulIdentities`): every inode carries a device, and
  two paths to one directory identity list the same inodes with the same boundary decisions. `WalkPaths` adds
  what the live system answers (`LiveSystem.LaidOut`): clean paths, an entry's path being its directory's and a
  name, flags that fit the mode, and whole listings that leave nothing out; and that two paths to one directory
  list an inode under one name (`WalkPaths.NamesKept`). The order of a walk is stated for such a system in which no
  listing names an entry twice (`WalkOrder.Tidy`).
- Runner: a collector writes only IDs it owns and is blamed only for IDs it owns. Schedule independence
  compares runs in which each collector met the same end.
- Bundle: each JSON codec decodes what it encoded, a decoder gives the fact the ID it was written under
  (`BundleReading.KeepsIDs`, where a fact is looked up by its ID), and digests are 64 lower-case hexadecimal digits. No digest function
  is injective on all byte strings, so tamper evidence assumes no collision among the members compared.
- Sysctl: settings are filed under their own key, as the collector files them
  (internal/collect/collectors/kernel/sysctl.go:475).
- Diff: where two reports are said to be identical, findings with one check and one subject have one
  fingerprint, which is how `finding.Fingerprint` computes it.
- awk: which undefined escapes keep their backslash differs between implementations and is a parameter; the
  rest is the escape processing that POSIX prescribes for `-v`.
- Mounts: which characters the kernel escapes is a parameter, ASCII ones, the backslash among them; the option,
  type and source fields hold no spaces. `path.Clean` is a parameter.
- Units: two paths to one drop-in directory list the same names.
- Shell: the tokenizer follows sections 2.2 and 2.3 of the POSIX Shell Command Language.

## Model

| member | source | states |
|---|---|---|
| Walker.Walk | internal/collect/walker/walker.go:378-440 | fails exactly for no questions or a bad name; otherwise each returned fact is determined by the world and its own question |
| Walker.Validate | internal/collect/walker/walker.go:379-391 | an error exactly when there is nothing to ask or some name is unusable |
| Walker.WalkState.WalkRoot | internal/collect/walker/walker.go:447-548 | one root's traversal refines the depth-first specification and ends: every turn uses up inode budget or stack |
| Walker.WalkState.Turn | internal/collect/walker/walker.go:474-546 | a turn checks the budget, pops, skips visited identities, lists, and pushes children so that they come out sorted |
| Walker.WalkState.Scan | internal/collect/walker/walker.go:519-546 | every entry is offered before anything below it; a spent budget ends the scan |
| Walker.WalkState.Offer | internal/collect/walker/walker.go:577-614 | an inode reaches every interest and tally or the walk stops with every fact marked; a full interest marks only itself |
| Walker.WalkState.DeclineBoundary | internal/collect/walker/walker.go:560-573 | declines exactly foreign devices when not crossing, and skipped filesystem types |
| Walker.WalkState.OverBudget | internal/collect/walker/walker.go:619-636 | a cancelled context or passed deadline stops the walk and marks every fact |
| Walker.WalkState.OverBudgetSampled | internal/collect/walker/walker.go:644-652 | the clock is read only when the inode count is a multiple of the sampling interval |
| Walker.WalkState.TruncateAll | internal/collect/walker/walker.go:659-666 | every fact gets the reason |
| Walker.WalkState.FinishFacts | internal/collect/walker/walker.go:669-682 | each fact's rows are sorted by path and carry the shared counter |
| WalkFacts.FactIsExact | internal/collect/walker/walker.go:585-598 | a fact keeps the first MaxHits matches in walk order, rows plus overflow is the number of matches offered, and it is truncated exactly when a limit fired or a match was dropped |
| WalkTheorems.WalkIsHonest | internal/collect/walker/walker.go:474-547 | everything seen was answered by the filesystem, no identified directory is listed twice over all roots, and the inode count is the number seen, within the budget |
| WalkTheorems.EarlyStopIsRecorded | internal/collect/walker/walker.go:431-436 | a walk that stopped early recorded a truncation |
| WalkRecursion.WalkIsRecursion | internal/collect/walker/walker.go:378-548 | the whole walk, its order, limits and counts included, is a plain recursion: each root is offered and visited, a directory is listed and all its sorted entries offered before its children are visited in turn |
| WalkRecursion.StackIsRecursion | internal/collect/walker/walker.go:442-547 | run on any directories with the first on top, the loop over the stack gives what visiting them in turn gives |
| WalkRecursion.ScanIsOfferAll | internal/collect/walker/walker.go:519-546 | scanning a listing offers its entries in turn, stops at the inode budget or the sampled clock, and keeps exactly the directories to visit |
| WalkRecursion.OutsideIsDeclined | internal/collect/walker/walker.go:560-573 | a directory is declined exactly when it is on another device and the walk may not cross, or its filesystem type fits a pattern of the skip list |
| WalkOrder.WalkGoesInOrder | internal/collect/walker/walker.go:447-548 | a walk falls into one stretch for each root, and in each what is listed and seen comes in the sorted depth-first order of the paths |
| WalkOrder.SubtreesInTurn | internal/collect/walker/walker.go:516-546 | of two entries of one directory, the one with the smaller name and everything listed below it come before the other and everything below that |
| WalkOrder.EarlierHappensFirst | internal/collect/walker/walker.go:516-546 | in one stretch, of two things met the one whose place is earlier in that order was met first |
| WalkOrder.FirstMatchesAreKept | internal/collect/walker/walker.go:585-598 | a full interest keeps the rows of its first matches in that order |
| PathOrder.BeforeOneWay | internal/collect/walker/walker.go:516-518 | the order of paths is one-way: no two paths come before each other |
| WalkAbsence.NothingInScopeMissed | internal/collect/walker/walker.go:486-547 | without a recorded limit, every entry of every directory reachable through in-scope edges was seen under some path to it, on any graph, cycles included |
| WalkAbsence.WholeWalkCovers | internal/collect/walker/walker.go:431-440 | without a recorded limit, every root was seen and entered, and every listed directory is accounted for |
| WalkGuarantees.CompleteMeansAll | internal/fact/fs.go:115-133 | a complete fact comes from a walk on which no limit fired, and has a row for every match offered |
| WalkGuarantees.AbsenceRule | internal/fact/fs.go:115-133 | if the fact is complete, the walk met every entry of every directory in scope, under some path the filesystem really answered, and where the question matches what was met there is its row |
| WalkGuarantees.AbsenceAtRoots | internal/fact/fs.go:115-133 | and so for every root, directory or not, under its own path |
| WalkGuarantees.AbsenceOfInode | internal/fact/fs.go:115-133 | for a question about the inode and not its path, a match anywhere in scope has a row |
| WalkPaths.MatchesAreFoundExactlyWhen | internal/collect/walker/walker.go:486-497 | over all filesystems laid out as Stat and ReadDir answer them, no match in scope is missed exactly when the question answers alike for two paths of one inode that end in one name |
| WalkPaths.NothingMissed | internal/collect/walker/walker.go:486-497 | for such a question a complete fact has met every match in scope and holds its row |
| WalkPaths.MetByName | internal/collect/walker/walker.go:486-497 | without a recorded limit, every entry in scope was met under a path that ends in its own name |
| WalkPaths.EntryIsMissed | internal/collect/walker/walker.go:486-497 | for any two directories apart from each other and a question that tells an inode of one name apart in them, the filesystem where the two are one directory and both roots: the match in scope is missed by a complete fact |
| WalkPaths.DeviceCanBeMissed | internal/collect/collectors/filesys/filesys.go:144-149 | with roots /dev and /srv that are one directory, the device /srv/sda is in scope, matches and is missed by a complete fact |
| WalkGuarantees.RowsAreTrue | internal/collect/walker/walker.go:577-614 | truncated or not, each row is of a matching inode the filesystem answered, copied field by field where the interest shapes no row of its own |
| WalkGuarantees.FinishedFact | internal/collect/walker/walker.go:669-682 | a finished fact holds the rows of the first matches up to its limit, sorted by path, the number of the rest, the reasons of the limits that fired, and the number of inodes seen |
| WalkGuarantees.FinishedTally | internal/collect/walker/tally.go:155-187 | a finished tally counts the inodes it has a key for and all inodes seen, keeps no more keys than its limit, and names the limits that fired |
| WalkGuarantees.EarlyStopTruncatesAll | internal/collect/walker/walker.go:654-666 | after an early stop no fact of the walk is complete |
| WalkGuarantees.SharedWalkAnswersAlone | internal/collect/walker/walker.go:585-613 | a question gets the same fact whatever other questions share the walk |
| FsFacts.AddReasonKeepsOrder | internal/fact/fs.go:135-147 | the reason list stays sorted and free of duplicates |
| WalkGuarantees.MarksAreExact | internal/fact/fstally.go:98-143 | a tally's fact is truncated exactly when a limit fired or a key was discarded |
| WalkGuarantees.TallyConserves | internal/fact/fstally.go:90-129 | bucket counts plus discarded folds are the inodes tallied; complete means the buckets hold them all |
| Tally.TallyState.Fold | internal/collect/walker/tally.go:161-175 | a fold is discarded exactly when its key is not among the first maxKeys distinct keys |
| Tally.TallyState.AsFact | internal/collect/walker/tally.go:179-187 | the buckets are the admitted keys in order, each with its total count and first inode, and the counters |
| Tally.RunningHolds | internal/collect/walker/tally.go:161-175 | folding one inode at a time gives the group-by of the whole history, bounded to the first maxKeys keys |
| Tally.AdmittedGrows | internal/collect/walker/tally.go:161-175 | an admitted key stays admitted, a discarded key stays out |
| Tally.FirstIsEarliest | internal/collect/walker/tally.go:165-172 | an example is the earliest inode with its key |
| Tally.CountsConserve | internal/collect/walker/tally.go:161-175 | every fold is in exactly one recorded bucket or discarded |
| Tally.DroppedCountsFoldsNotKeys | internal/fact/fstally.go:72-76 | a key met twice after the cap counts twice as dropped |
| Tally.DroppedAreKeysExactlyWhen | internal/fact/fstally.go:72-76 | the counter is never below the number of keys left out, and equals it exactly when each of them was met once |
| Tally.RecordsUnique | internal/collect/walker/tally.go:179-187 | the history determines the buckets |
| Tally.Bucket | internal/fact/fstally.go:101-110 | binary search finds a bucket exactly when the key is recorded |
| Tally.TotalConserves | internal/fact/fstally.go:121-129 | the total and the discarded folds add up to the inodes tallied |
| Tally.Total | internal/fact/fstally.go:121-129 | the loop's total, with the discarded folds, is the number of inodes of any history the buckets record |
| Mounts.Unescape | internal/collect/walker/mounts.go:225-245 | every backslash with a three-digit octal number that fits a byte becomes that byte, everything else is kept |
| Mounts.EscapeBecomes | internal/collect/walker/mounts.go:225-245 | a backslash and three octal digits of at most 255 stand for that character; before anything else a backslash stands for itself |
| Mounts.EscapedReadsBack | internal/collect/walker/mounts.go:220-245 | any name the kernel escapes, whatever else it escapes besides the backslash, is read back |
| Mounts.OptionsReadBack | internal/collect/walker/mounts.go:203-218 | comma-joined trimmed options are read back |
| Mounts.FieldsReadBack | internal/collect/walker/mounts.go:175-199 | fields joined by single blanks are read back by the field splitting |
| Mounts.LineReadsBack | internal/collect/walker/mounts.go:163-199 | in a line split into fields, type and options are found however many optional fields precede the dash |
| Mounts.LineExactlyWhen | internal/collect/walker/mounts.go:175-199 | a line is a mount exactly when it has ten fields and a dash from the seventh on with two fields after it; point and options are counted from the front, type and superblock options from the first such dash |
| Mounts.LineTextReadsBack | internal/collect/walker/mounts.go:163-245 | the text of a line the kernel prints for a mount is parsed as that mount: fields split, point unescaped, options split |
| Mounts.PartsReadBackExactlyWhen | internal/collect/walker/mounts.go:175-199 | a printed line splits into its parts exactly when the kernel escaped every space of the point |
| Mounts.PointCutInTwo | internal/collect/walker/mounts.go:175-199 | where the escaped point is two fields, the line is read as a mount at the first with the second as its options |
| Mounts.ReturnCutsThePoint | internal/collect/walker/mounts.go:175-199 | a carriage return in the point is such a case, with what the kernel escapes |
| Mounts.ReadMountTable | internal/collect/walker/mounts.go:135-161 | unknown exactly when unread or cut short; otherwise each point once, in order of first appearance, with the last entry for it |
| Mounts.TableReadsBack | internal/collect/walker/mounts.go:135-161 | the text the kernel prints for a list of mounts is read as the last mount at each point |
| Mounts.WalkSkipsByMounts | internal/collect/walker/mounts.go:104-113 | with that table, the walk skips a directory exactly when the last mount at its cleaned path has a type on the skip list |
| Registry.FindCycle | internal/collect/collect.go:317-368 | reports a cycle exactly when one exists, and what it reports is a closed dependency path |
| Registry.CycleSearch.Visit | internal/collect/collect.go:325-358 | a finished search below a collector leaves everything below it free of cycles |
| Registry.Registry.Register | internal/collect/collect.go:173-195 | adds the collector or changes nothing; refuses exactly an empty or taken ID, a self-dependency, or a graph with a cycle, so every registry stays acyclic |
| Registry.Registry.KnownDependencies | internal/collect/collect.go:289-311 | the registered dependencies, once each |
| Registry.Registry.MissingDependencies | internal/collect/collect.go:267-284 | exactly the collectors naming an unregistered dependency, with those names |
| Registry.Registry.Order | internal/collect/collect.go:223-260 | Kahn's algorithm gives the plan that always takes the least available collector |
| Graphs.PlanIsTopological | internal/collect/collect.go:216-260 | a plan lists every collector once, after all it depends on |
| Graphs.PlanIsUnique | internal/collect/collect.go:216-260 | there is one plan, whatever order maps are enumerated in |
| Graphs.TopologicalIsAcyclic | internal/collect/collect.go:313-368 | a dependency order leaves no room for a cycle |
| FactSet.Set.Put | internal/fact/fact.go:98-102 | files a fact and forgets an error under its ID, so no ID has both |
| FactSet.Set.PutError | internal/fact/fact.go:104-108 | files an error and forgets a fact under its ID, so no ID has both |
| FactSet.Set.Get | internal/fact/fact.go:147-171 | tells a present fact of the asked type, a recorded gap and an ID never mentioned apart |
| FactSet.Set.Errors | internal/fact/fact.go:117-124 | every error once, sorted by fact |
| FactSet.Set.MergeFrom | internal/collect/runner.go:405-419 | the merged set has the source's fact or error wherever it mentions an ID, and is unchanged elsewhere |
| FactSet.OverlayCell | internal/collect/runner.go:405-419 | merging replaces exactly the IDs the source mentions |
| Runner.Record | internal/collect/runner.go:168-174 | one error is filed against every fact the collector is blamed for, and nothing else changes |
| Runner.RecordCollectorError | internal/collect/runner.go:389-403 | a classified error is filed as written, any other against every fact blamed |
| RunnerSafety.ReachableIsSafe | internal/collect/runner.go:155-243 | the protocol's invariant holds in every reachable state |
| RunnerSafety.OneExpensiveAtATime | internal/collect/runner.go:175-178 | from taking the slot to leaving runOne there is at most one Expensive collector |
| RunnerSafety.AbandonedCollectOverlaps | internal/collect/runner.go:337-347 | an abandoned Expensive Collect can run beside the next one, before its collector is reported done |
| RunnerOverlap.OverlapExactlyWhen | internal/collect/runner.go:175-178 | two Expensive Collects can be at work at once exactly when one with a budget, and another it does not wait for, can both start; never when no Expensive collector has a budget |
| RunnerOverlap.OneCollectAtATime | internal/collect/runner.go:175-178 | in every reachable state, two Expensive Collects at work are an overtaking pair |
| RunnerOverlap.OvertakingHappens | internal/collect/runner.go:337-347 | every overtaking pair is at work at once in some run, whatever the other collectors declare |
| RunnerSafety.StartsAfterDependencies | internal/collect/runner.go:212-224 | a collector starts only after each registered dependency was reported done |
| RunnerSafety.EventsAtMostOnce | internal/collect/runner.go:187-193 | per collector at most one start and one completion, in that order |
| RunnerSafety.EveryCollectorDoneOnce | internal/collect/runner.go:187-243 | when the run returns every collector was reported done; those reported OK or failed had started, skipped ones never did |
| RunnerSafety.OnlyDoneAfterCancel | internal/collect/runner.go:264-271 | in every run, after a state in which the scan was cancelled only completions are reported and no collector starts |
| RunnerProgress.NoCircularWait | internal/collect/runner.go:155-243 | while a collector is unfinished, some collector is inside Collect or can take a step |
| RunnerProgress.StuckMeansComplete | internal/collect/runner.go:243-245 | where nothing can happen, every collector has finished |
| RunnerProgress.RunLength | internal/collect/runner.go:155-243 | a run of n collectors and d declared dependencies has at most 12n + d + 1 steps |
| RunnerMerge.ScheduleIndependence | internal/collect/runner.go:405-419 | with disjoint ownership, runs in which every collector wrote the same end on the same facts and errors |
| RunnerOutcomes.EveryScheduleAgrees | internal/collect/runner.go:309-347 | ownership of every write follows from what Collect returns and whom failures are blamed on |
| RunnerOutcomes.UnmergedLeavesErrors | internal/collect/runner.go:309-374 | a finished collector whose set was not merged adds no fact and leaves an error on everything it is blamed for |
| RunnerEndings.ResultDecides | internal/collect/runner.go:309-347 | how a collector that took a result ends, and all it writes: nothing is merged of a panic or of an error returned after the time was up, an error in time is merged and reported, a clean return is merged |
| RunnerEndings.LateErrorIsTimeout | internal/collect/runner.go:320-326 | an error returned once the scan is cancelled or the budget spent: the collector times out, never merges, and every fact it is blamed for holds a Timeout error |
| RunnerEndings.ErrorInTimeIsFiled | internal/collect/runner.go:328-336 | an error returned in time: what was collected stays, under the error as classified or an Internal one on every blamed fact |
| RunnerEndings.CleanReturnIsMerged | internal/collect/runner.go:328-336 | a return without an error is merged, whatever the time |
| RunnerEndings.GivingUpTimesOut | internal/collect/runner.go:212-236 | a collector that gives up, or finds the scan cancelled before it starts, times out with one Timeout error that names what it was waiting for |
| RunnerEndings.CancelledScanEnds | internal/collect/runner.go:212-245 | once the scan is cancelled every unfinished collector has a step of its own, so none waits for a Collect |
| RunnerEndings.SkippedExactlyWhen | internal/collect/runner.go:198-212 | a collector is skipped exactly when a dependency is unregistered or its privilege is missing, and writes the first of these reasons only |
| RunnerEndings.SkippedLeavesErrors | internal/collect/runner.go:168-212 | every fact a skipped collector is blamed for holds that reason as its error |
| RunnerOutcomes.UndisturbedRunsAgree | internal/collect/runner.go:309-347 | with fixed outcomes and no timeout, every interleaving ends in the same facts and errors |
| Evidence.EvidenceStore.Add | internal/bundle/evidence.go:37-51 | content is stored under its digest, once |
| Evidence.EvidenceStore.MarkTruncated | internal/bundle/evidence.go:64-73 | the cleaned source is added to the truncated ones |
| Evidence.EvidenceStore.Summary | internal/bundle/evidence.go:121-127 | number of blobs, their total size, and the truncated sources sorted |
| Evidence.CitationsResolve | internal/bundle/evidence.go:37-59 | after adding any sources in any order, each digest finds exactly its bytes |
| BundleIO.Write | internal/bundle/bundle.go:511-575 | a written archive has the derived manifest fields, one member per fact and blob, the errors, and last an integrity member digesting all the others; it fails exactly when there is no such archive |
| BundleIO.FactMembers | internal/bundle/bundle.go:618-651 | one member and one index entry per fact in ID order, or some fact that cannot be encoded |
| BundleIO.EvidenceMembers | internal/bundle/bundle.go:656-670 | one member per blob, named for its digest |
| BundleIO.ReadArchive | internal/bundle/bundle.go:727-784 | accepts exactly unbroken archives of distinct, safely named regular members within the byte budget |
| BundleIO.VerifyIntegrity | internal/bundle/bundle.go:789-824 | succeeds exactly when the recorded map covers every other member with its digest and names nothing absent |
| BundleIO.ReadFacts | internal/bundle/bundle.go:830-876 | the facts of the index in order, none smuggled past it, undecodable ones preserved |
| BundleIO.ReadEvidence | internal/bundle/bundle.go:885-923 | every blob is what its name promises, and the manifest's summary agrees |
| BundleIO.Read | internal/bundle/bundle.go:676-722 | returns the bundle the archive reads as, and fails exactly when there is none |
| BundleTheorems.RoundTrip | internal/bundle/bundle.go:511-722 | reading what was written gives the bundle back with the derived fields filled in, preserved facts and evidence included |
| BundleTheorems.ReadingIsUnique | internal/bundle/bundle.go:676-722 | an archive reads as at most one bundle |
| BundleTheorems.WritingVerifies | internal/bundle/bundle.go:555-573 | whatever is written passes verification |
| BundleTheorems.AllNamesDiffer | internal/bundle/bundle.go:550-573 | no two members of a written archive share a name |
| BundleAccepted.UnpackedExactlyWhen | internal/bundle/bundle.go:727-784 | an archive can be unpacked exactly when it is whole, at most 256 MiB, and all regular files under distinct relative names without two dots in a row |
| BundleAccepted.EvidenceExactlyWhen | internal/bundle/bundle.go:885-923 | the evidence is accepted exactly when every member under evidence/ is named for the digest of its content in 64 lower-case hexadecimal digits |
| BundleAccepted.ManifestSays | internal/bundle/bundle.go:511-557 | the fields a writer derives, the index of all facts in order with their members and digests, and whose bundles it refuses |
| BundleAccepted.MembersWritten | internal/bundle/bundle.go:511-575 | an archive has its four fixed members in their places and one member for each fact and each blob |
| BundleTheorems.TypedSurvives | internal/bundle/bundle.go:485-496 | a typed fact survives where its own decoder is chosen |
| BundleTheorems.PreservedSurvives | internal/bundle/bundle.go:863-867 | an undecodable fact survives byte for byte, a decodable one does not stay opaque |
| BundleTheorems.TalliesDecodeAsTallies | internal/bundle/bundle.go:480-496 | tally IDs lie inside the match namespace and still get the tally decoder |
| BundleTheorems.MatchesDecodeAsMatches | internal/bundle/bundle.go:485-496 | an undotted interest name gets the match decoder |
| BundleReading.DecodedIsUnderstood | internal/bundle/bundle.go:485-496 | a registered ID is decoded by its own decoder whatever its prefix, a tally or a match by theirs, and anything else, or another version, is kept as its bytes |
| BundleReading.WhatWasRead | internal/bundle/bundle.go:830-876 | under every ID the bundle read holds the last fact the index leads to, as its decoder understands it, unless an error blames that ID; of the errors the last one listed |
| BundleReading.RegisteredWins | internal/bundle/bundle.go:486-488 | every indexed fact whose ID is registered at its version, the last of its ID and not replaced by an error, is what its registered decoder makes of its member |
| BundleReading.TypedFactSurvives | internal/bundle/bundle.go:485-496 | a fact of a registered type, or of the walk, is decoded as what was encoded, with no assumption on the choice of decoder |
| BundleReading.CollectedFactsComeBack | internal/bundle/bundle.go:511-722 | whatever mixture of registered facts and facts of the walk is written, reading the archive gives the same facts, errors, evidence and host |
| BundleTheorems.WellNamed | internal/bundle/bundle.go:779-784 | a fact's member name is accepted exactly when its ID has no ".." and does not end in a dot |
| BundleTheorems.BadNameCannotBeRead | internal/bundle/bundle.go:727-784 | one refused name makes the whole written archive unreadable |
| BundleTheorems.TamperingIsSeen | internal/bundle/bundle.go:789-824 | under one integrity member, two verifying archives have identical other members |
| BundleTheorems.RecordedNames | internal/bundle/bundle.go:789-824 | verification means equal names and digests, except for integrity.json's own entry |
| BundleTheorems.SelfListingIsUnchecked | internal/bundle/bundle.go:805-822 | any archive that verifies still does when integrity.json lists itself under a digest that is not its own |
| BundleTheorems.TamperedArchiveIsRefused | internal/bundle/bundle.go:676-686 | an archive with any other member edited, added or removed does not read as any bundle |
| Sysctl.SettingsFor | internal/fact/kernel.go:225-261 | literal settings win, an exclusion withholds globs, otherwise all matching globs apply in file and line order |
| SysctlOrder.LiteralWins | internal/fact/kernel.go:225-228 | a key that is named literally has exactly its own settings, whatever the patterns and exclusions say |
| SysctlOrder.ExclusionWithholds | internal/fact/kernel.go:229-233 | a key that is not, and is excluded, has none |
| SysctlOrder.AppliedInOrder | internal/fact/kernel.go:235-261 | otherwise the settings stand in the order in which their files are first listed, and within a file by line |
| SysctlOrder.LastFileDecides | internal/fact/kernel.go:251-260 | so the last setting is from the last listed file that sets the key |
| Sysctl.EnumerationDoesNotMatter | internal/fact/kernel.go:225-261 | with distinct lines of listed files, every map order gives the same sequence |
| SysctlTies.TiesDependOnEnumeration | internal/fact/kernel.go:251-260 | for any two tied settings of different patterns, two enumerations of the map that give different settings |
| SysctlTies.SettingsAgreeExactlyWhen | internal/fact/kernel.go:225-261 | all enumerations give the same settings exactly when the key is named literally, or withheld, or no two settings of different patterns tie |
| SysctlTies.SortedKeepsTies | internal/fact/kernel.go:251-260 | the sort keeps the order of settings that tie |
| SysctlTies.DistinctLinesNeverTie | internal/fact/kernel.go:251-260 | distinct lines of listed files never tie |
| Sysctl.DirectoryWinners | internal/fact/kernel.go:365-386 | the last setting of each directory, directories in order of first appearance |
| SysctlOrder.WinnersAreTheLast | internal/fact/kernel.go:365-386 | each directory that sets the key has one winner, its last setting, in the order the directories are first met |
| SysctlOrder.DirectoryOfFile | internal/fact/kernel.go:388-405 | the directory of a file is what stands before its name, except that a file right in /etc stands for itself |
| SysctlOrder.ComparedWithoutSpaces | internal/fact/kernel.go:344-356 | two values conflict exactly when they differ in more than the spaces around them |
| Sysctl.ConfiguredConflict | internal/fact/kernel.go:344-356 | a conflict is reported exactly when the key's settings have more than one possible outcome; with distinct lines, whatever the map order |
| Sysctl.ConflictMeansOutcomesDiffer | internal/fact/kernel.go:314-356 | winners disagree exactly when two rearrangements that keep the order inside every directory end on different trimmed values |
| Sysctl.AnyDirectoryCanBeLast | internal/fact/kernel.go:365-386 | each directory's winner is the end of some such rearrangement |
| Units.List | internal/collect/unit/unit.go:169-182 | the assignments of the name after its last empty one |
| Units.AfterResetIsLast | internal/collect/unit/unit.go:169-182 | the list starts after the last empty assignment of the name, and none is empty from there on |
| Units.NamedInOrder | internal/collect/unit/unit.go:169-183 | the list holds every assignment of the name, each at the place its predecessors leave it |
| Units.Last | internal/collect/unit/unit.go:187-205 | the final element of that list, or nothing |
| Units.FindUnit | internal/collect/unit/unit.go:265-283 | the first location holding the unit when no earlier one refused to answer; absent only if no location answers |
| Units.ReadFragment | internal/collect/unit/unit.go:388-453 | present exactly when the text could be read whole, and otherwise the reason |
| Units.TextExactlyWhen | internal/collect/unit/unit.go:388-453 | a fragment has a text exactly when at most four links, none of them to /dev/null, lead to a regular file that was read whole and is text |
| Units.MaskedExactlyWhen | internal/collect/unit/unit.go:424-428 | it is masked exactly when at most four links lead to /dev/null |
| Units.StateIsExplained | internal/collect/unit/unit.go:388-476 | every other state is what the end of such a chain answers: refused, missing, no regular file or too many links, cut by the cap, unreadable or no text |
| UnitParse.Continues | internal/collect/unit/unit.go:561-568 | a line continues exactly when it ends in an odd number of backslashes |
| UnitLayout.OddBackslashesContinue | internal/collect/unit/unit.go:556-568 | a line goes on exactly when an odd number of backslashes stands before the blanks at its end |
| UnitLayout.AnyLayoutReadsBack | internal/collect/unit/unit.go:490-554 | a file of headers, comments, empty lines and settings, each setting over any number of lines with any indentation, reads back as its settings: pieces joined by one space, numbered by their first line, and comments hide the lines they continue on |
| UnitLayout.JoinedByOneSpace | internal/collect/unit/unit.go:523-527 | however a value is broken over lines at blanks, its joined text is the pieces with one space between them |
| UnitLayout.CommentTakesAll | internal/collect/unit/unit.go:505-516 | a comment takes with it every line it goes on to |
| UnitParse.Parse | internal/collect/unit/unit.go:490-554 | the single pass gives what joining lines first and filtering sections and names afterwards gives |
| UnitParse.OnlyWhatWasAsked | internal/collect/unit/unit.go:490-554 | no directive that was not asked for survives |
| UnitParse.PlainFileReadsBack | internal/collect/unit/unit.go:490-554 | assignments written one per line are read back with their line numbers |
| UnitAssembly.CollectDropIns | internal/collect/unit/unit.go:286-352 | where every directory could be accounted for, the survivors are the first file of each name in precedence order |
| UnitAssembly.ApplyDropIns | internal/collect/unit/unit.go:286-378 | where everything could be read, the directives are those of the survivors in lexical order of names |
| UnitAssembly.Assemble | internal/collect/unit/unit.go:209-248 | a present and complete unit carries the first-found file's directives followed by the drop-ins'; complete and absent means no location has it |
| UnitAssembly.SurvivorsAreFirstInOrder | internal/collect/unit/unit.go:286-378 | each drop-in name is applied once, from its highest-precedence file, in strictly increasing order |
| UnitAssembly.SurvivorIsHighest | internal/collect/unit/unit.go:286-363 | an applied drop-in stands in the highest of the four directories that lists a .conf of its name |
| UnitAssembly.AppliedByName | internal/collect/unit/unit.go:364-378 | all that one drop-in sets stands together, after what the smaller names set and before what the greater ones do |
| LineEdit.MergedIsSettled | internal/remediate/sysctl.go:125-153 | after a merge each key is on exactly one line, with its wanted text |
| LineEdit.MergedKeepsOthers | internal/remediate/sysctl.go:125-153 | every other line keeps its bytes and order |
| LineEdit.KeepsItsPlace | internal/remediate/sysctl.go:130-147 | a key already set is rewritten where it first occurred |
| LineEdit.NewKeysComeLast | internal/remediate/sysctl.go:145-152 | the keys the file did not set come last, one line each, in the order of the keys |
| LineEdit.SplitLosesNothing | internal/remediate/sysctl.go:170-182 | the lines of a file put together again are the file, whether it ends in a newline or not |
| SysctlEdit.Merge | internal/remediate/sysctl.go:125-153 | the keys are set one after another in sorted order, each in what the earlier ones made of the file |
| SysctlEdit.SetsExactlyWhen | internal/remediate/sysctl.go:155-168 | a line sets a key exactly when it is indentation, perhaps one dash, the key, blanks, an equals sign and anything, and does not start as a comment |
| SysctlEdit.MergeIsOnePass | internal/remediate/sysctl.go:125-153 | setting keys in turn equals one pass over the file |
| SysctlEdit.MergeSettles | internal/remediate/sysctl.go:96-153 | read back, a merged file has each key on one line with its value, and the other lines as they were |
| SysctlEdit.MergeIsIdempotent | internal/remediate/sysctl.go:96-153 | merging twice is merging once |
| SysctlEdit.MergeIsIdempotentExactlyWhen | internal/remediate/sysctl.go:96-153 | on every file, merging one pair twice is merging it once exactly when the key is empty or well formed |
| SysctlEdit.ReadsBackExactlyWhen | internal/remediate/sysctl.go:155-168 | the written line is read as the key exactly under that condition |
| SysctlEdit.WrittenSetsItsKey | internal/remediate/sysctl.go:155-168 | the written line sets its key exactly when the key is well formed |
| SysctlEdit.IllFormedKeyRepeats | internal/remediate/sysctl.go:125-168 | on any file, a key that does not read back is on no line after a run, and every further run appends it once more |
| SysctlEdit.AwkSysctlSet | internal/remediate/sysctl.go:207-219 | for every key, what the loop prints is the file with the one key set, as -v unescapes it, on the lines the program's own tests take for it |
| SysctlEdit.ScriptAgreesWithMerge | internal/remediate/sysctl.go:184-219 | for one pair, script and Merge write the same text into every file exactly when the key is not empty and -v leaves key and value alone |
| SysctlEdit.EmptyKeyDiffers | internal/remediate/sysctl.go:125-219 | for the empty key, on a file of one comment, the script keeps the comment and Merge overwrites it |
| SysctlEdit.PlainScriptAgrees | internal/remediate/sysctl.go:184-219 | for a key that is not empty, without a backslash in key or value, they agree on every file |
| SysctlEdit.ScriptDiffers | internal/remediate/sysctl.go:184-219 | with the value a, backslash, t the script writes an a and a tab, and Merge the three characters |
| AwkStrings.IntactExactlyWhen | internal/remediate/sysctl.go:207-219 | -v leaves a string alone exactly when each backslash ends it or starts an undefined escape this awk keeps; any other gets shorter |
| AwkStrings.NamedEscape | internal/remediate/sysctl.go:207-219 | each of the ten named escapes stands for its character, whatever follows it |
| AwkStrings.OctalEscapes | internal/remediate/sysctl.go:207-219 | one to three octal digits, as many as there are, stand for the byte of that value |
| AwkStrings.UndefinedEscape | internal/remediate/sysctl.go:207-219 | any other character stays, with its backslash where this awk keeps it |
| AwkStrings.IntactWhereNoneIsKept | internal/remediate/sysctl.go:207-219 | for an awk that keeps none: exactly when there is no backslash before the last character |
| LoginDefsEdit.FirstValue | internal/fact/logindefs.go:56-63 | the first definition wins |
| LoginDefsEdit.AwkLoginDefsSet | internal/remediate/logindefs.go:41-58 | the first line of the key is rewritten, later ones are commented out with a note, an absent key is appended |
| LoginDefsEdit.EveryLineInItsPlace | internal/remediate/logindefs.go:41-58 | every line of the file in its place: as it was, as the wanted line, or as a note and itself behind a hash; and an absent key on one line at the end |
| LoginDefsEdit.ProgramKeyExactlyWhen | internal/remediate/logindefs.go:42-51 | the program takes a line for a key exactly when the key is its first run of non-blanks and starts no comment |
| LoginDefsEdit.DefinesExactlyWhen | internal/collect/collectors/auth/logindefs.go:81-112 | the parser reads a key and a value from a line exactly when it is the key, its first space or else its first tab, and a value that ends before a hash |
| LoginDefsEdit.LoginDefsIsIdempotent | internal/remediate/logindefs.go:29-58 | running the program twice is running it once |
| LoginDefsEdit.WhatIsInForce | internal/fact/logindefs.go:48-63 | for every file, the wanted value is in force unless the parser already finds a definition above the first line the program recognises |
| LoginDefsEdit.WantedValueIsInForce | internal/remediate/logindefs.go:25-58 | the wanted value is in force whenever the lines above are plainly indented |
| LoginDefsEdit.OtherKeysKeepTheirValue | internal/remediate/logindefs.go:41-58 | every other key keeps its effective value, save one that is the key set, a tab, and more without a space or an equals sign |
| LoginDefsEdit.OtherKeysKeptExactlyWhen | internal/remediate/logindefs.go:41-58 | another key keeps its value in every file exactly when it is not of that form |
| LoginDefsEdit.TabbedKeyIsLost | internal/remediate/logindefs.go:41-58 | a key of that form is defined in a file before the run and undefined after it |
| LoginDefsEdit.OddIndentHides | internal/remediate/logindefs.go:41-58 | a definition indented by a vertical tab stays in force |
| Shell.ShellQuote | internal/remediate/engine.go:258-281 | a word is left bare only when every character is in the safe set |
| Shell.Command | internal/remediate/engine.go:231-244 | the line is the quoted words with one space between |
| Shell.PrintedLineReadsBack | internal/remediate/engine.go:231-281 | a POSIX tokenizer reads the printed line as exactly the words, with nothing open to expansion |
| Remediation.HelpersFor | internal/remediate/engine.go:365-397 | the definitions, in declared order, of the least set of helpers that holds what the body calls and what those helpers call |
| Remediation.NeededIsUnique | internal/remediate/engine.go:365-397 | there is only one such least set |
| Remediation.Generate | internal/remediate/engine.go:192-229 | the plan is the fixes of unaccepted failures and the unfixable ones, each ordered by check |
| Remediation.OnlyFailuresAreRemediated | internal/remediate/engine.go:192-229 | every unaccepted failure is acted on or listed, once, and nothing else is touched |
| Remediation.AcceptingOnlyRemovesWork | internal/remediate/engine.go:192-229 | accepting risks only takes work off the plan and never undoes what was accepted |
| Suppress.Parse | internal/suppress/suppress.go:110-164 | accepts exactly files of sound rules with distinct fingerprints and keeps them in file order |
| Suppress.CheckRule | internal/suppress/suppress.go:122-156 | a rule passes exactly when it is sound on its own |
| Suppress.Set.Apply | internal/suppress/suppress.go:202-251 | findings keep number and order, exactly the failing ones with a live rule are rewritten, and the rules are sorted into applied, lapsed and unmatched |
| Suppress.AcceptedWhileLive | internal/suppress/suppress.go:202-230 | a finding is accepted exactly when it fails or is unknown and its rule has no expiry or has not reached it, with the verdict and the trimmed reason recorded |
| Suppress.ListedByTime | internal/suppress/suppress.go:232-250 | a rule that was hit is applied before its expiry and lapsed from it on |
| Suppress.EveryRuleIsAccounted | internal/suppress/suppress.go:232-250 | every rule is in exactly one of the three lists |
| Suppress.ApplyIsIdempotent | internal/suppress/suppress.go:202-251 | applying again, then or later, changes no finding |
| Score.Compute | internal/score/score.go:84-132 | the tally, coverage and posture of the findings, undefined where nothing counts |
| Score.CoverageIs | internal/score/score.go:44-120 | coverage is the percentage of passes and failures among the findings that apply and are in profile, and undefined where none is |
| Score.PostureIs | internal/score/score.go:84-132 | posture is the percentage of passed weight in evaluated weight, four for critical down to nothing for info, and undefined where nothing was weighed |
| Score.FiguresInRange | internal/score/score.go:44-132 | both figures lie in 0..100, and a posture implies a coverage |
| Score.AcceptingNeverLowersPosture | internal/score/score.go:84-132 | accepting risks never lowers a posture that stays defined |
| Score.CoverageNeverRises | internal/finding/finding.go:164-176 | where profiles mark only findings they skip, accepting risks never raises coverage, and the marks stay so |
| Score.AcceptingNeverRaisesCoverage | internal/score/score.go:44-132 | the same for any findings of which no UNKNOWN one is marked, or none was evaluated |
| Score.AcceptingCanRaiseCoverage | internal/score/score.go:44-56 | on inputs finding.go rules out, Compute does raise it: accepting an UNKNOWN finding that carries a mark |
| Score.CoverageIsMonotoneExactlyWhen | internal/score/score.go:44-56 | over all inputs of Compute, rules and times, coverage never rises exactly when no UNKNOWN finding is marked or nothing was evaluated |
| Diff.PairBySingleton | internal/diff/diff.go:257-280 | pairs exactly the leftovers whose check has one on each side |
| Diff.Compare | internal/diff/diff.go:155-225 | every finding of either side is compared once: under its fingerprint, or as the drifted loner of its check, or with nothing where neither is possible; the changes are what moved, in report order |
| Diff.ChangesAreDetermined | internal/diff/diff.go:155-225 | two comparisons of the same runs report the same changes, whatever order maps are enumerated in |
| DiffReport.ReportsAreIdentical | internal/diff/diff.go:202-224 | with fingerprints computed from check and subject, two comparisons of the same runs are the same sequence of changes |
| Diff.ReportIsOrdered | internal/diff/diff.go:202-224 | the changes come by category, then check, then subject |
| Diff.ReportReads | internal/diff/diff.go:202-224 | new failures come before regressions, changed verdicts, acceptances and resolutions, in that order; within a category checks by name, within a check subjects |
| Diff.LastStands | internal/diff/diff.go:308-315 | of several findings with one fingerprint on a side, the last is compared |
| Diff.ClassifyIsExact | internal/diff/diff.go:235-253 | a pair's category accounts exactly for what the pair does to the number of open failures |
| Diff.ReportedByStanding | internal/diff/diff.go:235-253 | the category of every pair, by how the finding stood before and stands now: gone or passing, failing, or accepted, each with its verdict |
| Diff.OpenFailuresConserved | internal/diff/diff.go:155-253 | new open failures are the old ones plus regressions and new failures, minus acceptances and resolutions of open ones |
| Diff.OneChangeEach | internal/diff/diff.go:155-225 | no finding is in two changes |
| Diff.NoChangeWithItself | internal/diff/diff.go:155-253 | comparing a run with itself finds nothing |
| Sanitize.Clean | internal/sanitize/sanitize.go:60-103 | ends on every byte string, having written pieces until one does not fit, and marks a cut |
| Sanitize.CleanIsBounded | internal/sanitize/sanitize.go:52-103 | at most the cap, and the marker when something was left out |
| Sanitize.CleanIsClean | internal/sanitize/sanitize.go:60-103 | the result is well-formed UTF-8 by section 4 of RFC 3629, without C0 except tab, DEL or C1 |
| SanitizeSpelling.CleanSpells | internal/sanitize/sanitize.go:60-103 | the result is the spelling of the text, character by character of the grammar, with controls and stray bytes escaped; where that is too long, a beginning of it that almost fills the cap, and the marker |
| SanitizeSpelling.ControlExactlyWhen | internal/sanitize/sanitize.go:76-87 | the characters escaped are exactly those with a code point below 32 except the tab, of DEL, or from 128 to 159, and the byte escaped is the code point |
| Sanitize.EscapeSpellsTheByte | internal/sanitize/sanitize.go:105-109 | an escape is a backslash, an x, and the two hexadecimal digits of the byte, the high one first |
| Sanitize.CleanTextStays | internal/sanitize/sanitize.go:60-103 | clean text within the cap is left alone |
| Sanitize.IdempotentExactlyWhen | internal/sanitize/sanitize.go:60-103 | cleaning twice is cleaning once exactly when the escaped form fits the cap or one of its pieces ends at the cap |
| Sanitize.NotAlwaysIdempotent | internal/sanitize/sanitize.go:60-103 | under every cap above zero, a text that changes when cleaned again |
| Sanitize.CutWhenTooLong | internal/sanitize/sanitize.go:91-97 | a text is cut exactly when its escaped form is longer than the cap, and fills the cap exactly when a piece ends there |
| Sanitize.DecodesGrammar | internal/sanitize/sanitize.go:65-66 | the decoder accepts the characters of the RFC 3629 grammar, whatever follows |
| Filling.FitFits | internal/sanitize/sanitize.go:91-97 | the room is never exceeded, and a cut leaves less than one piece of it |
| Filling.CutExactlyWhen | internal/sanitize/sanitize.go:60-103 | the filling loop cuts exactly when all the pieces together exceed the room |

## Left out

- Walker.Walk: rows and entries with equal paths keep their order, since `sort.Slice` is modelled by a stable sort; wall-clock readings are an arbitrary sequence; modification times and other untouched columns of a row are not carried.
- WalkAbsence.NothingInScopeMissed: a filesystem that changes during the walk is not modelled.
- Mounts.ReadMountTable: `path.Clean` is a parameter, and the byte limit of the read is the flag `truncated`; the skip list is modelled, its entries are not justified.
- WalkPaths.MatchesAreFoundExactlyWhen: an interest that may keep one row only is outside the statement; that the directories above a root can be listed too is not used.
- Mounts.Unescape: text is code points, so an escape for a byte of 128 or more, which the kernel does not write, gives the code point of that number instead of part of a character.
- Registry.Registry.Register: the wording of errors, and which of several reasons is named first, are not stated.
- Runner.Record: messages are a parameter over causes; durations reported to the observer are not modelled.
- RunnerProgress.NoCircularWait: a `Collect` that never returns and has no budget is allowed to run forever, as in the original.
- RunnerMerge.ScheduleIndependence: two collectors that write one ID are outside the statement; the last merge wins there.
- BundleIO.Read: which error is reported when several apply is not stated; scan conditions and times in the manifest are one opaque field.
- BundleTheorems.RoundTrip: tar, zstd, SHA-256 and JSON are parameters; an archive beyond the reader's byte budget can be written but not read.
- BundleTheorems.TamperedArchiveIsRefused: collisions of the digest among the members compared are excluded by hypothesis.
- Sysctl.ConfiguredConflict: same-name shadowing between sysctl.d directories is not modelled, as in the original; `path.Match` is an abstract predicate.
- Units.ReadFragment: error texts are not modelled, and the resolution of links is a parameter.
- UnitAssembly.Assemble: for incomplete units, and for the fragments recorded as shadowed, only completeness is stated.
- SysctlEdit.MergeIsIdempotent: for several pairs the condition is sufficient, the exact one is stated for one pair.
- SysctlEdit.ScriptAgreesWithMerge: scripts with several keys are left out, because a script writes keys in check order and `Merge` in key order.
- SysctlEdit.AwkSysctlSet: files are sequences of newline-terminated lines; the temporary file and the copy back are not modelled.
- LoginDefsEdit.AwkLoginDefsSet: the backup and the refusal to create a missing file are not modelled, nor that awk may compare a key and a line as numbers when both look like one.
- Shell.PrintedLineReadsBack: assignments and reserved words in first position, and words holding a NUL, are outside the tokenizer.
- Remediation.Generate: the individual fixes are functions; the wording of the script around commands and helpers is not modelled.
- Suppress.Parse: JSON decoding, time parsing and the fingerprint function are parameters.
- Score.Compute: figures are exact reals, so rounding of binary floating point is not modelled.
- Sanitize.Clean: the two caps that callers pass are a parameter.
- System back ends, syscalls, signals, terminals, renderers, progress output and command-line wiring are foreign input and output.
- The checks themselves, the decoder registry's entries and the exit-code ladder are long lists of one-branch cases.
- The walker's registration of interests, `TruncationSummary`, `Keys`, `Shadowed` and similar accessors would only add easy members.
