# A model of the platform's start-up, credentials, supply chain and readers

The platform is infrastructure as code: a compose file, a Makefile, and small Python programs around
them. This project models the parts of it whose claims reach past any one input, and proves them.

| group | modules | what it is about |
|---|---|---|
| cold start | `Compose`, `Startup`, `Envelope`, `HungStart` | what a start can hold resident at once, and whether it can hang |
| pinned volume | `Credentials`, `VolumeReport`, `Doctor`, `Lifecycle` | a database volume that remembers its first credentials, and the doctor that guards every start |
| supply chain | `Inventory`, `Findings`, `Images` | a canonical package list, an advisory gate with a written baseline, the list of images |
| shared servers | `Tracking`, `Buckets` | create-or-get by any number of clients, crashing anywhere |
| readers | `Expansion`, `Shell`, `Recipes`, `Make`, `Cases`, `Dockerfile`, `Braces`, `PowerShell`, `Payload` | hand-written scanners against what they are meant to read |

`Text`, `Ordering`, `Json`, `Sums` and `Wrappers` hold what these share: Python's string primitives,
its order on strings, parsed documents, sums over sets.

Code that works step by step is a method or a class with the same loops and fields, proved equal to a
function of its input or old state; the results are lemmas about those functions and about every run
of the state machines built on them.

## Main results

- No reachable state of a cold start holds more than `peak`, when each one-shot has a cheapest waiter
  of its own; provisioners may gate provisioners to any depth. When the dependencies have no cycle, any
  figure at all, `peak` included, bounds every reachable state if and only if it bounds every
  dependency-closed pair of sets, which can be read off the file.
- Every run of a start settles if and only if the file is startable: each service can answer or
  finish, each target can give what is waited for, and there is no cycle.
- Over every history of edits, `up`, `down`, `clean` and `reset` from an empty volume, whatever earlier
  probes did and whichever pairs they let in, a start by a doctor that is told what the volume holds uses
  the pair that initialised it: the very same pair for users without a colon, the same up to a moved
  colon otherwise, and one pair for all such starts until the volume is discarded. Being told is read off
  one probe's exit code and output, exactly. The digest is injective.
- Accepting a report and scanning it again passes if and only if every gated identifier has the
  advisory shape; the hand-written matcher is the shape.
- Under any interleaving and any crashes one experiment has the name, every id handed out is that
  experiment's, and a finished run is a complete one.
- `k` passes of substitution leave no defined reference if and only if every variable referred to
  needs at most `k`; nesting rank bounds need whatever the order, and then the passes are full
  recursive expansion. On raw text `replace` substitutes exactly the references the text is read as
  having, and with values sealed where they stand two passes are full expansion for rank two.
- Make reads a doubled dollar before it reads references, and the code does not. The string `Expand`
  returns is what make means by the recipe if and only if, in what is expanded, no doubled dollar stands
  directly before an unknown reference of the expansion, nor directly before the characters `(NAME)` of an
  assigned variable.

## Where the code falls short of what is said about it

Each is kept as the code has it, with a concrete input and, but for the edge of a value, the exact condition.

- A one-shot is said to displace a waiter while it runs. Two one-shots that share their cheapest
  waiter displace it once between them, in a file that passes every contract test and the test on
  provisioner sizes: `HungStart.SharedWaiterPassesTheTests`, `Envelope.EnvelopeExact`.
- The start-up contract tests do not rule a hung start out by themselves: `HungStart.ContractsAllowACycle`,
  and `HungStart.ContractsRuleOutHungStarts` for the two checks that are missing.
- A colon that moves between user and password leaves the fingerprint as it is:
  `Credentials.CollisionWitness`, `Credentials.FingerprintsAgree`.
- The inventory's guard is not enough to split a line back apart when a name ends in an equals sign:
  `Inventory.GuardAloneIsNotInjective`, `Inventory.SplitRecovers`, `Inventory.LinesCollide`.
- A variable three deep, each assigned before its use, is not expanded in two passes:
  `Expansion.RankThreeOutrunsTwoPasses`, `Expansion.PassesSuffice`.
- An unknown reference straight after an escaped dollar reaches the shell as `$(`, which replacing it
  by a harmless word is there to prevent: `Shell.ReferenceAfterADollar`. An escaped dollar straight before
  the name of an assigned variable in brackets is expanded, where make leaves it to the shell:
  `Cases.EscapedReferenceIsExpanded`. Before an unknown name in brackets it comes out as make has it:
  `Cases.EscapedUnknownIsMeant`. The exact condition over raw text is `Make.RecipeIsMeantExactly`; that a
  violation is always seen needs values that are not empty and begin with no bracket, and
  `Cases.DisguisedTrap` is one that would not be.
- A value can make a reference with the text around it, which is then expanded too:
  `Recipes.AnEdgeMakesAReference`. One substitution makes none exactly when
  `Recipes.SubstStaysJoinlessExactly` says; over whole passes `Recipes.SealedStaysJoinless` goes one way.
- A doctor that reads no fingerprint lets any pair start, by design when the probe fails, but also when it
  exits 0 behind a line begun and not ended: `Lifecycle.MismatchedStart`. When it reads the volume's own
  record is `VolumeReport.RecordIsReadExactly`, and what it admits in each case `Lifecycle.AdmitsExactly`.
- The test that one-shots do not restart says that one restarted on failure never completes. It does when
  it succeeds: `HungStart.RetriedProvisionerStarts`. What holds its waiters back for ever is in
  `HungStart.RestartingTargetHolds`, and the exact condition on a file in `HungStart.NoHungStart`.
- The second code `ensure` takes for "here and yours" is also given for a bucket that is someone else's:
  `Buckets.ForeignBucketPasses`; the contract of `Buckets.Ensure` says when one that passes is one's own.
- The two readers of image references part over an image written with surrounding blanks:
  `Images.BlanksPartTheReaders`, `Images.ReadersAgreeExactly`.

## Model

| member | source | states |
|---|---|---|
| `Compose.CompletionWaiters` | tests/test_compose_contract.py:56-69 | the dict holds under each target exactly the services whose dependency on it is `service_completed_successfully`, and no empty entry |
| `Compose.RecordWaits` | tests/test_compose_contract.py:64-68 | one service's dependencies add that service under each completion target, and nothing elsewhere |
| `Compose.QuickstartServices` | tests/test_quickstart_envelope.py:37-48 | the services not behind the `full` profile; each has a resource exactly when one of the two files declares it, at the quickstart's value if that file declares one and else at the base file's |
| `Compose.CappedMeans` | tests/test_quickstart_envelope.py:37-48 | every started service has a size if and only if the base file or the quickstart declares one for each service not behind `full` |
| `Compose.SizesMean` | tests/test_quickstart_envelope.py:45-65 | the sizes are those of exactly these services, the quickstart's figure wherever it declares one |
| `Compose.ChargeMeans` | tests/test_quickstart_envelope.py:70-75 | a service nothing waits for to complete is charged its size; another what it has over its cheapest waiter, and zero when it has nothing over it |
| `Compose.QuickstartSizes` | tests/test_quickstart_envelope.py:64-65 | sizes exist exactly when every started service declares the resource; otherwise a service that does not is named |
| `Compose.Cheapest` | tests/test_quickstart_envelope.py:74 | the smallest size in a set, or zero for none |
| `Compose.ChargeAll` | tests/test_quickstart_envelope.py:72-75 | each service's charge, from the table of waiters cut down to the services that have a size |
| `Compose.Peak` | tests/test_quickstart_envelope.py:51-76 | there is a figure exactly when every service not behind `full` has a size in one of the two files, or the service with none is named; total and charges are those the envelope theorems are about |
| `Startup.CoherentStep` | compose/docker-compose.yml:249-258 | a step keeps every started service's dependencies met, and terminal phases to the services that can reach them |
| `Startup.ReachableIsCoherent` | compose/docker-compose.yml:249-258 | so does every run of a cold start |
| `Startup.StartedOnWhatItWaitedFor` | tests/test_compose_contract.py:72-107 | in every reachable state, what a started service waited for to complete is done, what it waited for to be healthy is healthy and healthchecked, and its other dependencies have started |
| `Startup.MetDependenciesLetItStart` | compose/docker-compose.yml:249-258 | and a service whose dependencies are there can start next |
| `Envelope.PlanCharges` | tests/test_quickstart_envelope.py:66-70 | cutting the waiters down to sized services makes services outside the quickstart irrelevant to the charges |
| `Envelope.WaiterIsAbsent` | tests/test_quickstart_envelope.py:59-61 | in every reachable state, whatever waits on a one-shot that has not finished has not started |
| `Envelope.DiscountsFitInTheAbsent` | tests/test_quickstart_envelope.py:59-61 | all that the peak leaves out is made up for by absent services: an injection of unfinished one-shots into them |
| `Envelope.EnvelopeSound` | tests/test_quickstart_envelope.py:51-76 | no reachable state's resident sizes exceed the peak, when no two one-shots share their cheapest waiter |
| `Envelope.QuickstartEnvelopeSound` | tests/test_quickstart_envelope.py:88-103 | the same for the figure `Peak` returns on the quickstart of a compose file |
| `Envelope.OneOneShotIsSound` | compose/docker-compose.yml:178-205 | with a single provisioner, which is the file's own case, the envelope needs no side condition |
| `Envelope.ReachableIsCut` | tests/test_quickstart_envelope.py:51-76 | what is done and what is resident in a reachable state are dependency-closed together |
| `Envelope.CutIsReachable` | tests/test_quickstart_envelope.py:51-76 | every dependency-closed pair of sets is reached by some run of an acyclic file |
| `Envelope.EnvelopeExact` | tests/test_quickstart_envelope.py:51-76 | for an acyclic plan, a figure bounds every reachable state if and only if it bounds every dependency-closed pair |
| `Envelope.QuickstartEnvelopeExact` | tests/test_quickstart_envelope.py:51-76 | the same of the figure `Peak` returns for a quickstart without a dependency cycle |
| `Envelope.SharedWaiterBreaksTheEnvelope` | tests/test_quickstart_envelope.py:59-62 | two provisioners of size one before one waiter of size one are resident together at two, while the peak is one |
| `HungStart.StepsDecrease` | tests/test_compose_contract.py:75-82 | every step of a start decreases a measure |
| `HungStart.RunsAreShort` | tests/test_compose_contract.py:75-82 | a run of n services takes at most 2n steps |
| `HungStart.RunsExtend` | tests/test_compose_contract.py:75-82 | every run extends to one that can go no further |
| `HungStart.SomeStepIsOpen` | tests/test_compose_contract.py:72-91 | below every unsettled service of a startable file there is an open step |
| `HungStart.UnsettledIsNotStuck` | tests/test_compose_contract.py:72-91 | a reachable state of a startable file is settled or has an open step |
| `HungStart.SettledRunMeansStartable` | tests/test_compose_contract.py:186-205 | a single run that settles shows the file startable, acyclicity included |
| `HungStart.NoHungStart` | tests/test_compose_contract.py:72-107 | every maximal run settles if and only if the file is startable, and so does some run |
| `HungStart.ContractsRuleOutHungStarts` | tests/test_compose_contract.py:186-205 | a file that passes the contract tests is startable if and only if it is acyclic and its health targets are healthchecked |
| `HungStart.ContractsAllowACycle` | tests/test_compose_contract.py:186-205 | two services waiting for each other's health pass every contract test and never start |
| `HungStart.RestartingTargetHolds` | tests/test_compose_contract.py:94-107 | a completion target that is restarted for ever holds its waiters back in every reachable state |
| `HungStart.RetriedProvisionerStarts` | tests/test_compose_contract.py:94-107 | a provisioner restarted on failure only is refused by the test and yet starts: the test is stricter than what hangs |
| `HungStart.PeakIsAttained` | tests/test_quickstart_envelope.py:106-131 | with provisioners no larger than what they gate, the settled stack holds exactly the peak |
| `HungStart.SharedWaiterPassesTheTests` | tests/test_quickstart_envelope.py:106-131 | the file that breaks the envelope passes every contract test, and the one that is said to make the peak sound |
| `Text.BreaksEndLines` | preflight/credentials.py:92 | every line break ends a line, and a carriage return with its line feed ends one and not two |
| `Text.StripPadding` | preflight/credentials.py:93 | stripping takes white space off both ends, of any kind and length, and nothing else |
| `Text.PartitionAt` | preflight/credentials.py:96 | what stands before the first mark and what stands after it come out as they are |
| `Credentials.ParseEnvPairs` | preflight/credentials.py:84-98 | the loop computes the last-wins bindings that the printing lemmas are about |
| `Credentials.LineOfBinding` | preflight/credentials.py:92-97 | a plain name, an equals sign and any text are read as that name and that text, stripped and one quote layer off |
| `Credentials.UnquoteQuoted` | preflight/credentials.py:77-81 | exactly one layer of quotes is taken off, whatever is inside |
| `Credentials.EntryReadsBack` | preflight/credentials.py:84-98 | each printed line reads as its binding, or as nothing if it is a comment or a blank |
| `Credentials.CommentsBindNothing` | preflight/credentials.py:92-93 | a line whose first character that is not white space is a comment sign binds nothing, whatever else is on it |
| `Credentials.PrintThenParse` | preflight/credentials.py:84-98 | reading undoes printing for any mix of bare and quoted bindings, comments and blanks; quoting covers every value without a line break |
| `Credentials.MeaningIsLast` | preflight/credentials.py:84-98 | a name is read as a value exactly when the last entry that binds it binds it to that value |
| `Credentials.BareReadsBack` | preflight/credentials.py:84-98 | a bare value reads back if and only if it has no line break, no white space at its ends, and is not itself in quotes |
| `Credentials.ShellWinsOverFile` | preflight/credentials.py:101-111 | a value exported in the shell wins unless it is blank; else it is the last binding the file prints, and nothing without one |
| `Credentials.MissingCredentials` | preflight/credentials.py:114-128 | the names the example binds for which the shell exports nothing but blanks and the file, if there is one, holds nothing |
| `Credentials.MissingExactly` | preflight/credentials.py:114-128 | over printed files, and over none: a name is missing if and only if the example binds it, the shell exports no more than blanks for it, and no last entry of the file binds it to something |
| `Credentials.FingerprintsAgree` | preflight/credentials.py:140-151 | two pairs have one fingerprint if and only if they are equal or a colon has moved between user and password |
| `Credentials.ColonFreeUsersAreTold` | preflight/credentials.py:140-151 | for colon-free users, equal fingerprints if and only if equal pairs |
| `Credentials.CollisionWitness` | preflight/credentials.py:148-151 | `a:b` with `c` and `a` with `b:c` have one fingerprint |
| `VolumeReport.ParseVolumeReport` | preflight/runtime.py:173-195 | the indexed scan with early returns computes the reading the report lemmas are about |
| `VolumeReport.RecordIsSaltAndDigest` | postgres/init/00-record-init-credentials.sh:19-25 | a record is made exactly when salt and digest are not empty, and is the salt, a colon and the digest of salt, user and password joined by colons |
| `VolumeReport.RecordIsHeard` | preflight/runtime.py:184-192 | whatever a record file holds, its first line that is not blank decides, and a file of blanks is no report |
| `VolumeReport.RecordIsRead` | preflight/runtime.py:154-195 | a recorded fingerprint is read back as recorded behind any narration, an indented report line included |
| `VolumeReport.AbsenceIsRead` | preflight/runtime.py:157-159 | without a record the report tells an initialised volume from an empty one, behind any narration, in the very words `initialised-without-fingerprint` and `empty` |
| `VolumeReport.FirstMarkerDecides` | preflight/runtime.py:185-194 | nothing printed after a report changes how it is read |
| `VolumeReport.FailuresAreUnreadable` | preflight/runtime.py:180-195 | a nonzero exit, or output with no marker line, ended or not, is never read as a volume state |
| `VolumeReport.FailuresAreTold` | preflight/runtime.py:180-182 | a failed probe is told by its exit code and the last line it left on stderr, else on stdout, else by a note that there was none |
| `VolumeReport.MalformedRecordIsUnreadable` | preflight/runtime.py:187-192 | any record is unreadable if and only if its first line that is not blank is not two non-empty halves around its first colon, and else is read as those halves |
| `VolumeReport.RecordIsReadExactly` | preflight/runtime.py:176-195 | the volume's own record is what is read if and only if the probe exited 0 and what was printed before is narration or a report of that very record |
| `VolumeReport.BegunLineHidesTheReport` | preflight/runtime.py:184-195 | a line begun and not ended before the report hides it, though the exit code is 0 |
| `Doctor.Probe.Read` | preflight/checks.py:62-71 | reading the volume counts, so how often `run` reads it can be stated |
| `Doctor.CheckCredentials` | preflight/checks.py:80-93 | the check passes if and only if every variable the example declares is exported with more than blanks or bound to something in the file, and fails otherwise |
| `Doctor.AllSetInFiles` | preflight/checks.py:80-93 | the same entry by entry of the two files, and with no file: exporting every declared variable is enough |
| `Doctor.PairIsResolved` | preflight/checks.py:147-150 | the pair compared is what the shell, or else the last entry of the file, holds for `POSTGRES_USER` and `POSTGRES_PASSWORD` |
| `Doctor.Run` | preflight/checks.py:138-159 | the list built by appending is the table of verdicts, and the volume is read once if the first two checks pass, else never |
| `Doctor.RunsAreCoherent` | preflight/checks.py:138-159 | the three names in order, at most one FAIL, only unknowns after it, and each "failed first" names a check that failed |
| `Doctor.ExitCodeMeans` | preflight/__main__.py:39-50 | exit 1 for exactly three reasons: no daemon, a declared variable neither exported nor bound to anything, or a recorded fingerprint that differs |
| `Doctor.ComparedPairIsSet` | preflight/checks.py:147-150 | the volume is compared with a non-empty user and password when the example declares both |
| `Doctor.RecordedPairIsChecked` | preflight/checks.py:111-124 | recording, reporting, parsing and checking together: OK exactly for the recorded pair, up to a moved colon, else FAIL |
| `Doctor.ColonFreePairIsChecked` | preflight/checks.py:96-124 | for colon-free users: OK if and only if the pair is the recorded one |
| `Doctor.AbsenceIsChecked` | preflight/checks.py:104-133 | without a record an empty volume passes any pair and an initialised one cannot be told |
| `Doctor.UnreadableIsUnknown` | preflight/checks.py:135 | a failed probe, or one whose output has no marker line, is neither OK nor FAIL |
| `Doctor.RecordFileIsChecked` | preflight/checks.py:111-135 | for any record file: unknown if and only if its first line that is not blank is not two halves, else OK or FAIL by those halves |
| `Lifecycle.Machine.RunDoctor` | Makefile:176-177 | the doctor's exit code is that of its verdicts on the volume as the script reports it, and nothing changes |
| `Lifecycle.Machine.Edit` | preflight/credentials.py:101-111 | an edit of the file changes the file and nothing else |
| `Lifecycle.Machine.Export` | preflight/credentials.py:101-111 | an export changes the environment and nothing else |
| `Lifecycle.Machine.Up` | Makefile:361-362 | a start happens exactly when the doctor admits it, both halves of the pair are set and Postgres starts; it then pins a fresh volume to the pair in hand and leaves a built one, and otherwise nothing changes |
| `Lifecycle.Machine.Down` | Makefile:367-368 | the volume, the file and the environment are untouched |
| `Lifecycle.Machine.Clean` | Makefile:370-371 | a successful clean empties the volume, a failed one changes nothing, and neither touches the credentials |
| `Lifecycle.Machine.Reset` | Makefile:373-376 | clean, then up, and no up after a failed clean; a start pins the new volume to the pair in hand |
| `Lifecycle.ToldExactly` | preflight/runtime.py:173-195 | a doctor reads a recorded volume's own fingerprint if and only if it is told, by one probe's exit code and output |
| `Lifecycle.OfferedPair` | preflight/credentials.py:101-111 | a pair exported as `POSTGRES_USER` and `POSTGRES_PASSWORD` is the pair in hand, whatever the file holds |
| `Lifecycle.AdmitsByWhatIsRead` | Makefile:361-362 | whatever the probe did, every pair is admitted unless a fingerprint was read, and then exactly its pairs |
| `Lifecycle.AdmitsExactly` | Makefile:361-362 | over a built and recorded volume a told doctor admits exactly the recorded pair, up to a moved colon; one that reads no fingerprint admits every pair |
| `Lifecycle.FreshIsAdmitted` | preflight/checks.py:104-109 | an empty volume admits every pair, whether or not the probe got through |
| `Lifecycle.MismatchedStart` | preflight/checks.py:126-135 | a concrete start with a pair the recorded volume was not built with: the probe failed, or exited 0 behind an unended line |
| `Lifecycle.HistoriesKeepTheRecord` | postgres/init/00-record-init-credentials.sh:19-25 | after every history, whatever its probes did, the volume is empty or holds the record of the pair it was built with |
| `Lifecycle.StartUsesThePair` | Makefile:361-362 | a start by a told doctor over a recorded volume runs with the volume's pair |
| `Lifecycle.StartsMatchTheVolume` | Makefile:361-376 | so does every such start of every history from an empty volume, with nothing asked of earlier probes, up to a moved colon |
| `Lifecycle.ColonFreeStartsMatchTheVolume` | Makefile:361-376 | for colon-free users it is the very same pair |
| `Lifecycle.BuiltVolumesSurvive` | Makefile:367-376 | a built volume survives every history without a successful clean: edits, starts admitted or refused, downs, and resets whose clean failed |
| `Lifecycle.StartsOfOneVolumeAgree` | Makefile:361-376 | any two told starts with no volume discarded between them run with one pair, however the credentials were edited in between |
| `Lifecycle.ResetClearsAMismatch` | Makefile:373-376 | whatever the volume was built with, a reset starts with the pair in hand and pins the new volume to it |
| `Ordering.LessIsTotal` | supply/inventory.py:127 | Python's order on strings decides every two strings, one way only |
| `Ordering.LessIsByCharacter` | supply/inventory.py:127 | a text comes before every text it begins, and where two first differ the smaller character decides |
| `Ordering.LessIsTransitive` | supply/inventory.py:127 | and is transitive |
| `Ordering.SortedIsUnique` | supply/inventory.py:127 | a strictly increasing list is determined by its elements, so `sorted` of a set is one list |
| `Ordering.Sorted` | supply/inventory.py:127 | inserting a set's elements in any order gives that list: exactly the elements, each before the next |
| `Inventory.DescribedIds` | supply/inventory.py:49-72 | exactly the strings in the `documentDescribes` list and the related elements of relationships whose type is `DESCRIBES`, skipping what is malformed |
| `Inventory.SubjectExactly` | supply/inventory.py:49-72 | an identifier is the subject's if and only if the document says so in one of these two spellings |
| `Inventory.PackagesAreTheList` | supply/inventory.py:82-93 | what is reduced is the whole of a `packages` list that is not empty, and nothing else is accepted |
| `Inventory.Inventory` | supply/inventory.py:75-127 | the sorted lines, or the first package refused and why |
| `Inventory.InventoriedExactly` | supply/inventory.py:102-127 | there is an inventory if and only if some package is not the subject and every such package is named and fit for a line |
| `Inventory.FirstPackageIsRefused` | supply/inventory.py:102-125 | without an inventory every package is the subject, or the first that is neither the subject nor fit for a line is named by its place |
| `Inventory.InventoryIsExact` | supply/inventory.py:95-127 | strictly increasing, and exactly the packages that are not the subject, an absent version carried as NOASSERTION |
| `Inventory.OthersAreListed` | supply/inventory.py:66-72 | a package that nothing but other relationships name is listed |
| `Inventory.ContainedIsListed` | supply/inventory.py:66-72 | one contained package, named by a `CONTAINS` relationship alone, is the whole inventory |
| `Inventory.InventoryIsCanonical` | supply/inventory.py:98-101 | success and output depend on packages and subject only as sets: order, repeats and spelling make no difference |
| `Inventory.SpellingsAgree` | supply/inventory.py:54-56 | a `documentDescribes` list and DESCRIBES relationships (section 11.1 of SPDX 2.3) describe the same set |
| `Inventory.GuardedExactly` | supply/inventory.py:116-120 | the guard passes exactly the pairs without two equals signs in a row in either half |
| `Inventory.SplitRecovers` | supply/inventory.py:116-121 | splitting a guarded line gives the pair back if and only if the name does not end in an equals sign |
| `Inventory.LinesCollide` | supply/inventory.py:116-121 | two guarded pairs share a line if and only if they are equal or an equals sign has moved across the separator |
| `Inventory.GuardAloneIsNotInjective` | supply/inventory.py:116-120 | `a=` with `b` and `a` with `=b` pass the guard and give one line |
| `Inventory.FileReadsBack` | supply/inventory.py:138-140 | the written file reads back line for line if and only if no line holds a line break |
| `Inventory.PackagesReadBack` | supply/inventory.py:130-140 | from the file of a document without breaks or trailing equals signs every package can be read back, and nothing else |
| `Findings.Matches` | supply/findings.py:47 | the left-to-right matcher accepts exactly the advisory shape |
| `Findings.FieldsJoin` | supply/findings.py:47 | the fields the shape speaks of hold no dash and, with dashes between them, are the text |
| `Findings.PlacesMean` | supply/findings.py:47 | what each place of the matcher still asks of the fields ahead |
| `Findings.MatcherIsTheShape` | supply/findings.py:47 | a match from the start is the shape, for every text |
| `Findings.MatchesAreTheList` | supply/findings.py:61-74 | the matches of a report are the whole of its `matches` list, and anything else is an error |
| `Findings.Advisories` | supply/findings.py:54-90 | the sorted gated identifiers, or the first match refused and why |
| `Findings.GatedIsExact` | supply/findings.py:75-90 | a report is gated if and only if every match has an identifier and a severity, and then by exactly those at Critical or High |
| `Findings.FirstMatchIsRefused` | supply/findings.py:75-87 | otherwise the first match that lacks one of the two is named by its place and by what it lacks |
| `Findings.Baseline` | supply/findings.py:93-120 | the identifiers of a file, its comments and blanks aside, or the first bad line; a missing file is an error |
| `Findings.BaselineIsExact` | supply/findings.py:108-120 | readable if and only if every line that is not blank or a comment is an identifier, and then exactly those lines; else the first that is not is named by its number |
| `Findings.AdvisoryIsPlain` | supply/findings.py:110-114 | an identifier survives stripping and is never taken for a comment or a blank |
| `Findings.WrittenReadsBack` | supply/findings.py:136-140 | the baseline of a written file is exactly the set written, the header having vanished |
| `Findings.BaselinesHoldAdvisories` | supply/findings.py:114-119 | a readable baseline never holds anything of another shape |
| `Findings.Run` | supply/findings.py:143-197 | two arguments are the baseline and the report of a scan, which writes nothing; with `--accept` before, between or after them they are those of an accept; any other number of arguments is status 2 and no change |
| `Findings.PositionalOne` | supply/findings.py:146 | an argument is positional unless it is the flag |
| `Findings.PositionalIsInOrder` | supply/findings.py:146 | and the positional arguments come in the order written |
| `Findings.PathsMean` | supply/findings.py:146-154 | of two arguments the first is the baseline and the second the report, wherever the flag stands |
| `Findings.ScanPassesExactly` | supply/findings.py:155-194 | a scan passes if and only if every match can be weighed, every line of the baseline is one, and each identifier matched at Critical or High is on a line of it |
| `Findings.ScanNeedsFiles` | supply/findings.py:155-171 | and never without both files and a list of matches |
| `Findings.AcceptThenScan` | supply/findings.py:162-197 | accepting a report and scanning it passes if and only if every gated identifier has the shape |
| `Findings.FewerMatchesStillPass` | supply/findings.py:173-194 | dropping matches never turns a pass into a failure |
| `Findings.OrderAndRepeatsDoNotMatter` | supply/findings.py:57-59 | reordering or repeating matches never changes the verdict |
| `Findings.LoweringStillPasses` | supply/findings.py:88-89 | rescoring a match below the gate never turns a pass into a failure |
| `Findings.SwapsFail` | supply/findings.py:173-194 | as many gated as known, and not the same ones, always fails |
| `Images.References` | supply/images.py:83-107 | the sorted list of what the services add, as they are written, or the first problem in the order of the file |
| `Images.SplitWord` | supply/images.py:73-77 | a word between white space is split off as it is |
| `Images.FromNamesItsBase` | supply/images.py:73-77 | a `FROM` line names the word after it, whatever stands between and whatever follows |
| `Images.NamedExactly` | supply/images.py:92-106 | a service is listed exactly when it is accounted for, and then by its stripped image and its build's bases |
| `Images.AddsExactly` | supply/images.py:54-106 | a service without a build, or with a null one, adds its stripped image; one built from a string or from a mapping with a string `context` adds its Dockerfile's bases too; no other can be listed |
| `Images.ListedExactly` | supply/images.py:83-107 | so over the file: there is a list if and only if it has services and each can be listed, and it is exactly what they add |
| `Images.EveryBaseIsListed` | supply/images.py:61-106 | for both written forms of a build every base of the Dockerfile is in the list |
| `Images.OtherBuildsAreRefused` | supply/images.py:59-64 | any other form of a build stops the list |
| `Images.FirstProblemIsReported` | supply/images.py:90-106 | the problem is that of the first service that cannot be listed |
| `Images.ReferencesAreExhaustive` | supply/images.py:83-107 | there is a list exactly when every service is accounted for; it is strictly sorted and is every image and every base, no others |
| `Images.ProfilesDoNotMatter` | supply/images.py:8-11 | only images and builds decide the list, so no profile can leave a service out |
| `Images.StrictBasesAgree` | tests/test_image_supply.py:76-89 | the second reader's bases are the first one's, and it stops exactly at a `FROM` with nothing after it |
| `Images.BuiltBasesAgree` | tests/test_image_supply.py:76-89 | so over all services together |
| `Images.BuiltBasesExactly` | tests/test_image_supply.py:76-89 | it gets through if and only if no Dockerfile that is built from has such a line |
| `Images.ReadersAgreeExactly` | tests/test_supply_images.py:28-40 | the two readers list the same names if and only if no image is written with surrounding blanks |
| `Images.BlanksPartTheReaders` | supply/images.py:101-103 | an image with a blank before it is listed without by one reader and with by the other |
| `Images.TagsAreSorted` | tests/test_image_supply.py:105-128 | pulled and built tags cover every key; they are disjoint if and only if no tag is both built and pulled |
| `Tracking.TrackingServer.CreateExperiment` | airflow/dags/m0_smoke.py:106-113 | refused exactly when the name is taken, and then nothing changes |
| `Tracking.TrackingServer.GetByName` | airflow/dags/m0_smoke.py:115-116 | finds the name exactly when it is there |
| `Tracking.ExperimentId` | airflow/dags/m0_smoke.py:100-116 | the id is the experiment's, created only if it was absent, by one request or two |
| `Tracking.LogOneRun` | airflow/dags/m0_smoke.py:131-171 | one new finished run with the param and the metric, nothing else changed, and the requests in order with the finish last |
| `Tracking.StepsKeepSound` | airflow/dags/m0_smoke.py:100-171 | every request of any task, every crash and every stranger keeps the invariant |
| `Tracking.HistoriesAreSound` | airflow/dags/m0_smoke.py:100-171 | so it holds in every state of every interleaving |
| `Tracking.OneExperiment` | airflow/dags/m0_smoke.py:100-116 | at most one experiment has the name, and all tasks with an id have the same one |
| `Tracking.ExperimentsPersist` | airflow/dags/m0_smoke.py:100-116 | an id stays the experiment's for the rest of the history |
| `Tracking.IdsAgreeAcrossTime` | airflow/dags/m0_smoke.py:100-116 | ids obtained at any two times agree |
| `Tracking.FinishedRunsAreComplete` | airflow/dags/m0_smoke.py:164-170 | every finished run of the experiment holds both the param and the metric |
| `Tracking.CrashesLeaveUnfinished` | airflow/dags/m0_smoke.py:164-170 | a crashed task's run stays finished or unfinished for the rest of the history: finished if and only if the server had taken the final update |
| `Tracking.ReturnedRunsAreOnesOwn` | airflow/dags/m0_smoke.py:131-171 | no two tasks share a run, and a returned one is finished, complete and the experiment's |
| `Tracking.TasksCanMove` | airflow/dags/m0_smoke.py:108-116 | a live task always has a request to make; the look-up after a refusal always finds the experiment |
| `Tracking.AloneIsLogOneRun` | airflow/dags/m0_smoke.py:131-171 | a task left alone takes the server, request by request, exactly where `LogOneRun` takes it: the protocol is the method cut at its requests |
| `Buckets.Ensure` | images/mlflow/ensure_buckets.py:36-45 | created exactly when it was absent, and only then is anything new; every refusal but the two codes is raised; a bucket that passes is there, and one's own if and only if it is not someone else's |
| `Buckets.Provision` | images/mlflow/ensure_buckets.py:48-66 | status 2 and no change without names or an endpoint; else every name up to the first that raises is there, and the status |
| `Buckets.SchedulesOnlyAdd` | images/mlflow/ensure_buckets.py:63-65 | under any interleaving the store holds what it held and what has been got through |
| `Buckets.OwnedExactly` | images/mlflow/ensure_buckets.py:36-65 | under any interleaving, a name got through is one's own if and only if it is not someone else's |
| `Buckets.EndedExactly` | images/mlflow/ensure_buckets.py:63-65 | a provisioner has ended if and only if it has got to its last name or to the first that raises |
| `Buckets.InterleavingsAgree` | images/mlflow/ensure_buckets.py:36-65 | any two interleavings in which every provisioner ends, raising or not, leave the same store |
| `Buckets.RerunsRecover` | images/mlflow/ensure_buckets.py:36-65 | whatever a first round left, crashed anywhere, a second that ends leaves what one undisturbed round leaves |
| `Buckets.AgainChangesNothing` | images/mlflow/ensure_buckets.py:36-45 | over a store that a round has ended on, no schedule changes anything |
| `Buckets.ForeignBucketPasses` | images/mlflow/ensure_buckets.py:30-45 | a provisioner gets through a list of buckets that are someone else's and owns none |
| `Expansion.NeedIsCost` | tests/test_makefile_recipes.py:65-67 | what a variable needs is what its value costs from the place after its own |
| `Expansion.SubstCost` | tests/test_makefile_recipes.py:67 | one substitution within a pass leaves a cost of two or more as it is and raises none |
| `Expansion.PassCost` | tests/test_makefile_recipes.py:65-67 | a pass lowers the cost by exactly one |
| `Expansion.PassesSuffice` | tests/test_makefile_recipes.py:57-69 | k passes leave no defined reference if and only if every variable referred to needs at most k |
| `Expansion.NeedIsAtMostRank` | tests/test_makefile_recipes.py:60-62 | need never exceeds nesting rank, in whatever order the file assigns |
| `Expansion.RankBoundsPasses` | tests/test_makefile_recipes.py:60-62 | so k passes do for rank k in any order |
| `Expansion.SubstKeepsFull` | tests/test_makefile_recipes.py:67 | substituting a variable's value keeps the full recursive expansion of the text |
| `Expansion.PassesAreFull` | tests/test_makefile_recipes.py:57-69 | when k passes are enough their result is the full recursive expansion |
| `Expansion.ExpandIsFull` | tests/test_makefile_recipes.py:57-69 | two passes are full expansion for rank at most two, and leave no defined reference |
| `Expansion.RankThreeOutrunsTwoPasses` | tests/test_makefile_recipes.py:65-67 | three variables in definition-before-use order defeat two passes; in the other order one pass does |
| `Expansion.ChainIsRanked` | tests/test_makefile_recipes.py:60-62 | these three variables have nesting ranks one, two and three |
| `Shell.FinishExactly` | tests/test_makefile_recipes.py:61-69 | of what an expansion leaves: escaped dollars come out single and unknown references harmless if and only if no reference stands right after an escaped dollar |
| `Shell.ReferenceAfterADollar` | tests/test_makefile_recipes.py:68-69 | an escaped dollar and then an unknown reference leave an opening `$(` for the shell |
| `Recipes.Expand` | tests/test_makefile_recipes.py:57-69 | the nested loops on raw text are two whole passes of `replace`, then the harmless word, then single dollars |
| `Recipes.ReadIsShown` | tests/test_makefile_recipes.py:67 | reading a text as characters and references loses nothing |
| `Recipes.ReplaceIsSubst` | tests/test_makefile_recipes.py:67 | one `replace`, whatever the text and the value, substitutes exactly the references the text is read as having |
| `Recipes.GuardedIsRendered` | tests/test_makefile_recipes.py:68 | the substitution with a look behind puts the harmless word for exactly the references read that no dollar precedes |
| `Recipes.HalvedIsReplace` | tests/test_makefile_recipes.py:69 | doubled dollars are taken in pairs from the left |
| `Recipes.ExpandIsTokens` | tests/test_makefile_recipes.py:57-69 | the raw expansion is the token expansion as long as no reference comes into being across the edge of a value |
| `Recipes.JoinlessExactly` | tests/test_makefile_recipes.py:67 | tokens are what their text is read as if and only if no bracket closes a name that characters have opened |
| `Recipes.SubstStaysJoinlessExactly` | tests/test_makefile_recipes.py:67 | one substitution lets no reference come into being if and only if a run over the text and the value meets no such bracket |
| `Recipes.SealedStaysJoinless` | tests/test_makefile_recipes.py:65-67 | when every variable is sealed in the places where it stands, and only there, no reference comes into being in any number of passes |
| `Recipes.ReadIsSafe` | tests/test_makefile_recipes.py:67 | of a raw text nothing is asked but in which places its variables stand |
| `Recipes.ExpandIsFullOnText` | tests/test_makefile_recipes.py:57-69 | so on raw text two passes are full expansion for values nested at most two deep |
| `Recipes.CommandSubstitutionFits` | Makefile:196-198 | a variable may stand first in a command substitution if its value begins with no character of a name |
| `Recipes.SbomIsCovered` | Makefile:197 | the loop over images is such a recipe |
| `Recipes.AnEdgeMakesAReference` | tests/test_makefile_recipes.py:65-67 | a value that ends in a dollar makes a reference with the text after it, and the raw passes expand that one too |
| `Make.TrapFreeIsAlike` | tests/test_makefile_recipes.py:57-69 | where no doubled dollar stands before the bracketed name of an assigned variable, full expansion is rendered as what make reads, its dollars doubled |
| `Make.TrapIsSprung` | tests/test_makefile_recipes.py:65-67 | where one does, at the first such place the code has a lone dollar and an expanded value, and make a dollar and characters |
| `Make.TrapIsSeen` | tests/test_makefile_recipes.py:68-69 | and that is always seen in what the shell is handed, whatever stands before and after it |
| `Make.RecipeIsMeantExactly` | tests/test_makefile_recipes.py:57-69 | the returned string is what make means if and only if no doubled dollar stands directly before an unknown reference of the expansion, nor before `(NAME)` of an assigned variable |
| `Cases.EscapedReferenceIsExpanded` | tests/test_makefile_recipes.py:65-69 | `$$(B)` with B assigned: make hands the shell `$(B)`, the code the value after a dollar |
| `Cases.EscapedUnknownIsMeant` | tests/test_makefile_recipes.py:68-69 | `$$(X)` with X unknown comes out as `$(X)`, as make has it |
| `Cases.DisguisedTrap` | tests/test_makefile_recipes.py:65-69 | a value that begins with a bracket can make a trap come out right by chance |
| `Cases.SubstitutionIsMeant` | Makefile:196-198 | a command substitution that a plain variable begins is handed over as make means it |
| `Cases.SbomIsMeant` | Makefile:197 | so is the loop over images |
| `Dockerfile.Instructions` | tests/test_image_contract.py:38-60 | the loop over `pending`, `start` and `joined` reads the groups of the kept lines |
| `Dockerfile.ResumeStep` | tests/test_image_contract.py:49-59 | what one line does to what will have been read at the end |
| `Dockerfile.GroupingIsUnique` | tests/test_image_contract.py:41-43 | the grouping is the only way to cut the kept lines into runs ended by a line that does not continue |
| `Dockerfile.GroupingCutsTheLines` | tests/test_image_contract.py:41-43 | the groups in order, and a dangling rest, are all the kept lines |
| `Dockerfile.ReadingIsByGroup` | tests/test_image_contract.py:54-58 | one instruction for each group, in order |
| `Dockerfile.DanglingYieldsNothing` | tests/test_image_contract.py:55-56 | a continuation no line ends yields nothing and disturbs nothing before it |
| `Dockerfile.StartsIncrease` | tests/test_image_contract.py:48-54 | start lines are lines of the file and strictly increase |
| `Dockerfile.WrappingReadsBack` | tests/test_image_contract.py:41-60 | however an instruction is wrapped, with comments and blanks between, its words are what is read, from its first line with words |
| `Dockerfile.FileReadsBack` | tests/test_image_contract.py:38-60 | a file of wrapped instructions reads as those instructions |
| `Dockerfile.RewrappingChangesNothing` | tests/test_image_contract.py:41-43 | re-wrapping never changes a directive or an argument |
| `Dockerfile.CommentSignAtALineStart` | tests/test_image_contract.py:50-51 | why the condition is needed: a word with a comment sign moved to its own line is lost and the next instruction is swallowed |
| `Braces.CloseIsUnique` | tests/test_makefile_mirror.py:800-810 | there is at most one first return to depth zero |
| `Braces.ClosesExactly` | tests/test_makefile_mirror.py:800-810 | a closing brace closes an opening one if and only if what is between them is balanced |
| `Braces.LeftOutExactly` | tests/test_makefile_mirror.py:802-810 | an arm is missing if and only if the depth never returns to zero after its opening brace |
| `Braces.NestedIsBalanced` | tests/test_makefile_mirror.py:795-797 | properly nested blocks print to balanced text |
| `Braces.BalancedIsNested` | tests/test_makefile_mirror.py:795-797 | and all balanced text is the print of properly nested blocks |
| `Braces.BodyReadsBack` | tests/test_makefile_mirror.py:802-810 | an arm printed between any two texts gives its body back if and only if the body is balanced |
| `PowerShell.HeadsAreApart` | tests/test_makefile_mirror.py:801 | heads never overlap: none starts before another has ended |
| `PowerShell.HeadsAreAll` | tests/test_makefile_mirror.py:801 | looking on from the end of each match misses none: the heads found are those at every place of the text, in order |
| `PowerShell.Arms` | tests/test_makefile_mirror.py:792-811 | the search for heads and the depth loops give each target its last closed body; arms never closed are not there |
| `PowerShell.BodiesAreBalanced` | tests/test_makefile_mirror.py:792-811 | every extracted body is balanced, ends at its first return to depth zero, and is that of the last closed arm of its target |
| `PowerShell.HeadIsFound` | tests/test_makefile_mirror.py:801 | a head printed at the start of a line is found there, with its target and its end |
| `PowerShell.HeadExactly` | tests/test_makefile_mirror.py:801 | there is a head at a place if and only if a line starts there with four characters of white space, a quoted target of small letters and dashes, white space and a brace |
| `PowerShell.FileReadsBack` | tests/test_makefile_mirror.py:792-811 | text printed from arms with balanced bodies gives every body back, a later arm of a target in place of an earlier one, when nothing else in it is a head |
| `Payload.PayloadIsBorderFree` | tests/stackops.py:39 | no proper part of the marker is both its beginning and its end |
| `Payload.OverlapIsABorder` | tests/stackops.py:39 | two occurrences of a marker that overlap give it a border |
| `Payload.LastMarkerExactly` | tests/stackops.py:49 | a fence is where the last marker is found if and only if no whole marker lies after it |
| `Payload.BordersStraddle` | tests/stackops.py:39 | which is true of border-free markers only |
| `Payload.FencedReadsBack` | tests/stackops.py:42-62 | a self-delimiting document is read whatever is printed before it and whatever marker-free text after it |
| `Payload.ReadsAfterTheLastMarker` | tests/stackops.py:49-62 | output with a marker has one cut at the last one, and what follows it, left-stripped, is what is decoded |
| `Payload.NoMarkerExactly` | tests/stackops.py:50-54 | the missing-marker error is raised exactly when no marker was printed |

## Left out

- Containers that fail, exit non-zero or become unhealthy during a start: the start-up machine has the steps start, become healthy and finish.
- A provisioner run again while its waiters are up: the envelope theorems are about a cold start.
- Memory and CPU texts and their units: sizes are natural numbers of KiB and thousandths of a CPU, so floating point is not modelled.
- The contents of the compose file itself: the theorems are about every file of its form, and the rest of the contract tests (tags, ports, mounts, literals) are not modelled.
- Compose's own resolution of a variable is taken to be `effective_value`, as that function's description promises; the `:?` refusal of an empty value is modelled, interpolation is not.
- Volumes without a fingerprint, beyond the unknown verdict that admits them; half-initialised data directories; an init script that could draw no salt; `POSTGRES_DB` and the Airflow password, which the fingerprint does not cover.
- SHA-256: a function parameter, injective and with hexadecimal results where a lemma says so. Encoding text to bytes before hashing, which can raise, is not modelled.
- The wording of every message, and the list of first-initialisation variables printed beside a verdict.
- `classify_docker_state` and the probing of the daemon: its answer is an input.
- Subprocess calls, HTTP, S3 and real files: the disk, the servers and the daemon's answers are values or fields. Writes that fail are not modelled, nor are files that are not UTF-8.
- The YAML, JSON and regular-expression engines: parsed documents are values. Only the advisory shape, the heads of PowerShell arms and references in a recipe are matched by hand.
- Unicode case mapping: `str.upper` is a parameter of the Dockerfile reader.
- The text of the baseline's header: any comment lines.
- `subject_count`, the doctor's `render`, and the rest of what the programs print.
- `recipes` and `assignments`: what they read off the Makefile is the input to expansion. Make's automatic variables, functions and one-character variables are outside what it claims to expand, and the meaning of a recipe is stated for texts without them; an unknown variable means the harmless word there, where make has nothing.
- Deleted experiments and MLflow's soft deletion; more than one param or metric; artifacts.
- The cluster tests, chart templates, workflow checks and exception expiry dates.
