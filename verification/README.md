# What the case server promises, proved

A Dafny model of the parts of the server whose correctness depends on order and
on what runs beside them, and proofs of what those parts keep.

- **The sign-in lockout.** Each account has two runs of failed sign-ins, one for
  callers at addresses its right password has come from and one for everybody
  else. `Lockout` is one run, `FamiliarAddresses` the addresses and their daily
  prune, `SignIn` the tables and every statement on them. `SignInHistories` and
  `SignInLocks` speak of every history of whole password checks on a clock that
  never goes back; `SignInRaces` cuts a check into its statements and lets any
  number of them interleave, each with a moment of its own.
- **Who administers the install.** `AccountActs` has the queue of each process,
  the install-wide lock its turns contend for and time out on, and every
  statement of a disable, an enable and a role change, while accounts are
  created beside them. `FirstClaim` has the claims of a fresh install racing one
  another. `SessionSweep` is the ending of every session.
- **Who reaches what.** `ReachGrants` has the four writes that change an
  analyst's reach, and the announcements that follow them.
- **The case archive.** `ArchiveNames` and `ArchiveFormat` are the container,
  `CaseExport` what an export carries, `CaseRecord` and `CaseImport` the one
  pass that reads a case in, `ImportedReferences`, `ImportedCase` and
  `ImportedFields` what that pass makes of it, `CaseHandover` the way from one install to another, and
  `ImportInputs` two records at which an import's answers surprise.
- **Two refinements.** `SnapshotParser` reads an ARIA snapshot with a stack,
  against the tree its indents describe; `Attribution` scans the change feed
  newest first, against its replay in the order it was written.

State the server keeps in rows is kept here in the fields of classes, whose
methods take the source's steps and are each proved against a function of the
old state; the properties are lemmas about those functions and about the
machines that interleave their statements.

## What turned out otherwise

Some things one might expect of the code, or that its own text says, do not hold
as they stand. Each has a lemma with an input at which it fails, and one with
exactly when it holds.

1. *Strangers' wrong passwords touch nothing familiar.* They do touch one thing:
   a holder who signs in from a new address while the strangers' run is shut is
   refused, and the address does not become familiar.
   Input: `AStrangerKeepsANewAddressUnfamiliar`. Condition:
   `StrangersDisturbOnlyNewAddresses`: the familiar runs, the familiar addresses
   and every familiar caller's answer are undisturbed if and only if no right
   password from a new address meets a shut run.
2. *A disable is never refused as leaving no administrator.* Creating an account
   is not one of the serialised acts, so an administrator created between the
   roster and the target's lookup is refused as the last one, though the caller
   administers. Input: `AJustCreatedAdministratorReadsAsTheLast`. Condition:
   `DisablingStrandsOnlyTheJustCreated`: over every run, refused if and only if
   the caller was the only enabled administrator when its act read the roster and
   the target was created an administrator after that.
3. *`missingFiles` counts digests*, says the answer's description
   (`server/src/case-archive/import.service.ts:246`). The code counts evidence
   rows. Input: `TwoRowsOfOneDigestCountTwice`. Condition:
   `EachUnheldDigestIsARow`, carried to the answer itself by
   `AHandoverAccountsForEveryArtefact`: the count is the digests' if and only if
   no digest that is not held is named by two rows, and is never less.
4. *`unresolvedReferences` counts the ids no row of the archive has.* Input:
   `ALaterRowCountsAsUnresolved`, a system naming the id of an evidence row.
   Condition: `UnresolvedAreTheAbsent`: it does if and only if no row names one
   written no sooner, which references to earlier tables alone ensure
   (`TheTableOrderSuffices`).
5. *An accepted archive holds what its manifest lists and nothing else.* Reading
   a zip assigns each file to a plain object by its name, and a file named
   `__proto__` makes no key there but sets the object's prototype, so it need not
   be listed, and neither need a name behind it that its bytes ignore; and a
   manifest that states its files as a list owns a `length`.
   Inputs: `AnUnlistedPrototypeIsAccepted`, `ALengthBesideAListIsAccepted` and
   `AnIgnoredFileIsAccepted`. Condition, on the zip's directory:
   `AnAcceptedArchiveIsItsManifest`. What is read out of an archive never
   includes a file named `__proto__` (`WhatIsKeptWasCarried`).
6. *What is packed is read back.* Input and condition are one,
   `UnpackInvertsPack`: it is if and only if no member is named `__proto__`.
   Every export keeps to that (`EveryMemberIsKept`).

## Model

| member | source | states |
|---|---|---|
| Lockout.PolicyFrom | server/src/auth/lockout.ts:21-28 | the threshold and the first lock are the settings', and the longest lock is its setting where that is no shorter than the first, and the first lock's length otherwise |
| Lockout.DoubledIsAPower | server/src/auth/auth.config.ts:299-302 | the repeated doubling a lock's length is taken from is a power of two times the minutes |
| Lockout.ALockLasts | server/src/auth/auth.config.ts:299-302 | a lock lasts the first one's minutes times two to the power of the locks before it, thirty-two at most, and no more than the longest; each is twice the one before it or the longest, and the same as the one before past the thirty-third |
| Lockout.LocksOnlyLengthen | server/src/auth/auth.config.ts:299-302 | the first lock is the install's minutes; no later lock is shorter than an earlier one, and none passes the longest |
| Lockout.MissesAreTheLatestCounted | server/src/auth/auth.config.ts:277-288 | over any offers at any times, across locks, a run remembers exactly the latest three wrong passwords it counted, in order |
| Lockout.ThreeWrongPasswordsCountAtMostOnceEach | server/src/auth/auth.config.ts:279-288 | any offers drawn from three wrong passwords, from any run, raise the count by at most one for each, for as long as the row is kept |
| Lockout.FewPasswordsCountOnce | server/src/auth/lockout.ts:57-58 | the induction behind it: what such offers get counted never repeats a password counted before |
| Lockout.FourWrongPasswordsCountAgain | server/src/auth/lockout.ts:57-58 | three is exact: four passwords in turn get the first counted a second time |
| Lockout.OffersKeepPendingFrom | server/src/auth/auth.config.ts:281-286 | with the threshold at n, a run is pending exactly from n failures on, whatever is offered |
| Lockout.BackOffBoundsGuessing | server/src/auth/auth.config.ts:277-304 | one policy, a clock that never goes back: the run's columns count the locks that fell and the failures that made them; the k-th lock lasts its doubled term, twice the one before it or the longest, and comes no sooner than all earlier locks have run out; and the failures counted while open are between n and n more than n for each lock |
| Lockout.EnoughWrongPasswordsLock | server/src/auth/auth.config.ts:277-304 | once no lock lasts, as many different wrong passwords as the threshold lock the run at the last of them, for its next term, whenever they are offered |
| Lockout.ALockedRunStandsStill | server/src/auth/auth.config.ts:287-288 | while a lock lasts nothing is counted, remembered or extended |
| FamiliarAddresses.TakingCountsTheRowsAhead | server/src/auth/lockout.ts:46-55 | a row is in the first n of the sorted query exactly when fewer than n rows are ahead of it |
| FamiliarAddresses.FamiliarWhenFewAreNewer | server/src/auth/lockout.ts:46-55 | an address is familiar exactly when it is in date and fewer than twenty of all the account's rows are newer, in date or not |
| FamiliarAddresses.PruneKeepsExactlyTheFamiliar | server/src/auth/familiar-address-prune.ts:33-47 | right after a prune the table holds exactly the addresses the query counts at that moment |
| FamiliarAddresses.PruneLeavesAtMostTwenty | server/src/auth/familiar-address-prune.ts:37-47 | and no more than twenty for any account |
| FamiliarAddresses.PruneKeepsTwentyAhead | server/src/auth/familiar-address-prune.ts:40-45 | a place outranked by twenty rows is outranked by twenty rows that the same prune keeps |
| FamiliarAddresses.PrunedTablesAnswerAlike | server/src/auth/lockout.ts:46-55 | a table pruned in the past and one never pruned answer every later question alike |
| FamiliarAddresses.RenewalsKeepPrunedBehind | server/src/auth/auth.config.ts:242-250 | a right password keeps them alike |
| FamiliarAddresses.PrunesKeepPrunedBehind | server/src/auth/familiar-address-prune.ts:33-47 | so does a further prune |
| FamiliarAddresses.WhatIsCounted | server/src/auth/lockout.ts:36-55 | on the rows themselves: an address is familiar, and its row kept by the prune, exactly within ninety days of its right password and with fewer than twenty of the account's rows later, or as late and before it |
| FamiliarAddresses.ARightPasswordMakesItsAddressFamiliar | server/src/auth/auth.config.ts:242-250 | a right password later than the account's others makes its address familiar for exactly ninety days, and leaves every other row as it was |
| SignIn.SignInTables.CountAgainst | server/src/auth/auth.config.ts:264-328 | the upsert, and the pending lock taken with its line or rolled back to the counted run, as one function of the old tables |
| SignIn.SignInTables.StartAgain | server/src/auth/auth.config.ts:217-252 | a yes exactly where the run's row has no pending lock and none that lasts past `now`; then that run goes and its address becomes familiar, and otherwise nothing changes |
| SignIn.SignInTables.CheckPassword | server/src/auth/auth.config.ts:137-154 | a yes if and only if the password is the account's and its run is absent, or has no lock pending and none that lasts past `now`; and all four tables after the check, over every branch |
| SignIn.WhatACheckDoes | server/src/auth/auth.config.ts:137-154 | the same on the rows: a yes forgets that run and dates the caller's address, a no leaves the addresses and a run whose lock lasts, no check touches another run or address, and any other answer is one offer to the run |
| SignIn.SignInTables.Clear | server/src/auth/lockout-clear.service.ts:22-26 | neither run of the account is left, and every other account's runs are as they were |
| SignIn.AReleaseLetsTheAccountIn | server/src/auth/lockout-clear.service.ts:22-26 | a released account's own password is let in from every address at every time, no other account's run has moved, and nothing else has either |
| SignIn.SignInTables.PruneAddresses | server/src/auth/familiar-address-prune.ts:33-61 | the rows removed, and one line with how many they were and of how many accounts; nothing at all where the line does not land |
| SignInHistories.PruningIsInvisible | server/src/auth/familiar-address-prune.ts:33-61 | prunes anywhere in any history change no answer, no run, no lock line, and no later question about any address |
| SignInHistories.HistoriesStayAlike | server/src/auth/auth.config.ts:186-252 | the simulation behind it, between a pruned and an unpruned store, event by event |
| SignInHistories.StrangersDisturbOnlyNewAddresses | server/src/auth/auth.config.ts:186-210 | beside a side that starts with nothing counted against strangers and otherwise alike, taking strangers' wrong passwords out of a history leaves familiar runs, familiar addresses and every familiar caller's answer unchanged at every point, if and only if no right password from a new address met a shut run |
| SignInHistories.UndisturbedToTheEnd | server/src/auth/auth.config.ts:186-210 | and then the shortened history ends with the same familiar runs and addresses |
| SignInHistories.AStrangerKeepsANewAddressUnfamiliar | server/src/auth/auth.config.ts:217-252 | the two events in which one wrong password from elsewhere keeps a holder's new address unfamiliar |
| SignInLocks.RunsMoveByOffers | server/src/auth/auth.config.ts:264-328 | over any history a run that is not forgotten moves by exactly the offers made to it |
| SignInLocks.FewWrongPasswordsCountOnceOverAHistory | server/src/auth/auth.config.ts:279-288 | whatever else happens to the install, three wrong passwords for one account are counted at most once each in each run |
| SignInLocks.RunsRememberFew | server/src/auth/auth.config.ts:286 | no history makes any run remember more than three misses |
| SignInLocks.AHistoryCannotOutpaceTheBackOff | server/src/auth/auth.config.ts:289-304 | whatever a history does to a run from its first failure, its locks last their doubled terms, each after the one before has run out, and its columns and its counted failures are as those bounds say |
| SignInLocks.ALockAndItsLineComeTogether | server/src/auth/auth.config.ts:289-326 | a lock falls with one line carrying its failures and minutes, or neither happens and the counted run stands |
| SignInLocks.EveryLockHasItsLine | server/src/auth/auth.config.ts:289-326 | over any history, as many locks are taken, counted on the runs, as `account_locked` lines are written |
| SignInLocks.NeverPendingAndLocked | server/src/auth/auth.config.ts:147-152 | over any history no run is ever both pending and locked |
| SignInLocks.APendingRunAdmitsNobody | server/src/auth/auth.config.ts:147-152 | until a line lands or the account is released, a pending run stays pending, loses no failure and lets nobody in |
| SignInLocks.TheNextLineTakesTheLock | server/src/auth/auth.config.ts:289-326 | every answer in a pending run tries the lock, and the first whose line lands takes it at its place in the back-off |
| SignInLocks.EnoughGuessesShutTheRun | server/src/auth/auth.config.ts:137-154 | over a history: as many different wrong passwords as the threshold, from callers of no known address, shut the account's run for strangers for its next term |
| SignInLocks.ALockEnds | server/src/auth/lockout.ts:31-33 | a lock holds to its end and no further: after any history before it ends the right password in that run is refused before that moment and let in from it on, with no lock pending |
| SignInRaces.AnUninterruptedCheckIsAtomic | server/src/auth/auth.config.ts:137-154 | the four statements of a password check, uninterrupted, do what the whole check does and answer what it answers |
| SignInRaces.AYesIsDecidedOnAnOpenRun | server/src/auth/auth.config.ts:217-240 | in every interleaving, a yes was decided at a step where the run was absent, or neither pending nor locked as of that call's own moment |
| SignInRaces.StepsKeepTheThreshold | server/src/auth/auth.config.ts:277-288 | in every interleaving with the threshold at n, every run is pending exactly when it holds at least n failures |
| SignInRaces.NoYesAtTheThreshold | server/src/auth/auth.config.ts:217-240 | so every yes is decided, and every step that decides one finds the run absent or holding fewer than n failures |
| SignInRaces.RacesMoveRunsByOffers | server/src/auth/auth.config.ts:277-326 | no concurrent failure is lost: a run not deleted is the offers that landed, applied one by one |
| SignInRaces.RacesRememberTheLatest | server/src/auth/auth.config.ts:286 | whatever interleaves, such a run remembers exactly the latest three it counted |
| SignInRaces.RacingFewPasswordsCountOnce | server/src/auth/auth.config.ts:277-288 | three wrong passwords are counted at most once each however their checks interleave |
| AccountActs.AccountRows.ChangeBanned | server/src/auth/account-lookup.service.ts:122-130 | changed exactly when the table changed, missing exactly when nobody has the id |
| AccountActs.AccountRows.ChangeRole | server/src/auth/account-lookup.service.ts:137-143 | the same, and the role answered is the one held before |
| AccountActs.AccountRows.Disable | server/src/accounts/accounts.controller.ts:331-372 | alone in its turn a disable is never refused as stranding; it is made exactly by an enabled administrator for another existing account, which is then disabled, nothing else changing |
| AccountActs.AccountRows.Enable | server/src/accounts/accounts.controller.ts:377-392 | made exactly by an enabled administrator for an existing account, which is then enabled, nothing else changing |
| AccountActs.AccountRows.ChangeRoleOf | server/src/accounts/accounts.controller.ts:403-462 | made exactly for an existing account by a caller who still administers and does not give up its own role, and then that role is the account's and nothing else changes; otherwise refused as stranding exactly where that caller is the only one enabled, and as its own account exactly where it is not |
| AccountActs.AStatementIsSound | server/src/accounts/accounts.controller.ts:331-462 | every statement of every act keeps what the act relies on, and never takes the last administrator |
| AccountActs.AnInstallStaysAdministered | server/src/auth/account-lookup.service.ts:93-110 | for any processes, queues, timeouts and failures: one act at a time, and once an account has the administrator's role and is not disabled one does in every reachable state |
| AccountActs.ACompletedActLeavesItsCallerInCharge | server/src/accounts/accounts.controller.ts:140-142 | the caller of every act that was made still administers when it ends |
| AccountActs.AMadeActHasItsWay | server/src/accounts/accounts.controller.ts:359-461 | over every run, an act that ends made leaves its target there and disabled, enabled, or in the role given, and its caller an administrator and not disabled |
| AccountActs.AStepTouchesOnlyItsTarget | server/src/auth/account-lookup.service.ts:122-143 | no step removes an account or adds any but the one it creates; what it changes of one is the running act's target alone, and of that only what the act is about |
| AccountActs.AnUninterruptedTurnIsItsAct | server/src/accounts/accounts.controller.ts:331-462 | a turn nothing interrupts leaves the accounts, and ends, as `AccountRows`' method for that act does |
| AccountActs.ActsAreTakenInOrder | server/src/auth/account-lookup.service.ts:93-110 | a process takes its acts up in the order it is given them and loses none |
| AccountActs.DisablingStrandsOnlyTheJustCreated | server/src/accounts/accounts.controller.ts:335-357 | over every run from an idle install, a disable that resolves its target ends refused as stranding if and only if its caller was the only enabled administrator when this act read the roster, and the target was created an administrator after that read |
| AccountActs.GivingARoleStrandsOnlyTheAloneOrTheJustCreated | server/src/accounts/accounts.controller.ts:414-429 | over every run, a role change does if and only if it gives another role, its caller was the only enabled administrator when this act read the roster, and the target is the caller or was created an administrator after that read |
| AccountActs.DisablingStrandsOnlyTheUnlisted | server/src/auth/last-admin.ts:31-41 | in any sound state with its roster in hand, a disable is refused as stranding exactly for another account that administers and is not listed, with the caller alone enabled on the roster |
| AccountActs.EveryRosterWasListed | server/src/auth/account-lookup.service.ts:71-82 | over every run, a roster in hand is the install's administrators as they stood at the step this same act read them |
| AccountActs.AccountsSinceTheListing | server/src/auth/account-lookup.service.ts:93-110 | from that step on, the accounts are those there were, unchanged, and exactly those created since |
| AccountActs.WithoutCreationNoDisableStrands | server/src/accounts/accounts.controller.ts:335-357 | over any steps without an account created, no disable is refused as stranding |
| AccountActs.AJustCreatedAdministratorReadsAsTheLast | server/src/accounts/accounts.controller.ts:335-357 | seven steps from an idle install, from the act's submission to its refusal, in which a disable is, with two administrators standing |
| FirstClaim.Setup.Claim | server/src/auth/setup.controller.ts:141-216 | alone, a claim wins exactly on an empty install with the right token and the claim untaken; one that does not win leaves no account and the token as it was |
| FirstClaim.RacesStayFair | server/src/auth/setup.controller.ts:141-216 | in every interleaving each account is one live claim's, at most one claim has won, its account stands and administers, and nobody is refused before somebody stands |
| FirstClaim.AtMostOneClaimWins | server/src/auth/setup.controller.ts:186-215 | at most one claim is ever told it won, and it is signed in to its own account |
| FirstClaim.OneAccountIsLeft | server/src/auth/setup.controller.ts:186-202 | when every claim has its answer exactly one account stands, the winner's, an administrator, and everybody else was refused |
| FirstClaim.NothingRemovesTheWinner | server/src/auth/setup.controller.ts:192-202 | no step, a loser's delete of an equal or another address included, takes the winner's account or role |
| FirstClaim.AWonInstallShutsOutLaterClaims | server/src/auth/auth.config.ts:670-677 | once a claim has won, a claim that had not been signed up by then never makes an account, however the race goes on, and no answer but a refusal ever reaches it |
| FirstClaim.AnUninterruptedClaim | server/src/auth/setup.controller.ts:141-216 | a claim nothing interrupts wins exactly on an install with no account, its process's token standing and the claim untaken, leaves its own administrator's account, and otherwise leaves the accounts as they were |
| FirstClaim.TheFirstAccountAdministers | server/src/auth/auth.config.ts:97-100 | a new account is an administrator's exactly where it is the first or asked for as one |
| SessionSweep.CallerLastIsAPermutation | server/src/accounts/rules.ts:63-65 | the order holds exactly the holders, as often as they were given, with nobody but the caller after the caller |
| SessionSweep.OnlyTheLastIsTheCaller | server/src/accounts/rules.ts:63-65 | with each holder once, nobody before the last is the caller |
| SessionSweep.Sessions.EndOneAccountsSessions | server/src/accounts/accounts.controller.ts:201-213 | the line first; without it no session ends |
| SessionSweep.Sessions.EndEverySession | server/src/accounts/accounts.controller.ts:174-191 | never refused for want of the caller's session; the accounts ended are a prefix of the order, each with its line, and at the first line that does not land that account and all later ones keep their sessions |
| ReachGrants.GroupTables.GrantMembership | server/src/access/groups.service.ts:90-102 | the membership holds that level and every other stands; the analyst is announced exactly where there was none or another level |
| ReachGrants.GroupTables.RevokeMembership | server/src/access/groups.service.ts:111-118 | the membership is gone and every other stands; the analyst is announced exactly where there was one |
| ReachGrants.GroupTables.HoldCustomer | server/src/access/groups.service.ts:125-133 | the group holds the customer and every other holding stands; every member is announced exactly where it did not before |
| ReachGrants.GroupTables.ReleaseCustomer | server/src/access/groups.service.ts:142-151 | the group does not hold the customer and every other holding stands; every member is announced exactly where it did before |
| ReachGrants.GroupTables.AnnounceEveryMember | server/src/access/groups.service.ts:158-164 | exactly the group's members are announced |
| ReachGrants.WhatAWriteDoes | server/src/access/groups.service.ts:90-151 | each of the four writes leaves exactly what it asks for and every other row as it was, and returns a row exactly where the tables change |
| ReachGrants.StrongestIsTheMostPermissive | server/src/access/reach.service.ts:33 | reading ranks below writing and writing below deleting; the level an analyst holds is one some group gives, and none gives more |
| ReachGrants.AnAlterationIsOwed | server/src/access/groups.service.ts:90-151 | a write that changes an analyst's strongest level leaves its call owing them an announcement |
| ReachGrants.ADebtLastsUntilSaid | server/src/access/groups.service.ts:153-164 | what is owed stays owed until it is said, an analyst taken out before the members are read included |
| ReachGrants.NoReachChangeGoesUnannounced | server/src/access/groups.service.ts:90-164 | in every interleaving each change of an analyst's strongest level on a customer is followed by an announcement to them once all calls have finished |
| ReachGrants.NobodyIsToldWithoutCause | server/src/access/groups.service.ts:90-164 | in every interleaving whoever is to be told is told for cause: the call's write changed something, and it was their membership or they were of the group when the call read its members |
| ArchiveNames.SplitIsFaithful | server/src/archive/format.ts:114 | the components joined are the name, and none holds a slash |
| ArchiveNames.ASafeNameStaysInside | server/src/archive/format.ts:109-121 | a safe name starts at no root and no drive and holds no NUL, and followed component by component, cut at slashes and backslashes alike, never climbs above where it is written |
| ArchiveNames.SafeIsHarmless | server/src/archive/format.ts:109-121 | character by character: a name is safe if and only if it has between one and 512 characters, no slash in front, no drive, no backslash, no NUL, and nowhere two dots between slashes or ends |
| ArchiveNames.ByNameIsAStrictTotalOrder | server/src/archive/format.ts:72-73 | given only that `localeCompare` is a weak order, distinct names never tie, and the order is antisymmetric and transitive |
| ArchiveNames.ByNameAsksTheLocaleFirst | server/src/archive/format.ts:72-73 | the locale decides where it can; where it ties, the first character to differ does, or the shorter name |
| ArchiveNames.SortIgnoresInputOrder | server/src/archive/format.ts:142-145 | names are listed one way whatever order they come in |
| ArchiveNames.OneOrderOnly | server/src/archive/format.ts:142-145 | and by any sort: two lists in order with the same names are the same list |
| ArchiveFormat.Pack | server/src/archive/format.ts:123-157 | refused exactly where some member's name is harmful in its characters |
| ArchiveFormat.TheManifestIsCanonical | server/src/archive/format.ts:139-146 | the same members and the same missing names, in any order, make the same manifest |
| ArchiveFormat.WhatIsPacked | server/src/archive/format.ts:147-156 | each member in its place with its bytes; one of the manifest's own name gives way to the manifest, which otherwise comes last |
| ArchiveFormat.WhatAManifestStates | server/src/archive/format.ts:139-146 | version one, whether the files travel, the missing names in order and as often as given, and, once and in order, the name of each member but one named `__proto__`, with the digest of its bytes |
| ArchiveFormat.CheckBounds | server/src/archive/format.ts:186-201 | passes exactly a directory of at most ten thousand entries, each no larger than a member may be and of a name harmless in its characters, and together within the total |
| ArchiveFormat.SizesAddUp | server/src/archive/format.ts:190-198 | the total is the entries' sizes, each counted once |
| ArchiveFormat.CheckManifest | server/src/archive/format.ts:241-257 | passes exactly when every listed name is found with its digest and every key read is the manifest's own or owned by its files |
| ArchiveFormat.Inflate | server/src/archive/format.ts:203-206 | each file assigned to its name, `__proto__` included, and refused as soon as one cannot be read or kept |
| ArchiveFormat.Unpack | server/src/archive/format.ts:168-260 | accepts exactly the archives within every bound whose files, assigned by name as an object takes them, are as the manifest says, and gives back that object |
| ArchiveFormat.AcceptanceIsOnTheDirectory | server/src/archive/format.ts:168-260 | acceptance read off the directory alone: the bounds, every file taken, the last manifest kept, of version one and complete, each file it lists found with its digest, and each name kept listed |
| ArchiveFormat.AnAcceptedArchiveIsItsManifest | server/src/archive/format.ts:203-257 | an accepted zip's files are the manifest's and the manifest itself if and only if, on its directory, no file named `__proto__` goes unlisted, no name behind one is ignored, and no unlisted file named `length` stands beside a list |
| ArchiveFormat.WhatIsReadIsListed | server/src/archive/format.ts:214-259 | the members read out of an accepted archive are the manifest's and the manifest itself if and only if it lists no `__proto__` and, of the names the directory keeps, no unlisted `length` stands beside a list |
| ArchiveFormat.WhatIsOpened | server/src/archive/format.ts:203-206 | without reading: the files are taken if and only if each can be read and none is thrown at by the prototype before it; the keys are then exactly the names some file of which comes before any `__proto__` or is let by the last before it, each holds its last file, and the prototype is the last `__proto__` |
| ArchiveFormat.WhatIsKeptWasCarried | server/src/archive/format.ts:203-206 | every name kept was a file of the zip, `__proto__` is never one, and without a file of that name every file is kept |
| ArchiveFormat.AnUnlistedPrototypeIsAccepted | server/src/archive/format.ts:203-259 | at its own sizes, wherever it fits the limits, a zip of a manifest listing nothing and a file named `__proto__` is accepted, and only the manifest is read out of it |
| ArchiveFormat.ALengthBesideAListIsAccepted | server/src/archive/format.ts:228-257 | at its own sizes, wherever it fits the limits, a zip of a manifest whose files are an empty list and a file named `length` is accepted, and the file is read |
| ArchiveFormat.AnIgnoredFileIsAccepted | server/src/archive/format.ts:203-257 | so is one whose manifest lists `__proto__` alone and which carries, behind it, a file of a name its bytes ignore: it is neither listed nor read |
| ArchiveFormat.UnpackInvertsPack | server/src/archive/format.ts:123-260 | members with safe names, none of them the manifest's, within the limits, are accepted back and unchanged with the manifest that was written, if and only if none is named `__proto__` |
| CaseExport.EvidenceArtefacts | server/src/case-archive/export.service.ts:134-162 | each digest a row says is held is carried once with the store's bytes or, absent from the store, named once |
| CaseExport.FigureArtefacts | server/src/case-archive/export.service.ts:163-169 | a report's figures are carried where held, none twice, none named lost |
| CaseExport.ArtefactsOf | server/src/case-archive/export.service.ts:132-171 | both together, and nothing carried or named where the files were not asked for |
| CaseExport.EachLossIsNamedOnce | server/src/case-archive/export.service.ts:145-160 | no digest is named lost twice, the lost are exactly the recorded that the store has not got, and the list is as long as they are many |
| CaseExport.EveryDigestIsAccountedFor | server/src/case-archive/export.service.ts:134-169 | on the rows themselves: every digest a row says is held is carried under `evidence/` with the store's bytes, or the name of its first row, or the digest where that has none, is listed; figures are carried where the store has them; nothing else is carried or listed |
| CaseImport.Remapped | server/src/case-archive/import.service.ts:214-234 | a scalar's known id is the id its row was written under and an unknown one null; a list holds the ids of its known items, each where its item stands among them; and the unknown ids are answered likewise |
| CaseImport.MappedItemsSay | server/src/case-archive/import.service.ts:218-229 | the same of the list's two halves, as an induction over the items |
| CaseImport.CarryFields | server/src/case-archive/import.service.ts:428-436 | the fields carried, and exactly the ids they name that no row so far has |
| CaseImport.LoadOneRow | server/src/case-archive/import.service.ts:413-503 | one row against every table the loop keeps, or its refusal |
| CaseImport.LoadTable | server/src/case-archive/import.service.ts:405-503 | a table's rows after those of the tables before it, refused as soon as one is |
| CaseImport.LoadEveryRow | server/src/case-archive/import.service.ts:405-504 | the nested loops are the one pass over the rows in table order |
| CaseImport.Load | server/src/case-archive/import.service.ts:295-302 | of a record already read: the ceiling before any row, then the rows, then every lifecycle |
| ImportedReferences.RenamingIsInjective | server/src/case-archive/import.service.ts:499 | with fresh ids, no two archive ids become one |
| ImportedReferences.AValueUnderPart | server/src/case-archive/import.service.ts:214-234 | a value reads the same under part of a renaming exactly when the part has all of its ids that the whole has |
| ImportedReferences.EachRowIsReadAmongEarlier | server/src/case-archive/import.service.ts:428-436 | each row is written as it reads among the rows before it |
| ImportedReferences.ImportRenamesTheGraph | server/src/case-archive/import.service.ts:405-503 | with distinct ids, every row is written as the whole archive's renaming of it if and only if no row names one written after it |
| ImportedReferences.UnresolvedAreTheAbsent | server/src/case-archive/import.service.ts:346-348 | the unresolved ids are exactly those named that no row has, if and only if the same |
| ImportedCase.TheTableOrderSuffices | server/src/case-archive/import.service.ts:66-95 | references to earlier tables only are references to rows already written |
| ImportedCase.AnImportIsARenaming | server/src/case-archive/import.service.ts:405-567 | with distinct ids and references to earlier tables, one injective map of exactly the record's ids renames every row, and `unresolvedReferences` is how many named ids no row has |
| ImportedCase.AnImportAccountsForTheRecord | server/src/case-archive/import.service.ts:450-567 | `rows` is `rowsIn` of the record and within the ceiling; `missingFiles` is how many evidence rows name a digest not held, each left undated; every other row is as it was read |
| ImportedCase.EachRowIsLeftAsRead | server/src/case-archive/import.service.ts:460-471 | holding a report's lifecycle back until its parts are in leaves every row as it was read |
| ImportedFields.EveryReferenceIsRenamed | server/src/case-archive/import.service.ts:413-499 | with distinct ids, in each row of an import a reference naming a row before it holds the id that row was written under, one naming none is null, and a list holds the ids its known items were written under, each where its item stood among them |
| ImportedFields.EveryReferenceIsRenamedByTheWhole | server/src/case-archive/import.service.ts:405-503 | and where rows name only rows of earlier tables, so for the rows of the whole record |
| ImportedFields.SchemasNameEarlierTables | server/src/case-archive/import.service.ts:66-95 | a record that names rows only as the collections' schemas do names only rows already written |
| ImportedFields.TheTablesFollowTheirReferences | server/src/case-archive/import.service.ts:75-95 | every collection comes after those its schema points at |
| ImportedFields.WhatARowIsWritten | server/src/case-archive/import.service.ts:413-503 | each row is written under its own minted id, in its own collection, with exactly the fields an import takes over, each as judged, but for an absent file's date and a report's lifecycle |
| ImportedFields.WhatIsNamed | server/src/case-archive/import.service.ts:436-445 | the ids a row names are those in the reference fields taken over, scalar or listed |
| ImportedFields.AnImportIsRefusedForCause | server/src/case-archive/import.service.ts:295-302 | too many rows exactly past the ceiling, and otherwise imported exactly where every row stands with its shape, the store takes each as first offered, an absent file undated and a report with no lifecycle yet, and every report's lifecycle may stand |
| ImportedFields.EveryRowHasItsPlace | server/src/case-archive/import.service.ts:405-413 | every row of every table is taken, table after table, in the record's order |
| ImportedFields.NoRowIsMadeUp | server/src/case-archive/import.service.ts:405-413 | and every row taken is one of those |
| CaseHandover.StoreArtefacts | server/src/case-archive/import.service.ts:323-341 | the digests held are exactly those of the members named under `evidence/`, each stored under its own |
| CaseHandover.WhatIsExportedArrives | server/src/case-archive/export.service.ts:132-177 | an export is accepted if and only if it fits the limits, and then the digests held are exactly the stored ones that a row records or a figure names where the files travel, and its manifest says whether the files travelled and names each recorded digest not stored once |
| CaseHandover.EveryMemberIsKept | server/src/case-archive/export.service.ts:95-171 | no member of an export has the manifest's name or `__proto__`, and only its artefacts are evidence |
| CaseHandover.MissingAreTheUnheldEvidence | server/src/case-archive/import.service.ts:450-458 | the rows counted missing over every table are exactly the evidence rows naming a digest not held |
| CaseHandover.WhatIsUnheld | server/src/case-archive/import.service.ts:450-455 | a row is counted on the digest it states itself |
| CaseHandover.EachUnheldDigestIsARow | server/src/case-archive/import.service.ts:450-458 | the digests named and not held are no more than the rows naming one, and as many if and only if no such digest is named by two rows |
| CaseHandover.AHandoverAccountsForEveryArtefact | server/src/case-archive/import.service.ts:559-567 | export then import: `missingFiles` is exactly the evidence rows naming a digest not asked for or not in the store, and the number of such digests if and only if none is named by two rows; `lostAtExport` is the digests recorded and not stored, and never more than either |
| ImportInputs.TwoRowsOfOneDigestCountTwice | server/src/case-archive/import.service.ts:450-458 | two evidence rows naming any one digest that was not carried, under any ceiling that admits them: `missingFiles` is two, and one digest is not held |
| ImportInputs.ALaterRowCountsAsUnresolved | server/src/case-archive/import.service.ts:428-436 | whatever two distinct ids they have, a system whose `methodId` is an evidence row's id is written null and counted unresolved, though no id named is absent |
| SnapshotParser.LandmarkIsTheNearest | server/e2e/visual/affordance-audit.ts:300-303 | the landmark a line sits in is a landmark above it with no nearer one |
| SnapshotParser.OrdinalsCountUp | server/e2e/visual/affordance-audit.ts:304-306 | each landmark instance numbers its controls 0, 1, 2 and so on in line order |
| SnapshotParser.PoppingLeavesTheAncestors | server/e2e/visual/affordance-audit.ts:299 | popping by indent leaves exactly the lines above the new one |
| SnapshotParser.TheTopmostLandmarkIsTheNearest | server/e2e/visual/affordance-audit.ts:301-303 | the search down the stack finds the nearest landmark above the line |
| SnapshotParser.ALineIsRead | server/e2e/visual/affordance-audit.ts:299-316 | popping, finding, counting and pushing one line keeps the stack the open lines, each landmark's count the controls read in it, and the answer the tree's |
| SnapshotParser.ParseSnapshot | server/e2e/visual/affordance-audit.ts:289-319 | the stack pass reads exactly what the tree says: each control's nearest landmark's label, and how many controls are before it in that same landmark |
| SnapshotParser.TheAnswerIsTheControls | server/e2e/visual/affordance-audit.ts:300-308 | that answer holds a node for each control and no other, in line order, of its own role and name, its landmark's title, and the count of that landmark's controls before it |
| SnapshotParser.LandmarkIsWhereItSits | server/e2e/visual/affordance-audit.ts:299-303 | the landmark of a line, on the indents alone: what follows it up to the line is indented further, and no other such one is nearer |
| SnapshotParser.MatchingAddsUp | server/e2e/visual/affordance-audit.ts:293-295 | the lines read are those that match, in order |
| Attribution.TheNewestLineSettlesItsRow | server/src/cases/attribution.controller.ts:78-84 | the newest unscanned line decides its row, whatever came before |
| Attribution.ReplayKeepsTheLastWrite | server/src/cases/attribution.controller.ts:51-53 | a row is stamped exactly when its last line is not a delete, and then with that line |
| Attribution.StampsOf | server/src/cases/attribution.controller.ts:76-94 | the newest-first scan builds what a forward replay with deletes builds, one stamp a row |
| Attribution.TheAnswerIsTheLastWrites | server/src/cases/attribution.controller.ts:76-94 | the answer holds the stamp of each row's last line that is no delete, and nothing else |
| Attribution.StampsAreOfTheirLines | server/src/cases/attribution.controller.ts:86-92 | a stamp is its line's row and version, the second of its writing, and the account's name trimmed, or its address, or its id |
| Attribution.TrimmingTakesTheBlanks | server/src/cases/attribution.controller.ts:89 | what is trimmed is blank, all of it, and what is left neither starts nor ends so |
| Attribution.NewestFirstIsBackwards | server/src/cases/attribution.controller.ts:73 | the feed newest first is the feed backwards |
| Attribution.KeysTellRowsApart | server/src/cases/attribution.controller.ts:79 | the joined key tells every row from every other, where no table's name holds a colon |

## How the model reads the code

- Times are integers of milliseconds. Policy minutes are integers, so the
  database's floating point is exact on them and rounding is not modelled.
- An address a password comes from is its place in the database's text order.
- argon2 is equality with the stored password; a kept miss is the account and
  the password, so distinct passwords of one account keep distinct misses. An
  account no credential holds is a user outside the store.
- Whether the audit takes a line is a boolean of each call.
- One SQL statement is one step. The count and its lock are one step, since the
  transaction holds the run's row.
- The connection that holds the install-wide lock is taken to live as long as
  the act, whose statements run on other connections: "one act at a time" rests
  on it. Account acts name their target by id. The addresses of a first claim are
  already folded, and the insert of an account fails where its folded address
  is taken.
- The zip is its sequence of entries; the digest, the size and the locale's
  comparison are parameters (`Tools`), and the comparison is assumed a weak
  order only where a theorem says so.
- The shapes rows are judged by, the columns of each table, the reference
  fields and what the store refuses are parameters (`Shape`); the collection's
  rules spanning fields are part of what the store refuses.
- The store an export reads keeps each artefact under its own digest, as it
  names them when it takes them in; both handover theorems assume it.
- Members are read into an object as JavaScript keeps one: assigning
  `__proto__` sets its prototype, and what bytes as a prototype then do to a
  name assigned for the first time, make it, ignore it or throw, is a parameter
  (`slot`). Of what a prototype answers only `__proto__` itself is ever bytes.
- Minted ids are a function of how many rows were written, assumed injective
  only where a theorem says so.
- Characters order by code point here and by UTF-16 code unit in the source.

## Left out

- SnapshotParser.ParseSnapshot: lines arrive already read; the regular expression, the unescaping of names, the role sets and the label given by `affordanceKey` are inputs.
- ArchiveFormat.Pack: object keys keep the order they were set in; names that look like integers, which an object lists first, are not modelled.
- ArchiveFormat.CheckManifest: a listed name that only a prototype answers, and not with bytes, is refused here as named and missing; in the code it throws another error.
- ArchiveFormat.UnpackInvertsPack: covers names the zip carries verbatim; the zip's own encoding of names and bytes is foreign code.
- CaseImport.Load: the reading of `case.json`, its title, the case's own insert and the refusal of a reference already in use, the change feed, the documents written after the rows, and the release of artefacts nothing names are not part of this model.
- AccountActs.AccountRows.Disable: the line each act writes to the audit and the ban's reason and expiry are not modelled; any statement that throws is a step that ends the act.
- FirstClaim.Setup.Claim: statements that throw, the password rules and a token minted anew at a restart are not modelled.
- ReachGrants.NoReachChangeGoesUnannounced: groups and customers being removed, and the level every analyst has on the install's default customer, are not modelled.
- SessionSweep.Sessions.EndEverySession: sessions opened while the sweep runs are not modelled; the code leaves them alone as well, for whoever holds none at the read.
- SignIn.SignInTables.CheckPassword: the statements run only to cost as much on a locked run as on an open one change nothing here, and time taken is not modelled.
- Attribution.StampsOf: the feed is taken as the case's own, newest first, as the query gives it; only ASCII blanks are trimmed from a name.
- Row-level security and the SQL functions behind it, sealing of archives, the prose documents, session storage and rate limiting, the OpenAPI document, and everything that drives a browser.
