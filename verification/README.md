# Guardium DNS: a verified model of the reconcile pipeline and the router mirrors

Guardium DNS keeps parental-control rules for devices that its tables know by IP address and anchor by MAC. Once a
minute, and after every change a user makes, it brings three outside systems in line with those rules: Technitium's
group map, an ASUS router, and a UniFi controller. This project models both halves of that work in Dafny and proves
what they promise. `dafny verify dfyconfig.toml` checks all of it.

**The reconcile pipeline.** `Store.dfy` is the SQLite store as a class whose fields are its tables; each method is
proved against a function of `StoreSpec.dfy` or `Tables.dfy`. `Reconciler.dfy` is the tick as a method over that store:
purge, follow the router's snapshot, resolve everybody, push the map. `Schedules.dfy` and `Resolution.dfy` are the
override engine, `Push.dfy` the diff into the group map, `Startup.dfy` what happens before the first tick,
`FamilyPause.dfy` and `Sampling.dfy` the other writers. The results that cross these parts are in `Migration.dfy` (one
migration), `MacAnchoring.dfy` (a whole snapshot, with any failures), `StoreRuns.dfy` (any run of migrations, edits of
device rows, stars, overrides and their clearing, purges, family pauses and samples), `Interleaving.dfy` (background and
kicked ticks interleaved at every await) and the end of `Reconciler.dfy`.

**The router mirrors.** `RouterStages.dfy` computes what the routers are asked for. `TrafficRule.dfy`, `Unifi.dfy` and
`UnifiRuns.dfy` are the UniFi stage as a state machine against a controller whose rules the user may edit and delete.
`Nvram.dfy`, `BlockList.dfy` and `DnsDirector.dfy` are the ASUS lists with their separators and entities, and
`BlockListRuns.dfy` and `DnsDirectorRuns.dfy` whole runs of ticks through NVRAM and back, in any mixture of encodings.
`Firewall.dfy` is a first-match packet filter, `DohSteps.dfy` the SSH stage on it as a function of how each command goes,
`SshClient.dfy` the same command by command, any of which may be refused or lose the connection; `DohExact.dfy` says of
one apply exactly when it returns, restores, doubles the jump or reaches its goal, and `FirewallRuns.dfy` of whole runs.
`Asus.dfy` is the adapter that remembers what it pushed. `Enforcement.dfy` puts the stages, adapters and routers
together: from the resolved state to what a device meets. `Fingerprint.dfy` is the ranking of device hints.
`Records.dfy`, `Text.dfy`, `Selections.dfy` and `Sorting.dfy` hold what they share.

Calls to the outside either take effect and return or fail without effect; the clock, the order of unordered queries,
what the router lists, and which calls fail are parameters over which every theorem quantifies.

## What the proofs show about the code

Where a comment promises more than the code keeps, the model follows the code and proves exactly when the promise holds.

- The priority list at server/overrides.py:14-20 puts quotas above schedules; the code checks live schedules first
  (`Resolution.QuotaShowsExactlyWhenNothingElseFires`). The reconciler's header says it records schedule and quota
  overrides as rows; a pass keeps every keyed row and adds none (`MacAnchoring.SnapshotConserves`).
- server/overrides.py:171 says the more restrictive of device and person wins; a person's rule can also weaken the
  device's own (`Resolution.DeviceIsNotWeakenedIff`). The comment at server/overrides.py:189-190 ranks profiles outside
  the list after unrestricted; they rank equal to it (`Resolution.UnlistedRanksAsUnrestricted`).
- The reconciler calls itself single-writer. A tick kicked by a request can overlap the background tick, and a push
  from an older snapshot can undo a newer one (`Interleaving.StaleTickIsHarmlessIff`, `Interleaving.RightIffLastAgrees`)
  until the next tick repairs it (`Interleaving.FreshTickConverges`).
- Only following a device is guarded in the pass over the snapshot; a raising record of a MAC or a vendor ends the tick
  before anything is pushed (`Reconcile.Reconciler.Tick`).
- The orphan pass also removes the catch-all entries that start-up puts in (`Push.CatchAllSurvivesIff`).
- A profile follows its device to an unconfigured address exactly when no entry handled earlier takes over the old
  address (`MacAnchoring.ProfileFollowsIff`); two devices that swap addresses end on one configured row
  (`MacAnchoring.SwapLosesARow`).
- A migration onto an address with overrides of its own can leave two rows of one source
  (`Migration.OnePerSourceIff`).
- The UniFi skip never looks at the controller, so a rule deleted by hand stays deleted while the demands stay the same
  (`UnifiRuns.SkipOverlooksDeletion`, `UnifiRuns.TickIsRightIff`).
- A creation answered without an id is repaired at the next tick if no id was cached; under a stale cached id every such
  tick adds one more rule (`UnifiRuns.OneManagedRuleAlwaysIff`, `UnifiRuns.UnansweredIsRepaired`,
  `UnifiRuns.StaleIdDuplicates`).
- An ASUS entry of the user's whose MAC is also desired becomes ours one tick later
  (`BlockListRuns.SharedEntryBecomesOursIff`, `DnsDirectorRuns.SharedRuleBecomesOursIff`).
- The DNS Director label is stripped of `<` and `>` but not of `&#60` and `&#62`. A device named with one of them makes
  the rule list grow at every tick (`DnsDirectorRuns.SettlesIffNoGhosts`, `DnsDirectorRuns.EntityInLabelLeavesGhost`).
- The jump into the SSH stage's chain is put first only when it is inserted; one that is already there stays where it
  is (`Firewall.BlocksAllWantedIff`). The header of server/routers/asus/ssh_client.py speaks of rules tagged with a
  comment and of dropping only what no longer matches; the code owns a chain and refills it (`DohSteps.WholeApply`).
- server/routers/asus/ssh_client.py:225 wants the jump exactly once. A check that is refused while the jump is there, in
  a push that gets as far as the check and whose insertion works, doubles it, and nothing else does
  (`DohExact.EnsureChainDoublesIff`, `DohExact.ApplyDoublesIff`, `FirewallRuns.RunKeepsOneJumpIff`); one tear-down then no
  longer restores the firewall (`FirewallRuns.RefusedCheckSurvives`).
- The docstring at server/routers/asus/ssh_client.py:306-307 promises that an empty apply brings back exactly the user's
  state. No exit code of the tear-down is looked at: with one refused command the apply returns, and something of ours
  stays (`DohExact.TearDownRestoresExactly`, `FirewallRuns.EmptyApplyCleansUpIff`, `FirewallRuns.RunRestoresInitialIff`).
- What the ASUS settings remember and what the firewall holds come apart in exactly three ways
  (`Asus.BooksStayRightIff`): a first push that breaks off once the set is there (`Asus.ReliableBreaksOffIff`,
  `Asus.FirstPushCanBreakOff`, `Asus.BrokenFirstPushStays`), a switch-off without a password, and a tear-down with a
  refused command, after which no later switch-off does anything (`Asus.RefusedDeletionStays`).
- A refused rule or address does not make a push fail, and the push is remembered; the same adapter then skips while the
  demands stay the same (`DohExact.PushReachesIff`, `Asus.SkippedTicksLeaveIff`). Adapters are rebuilt at every tick, and
  a rebuilt one pushes again (`Asus.RebuiltPushesIff`).
- Switching the UniFi DoH stage off deletes by cached id alone, so a rule whose id is lost stays on the controller
  (`UnifiRuns.SwitchOffClearsIff`, `UnifiRuns.LostIdLeavesRule`).
- server/fingerprint.py:23-24 says the order of its rules does not matter; it does on a tie between different labels,
  as between two television rows of its own table
  (`Fingerprint.OrderIrrelevantIff`, `Fingerprint.OrderCanMatter`).

## Model

| member | source | states |
|---|---|---|
| `DeviceStore.Store.FollowDeviceToNewIp` | server/store.py:272-413 | A row anchored to the MAC at another address, whichever the unordered query returns, is moved with its five keyed tables; no candidate, blank MAC or blank address changes nothing and is reported so |
| `DeviceStore.MergeUsage` | server/store.py:354-400 | The counter loop adds every bucket of the old address into the new one and deletes the old rows: the result is the one map in which each key holds the sum |
| `DeviceStore.Rename` | server/store.py:346-352 | UPDATE of the target in place: ids, contents and order stay, only rows about the old address are renamed |
| `DeviceStore.Store.SetDeviceMac` | server/store.py:214-225 | Upsert of the MAC in lower case with colons; a blank one clears it, every other row is unchanged |
| `DeviceStore.Store.SetDeviceFingerprint` | server/store.py:227-254 | Upsert of vendor, hint and time; every other column and row is unchanged |
| `StoreSpec.SettersTouchTheirColumns` | server/store.py:214-240 | Each setter of a device changes its own columns and the last-seen time of one row, made blank if it was not there, and nothing else |
| `StoreSpec.StoredAlikeIff` | server/store.py:216 | Two texts are stored as one MAC if and only if they differ in case and in dashes for colons alone |
| `DeviceStore.Store.SetFavourite` | server/store.py:437-457 | A star takes the next order after the largest one in use, an unstar order zero |
| `DeviceStore.Store.AddOverride` | server/store.py:540-556 | The new row replaces the target's rows of the same source and gets a fresh, larger id |
| `StoreSpec.AddOverrideIs` | server/store.py:540-556 | The new row comes last under the next id, and of the old ones exactly the target's of the same source go |
| `DeviceStore.Store.ClearOverrides` | server/store.py:558-573 | Exactly the target's rows of the given sources go, and their number is returned |
| `DeviceStore.Store.ActiveOverrides` | server/store.py:575-581 | The rows that have not expired, in id order |
| `DeviceStore.Store.PurgeExpiredOverrides` | server/store.py:583-589 | The expired rows go, the others keep their order, and the number of the gone is returned |
| `StoreSpec.PurgeDropsTheExpired` | server/store.py:583-590 | A purge drops exactly the rows that have run out and changes nothing else |
| `DeviceStore.Store.AddActiveMinutes` | server/store.py:698-707 | Adds the minutes to the one counter of target and day |
| `Tables.RetargetedAt` | server/store.py:346-352 | A rename keeps every id and body at its place and touches only the rows about the old target |
| `Tables.UsageOfMoved` | server/store.py:354-400 | After a move the new target's counters are the sums, the old target has none, nobody else's change |
| `Tables.MovedUsageConserves` | server/store.py:354-400 | Moving usage between two addresses changes no bucket's device total |
| `StoreSpec.WithoutSourcesKeeps` | server/store.py:558-573 | Deletion by target and source keeps exactly the other rows |
| `Migration.DeviceIsPreservedIffTargetFree` | server/store.py:272-413 | The moved device is configured as it was (base profile, person, overrides, schedules, quotas, usage) if and only if the target address was free for it: no keyed row there, no counter that adds a minute or a day, and no profile or owner that the arriving row lacks |
| `Migration.MergedRowIs` | server/store.py:299-341 | Column by column, the row that arrives at an address with a row: the old row's value where it says something, else the other's; a favourite if either was; MAC and time new |
| `Migration.MovedRowIs` | server/store.py:299-341 | Without a row there, the old row arrives with its MAC and time new and everything else as it was |
| `Migration.MigrationCarriesOver` | server/store.py:309-326 | Name, notes, hint, star, order and first-seen time of the old row are on the new one wherever they say anything |
| `Migration.OthersAreUntouched` | server/store.py:346-400 | Person rows, "all" rows and every third address are untouched by a migration |
| `Migration.OldAddressIsEmpty` | server/store.py:335-400 | The old address keeps no row and nothing keyed to it |
| `Migration.MigrationConserves` | server/store.py:346-400 | Device minutes per day, and per day and app, are unchanged, and all keyed rows keep id and contents with only device addresses renamed |
| `Migration.OnePerSourceIff` | server/store.py:348-352 | A migration leaves one override row per source at the new address if and only if the two addresses had no source in common |
| `Reconcile.Reconciler.ReconcileDeviceMacs` | server/reconciler.py:294-325 | The loop performs one entry's step after another and reports exactly the migrations, in order; a raising follow skips its entry, and a raising record of MAC or vendor ends the pass with what was done before it |
| `Reconcile.FollowedAre` | server/reconciler.py:294-325 | Each entry that moved a device is reported in its place with its MAC and both addresses, and nothing else is |
| `Reconcile.Reconciler.HandleEntry` | server/reconciler.py:307-335 | One entry: followed, or recorded, then its vendor refreshed, with the migration it reports and where it may stop |
| `MacAnchoring.SnapshotConserves` | server/reconciler.py:307-325 | Every snapshot pass, whatever fails in it, conserves minutes and keyed rows |
| `MacAnchoring.StoppedPassConserves` | server/reconciler.py:307-335 | A pass that a raising call ends early conserves minutes and keyed rows as well |
| `MacAnchoring.SnapshotAnchors` | server/reconciler.py:294-325 | With one address per MAC, after the pass the row at every handled address carries the reported MAC in normal form |
| `MacAnchoring.StepSetsVendor` | server/reconciler.py:318-336 | After an entry the row at its address was seen now and has the OUI table's vendor, with the time if that is news; without one it keeps the vendor found |
| `MacAnchoring.SnapshotKeepsMacsUnique` | server/reconciler.py:294-325 | That no two rows share a MAC is kept by every pass |
| `MacAnchoring.StepSurplus` | server/reconciler.py:307-325 | No entry adds a stray row for another MAC; a MAC's own entry removes exactly one stray row if there is one |
| `MacAnchoring.SnapshotShrinksSurplus` | server/reconciler.py:294-325 | A pass that reports a MAC strictly shrinks the set of its stray rows until none is left |
| `MacAnchoring.PassesClearSurplus` | server/reconciler.py:294-325 | After as many passes reporting a MAC at one address as it had stray rows, the row at that address is the only one that carries it |
| `MacAnchoring.ProfileFollowsDevice` | server/reconciler.py:294-325 | A device known by its MAC and reported at a free address is, after the whole pass, configured there as it was before, whatever the other entries do, provided no earlier one takes over its old address; its name, notes and star go with it |
| `MacAnchoring.ProfileFollowsIff` | server/reconciler.py:294-325 | For a configured device moving to an unconfigured address the profile follows if and only if no entry handled before its own takes over its old address |
| `MacAnchoring.LeaseReuseLosesProfile` | server/reconciler.py:307-325 | When the old lease is handed to another device listed earlier, the row is relabelled and the mover starts afresh |
| `MacAnchoring.SwapLosesARow` | server/store.py:307-344 | Two devices that swap addresses in one snapshot end on one configured row; the second starts afresh |
| `MacAnchoring.OthersKeepTheirs` | server/reconciler.py:307-325 | A device nobody reports elsewhere keeps its settings and everything keyed to it |
| `Schedules.WindowIsUnrolledTimeline` | server/overrides.py:52-80 | The window check is true at a minute exactly when the minute lies in an opening of a masked weekday, weeks wrapping round |
| `Schedules.FullWeekMinutes` | server/overrides.py:57-80 | Any seven consecutive days contain the number of masked days times the length of one opening, wherever the week is cut |
| `Schedules.MaskIsActiveOnItsDays` | server/overrides.py:52-54 | The mask with one bit per weekday of a set, Monday the lowest, is active on exactly those days |
| `Resolution.TopOverride` | server/overrides.py:130-137 | The row that wins is one no other outranks, by source priority and then by newer id |
| `Resolution.PickSchedule` | server/overrides.py:93-104 | The firing schedule with the largest id, or none if none fires |
| `Resolution.QuotaExceeded` | server/overrides.py:107-118 | The first spent quota in table order, or none if none is spent |
| `Resolution.Precedence` | server/overrides.py:121-166 | Any live override silences everything else, then a firing schedule, then a spent quota, then the base profile; and what is shown is what the winning row says: its own profile, or internet-off if it names none, its source, expiry and note or name |
| `Resolution.SourcesRank` | server/overrides.py:34-39 | Manual, family pause, quota, schedule, everything else: of two overrides the one with the earlier source sorts first, and of two with one source the newer |
| `Resolution.FiresIff` | server/overrides.py:57-104 | A schedule fires exactly while it is enabled and the clock shows a minute of an opening that starts on one of its days |
| `Resolution.SpentIff` | server/overrides.py:107-118 | A quota is spent exactly on its days, while enabled, once the minutes reach it |
| `Resolution.StateIs` | server/reconciler.py:216-245 | A target's overrides and quotas are its own rows, its schedules its own and those about all, its minutes those of the day |
| `Resolution.OwnerIs` | server/reconciler.py:232-252 | The rules of a stored person are merged in, and nobody's if the id is missing, zero or unknown |
| `Resolution.QuotaShowsExactlyWhenNothingElseFires` | server/overrides.py:139-159 | A spent quota shows if and only if there is no live override and no firing schedule, contrary to the module's own priority list |
| `Resolution.PersonIsNeverWeakened` | server/overrides.py:169-212 | A device's effective restriction is never weaker than its person's, and a person's rule that is not the base wins outright, even over a pause of the device |
| `Resolution.DeviceIsNotWeakenedIff` | server/overrides.py:169-188 | The device gets no less than its own rules say if and only if nobody owns it, the owner is on the base profile, or the owner's rule is no weaker |
| `Resolution.MergeShowsTheEarlier` | server/overrides.py:189-212 | Of two base profiles the merge shows the earlier in internet-off, kids, no-streaming, no-gaming, no-youtube, default, unrestricted, and any of them before none |
| `Resolution.UnlistedRanksAsUnrestricted` | server/overrides.py:189-212 | A profile outside the list ranks equal to unrestricted, not after it, and between the two the merge keeps the device's own |
| `Resolution.SameDeviceSameTrace` | server/overrides.py:121-212 | Devices configured alike under the same shared rules have the same trace at every clock |
| `Reconcile.GroupByTarget` | server/reconciler.py:200-212 | The grouping loop gives every target exactly its rows in order |
| `Reconcile.ResolvePeople` | server/reconciler.py:214-228 | The loop gives every person the trace of the tables |
| `Reconcile.ResolveDevices` | server/reconciler.py:230-246 | The loop gives every device its merged trace and nothing else |
| `Reconcile.Reconciler.ResolveAll` | server/reconciler.py:191-246 | Grouping, person loop and device loop together compute the effective trace of every stored device |
| `Reconcile.PurgeKeepsTraces` | server/reconciler.py:129-130 | The purge at the start of a tick changes nobody's trace |
| `Reconcile.Reconciler.Tick` | server/reconciler.py:120-250 | One tick purges, follows the snapshot, resolves and pushes: afterwards the store is the settled one and the map is right about every managed entry, unless the push reported an error or the snapshot raised, in which case the map is untouched |
| `Reconcile.ProfileFollowsEndToEnd` | server/reconciler.py:120-250 | A device reported at a free address: after the tick the new address has the trace the tables gave the old one, its group is in the map, and the old address has no managed entry |
| `Reconcile.OthersKeepTheirTrace` | server/reconciler.py:180-250 | Everybody the snapshot does not concern keeps the trace, and the map has the wanted group or no managed entry |
| `Push.Apply` | server/reconciler.py:385-431 | Nothing is written when reading fails or nothing differs; otherwise the exact map is written once, and the count is the number of addresses whose entry differs |
| `Push.DropOrphans` | server/reconciler.py:411-421 | The orphan pass leaves at every address what the exact map says, and goes on counting differing addresses |
| `Push.PushIsExact` | server/reconciler.py:385-431 | The pushed map is the only map whose managed entries are the image of the resolved state and whose other entries are the hand-made ones at addresses nobody is sent to |
| `Push.PushForgetsEarlierPush` | server/reconciler.py:385-431 | A second push of the same state writes nothing; a push after another state's leaves no trace of that state in the managed part |
| `Push.ListedAreManaged` | server/overrides.py:191-199 | The profiles of the restriction order are exactly those with a managed group |
| `Push.CatchAllsAre` | server/app.py:407-411 | Start-up gives the two catch-all entries the default group where they are absent and changes no other entry |
| `Push.CatchAllSurvivesIff` | server/app.py:407-411 | A catch-all entry start-up puts in survives a push if and only if it was hand-made or a stored row with that address asks for a group |
| `Interleaving.LoneTickIsAPush` | server/reconciler.py:385-431 | A tick by itself is one push; one that fails at either call leaves the map alone and is over |
| `Interleaving.FreshTicksKeepItRight` | server/reconciler.py:385-431 | Once no tick with an older snapshot is in flight, no interleaving of ticks makes a right map wrong |
| `Interleaving.FreshTickConverges` | server/app.py:374-383 | With the stale ticks over, any tick that reads and completes makes the managed part right for the rest of the interleaving |
| `Interleaving.HandMadeEntriesSurvive` | server/reconciler.py:385-431 | No interleaving, stale or fresh, loses a hand-made entry at an address no tick wants |
| `Interleaving.MapIsLastSettled` | server/reconciler.py:385-431 | After any interleaving, stale ticks and failures included, the managed part is the image of the tick that last wrote or confirmed the map; with no such tick the map is untouched |
| `Interleaving.RightIffLastAgrees` | server/reconciler.py:385-431 | So the map ends right for a state if and only if that tick sends every address where the state does |
| `Interleaving.StaleTickIsHarmlessIff` | server/reconciler.py:3-7 | The map is not single-writer: old read, new read, new write, old write ends right if and only if the older tick had nothing to write or the two states send every address to the same place |
| `Startup.EnsureManagedGroups` | server/app.py:391-420 | The managed groups are replaced by the shipped ones after the user's, absent catch-all entries come back, one write |
| `Startup.EveryManagedGroupExistsOnce` | server/app.py:396-405 | Every managed name a push can write then belongs to exactly one group, and the user's groups are as many under each name as before |
| `Startup.StartingAgainChangesNothing` | server/app.py:391-420 | The user's groups keep settings and order, and a second start-up changes nothing |
| `Startup.BackfillBaseProfiles` | server/app.py:428-456 | Exactly the rows without base profile whose address is in a managed group get that profile, and they are counted |
| `Startup.BackfillIs` | server/app.py:428-456 | A row without base profile, of an address that is no network and that the live map has in a managed group, gets that profile and is seen now; every other row stays as it is |
| `Startup.BackfillKeepsLiveGroups` | server/app.py:428-456 | A device only the live map had put in a group is still there after the first push; without the backfill the push would take it out |
| `Startup.BackfillTouchesNobodyElse` | server/app.py:428-456 | Everybody else resolves as before, and a second backfill finds nothing to do |
| `FamilyPause.PauseFamily` | server/app.py:1618-1633 | The loop stamps one override on every device that is not excluded or unassigned; the counts returned are how many devices it is meant for and how many it leaves for want of an owner |
| `FamilyPause.PauseReaches` | server/app.py:1606-1633 | Exactly the devices a pause is meant for have one family-pause row with its profile for 60 seconds a minute from now; their other rows and everybody else's stay |
| `StoreRuns.FamilyPauseTakesEffect` | server/app.py:1606-1633 | The paused device's own rules resolve to the pause until it is over, unless a manual override of its own is live |
| `FamilyPause.ResumeFamily` | server/app.py:1656-1659 | The loop clears the family pause of every stored device and counts the cleared rows |
| `FamilyPause.ResumeIsComplete` | server/app.py:1656-1659 | When the family-pause rows point at stored devices, resume leaves none of them and keeps every other row in order |
| `FamilyPause.PauseThenResume` | server/app.py:1618-1659 | Pause then resume is the identity on override rows when no family pause was running |
| `Sampling.Tick` | server/sampler.py:76-131 | A pass credits every listed active address and every owner of one, the owner once; a failed read changes nothing |
| `StoreRuns.RunKeepsInvariants` | server/store.py:272-573 | Over any run of migrations, edits, stars, overrides, purges, pauses, resumes and samples: favourites have distinct orders of at least one and others zero, family pauses point at devices, ids ascend, minutes stay non-negative |
| `StoreRuns.ResumeIsCompleteAfterAnyRun` | server/app.py:1656-1659 | After any run, migrations included, one resume leaves no family-pause row and keeps every other one |
| `StoreRuns.StarKeepsOrder` | server/store.py:437-457 | A star puts the device after every favourite and reorders nobody |
| `StoreRuns.ManualPauseTakesEffect` | server/store.py:540-556 | A manual pause that has not expired is what its target resolves to at once, whatever else is stored |
| `StoreRuns.QuotaCannotBeShed` | server/overrides.py:107-118 | Within a day a target with a spent quota, or the address it has moved to, has one after any run |
| `StoreRuns.SampledMinutes` | server/sampler.py:108-123 | One pass adds five minutes per listing of an address and five per owner of a listed one |
| `StoreRuns.PassAdds` | server/sampler.py:97-123 | What a pass over the listed clients adds to a day: five minutes for every listing with a hit, and five once for everybody who owns such an address |
| `StoreRuns.PersonMinutesCountPasses` | server/sampler.py:108-123 | A person's minutes grow by five per pass with an active device, however many devices, over any run |
| `StoreRuns.DeviceMinutesConserved` | server/store.py:358-382 | A day's device total grows by five per listing sampled that day and by nothing else, over any run |
| `RouterStages.KillStage` | server/reconciler.py:488-505 | Every switched-off single address has its MAC in the kill list exactly once or is reported missing, and nothing else is in either list |
| `RouterStages.ProtectStage` | server/reconciler.py:507-522 | The protect list is exactly the known MACs of the enforced single addresses, each once up to case |
| `RouterStages.StagesHold` | server/reconciler.py:461-522 | Over the raw data: a MAC is in the kill or the protect set if and only if the live snapshot, or the device row where the snapshot is silent, gives it for a single address on that kind of profile |
| `RouterStages.StagesAreDisjoint` | server/reconciler.py:488-522 | With an injective address-to-MAC resolution no MAC is both blocked and protected |
| `RouterStages.EveryEnforcedDeviceIsCovered` | server/reconciler.py:457-522 | A single address with a known MAC and a profile other than unrestricted is blocked or protected |
| `TrafficRule.TargetDevices` | server/routers/unifi/traffic_rule.py:44-62 | The loop lists the normalised MACs with a colon, first mention kept, none twice |
| `TrafficRule.DevicesAreTheDesired` | server/routers/unifi/traffic_rule.py:44-62 | The body names exactly the desired MACs: building it loses none and adds none |
| `TrafficRule.BodiesAre` | server/routers/unifi/traffic_rule.py:94-146 | The kill body takes the whole internet, and the DoH body the given apps, from exactly the MACs some listed text normalises to, and each is enabled if and only if there is something to block |
| `TrafficRule.TargetMacsHave` | server/routers/unifi/traffic_rule.py:44-62 | Whatever list a rule is built from, its devices are exactly the normal forms of listed texts that have a colon |
| `TrafficRule.BodyDependsOnlyOnTheSet` | server/routers/unifi/traffic_rule.py:95-146 | Two lists give the same bodies if and only if they normalise to the same set, whatever order, case, dashes, blanks or repetitions |
| `Unifi.UnifiAdapter.ApplyManagedRule` | server/routers/unifi/__init__.py:389-511 | Skip, update, adopt by name, recreate after a 404, or create: controller rules, settings and status after one call, for every way the requests can fail |
| `Unifi.UnifiAdapter.DiscoverManagedRuleId` | server/routers/unifi/__init__.py:513-521 | The first listed rule with the managed name and an id, or none if there is none |
| `Unifi.UnifiAdapter.ApplyKillSwitch` | server/routers/unifi/__init__.py:250-274 | Stage 1 changes only its own settings, and the controller as one push of the kill-switch body |
| `Unifi.UnifiAdapter.ApplyDohBlock` | server/routers/unifi/__init__.py:288-385 | Stage 3 pushes, reports, or tears down and forgets, changing only its own settings |
| `UnifiRuns.OneManagedRulePerStage` | server/routers/unifi/__init__.py:389-521 | After any run of ticks, failures, lost ids, user edits and deletions in which no push strands a row, each reserved name is on at most one rule, and a cached id is that rule's |
| `UnifiRuns.NextKeepsInvIff` | server/routers/unifi/__init__.py:463-485 | One event keeps the one-rule invariant if and only if it does not create a row under a stale cached id and get no id in the answer |
| `UnifiRuns.OneManagedRuleAlwaysIff` | server/routers/unifi/__init__.py:389-521 | The invariant holds all through a run if and only if no push of the run does that |
| `UnifiRuns.AnswersNeverStrand` | server/routers/unifi/__init__.py:478-485 | Against a controller that always answers with the id no push does |
| `UnifiRuns.CacheAgreesWithController` | server/routers/unifi/__init__.py:428-511 | While only the adapter edits its rules, a tick without error, skipped or not, leaves the one kill-switch rule holding exactly the body of the desired set |
| `UnifiRuns.DohCacheAgreesWithController` | server/routers/unifi/__init__.py:288-349 | The same for the DoH rule with its app ids |
| `UnifiRuns.KillRuleIsRight` | server/routers/unifi/__init__.py:250-286 | So after an error-free tick the controller has a rule that takes the internet from exactly the MACs demanded |
| `UnifiRuns.DohRuleIsRight` | server/routers/unifi/__init__.py:288-349 | And after one of the DoH stage a rule that takes the listed apps from exactly the MACs demanded |
| `UnifiRuns.PushSkipsIff` | server/routers/unifi/__init__.py:441-451 | A push is skipped if and only if an id is cached and body and devices are the remembered ones, and then changes nothing |
| `UnifiRuns.PushRemembers` | server/routers/unifi/__init__.py:441-511 | A push without error remembers what it pushed, so the next equal one is skipped; one with an error remembers nothing new |
| `UnifiRuns.TickIsRightIff` | server/routers/unifi/__init__.py:441-451 | Whatever users did, after a tick without error the rule is right if and only if the tick did not skip or the cached rule is still as it was pushed |
| `UnifiRuns.SkipOverlooksDeletion` | server/routers/unifi/__init__.py:441-451 | A rule deleted by hand stays gone through any number of ticks with the same demands |
| `UnifiRuns.SwitchOffClearsIff` | server/routers/unifi/__init__.py:351-385 | An error-free switch-off leaves no rule with the DoH name if and only if every rule with it has the cached id |
| `UnifiRuns.SwitchOffAfterRunIff` | server/routers/unifi/__init__.py:351-385 | After any run in which no push strands a row: if and only if an id is cached or there was no such rule |
| `UnifiRuns.LostIdLeavesRule` | server/routers/unifi/__init__.py:351-385 | Without a cached id switching off is free of errors and forgets the devices, and however often it is done the rules on the controller stay |
| `UnifiRuns.BlankIdDuplicates` | server/routers/unifi/__init__.py:513-521 | Against a controller that lists new rows without an id the adapter creates a second rule with the same name |
| `UnifiRuns.UnansweredIsRepaired` | server/routers/unifi/__init__.py:455-485 | With nothing cached, a creation answered without an id is found by name at the next push, and one rule is left |
| `UnifiRuns.StaleIdDuplicates` | server/routers/unifi/__init__.py:478-485 | Under a stale cached id every push answered without an id adds one more row of the same body |
| `Nvram.DecodeLtFirst` | server/routers/asus/http_client.py:354 | Replacing the two entities one after the other is one-pass decoding |
| `Nvram.DecodeGtFirst` | server/routers/asus/http_client.py:502-503 | The same in the other order |
| `Nvram.DecodesBack` | server/routers/asus/http_client.py:497-503 | A text without entities reads back as itself, whichever separators the router stored as entities |
| `Nvram.ListReadsBack` | server/routers/asus/http_client.py:502-546 | A list printed with separators reads back field by field while its fields hold neither separator nor entity |
| `BlockList.ApplyManagedBlockedMacs` | server/routers/asus/http_client.py:451-581 | Parse, pass through, append and print: the NVRAM variables written for any text read |
| `BlockList.ParseIs` | server/routers/asus/http_client.py:487-512 | One entry per piece of the MAC list, with the name and the schedule at the same place, blank where those lists are shorter |
| `BlockList.OursAre` | server/routers/asus/http_client.py:525-543 | One entry of ours for every desired MAC the user has none for, in capitals, under its label, without a schedule; and no other |
| `BlockList.ModeWritten` | server/routers/asus/http_client.py:549-557 | A mode of the user's that is on stays while anything is listed, every other becomes 2, and an empty list turns the feature off |
| `BlockListRuns.PrintedListReadsBack` | server/routers/asus/http_client.py:502-546 | The three parallel lists stay aligned entry by entry, every MAC in place, whatever labels ours carry; a list without ours reads back as itself |
| `BlockListRuns.GetBlockedMacs` | server/routers/asus/http_client.py:435-449 | The nonblank normalised MACs of the list, or none when the mode is off |
| `BlockListRuns.BlocksExactlyDesiredAndTheirs` | server/routers/asus/http_client.py:435-581 | After a push the list blocks exactly the desired MACs and those of the user's entries |
| `BlockListRuns.UserEntriesSurvive` | server/routers/asus/http_client.py:520-534 | User entries never asked for keep MAC text, name, schedule and order through any run of ticks |
| `BlockListRuns.EntriesSurviveEdits` | server/routers/asus/http_client.py:520-534 | Entries never asked for and not edited by the user survive, whatever the user does to others between the ticks |
| `BlockListRuns.EmptyTickCleansUp` | server/routers/asus/http_client.py:520-556 | A final empty tick leaves exactly the user's entries when no user MAC was ever desired |
| `BlockListRuns.SettlesAfterTwoTicks` | server/routers/asus/http_client.py:516-570 | With constant demands everything written is the same from the second tick on |
| `BlockListRuns.SettlesAfterOneTick` | server/routers/asus/http_client.py:516-570 | From the first one when no user entry shares a desired MAC |
| `BlockListRuns.SharedEntryBecomesOurs` | server/routers/asus/http_client.py:526-528 | A user entry whose MAC is also desired is taken for ours one tick later and replaced |
| `BlockListRuns.SharedEntryBecomesOursIff` | server/routers/asus/http_client.py:520-528 | One tick later an entry is still taken for the user's if and only if its MAC was not asked for |
| `BlockListRuns.TheirsNext` | server/routers/asus/http_client.py:520-528 | What the next tick takes for the user's is, in order, what this one did less the entries that share a desired MAC |
| `DnsDirector.GetManagedDnsRules` | server/routers/asus/http_client.py:344-363 | The loop over pieces gives the rules of the decoded text |
| `DnsDirector.PrintReadsBack` | server/routers/asus/http_client.py:354-410 | A printed list, stored with any of its separators encoded, parses to exactly the read-backs of its rules |
| `DnsDirector.RulesRoundTrip` | server/routers/asus/http_client.py:354-410 | Rules without separators and entities round trip through NVRAM |
| `DnsDirector.ParsedRulesArePlain` | server/routers/asus/http_client.py:350-363 | Whatever text the router returns, parsed rules hold neither separator nor entity |
| `DnsDirector.ApplyManagedDnsDirector` | server/routers/asus/http_client.py:365-433 | Rule list, switch and address written for any list read; the address is the demanded one if any device is demanded, and the switch is on if and only if the list has a rule |
| `DnsDirector.OursAre` | server/routers/asus/http_client.py:404-408 | One rule of ours for every desired device whose MAC no rule of the user's has: its label, its MAC in capitals, mode 11; and no other |
| `DnsDirector.FirstMentionIsKept` | server/routers/asus/http_client.py:380-394 | The first device with a MAC goes in under its name, or under the MAC in capitals |
| `DnsDirectorRuns.AdapterLabelIs` | server/routers/asus/__init__.py:265-266 | A short name without separators is kept; of any other the first 32 characters that separate nothing, or the MAC |
| `DnsDirectorRuns.EveryDesiredIsRedirected` | server/routers/asus/http_client.py:404-408 | Every desired device has a rule after the merge, ours in custom mode unless the user has one for it |
| `DnsDirectorRuns.UserRulesSurvive` | server/routers/asus/http_client.py:397-408 | User rules never asked for keep name, MAC text, mode and order through any run, and nothing joins them while labels leave no ghost |
| `DnsDirectorRuns.RulesSurviveEdits` | server/routers/asus/http_client.py:397-408 | The same in runs in which the user edits other rules between the ticks |
| `DnsDirectorRuns.SharedRuleBecomesOursIff` | server/routers/asus/http_client.py:398-408 | With ghost-free labels, one tick later a rule is still taken for the user's if and only if its MAC was not asked for |
| `DnsDirectorRuns.SharedRuleIsReplaced` | server/routers/asus/http_client.py:404-408 | The second tick writes our own rule for every desired device |
| `DnsDirectorRuns.EmptyTickCleansUp` | server/routers/asus/http_client.py:397-410 | A final empty tick leaves exactly the user's rules |
| `DnsDirectorRuns.SettlesIffNoGhosts` | server/routers/asus/http_client.py:381-424 | With constant demands everything written settles after the first tick if and only if no label is read back as a rule for a foreign MAC; otherwise the text grows by the same amount for ever |
| `DnsDirectorRuns.SettlesAfterOneTick` | server/routers/asus/http_client.py:381-424 | It settles at once when besides no user rule shares a desired MAC |
| `DnsDirectorRuns.HarmlessLabelsSettle` | server/routers/asus/__init__.py:265-267 | Labels that decode without `>` leave no ghost |
| `DnsDirectorRuns.EntityInLabelLeavesGhost` | server/routers/asus/__init__.py:265-267 | The adapter strips the separators but not their entities: a device named a&#62b leaves a rule for MAC b behind at every tick |
| `Asus.NextTickKnowsOurs` | server/routers/asus/__init__.py:258-280 | The list persisted after a push normalises to exactly the MACs the push asked for, so the next tick recognises its own rules |
| `Asus.AdapterPairsPrint` | server/routers/asus/__init__.py:258-267 | Whatever devices are called, the labels and MACs the adapter pushes hold no separator, as the round trips need, as long as the MACs do not |
| `Asus.FirstIsPaired` | server/routers/asus/__init__.py:258-267 | The first device with a MAC, in whatever case, is sent under its own name's label |
| `Asus.NameIs` | server/routers/asus/__init__.py:265 | The name under the MAC as given if there is one, else that under its lower-case form, else the MAC in capitals |
| `Asus.AsusAdapter.ApplyKillSwitch` | server/routers/asus/__init__.py:176-219 | Skip, push and remember, or fail without changing list, settings or cache |
| `Asus.AsusAdapter.ApplyDnsDirector` | server/routers/asus/__init__.py:223-291 | Push and remember, tear down once when switched off, or fail without effect; what is remembered is what was asked for |
| `Asus.AsusAdapter.ApplyDohBlock` | server/routers/asus/__init__.py:295-367 | Skip, push, tear down, forget or fail: settings, cache and firewall after one call, for every way its commands can go; a push that returns has reached the pushed tables, and a tear-down the user's own, if and only if nothing it had to do was refused; the books stay right if and only if none of the three failures happens |
| `Asus.ReportsAre` | server/routers/asus/__init__.py:295-367 | What each call reports and remembers, by the switches, what was remembered, the demand, the session and the outcomes of the apply |
| `Asus.LoweredIs` | server/routers/asus/__init__.py:338 | The stage asks for the MACs of the demand that have a colon, in lower case |
| `Asus.BooksStayRightIff` | server/routers/asus/__init__.py:295-367 | Whatever is refused or lost: that nothing of ours is in the firewall unless it is remembered is kept by a call if and only if it is neither a push that breaks off past the set's creation while nothing is remembered, nor a switch-off without a password while the firewall still holds something, nor a tear-down that returns although a command it had to get through was refused |
| `Asus.BrokenFirstPushStays` | server/routers/asus/__init__.py:306-308 | Such a push is an error nobody remembers: switching the stage off afterwards tears nothing down, and what it put in stays |
| `Asus.FirstPushCanBreakOff` | server/routers/asus/__init__.py:352-357 | It happens when the connection is lost right after the set was created |
| `Asus.ReliableBreaksOffIff` | server/routers/asus/__init__.py:352-357 | With nothing refused without reason it happens if and only if the connection is lost between the set's creation and the last of the commands the push takes, whose number is given |
| `Asus.RefusedDeletionStays` | server/routers/asus/__init__.py:317-331 | With our jump in the firewall, a tear-down whose deletion of it is refused reports success; jump and chain stay, nothing is remembered, and a later switch-off does nothing |
| `Asus.DohTickReachesIff` | server/routers/asus/__init__.py:317-367 | A reported push has reached the pushed tables, and a reported tear-down the user's own, if and only if nothing it had to do was refused |
| `Asus.SkippedTicksLeaveIff` | server/routers/asus/__init__.py:338-350 | While one adapter is asked for the same devices it does nothing, and after any number of such calls the tables are the pushed ones if and only if nothing had been refused in the push |
| `Asus.RebuiltPushesIff` | server/routers/asus/__init__.py:101-106 | An adapter just built never skips: it pushes if and only if the session opens and the apply returns |
| `Firewall.Transparent` | server/routers/asus/ssh_client.py:214-237 | With a jump in place a packet our chain drops is dropped unless a user rule ahead decides it; every other packet gets the verdict of the user's own rules |
| `Firewall.InstalledDropsTheWanted` | server/routers/asus/ssh_client.py:263-288 | After a push our chain matches exactly the packets of a listed MAC to a listed address on TCP 443, UDP 443 or TCP 853 |
| `Firewall.PushIsTransparent` | server/routers/asus/ssh_client.py:290-336 | Both together, for every firewall the push may start from |
| `Firewall.BlocksAllWantedIff` | server/routers/asus/ssh_client.py:217-219 | A push blocks every wanted packet if and only if no user rule ahead of the jump accepts one: a jump that is there is not moved to the top |
| `Firewall.TearDownRestoresIff` | server/routers/asus/ssh_client.py:249-255 | A tear-down leaves exactly the user's firewall if and only if there was at most one jump |
| `SshClient.Router.EnsureIpset` | server/routers/asus/ssh_client.py:193-212 | Create, flush, restore, with the one-by-one fallback: tables and outcome for every way the commands can go |
| `DohSteps.AddOneByOneAdds` | server/routers/asus/ssh_client.py:207-212 | The fallback adds exactly the addresses that were not refused or lost |
| `DohSteps.EnsureIpsetReliable` | server/routers/asus/ssh_client.py:193-212 | A step that returns leaves exactly the listed addresses in the set when nothing is refused without reason |
| `SshClient.Router.EnsureChain` | server/routers/asus/ssh_client.py:214-237 | Chain and jump: tables and outcome for every way the commands can go |
| `DohSteps.EnsureChainKeeps` | server/routers/asus/ssh_client.py:214-237 | At most one jump is added, and a check refused although the jump is there adds one |
| `DohExact.EnsureChainDoublesIff` | server/routers/asus/ssh_client.py:222-237 | A step that starts with one jump ends with two if and only if the chain's creation is not lost, the check is refused and the insertion works |
| `DohSteps.EnsureChainReliable` | server/routers/asus/ssh_client.py:214-237 | A reliable step never doubles a jump, even broken off; when it returns chain and jump are there |
| `SshClient.Router.FlushChain` | server/routers/asus/ssh_client.py:239-247 | Chain emptied and its old length returned: tables, count and outcome for every way the commands can go |
| `SshClient.Router.TeardownChain` | server/routers/asus/ssh_client.py:249-255 | Jump, rules, chain: tables and outcome for every way the commands can go |
| `SshClient.Router.AddDohDropRules` | server/routers/asus/ssh_client.py:263-288 | Three rules per MAC in order, refused ones passed over, those that go in counted, for every way the commands can go |
| `DohSteps.AddRulesAdds` | server/routers/asus/ssh_client.py:263-288 | The chain gains exactly the readable rules whose command was not refused or lost |
| `DohSteps.AddRulesKeeps` | server/routers/asus/ssh_client.py:263-288 | The count is the number of rules gained, refusals and losses included |
| `SshClient.Router.ApplyDohBlocklist` | server/routers/asus/ssh_client.py:290-336 | Tables, outcome and both counts of one apply, for every way its commands can go |
| `DohSteps.ApplyKeeps` | server/routers/asus/ssh_client.py:290-336 | Whatever is refused and wherever the connection is lost: user rules untouched, no jump without chain, no rule without set, at most one jump more |
| `DohSteps.ReliableKeepsOneJump` | server/routers/asus/ssh_client.py:290-336 | When nothing is refused without reason, one jump stays one jump, even if the apply breaks off |
| `DohSteps.WholeApply` | server/routers/asus/ssh_client.py:290-336 | An apply that returns, with nothing refused without reason, reaches exactly the pushed or torn-down tables and counts what it removed and added |
| `DohExact.NothingLostReturns` | server/routers/asus/ssh_client.py:290-336 | An apply returns when nothing is lost or refused without reason |
| `DohExact.ApplyReturnsIff` | server/routers/asus/ssh_client.py:290-336 | For every script: which of its outcomes must work and which must not be lost for an apply to return |
| `DohExact.PushReturnsIff` | server/routers/asus/ssh_client.py:326-329 | The same for a push: the set's creation and flush work, a jump that is not found goes in, and nothing else is lost |
| `DohExact.ReliablePushReturnsIff` | server/routers/asus/ssh_client.py:326-329 | With nothing refused without reason a push returns if and only if the connection holds for so many commands: the probe, the set, the jump, the flush and three rules per MAC |
| `DohExact.TearDownReturnsIff` | server/routers/asus/ssh_client.py:319-324 | A tear-down returns if and only if none of its commands is lost |
| `DohExact.TearDownRestoresExactly` | server/routers/asus/ssh_client.py:306-324 | A tear-down that returns leaves exactly the user's firewall if and only if there was at most one jump, and the deletion of the jump, one of the flushes, and the deletions of chain and set worked where there was something to delete |
| `DohExact.ApplyDoublesIff` | server/routers/asus/ssh_client.py:224-237 | An apply that starts with one jump ends with two if and only if it is a push that fills its set, is refused the check and gets its insertion through |
| `DohExact.RulesReachedIff` | server/routers/asus/ssh_client.py:263-288 | On an empty or emptied chain a push that returns leaves exactly the wanted rules if and only if no rule iptables can read was refused |
| `DohExact.PushReachesIff` | server/routers/asus/ssh_client.py:326-336 | A push that returns leaves exactly the pushed tables if and only if a jump that was there was found, no address sent singly was refused, and the rules kept and gained are those wanted |
| `DohSteps.NonemptyApplyLeavesAloneIff` | server/routers/asus/ssh_client.py:311-329 | On a firewall without us a nonempty apply, whole or not, leaves it alone if and only if it got no further than the probe or the set's creation |
| `FirewallRuns.RunKeepsInvariant` | server/routers/asus/ssh_client.py:290-336 | Over any run of applies, user edits and firmware restarts no jump is without chain and no rule without set; and there is at most one jump until a push doubles it |
| `FirewallRuns.RunKeepsOneJumpIff` | server/routers/asus/ssh_client.py:224-237 | A run that starts with at most one jump never has more if and only if none of its pushes meets one jump, is refused the check and gets its insertion through |
| `FirewallRuns.ReliableRunKeepsOneJump` | server/routers/asus/ssh_client.py:224-237 | So no run in which nothing is refused without reason ever has more |
| `FirewallRuns.UserRulesStay` | server/routers/asus/ssh_client.py:290-336 | No run of applies, whole or not, changes a user rule or their order |
| `FirewallRuns.EmptyApplyCleansUpIff` | server/routers/asus/ssh_client.py:306-324 | A run that ends with an empty apply which returns leaves jump, chain and set of ours gone and all else as it was if and only if there was at most one jump then and nothing that apply had to do was refused |
| `FirewallRuns.EmptyApplyCleansUp` | server/routers/asus/ssh_client.py:306-324 | So it does after any run that starts with at most one jump and in which nothing is refused without reason |
| `FirewallRuns.RunRestoresInitialIff` | server/routers/asus/ssh_client.py:306-324 | A run of applies alone, from an untouched firewall, that ends with such an apply ends with exactly that firewall by the same condition |
| `FirewallRuns.RunRestoresInitial` | server/routers/asus/ssh_client.py:306-324 | So it does when nothing in the run is refused without reason |
| `FirewallRuns.SecondJumpSurvives` | server/routers/asus/ssh_client.py:249-255 | With two jumps a whole tear-down leaves one, and our chain |
| `FirewallRuns.RefusedCheckSurvives` | server/routers/asus/ssh_client.py:226-232 | A script on which it happens: one check refused although the jump is there, in a push that returns without error, and the next whole tear-down leaves a jump and our chain behind |
| `Fingerprint.HintFromQnames` | server/fingerprint.py:213-242 | The label of the rule with the lowest tier, then the most distinct names, then the earliest place, or none if nothing matches |
| `Fingerprint.HintIsUnique` | server/fingerprint.py:213-242 | Only the set of lower-case names matters: not order, repetition or case of the sample |
| `Fingerprint.OrderIrrelevantIff` | server/fingerprint.py:23-24 | The order of the rules does not matter for a sample if and only if all rules tied at the lowest firing tier and the highest count show the same label |
| `Fingerprint.OrderCanMatter` | server/fingerprint.py:32-48 | It does matter for the source's table, or any other that holds its rows for samsungosp.com and lgwebos.com and only texts of seven letters or more: a sample of those two names is a tie between two televisions |
| `Fingerprint.SpecificBeatsVendor` | server/fingerprint.py:14-23 | A specific rule that fires always beats every vendor-only rule |
| `Enforcement.UnifiBlocksExactlyTheOff` | server/routers/unifi/__init__.py:250-274 | With the kill-switch body of the stage's list on the controller, the enabled rule names exactly the MACs of the switched-off devices |
| `Enforcement.UnifiProtectsExactlyTheEnforced` | server/routers/unifi/__init__.py:288-349 | With the DoH body of the stage's list on the controller, the enabled rule takes the listed apps from exactly the enforced devices |
| `Enforcement.AsusBlocksExactlyTheOff` | server/routers/asus/__init__.py:176-219 | After a push, however the router stores it, the list blocks exactly the MACs of the switched-off devices and those the user blocks by hand |
| `Enforcement.EnforcedIsRedirected` | server/routers/asus/__init__.py:255-280 | Every enforced device with a known MAC has a rule in the list written, the director is on, and the first custom address is the dashboard's |
| `Enforcement.EnforcedCannotEncryptDns` | server/routers/asus/__init__.py:337-355 | After a whole push encrypted DNS of an enforced device is dropped unless the user's rules ahead of the jump decide it |
| `Enforcement.NobodySlipsThrough` | server/reconciler.py:433-567 | With all stages on and every push whole, a device with a known MAC and any profile but unrestricted is blocked outright, or has its DNS redirected, by our rule or the user's own, and every encrypted DNS packet dropped that no user rule ahead of our jump decides |
| `Enforcement.NobodySlipsThroughUnifi` | server/reconciler.py:433-567 | On UniFi with both bodies on the controller: a device with a known MAC and any profile but unrestricted is named by an enabled rule that takes its internet or its encrypted DNS |

## Left out

- `UnifiRuns.OneManagedRuleAlwaysIff`: the controller is taken to list every row with an id it never reuses, and users not
  to make rules with the two reserved names; for rows listed without an id the property is false
  (`UnifiRuns.BlankIdDuplicates`).
- `BlockListRuns.UserEntriesSurvive`: the desired MACs, not the user's, are taken to print without separators and
  entities, as every hexadecimal MAC does; the other results about ASUS runs take the same.
- `Interleaving.FreshTickConverges`: the resolved state stays fixed once the stale ticks are over; a tick is three steps
  (snapshot with resolution, read, write), which are the points where the event loop can switch.
- `Reconcile.Reconciler.Tick`: ends with the push; the router stages that follow it are modelled by themselves, and
  refreshing hints from query logs is not.
- `DohSteps.Apply`: `ipset restore` adds all addresses or none, and the probe for set matching is one
  command without effect on our tables.
- `Asus.AsusAdapter.ApplyDnsDirector`: reading and writing NVRAM is one exchange that works or fails as a whole, so a
  user edit between the read and the write of one tick is not modelled; the other stages of the adapter are alike.
- `Schedules.WindowIsUnrolledTimeline`: start and end lie in 0..1440, as the forms enforce.
- Runs of the store with edits or deletions of people, schedules and quotas: every single theorem holds for any such
  rows, but no run in `StoreRuns.dfy` changes them.
- HTTP, SSH, SQLite, asyncio, encryption and logging mechanics: only the state each call reads or changes is modelled.
- Crashes between the separate settings writes after a push.
- Text outside ASCII: case folding and blanks are those of ASCII. Integers are unbounded, as in Python; SQLite's 64 bits
  are not modelled.
- SHA-256 of a rule body is taken as injective: the model remembers the body itself.
- Wall clock, time zones and daylight saving: a tick is given seconds, weekday, minute and date.
- Building the snapshot dictionary from the client list, where the last client at an address wins: the snapshot is given.
- Rows about "all" that carry an id, which nothing reads.
- Labels of devices in the router stages: the lists of MACs do not depend on them.
- The NVRAM variables that are written back as read, URL filters and the other DNS addresses among them.
- UniFi's list of DoH app ids and its order: given, or absent when discovery fails.
- Block-list contents of the profiles, the web interface and its twin of the schedule check, deployment, audit log,
  overview and diagnosis: plumbing.
