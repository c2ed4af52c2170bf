# Hoolock bonding and network core: a verified model

Hoolock lets a mobile host hand its traffic over from one wireless link to another without
losing packets. It is built from a patched Linux bonding driver (2.6.24 and 2.6.27), the patched
network core of both kernels, a client program and a "plumber" that starts and kills the pipes
the links are made of. This project models the parts of that system that keep state, and proves
what they are meant to keep, for every input and over every run.

The models have two layers. Code that works by changing things in place is a class with the same
fields, and methods with the same branches and loops, down to the circular doubly linked ring of
slaves, the singly linked address list edited through the link to an entry, the hash buckets and
the channel slots. Each of these methods is proved equal to a transition on plain values (a slave
is then named by its place in the ring), and the main results are proved about those transitions.
Every critical section of the kernel is one atomic step. What comes from outside (the answer of a
link check, whether a device is up, whether an allocation, a fork or a driver call succeeds, what
a notifier answers) is a parameter that may have any value.

## What is where

| files | subject |
|---|---|
| `bond_state.dfy`, `bond_ring.dfy`, `bond_members.dfy`, `bond_runs.dfy`, `bond_driver.dfy` | the bonding driver: values, heap ring, enslave, release, ioctls, runs, and runs on the ring |
| `best_slave.dfy`, `bond_laws.dfy`, `active_backup.dfy`, `active_role.dfy` | the search for the best slave; what each operation does to pointers and slaves; active-backup safety, and the state of the active slave |
| `bond_monitor27.dfy`, `debounce.dfy`, `failover27.dfy`, `recovery27.dfy` | the 2.6.27 link monitor, its debouncing, who is active after a tick, and when it recovers |
| `monitor24.dfy`, `failover24.dfy`, `bond_monitor24.dfy` | the 2.6.24 link monitor, its recovery and its failover |
| `bond_mtu.dfy`, `bond_xmit.dfy`, `xmit_fairness.dfy`, `features.dfy`, `feature_fold.dfy` | MTU change, transmission and its fairness, feature bits and VLANs, and what the fold of the bits keeps |
| `addr_state.dfy`, `addr_list.dfy`, `addr_mirror.dfy`, `addr_restore.dfy` | reference-counted address lists |
| `multicast.dfy`, `mc_bond.dfy` | the bond's multicast references on its slaves |
| `dev_names.dfy`, `dev_tables.dfy`, `table_runs.dfy` | device names, the device list and its two hash indexes, runs over namespaces |
| `dma.dfy`, `receive.dfy`, `hoolock.dfy` | DMA channel rebalancing, receive with deferred delivery, the handover |
| `lists.dfy` | shared definitions |

## Main results

* **Debouncing is exact** (`Debounce.DebounceIsExact`). Over any run of enslave, release, tick and
  ioctl, a tick commits a slave DOWN if and only if its check has now failed exactly downdelay + 1
  times in a row, and brings one UP if and only if its check has succeeded exactly updelay + 1
  times in a row or a failover of that tick promotes it; failures are counted exactly.
* **Active-backup safety is exact** (`ActiveBackupSafety.EveryRunAgrees`, on the heap ring
  `BondDriver.PlayActiveBackup`). Two operations can break it, and nothing else: the make ioctl and
  the test ioctl, which no mode refuses. They do exactly when they move to a slave whose link is
  DOWN (`ActiveBackupSafety.StepAgreesIff`), and both get there from a new bond
  (`ActiveBackupSafety.BlindMovesAreReachable`). The test ioctl does not ask whether its device is
  a slave, and for one that is not it moves to the head of the ring.
* **The active slave reads ACTIVE** over a run without such moves exactly if it is never overtaken,
  that is, promoted by an earlier commit of the same tick and then marked BACKUP by its own
  (`ActiveRole.RunReadsActiveIff`); a run from a new bond does that (`ActiveRole.OvertakingIsReachable`).
* **Selection prefers the primary** (`BestSlaveLaws.BestSlaveIsBest`, `ReadyPrimaryIsSelected`), and
  what enslaving, releasing and the ioctls make of the active slave is told without the search
  (`BondLaws.EnslavedSelects`, `ReleasedActive`, `ChangeIsAcceptedIff`).
* **Failover is exact in both monitors** (`Failover27.FailoverIff`, `Failover24.FailoverIff24`): an
  active slave that has failed for its downdelay is replaced in the same tick, by nobody exactly if
  no slave is IS_UP with a good check. A primary that comes back takes over
  (`Failover27.PrimaryTakesOver`, `Failover24.PrimaryTakesOver24`), and nothing else moves the active
  slave (`Failover27.ActiveStays`, `Failover24.ActiveStays24`). In 2.6.24 a dead link is found in
  downdelay + 1 ticks (`Failover24.BoundedDetection`).
* **2.6.24 recovers** (`Monitor24.BoundedRecovery`): whatever the other slaves do, a slave that
  stays up gives the bond an active slave. **2.6.27 does so exactly if** the bond had one already or
  that slave was DOWN or BACK at the start (`Recovery27.RecoversIff27`): one that recovers before its
  downdelay is over is not noticed, and five steps from a new bond get there
  (`Recovery27.StuckIsReachable27`).
* **Address mirroring is exact** over every interleaving (`AddrMirror.RunBalances`,
  `AddrMirror.SyncIsExact`), and sync followed by unsync leaves no trace
  (`AddrRestore.SyncThenUnsyncRestores`).
* **Device tables agree** after any sequence of registrations, unregistrations, renames and moves
  (`TableRuns.Play`). A rename that a notifier vetoes is rolled back exactly when the name was no
  pattern, or the pattern gave unit 0: the unit is returned in the variable that says a rollback
  has already been tried (`DevTables.Net.ChangeName`).
* **Device name allocation** returns the least free unit; that it fails only when all units are
  taken holds exactly for formats whose suffix does not start with a digit
  (`DevNames.FailureIsHonestIff`).
* **Multicast references are conserved** throughout a run exactly if every event is safe when it
  comes (`Multicast.RunConservesIff`): always, if the saved copy of the bond's list is in step, and
  for a failover, a join and a leave in each kind of mode exactly under the condition proved for it.
* **The folded features** are known bit by bit in closed form (`FeatureFold.BondKeepsIff`,
  `SegmentationKeptIff`, `OtherBitKeptIff`), from which follows when the order of the slaves matters
  (`FeatureFold.KeptInEveryOrderIff`, `FeatureFold.KeptInSomeOrderIff`).
* **Round-robin is fair** for every window of frames, the wrap of the counter included, exactly if
  the number of slaves divides 65536 (`XmitFairness.AlwaysFairIff`).
* **A refused MTU change is undone** exactly when the slave that refused is not the ring's tail,
  or is the only slave (`BondMtu.ChangeMtu`).
* **The handover never loses the active pipe** over any number of handovers, early exits and
  restarts, exactly if no make is blind, that is, no fork fails for a pipe that is not up
  (`Handover.RunIsCoveredIff`, on the processes themselves `Handover.Client.Sessions`).

Where code and comments disagree the code is modelled. The comment on `bond_get_slave_by_dev`
promises NULL for a device that is not enslaved; the walk ends at the ring's head again
(27/bonding.h:230-247). The comment on the unwinding of an MTU change says that all slaves before
the failing one are restored; none are when the failing one is the tail (27/bond_main.c:4376-4389,
27/bonding.h:109-112). The name allocator says it fails when names do not fit or all bits are
used (24/dev.c:823-829); it also fails in the case above. The comment on robust segmentation says
one device that supports it enables it for all (27/dev.c:4691); in fact the last slave alone
decides (`FeatureFold.SegmentationKeptIff`).

## Model

| member | source | states |
|---|---|---|
| BondRing.Bonding.AttachSlave | 27/bond_main.c:1267-1281 | attaching refines appending: the ring stays linked both ways, its count right, and its sequence grows by the slave at the end |
| BondRing.Bonding.DetachSlave | 27/bond_main.c:1293-1314 | detaching refines removal at the slave's position, wherever the head is; next and prev stay each other's inverse and the slave's own are cleared |
| BondRing.BridgedIsLinked | 27/bond_main.c:1295-1309 | a ring whose neighbours bypass one slave is, without that slave, a well-formed ring |
| BondRing.Bonding.FindBestSlave | 27/bond_main.c:1079-1125 | the walk over the ring finds what the value-level search finds |
| BestSlaveLaws.BestSlaveIsBest | 27/bond_main.c:1079-1125 | begun at a primary that is IS_UP without ARP monitoring, else at the active slave, else at the head, the search finds the first ready slave in cyclic order, else the earliest settling one of least delay below updelay, and none exactly if there is neither |
| BestSlaveLaws.BestFromFinds | 27/bond_main.c:1107-1124 | the same for a search under way, from what it has seen so far |
| BestSlaveLaws.EverySlaveIsMet | 27/bonding.h:94-97 | a walk round the ring from any start meets every position exactly once |
| BestSlaveLaws.ReadyStartIsBest | 27/bond_main.c:1086-1113 | the slave it begins at wins if it is ready |
| BestSlaveLaws.ReadyPrimaryIsSelected | 27/bond_main.c:1101-1113 | a ready primary is selected whoever is active, unless there is ARP monitoring |
| BestSlaveLaws.SelectedWasFit | 27/bond_main.c:1107-1258 | whoever is active after a selection was ready or settling with less than updelay to go, and a new one is promoted |
| BestSlaveLaws.SelectKeepsHealthyActive | 27/bond_main.c:1236-1258 | selecting is a no-op while the active slave is healthy and no usable primary overrides it |
| BestSlaveLaws.SelectedIsReady | 27/bond_main.c:1143-1258 | a newly selected slave is ready; there is none exactly if no slave is ready or settling below updelay |
| BestSlaveLaws.SelectedIsFoundAgain | 27/bond_main.c:1079-1258 | the promoted slave is found again by a search from the same start |
| BestSlaveLaws.SelectIsIdempotent | 27/bond_main.c:1236-1258 | selecting twice is selecting once, promotion included |
| BondRing.Bonding.ChangeActiveSlave | 27/bond_main.c:1143-1223 | the new slave is promoted if it is settling and, in active-backup mode, the flags of both slaves follow |
| BondRing.Bonding.SelectActiveSlave | 27/bond_main.c:1236-1258 | on the ring, selection is the value-level selection |
| BondLaws.MoveTells | 27/bond_main.c:1143-1223 | what a change of the active slave does to every field of every slave: promotion of the new one, flags of both in active-backup mode, nothing else |
| BondMembers.GetSlaveByDev | 27/bonding.h:235-246 | finds the first slave on the device; on a miss it answers the head, not null |
| BondState.SlaveByDev | 27/bonding.h:235-246 | null only on an empty ring |
| BondState.SlaveByDevFrom | 27/bonding.h:240-246 | if the device is on the rest of the ring its first slave there is found |
| BondMembers.NewSlave | 27/bond_main.c:1495-1655 | a new slave's zeroed new_link reads UP, and its link and delay follow from the check and updelay |
| BondMembers.Enslave | 27/bond_main.c:1383-1778 | a failure before the slave is attached changes nothing; otherwise the ring grows by a fresh slave and the mode settles who is active |
| BondMembers.SettleNewSlave | 27/bond_main.c:1681-1732 | what each mode does with the new slave's flags and the active pointer |
| BondLaws.EnslavedLink | 27/bond_main.c:1637-1655 | link and delay of a new slave by miimon, check and updelay, also where the Hoolock mode makes it active at once |
| BondLaws.EnslavedSelects | 27/bond_main.c:1671-1689 | in active-backup mode: who is active after enslaving, when a named primary takes over, when the active slave stays, when nobody is active |
| BondLaws.EnslavedOtherwise | 27/bond_main.c:1713-1732 | in the other modes the first slave becomes active and stays so, all are ACTIVE, and nobody else is touched |
| BondLaws.EnslaveSpares | 27/bond_main.c:1679-1689 | in active-backup mode nobody is touched but the two that change places |
| BondMembers.Release | 27/bond_main.c:1791-1972 | the device's slave leaves the ring and all three pointers into it; if it was active a new one is selected |
| BondMembers.Unchain | 27/bond_main.c:1853-1863 | the slave leaves the ring, and neither the active nor the primary pointer stays on it |
| BondLaws.ReleasedActive | 27/bond_main.c:1865-1893 | after the active slave's release nobody is active exactly if none of the others is ready or settling below updelay; otherwise a ready slave is, and the primary if it is ready without ARP monitoring |
| BondLaws.ReleasedOther | 27/bond_main.c:1857-1893 | after another's the same slave is active, and the primary pointer follows its slave or becomes null |
| BondLaws.ReleaseSpares | 27/bond_main.c:1853-1893 | all slaves left are as they were, but for the one that takes over |
| BondMembers.ReleaseAll | 27/bond_main.c:2006-2124 | the ring is empty and all pointers null at the end |
| BondMembers.IoctlChangeActive | 27/bond_main.c:2137-2184 | accepted exactly for the active slave itself, or a ready slave when there is an active one |
| BondMembers.IoctlMake | 27/bond_main.c:2260-2282 | moves to the first slave in ring order that is not active, whatever its link, and starts buffering |
| BondMembers.IoctlTest | 27/bond_main.c:2235-2258 | moves to the slave found for the device, whatever its link and whether or not the device is a slave |
| BondLaws.ChangeIsAcceptedIff | 27/bond_main.c:2137-2184 | the change is carried out exactly in a mode with a primary, for the active slave itself or, if there is one, another that is ready |
| BondLaws.MakeMovesToFirstOther | 27/bond_main.c:2260-2282 | the make ioctl moves to the head, or to its successor if the head is active, and nowhere without another slave |
| BondLaws.TestMovesToFirstOn | 27/bond_main.c:2235-2258 | the test ioctl moves to the first slave on the device, or to the head if there is none |
| BondDriver.StepOnDevices | 27/bond_main.c:1267-2124 | enslaving appends a device, releasing removes one, and no operation reorders or replaces any |
| BondDriver.DeviceIsFound | 27/bonding.h:235-246 | on a ring without duplicates the lookup finds the slave on the device |
| BondDriver.Perform | 27/bond_main.c:1383-2595 | every operation on the heap ring is the step of the value-level run |
| BondDriver.Play | 27/bond_main.c:1383-2595 | any sequence of operations keeps the heap ring well formed and ends where the value-level run ends |
| BondDriver.PlayActiveBackup | 27/bond_main.c:1143-1258 | a bond made new and run through anything: without blind moves its flags, states and pointers agree on the ring itself, and never overtaken its active slave reads ACTIVE |
| ActiveBackupSafety.ChangeActiveAgrees | 27/bond_main.c:1143-1223 | making a slave active keeps agreement exactly if it is active already or its link is not DOWN |
| ActiveBackupSafety.MakeAgrees | 27/bond_main.c:2260-2282 | the make ioctl keeps agreement exactly if its target's link is not DOWN |
| ActiveBackupSafety.DesignatedAgrees | 27/bond_main.c:2235-2258 | the test ioctl keeps agreement exactly if the slave it finds is active already or its link is not DOWN |
| ActiveBackupSafety.SelectRestoresAgreement | 27/bond_main.c:1236-1258 | selection restores agreement after the active slave has lost its link |
| ActiveBackupSafety.ReleaseAgrees | 27/bond_main.c:1849-1893 | release keeps agreement, whichever slave leaves |
| ActiveBackupSafety.EnslaveAgrees | 27/bond_main.c:1679-1689 | enslaving keeps agreement |
| ActiveBackupSafety.CommitAgrees | 27/bond_main.c:2470-2562 | agreement holds after every prefix of the commit loop |
| ActiveBackupSafety.TickAgrees | 27/bond_main.c:2572-2608 | a whole monitor tick keeps agreement |
| ActiveBackupSafety.StepAgreesIff | 27/bond_main.c:1143-1258 | of all operations exactly a make or test ioctl that moves to a slave with its link DOWN breaks agreement |
| ActiveBackupSafety.RunAgreesIff | 27/bond_main.c:1143-1258 | a bond that agrees does so throughout a run exactly if no move in it is blind |
| ActiveBackupSafety.EveryRunAgrees | 27/bonding.h:283-298 | over any run from an empty bond, throughout exactly if no move is blind: IFF_SLAVE_INACTIVE is clear on exactly the active slave, no other slave is ACTIVE, its link is UP or FAIL, and the pointers lead into the ring |
| ActiveBackupSafety.BlindMovesAreReachable | 27/bond_main.c:2235-2282 | two enslavements lead a new bond to where both a make and a test ioctl are blind |
| ActiveRole.TickReadsActiveIff | 27/bond_main.c:2470-2562 | after a tick the active slave reads ACTIVE exactly if it was not promoted by an earlier commit of that tick before its own |
| ActiveRole.StepReadsActiveIff | 27/bond_main.c:1143-2562 | and no other operation makes it read BACKUP |
| ActiveRole.RunReadsActiveIff | 27/bond_main.c:1143-2562 | over any run without blind moves it reads ACTIVE throughout exactly if it is never overtaken |
| ActiveRole.OvertakingIsReachable | 27/bond_main.c:2486-2493 | four operations and a tick lead a new bond to an active slave that reads BACKUP |
| BondLaws.RunKeepsAllActive | 27/bond_main.c:1143-2562 | in every mode but active-backup all slaves are ACTIVE and none is flagged inactive, over every run |
| BondMonitor27.MiimonInspect | 27/bond_main.c:2370-2468 | the inspect pass ages every slave as specified and answers whether any has something to commit |
| BondMonitor27.MiimonCommit | 27/bond_main.c:2470-2562 | the commit pass carries the slaves' decisions out in ring order |
| BondMonitor27.MiiMonitor | 27/bond_main.c:2572-2608 | a tick on the ring is the value-level tick |
| Failover27.PrimaryTakesOver | 27/bond_main.c:2470-2514 | a primary that completes its updelay is active after the tick, whoever was before and whatever the others do |
| Failover27.ActiveStays | 27/bond_main.c:2470-2562 | an active slave that does not complete its downdelay stays active, unless the primary completes its updelay |
| Failover27.FailoverIff | 27/bond_main.c:2370-2562 | an active slave that completes its downdelay is not active after the tick; nobody is exactly if no slave is IS_UP with a good check, otherwise one that is UP |
| Failover27.FailedIsDisabled | 27/bond_main.c:2515-2562 | in active-backup mode any slave that completes its downdelay is BACKUP, flagged inactive and not active after the tick |
| Debounce.InspectIsExact | 27/bond_main.c:2380-2460 | what inspection decides for a slave follows from the streak of equal answers alone |
| Debounce.SelectOnOne | 27/bond_main.c:1143-1258 | selection changes another slave's link only by promoting it to active |
| Debounce.CommitOnOne | 27/bond_main.c:2470-2562 | through the whole commit loop a slave's link changes only as it decided itself, or by promotion |
| Debounce.TickIsExact | 27/bond_main.c:2370-2562 | exact DOWN and UP conditions and failure count of one tick |
| Debounce.RunTracks | 27/bond_main.c:2370-2562 | link and delay of a slave tell the length of its current streak, over any run and through changes of its position |
| Debounce.EnslavedIsAtRest | 27/bond_main.c:1637-1655 | enslaving leaves every new slave where exact debouncing starts, promoted or not |
| Debounce.DebounceIsExact | 27/bond_main.c:2370-2562 | over any run: DOWN is committed exactly after downdelay + 1 failures in a row, UP exactly after updelay + 1 successes in a row or by promotion, and failures are counted, saturating, at exactly the DOWN commits |
| Debounce.DelaysStayInRange | 27/bond_main.c:2384-2458 | FAIL and BACK delays stay within 0..downdelay and 0..updelay |
| Monitor24.PassOnOne | 24/bond_main.c:2291-2494 | what a pass shows of one slave, whether it ran to the end or gave up half way |
| Monitor24.VisitProgress | 24/bond_main.c:2295-2480 | a visit that finds the link up brings the slave a tick closer or stops for the lock, and demands a failover when there is no active slave |
| Monitor24.FullPass | 24/bond_main.c:2291-2509 | a pass that runs to the end makes progress, and leaves an active slave when one tick was left |
| Monitor24.TickProgress | 24/bond_main.c:2520-2544 | so does a tick, with one pass or two |
| Monitor24.Recovers | 24/bond_main.c:2265-2544 | after as many ticks as the slave's state needs there is an active slave |
| Monitor24.BoundedRecovery | 24/bond_main.c:2265-2544 | if one slave stays up for updelay + 2 ticks there is an active slave at the end, whatever the others do; with a nonzero updelay one tick fewer is enough |
| Failover24.VisitSetback | 24/bond_main.c:2304-2437 | what a visit with a bad check does: one of downdelay + 1 chances is gone, the last one stops for the lock or commits DOWN, with a failover exactly for the active slave; failures are counted |
| Failover24.VisitComeback | 24/bond_main.c:2304-2480 | what a visit with a good check does, until the slave is committed UP, with a failover exactly for the primary or where nobody is active |
| Failover24.TickKeepsLink | 24/bond_main.c:2265-2544 | if the active slave's link is UP or FAIL before a tick it is after it, and a new active slave is ready |
| Failover24.CommittedDownIsReplaced | 24/bond_main.c:2349-2509 | an active slave committed DOWN in a tick is replaced in it, by nobody or a ready slave |
| Failover24.RunKeepsLink | 24/bond_main.c:2265-2544 | over every run the active slave's link is UP or FAIL if it was at the start |
| Failover24.FailoverIff24 | 24/bond_main.c:2265-2544 | an active slave at its last chance is replaced; nobody is active exactly if no slave is IS_UP with a good check in the pass with the lock |
| Failover24.PrimaryTakesOver24 | 24/bond_main.c:2424-2509 | a primary that comes UP is active after the tick, whoever was before |
| Failover24.ActiveStays24 | 24/bond_main.c:2265-2544 | the active slave changes only if it is committed DOWN or the primary comes UP |
| Failover24.BoundedDetection | 24/bond_main.c:2265-2544 | a slave whose check is bad for downdelay + 1 ticks is DOWN and not active at the end, whatever the others do |
| Recovery27.ActiveIsFoundIff | 27/bond_main.c:2370-2562 | a 2.6.27 tick finds a bond without an active slave one exactly if some slave completes its updelay in it and some slave is up with a good check |
| Recovery27.TickOnward | 27/bond_main.c:2370-2562 | a tick that finds a slave up brings it nearer to UP, and once UP the bond has an active slave |
| Recovery27.Recovers27 | 27/bond_main.c:2370-2562 | a slave that stays up for the ticks it owes gives the bond an active slave, if it was DOWN or BACK or there was one |
| Recovery27.IdleStaysStuck | 27/bond_main.c:2401-2415 | a 2.6.27 bond without an active slave stays so for any number of ticks while the slaves that are UP or FAIL have good checks and the others bad ones |
| Recovery27.RecoversIff27 | 27/bond_main.c:2370-2562 | a slave up for any updelay + 1 ticks or more guarantees an active slave at the end exactly if there was one, or that slave was DOWN or BACK, at the start |
| Recovery27.StuckIsReachable27 | 27/bond_main.c:2401-2415 | five operations lead a new bond to where its one slave, though up, guarantees nothing |
| BondMonitor24.VisitFields | 24/bond_main.c:2295-2480 | the fall-through cases write the fields as specified |
| BondMonitor24.MonitorPass | 24/bond_main.c:2265-2510 | the loop on the ring, with its early returns, is the value-level pass |
| BondMonitor24.MiiMonitor | 24/bond_main.c:2520-2544 | one pass without the lock and, if it asks for it, one with it |
| BondMtu.SlavesFrom | 27/bonding.h:94-97 | bond_for_each_slave_from visits, from any start, every slave once and in ring order |
| BondMtu.Unwind | 27/bonding.h:109-112 | the walk from the head to a slave undoes all up to that slave, and nothing at all if it is the tail |
| BondMtu.DevSetMtu | 27/dev.c:3421-3443 | the MTU changes exactly when the answer is 0 |
| BondMtu.ChangeMtu | 27/bond_main.c:4327-4390 | on success every slave has the new MTU; on refusal, if undoing succeeds, all are back exactly when the refuser is not the tail or is alone |
| BondXmit.RoundRobinPicksFirst | 27/bond_main.c:4496-4513 | the frame goes to the first eligible slave in cyclic order from the counter's index, and to none exactly if none is eligible |
| BondXmit.XmitRoundRobin | 27/bond_main.c:4480-4522 | the walk does that, the 16-bit counter goes up by one, and the frame is queued once or freed |
| XmitFairness.RoundRobinIsFair | 27/bond_main.c:4480-4522 | with all slaves eligible any k frames that do not cross the wrap give each slave floor(k/n) or ceil(k/n) |
| XmitFairness.UnfairWindow | 27/bond_main.c:4480-4522 | if the number of slaves does not divide 65536 some window across the wrap is not fair |
| XmitFairness.AlwaysFairIff | 27/bond_main.c:4480-4522 | every window is fair exactly if it does |
| XmitFairness.TurnsBetween | 27/bond_main.c:4496-4503 | the exact number of counter values in a window that lead to a slave |
| BondXmit.MetReaches | 27/bond_main.c:4639-4697 | the slaves recorded on the way round are distinct and are exactly those that should receive |
| BondXmit.WhoGetsTheFrame | 27/bond_main.c:4657-4693 | only a slave that is up, UP and ACTIVE gets the frame, each such one if all clones can be made, and some one if there is any |
| BondXmit.XmitBroadcast | 27/bond_main.c:4639-4697 | every eligible slave gets exactly one copy if clones succeed, none ever two, and the frame itself goes to one of them or is freed |
| Features.ChecksumStep | 27/dev.c:4676-4703 | which checksum abilities survive one more slave |
| Features.StepIsSound | 27/dev.c:4676-4703 | one step of the fold keeps it sound |
| Features.BondFeaturesAreSound | 27/bond_main.c:1337-1362 | scatter-gather only if every slave has it and some checksumming is left, segmentation bits only with it, a checksum ability only if every slave has that or a stronger one |
| FeatureFold.BondKeepsIff | 27/bond_main.c:1337-1362 | which checksum abilities, and whether scatter-gather, are left after any slaves in their order, in closed form |
| FeatureFold.SegmentationKeptIff | 27/dev.c:4686-4701 | with scatter-gather the software segmentation bits are kept where every slave has them or general segmentation, UDP's where every slave has it, and robust segmentation exactly by the last slave |
| FeatureFold.OtherBitKeptIff | 27/bond_main.c:1337-1362 | and every other bit: fragment lists and high DMA by all slaves, the bond's own segmentation, LLTX and VLAN bits left alone, unnamed bits by the bond and all slaves |
| FeatureFold.FoldDependsOnOrder | 27/dev.c:4676-4703 | for any two slaves, exactly when their order decides whether general checksumming is kept |
| FeatureFold.KeptInEveryOrderIff | 27/dev.c:4676-4703 | general checksumming is kept in every order exactly if every slave has it and some slave needs checksums |
| FeatureFold.KeptInSomeOrderIff | 27/dev.c:4676-4703 | and in some order exactly if some slave needs checksums and all that do have it |
| Features.RecomputingIsIdempotent | 27/bond_main.c:1337-1362 | recomputing on unchanged slaves changes nothing |
| Features.FeatureBond.Recompute | 27/bond_main.c:1337-1362 | the loop computes the fold, and its result is sound and stable |
| Features.FeatureBond.HasChallengedSlaves | 27/bond_main.c:330-346 | true exactly if some slave cannot carry VLANs |
| Features.FeatureBond.EnslaveDevice | 27/bond_main.c:1413-1441 | VLANs are blocked exactly while some slave is challenged or the bond has neither slaves nor VLANs, kept by success, refusal and every early failure; the error in each case; all other bits recomputed |
| Features.FeatureBond.ReleaseSlave | 27/bond_main.c:1895-1923 | release keeps that, and recomputes all other bits |
| Features.FeatureBond.ReleaseAll | 27/bond_main.c:2012-2105 | releasing all keeps that |
| Features.FeatureBond.AddVlan | 27/bond_main.c:241-264 | a VLAN is never added to a bond with a challenged slave |
| Features.FeatureBond.DeleteVlan | 27/bond_main.c:275-319 | exactly one entry for the VLAN goes, or none and an error |
| AddrList.AddrList.Walk | 27/dev.c:3101-3103 | the walk stops at the link to the first entry for the address |
| AddrList.AddrList.Delete | 27/dev.c:3096-3120 | on the linked list, deletion is the value-level deletion, errors included |
| AddrList.AddrList.Add | 27/dev.c:3122-3152 | addition likewise; a new entry goes to the head |
| AddrList.Sync | 27/dev.c:3206-3231 | the walk that deletes from the list it walks is the value-level sync, also when an add fails half way |
| AddrList.Unsync | 27/dev.c:3233-3250 | likewise unsync |
| AddrMirror.AddEffect | 27/dev.c:3122-3152 | exactly one user more for exactly that address, none for a repeated global add, nothing on failure |
| AddrMirror.DeleteEffect | 27/dev.c:3096-3120 | exactly one user fewer, the entry gone with the last one, nothing on error |
| AddrMirror.MirrorBalances | 27/dev.c:3214-3221 | mirroring an entry keeps the balance |
| AddrMirror.UnmirrorBalances | 27/dev.c:3222-3227 | taking a mirror back keeps the balance |
| AddrMirror.SyncBalances | 27/dev.c:3206-3231 | a sync keeps the balance at every point where it can stop |
| AddrMirror.UnsyncBalances | 27/dev.c:3233-3250 | an unsync keeps the balance and leaves nothing mirrored |
| AddrMirror.StepBalances | 27/dev.c:3096-3250 | every operation keeps the balance |
| AddrMirror.RunBalances | 27/dev.c:3096-3250 | over every interleaving a destination address's count is its own users plus the number of sources that mirror it |
| AddrMirror.SyncIsExact | 27/dev.c:3206-3231 | after a successful sync a source holds exactly the addresses with a live outside user, each mirrored |
| AddrMirror.SyncFailsIff | 27/dev.c:3206-3231 | a sync fails exactly if more unmirrored addresses are missing in the destination than allocations succeed |
| AddrMirror.UnsyncIsExact | 27/dev.c:3233-3250 | after an unsync it mirrors nothing and holds exactly what is used |
| AddrRestore.DeleteUndoesAdd | 27/dev.c:3096-3152 | deleting what was just added restores the list exactly |
| AddrRestore.DeleteAddCommute | 27/dev.c:3096-3152 | adding one address and deleting another commute, order of entries included |
| AddrRestore.SyncMirrors | 27/dev.c:3206-3231 | a successful sync of an unmirrored source adds all its addresses and marks all its entries |
| AddrRestore.UnsyncRestores | 27/dev.c:3233-3250 | unsync deletes them again and unmarks them |
| AddrRestore.SyncThenUnsyncRestores | 27/dev.c:3206-3250 | sync then unsync restores both lists: entries, order and users, and so the list counters, which are the numbers of entries |
| Multicast.AddEachAccounts | 27/bond_main.c:985-993 | an upload adds one reference for each address |
| Multicast.DeleteEachAccounts | 27/bond_main.c:931-946 | a flush takes exactly those back |
| Multicast.CarrierLeft | 27/bond_main.c:931-946 | taking the list off a carrier takes exactly the bond's references off exactly if every uploaded address is on it and no other listed address has users of the device's own |
| Multicast.FailoverConservesIff | 27/bond_main.c:955-995 | a failover moves the references right, in a primary mode, to a slave exactly if the list is in step, to none exactly if it comes off the old active slave; in a trunk mode always |
| Multicast.EnslaveConservesIff | 27/bond_main.c:1558-1579 | in a trunk mode enslaving conserves references exactly if the list is in step, in a primary mode as the failover after it does |
| Multicast.ReleaseConservesIff | 27/bond_main.c:1936-1951 | releasing conserves references and leaves none on the slave that goes: always for a backup slave of a primary mode, for an active one with a successor exactly if the list is in step, otherwise exactly if the list comes off the slave |
| Multicast.ChangeListConserves | 27/bond_main.c:4303-4319 | a list change conserves references, and the saved copy is in step afterwards exactly if the device is up or the new list equals the copy |
| Multicast.ReversedAt | 27/bond_main.c:904-925 | the saved copy has the list's addresses in reverse order |
| Multicast.StepConservesIff | 27/bond_main.c:753-995 | every operation conserves references exactly if it is safe in that sense |
| Multicast.InSyncIsSafe | 27/bond_main.c:753-995 | which all are while the saved copy is in step |
| Multicast.StepTells | 27/bond_main.c:753-995 | what every operation does to slaves, active slave and list, whatever becomes of the references |
| Multicast.RunConservesIff | 27/bond_main.c:753-995 | throughout any run the carriers hold one reference per uploaded address for the bond, and no other device any, exactly if every event is safe when it comes |
| McBond.Bond.ChangeActiveSlave | 27/bond_main.c:955-995 | the loops of bond_mc_swap are the value-level failover |
| McBond.Bond.EnslaveDevice | 27/bond_main.c:1558-1579 | the loop uploads the list in the trunk modes only |
| McBond.Bond.ReleaseDevice | 27/bond_main.c:1936-1951 | the loop flushes it likewise |
| McBond.Bond.McAdd | 27/bond_main.c:827-841 | an address goes to the active slave, or to all slaves |
| McBond.Bond.McDelete | 27/bond_main.c:847-861 | and goes from them |
| McBond.Bond.McListCopy | 27/bond_main.c:904-925 | the saved copy is the list reversed |
| McBond.Bond.SetMulticastList | 27/bond_main.c:4266-4322 | the two difference loops and the copy are the value-level list change; while the bond is down the driver is not told |
| DevNames.ScanUndoesPrint | 24/dev.c:805-814 | scanning a printed name gives its unit back, if the suffix does not start with a digit |
| DevNames.MarkName | 24/dev.c:805-815 | a name marks a unit exactly if it is what printing that unit gives |
| DevNames.AllocUnit | 24/dev.c:800-829 | the loops choose the least unmarked unit |
| DevNames.AllocName | 24/dev.c:782-830 | the answer for malformed formats, plain names and patterns |
| DevNames.ReturnedUnitIsLeastFree | 24/dev.c:805-823 | for any format and any set of names a returned unit is the least whose name is free |
| DevNames.FailsOnlyWhenFull | 24/dev.c:821-829 | with names that fit and no digit after the number, failure means that every unit up to and with the limit is taken |
| DevNames.SomeUnitIsMisread | 24/dev.c:805-814 | behind a suffix that starts with a digit unit 1 or unit 2 does not scan back |
| DevNames.FailsWithRoomToSpare | 24/dev.c:782-830 | then three devices make the allocator fail with unit 3 free |
| DevNames.FailureIsHonestIff | 24/dev.c:782-830 | failure always means full exactly for suffixes that do not start with a digit |
| DevNames.ChosenExists | 24/dev.c:817-818 | the allocator always settles on some unit |
| DevNames.ParseTells | 24/dev.c:790-801 | the three answers of the checks on the string, each exactly when it is due |
| DevNames.PatternGetsLeastFree | 24/dev.c:782-830 | for every string with a single %d in reach the answer is the least unit whose name is free, with that name, or -ENFILE; and for honest formats -ENFILE exactly if all are taken |
| DevNames.RefusalIsExact | 24/dev.c:782-830 | -EINVAL exactly if a % in reach is not followed by d or another % comes after; -ENOMEM exactly for a pattern without a page; a plain name is clipped and taken or free |
| DevTables.Net.GetByName | 24/dev.c:568-579 | the hash lookup by name returns what a scan of the device list returns |
| DevTables.Net.GetByIndex | 24/dev.c:617-628 | so does the lookup by number |
| DevTables.Net.ListNetdevice | 24/dev.c:214-226 | list and buckets change together, and unlisting would undo it exactly |
| DevTables.Net.UnlistNetdevice | 24/dev.c:229-239 | the device leaves the list and both buckets |
| DevTables.ListedIsSound | 24/dev.c:214-226 | listing a device with a free name and number keeps the tables in order |
| DevTables.UnlistedIsSound | 24/dev.c:229-239 | unlisting keeps them in order |
| DevTables.RenamedIsSound | 24/dev.c:905-908 | moving a name node to its new bucket keeps them in order |
| DevTables.UnlistedUndoesListed | 24/dev.c:214-239 | listing then unlisting restores list and buckets exactly |
| DevTables.NextIndex | 24/dev.c:3524-3526 | the counter wraps from INT_MAX to 1 |
| DevTables.Net.NewIndex | 24/dev.c:3521-3530 | terminates across the wrap with the first number in cyclic order that no listed device has |
| DevTables.NotAllTried | 24/dev.c:3521-3530 | going round cannot come back to its first number while fewer numbers are in use than there are |
| DevTables.Net.AllocDevName | 24/dev.c:782-830 | the allocator over the listed names; a unit it returns names no listed device |
| DevTables.NameIsRefusedIff | 24/dev.c:750-765 | a name is refused exactly if it is empty or too long, a dot name, or has a slash or white space |
| DevTables.Net.ChangeName | 24/dev.c:869-926 | tables stay in order, at most two passes; the veto rolls the name back exactly if no unit above 0 was allocated, and otherwise the vetoed name stays and its unit is returned |
| DevTables.Net.CommitName | 24/dev.c:899-925 | the rename and rollback loop from its label on |
| DevTables.Net.Rehash | 24/dev.c:905-908 | the name node moves from the bucket it is in to that of the new name |
| DevTables.Net.RegisterNetdevice | 24/dev.c:3614-3746 | every error in its order; on success the device is listed with a new number, which is its iflink unless init left another, on any failure, veto included, the tables are exactly as before |
| DevTables.Net.RollbackRegistered | 24/dev.c:3543-3595 | the device is unlisted; one that was never registered is left alone |
| DevTables.Net.ChangeNetNamespace | 24/dev.c:4052-4151 | both namespaces stay in order; name and number change exactly when they clash, iflink follows the number exactly if it equalled it, the device is closed, and a failure changes nothing |
| DevTables.Net.DestName | 24/dev.c:4075-4094 | whether the device can come, and under which name |
| DevTables.Net.SettleIndex | 24/dev.c:4129-4135 | the number stays if it is free, and iflink follows it if it equalled it |
| TableRuns.Play | 24/dev.c:869-4151 | after any sequence of operations over any number of namespaces, each one's list and indexes agree |
| TableRuns.SoundIsAgreement | 24/dev.c:202-239 | names and numbers are unique, and each bucket holds exactly the listed devices that hash to it |
| Dma.MembersAreInOrder | 27/dev.c:4571-4586 | the walk over a CPU mask visits its members once, in order |
| Dma.NetDma.Serve | 27/dev.c:4580-4584 | the next n online CPUs point to the channel |
| Dma.NetDma.SpreadOver | 27/dev.c:4570-4586 | the loops give each channel its share, in order, and use up all online CPUs |
| Dma.NetDma.Rebalance | 27/dev.c:4559-4587 | afterwards the CPUs are spread over the registered channels, or point to none |
| Dma.NetDma.Event | 27/dev.c:4595-4642 | a new channel takes the first free slot, a removed one leaves its slot, anything else changes nothing; the mask is exactly the slots in use and the spread is up to date |
| Dma.NetDma.Search | 27/dev.c:4605-4613 | finds the channel if it is there, else the first free slot |
| Dma.RegisteredIsDistinct | 27/dev.c:4595-4642 | no channel holds two slots |
| Dma.CpusAreSpreadFairly | 27/dev.c:4559-4587 | every online CPU points to one registered channel, or none if there is none, and shares differ by at most one |
| Dma.SharesAddUp | 27/dev.c:4576-4578 | the shares add up to the number of online CPUs |
| Receive.Pointers | 27/dev.c:2203-2210 | the three device pointers select exactly the matching functions |
| Receive.WhoIsReached | 27/dev.c:2203-2273 | whom a packet can reach; one that the bond should drop only the functions for the very device it came in on |
| Receive.RunTaps | 27/dev.c:2231-2247 | every matching tap but the last has been called with an added reference |
| Receive.RunHandlers | 27/dev.c:2267-2282 | the same over the protocol's handlers, up to the first that buffers |
| Receive.NetifReceiveSkb | 27/dev.c:2182-2297 | unbuffered: each match runs once, in order, all but the last with an added reference, and none of the caller's is left; buffered by a tap: no handler runs and the caller's one reference survives; the other cases exactly |
| Handover.Plumber.Serve | src/plumb.c:73-149 | a make of a pipe that has a process is ignored, a break ends whatever there is, and the answer is always the same |
| Handover.Client.GetActive | 27/bond_main.c:4164-4180 | the active slave's name, or an error if there is none |
| Handover.Client.GetPassive | 27/bond_main.c:4181-4199 | the name of the slave that is not active |
| Handover.Client.BondMake | 27/bond_main.c:2260-2282 | on a bond of two slaves the make ioctl swaps them |
| Handover.Client.BondBreak | 27/bond_main.c:2284-2322 | buffering stops; active slave and pipes stay |
| Handover.Client.Start | src/hoolock_client.cc:142-169 | the first make, and the exits before it |
| Handover.Client.Turn | src/hoolock_client.cc:191-396 | one turn of the loop goes through exactly the steps make pipe, move bond, break pipe; the exit code where an answer is missing, and that a client that stops between make and break leaves the bond buffering |
| Handover.TurnTells | src/hoolock_client.cc:191-396 | who is active and whose pipe is live after each step, and how many steps there are by the answers |
| Handover.UnfinishedIsLast | src/hoolock_client.cc:191-396 | a turn that does not go through, a failed delivery included, is the last |
| Handover.Client.Session | src/hoolock_client.cc:26-396 | a whole run of the client goes through the session's worlds |
| Handover.Client.Sessions | src/hoolock_client.cc:26-396 | any number of runs; covered at every step exactly if no make is blind |
| Handover.RoundIsCovered | src/hoolock_client.cc:191-396 | wherever a turn stops, the active slave's pipe was live throughout, exactly if the make was not blind |
| Handover.CompletedIsAlone | src/hoolock_client.cc:366-386 | a completed handover, also one begun with both pipes up, leaves exactly the new active slave's pipe live |
| Handover.RoundsAreCoveredIff | src/hoolock_client.cc:191-396 | the same over the turns of one run |
| Handover.RunIsCoveredIff | src/hoolock_client.cc:142-396 | the same over any number of handovers, early exits and restarts |
| Handover.EveryStepIsCovered | src/hoolock_client.cc:142-396 | with successful forks every step from the first make on is covered |

## Left out

- The modes 802.3ad, TLB and ALB, whose code is not part of this model, and the ARP monitors (their jiffies arithmetic and probing), which alone set the pointer `current_arp_slave`; that release clears it is modelled.
- The contents of the Hoolock packet buffer: `bond_hoolock_recv` compares a device pointer with a slave pointer (27/bond_main.c:2349) and so never buffers as written; the receive path has an abstract function that answers that it buffered.
- Locks, RCU, softirqs, queueing disciplines, carrier state, gratuitous ARP, MAC addresses, promiscuity and allmulti counts, sysfs, /proc, module parameters, MII and ethtool probing, `register_netdevice`'s corrections of feature bits.
- 2.6.27's `dev_change_name`, which can return with a stale bucket; the 2.6.24 version is modelled.
- BondMembers.Enslave: takes the result of the steps before the slave is attached as one input; the failure of the symbolic link after attaching (27/bond_main.c:1740-1742) is taken not to happen.
- BondMembers.Release: whether the device's master is this bond comes in as an input, which stands for the check at 27/bond_main.c:1799-1806.
- BondDriver.Play: the caller enslaves no device twice, which the source refuses by IFF_SLAVE (27/bond_main.c:1406-1410), a flag that is not modelled.
- Debounce.DebounceIsExact: delays are fixed for the run, and the slave is followed until it is released.
- Monitor24.BoundedRecovery: the ring does not change during those ticks; nor does it in `Recovery27.RecoversIff27`, which starts from delays that `Debounce.DelaysStayInRange` proves.
- BondMtu.ChangeMtu: the slaves' `change_mtu` methods are an input each, for the change and for its undoing.
- Features.FeatureBond.AddVlan: the VLAN layer, which refuses a device that has the bit set, is not part of this model; that it refuses is taken as given, and the allocation of the entry as successful.
- Multicast.RunConservesIff: allocations succeed. Releasing all slaves is a failover to none and then the leaving of each.
- McBond.Bond.SetMulticastList: the devices' lists are map entries here, not linked entries; those are module AddrList.
- DevNames.Scan: sscanf and snprintf are not part of the repository and are written from what the C library promises; white space in a format is matched literally.
- DevTables.Net.ChangeName: what notifiers do to other devices, and the result of renaming the kernel object, are not modelled. Bucket chains are sequences of devices, not linked nodes.
- DevTables.Net.NewIndex: requires fewer devices than there are numbers, without which the source's loop does not end.
- DevTables.Net.ChangeNetNamespace: the two namespaces are different objects with different buckets, or the same object.
- Dma.NetDma.Event: the set of online CPUs is fixed.
- Receive.NetifReceiveSkb: classifier, bridge and macvlan hooks are off and the namespace check is passed.
- Handover.Client.Turn: NOX is an acknowledgement that comes or not, a pipe is live or not, commands reach the plumber once it is connected to, and nothing else touches the bond meanwhile.
- src/xmit_test.c, the other client programs and tests, scripts and documents: input and output only.
