# Verified models of a KVM userspace

The programs modelled here emulate the hardware around a KVM virtual machine. This project
restates their state machines, data structures and protocols in Dafny and proves what they
keep. In-place code is modelled in place: classes, arrays and loops, each method proved
against a function on values or a property stated outright; lemmas then say what those
functions mean. Protocols between threads are state machines over the points where the
program takes or drops a lock, and the theorems speak of every run.

- **Interrupt presentation (`Xics*.dfy`)**: the PAPR interrupt controller. No interrupt is
  stranded, and none is lost, over any run of hypercalls, RTAS calls and device edges. The
  operations that can break this (an accept with nothing shown, an EOI with too low a
  priority, a careless set-xive, a rejected source masked) are pinned down by exact
  conditions.
- **Red-black trees (`Rb*.dfy`)**: insertion, erasure and both rebalancing loops on nodes
  with parent links, the walks, and the interval tree that dispatches trapped accesses. The
  shape is kept as a tree in a context (a zipper), so each loop turn speaks of one place.
- **qcow2 (`Qcow*.dfy`)**: reads through the table cache equal a flat disk; the refcount
  allocator, with its mutual recursion, never hands out a cluster twice.
- **Thread pool, trapped ranges, pause barrier (`ThreadPool.dfy`, `Pool*.dfy`,
  `Mmio*.dfy`, `PauseBarrier.dfy`)**: protocols of any number of threads.
- **Address space (`MemBanks.dfy`, `Pci*.dfy`)**: memory banks with merging reservations,
  and PCI base address registers against the trap trees (section 6.2.5.1 of PCI Local Bus
  Specification 3.0).
- **Virtqueues (`UsedRing.dfy`, `NetReceive.dfy`)**: the used ring and event index (sections
  2.7.7 and 2.7.8 of Virtio 1.2) and mergeable receive (section 5.1.6.4).
- **RISC-V PLIC (`Plic*.dfy`)**, **9P codec (`P9*.dfy`, `Iovec.dfy`)**, **bit sets
  (`Bitmap*.dfy`)**.
- `Arith.dfy`, `Lists.dfy` and `Wrappers.dfy` hold shared helpers.

Each operation is also pinned from outside: `XicsRegisters.dfy`, `PciRegisters.dfy` and
`PlicRegisters.dfy` say what it leaves in every register, `QcowFormat.dfy` and `P9Wire.dfy`
spell out bytes as a writer or reader of the format would, `MmioRanges.dfy` and
`BitmapText.dfy` speak of addresses and of texts, and `PoolProgress.dfy` of work done.

## Where the code does not do what is wanted

Each of these but the last is proved: a lemma says exactly when it happens, as an
if-and-only-if, or a concrete case shows it, or both.

- An accept with nothing shown copies a stale priority into CPPR and can strand a source
  (`XicsSafety.AcceptKeepsExactly`, `XicsSafety.AcceptCanStrand`).
- A waiting source that is masked is dropped by the next resend
  (`XicsConservation.UnmaskedExactly`, `XicsConservation.MaskingLoses`).
- A failed cluster read is taken for a 32-bit count: a read whose first cluster fails is
  reported as complete (`QcowRead.ErrorReadsAsSuccessExactly`,
  `QcowRead.ErrorReadsAsSuccess`), and one that fails later can write outside its buffer
  (`QcowRead.SingleWildExactly`, `QcowRead.TornReadsWild`).
- A reservation that merges before it clashes fails and leaves overlapping banks
  (`MemBanks.Machine.RegisterMem`, `MemBanks.FailedReserveOverlaps`).
- Moving a PCI BAR re-activates every BAR over the old range, also one whose space is
  switched off (`PciMove.MoveEnabledExactly`, `PciSafety.MoveWakesDisabled`), and storing
  a value into an active BAR leaves its old range registered
  (`PciSafety.BarWriteInvExactly`, `PciSafety.MoveWakesDisabled`).
- A BAR moved onto an active one does not take effect if either range ends at 4 GB, or if
  their ports are the same only once cut to 16 bits (`PciMove.MoveTakesEffectExactly`,
  `PciMove.CanLandMeans`; `PciMove.BarAtTopFails`, `PciMove.RangeAtTopFails`,
  `PciMove.PortAboveFails`).
- A signal that overlaps the cancellation of its job can strand the job
  (`ThreadPool.StepKeepsExactly`, `ThreadPool.HarmStrands`, `ThreadPool.CancelRace`); the
  comment in the code forbids it.
- Event indices are missed after 65536 completions without a signal
  (`UsedRing.NeedEventExactly`).
- 9P strings longer than 32767 bytes do not come back (`P9Codec.RoundAllExactly`).
- A bit list whose group is so long that the first step wraps 32 bits, such as
  `1-5:1/4294967295`, sets a bit below its region (`BitmapParse.RegionRightExactly`,
  `BitmapParse.WrapText`).
- The PLIC threshold register is stored but never compared, so the guest is interrupted for
  sources at or below it, and claims return sources of priority 0, unlike chapter 7 of the
  RISC-V Privileged Architecture v1.10 (`PlicSpec.LineExactly`, `PlicSpec.ClaimExactly`,
  `PlicSpec.PresentsBelowThreshold`).
- Rejecting the inter-processor interrupt writes before the array of sources
  (arch/powerpc/xics.c:216-220 with number 2); the model does nothing there, and nothing
  more is proved about it.

## Model

| member | source | states |
|---|---|---|
| Xics.Controller.constructor | arch/powerpc/xics.c:396-456 | A new controller shows no interrupt, every source is masked, and the representation is valid. |
| Xics.WithXisr | arch/powerpc/xics.c:49-53 | Replacing the low 24 bits of the packed word changes XISR and nothing else. |
| Xics.WithCppr | arch/powerpc/xics.c:49-53 | Replacing the high byte of the packed word changes CPPR and nothing else. |
| Xics.Controller.IcsReject | arch/powerpc/xics.c:216-220 | Rejecting flags exactly the source named; for the inter-processor interrupt, which is no source and which MFRR remembers, the model does nothing. |
| Xics.Controller.IcpCheckIpi | arch/powerpc/xics.c:77-91 | An IPI displaces what is shown only if it is more urgent; the displaced source is sent back. |
| Xics.Controller.IcpIrq | arch/powerpc/xics.c:153-178 | A source is shown, or flagged rejected, by comparison with CPPR and with what is already shown. |
| Xics.Controller.IcsResend | arch/powerpc/xics.c:222-236 | The loop over the sources equals the turn-by-turn re-presentation whose effect the lemmas below describe. |
| Xics.Controller.IcpResend | arch/powerpc/xics.c:93-100 | A pending IPI first, then every rejected source of every server. |
| Xics.Controller.IcpSetCppr | arch/powerpc/xics.c:102-122 | Lowering CPPR withdraws what is shown if it is no longer urgent enough; raising it with nothing shown resends. |
| Xics.Controller.IcpSetMfrr | arch/powerpc/xics.c:124-131 | The whole new state after writing MFRR. |
| Xics.Controller.IcpAccept | arch/powerpc/xics.c:133-140 | Returns the packed word from before, takes the interrupt off and copies its priority to CPPR. |
| Xics.Controller.IcpEoi | arch/powerpc/xics.c:142-151 | CPPR comes from the guest unchecked; with nothing shown, everything rejected is presented again. |
| Xics.Controller.IcsSetIrqMsi | arch/powerpc/xics.c:203-214 | An edge on a masked source is remembered, any other is presented. |
| Xics.Controller.IcsWriteXiveMsi | arch/powerpc/xics.c:238-251 | Route and priority change, and a remembered edge is delivered when the mask goes. |
| Xics.Controller.HCppr | arch/powerpc/xics.c:268-274 | The hypercall is the corresponding step of the abstract controller. |
| Xics.Controller.HIpi | arch/powerpc/xics.c:276-287 | A server that does not exist is refused and changes nothing; otherwise the abstract step. |
| Xics.Controller.HXirr | arch/powerpc/xics.c:289-295 | The guest reads the source and priority that were shown; the abstract step. |
| Xics.Controller.HEoi | arch/powerpc/xics.c:297-303 | The abstract step with CPPR from the high byte of the argument. |
| Xics.Controller.RtasSetXive | arch/powerpc/xics.c:305-328 | Succeeds exactly on an existing source, an existing server and a priority of one byte; otherwise nothing changes. |
| Xics.Controller.KvmIrqLine | arch/powerpc/xics.c:459-466 | A device edge is the abstract step. |
| XicsSafety.RejectKeeps | arch/powerpc/xics.c:216-220 | Flagging a source that its server cannot show now keeps the no-stranding invariant. |
| XicsSafety.IcpIrqKeeps | arch/powerpc/xics.c:153-178 | Delivering a source, whether shown or rejected, strands neither it nor the one displaced. |
| XicsSafety.CheckIpiKeeps | arch/powerpc/xics.c:77-91 | Showing an IPI strands neither an interrupt nor the IPI. |
| XicsSafety.ResendOneKeeps | arch/powerpc/xics.c:222-236 | One turn of the resend loop extends the invariant from the first i sources to the first i + 1. |
| XicsSafety.IcpResendRestores | arch/powerpc/xics.c:93-100 | After raising CPPR with nothing shown, a resend restores the invariant for all sources and servers. |
| XicsSafety.SetCpprKeeps | arch/powerpc/xics.c:102-122 | H_CPPR keeps the invariant for every value. |
| XicsSafety.SetMfrrKeeps | arch/powerpc/xics.c:124-131 | H_IPI keeps the invariant for every value. |
| XicsSafety.EoiKeepsExactly | arch/powerpc/xics.c:142-151 | H_EOI keeps the invariant if and only if nothing is shown or the new CPPR stays above the priority shown. |
| XicsSafety.AcceptKeepsExactly | arch/powerpc/xics.c:133-140 | H_XIRR keeps the invariant if and only if an interrupt is shown, or the stale priority is not above CPPR, or nothing at this server, MFRR included, waits below it. |
| XicsSafety.WriteXiveKeepsExactly | arch/powerpc/xics.c:238-251 | Set-xive keeps the invariant if and only if a shown source keeps its server and priority and a rejected one is neither masked nor made deliverable. |
| XicsSafety.SetIrqKeeps | arch/powerpc/xics.c:203-214 | A device edge keeps the invariant. |
| XicsSafety.StepKeeps | arch/powerpc/xics.c:77-303 | Every operation that meets the exact guards above keeps the invariant, for any number of servers and sources. |
| XicsSafety.NoInterruptIsStranded | arch/powerpc/xics.c:77-303 | Over every run of legal operations no interrupt that could be delivered waits unpresented. |
| XicsSafety.DeliverableIsPresented | arch/powerpc/xics.c:153-178 | In an invariant state a rejected source more urgent than its server's CPPR has something at least as urgent shown. |
| XicsSafety.AcceptCanStrand | arch/powerpc/xics.c:133-140 | A concrete run in which accepting with nothing shown strands a source, because CPPR takes a stale priority. |
| XicsConservation.ResendOneLosesExactly | arch/powerpc/xics.c:222-236 | A turn of the resend loop loses a source if and only if it is rejected, masked to 0xff, and shown nowhere. |
| XicsConservation.ResendToLosesExactly | arch/powerpc/xics.c:222-236 | In any state the whole loop loses a source if and only if, when its turn comes, it is masked, waits and is shown nowhere, also if the loop itself displaced it. |
| XicsConservation.ResendToHeld | arch/powerpc/xics.c:222-236 | As long as no waiting or shown source is masked, the whole resend loop loses and invents nothing. |
| XicsConservation.IcpIrqHolds | arch/powerpc/xics.c:153-178 | Delivering a source holds on to everything held and to that source. |
| XicsConservation.AcceptTakes | arch/powerpc/xics.c:133-140 | An accept gives up exactly the source it returns. |
| XicsConservation.StepConserves | arch/powerpc/xics.c:77-303 | Every operation, stale accepts and low EOIs included, changes what is held by exactly the edge it raises or the source it returns. |
| XicsConservation.StepLosesExactly | arch/powerpc/xics.c:93-251 | In any state an operation other than an accept loses a source if and only if it resends and the loop drops that source, which is not remembered as a masked edge. |
| XicsConservation.UnmaskedExactly | arch/powerpc/xics.c:238-251 | No shown or waiting source is masked afterwards if and only if the operation is not a set-xive that masks one. |
| XicsConservation.LegalIsCareful | arch/powerpc/xics.c:77-303 | Runs that keep the no-stranding invariant are among those in which nothing is lost. |
| XicsConservation.RaisedIsNotLost | arch/powerpc/xics.c:77-303 | Over any run that never masks a shown or waiting source, a raised source is still shown, rejected or remembered until an accept returns exactly it. |
| XicsConservation.TakenWasRaised | arch/powerpc/xics.c:77-303 | On the same runs nothing is returned by an accept that was not raised before. |
| XicsConservation.MaskingLoses | arch/powerpc/xics.c:229-233 | A concrete state in which masking a waiting source and then an EOI loses it. |
| XicsRegisters.StepSets | arch/powerpc/xics.c:93-303 | After every operation each CPPR, MFRR, route and priority holds what the operation wrote there, and otherwise what it held; the resend loop writes none. |
| XicsRegisters.CpprIsLastWritten | arch/powerpc/xics.c:102-151 | Over any run a CPPR is the last value that H_CPPR, H_EOI or an accept wrote to it. |
| XicsRegisters.MfrrIsLastWritten | arch/powerpc/xics.c:124-131 | Over any run an MFRR is the last value that H_IPI wrote to it. |
| XicsRegisters.BeginsShut | arch/powerpc/xics.c:396-456 | A new controller shows nothing, CPPR lets nothing through, and every source is masked. |
| XicsRegisters.EdgeIsShown | arch/powerpc/xics.c:153-178 | An edge on an unmasked source is shown at once if and only if CPPR and what is shown leave room; otherwise it waits. |
| XicsRegisters.IpiIsShown | arch/powerpc/xics.c:77-91 | An IPI is shown at once if and only if MFRR is more urgent than CPPR and than what is shown; a tie displaces nothing. |
| XicsRegisters.CpprTakesBack | arch/powerpc/xics.c:102-122 | Lowering CPPR takes back what is shown if and only if it is not more urgent than the new value, and flags its source. |
| XicsRegisters.AcceptTakesOff | arch/powerpc/xics.c:133-151 | An accept takes the interrupt off its server and touches no other; an EOI under something shown changes only CPPR. |
| XicsRegisters.TurnIsEdge | arch/powerpc/xics.c:222-236 | A turn of the resend loop is a fresh edge of the source, its flag lowered; a masked source is only dropped. |
| RbTreeShape.Rotation | util/rbtree.c:59-64 | A rotation keeps the nodes, their order and their uniqueness. |
| RbTreeShape.PlugBalanced | util/rbtree.c:22-44 | A balanced subtree in a context that expects its height makes a red-black tree. |
| RbTreeShape.Close | util/rbtree.c:22-44 | When the walk has reached the root, the parent links describe one whole red-black tree. |
| RbRotate.ChangeChild | include/linux/rbtree_augmented.h:105-114 | The parent or the root now points to the replacement; the rest of the tree is linked as before. |
| RbRotate.RotateSetParents | util/rbtree.c:59-64 | The replacement takes over parent and colour, and the old node hangs below it. |
| RbRotate.Rotate | util/rbtree.c:59-64 | Pointer for pointer, two nodes and three subtrees change places into the rotated tree. |
| RbInsert.InsertCase2 | util/rbtree.c:110-132 | The inner rotation leaves the tree with the red pair on the outer side. |
| RbInsert.InsertFlip | util/rbtree.c:87-108 | After the colour flip the grandparent is a red root of the same nodes in the same places. |
| RbInsert.InsertTurn | util/rbtree.c:69-186 | One turn of the loop either finishes with a red-black tree or moves the violation two levels up, order unchanged. |
| RbInsert.InsertColor | util/rbtree.c:66-186 | From a red leaf linked into a red-black tree, the loop ends with a red-black tree, links right, order unchanged. |
| RbEraseColor.EraseLower | util/rbtree.c:206-222 | A red sibling is rotated above the parent; the short subtree keeps its place. |
| RbEraseColor.EraseRedden | util/rbtree.c:225-250 | Reddening the sibling makes both sides short alike. |
| RbEraseColor.EraseFar | util/rbtree.c:274-292 | With a red outer nephew one rotation gives the short side its black; every link is accounted for. |
| RbEraseColor.EraseNear | util/rbtree.c:252-292 | With a red inner nephew the two rotations give the subtree expected. |
| RbEraseColor.EraseTurn | util/rbtree.c:194-341 | One turn of the loop either restores all invariants or moves the deficit one level up, in either mirror image. |
| RbEraseColor.EraseColor | util/rbtree.c:191-341 | From a tree one black short at one place, the loop ends with a red-black tree with the same nodes in the same order. |
| RbErase.SpliceOut | include/linux/rbtree_augmented.h:125-149 | A node with one child is replaced by it, links and colour included. |
| RbErase.Successor | include/linux/rbtree_augmented.h:150-185 | The walk down the left spine ends at the first node of the subtree in order, with the spine as the path. |
| RbErase.MoveSuccessor | include/linux/rbtree_augmented.h:184-197 | The successor leaves its place and takes the place of the erased node. |
| RbErase.EraseOne | include/linux/rbtree_augmented.h:125-149 | Erasing a node with at most one child, rebalancing included, leaves a red-black tree without it, order unchanged. |
| RbErase.EraseTwo | include/linux/rbtree_augmented.h:150-211 | Erasing a node with two children likewise. |
| RbErase.Erase | util/rbtree.c:369-374 | For any node of any red-black tree, erasing leaves a red-black tree with exactly that node missing from the order. |
| RbWalk.End | util/rbtree.c:391-409 | The first or last node in order, or none. |
| RbWalk.Step | util/rbtree.c:411-462 | The node just after or just before this one in order, wherever it occurs, or none at the end. |
| RbWalk.LeftDeepest | util/rbtree.c:478-487 | The node a postorder walk visits first. |
| RbWalk.NextPostorder | util/rbtree.c:489-504 | The node just after this one in postorder, or none. |
| RbWalk.PlugPostorder | util/rbtree.c:489-504 | Postorder of the whole is what comes before a subtree, the subtree, and what comes after. |
| RbInterval.SearchSingle | util/rbtree-interval.c:5-20 | Finds the interval that holds a point, and fails only if none does. |
| RbInterval.SearchRange | util/rbtree-interval.c:22-34 | Finds the interval that holds a whole range, and fails only if none does. |
| RbInterval.FindLink | util/rbtree-interval.c:36-48 | The descent finds a clash, or the one place where the new interval keeps the order. |
| RbInterval.IntInsert | util/rbtree-interval.c:36-55 | Succeeds exactly when nothing overlaps; then the tree stays red-black and ordered with the interval added. |
| RbInterval.IntErase | include/kvm/rbtree-interval.h:29-31 | Removes one interval; the rest stay ordered and disjoint. |
| RbInterval.Link | include/linux/rbtree.h:74-79 | A new node hangs where the search ended, red and childless. |
| QcowImage.ShiftTwice | disk/qcow.c:190-200 | The index into the L1 table taken by one shift is the quotient of quotients. |
| QcowImage.LocateAlong | disk/qcow.c:349-435 | Within a cluster, consecutive guest bytes are kept at consecutive places. |
| QcowRead.ChunkFailsExactly | disk/qcow.c:349-435 | A cluster read fails if and only if its first byte is outside the tables, behind an unreadable table, not decompressible, or past the end of the file. |
| QcowRead.ChunkIsFlat | disk/qcow.c:349-435 | When every byte is readable, a cluster read returns the bytes of the virtual disk. |
| QcowRead.ChunkSkips | disk/qcow.c:349-435 | A successful cluster read leaves bytes past the end of the file as they were. |
| QcowRead.SingleIsFlatExactly | disk/qcow.c:437-467 | A read into one buffer returns the virtual disk whatever the buffer held before, if and only if every byte is readable and every chunk starts inside the disk. |
| QcowRead.ErrorReadsAsSuccess | disk/qcow.c:440-460 | A concrete image on which a failed cluster read is reported as a full read that filled nothing in. |
| QcowRead.ErrorReadsAsSuccessExactly | disk/qcow.c:440-460 | A read whose first failing chunk is p bytes in is reported as complete if and only if the p places 4 GB apart behind it all lie on the disk and fail too; for p = 0 always. |
| QcowRead.SingleWildExactly | disk/qcow.c:440-460 | A read writes outside its buffer if and only if its first failing chunk is not the first and one of those places can be read, those before it lying on the disk. |
| QcowRead.TornReadsWild | disk/qcow.c:440-460 | A concrete image on which reading two clusters writes outside the buffer. |
| QcowRead.ScatterIsFlatExactly | disk/qcow.c:469-486 | A scattered read of whole-sector buffers returns the virtual disk if and only if each part is sound; the cuts do not matter. |
| QcowRead.InsideIsSound | disk/qcow.c:469-486 | A range inside the disk with every byte readable is sound however it is cut. |
| QcowFormat.Be64Reads | disk/qcow.c:396 | Eight bytes written most significant first are read as the number they stand for. |
| QcowFormat.NoTableReads | disk/qcow.c:349-385 | Clusters that L1 gives no table read as zeros; past L1, or where the table lies past the end of the file, nothing can be read. |
| QcowFormat.PlainEntryReads | disk/qcow.c:396-435 | An entry written big-endian into table j at place i, with or without COPIED, is the place in the file of guest cluster j * L2 size + i; place zero reads as zeros. |
| QcowFormat.CompressedEntryReads | disk/qcow.c:396-412 | A compressed entry reads as the inflated cluster, and fails without one. |
| QcowFormat.SectorsRead | disk/qcow.c:437-467 | A sound read returns the bytes of the disk from 512 times the sector on. |
| QcowFormat.WrittenSectorReads | disk/qcow.c:349-467 | A read inside one cluster whose entry was so written returns exactly that part of the file. |
| Qcow.Disk.CacheTable | disk/qcow.c:122-154 | Tree and list keep the same tables, at most 32, each equal to the file; a full cache drops the least recently used. |
| Qcow.Disk.L2TableSearch | disk/qcow.c:156-168 | A hit returns the table of the file and moves it to the end of the list, the others keeping their order. |
| Qcow.Disk.ReadL2Table | disk/qcow.c:208-237 | The table at an offset, cached or not; fails exactly past the end of the file; the list then holds the 32 tables used last. |
| QcowCache.HitKeeps | disk/qcow.c:156-168 | Moving a table found to the end leaves the tables used last, by last use. |
| QcowCache.MissKeeps | disk/qcow.c:122-154 | So does adding a table and dropping the first of a full list. |
| QcowCache.RecentOrder | disk/qcow.c:122-168 | The list is ordered by last use. |
| QcowCache.CachedExactly | disk/qcow.c:122-168 | A table is cached if and only if fewer than 32 others were used since its last use. |
| Qcow.Disk.ReadCluster | disk/qcow.c:349-435 | The outcome is a function of the image and the buffer, independent of the cache. |
| Qcow.Disk.LostRead | disk/qcow.c:451-460 | A cluster read whose destination lies outside the buffer gets to writing if and only if its first byte can be read. |
| Qcow.Disk.ReadSectorSingle | disk/qcow.c:437-467 | The loop with its unsigned count yields exactly the specified outcome, including the lost error. |
| Qcow.Disk.ReadSector | disk/qcow.c:469-486 | Reading buffer after buffer yields exactly the specified outcome in the buffers. |
| QcowAlloc.Allocator.constructor | disk/qcow.c:1120-1134 | The allocator starts at cluster 0 with the tables of the image. |
| QcowAlloc.Allocator.GetRefcount | disk/qcow.c:706-727 | The count of a cluster; a missing block counts nothing. |
| QcowAlloc.Allocator.GrowRefcountBlock | disk/qcow.c:621-667 | On success the block exists and only new refcount blocks gained a count; on failure no count and no table entry changed. |
| QcowAlloc.Allocator.UpdateClusterRefcount | disk/qcow.c:729-768 | Exactly one cluster gains a user, apart from refcount blocks grown on the way. |
| QcowAlloc.Allocator.FindRun | disk/qcow.c:793-801 | The first run of unused clusters from the search position on. |
| QcowAlloc.Allocator.AllocClusters | disk/qcow.c:785-811 | The first unused run, each cluster counted once; on failure either nothing changed or part of such a run stays counted. Update, growth and allocation call each other and end. |
| QcowRefs.ZerosSet | disk/qcow.c:653-654 | Filling in a table entry makes the number of empty entries one smaller, which bounds the recursion. |
| QcowRefs.AddBlock | disk/qcow.c:643-653 | An empty refcount block changes no count. |
| QcowRefs.DropBlock | disk/qcow.c:662-666 | Taking the entry back after a failure restores every count. |
| QcowRefs.BeyondTable | disk/qcow.c:669-680 | Clusters past the reach of the table count zero, so a search ends. |
| QcowRefs.ChangeTwice | disk/qcow.c:805-808 | Counting several clusters one after the other changes exactly those, and no refcount block twice. |
| QcowRefs.CountedIsSound | disk/qcow.c:805-808 | However many clusters of the run were counted, they were free, lie in no refcount block, no used cluster changed, and every refcount block counts itself. |
| QcowRefs.AllocatedIsSound | disk/qcow.c:785-811 | After an allocation every refcount block counts itself, none lies in the run, and no used cluster changed. |
| QcowRefs.FailedIsSound | disk/qcow.c:796-808 | After a failed allocation no used cluster changed and every refcount block still counts itself. |
| QcowRefs.NeverTwice | disk/qcow.c:785-811 | However many allocations are made, and however many of them fail, no cluster is handed out twice or turned into a refcount block. |
| QcowRefs.RefStands | disk/qcow.c:706-727 | The count of a cluster is the entry at its remainder in the block named at its quotient; without a block it is zero. |
| ThreadPool.StepKeeps | util/threadpool.c:21-186 | Every step, signals that overlap cancellations included, but not a cancellation that takes a job out between the two halves of an increment, keeps: a job is signalled exactly while queued once or with one thread, never both; runs, count and drops add up to the signals. |
| ThreadPool.StepKeepsExactly | util/threadpool.c:150-186 | A step keeps that invariant if and only if it is not such a cancellation. |
| ThreadPool.HarmStrands | util/threadpool.c:150-186 | After any such cancellation the signal, once counted, has nobody to serve it. |
| ThreadPool.QuietIsRun | util/threadpool.c:171-176 | Callers that never signal a job being cancelled, as the comment asks, never get there. |
| ThreadPool.RunKeeps | util/threadpool.c:21-186 | The invariant holds in every state of every run without such a cancellation. |
| ThreadPool.NeverConcurrent | util/threadpool.c:52-66 | No two threads are ever in the callback of the same job. |
| ThreadPool.IdleMeansServed | util/threadpool.c:52-66 | When nothing is queued or running, runs plus dropped signals equal the calls of do_job. |
| ThreadPool.DueStays | util/threadpool.c:52-66 | Once a job has been signalled, only starting its callback or cancelling it discharges the signal. |
| ThreadPool.SignalIsServed | util/threadpool.c:150-164 | Between a signal and the next time the count is zero the callback starts afresh, or the job is cancelled. |
| ThreadPool.CancelReturns | util/threadpool.c:167-186 | When cancel_job returns, the job is neither queued nor with any thread, and its count is zero. |
| ThreadPool.StaysGone | util/threadpool.c:167-186 | So it stays until a signal counts. |
| ThreadPool.NoneSignalsUntil | util/threadpool.c:171-176 | For callers that do as they are asked, until it is signalled anew. |
| ThreadPool.RaceIsReached | util/threadpool.c:150-186 | The state the next row starts from can be reached. |
| ThreadPool.CancelRace | util/threadpool.c:150-186 | A play of the harmful cancellation, from a state that is reached, to a job with a count and nobody to serve it. |
| PoolProgress.PopStarts | util/threadpool.c:21-31 | A worker that pops runs the job that was first in the list; the rest stay in order. |
| PoolProgress.FinishCounts | util/threadpool.c:56-63 | A finished run is counted once, and the job is queued again if and only if signals are left. |
| PoolProgress.PushQueues | util/threadpool.c:33-35 | A job is queued at the end. |
| PoolProgress.SignalCounts | util/threadpool.c:150-158 | do_job adds one to the count, and queues the job if and only if it was zero. |
| PoolProgress.CancelTakes | util/threadpool.c:167-186 | cancel_job takes a queued job off the list, dropping its signals and keeping the order of the others, and otherwise waits for the count. |
| PoolProgress.WorkFalls | util/threadpool.c:52-91 | Every step that gets on with work leaves less of it. |
| PoolProgress.UsefulStepExists | util/threadpool.c:52-91 | As long as a signal is not served or a thread is in the pool, some thread can take such a step. |
| PoolProgress.DoneWhenStuck | util/threadpool.c:52-91 | Where none can, every signal is served and every thread idle. |
| PoolProgress.BoundedService | util/threadpool.c:52-91 | Without new calls the number of such steps is bounded, so every signal is served. |
| PoolProgress.FirstInFirstOut | util/threadpool.c:21-35 | Over every run without cancellations from the list, jobs start in the order in which they were queued, none skipped. |
| PoolWakeup.MoveKeeps | util/threadpool.c:68-91 | Every step of workers, which sleep on the condition, and of callers, which signal it once, keeps queued work attended. |
| PoolWakeup.WorkIsAttended | util/threadpool.c:68-165 | Over every run with at least one worker: while a job is queued, some worker is awake or some caller of do_job has yet to signal the condition. |
| PoolWakeup.WorkersMove | util/threadpool.c:68-91 | An idle worker that is awake sleeps if nothing is queued and otherwise starts the first job. |
| PoolWakeup.CallersRing | util/threadpool.c:160-165 | A caller that has to signal can, and wakes a worker if any sleeps. |
| Mmio.StepKeeps | init/mmio.c:70-183 | Register, deregister, get and put keep: refcount counts the users, removal is marked only while there are some, a mapping is in its tree until its one free, ranges stay disjoint. |
| Mmio.RunKeeps | init/mmio.c:70-183 | The invariant holds in every state of every interleaving. |
| Mmio.NoUseAfterFree | init/mmio.c:83-100 | A handler never runs on a freed mapping and nothing is freed twice. |
| Mmio.NothingLingers | init/mmio.c:94-100 | When no handler runs, every mapping whose removal was asked for has been freed. |
| Mmio.DeregisterActs | init/mmio.c:150-183 | Deregistering frees the mapping at the address at once if unused, and otherwise marks exactly it. |
| Mmio.GetFinds | init/mmio.c:70-80 | An access reaches a handler exactly when one mapping holds all of it. |
| Mmio.LookupIs | init/mmio.c:45-53 | A mapping that holds an address is the one a search returns. |
| MmioRanges.RegisterAdds | init/mmio.c:102-160 | Registering a free range adds one mapping for exactly it and changes no other; a range that meets another is refused and changes nothing. |
| MmioRanges.RegisterTraps | init/mmio.c:102-160 | Afterwards an address is trapped if and only if it was before or lies in the range. |
| MmioRanges.GetActs | init/mmio.c:70-85 | A get adds one user to the mapping that holds the whole access, or changes nothing. |
| MmioRanges.PutActs | init/mmio.c:87-100 | A put takes one user off, and the last one off a marked mapping frees it. |
| MmioRanges.DeregisterMisses | init/mmio.c:162-190 | Removing an address that no mapping holds changes nothing. |
| MmioRanges.AccessReaches | init/mmio.c:185-229 | Over every run an access inside a range that was registered, and whose removal was not asked for since, reaches the handler of that registration. |
| MmioRanges.AccessMisses | init/mmio.c:70-85 | An empty access, or one that no single mapping holds whole, reaches nobody. |
| MemBanks.Machine.RegisterMem | init/kvm.c:210-316 | When it succeeds; what is merged or inserted; that banks stay disjoint, sorted, no more than mem_slots; and exactly when a failure leaves overlapping banks. |
| MemBanks.Machine.DestroyMem | init/kvm.c:166-208 | Removes the one bank that matches exactly, unless it is reserved or the host refuses; otherwise nothing changes. |
| MemBanks.Machine.GuestFlatToHost | init/kvm.c:318-331 | The translation of the first bank that holds the address. |
| MemBanks.Machine.HostToGuestFlat | init/kvm.c:333-346 | The translation back. |
| MemBanks.MergeKeeps | init/kvm.c:237-256 | Merging with an overlapping reserved bank, and dropping the bank merged before, keeps the scan invariant. |
| MemBanks.ScanEnds | init/kvm.c:225-276 | After a full scan the banks are disjoint and the reserved ranges are the old ones plus the new. |
| MemBanks.ScanFails | init/kvm.c:258-270 | A clash is with a bank of the old list; what was merged before it then overlaps that bank. |
| MemBanks.InsertKeeps | init/kvm.c:284-312 | A new bank takes the least free slot and the list stays sorted and disjoint. |
| MemBanks.RoundTrip | init/kvm.c:318-346 | A guest address that can be translated comes back from its host address when host mappings are disjoint. |
| MemBanks.FailedReserveOverlaps | init/kvm.c:237-270 | Concrete banks on which a reservation merges and then clashes. |
| MemBanks.MeetsIs | init/kvm.c:223-235 | Ranges meet if and only if they share an address. |
| PauseBarrier.StepKeeps | init/kvm.c:543-585 | Each step of pauser and vCPUs keeps the count of answers exact. |
| PauseBarrier.PauseStops | init/kvm.c:547-574 | When kvm_pause has returned every running vCPU is in its handler, blocked. |
| PauseBarrier.RunKeeps | init/kvm-cpu.c:75-96 | In every run the handler never finds its vCPU already paused. |
| PauseBarrier.StoppedUntilContinue | init/kvm.c:543-545 | Until kvm_continue no vCPU can take any step. |
| PauseBarrier.PauseCanStep | init/kvm.c:566-572 | A pause in progress is never stuck. |
| PauseBarrier.PauseAdvances | init/kvm.c:547-574 | Every step of a pause brings its end nearer. |
| PauseBarrier.PauserSteps | init/kvm.c:547-574 | The pauser signals each running vCPU that is not paused, counts the others at once, and adds what is reported. |
| PauseBarrier.HandlerSteps | init/kvm-cpu.c:75-96 | The places a vCPU passes in its handler, the counter it raises and the lock it takes and drops. |
| PauseBarrier.RunningKeeps | init/kvm.c:543-585 | No step but an exit makes a vCPU stop running, and no vCPU is changed by the steps of another. |
| PauseBarrier.ResumeAdvances | init/kvm.c:543-545 | After kvm_continue every step of a vCPU brings it nearer to the guest. |
| PauseBarrier.ResumeCanStep | init/kvm.c:576-585 | And one can always step until all run the guest unpaused. |
| PauseBarrier.PauseMayBegin | init/kvm.c:547-574 | Then another pause may begin. |
| Pci.Machine.constructor | init/pci.c:427-457 | Before registration nothing is active and nothing is registered. |
| Pci.Machine.PciRegisterBarRegions | init/pci.c:427-457 | On success the BARs of the spaces that are on are active; the invariant holds either way. |
| Pci.Machine.PciActivateBar | init/pci.c:125-140 | Active and registered, or refused for an overlap with nothing changed. |
| Pci.Machine.PciDeactivateBar | init/pci.c:142-157 | Inactive and deregistered, or refused by the callback with nothing changed. |
| Pci.Machine.PciToggleBarRegions | init/pci.c:188-217 | The loop over all devices equals the BAR-by-BAR switch, up to the first failure. |
| Pci.Machine.PciConfigBarWr | init/pci.c:227-322 | The whole BAR write, of any guest and with all its failure paths, is the specified one; the trees stay right if and only if it does not store another range into an active BAR. |
| Pci.Machine.PciConfigCommandWr | init/pci.c:159-186 | The command write, callbacks that refuse included, is the specified one and keeps the trees right. |
| PciSafety.ActiveIsRegistered | virtio/pci.c:256-309 | A BAR is active if and only if its current range is in its trap tree. |
| PciSafety.ActiveApart | virtio/pci.c:256-309 | Active BARs of one space never overlap. |
| PciSafety.ActivateKeeps | init/pci.c:125-140 | Activation keeps the correspondence and touches no other BAR. |
| PciSafety.DeactivateTakesOwn | virtio/pci.c:287-309 | Deregistering by address removes exactly the BAR's own range. |
| PciSafety.DeactivateKeeps | init/pci.c:142-157 | Deactivation keeps the correspondence and touches no other BAR. |
| PciSafety.ToggleKeeps | init/pci.c:188-217 | Switching off a range leaves no BAR over it active; switching on only adds. |
| PciSafety.ToggleWakes | init/pci.c:188-217 | A reactivation activates exactly the BARs over the range up to the first that cannot be, and succeeds if and only if there is none such. |
| PciSafety.StoreKeepsExactly | init/pci.c:259-278 | Storing a BAR value directly keeps the correspondence if and only if the BAR is inactive or keeps its range. |
| PciSafety.BarWriteInvExactly | init/pci.c:227-322 | Any BAR write keeps the correspondence if and only if it is not such a store. |
| PciSafety.BarWriteEnabledExactly | init/pci.c:227-322 | A BAR write leaves no BAR active in a space that is off if and only if it is no move, or no BAR over the range left (or not taken), up to the first that cannot be activated, has its space off. |
| PciSafety.BarWriteKeeps | init/pci.c:227-322 | For a polite guest no BAR is ever active in a space that is off. |
| PciSafety.CommandKeeps | init/pci.c:159-186 | The trees stay right; a BAR whose space is switched off is inactive unless its callback refused, one whose space is switched on is active unless something overlaps it, all others are untouched. |
| PciSafety.CommandEnabledExactly | init/pci.c:159-186 | No BAR is left active in a space that is off if and only if no callback refused. |
| PciSafety.MoveWakesDisabled | init/pci.c:312-322 | A concrete machine in which moving one BAR activates another whose space is off; its next write breaks the correspondence. |
| PciMove.TouchesExactly | init/pci.c:204-205 | For ranges within 32 bits, the comparison finds a BAR over a range if and only if the two meet and neither ends at 4 GB. |
| PciMove.ToggleHushes | init/pci.c:188-217 | Switching off a range succeeds if and only if no BAR over it refuses, and then switches off exactly those. |
| PciMove.LandsExactly | init/pci.c:280-311 | A move gets through if and only if neither the BAR nor one found over its new range refuses, and nothing else is registered there but what is found. |
| PciMove.MoveTakesEffectExactly | init/pci.c:280-322 | Exactly then the BAR answers at its new address after the whole write, for every BAR of either space. |
| PciMove.CanLandMeans | init/pci.c:280-322 | In terms of addresses: if and only if nobody refuses, no other user is in the way, and each active BAR in the way meets the new range as written, neither ending at 4 GB. |
| PciMove.MoveTakesEffect | init/pci.c:280-322 | Below the top of its space a moved BAR answers at the new address whatever BARs were there, if and only if nobody refuses and no other user is in the way. |
| PciMove.BarAtTopFails | init/pci.c:280-322 | A machine in which a move fails, onto a BAR that ends at 4 GB. |
| PciMove.RangeAtTopFails | init/pci.c:280-322 | One in which it fails because the new range ends at 4 GB. |
| PciMove.PortAboveFails | init/pci.c:280-322 | One in which ports above 0xffff, cut to 16 bits, clash with a BAR that is not found. |
| PciMove.MoveEnabledExactly | init/pci.c:280-322 | For a move that can land, with nothing in the way of the BARs it uncovers: no BAR ends up active in a space that is off if and only if every BAR over the old range has its space on. |
| PciRegisters.RegisterSplits | init/pci.c:231-235 | A register is its address, rounded down to the flag bits, and its flag bits. |
| PciRegisters.ProbeReads | init/pci.c:259-264 | After a size probe the address bits and the size add up to 2^32, the flag bits are the old ones, and nothing else changes. |
| PciRegisters.OffWriteReads | init/pci.c:266-278 | Any other write with the space off stores the value rounded down, keeps the flag bits, and changes nothing else. |
| PciRegisters.NewAddressIs | init/pci.c:266-294 | The address a move asks for is the value rounded down to the flag bits. |
| PciRegisters.GivesUpRestored | init/pci.c:296-309 | If a BAR refuses to make way, the BAR written answers at its old address as before. |
| PciRegisters.CommandReads | init/pci.c:159-186 | A command write stores both enable bits and changes no address, size or other device. |
| UsedRing.Queue.SetUsedElemNoUpdate | virtio/core.c:64-74 | The ring then holds the published completions and the pending one, through any number of index wraps. |
| UsedRing.Queue.UsedIdxAdvance | virtio/core.c:51-62 | Pending completions become published, all at once. |
| UsedRing.Queue.SetUsedElem | virtio/core.c:76-83 | One completion is appended to the published history. |
| UsedRing.Queue.ShouldSignal | virtio/core.c:223-252 | The guest is signalled if and only if its event index was crossed since the last signal, given fewer than 65536 completions. |
| UsedRing.NeedEventIs | include/linux/virtio_ring.h:213-221 | What the 16-bit test says for any number of completions. |
| UsedRing.NeedEventExactly | include/linux/virtio_ring.h:213-221 | The test is right for every event index if and only if fewer than 65536 completions were made. |
| UsedRing.ModMod | virtio/core.c:68-70 | Taking the index mod 65536 first does not change its slot when the ring size divides 65536. |
| NetReceive.CutWhole | virtio/net.c:118-131 | Used lengths add up to the packet, all chains but the last are full, and none used is empty when all have room. |
| NetReceive.ReceivePacket | virtio/net.c:118-131 | The pieces of the packet lie at the front of the chains, one pending entry each. |
| NetReceive.SetNumBuffers | virtio/net.c:133-139 | The header field in the first buffer is set and nothing else. |
| NetReceive.Receive | virtio/net.c:112-141 | What the chains carry is the packet with num_buffers filled in, and all entries are published by one advance. |
| NetReceive.HeaderLands | virtio/net.c:133-139 | Writing the field in the buffer is writing it in the packet. |
| NetReceive.DeliveredReads | virtio/net.c:133-139 | The guest reads the number of buffers at byte 10 of the header in its byte order, and every other byte of the packet as it was. |
| NetReceive.EntriesRead | virtio/core.c:64-74 | Each used entry has its chain as id and the bytes written to it as length. |
| Iovec.ReadIsSlice | util/iovec.c:125-144 | Gathering piece by piece is taking a slice of the concatenation. |
| Iovec.WriteIsOverlay | util/iovec.c:52-68 | Scattering piece by piece is overlaying the concatenation. |
| Iovec.SliceBytes | util/iovec.c:125-144 | A slice has the bytes from the offset on, as many as there are. |
| Iovec.OverlayBytes | util/iovec.c:52-68 | An overlay has the new bytes in their place and the old ones elsewhere. |
| Iovec.CopyFrom | virtio/9p-pdu.c:9-30 | The loop returns the slice, shorter where the pieces end. |
| Iovec.CopyTo | virtio/9p-pdu.c:32-53 | The loop overlays the data as far as the pieces reach and reports how much. |
| PlicSpec.BestIsBest | arch/riscv/plic.c:142-163 | The scan yields the ready source of greatest recorded priority, least number on ties, or 0 for none. |
| PlicSpec.OnlyOneBest | arch/riscv/plic.c:142-163 | That source is unique. |
| PlicSpec.LineExactly | arch/riscv/plic.c:165-173 | The line is up exactly while a ready source lies above the threshold, if and only if nothing is ready or the best source lies above it. |
| PlicSpec.ClaimExactly | arch/riscv/plic.c:142-163 | A claim returns the best source and none of priority 0, if and only if nothing is ready or the best source is not of priority 0. |
| PlicSpec.PresentsBelowThreshold | arch/riscv/plic.c:142-173 | For any priority at or below any threshold, a run after which the guest is interrupted all the same; with priority 0 a claim would return the source. |
| PlicSpec.ClaimTakesBest | arch/riscv/plic.c:175-197 | A claim takes the best source and makes ready exactly the others. |
| PlicSpec.NotClaimedTwice | arch/riscv/plic.c:175-197 | A claimed source is not returned again until completed, re-triggered or its enable word written. |
| PlicSpec.NextKeeps | arch/riscv/plic.c:175-388 | Every operation keeps claimed within pending within enabled, source 0 silent, and the line up exactly while a source is ready. |
| PlicSpec.RunKeeps | arch/riscv/plic.c:175-388 | So does every run. |
| PlicSpec.EnableKeeps | arch/riscv/plic.c:293-336 | An enable write sets exactly the bits of its word, bit 0 of word 0 excepted, and keeps the invariant. |
| Plic.Controller.BestPendingIrq | arch/riscv/plic.c:142-163 | The double loop returns the best source. |
| Plic.Controller.ContextIrqClaim | arch/riscv/plic.c:175-197 | The claim in place. |
| Plic.Controller.IrqTrig | arch/riscv/plic.c:199-256 | The level is recorded and only the first context that enables the source is told. |
| Plic.Controller.ContextEnableWrite | arch/riscv/plic.c:293-336 | The loop over the bits of a word in place. |
| Plic.Controller.ContextWrite | arch/riscv/plic.c:355-388 | Threshold, completion and reserved registers. |
| Plic.Controller.PriorityWrite | arch/riscv/plic.c:269-280 | Four bits of priority for an existing source, otherwise nothing. |
| Plic.UpdateIsIdle | arch/riscv/plic.c:384-385 | Sending the interrupt level again changes nothing, because it was right. |
| PlicRegisters.TriggerRecords | arch/riscv/plic.c:199-256 | A rising level makes the source pending with the priority its register has then; a falling one forgets it; no other source is touched. |
| PlicRegisters.TriggeredIsReady | arch/riscv/plic.c:199-256 | A source raised is ready at once unless claimed. |
| PlicRegisters.ClaimRecords | arch/riscv/plic.c:175-197 | A claim forgets an edge, marks a level as claimed, and touches no other source. |
| PlicRegisters.CompleteRecords | arch/riscv/plic.c:370-378 | Completing an enabled source lifts its claim and nothing else; any other number changes nothing. |
| PlicRegisters.CompletedIsReady | arch/riscv/plic.c:370-378 | So a level that is still high is handed out again. |
| PlicRegisters.EnableRecords | arch/riscv/plic.c:293-336 | A source switched on is pending if and only if its level is high; one switched off is neither pending nor claimed; the others are untouched. |
| PlicRegisters.ThresholdRecords | arch/riscv/plic.c:361-369 | The threshold keeps four bits and touches no source. |
| P9Codec.RoundAllExactly | virtio/9p-pdu.c:62-235 | For any format over b, w, d, q, s, Q, S, decoding what was encoded gives the values and the offset back if and only if every string in it fits a signed 16-bit length. |
| P9Codec.RoundOneExactly | virtio/9p-pdu.c:62-235 | The same for one format character. |
| P9Codec.AnyFragmentation | virtio/9p-pdu.c:9-53 | For any two ways of cutting the same bytes into buffers, what was written is read back and both offsets advance alike, under exactly that condition. |
| P9Codec.StringRounds | virtio/9p-pdu.c:90-102 | A string comes back if and only if its length fits a signed 16-bit number. |
| P9Wire.NumbersOnWire | virtio/9p-pdu.c:62-235 | Numbers stand as one, two, four and eight bytes, least significant first. |
| P9Wire.StringOnWire | virtio/9p-pdu.c:175-182 | A string stands as two bytes of length and its own bytes, up to 65535 of them. |
| P9Wire.QidOnWire | virtio/9p-pdu.c:183-186 | A qid stands as type, version and path, 13 bytes. |
| P9Wire.StatOnWire | virtio/9p-pdu.c:187-202 | A stat stands as its twelve fields in this order. |
| P9Pdu.Pdu.PduRead | virtio/9p-pdu.c:9-30 | Returns the bytes at the read offset and advances by their number. |
| P9Pdu.Pdu.PduWrite | virtio/9p-pdu.c:32-53 | Lays the bytes down at the write offset and advances by what fitted. |
| P9Pdu.Pdu.ReadF | virtio/9p-pdu.c:62-151 | Whenever the input holds the values asked for, they are returned and the offset is just behind them. |
| P9Pdu.Pdu.WriteF | virtio/9p-pdu.c:153-235 | The encoding appears at the offset as far as there is room, and the offset moves just behind what fitted. |
| Bitmap.SetBits | util/bitmap.c:29-46 | Exactly the bits of the range are added. |
| Bitmap.FindNextBit | util/find.c:9-39 | The least matching bit from the start on, or nbits. |
| Bitmap.BitmapAnd | util/bitmap.c:212-224 | The intersection of the first nbits bits, zeros past them in the last word, later words untouched, and whether it is empty. |
| Bitmap.BitmapSubset | util/bitmap.c:226-239 | Whether every one of the first nbits bits of one set is in the other. |
| BitmapParse.FindRegion | util/bitmap.c:71-75 | Skips separators and tells whether anything follows. |
| BitmapParse.AcceptedIsValid | util/bitmap.c:77-85 | Every region of an accepted text lies inside the map and has a proper pattern. |
| BitmapParse.SetRegion | util/bitmap.c:48-53 | The loop ends for every region and adds exactly the bits its 32-bit steps mark. |
| BitmapParse.RegionRightExactly | util/bitmap.c:48-53 | Those are the bits of the region if and only if its first step does not wrap 32 bits or it has nothing to set. |
| BitmapParse.WrapText | util/bitmap.c:48-53 | A concrete text that is accepted and sets a bit outside its region, and one beside it that is handled right. |
| BitmapParse.ParseList | util/bitmap.c:186-210 | On success a bit is set if and only if the loop over some region marks it, so, where no region wraps, if and only if some region selects it; otherwise the first error is returned. |
| BitmapParse.ParsePrint | util/bitmap.c:114-160 | Every list of valid regions has a text, and parsing the text gives the list. |
| BitmapText.ListParses | util/bitmap.c:77-210 | Any list of single bits, spans, spans with a pattern, `all`, and N for the last bit is accepted, and its regions select exactly the bits asked for. |
| BitmapText.RegionErrors | util/bitmap.c:77-85 | A region written in full is accepted if and only if it is valid; otherwise the error tells a wrong shape from one that leaves the map. |
| BitmapText.NumberOverflows | util/bitmap.c:87-106 | A number of more than 32 bits or below zero is an overflow. |
| BitmapText.FirstErrorWins | util/bitmap.c:186-210 | The first region refused decides the error. |
| BitmapText.SeparatorSkips | util/bitmap.c:71-75 | Spaces of any kind and commas in front of a text do not matter. |
| BitmapText.LineEnds | util/bitmap.c:58-60 | A line end behind an item without a pattern ends the list, as does a NUL. |
| BitmapText.AllAnyCase | util/bitmap.c:109-115 | The word all may be written in capitals. |

## Left out

- XicsSafety.NoInterruptIsStranded: runs assume that no accept with nothing shown raises CPPR above something that waits, that no EOI lowers CPPR to the shown priority or below, and that set-xive leaves a shown source where it is and neither masks a rejected source nor makes it deliverable; each condition is proved exact for its operation.
- XicsConservation.RaisedIsNotLost: runs never mask a source that is shown or waits, which is proved to be exactly what keeps the resend loop from dropping one; a flag cannot count two edges of one source.
- Xics.Controller.IcsReject: for number 2 the program writes outside its array; what that overwrites is not modelled.
- XICS: the remaining RTAS calls (get-xive, int-off, int-on) and the ioctl behind the interrupt pin are not modelled; the pin is the last level driven.
- RbInsert.InsertColor: the mirror images are one text with a side parameter, whose left instance is the first copy in the source; the same holds for the other red-black methods.
- Red-black trees: augmentation callbacks, rb_replace_node, RB_EMPTY_NODE and the packing of colour and parent into one word are not modelled.
- Qcow.Disk.ReadCluster: zlib is a partial map from L2 entries to clusters; the position and size of the compressed bytes are not modelled.
- Qcow.Disk.ReadSectorSingle: at a write outside the buffer the model ends with a flag; unreadable means a short or empty file, other I/O errors are not modelled.
- Qcow: the search trees of the caches are maps from offset to table (the trees themselves are proved in the red-black files); qcow1 and the copy-on-write path, whose allocation checks are inverted, are not modelled.
- QcowAlloc.Allocator.AllocClusters: the count of clusters is the argument instead of a size in bytes, the 32-bit index of a cluster does not wrap, and cluster 0 is in use, without which growth would not end.
- QcowAlloc.Allocator.UpdateClusterRefcount: counts up by one only; freeing, failed writes and the freed block that stays in the cache after a failed growth are not modelled.
- ThreadPool: thread start-up and shut-down are not modelled, and a failed start that leaves no worker is left out.
- PoolWakeup.WorkIsAttended: says that work is attended, not that the scheduler lets it finish; callbacks that call do_job themselves are not modelled there.
- Mmio: host registration of coalesced ranges, allocation failure and a refcount beyond 32 bits are not modelled.
- MemBanks.Machine.RegisterMem: ranges are non-empty and do not wrap 64 bits; allocation failure is not modelled.
- MemBanks.Machine.HostToGuestFlat: reports a missing translation as None where the program returns 0.
- PauseBarrier.PauseStops: one thread pauses and continues, no vCPU exits during a pause, and a pause before the guest runs is not modelled; kvm_cpu__run_on_all_cpus is not modelled.
- Pci.Machine.PciConfigBarWr: unimplemented BARs, whose activation is an assertion failure in virtio, and deferred removal while a handler runs are not modelled.
- PCI: the allocators of ports and memory blocks, the configuration mechanism and the callbacks of VFIO and VESA devices are not modelled.
- UsedRing.Queue.ShouldSignal: memory barriers and the guest's concurrent writes to its event index are not modelled.
- NetReceive.Receive: all chains the packet needs are offered at once where the program waits for them, the first buffer holds the whole header, the descriptors themselves (whose base and length the copy advances) are not changed, and num_buffers does not wrap 16 bits.
- Virtqueues: descriptor chains (next_desc, virt_queue__get_head_iov) and the available ring are not modelled.
- Iovec.CopyTo: memcpy_toiovec and memcpy_fromiovec, which also advance the descriptors, are represented by copies at an offset; memcpy_fromiovec_safe is not modelled.
- Plic.Controller.IrqTrig: bit arrays are sequences of booleans instead of 32-bit words, and there are at most 255 contexts, beyond which the 8-bit loop counter of the program would wrap.
- P9Pdu.Pdu.ReadF: input that ends early, or a negative length, leaves the result unspecified; the formats I and A, which only one direction has, are not modelled, and allocation does not fail.
- Bitmap.SetBits: a word is its 64 bits, so shifts of machine words appear as masks described bit by bit.
- VFIO interrupt shadowing, CFI flash, the MMU table filter, vhost, device trees, consoles and file systems are not modelled.
