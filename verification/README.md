# emu2 verification model

emu2 runs DOS programs on a host system: a 16-bit core, a 32-bit core with segmentation and paging, the
DOS memory services, the XMS and EMS memory managers, the 8259 interrupt controllers, and the DOS view of
file names. This project models the parts of it that allocate, schedule, transfer control and compute, and
proves what they keep over whole runs.

Each part has a specification on values (`McbChain`, `Pic`, `XmsList`, `FarTransfer`, `Ems`, `Shifts`,
`Chains`, `Strings`, `PathNames`, `FcbParse`, `Paging`), lemmas about it (`McbRuns`, `McbMerge`,
`PicRuns`, `PicPorts`, `PicCascade`, `XmsEffects`, `FarPrivilege`, `FarFlags`, `FarLevels`, `FarRoom`,
`FarRoundTrip`, `FarLanding`, `EmsRuns`, `Rotates`, `FcbRoundTrip`), concrete runs behind the failures found (`EmsCases`, `PicCases`), and the code in its own
shape: classes and methods that change fields, buffers and memory in place, proved against the specification
(`McbHeap`, `Pic.Controllers`, `XmsManager`, `FarProcessor`, `EmsBoard`, `ShiftUnit`, `Chains.Adder`,
`Strings.Core`, `PathBuffer`, `UniqueNames`, `FcbReader`, `PagedMemory`). `dafny verify dfyconfig.toml` checks everything.

## What the code does, and where that differs from what one would expect

- The bulk free (`mem_free_owned`) for owner 0 releases nothing; it only coalesces (`McbChain.FreeOwnedLive`).
  For another owner it does not merge two neighbours that both belong to the owner (`McbMerge.FreeOwnedMerges`).
  A resize that cannot reach the requested size has still grown the block as far as it could.
- RETF and IRET each make only part of the code level check of the Intel SDM Vol. 3A, section 5.8, and IRET to
  an outer level does not check the level of the stack segment. `FarLevels.RetLevelRule`, `IretLevelRule` and
  `StepLevels` say exactly when the rules hold afterwards; `RetSlips`, `IretSlips` and `IretStackSlips` are
  proper starts from which they do not; `RunLevels` says nothing else breaks them.
- A CALL to an inner level checks room in the width of the code segment and pushes in that of the gate
  (`FarRoom.RoomExact`, `RoomShort`, `RoomRefused`).
- The 16-bit forms of POPF and IRET clear the alignment and identification flags, which the Intel
  SDM Vol. 2 leaves alone (`FarLanding.WordFormClears`).
- XMS: shrinking succeeds without saying so; an allocation that runs out of handles has still split the free
  extent; the range check of the move works modulo 2^32, so every block accepts a move of 4 GB less two bytes
  from offset 2 (`XmsManager.RangeCheckExact`, `RangeCheckWraps`).
- PIC: the master can dispatch the cascade line with no interrupt behind it (`PicRuns.SilentDispatch`, and
  `PicCases.DispatchBehindMask`, a run from reset); the slave records the master's line mask as in
  service, so the EOI of a slave line frees the cascade line only for line 2 (`PicCascade.SlaveEndExact`,
  `StuckForever`, `ClockLeavesCascade`), and the BIOS sends the EOI of slave line n to line n of the master
  (`BiosEndExact`); ICW4 copies the pending requests without clearing them.
- EMS: the map validator does not restart its scan for each slot, so it drops good slots
  (`EmsRuns.SweepExact`, `SweepComplete`; `EmsCases.ValidatorDropsGoodSlot`); restoring a saved mapping
  therefore gives it back exactly under the condition of `EmsRuns.SaveRestore`. A handle in use is given out
  again exactly when, for some h, the handles 1 to h are all in use but do not stand in that order at any
  places of the list (`EmsRuns.HandleExact`; `EmsCases.HandleGivenTwice`, a run from a new board). The range
  check of the move counts whole pages and works modulo 2^32 (`EmsRuns.MoveRangeExact`, `MoveLeavesBlock`).
- The counted 16-bit SAR takes its carry from the sign-extended low byte (`Shifts.CountedIsRepeated`).
- REP SCAS with CX = 0 still sets the zero flag (`Strings.Core.RepScan`).
- A normalised path whose first name starts with a colon does not survive being normalised again
  (`PathNames.NormalTwiceExact`).
- On a command line whose first name is a bare star, the second name is read into the first block too
  (`FcbRoundTrip.RoundTripExact`).
- A page walk for a write to a page that was neither accessed nor dirty leaves it dirty but not accessed
  (`Paging.MarksAfterWrite`, `FirstWriteNotAccessed`); a 16-bit access at offset FFFF of a segment goes past
  the segment instead of wrapping unless the segment ends on a page boundary (`PagedMemory.SecondByteExact`,
  `SecondByteLeaves`).

## Model

| member | source | states |
|---|---|---|
| McbHeap.Heap.constructor | src/loader.c:556-560 | initialising lays out one free block over the whole arena, header included |
| McbHeap.Heap.New | src/loader.c:397-404 | writes exactly the five header bytes of one block |
| McbHeap.Heap.SetSize | src/loader.c:411-414 | changes the size field only |
| McbHeap.Heap.SetOwner | src/loader.c:421-424 | changes the owner field only |
| McbHeap.Heap.SetLast | src/loader.c:455-458 | changes the M/Z mark only |
| McbHeap.Heap.GrowMax | src/loader.c:465-481 | the header-by-header merge swallows exactly the free run behind the block, moves the Z mark, and writes one header |
| McbHeap.Heap.Pick | src/loader.c:491-516 | the walk finds the first, the earliest least-slack or the last fit by strategy, and the largest block that missed |
| McbHeap.Heap.Carve | src/loader.c:517-534 | a request is carved from the whole, top or bottom of a free block by writing at most two headers; the chain stays whole |
| McbHeap.Heap.AllocNew | src/loader.c:489-535 | an allocation refines the abstract one; on failure nothing changes and max is the largest free block |
| McbHeap.Heap.Free | src/loader.c:483-487 | a free refines the abstract one on the byte-encoded chain |
| McbHeap.Heap.Regrow | src/loader.c:542-552 | growing to the limit and cutting off the excess yields the smaller of request and reach, the rest as one free block |
| McbHeap.Heap.Resize | src/loader.c:537-553 | a resize in place returns and sets min(request, own size plus the following free run with its headers) |
| McbHeap.Heap.FreeOwnedBy | src/loader.c:591-602 | the bulk free over a chain that shrinks under the walk equals the abstract free of every block of the owner |
| McbHeap.ChainAt | src/loader.c:438-453 | block i of a well-formed chain has its header where the walk reads it, and only the last one is marked Z |
| McbHeap.AllocDone | src/loader.c:515-535 | writing the headers of a carved block completes an abstract allocation and leaves live data alone |
| McbHeap.FreeDone | src/loader.c:483-487 | clearing the owner and merging completes an abstract free |
| McbHeap.ResizeDone | src/loader.c:537-553 | the rebuilt tail completes an abstract resize |
| McbHeap.SweepDone | src/loader.c:591-602 | after the last block the walk has freed exactly the blocks of the owner |
| McbHeap.SplitChain | src/loader.c:523-534 | upper header first, lower header second: the chain is whole again |
| McbChain.PickStep | src/loader.c:497-507 | the greedy update keeps the best block so far for every strategy |
| McbChain.AllocLive | src/loader.c:515-535 | an allocation adds one live block in free space and keeps all others |
| McbChain.FreeLive | src/loader.c:483-487 | a free removes exactly the freed block and keeps the arena size |
| McbChain.ResizeLive | src/loader.c:537-553 | a resize keeps the block in place with the request or all it can reach, and all other blocks |
| McbChain.FreeOwnedLive | src/loader.c:591-602 | the bulk free removes all and only the blocks of the owner |
| McbChain.LiveDisjoint | src/loader.c:448-453 | live blocks never overlap |
| McbChain.HeaderOutside | src/loader.c:397-404 | no header lies inside the data of a live block |
| McbChain.HeadersOnly | src/loader.c:397-404 | rewriting headers of the new chain keeps every byte of live data |
| McbChain.ChainSpan | src/loader.c:556-560 | the blocks of a chain tile its range exactly |
| McbRuns.StepLive | src/loader.c:465-602 | every service on the bytes is a step of the abstract allocator |
| McbRuns.StoreKeepsChain | src/loader.c:397-458 | a program storing into its own block cannot break the chain |
| McbRuns.BlockSurvives | src/loader.c:465-602 | over any run a block that nobody releases keeps its place, size and bytes, and the chain tiles the arena |
| McbRuns.ResizedBlockStays | src/loader.c:465-602 | over any run a block nobody frees, resized or not, keeps its place and owner, and the bytes below its smallest size behave as plain memory |
| McbMerge.AllocGrants | src/loader.c:515-535 | after an allocation a request is granted if and only if what the chosen block has left over, less one header, or another block holds it |
| McbMerge.FreeGrants | src/loader.c:483-487 | after a free a request is granted if and only if it was before, or the freed block and the free run behind it hold it as one |
| McbMerge.ResizeGrants | src/loader.c:537-553 | after a resize a request is granted if and only if what the block does not need of its reach holds it as one block, or a block elsewhere does |
| McbMerge.FreeOwnedGrants | src/loader.c:591-602 | after the bulk free a request is granted if and only if a block that was free, or a block of the owner with the free run behind it, holds it |
| McbMerge.FreeMerges | src/loader.c:465-487 | no free block is left behind a freed block |
| McbMerge.ResizeMerges | src/loader.c:537-553 | behind a resized block stands at most one free block, which has all it does not need |
| McbMerge.FreeOwnedMerges | src/loader.c:591-602 | a block released in bulk is followed by a free block only where another one of the owner was; for owner 0 no two free neighbours remain |
| McbMerge.AllocServes | src/loader.c:489-535 | as a step of a run, an allocation adds the whole request if and only if a free block holds it |
| McbMerge.ShrinkServes | src/loader.c:489-553 | what a shrunk block gives up, less one header, can be allocated in the next step |
| McbChain.HeaderBytes | src/loader.c:397-458 | a header is its mark, owner and size, low bytes first |
| FarProcessor.Processor.Jump | src/i386c/ia32/ctrlxfer.c:42-101 | far JMP in protected mode: all checks and their exceptions in order, then the transfer |
| FarProcessor.Processor.JumpToCode | src/i386c/ia32/ctrlxfer.c:105-148 | JMP to a code segment |
| FarProcessor.Processor.CallCode | src/i386c/ia32/ctrlxfer.c:398-464 | far CALL to a code segment |
| FarProcessor.Processor.CallGate | src/i386c/ia32/ctrlxfer.c:471-567 | CALL through a call gate: privilege checks, same level or inner level |
| FarProcessor.Processor.CallMorePrivilege | src/i386c/ia32/ctrlxfer.c:571-708 | CALL to an inner level: the new stack, its checks, the switch |
| FarProcessor.Processor.SwitchStacks | src/i386c/ia32/ctrlxfer.c:655-703 | parameters are read off the old stack and pushed on the new one with SS:ESP and CS:EIP around them |
| FarProcessor.Processor.DumpParameters | src/i386c/ia32/ctrlxfer.c:648-660 | the copy loop reads the gate-count parameters off the old stack |
| FarProcessor.Processor.RestoreParameters | src/i386c/ia32/ctrlxfer.c:674-680 | the push loop puts the parameters back in their order |
| FarProcessor.Processor.Return | src/i386c/ia32/ctrlxfer.c:815-857 | RETF: the selector and offset are read and the level decided |
| FarProcessor.Processor.ReturnOuter | src/i386c/ia32/ctrlxfer.c:899-1005 | RETF to an outer level |
| FarProcessor.Processor.Sanitize | src/i386c/ia32/ctrlxfer.c:966-1004 | each data register the outer level may not use is cleared |
| FarProcessor.Processor.InterruptReturn | src/i386c/ia32/ctrlxfer.c:1022-1069 | IRET in protected mode, flags included; with NT or VM in force it goes on elsewhere |
| FarProcessor.Processor.InterruptReturnSame | src/i386c/ia32/ctrlxfer.c:1179-1221 | IRET to the same level: CS, EIP and stack pointer, and the flags the level allows |
| FarProcessor.Processor.InterruptReturnOuter | src/i386c/ia32/ctrlxfer.c:1227-1341 | IRET to an outer level |
| FarProcessor.Processor.EnterOuter | src/i386c/ia32/ctrlxfer.c:1304-1341 | the outer segments are loaded, and the flags by the level left behind |
| FarProcessor.Processor.Screen | src/i386c/ia32/ctrlxfer.c:1329-1340 | data registers below the new level are cleared after IRET |
| FarProcessor.Processor.PopFlags | src/i386c/ia32/instructions/flag_ctrl.c:142-236 | POPF and POPFD outside virtual-8086 mode |
| FarProcessor.Processor.SetInterrupt | src/i386c/ia32/instructions/flag_ctrl.c:237-321 | CLI and STI outside virtual-8086 mode |
| FarPrivilege.StepPrivilege | src/i386c/ia32/ctrlxfer.c:42-1341 | only a call through a gate to inner non-conforming code lowers CPL, JMP never changes it, returns never lower it, data registers stay usable at CPL |
| FarPrivilege.RunPrivilege | src/i386c/ia32/ctrlxfer.c:42-1341 | over any run data registers stay usable at CPL, and a program that ends below a level b it started at or above has gone below it in a call that went through a gate to inner non-conforming code |
| FarPrivilege.SanitizedSafe | src/i386c/ia32/ctrlxfer.c:966-1004 | what the inspection of a data register leaves is null, conforming code or of level at least CPL |
| FarFlags.StepFlags | src/i386c/ia32/ctrlxfer.c:1193-1327 | one instruction changes IOPL only at level 0, IF only at a level not above IOPL, and never the VM bit |
| FarFlags.RunFlags | src/i386c/ia32/ctrlxfer.c:42-1341 | over any run a program above IOPL keeps IOPL and IF unless it crosses inward, below any chosen level between the two, through a gate |
| FarLevels.RetLevelRule | src/i386c/ia32/ctrlxfer.c:858-896 | RETF enters the code its stack names at the level of the selector; the level rule holds if and only if conforming code is no less privileged than that, other code no more |
| FarLevels.IretLevelRule | src/i386c/ia32/ctrlxfer.c:1128-1175 | after IRET the level rule holds if and only if the code is conforming or has the level of the selector |
| FarLevels.StepLevels | src/i386c/ia32/ctrlxfer.c:42-1341 | a successful instruction keeps code and stack segment at the level of the program if and only if what its return leaves unchecked holds: for IRET to an outer level also the level of the stack |
| FarLevels.RunLevels | src/i386c/ia32/ctrlxfer.c:42-1341 | over any run code and stack segment fit the level unless one return slipped |
| FarLevels.RetSlips | src/i386c/ia32/ctrlxfer.c:858-896 | a proper level 3 program whose RETF goes on at level 3 in level 0 code |
| FarLevels.IretSlips | src/i386c/ia32/ctrlxfer.c:1128-1224 | a proper level 0 program whose IRET goes on at level 0 in level 3 code |
| FarLevels.IretStackSlips | src/i386c/ia32/ctrlxfer.c:1258-1272 | a proper level 0 program whose IRET goes on at level 3 on a level 0 stack |
| FarRoundTrip.CalleeFrame | src/i386c/ia32/ctrlxfer.c:655-703 | the callee finds return address, every parameter in order and the caller stack above ESP |
| FarRoundTrip.GateCallReturns | src/i386c/ia32/ctrlxfer.c:571-1005 | CALL through a gate of either width to an inner level and the RETF of that width that releases its parameters restore CS, SS, CPL and, as far as the width carries them, EIP and the stack pointer with the parameters removed; all of them if and only if the gate is 32-bit or both fit 16 bits |
| FarRoom.SwitchedSp | src/i386c/ia32/ctrlxfer.c:655-707 | the call leaves the inner stack pointer four units and the parameters lower, in the width of the gate |
| FarRoom.RoomExact | src/i386c/ia32/ctrlxfer.c:636-649 | the pushes take the room that was checked if and only if gate and code segment have the same width |
| FarRoom.RoomShort | src/i386c/ia32/ctrlxfer.c:636-649 | a call through a 32-bit gate to 16-bit code that checks eight bytes and pushes sixteen |
| FarRoom.RoomRefused | src/i386c/ia32/ctrlxfer.c:636-649 | a call through a 16-bit gate to 32-bit code refused although its frame fits |
| FarRoundTrip.SameLevelReturns | src/i386c/ia32/ctrlxfer.c:398-897 | any far CALL that succeeds at its level, same-level gates and both widths included, and the RETF of its width restore CS, EIP as far as the width carries it, SS, CPL and the stack pointer with nbytes released |
| FarRoundTrip.OuterReturn | src/i386c/ia32/ctrlxfer.c:858-963 | RETF from an intact inner frame gives back the outer stack |
| FarRoundTrip.SwitchedFrame | src/i386c/ia32/ctrlxfer.c:655-703 | the dwords below the top of the inner stack are the link frame |
| FarLanding.IretLands | src/i386c/ia32/ctrlxfer.c:1022-1341 | an IRET of either width that succeeds has loaded EIP, CS and every flag bit it may load from its frame and kept the others; at the same level the stack pointer is three units up and nothing else has changed, to an outer level SS and the stack pointer come from the frame and each data register is screened |
| FarLanding.IretSucceeds | src/i386c/ia32/ctrlxfer.c:1022-1303 | exactly when an IRET succeeds, in terms of the units of its frame |
| FarLanding.RetLands | src/i386c/ia32/ctrlxfer.c:815-1005 | a RETF that succeeds has loaded EIP and CS from the stack and released nbytes; to an outer level SS and the stack pointer come from behind them |
| FarLanding.RetSucceeds | src/i386c/ia32/ctrlxfer.c:815-960 | exactly when a RETF succeeds |
| FarLanding.JmpLands | src/i386c/ia32/ctrlxfer.c:42-228 | a far JMP succeeds if and only if its goal, direct or through a gate, may be entered at the present level, and then loads CS and EIP from it and changes nothing else |
| FarLanding.CallSucceeds | src/i386c/ia32/ctrlxfer.c:335-652 | exactly when a far CALL succeeds, straight or through a gate, at its level or to an inner one |
| FarLanding.CallLands | src/i386c/ia32/ctrlxfer.c:335-708 | a far CALL that succeeds has CS and EIP of its goal and the level of the goal or its own; data registers and flags stay |
| FarLanding.ParametersFrame | src/i386c/ia32/ctrlxfer.c:648-660 | the parameters of a call are the units from the caller stack pointer up |
| FarLanding.LookupMeans | src/i386c/ia32/segments.c:308-355 | a selector names the descriptor at its index and table whatever its privilege bits, and the null selector none |
| FarLanding.KeptExactly | src/i386c/ia32/ctrlxfer.c:966-1004 | exactly when a data register keeps its segment on a return to an outer level |
| FarLanding.PopfLands | src/i386c/ia32/instructions/flag_ctrl.c:142-236 | POPF and POPFD pop one unit and load exactly the flag bits the level allows, clearing RF and the virtual interrupt flags in the 32-bit form |
| FarLanding.InterruptLands | src/i386c/ia32/instructions/flag_ctrl.c:237-321 | CLI and STI settle the interrupt flag and nothing else at a level not above IOPL, and fault above it |
| FarLanding.WordFormClears | src/i386c/ia32/ia32.c:285-294 | the 16-bit forms of POPF and IRET clear the alignment and identification flags, which their images do not reach |
| FarLanding.LittleEndian | src/i386c/cpumem.c:44-82 | byte k of a stored dword is its k-th digit to base 256 |
| XmsManager.Manager.constructor | src/extmem.c:625-660 | one free extent over all of extended memory |
| XmsManager.Manager.SearchHandle | src/extmem.c:66-78 | finds the first extent with the handle, none for handle 0 |
| XmsManager.Manager.SearchFree | src/extmem.c:80-112 | picks the best fit, cuts it to size, and knows the largest handle |
| XmsManager.Manager.MergeFree | src/extmem.c:114-148 | merging in place computes the merged list with its exact free total and maximum |
| XmsManager.Manager.QueryFree | src/extmem.c:284-307 | reports largest and total free KB, capped, and says when nothing is free |
| XmsManager.Manager.Allocate | src/extmem.c:309-342 | a granted handle is nonzero, new, and holds an extent of the requested size |
| XmsManager.Manager.FreeBlock | src/extmem.c:344-366 | frees an unlocked block; statuses for a missing handle and a locked block |
| XmsManager.Manager.LockBlock | src/extmem.c:435-460 | counts up to 255 and returns the linear address of the block |
| XmsManager.Manager.UnlockBlock | src/extmem.c:462-484 | counts down, refuses at zero |
| XmsManager.Manager.MoveBlock | src/extmem.c:368-433 | copies source to destination and nothing else, or reports the right status |
| XmsManager.Manager.FindEnd | src/extmem.c:384-422 | resolves one end of a move with its handle and range checks |
| XmsManager.Manager.ShrinkBlock | src/extmem.c:522-559 | cuts the block and leaves the rest as a free extent |
| XmsManager.RangeCheckExact | src/extmem.c:395-400 | the 32-bit range check is right exactly when the sum does not wrap into the block |
| XmsManager.RangeCheckWraps | src/extmem.c:395-400 | every block accepts a move of 4 GB less two bytes, an even length, from offset 2, which does not lie in it |
| XmsManager.LocateInside | src/extmem.c:384-422 | an accepted range lies inside its block if and only if offset plus length stay below 4 GB |
| XmsManager.ExtentsApart | src/extmem.c:80-112 | byte ranges of different extents are disjoint |
| XmsManager.MoveConfined | src/extmem.c:368-433 | a move between two blocks touches only the destination extent and is never refused for overlap |
| XmsList.MergeExact | src/extmem.c:114-148 | merging leaves no two free neighbours, loses no free KB and no used extent |
| XmsList.StepInv | src/extmem.c:284-559 | extents tile all KB, handles stay distinct, lock counts in 0..255, free extents unlocked |
| XmsList.StepLocked | src/extmem.c:309-559 | a locked block keeps place and size under every request |
| XmsList.LockedBlockStays | src/extmem.c:309-559 | over any run a block stays where lock said until its count returns to zero |
| XmsList.TiledMerge | src/extmem.c:114-148 | merging keeps the tiling |
| XmsList.DistinctCut | src/extmem.c:97-110 | cutting an extent changes no other one and gives out no handle |
| XmsList.GrantInv | src/extmem.c:309-342 | a granted extent keeps tiling, distinct handles and lock bounds |
| XmsEffects.UsedExact | src/extmem.c:284-559 | which blocks are in use after a query, free, lock, unlock or shrink, exactly |
| XmsEffects.AllocUsed | src/extmem.c:309-342 | an allocation adds one unlocked block of the size asked for under a new handle, or none when the last handle is in use, and keeps all others |
| XmsManager.ConventionalMeans | src/extmem.c:383-386 | the high word of a conventional pointer is the segment, the low word the offset |
| Pic.Controllers.Reinit | src/pic.c:66-83 | both chips in the reset state |
| Pic.Controllers.TriggerIrq | src/pic.c:215-227 | a request goes to IRR, or to pending during initialisation |
| Pic.Controllers.EndOfInterrupt | src/pic.c:201-213 | the specific EOI, releasing the cascade line when the slave has nothing in service |
| Pic.Controllers.RetireTop | src/pic.c:154-160 | the loop of the non-specific EOI clears the in-service line of highest priority |
| Pic.Controllers.PortWrite | src/pic.c:115-199 | the ICW/OCW state machine of both chips |
| Pic.Controllers.CheckSlave | src/pic.c:233-256 | the slave scan passes a servable request on to line 2 |
| Pic.Controllers.Dispatch | src/pic.c:278-303 | acceptance on both chips and the interrupt raised |
| Pic.Controllers.HandleIrq | src/pic.c:229-306 | one poll of both chips |
| PicRuns.ScanExact | src/pic.c:263-304 | in any mode the scan stops at line k exactly when k is requested, not in service and not masked out, and every line before it is passed over |
| PicRuns.PickExact | src/pic.c:229-306 | the line each chip picks, special mask and special nested mode included; the master goes by the mask register of the slave |
| PicRuns.DispatchExact | src/pic.c:258-306 | the master dispatches exactly the foremost line |
| PicRuns.DeliveredSound | src/pic.c:229-306 | an interrupt is raised only for a requested, unmasked line of a chip in operation |
| PicRuns.StepAccounts | src/pic.c:115-306 | each delivery uses up one request |
| PicRuns.NeverMoreThanRequested | src/pic.c:115-306 | over any run deliveries of a line never exceed its requests |
| PicRuns.ServedMirrors | src/pic.c:149-306 | a step keeps the in-service bits equal to the dispatch history |
| PicRuns.ServiceIsStack | src/pic.c:149-304 | over any run in fully nested mode the in-service lines are a stack of strictly rising priority and the non-specific EOI retires the latest |
| PicRuns.ServiceIsStackFromReset | src/pic.c:66-306 | the same from reset |
| PicRuns.SilentDispatch | src/pic.c:283-295 | exactly when the cascade line is dispatched without an interrupt |
| PicCases.DispatchBehindMask | src/pic.c:229-306 | a run from reset, masking the slave behind a request, that ends in such a dispatch |
| PicCascade.SlaveServiceRun | src/pic.c:278-303 | over any run the slave records at most line 2 as in service, starting from such a state |
| PicCascade.EoiExact | src/pic.c:201-213 | the specific EOI of slave line n leaves the cascade line free if and only if it was free or the slave has nothing but n in service |
| PicCascade.SlaveEndExact | src/pic.c:201-303 | the EOI of the slave line just delivered frees the cascade line if and only if it is line 2, or the slave retires by itself with nothing in service |
| PicCascade.BiosEnd | src/main.c:278-283 | the EOI the BIOS entry gives |
| PicCascade.BiosEndExact | src/main.c:278-283 | it retires the delivered line of the master, but for slave line n it retires line n of the master, so the cascade line is freed if and only if n is 2 |
| PicCascade.StuckForever | src/pic.c:201-303 | with line 2 in service on both chips, no slave line and no line above 2 is delivered over any run of requests, polls, masks and other EOIs |
| PicCascade.ClockLeavesCascade | src/pic.c:201-303 | one clock interrupt from reset, delivered and ended as line 8, leads there |
| PicRuns.StepPending | src/pic.c:171-227 | during initialisation pending collects exactly the requests that arrive |
| PicRuns.RequestsSurviveInit | src/pic.c:123-227 | a chip under initialisation dispatches nothing, and ICW4 makes requested exactly what asked since ICW1 |
| PicRuns.InitSequence | src/pic.c:115-199 | the four initialization words put the chip into operation with their base and modes, nothing masked, requested or in service, and leave the other chip alone |
| PicPorts.SpecificEnds | src/pic.c:162-165 | 60h + n and E0h + n written to either command port end line n of that chip and do nothing else |
| PicPorts.NonSpecificEnds | src/pic.c:152-160 | 20h and A0h end the highest line in service and do nothing else |
| PicPorts.OthersIgnored | src/pic.c:149-168 | the other priority orders change nothing |
| PicPorts.ModesSet | src/pic.c:138-146 | OCW3 sets or clears special mask mode and selects the register to be read, each only with its enable bit |
| PicPorts.SingleMask | src/pic.c:194-198 | a mask byte with one bit set masks that line alone |
| PicPorts.RequestOutstanding | src/pic.c:215-227 | a request makes exactly its line outstanding, in operation or during initialisation |
| PicRuns.TopIsHead | src/pic.c:154-160 | the line the non-specific EOI clears is the latest dispatch |
| EmsBoard.Board.constructor | src/ems.c:189-191 | all pages free, nothing mapped |
| EmsBoard.Board.Search | src/ems.c:202-213 | first block with the handle |
| EmsBoard.Board.Advance | src/ems.c:235-244 | the inner scan goes on from where it stands |
| EmsBoard.Board.Validate | src/ems.c:228-248 | the validator loop clears exactly the slots its single scan does not confirm |
| EmsBoard.Board.AllocatePages | src/ems.c:290-342 | function 43: checks in order, handle choice and the handle returned, page account |
| EmsBoard.Board.MapSlot | src/ems.c:344-370 | function 44: maps or unmaps one slot |
| EmsBoard.Board.ReleaseHandle | src/ems.c:372-395 | function 45: gives the pages back unless a mapping is saved |
| EmsBoard.Board.SaveMapping | src/ems.c:401-420 | function 47: validates, then saves |
| EmsBoard.Board.RestoreMapping | src/ems.c:422-443 | function 48: restores, then validates |
| EmsBoard.Board.SetMapping | src/ems.c:493-500 | function 4E01: takes over any map, then validates |
| EmsBoard.Board.SetPartialMapping | src/ems.c:543-560 | function 4F01: takes over the chosen slots, then validates |
| EmsBoard.Board.ReallocatePages | src/ems.c:635-671 | function 51: page account and kept prefix |
| EmsBoard.Board.SlotOf | src/ems.c:131-143 | the count-down loop finds slot and offset of a frame address |
| EmsBoard.Board.Get8 | src/ems.c:126-145 | a read through the frame |
| EmsBoard.Board.Put8 | src/ems.c:147-167 | a write through the frame |
| EmsBoard.Board.MoveRegion | src/ems.c:884-1099 | the plain move between two handles |
| EmsRuns.SweepExact | src/ems.c:228-248 | a slot survives validation if and only if it is good and no slot up to it goes back in the block list |
| EmsRuns.SweepSound | src/ems.c:228-248 | after validation every mapped slot names a live block and a page it has |
| EmsRuns.SweepComplete | src/ems.c:228-248 | every good slot survives if and only if none comes after one that goes back |
| EmsCases.ValidatorDropsGoodSlot | src/ems.c:228-248 | a new board, one page allocated and mapped in slot 1: saving the mapping drops it because slot 0 is empty |
| EmsRuns.ApplyKeeps | src/ems.c:290-671 | free pages plus handle pages equal the total, the count is the list length, the frame is sound |
| EmsRuns.RunKeeps | src/ems.c:126-671 | the same in every reachable state, and every frame access is in bounds |
| EmsRuns.StoreSeen | src/ems.c:126-167 | a stored byte is read back at exactly the addresses that denote the same cell |
| EmsRuns.AliasExact | src/ems.c:126-167 | two frame addresses alias if and only if same slot contents and same offset |
| EmsRuns.SaveRestore | src/ems.c:401-443 | save, remap at will, restore: the saved mapping comes back if and only if it was in list order |
| EmsRuns.HandleExact | src/ems.c:308-317 | on any list of blocks the handle given out is unused if and only if, whenever the handles 1 to h are all in use, they stand at some places of the list in their order |
| EmsCases.HandleGivenTwice | src/ems.c:308-317 | a run of a new board, with one release, that ends with one handle for two blocks |
| EmsRuns.MoveRangeExact | src/ems.c:1062-1068 | the check is exact if and only if the sum does not wrap at 4 GB and the end is on a page boundary or on a page the block has |
| EmsRuns.MoveLeavesBlock | src/ems.c:1062-1068 | two moves every block accepts although they leave it |
| EmsRuns.MoveMeaning | src/ems.c:1061-1097 | the destination equals the original source even when the two overlap, and nothing else changes |
| EmsRuns.MoveStatus | src/ems.c:1072-1099 | the overlap status is given exactly when the ranges share bytes but differ |
| EmsRuns.MapShows | src/ems.c:344-370 | after a mapping the frame shows that page of that handle in that slot, and the other slots what they showed |
| EmsRuns.UnmapHides | src/ems.c:344-370 | after mapping FFFFh the slot reads as FFh all over, and the other slots show what they showed |
| EmsRuns.MapSucceeds | src/ems.c:344-370 | exactly when a mapping succeeds |
| EmsRuns.AllocateExact | src/ems.c:290-342 | exactly when an allocation succeeds, and the block it adds |
| EmsRuns.PartialExact | src/ems.c:543-560 | each slot of a partial map is the given one where chosen and the present one elsewhere, if it passes the validator |
| EmsRuns.ReleaseUnmaps | src/ems.c:372-395 | after a release no slot shows the block and every other block is untouched |
| EmsRuns.ReallocateKeepsBytes | src/ems.c:635-671 | a reallocated block keeps handle, saved map and the bytes that fit; the others keep everything |
| Ems.ResolveInside | src/ems.c:126-167 | every frame address resolves inside its block |
| EmsRuns.PagesSplit | src/ems.c:384-390 | unlinking or resizing a block moves the page sum by exactly that block |
| ShiftUnit.Shifter.One | src/cpu.c:1323-1381 | shift or rotate by one, value and flags |
| ShiftUnit.Shifter.ByCount | src/cpu.c:1383-1631 | shift or rotate by the masked count, value and flags, byte form |
| ShiftUnit.Shifter.Rotate | src/cpu.c:1400-1433 | the bit loop of the four rotates |
| ShiftUnit.Shifter.Left | src/cpu.c:1588-1604 | closed form of SHL, zero past the width |
| ShiftUnit.Shifter.Right | src/cpu.c:1605-1619 | closed form of SHR, zero past the width |
| ShiftUnit.Shifter.RightSigned | src/cpu.c:1620-1627 | the SAR loop with its carry taken up front |
| ShiftUnit.RotateFlags | src/cpu.c:1326-1358 | flags after any number of single rotates |
| ShiftUnit.ShiftFlags | src/cpu.c:1359-1381 | flags after any number of single shifts |
| Shifts.ShlMeans | src/cpu.c:1434-1450 | single SHL steps multiply modulo the width and carry the last bit out |
| Shifts.ShrMeans | src/cpu.c:1451-1465 | single SHR steps divide and carry the last bit out |
| Shifts.SarMeans | src/cpu.c:1466-1473 | single SAR steps are signed division rounding down |
| Shifts.LastBitOut | src/cpu.c:1595-1599 | the bit the closed form tests is the last one out |
| Shifts.SarCarryExact | src/cpu.c:1620-1627 | the carry of the counted SAR is right if and only if the byte form is used, the count is at most 8, or two bits agree |
| Shifts.CountedIsRepeated | src/cpu.c:1383-1631 | counted forms equal count-fold single steps in value and all flags, except exactly that carry |
| Shifts.SarCarryWrong | src/cpu.c:1620-1627 | 0100h shifted right 9 times loses its carry |
| Shifts.RotateUndone | src/cpu.c:1328-1358 | rotating by any count and back restores the value, and the carry for RCL/RCR |
| Rotates.RotateMeans | src/cpu.c:1326-1358 | after n steps bit k is the bit n places before it (ROL, RCL) or after it (ROR, RCR), on the ring of the width, with the carry as one more place for RCL and RCR |
| Rotates.RotateFlagsMean | src/cpu.c:1326-1358 | CF is bit 0 of a ROL result and the top bit of a ROR result; OF compares the sign with CF, or the two top bits |
| Rotates.TestMeans | src/cpu.c:240-248 | parity says that an even number of the low eight bits are set, sign that the value is negative |
| Chains.Adder.AdcWord | src/cpu.c:485-493 | ADC: the exclusive-or flag formulas are carry, signed overflow and half carry |
| Chains.Adder.SbbWord | src/cpu.c:505-513 | SBB on words: borrow, signed overflow and half borrow from a wrapped 32-bit difference |
| Chains.Adder.SbbByte | src/cpu.c:495-503 | SBB on bytes |
| Chains.Adder.DasAl | src/cpu.c:695-719 | DAS in its two corrections |
| Chains.AdcChainSum | src/cpu.c:485-493 | a chain of ADC of any length computes the exact sum |
| Chains.SbbChainDifference | src/cpu.c:505-513 | a chain of SBB of any length computes the exact difference |
| Chains.SbbChainCompares | src/cpu.c:505-513 | its final carry is the unsigned comparison of the whole numbers |
| Chains.AdcChainSigned | src/cpu.c:485-493 | final OF is signed overflow of the whole sum, SF and OF give its sign |
| Chains.SbbChainSigned | src/cpu.c:505-513 | the same for the difference: a signed comparison of the whole numbers |
| Chains.DecimalStep | src/cpu.c:495-719 | SBB then DAS on packed bytes is the two-digit difference with decimal borrow |
| Chains.DasChainDifference | src/cpu.c:495-719 | a chain of SBB and DAS computes the exact decimal difference modulo 100^k |
| Chains.DasChainBorrows | src/cpu.c:495-719 | its final carry is the decimal borrow |
| Strings.Core.MoveUnit | src/cpu.c:1151-1165 | MOVSB and MOVSW |
| Strings.Core.RepMovs | src/cpu.c:1897-1906 | REP MOVS runs CX units; final CX, SI and DI are exact, wraps included |
| Chains.Compare | src/cpu.c:535-551 | CMP of bytes or words: the flags of the exact difference, the byte form computed in 16 bits |
| Strings.Core.RepScan | src/cpu.c:1937-1946 | REP(N)E SCASB and SCASW stop right after the first operand that decides, with exact CX, DI and all flags |
| Strings.CopyUp | src/cpu.c:1151-1165 | upward copy away from the overlap: the destination equals the original source, nothing else changes |
| Strings.CopyDown | src/cpu.c:1151-1165 | downward copy likewise |
| Strings.CopyOverItself | src/cpu.c:1151-1165 | upward copy onto its own tail repeats the first d bytes |
| Strings.WordsByOne | src/cpu.c:1151-1165 | words copied up by one byte: the first byte comes over, then every odd one twice |
| Strings.ResidueIsMod | src/cpu.c:1151-1165 | the repetition is byte i mod d |
| Strings.IndexBack | src/cpu.c:1151-1165 | the index steps wrap: as many steps the other way lead back |
| PathBuffer.Normalize | src/dosnames.c:820-946 | the whole normaliser in place: writes stay in the buffers, the drive and the (cut off) normalised path come back |
| PathBuffer.TakeDrive | src/dosnames.c:827-838 | a drive prefix is taken off by moving the rest down |
| PathBuffer.Base | src/dosnames.c:840-845 | the base is the directory of the drive, or empty for an absolute path |
| PathBuffer.CutPart | src/dosnames.c:866-876 | a component is ended in place, and the path with it at an invalid character |
| PathBuffer.GoUp | src/dosnames.c:910-919 | ".." drops the last name and the separators before it |
| PathBuffer.AddName | src/dosnames.c:921-941 | a name is added with a backslash as far as it fits |
| PathBuffer.Apply | src/dosnames.c:877-941 | "..", "." and names |
| PathBuffer.WalkPath | src/dosnames.c:847-943 | the component loop |
| PathNames.UpPops | src/dosnames.c:910-919 | on a joined list of names, going up removes exactly the last |
| PathNames.DownPushes | src/dosnames.c:921-941 | a name that fits is pushed |
| PathNames.DownCuts | src/dosnames.c:921-941 | a name that does not fit is cut at the size limit |
| PathNames.DriveMeans | src/dosnames.c:822-838 | the drive is the place of the letter in the alphabet, in either case, or the current one |
| PathNames.WalkIsStack | src/dosnames.c:847-943 | as long as everything fits the text follows the component stack |
| PathNames.NormalIsStack | src/dosnames.c:820-946 | the result is the component stack joined by backslashes |
| PathNames.NormalIsClean | src/dosnames.c:820-946 | the stack holds only proper names and fits the buffer |
| PathNames.PartsOfJoin | src/dosnames.c:847-875 | a joined list reads back as the same list |
| PathNames.NormalTwice | src/dosnames.c:820-946 | normalising the result as an absolute path returns it |
| PathNames.NormalTwiceExact | src/dosnames.c:827-838 | from the root this holds if and only if the first name does not start with a colon |
| UniqueNames.Taken | src/dosnames.c:223-231 | a name is taken if and only if it is in the listing so far |
| UniqueNames.MakeUnique | src/dosnames.c:514-537 | the loop ends with the first free candidate in order, or with every candidate taken |
| UniqueNames.Rename | src/dosnames.c:519-536 | one turn of the loop moves to the next candidate |
| UniqueNames.WriteDigits | src/dosnames.c:529-535 | the digit loop writes the counter between tilde and dot and stops short of the dot |
| UniqueNames.DigitsMean | src/dosnames.c:529-535 | the digits between tilde and dot read back as the counter |
| UniqueNames.CandidateShape | src/dosnames.c:514-537 | extension and first character survive every renaming |
| UniqueNames.CandidatesDiffer | src/dosnames.c:519-536 | no two candidates of a name are equal |
| UniqueNames.DroppedOnlyWhenFull | src/dosnames.c:517-542 | a file is left out only when (10^(dot-1) - 1) / 9 names are already in the listing |
| UniqueNames.Entered | src/dosnames.c:479-542 | what one directory entry adds |
| UniqueNames.ReadDir | src/dosnames.c:430-542 | the names of a listing are pairwise distinct |
| FcbParse.Step | src/loader.c:57-392 | every turn reads on, lowers the mode rank or exits, and keeps the output pointer inside bytes 0 to 11 |
| FcbParse.Run | src/loader.c:57-394 | the parser ends on every line, at its end or in the exit mode |
| FcbParse.Begin | src/loader.c:104-117 | a drive letter or first character moves on by one or two characters inside the line |
| FcbReader.Reader.Parse | src/loader.c:48-394 | the loop over mode, place and output pointer fills the two blocks as specified and nothing beyond byte 11 |
| FcbReader.Reader.Turn | src/loader.c:64-392 | one turn of the loop with its re-read |
| FcbReader.Reader.AtStart | src/loader.c:66-132 | modes INIT and INIT_PLUS |
| FcbReader.Reader.AtSecond | src/loader.c:262-315 | modes SEP and SEP_PLUS |
| FcbReader.Reader.Fill | src/loader.c:140-146 | a star fills up with question marks |
| FcbRoundTrip.Feed | src/loader.c:181-185 | valid characters go to the block in capitals |
| FcbRoundTrip.LettersMean | src/loader.c:104-117 | letters of either case become the same capital and the same drive, A being 1 |
| FcbRoundTrip.ReadField | src/loader.c:66-253 | a written-out name fills its block exactly |
| FcbRoundTrip.ReadStar | src/loader.c:86-92 | a star in or after a name fills the rest with question marks |
| FcbRoundTrip.RoundTrip | src/loader.c:48-394 | two names written on the line, wildcards included, with any separators, are read back into the two blocks |
| FcbRoundTrip.BareStar | src/loader.c:86-92 | after a first name that is only a star the second block stays blank |
| FcbRoundTrip.RoundTripExact | src/loader.c:48-394 | the round trip holds if and only if the first name is more than a star, for every second name that fills something |
| FcbRoundTrip.NoSeparator | src/loader.c:66-261 | without a separator the parse never reaches the second block |
| PagedMemory.Bus.PhysicalAddress | src/i386c/cpumem.c:200-231 | the page walk with its accessed and dirty writes |
| PagedMemory.Bus.Read16 | src/i386c/cpumem.c:242-252 | a 16-bit read equals its two bytes, across pages too |
| PagedMemory.Bus.Write16 | src/i386c/cpumem.c:272-285 | a 16-bit write stores its two bytes, across pages too |
| PagedMemory.Bus.LinearRead | src/i386c/cpumem.c:299-317 | a read by pages returns the bytes of the translated addresses |
| PagedMemory.Bus.LinearWrite | src/i386c/cpumem.c:318-335 | a write by pages stores them, in order |
| PagedMemory.Bus.SegmentRead | src/i386c/cpumem.c:390-412 | a read that wraps at 64K |
| PagedMemory.Bus.SegmentWrite | src/i386c/cpumem.c:414-436 | a write that wraps at 64K |
| PagedMemory.ReadIsBytewise | src/i386c/cpumem.c:233-436 | any such read returns what reading byte by byte returns |
| PagedMemory.WriteIsBytewise | src/i386c/cpumem.c:262-436 | any such write leaves the same memory as writing byte by byte, marks in the tables aside |
| PagedMemory.ChunkMaps | src/i386c/cpumem.c:306-316 | inside a page consecutive linear addresses are consecutive in memory |
| PagedMemory.Bus.SegmentRead16 | src/i386c/cpumem.c:348-360 | a 16-bit read in a segment returns the byte at the offset and the one SecondByte names |
| PagedMemory.Bus.SegmentWrite16 | src/i386c/cpumem.c:373-388 | a 16-bit write in a segment stores its two bytes there |
| PagedMemory.SecondByteLeaves | src/i386c/cpumem.c:348-360 | segment 1, offset FFFF: the second byte is past the segment |
| PagedMemory.SecondByteExact | src/i386c/cpumem.c:348-360 | where the second byte of a segment access is not the next offset |
| Paging.FrameMasks | src/i386c/cpumem.c:206-224 | the base read from the entry bytes is the masked entry |
| Paging.WalkMeans | src/i386c/cpumem.c:200-231 | the address with directory index d, table index t and offset o is offset o of the page named by entry t of the table named by entry d, if both are present, and the fixed address otherwise |
| Paging.MarksAfterWalk | src/i386c/cpumem.c:206-224 | a read marks both entries accessed and leaves the dirty bit; the directory entry never turns dirty unless it is the table entry too; nothing is marked when it is absent |
| Paging.WireWraps | src/i386c/cpumem.c:34-67 | the byte an address selects is the address modulo the size of memory |
| Paging.TouchEffect | src/i386c/cpumem.c:200-231 | a walk changes accessed and dirty bits of its two entries only |
| Paging.TranslationStable | src/i386c/cpumem.c:200-231 | no walk ever changes where any address is mapped, whatever the tables look like |
| Paging.MarksAfterWrite | src/i386c/cpumem.c:217-222 | dirty after a write; accessed if and only if accessed or dirty before, or the entry is its own directory entry |
| Paging.FirstWriteNotAccessed | src/i386c/cpumem.c:217-222 | a first write that leaves its page dirty and not accessed |
| Paging.BytewiseReads | src/i386c/cpumem.c:233-240 | byte-by-byte reads return the bytes of the cells |
| Paging.BytewiseWrites | src/i386c/cpumem.c:262-270 | byte-by-byte writes store the data in the cells |

## Left out

- File, terminal, signal and timer services, EXE and COM loading, directory scanning and stat calls: I/O.
- iconv code pages and DBCS names: the name modules are the single-byte mode.
- Opcode tables and disassemblers: tables and string formatting.
- Linked lists (XMS extents, EMS blocks) are sequence fields; a node is its place in the list or its host address, and aliasing of node pointers is not captured. Host allocation is a parameter (an address that is not live, or failure), and realloc and malloc for splitting are taken to succeed.
- McbHeap.Heap.Free: the caller passes the header of an existing block; a stray segment is not modelled.
- McbHeap.Heap.Resize: the same.
- McbHeap.Heap.Put8: programs store into their own blocks only; a program overwriting a header is outside the model.
- XMS: query of one handle, A20, HMA, UMB, the 32-bit variants, and the expanding half of the resize request, which does not keep offsets consistent.
- XmsManager.Manager.Allocate: requires some free extent to fit, because the search dereferences its result before testing it.
- XmsManager.Manager.MoveBlock: when both ends pass the checks, the ranges are required to lie in memory and not to be a forward copy onto their own tail, which the driver hands to memcpy; LocateInside says when an accepted range lies in its block.
- XmsManager.MoveConfined: sums below 4 GB; beyond, LocateInside says that the range leaves its block.
- XmsManager.Manager.ShrinkBlock: the shrinking half of the request.
- EMS: functions 50, 55 and 56 (their bound admits slot 4), names, attributes, alternate maps, the exchange form of 57 and its forms with conventional memory. Maps set from guest memory are parameters, read from outside the page frame.
- EmsBoard.Board.MoveRegion: when the page-granular check passes, the ranges are required to lie inside the blocks; EmsRuns.MoveRangeExact says when they do.
- Far transfers: task gates, task switches and virtual-8086 mode, into which an instruction leaves the model; accessed-bit writes to descriptors, debug checks, and the stack-limit checks, which are arbitrary predicates of segment, pointer and size. Descriptors come from an arbitrary lookup; parse_selector, load_cs, load_ss and the push macros are modelled by what they do to the registers.
- FarRoom.RoomShort: the limit checks of the single stack accesses, which the pushes past the segment meet only after SS and CS are loaded.
- FarRoundTrip.GateCallReturns: a 16-bit inner stack must have room for the frame below its pointer.
- PIC: reading ports, and the stack property outside fully nested mode or for the slave, whose in-service bits record the master's line.
- CPU: DAA, multiplication and division, CMPS, STOS, LODS, INS and OUTS.
- Strings.Core.RepMovs: memory outside the EMS page frame; the memory size is the address mask plus one.
- PathBuffer.Normalize: a drive's directory is a text of at most max characters; bytes after its end, which the code copies too, are zero here.
- UniqueNames.ReadDir: conversion of host names to 8.3 form comes in as a name with the place of its dot; the long-name list is not modelled.
- FcbParse.Valid: characters from 128 up are negative, as with a signed char, so the two tests above 127 never hold.
- EmsBoard.Board.ReallocatePages: the host allocator is taken to succeed, because its result is dereferenced untested.
- XmsManager.Manager.SearchFree: requires some free extent to fit, as Allocate does.
- Paging: 32-bit accesses and the redirection of the EMS page frame; transfers assume every touched page present and no entry among the transferred bytes, because an absent page makes a transfer by pages and one by bytes read different dummy addresses.
- PagedMemory.Bus.LinearRead: as above, and transfers end at or below 4 GB.
- PagedMemory.Bus.LinearWrite: the same.
- PagedMemory.Bus.Read16: pages present, no entry among the bytes, as above.
- PagedMemory.Bus.Write16: the same.
- PagedMemory.Bus.SegmentRead: the same.
- PagedMemory.Bus.SegmentWrite: the same.
- PagedMemory.Bus.SegmentRead16: the same.
- PagedMemory.Bus.SegmentWrite16: the same.
