# Bus-master IDE DMA and red-black trees of GNU Mach, in Dafny

This project models two self-contained pieces of the GNU Mach kernel tree
and proves properties of them.

1. **The Triton / bus-master IDE DMA driver** (`linux/src/drivers/block/triton.c`):
   - `build_dmatable`, which turns a block request into a Physical Region
     Descriptor (PRD) table. The table follows the Bus Master Programming
     Interface for IDE ATA Controllers (SFF-8038i): 8-byte entries, a 16-bit
     byte count where 0 means 64 KiB, End-Of-Table in bit 31, and no entry
     crossing a 64 KiB boundary (module `Prd`, file `prd.dfy`);
   - `config_drive_for_dma`, the decision whether a drive runs in DMA mode,
     made from its ATA IDENTIFY DEVICE data (module `Eligibility`);
   - `triton_dmaproc` and `dma_intr`, the protocol on the channel's command,
     status and PRD-address registers (module `DmaEngine`);
   - `init_triton_dma` and the decode and slot-claim logic of
     `ide_init_triton` (module `ControllerSetup`, file `setup.dfy`). They run
     over a 256-byte snapshot of the controller's PCI configuration space
     (module `PciConfig`) and the interface table `ide_hwifs`.
2. **The kernel red-black tree** (`kern/rbtree.c`):
   - rotation (module `RBTree`);
   - insert rebalancing (`RBInsert`) and removal (`RBRemove`);
   - `rbtree_firstlast`, `rbtree_walk` and `rbtree_nearest` (`RBWalk`);
   - the destructive post-order walk `rbtree_find_deepest` /
     `rbtree_postwalk_deepest` / `rbtree_postwalk_unlink` (`RBPostwalk`).

   A tree is an algebraic datatype `Node(color, left, id, right)`. The parent
   link is implicit in the nesting, so "parent links stay consistent" holds
   by construction. The tree code never compares keys, so the abstraction of
   a tree is the in-order sequence of node identities, `Elems`. The caller's
   insertion point `(parent, index)` is a gap of that sequence, and a node is
   addressed by its in-order position (or by its path from the root, in the
   post-order walk). The red-black invariants are the predicates `NoRedRed`,
   `BlackBalanced` and `IsRedBlack`.

Every C loop whose shape matters is also written as a Dafny `method` with
the same loop structure, and proved equal to its functional definition:
`Prd.BuildDmaTable` / `FillTable` / `FillRun`, `RBWalk.FirstLast`,
`RBPostwalk.PostWalk` and `ControllerSetup.ScanIoBars`.

## Model

| member | source | states |
|---|---|---|
| Prd.WordDecodes | linux/src/drivers/block/triton.c:183-191 | The 32-bit length word carries the count in bits 0-15 and the EOT flag in bit 31 only, so the controller reads back exactly the count and flag that were written. |
| Prd.ChunkFits | linux/src/drivers/block/triton.c:180-184 | Each step of the fill loop takes a non-empty part of what is left and stores it as an entry inside one 64 KiB window. A step that does not finish the run ends exactly on a 64 KiB boundary. |
| Prd.Split | linux/src/drivers/block/triton.c:175-188 | The entries written for one run describe exactly the run's bytes, counting 0 as 64 KiB. There are none only for an empty run, and the first starts at the run's address. |
| Prd.SplitStaysInWindows | linux/src/drivers/block/triton.c:175-188 | No entry of a run crosses a 64 KiB boundary, and none carries EOT. |
| Prd.SplitAligned | linux/src/drivers/block/triton.c:180-186 | Every entry of a run after the first starts on a 64 KiB boundary. |
| Prd.SplitContiguous | linux/src/drivers/block/triton.c:183-186 | Each entry starts where the previous one ends, so a run is covered in order with no gap and no overlap. |
| Prd.EntriesCover | linux/src/drivers/block/triton.c:144-189 | The byte counts of the entries of a sequence of runs add up to the runs' bytes. Every entry is plain and inside one window, and there are none exactly when the runs hold no bytes. |
| Prd.EntriesFollowRuns | linux/src/drivers/block/triton.c:144-189 | Each run contributes exactly its own split, in place between the entries of the runs before it and those after it. With Split's first address and SplitContiguous, the entries cover each run's addresses in order. |
| Prd.ScanFolds | linux/src/drivers/block/triton.c:159-169 | From any point of the chain, the coalescing loop continues the left fold of the one-buffer join step. |
| Prd.CoalesceIsFold | linux/src/drivers/block/triton.c:152-169 | The C coalescing loop equals the reference grouping: buffers folded one by one, a buffer extending the last run exactly when it starts at that run's end. |
| Prd.ScanKeepsBytes | linux/src/drivers/block/triton.c:159-169 | Coalescing from any point keeps every byte of the buffers that remain. |
| Prd.ScanSeparated | linux/src/drivers/block/triton.c:159-169 | The loop never leaves two adjacent runs that abut; the first run starts at the current run's address. |
| Prd.CoalesceKeepsBytes | linux/src/drivers/block/triton.c:152-169 | The runs hold exactly the chain's bytes, no two consecutive runs could have been joined, and a non-empty chain gives at least one run. |
| Prd.SplitLength | linux/src/drivers/block/triton.c:175-188 | A run becomes exactly one entry per 64 KiB window its bytes touch. |
| Prd.EntriesLength | linux/src/drivers/block/triton.c:152-188 | The entries of a sequence of runs number exactly the windows the runs touch, counted run by run. |
| Prd.WindowsJoin | linux/src/drivers/block/triton.c:159-188 | A run made of two abutting parts touches no more 64 KiB windows than the two parts counted separately. |
| Prd.JoinNoMore | linux/src/drivers/block/triton.c:159-169 | Adding one buffer to the runs, by extending the last run or starting a new one, adds at most the windows that buffer touches as its own run. |
| Prd.MergeAllNoMore | linux/src/drivers/block/triton.c:152-188 | The reference grouping never touches more windows, counted run by run, than one run per buffer. |
| Prd.CoalesceNeverAddsEntries | linux/src/drivers/block/triton.c:152-188 | Coalescing contiguous buffers never increases the number of table entries compared with one run per buffer. |
| Prd.Runs | linux/src/drivers/block/triton.c:151-169 | A request always yields at least one run. A request without a chain is one run of `nr_sectors * 512` bytes at its buffer. |
| Prd.RunsKeepBytes | linux/src/drivers/block/triton.c:151-169 | The runs of a request hold exactly the bytes the request asks to move, for both request kinds. |
| Prd.MarkLastTerminates | linux/src/drivers/block/triton.c:190-192 | Setting bit 31 on the last entry written terminates the table without changing any byte count. |
| Prd.EotKeepsBytes | linux/src/drivers/block/triton.c:191 | The EOT flag changes neither an entry's byte count nor its window. |
| Prd.PlainUnterminated | linux/src/drivers/block/triton.c:176-178 | A table cut off by the capacity test has no EOT entry, so it is never a valid table. |
| Prd.Build | linux/src/drivers/block/triton.c:137-196 | The return code is 1 exactly when the request has no bytes or needs 256 or more entries; fewer than 256 entries are ever written. On 0 the table is terminated and its counts add up to the request size. On 1 what was written is an unterminated prefix of the full table. The written table is the entries of the runs in order, with the last one marked EOT. |
| Prd.FillRun | linux/src/drivers/block/triton.c:175-188 | The inner loop appends a run's entries. It reports a full table exactly when the incremented count reaches 256, and then has written the first 255 entries. |
| Prd.FillTable | linux/src/drivers/block/triton.c:144-189 | The outer loop writes all entries of all runs, or exactly the first 255 of them when they do not fit. |
| Prd.BuildDmaTable | linux/src/drivers/block/triton.c:137-196 | The loop-by-loop method returns the same code and leaves the same table in memory as the functional `Prd.Build`. |
| Prd.SplitAtBoundaryExample | linux/src/drivers/block/triton.c:175-191 | 0x200 bytes at 0xFF00 become (0xFF00, 0x100) and (0x10000, 0x100 with EOT), with return code 0. |
| Prd.FullWindowExample | linux/src/drivers/block/triton.c:152-191 | Two abutting 32 KiB buffers coalesce into one full window, stored as a single entry with count field 0 and EOT. |
| Prd.CoalescedExample | linux/src/drivers/block/triton.c:152-191 | Buffers (0x1000, 0x9000) and (0xA000, 0x4000) coalesce into one run of 0xD000 bytes, stored as the single entry (0x1000, 0xD000) with EOT, and the build returns 0. |
| Eligibility.ConfigDriveForDma | linux/src/drivers/block/triton.c:203-269 | The return code is 0 or 1 and the IDENTIFY data is never changed. Return code 0 always comes with DMA on. `keep_settings` changes only for the emulated QEMU disk, when DMA is not forced and the interface is not an HPT343. |
| Eligibility.ForcedDisable | linux/src/drivers/block/triton.c:214-228 | On an HPT343 interface, or for a DMA-capable drive on the bad list, DMA is switched off with return code 1 whatever the mode bits say. |
| Eligibility.NoCapabilityUntouched | linux/src/drivers/block/triton.c:219-267 | Without IDENTIFY data or without capability bit 0, the drive is left exactly as it was and the return code is 1. |
| Eligibility.QemuEnabledButReportsOne | linux/src/drivers/block/triton.c:230-236 | The QEMU disk gets DMA on and `keep_settings` set, yet the return code is 1. |
| Eligibility.EnableLadder | linux/src/drivers/block/triton.c:203-267 | Return code 0, in both directions, exactly when DMA is forced, or when the drive is capable, not on the bad list, not QEMU, and has UltraDMA mode 4 with an 80-wire cable on an Ultra66, UltraDMA mode 2, multiword DMA mode 2, or a good-list model. |
| Eligibility.FallThroughLeavesDrive | linux/src/drivers/block/triton.c:237-267 | When no rung of the ladder holds, `using_dma` is not written: the drive comes back unchanged. |
| Eligibility.Ultra2IgnoresChipset | linux/src/drivers/block/triton.c:238-251 | A drive with UltraDMA mode 2 gets the same decision on every non-HPT343 interface, because the mode-4 test only decides for drives without mode 2. |
| DmaEngine.Stop | linux/src/drivers/block/triton.c:292-294 | Abort clears bit 0 of the command byte, keeps its other bits, and leaves status and table address alone. |
| DmaEngine.Start | linux/src/drivers/block/triton.c:309-311 | Begin sets bit 0 of the command byte and changes nothing else. |
| DmaEngine.StartStopInverse | linux/src/drivers/block/triton.c:292-311 | Begin and abort undo each other on a register set in the matching state. |
| DmaEngine.Prepare | linux/src/drivers/block/triton.c:316-328 | If the table cannot be built the result is 1 and no register is written. Otherwise it loads the table address, sets the direction bit exactly for a read with all other command bits clear, and ORs 0x06 into status. For a disk, and only a disk, it issues READ DMA or WRITE DMA and starts the engine. |
| DmaEngine.DmaProc | linux/src/drivers/block/triton.c:286-329 | Gives the behaviour of each action. Abort and begin are as above. A status check reports 1 exactly when status bits 0-2 are not 4. "Transferred" returns 0, and a DMA check returns config_drive_for_dma's decision. Read and write prepare, and an unknown action returns 1 without touching the registers. |
| DmaEngine.DmaIntr | linux/src/drivers/block/triton.c:108-131 | The engine is stopped on every path. The request completes exactly when the drive status is good and the DMA status, read before the stop, is good. Otherwise the error reported carries the drive status byte, never the DMA status. |
| DmaEngine.StatusCheckAgreesWithInterrupt | linux/src/drivers/block/triton.c:301-302 | With a good drive status, the interrupt completes the request exactly when the status-bad action returns 0. |
| DmaEngine.DiskTransferRoundTrip | linux/src/drivers/block/triton.c:108-328 | After a successful disk prepare the engine runs in the chosen direction. Given the status the controller shows at the interrupt, the interrupt stops the engine and keeps the direction and the table address. The request completes exactly when the drive and that status are good; otherwise the drive status is reported. |
| PciConfig.DwordWriteRead | linux/src/drivers/block/triton.c:679-682 | A dword written to configuration space reads back as written, and the bytes outside it are unchanged. |
| PciConfig.DwordAfterWord | linux/src/drivers/block/triton.c:677-683 | Rewriting the command word does not disturb BAR 4, so the repaired base address survives the command restore. |
| ControllerSetup.InitTritonDma | linux/src/drivers/block/triton.c:355-381 | If the eight ports are busy, nothing changes. Otherwise they are reserved and become `dma_base`. The interface gets the next half-page slice, and `triton_dmaproc`, only if there is table memory (the first allocation happens on first use). |
| ControllerSetup.SuccessiveSlices | linux/src/drivers/block/triton.c:365-375 | Two interfaces set up in turn get disjoint port ranges and adjacent table slices, and a reserved range is never handed out again. |
| ControllerSetup.RetryAfterFailedAllocation | linux/src/drivers/block/triton.c:365-377 | A failed allocation leaves the cursor at 0 and the interface without a table or `triton_dmaproc`. The next interface asks again and, when that call succeeds, gets the new memory as its table. |
| ControllerSetup.TableFitsSlice | linux/src/drivers/block/triton.c:99-100 | Two slices make a 4 KiB page, and every table build_dmatable writes fits in one slice. |
| ControllerSetup.ScanIoBars | linux/src/drivers/block/triton.c:612-617 | The scan fills `io[6]` with the ports of the I/O-space BARs in BAR order, zeros after them. Every port is four-aligned. |
| ControllerSetup.VendorPrologue | linux/src/drivers/block/triton.c:504-630 | The setup stops early exactly for an unknown vendor or a TTI device that is not an HPT343, and the HPT34x flag is only ever set for TTI. |
| ControllerSetup.DefaultBmiba | linux/src/drivers/block/triton.c:101-103 | The fallback bus-master port (0xd400 ALi, 0xcc00 VIA, 0xe800 others) is a non-zero port base that survives the 0xfff0 mask. |
| ControllerSetup.ProbeBar | linux/src/drivers/block/triton.c:659-686 | When DMA is enabled the base is a non-zero port base, already masked with 0xfff0. When it is not enabled, the base is 0. |
| ControllerSetup.EnableMaster | linux/src/drivers/block/triton.c:637-687 | With I/O decode off the setup quits with configuration space untouched. An enabled DMA always comes with a non-zero masked base. |
| ControllerSetup.MasterAlreadyOn | linux/src/drivers/block/triton.c:637-651 | With I/O decode and bus mastering already on, nothing is written before the base-address probe. |
| ControllerSetup.BarTakenAsSet | linux/src/drivers/block/triton.c:661-666 | A BAR 4 the BIOS did set is used masked with 0xfff0, with DMA enabled and configuration space untouched. |
| ControllerSetup.ZeroBarFallsBack | linux/src/drivers/block/triton.c:667-686 | A zero BAR 4 falls back to the vendor's default port if nothing answers there: BAR 4 then holds the default plus the I/O bit, and DMA is enabled. Otherwise DMA stays off and the BAR is untouched. |
| ControllerSetup.RepairBar | linux/src/drivers/block/triton.c:677-686 | The repair turn writes the default into BAR 4, and the retry accepts it. |
| ControllerSetup.RepairWrites | linux/src/drivers/block/triton.c:677-683 | After the three repair writes BAR 4 reads back the value written. |
| ControllerSetup.PortsEnabledIffSomeChannel | linux/src/drivers/block/triton.c:709-737 | For each on-board chipset, the whole-controller "neither port is enabled" test fails exactly when one of the two per-channel tests of the claim loop would pass. |
| ControllerSetup.DecodeReadsOneByte | linux/src/drivers/block/triton.c:722-732 | The shift pairs pick single configuration bytes: byte 0x09 for ALi and byte 0x4a for SiS. |
| ControllerSetup.AliRoutingInverse | linux/src/drivers/block/triton.c:903-904 | The 16-entry routing table is injective on real interrupts. Every code naming an interrupt maps back to itself, and the others give 0 or 0xff. |
| ControllerSetup.AliIrq | linux/src/drivers/block/triton.c:906-918 | A channel's interrupt is rewritten exactly under the bridge's control-bit conditions: through byte 0x44 for the primary at 0 and the secondary at 3, and through byte 0x75 for the secondary with bit 0 clear. |
| ControllerSetup.RouteSlot | linux/src/drivers/block/triton.c:905-918 | Only the slot's interrupt can change, and only on ALi with the bridge set up, to the value the bridge routes. |
| ControllerSetup.ChipsetTag | linux/src/drivers/block/triton.c:979-985 | A claimed card slot is tagged hpt343 for a non-HPT34x TTI card, ultra66 for a PDC20262, and udma otherwise. |
| ControllerSetup.Install | linux/src/drivers/block/triton.c:816-818 | Claiming a slot changes only that slot. The DMA ports are reserved only when DMA is on and they are free. Memory is requested exactly when the ports are taken and no earlier request has succeeded. That call takes the next allocator answer: on success the slot gets that memory and `triton_dmaproc`, and on failure its table fields stay as they were and the cursor stays 0. |
| ControllerSetup.ClaimOnboard | linux/src/drivers/block/triton.c:811-830 | An on-board chipset takes a slot, tagged triton, exactly when it sits at 0x1f0 or 0x170 and that channel's enable bit is set. The step count grows exactly then. The DMA base is `bmiba` or `bmiba + 8`. Only a failing VIA timing write stops the loop. |
| ControllerSetup.VisitOnboard | linux/src/drivers/block/triton.c:805-945 | The same claim rule, after ALi's interrupt routing. Only that slot changes, and the modelled configuration bytes are not written: VIA's timing writes to bytes 0x41 and 0x46 are not modelled. |
| ControllerSetup.ExtraRegion | linux/src/drivers/block/triton.c:448-466 | PDC20246 and HPT343 reserve 16 ports at `bmiba + 16` and PDC20262 reserves 48 at `bmiba + 48`, each only when free. Other devices reserve nothing, and nothing below `bmiba + 16` is ever taken. |
| ControllerSetup.CardSlot | linux/src/drivers/block/triton.c:950-970 | An HPT34x slot gets its command and control ports at fixed offsets from `bmiba`. Other cards get them from the scanned BARs, the control port two bytes in. The card's interrupt is set, and an ATP850UF is serialized. |
| ControllerSetup.VisitOffboard | linux/src/drivers/block/triton.c:946-991 | A non-HPT34x HPT343 stops the loop at slots 0 and 1. Otherwise the slot is claimed, with the chipset tag and the base of its channel, exactly when DMA is on and its eight ports are free after the extra regions. The step count grows exactly then. |
| ControllerSetup.Visit | linux/src/drivers/block/triton.c:804-991 | A slot someone already has is passed over, unchanged and uncounted. Any other slot counts one pass and changes alone. |
| ControllerSetup.ClaimFromFacts | linux/src/drivers/block/triton.c:762-992 | Apart from VIA's timing writes to bytes 0x41 and 0x46, which are not modelled, the loop never writes configuration space. It never touches a slot before the current one or one already taken. A slot whose DMA base changed got `bmiba` (`+ 8` for a secondary). At most as many slots change as passes remain. |
| ControllerSetup.ClaimFromKeeps | linux/src/drivers/block/triton.c:762-992 | The per-slot part of the above, proved by induction over the loop. |
| ControllerSetup.ClaimFromCount | linux/src/drivers/block/triton.c:762-773 | The two-slot cap: no more slots change than passes remain. |
| ControllerSetup.SetupBase | linux/src/drivers/block/triton.c:659-686 | The base the setup settles on, when DMA is enabled, is a non-zero masked port base. |
| ControllerSetup.InitTritonClaims | linux/src/drivers/block/triton.c:475-996 | For the whole setup: the table keeps its length, at most two slots change, and taken slots are untouched. A slot whose DMA base changed got the setup's base, plus 8 for a secondary channel. |
| RBTree.Paint | kern/rbtree.c:92-115 | Recolouring keeps the node, its children and the in-order sequence; a NIL slot stays NIL. |
| RBTree.Rotate | kern/rbtree.c:120-145 | Rotation keeps the in-order sequence. The child opposite the direction takes the node's place with its own colour, and the node becomes that child's child on the rotation side, keeping its colour. |
| RBTree.RotateInverse | kern/rbtree.c:120-145 | Rotating back the other way restores the subtree exactly, colours included. |
| RBTree.RotateAt | kern/rbtree.c:120-145 | The rotated subtree is written back into the same slot of the same parent, or becomes the root. |
| RBTree.RotateAtPreservesOrder | kern/rbtree.c:120-145 | Rotating anywhere in a tree keeps the in-order sequence. The former child sits where the node was, and the node sits one level below it. |
| RBInsert.FixLeft | kern/rbtree.c:180-211 | One repair round at a grandparent (colour flip, or one or two rotations) keeps the in-order sequence. |
| RBInsert.FixRight | kern/rbtree.c:180-211 | The mirror case keeps the in-order sequence. |
| RBInsert.FixLeftSound | kern/rbtree.c:180-211 | Each repair case keeps the black height. It leaves at most one red-red pair, at the root, and none under a black grandparent. |
| RBInsert.FixRightSound | kern/rbtree.c:180-211 | The same for the mirror case. |
| RBInsert.Attach | kern/rbtree.c:156-163 | Linking the new node into the NIL slot of gap k puts it at position k of the in-order sequence, keeps every other node in order, and leaves the root's identity and colour alone. |
| RBInsert.Ins | kern/rbtree.c:156-212 | Attaching and repairing puts the node into the in-order sequence at the chosen gap, and changes nothing else in it. |
| RBInsert.InsSound | kern/rbtree.c:165-212 | The repair keeps the black height and leaves at most one red-red pair, at the root. |
| RBInsert.Insert | kern/rbtree.c:147-215 | The in-order sequence gains exactly the new node, at the position of the slot it was linked into. |
| RBInsert.NoViolationNoRepair | kern/rbtree.c:156-172 | When the attached red node causes no red-red pair, rebalancing leaves the tree exactly as attached. |
| RBInsert.InsertKeepsRedBlack | kern/rbtree.c:165-214 | After insert rebalancing the root is black, no red node has a red child, and all paths carry the same number of black nodes. |
| RBInsert.InsertKeepsDistinct | kern/rbtree.c:156-163 | A node not yet in the tree is linked once: the identities stay distinct. |
| RBRemove.Absorb | kern/rbtree.c:294-297 | A short subtree with a red root is repaired by painting it black; the in-order sequence and the invariants are kept. |
| RBRemove.FixShortLeftBlackBrother | kern/rbtree.c:318-351 | A repair round with a black brother keeps the in-order sequence. |
| RBRemove.FixShortRightBlackBrother | kern/rbtree.c:318-351 | The mirror case keeps the in-order sequence. |
| RBRemove.FixShortLeft | kern/rbtree.c:305-351 | A full repair round, including the red-brother rotation, keeps the in-order sequence. |
| RBRemove.FixShortRight | kern/rbtree.c:305-351 | The mirror case keeps the in-order sequence. |
| RBRemove.FixShortLeftBlackBrotherSound | kern/rbtree.c:318-351 | With a black brother, the round either restores the lost black (rotations) or passes the shortage up with a black root (recolour). |
| RBRemove.FixShortRightBlackBrotherSound | kern/rbtree.c:318-351 | The same for the mirror case. |
| RBRemove.FixShortLeftSound | kern/rbtree.c:302-351 | A red brother is rotated into a black one first. The round then restores the invariants or passes the shortage up by one. |
| RBRemove.FixShortRightSound | kern/rbtree.c:302-351 | The same for the mirror case. |
| RBRemove.RebuildLeft | kern/rbtree.c:293-352 | Rebuilding a node above a shortened left subtree keeps the in-order sequence and the repair invariant. |
| RBRemove.RebuildRight | kern/rbtree.c:293-352 | The same for a shortened right subtree. |
| RBRemove.RemoveMin | kern/rbtree.c:233-265 | The left-most node (the successor) is taken out. What is left keeps the other nodes in order and is repaired, or reports itself short with a black root. |
| RBRemove.RemoveRoot | kern/rbtree.c:222-287 | Unlinking a subtree's root leaves the left nodes followed by the right nodes, with the invariants restored up to one reported black. |
| RBRemove.Del | kern/rbtree.c:217-355 | Removing at a position drops exactly that element of the in-order sequence and repairs on the way up. |
| RBRemove.Remove | kern/rbtree.c:217-355 | Exactly the given node leaves the in-order sequence, the rest keep their order, and the tree is empty or red-black with a black root. |
| RBRemove.SuccessorTakesPlace | kern/rbtree.c:233-265 | In the two-children case, provided unlinking the successor from the right subtree leaves no black shortage (so no rebalancing follows), the in-order successor ends up in the node's place with its colour and its left subtree. When a shortage is left the repair may rotate at that place, and the lemma says nothing about that case. |
| RBRemove.RemoveDropsExactlyThatNode | kern/rbtree.c:217-287 | With distinct identities the removed node is gone, every other node is still present, and none is repeated. |
| RBRemove.InsertThenRemove | kern/rbtree.c:147-355 | Removing the node just inserted at a position gives back the original in-order sequence. |
| RBWalk.Extreme | kern/rbtree.c:373-385 | Following one child index from a subtree's root to the end reaches the first (left) or last (right) node in order. |
| RBWalk.FirstLast | kern/rbtree.c:373-385 | The loop returns the first or last node in order, and NULL for an empty tree. |
| RBWalk.WalkFrom | kern/rbtree.c:387-423 | Descending with the climb's stopping ancestor gives the in-order neighbour when there is one, and that ancestor otherwise. |
| RBWalk.Walk | kern/rbtree.c:387-423 | `rbtree_walk` gives the in-order successor (right) or predecessor (left), NULL past the end or for a NULL node. |
| RBWalk.Nearest | kern/rbtree.c:357-371 | `rbtree_nearest` gives the first node past the slot's gap in the requested direction, and NULL for a NULL parent. |
| RBWalk.NearestOfSlot | kern/rbtree.c:357-371 | For every gap and both directions, the slot a descent reaches leads to the first node past that gap. |
| RBWalk.WalkBack | kern/rbtree.c:387-423 | Walking one way and then back returns to the starting node. |
| RBPostwalk.FindDeepest | kern/rbtree.c:428-445 | Going left when possible, else right, reaches a childless node: the first node of the subtree in post-order. |
| RBPostwalk.PostwalkDeepest | kern/rbtree.c:447-457 | NULL exactly for an empty tree; otherwise the first node in post-order. |
| RBPostwalk.PostIndex | kern/rbtree.c:428-483 | The position in post-order of the node a path reaches holds that node's identity. |
| RBPostwalk.DeepestIsFirst | kern/rbtree.c:428-445 | The node rbtree_find_deepest reaches sits at position 0 of the post-order sequence. |
| RBPostwalk.Unlink | kern/rbtree.c:459-483 | For any childless node, unlinking removes exactly that node from the post-order sequence and keeps the others in order. It returns NULL exactly when the node was the root, which is also when it was last in post-order. Otherwise it returns the node that followed it in post-order, at the same position of the remaining tree. |
| RBPostwalk.PostwalkUnlink | kern/rbtree.c:459-483 | The same for the call as made: NULL in gives NULL out with the tree untouched. |
| RBPostwalk.UnlinkDeepestIsNextInPostOrder | kern/rbtree.c:428-483 | Unlinking the deepest node takes the first node off the post-order sequence. The node returned is the next in post-order, and NULL comes back exactly after the last node. |
| RBPostwalk.PostWalk | kern/rbtree.c:447-483 | The caller's deepest/unlink loop hands out every node exactly once, in post-order. |
| RBPostwalk.VisitDeepest | kern/rbtree.c:428-483 | One round of the caller's loop hands out the first node in post-order. What is left is the rest of the post-order sequence, and the node returned is the deepest node of what is left, or NULL exactly after the last node. |

## Left out

- Port I/O (`inb`, `outb`, `outl`) and the PCI BIOS calls. Configuration space is a byte snapshot. The outcome of a checked access (success or failure), of `inb` on the default bus-master port, and of the M1533 bridge reads are inputs in `ControllerSetup.Env`.
- `check_region`/`request_region` are a set of busy port numbers. `__get_free_pages` is answered call by call from the input sequence `Env.pages` (0 for failure; a call past its end fails), and the machine counts the calls made.
- The outl of the PRD table address in init_triton_dma, and the ALi simplex-bit `outb` in the claim loop, are not modelled: they only write device registers.
- setup_aladdin (triton.c:406-446) and set_via_timings (triton.c:386-404) are reduced to their success flags, `Env.bridgeset` and `Env.viaTimingsOk`. Their register writes and the ALi bridge search loop are not modelled; the bridge bytes are inputs.
- ControllerSetup.VisitOnboard: on VIA, set_via_timings ORs 0xc0/0xa0 (primary) or 0x30/0x50 (secondary) into configuration bytes 0x41 and 0x46 (triton.c:394, 400). The model leaves `cfg` unchanged there, so its "configuration space unchanged" clause does not cover those two bytes.
- ControllerSetup.ClaimFromFacts: for the same reason, the claim loop's "configuration space unchanged" clause holds only in a model without VIA's two timing writes.
- `save_flags`/`cli`/`restore_flags` are left out: they guard against interrupts, which this model has none of.
- linux/dev/include/linux/locks.h is not part of this model: it is blocking and wake-up logic.
- ide.h, pci.h, hdreg.h, rbtree.h and rbtree_i.h are not part of this model. Vendor and device ids are enumerations; `MAX_HWIFS` is the length of an arbitrary interface table.
- All `printk` output, `print_triton_drive_flags` and the `DISPLAY_*_TIMINGS` blocks.
- The Promise burst-bit status reads (triton.c:739-744) only feed a printk.
- The `CONFIG_BLK_DEV_OFFBOARD` override of slot ports is left out. `CONFIG_BLK_DEV_IDEATAPI` is taken as enabled: a non-disk returns after the registers are armed, without issuing a command.
- The tape size path of build_dmatable (`CONFIG_BLK_DEV_IDETAPE`) is left out.
- dma_intr's sector-retire loop, `ide_error`, `ide_set_handler`, `OUT_BYTE` and `GET_STAT`/`OK_STAT`. The drive status byte is the input `driveStat` and the `OK_STAT` test on it (a macro of ide.h) is the input `driveOk`. The outcome says whether the request is retired or reported with that status.
- `virt_to_bus` is the identity, and addresses are unbounded naturals: the 32-bit wrap of `addr += bcount` near 4 GiB is not modelled.
- DmaEngine.Prepare: the status byte it returns is the value written (`status | 6`). The write-one-to-clear behaviour of SFF-8038i status bits 1 and 2, and the controller's own status changes between calls, are device behaviour: a later call is given the status the hardware shows as a fresh value.
- The table memory is allocated as an order-1 block (four half-page slices), while the static cursor of init_triton_dma keeps advancing for every further interface. The model records the cursor but not the block's end.
- Interface fields are naturals: the `unsigned short` width of `io_base`, `ctl_port` and the `base` parameter of init_triton_dma is not modelled.
- `bmiba` is not initialised on the paths where the bus-master bit is off. The model takes its value as the input `Env.staleBmiba`, and the HPT34x port offsets and extra regions use it like the C code does.
- RBWalk.Walk: the C code climbs parent pointers, and the model descends from the root instead, remembering the ancestor the climb would stop at. The result is the same, proved against the in-order sequence.
- RBPostwalk.Unlink: after the root is unlinked the C code leaves the tree's root pointer as it was, and the model yields the empty tree. At that point every node has been handed out.
- The red-black colour bit packed into the parent pointer, and the alignment asserts (kern/rbtree.c:56-96), are not modelled: colour and parent are separate in the datatype.
- RBTree nodes are addressed by in-order position or path, not by pointer: the `(parent, index)` slot of an insertion is its in-order gap, and `RBWalk.SlotOf` maps gaps to slots.
