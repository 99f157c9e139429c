# Verified model of the 440BX BIOS

A Dafny model of the parts of a from-scratch PC BIOS that are algorithms over memory, trees and byte streams,
with proofs of what they are for. Hardware is reduced to what the code can see of it: a ROM or a drive is an
oracle that may answer anything, configuration space is a function, a line is a sequence of bytes and timeouts.

Code that changes memory step by step is modelled by methods that do the same to `array`, `seq` and class fields
(the heap with its in-band headers, the LZ4 decoder, the CRC loops, both PCI passes with their bridge table, the
snapshot scan, the byte reader and ELF loader over RAM, the trap handler, the receiver, the ACPI rewriting, the
settings, the planners of disk transfers). Each method is tied by its `ensures` to a specification function, and the
theorems are about those functions. What the functions themselves mean is said once more without them, in the bytes,
addresses, letters and port numbers a user of the firmware sees (the modules `...Meaning`, `AcpiNames`, `XmodemWire`,
`PciRegisters`, and lemmas such as `Crc32.CheckValue`).

| files | subject |
|---|---|
| `Words` | 32-bit words, rounding, little-endian fields |
| `Lz4Format`, `Lz4Decoder`, `Lz4RoundTrip` | LZ4 blocks (LZ4 Block Format Description) and their decoder with shared history |
| `Crc32` | CRC-32 (section 8 of RFC 1952) and which errors it detects |
| `BlobFormat`, `BlobExpand`, `BlobRoundTrip` | expanding a packed payload from a noisy ROM |
| `HeapLayout`, `HeapLinks`, `HeapSplice`, `HeapAllocator`, `HeapRuns` | the shared heap: division of memory, links, stores, methods, whole runs |
| `PciTree`, `PciWindows`, `PciWords`, `PciBus`, `PciRoutes`, `PciAllocator`, `PciMeaning`, `PciRegisters` | bus numbering, the bus range registers meanwhile, the two-pass resource allocator, also in 32-bit arithmetic, and what bridges make of their window registers |
| `PciSnapshot` | the scan that records all PCI functions |
| `ByteReader`, `ElfPlan`, `ElfLoad`, `ElfBoot`, `ElfMeaning` | reading bytes of a partition, loading an ELF kernel with deferred segments, the initrd |
| `MemoryMap` | both E820 maps and their agreement with the loader |
| `Vm86`, `Vm86Trace`, `Vm86Monitor`, `Vm86Meaning` | the virtual-8086 monitor, its stack, nested interrupts, and each instruction told from the bytes at CS:IP |
| `PrdTable`, `ReadPlan` | descriptor tables and chains, splitting of reads |
| `Xmodem`, `XmodemFrames`, `XmodemProtocol`, `XmodemWire` | the receiver, what it makes of damaged frames, and the protocol it takes part in (chapters 7 and 8 of Forsberg's XMODEM/YMODEM Protocol Reference) |
| `AcpiWalk`, `AcpiPatch`, `AcpiNames`, `AcpiTables`, `AcpiDerail`, `AcpiArea`, `AcpiExample` | patching ACPI tables (sections 5.2.6 and 5.2.7 of the ACPI specification) |
| `Nvram`, `Maintenance`, `SettingsCache`, `SettingsMeaning` | settings in RAM, in CMOS and handed from stage to stage |

## Where the code falls short

Some natural properties are false of the code. Each is stated with an input on which it fails and with the exact
condition under which it holds:

- Merging of free blocks: `HeapLayout.FreeKeepsCoalescedIff` (a block released between two free ones loses the
  right-hand merge), with `HeapLayout.LostMergeExample`; `HeapRuns.LostMergeRun` comes to it from a fresh heap.
- PCI measure and assign agree at every window base if and only if no BAR on the bus exceeds the window granularity
  (`PciWindows.PassesAgreeIff`); from a given start everything stays in its window if and only if one inequality per
  bridge holds (`PciWindows.ContainedIff`); `PciWindows.EscapeExample` shows a BAR outside its window.
- PCI memory begins above RAM if and only if RAM is at most 4 GiB less 16 MiB (`PciAllocator.RootAssignmentSound`).
- ACPI: an RSDT that gives up slots sends the second walk into the entries given up. If nothing there passes for a
  table (`AcpiDerail.ResumeTest` says which word decides), the outcome is good if and only if the tables behind the
  RSDT came with valid checksums (`AcpiDerail.StoppedIsSoundIff`); `AcpiExample.SpareSlotsLeaveInvalid` is an image
  that ends invalid. If the walk goes on, `AcpiDerail.SoundIff` is the condition.
- XMODEM: after a damaged header, number or complement the receiver reads the frame byte by byte, and a byte 4 among
  them ends the transfer as complete: exactly when it comes before any 0x18
  (`XmodemFrames.DamagedHeaderEndsTransfer`; start characters among them: `XmodemFrames.StartOutcome`).
- XMODEM: a sender that counts old replies loses a block (`XmodemProtocol.StaleAckLosesBlock`); exactly which old
  replies are harmless: `XmodemProtocol.OldRepliesSafeIff`.
- Deferring segments keeps the runtime intact, whatever memory and disk hold, if and only if initrd and deferred
  copies are placed clear of it (`ElfBoot.RuntimeSurvivesIff`), which is decided by segments, sizes and bounds alone;
  in the configuration of `ElfBoot.InitrdOverRuntime` the runtime is overwritten with initrd.
- With tables to reserve, the loader's memory map also calls usable what the BIOS map reserves: the shadow of the BIOS
  and the top of memory but for the tables (`MemoryMap.MapsDisagreeExactly`).
- A host service that returns its frame unchanged still truncates wide segment registers and EFLAGS
  (`Vm86.IdentityService`).
- USB requests fit the descriptors available exactly for packets of 2 bytes or more (`ReadPlan.RequestsFitChains`).

`docs/blob_format.md` describes version 3 with independent blocks. The code has version 4
(`src/include/blob.h:5-6`) and lets matches reach all earlier output
(`src/shared_service/blob_service.c:364`); the model follows the code.

## Model

| member | source | states |
|---|---|---|
| Lz4RoundTrip.DecodeIsExact | src/shared_service/blob_service.c:328-386 | Whatever the history: the decoder returns a buffer exactly when the source is the serialization of a well-formed list of sequences and final literals whose meaning has the wanted length, and then that buffer is history plus meaning. |
| Lz4RoundTrip.DecodesEveryStream | src/shared_service/blob_service.c:328-386 | Every well-formed stream decodes to its meaning (overlapping matches as periodic extension of what precedes them), and is refused when a match reaches before the buffer or the length is not the wanted one. |
| Lz4RoundTrip.AcceptsOnlyStreams | src/shared_service/blob_service.c:328-386 | Acceptance implies the source is the serialization of some well-formed stream; the stream is constructed. |
| Lz4RoundTrip.LengthReadBack | src/shared_service/blob_service.c:304-326 | A length written as a nibble and 255-terminated extension bytes is read back, whatever follows. |
| Lz4RoundTrip.LengthOnly | src/shared_service/blob_service.c:304-326 | Bytes read as a length are the one way of writing that length. |
| Lz4RoundTrip.SequenceReadBack | src/shared_service/blob_service.c:337-380 | One round on a serialized sequence consumes exactly it and appends its literals and its match. |
| Lz4RoundTrip.EndingReadBack | src/shared_service/blob_service.c:349-358 | Final literals end the stream exactly when they fill the block. |
| Lz4RoundTrip.ExampleBlock | src/shared_service/blob_service.c:328-386 | A block of nine bytes, written out, and the ten bytes it decodes to. |
| Lz4RoundTrip.ExampleLength | src/shared_service/blob_service.c:304-326 | Lengths written out: a nibble below 15 alone, 15 with one more byte, and with bytes of 255 in between. |
| Lz4Decoder.ReadLengthAt | src/shared_service/blob_service.c:304-326 | The cursor loop: succeeds exactly on a complete length, advances past it, stays in the source, and no 32-bit sum overflows for sources up to the stage capacity. |
| Lz4Decoder.CopyLiterals | src/shared_service/blob_service.c:352-354 | Appends the source bytes at the output cursor and changes nothing else. |
| Lz4Decoder.CopyMatch | src/shared_service/blob_service.c:376-379 | The byte-by-byte overlapping copy is the periodic extension of the output, and changes nothing else. |
| Lz4Decoder.DecodeRound | src/shared_service/blob_service.c:337-380 | One token: fails exactly when the specification of the rest fails, else consumes at least one byte and leaves the remaining specification unchanged. |
| Lz4Decoder.DecodeChunk | src/shared_service/blob_service.c:328-386 | In place on arrays: returns 0 exactly when the stream specification succeeds, and then the buffer up to the end of the block is its result; nothing outside the block range is written, on failure either. |
| HeapAllocator.Heap.Init | src/shared_service/service_table.h:291-314 | Aligns the bounds inwards and leaves one free block over them, or an empty list when there is no room, also when the aligned bounds cross; the heap invariant holds. |
| HeapAllocator.Heap.Alloc | src/shared_service/blob_service.c:117-169 | On headers in memory: returns the first free block that is large enough (0 only if none is), splits it when 32 bytes remain, the header of the block handed out has no link, and no byte of any block in use, nor outside the heap, changes. |
| HeapAllocator.Heap.Take | src/shared_service/blob_service.c:137-163 | Unlinks or splits the block at hand with the list kept sorted and linked. |
| HeapAllocator.Heap.CoalesceNext | src/shared_service/blob_service.c:105-115 | Joins a block with its list successor exactly when they touch. |
| HeapAllocator.Heap.Free | src/shared_service/blob_service.c:171-206 | Hooks the block in at its address and merges as the code does; the division of memory becomes the specified one and no byte of any other block in use, nor outside the heap, changes. |
| HeapAllocator.Heap.Realloc | src/shared_service/blob_service.c:208-238 | Null, zero, shrinking and growing requests: a block with room for the size behind its header stays as it is; otherwise every byte of the old payload that the new size reaches is at its place in the new one, and the block handed out has room for the size; failure changes nothing, other blocks keep every byte, and so does memory outside the heap. |
| HeapSplice.FreeResult | src/shared_service/blob_service.c:193-205 | The stores of a release, with either, both or no neighbour free, produce exactly the headers and links of the new division. |
| HeapSplice.Moved | src/shared_service/blob_service.c:230-237 | Copying into the new block and releasing the old one carries the payload over. |
| HeapLayout.AllocTiles | src/shared_service/blob_service.c:133-168 | Allocation keeps the blocks tiling the heap, aligned and at least 32 bytes. |
| HeapLayout.AllocAddsOne | src/shared_service/blob_service.c:117-169 | Allocation adds exactly one block in use, at least as large as asked, out of a free one; nothing changes when none fits. |
| HeapLayout.AllocServesIff | src/shared_service/blob_service.c:117-169 | A request is served if and only if some free block has 16 bytes more than asked, by the first such block, which is cut to the smallest multiple of 16 (at least 32) exactly when that leaves at least 32 bytes. |
| HeapLayout.FreeRemovesOne | src/shared_service/blob_service.c:171-206 | Release removes exactly the released block from those in use. |
| HeapLayout.ServedApart | src/shared_service/blob_service.c:117-169 | The block handed out overlaps no block in use. |
| HeapLayout.ResizeReplacesOne | src/shared_service/blob_service.c:208-238 | Growing replaces exactly one block in use by a large enough one. |
| HeapLayout.AllocKeepsCoalesced | src/shared_service/blob_service.c:117-169 | Allocation never creates two neighbouring free blocks. |
| HeapLayout.FreeKeepsCoalescedIff | src/shared_service/blob_service.c:193-205 | Release keeps free neighbours merged if and only if not both neighbours of the released block are free: the code absorbs the block into its predecessor first and then tries to extend the absorbed header. |
| HeapLayout.LostMergeExample | src/shared_service/blob_service.c:198-205 | Three blocks of 32 bytes with the middle one in use: releasing it leaves two free neighbours. |
| HeapLayout.AllocThenFree | src/shared_service/blob_service.c:117-206 | With free neighbours merged, releasing what was just allocated restores the heap. |
| HeapRuns.RunKeepsHeap | src/shared_service/blob_service.c:117-238 | After any run of requests on live pointers free and used blocks tile the heap and their bytes add up to it. |
| HeapRuns.RunKeepsBlock | src/shared_service/blob_service.c:117-238 | A block in use keeps its place and size over any run that does not name it. |
| HeapRuns.LostMergeRun | src/shared_service/blob_service.c:117-206 | A run of four requests that loses a merge: of 96 fresh bytes two blocks are handed out and released, the lower first; nothing is in use any more, but the memory lies in two pieces, and a request that the fresh heap serves fails. |
| HeapRuns.ServeAll | src/shared_service/blob_service.c:117-238 | Any run of requests handed to the services on one heap: its blocks become those of the specified run, a block that no request names keeps its place, its size and every byte, and memory outside the heap is untouched. |
| Crc32.UpdateCrc | src/shared_service/blob_service.c:240-250 | The eight masked shifts of one byte are eight polynomial steps. |
| Crc32.ComputeChecksum | src/shared_service/blob_service.c:252-260 | The loop computes the specified checksum of the buffer. |
| Crc32.StepIsLinear | src/shared_service/blob_service.c:247 | A step of the register distributes over exclusive or. |
| Crc32.StepIsBijective | src/shared_service/blob_service.c:247 | A step is a bijection on 32-bit states; the inverse is given. |
| Crc32.WordThenSteps | src/shared_service/blob_service.c:240-250 | Steps after one exclusive or of a word equal feeding its bits one at a time; with 32 steps, four bytes at once. |
| Crc32.UpdatesFeedBits | src/shared_service/blob_service.c:252-260 | Byte updates equal feeding all bits of the message. |
| Crc32.FeedsDetectBurst | src/shared_service/blob_service.c:240-250 | Equal registers before, and messages that differ only within 32 consecutive bits, give equal registers only for equal messages. |
| Crc32.ChecksumDetectsBurst | src/shared_service/blob_service.c:252-260 | Two messages differing only within 32 consecutive bits (so within four bytes), anywhere, have different checksums. |
| Crc32.ChecksumDetectsFourBytes | src/shared_service/blob_service.c:252-260 | On bytes: two different messages of the same length that agree outside four consecutive bytes have different checksums. |
| Crc32.CheckValue | src/shared_service/blob_service.c:240-260 | The checksum of the nine characters 123456789 is 0xcbf43926. |
| BlobExpand.MostFrequent | src/shared_service/blob_service.c:276-291 | Picks a sample that no other outnumbers. |
| BlobExpand.MajorityWins | src/shared_service/blob_service.c:276-291 | A value that more than half of the samples agree on is picked. |
| BlobExpand.ReadStable | src/shared_service/blob_service.c:267-292 | Eleven reads of a ROM that may answer differently each time: a value read six times or more is the result, and so is the byte itself when the cell is steady. |
| BlobExpand.StageBlock | src/shared_service/blob_service.c:452-474 | A block is given up only after 64 attempts, the first with one read for each byte and the others with eleven; acceptance implies the staged bytes have the checksum, and a clean ROM is accepted with its own bytes. |
| BlobExpand.CheckHeader | src/shared_service/blob_service.c:402-427 | Returns 0 exactly for acceptable headers, and the error code of the first test that fails. |
| BlobFormat.HeaderMeans | src/shared_service/blob_service.c:402-427 | Which headers are acceptable, in numbers: magic, version 4, flags 2 or 6, blocks of 4096 bytes and as many as the size takes, 52 bytes of header and 20 for each block before the data. |
| BlobFormat.BlockMeans | src/shared_service/blob_service.c:438-449 | Which descriptor block i may have, in numbers. |
| BlobExpand.ExpandBlock | src/shared_service/blob_service.c:432-486 | On success the descriptor was in range, the accepted bytes have its checksum, and the buffer changed exactly by decoding them in place; -4 exactly for a descriptor out of range, -5 only for staging, -6 only for accepted bytes that do not decode. |
| BlobExpand.CheckContiguous | src/shared_service/blob_service.c:496-511 | Returns 0 exactly when the compressed blocks follow each other from 0 and add up to the header size (in 32-bit arithmetic). |
| BlobExpand.Expand | src/shared_service/blob_service.c:388-525 | Whatever the ROM returned, success implies accepted chunks that pass every test and unpack to the buffer; an intact payload in a clean ROM always expands; no byte at or beyond the stated size is written; each error code names a test that failed. |
| BlobRoundTrip.PackedPayloadExpands | src/shared_service/blob_service.c:388-525 | A payload packed into 4096-byte blocks that may refer to all earlier output passes every test and comes back, whatever the buffer held. |
| BlobRoundTrip.PlaceWritesOwnRange | src/shared_service/blob_service.c:478-480 | Decoding a block rewrites no earlier output. |
| BlobRoundTrip.UnpackIgnoresBuffer | src/shared_service/blob_service.c:432-493 | When all blocks but the last are full the output depends on the staged bytes alone. |
| PciTree.NumberNests | src/lib/pci/bios_pci_bus.c:311-406 | Depth-first numbering: the buses found form one interval, each bridge range holds exactly the buses behind it, children nest strictly inside parents and siblings are disjoint; never more than 16 numbers. |
| PciRoutes.OneClaimant | src/lib/pci/bios_pci_bus.c:345-373 | From the state of the registers that MeasureBus keeps: on every level exactly one bridge claims the bus being scanned, in spite of the provisional subordinate number 255, and on the bus itself none does. |
| PciRoutes.Opened | src/lib/pci/bios_pci_bus.c:351-364 | Recording a bridge and writing its secondary number and 255 lets the bus behind it be scanned: it is reached by one bridge per level, and the table agrees with the registers. |
| PciRoutes.Closed | src/lib/pci/bios_pci_bus.c:364-367 | Writing the final subordinate number restores the routes of the bus above, and no register outside the subtree has changed. |
| PciRoutes.FinalRoutes | src/lib/pci/bios_pci_bus.c:345-373 | From any registers that agree with the finished table: every bus that has a number is reached from the root, and on each level on the way exactly one bridge passes its cycles on. |
| PciWindows.BusShift | src/lib/pci/bios_pci_bus.c:191-222 | From an aligned base the second walk ends exactly the measured amount further on. |
| PciWindows.PlacementHolds | src/lib/pci/bios_pci_bus.c:408-595 | With aligned windows all BARs on a bus and below are aligned to their size, pairwise disjoint, between the start and end of the cursor, and inside the windows of all bridges above. |
| PciWindows.FittingPlacement | src/lib/pci/bios_pci_bus.c:408-595 | So they are whenever, for every bridge, the cursor on the bus behind it ends within its window, aligned or not. |
| PciWindows.ContainedIff | src/lib/pci/bios_pci_bus.c:499-595 | From a given start every BAR and every nested window lies in the window of the bridge above if and only if each of those cursors ends within its window. |
| PciWindows.OrderedDisjoint | src/lib/pci/bios_pci_bus.c:408-497 | Ordered ranges are pairwise disjoint and inside their bounds. |
| PciWindows.SmallIsAligned | src/lib/pci/bios_pci_bus.c:499-595 | Windows are aligned wherever the walk starts if no BAR below a bridge is larger than the granularity of windows. |
| PciWindows.PassesAgreeIff | src/lib/pci/bios_pci_bus.c:191-222 | The second pass takes exactly the measured amount from every aligned window base if and only if no BAR directly on the bus is larger than the granularity (1 MiB, or 4 KiB for ports). |
| PciWindows.EscapeExample | src/lib/pci/bios_pci_bus.c:499-595 | A 4 KiB memory BAR on the root before a bridge to a 16 MiB BAR: the large BAR lands beyond the end of its window. |
| PciWords.WordWalk | src/lib/pci/bios_pci_bus.c:53-73 | Walked with 32-bit cursors, which wrap, a bus and everything below it ends where the unbounded walk ends, modulo 4 GiB, whenever that is at or below 4 GiB; so window sizes and programmed windows are those of the model. |
| PciWords.AlignWordIs | src/lib/pci/bios_pci_bus.c:53-56 | 32-bit rounding is rounding modulo 4 GiB, for every alignment that divides it. |
| PciBus.TableIsEnough | src/lib/pci/bios_pci_bus.c:224-235 | The table the first pass leaves finds every numbered bridge under its own address and none that was skipped. |
| PciBus.TableKnows | src/lib/pci/bios_pci_bus.c:224-235 | Why lookups by bus, device and function never confuse two bridges of the table. |
| PciAllocator.MeasureBars | src/lib/pci/bios_pci_bus.c:191-222 | The loop over BARs adds up one cursor per address space. |
| PciAllocator.Allocator.MeasureBus | src/lib/pci/bios_pci_bus.c:311-406 | First pass over a bus: bridge table, next bus number, requirements and VGA flag are those of the numbered tree; the bus range registers it writes agree with the table and route cycles to the bus being scanned all the while, and no register of a bridge outside the subtree changes. |
| PciAllocator.Allocator.MeasureFunction | src/lib/pci/bios_pci_bus.c:329-402 | One function: end devices, other headers, bridges, and bridges skipped for want of a slot or a number. |
| PciAllocator.Allocator.MeasureBridge | src/lib/pci/bios_pci_bus.c:345-389 | A bridge with a slot and a number: its entry in the table, its two register writes around the scan of the bus behind it, and the window sizes it asks for, as for the numbered subtree; the bus it is on is reached again afterwards. |
| PciAllocator.Allocator.AssignBars | src/lib/pci/bios_pci_bus.c:408-497 | Ranges go to BARs in order, each aligned, per address space. |
| PciAllocator.Allocator.FindBridge | src/lib/pci/bios_pci_bus.c:224-235 | Returns the first entry with the address, or none. |
| PciAllocator.Allocator.AssignBus | src/lib/pci/bios_pci_bus.c:499-595 | Second pass over a bus: the ranges placed, the windows programmed and the cursor afterwards are those of the numbered tree. |
| PciAllocator.Allocator.Enumerate | src/lib/pci/bios_pci_bus.c:597-645 | Both passes from the root: table, placed ranges, windows and the limits reported at boot; bus range registers agree with the table, and with them every numbered bus is reached by one bridge per level, during the second pass and afterwards. |
| PciAllocator.RootAssignmentSound | src/lib/pci/bios_pci_bus.c:597-645 | With small BARs below bridges and root memory BARs up to 16 MiB: in each address space all BARs are aligned, disjoint, in bounds and inside all windows above them, and memory ends at or below the prefetchable base. It starts above RAM if and only if the rounding of the RAM size does not wrap. |
| PciAllocator.RootBasesAre | src/lib/pci/bios_pci_bus.c:612-621 | Where the root's windows begin: port 0x2000, the first 16 MiB boundary above RAM but not below 64 MiB, and for prefetchable memory the first one behind all other memory. |
| PciMeaning.EveryBarPlaced | src/lib/pci/bios_pci_bus.c:408-595 | The ranges handed out are, one for one and in order, those the BARs of the address space ask for, on the bus and behind every numbered bridge. |
| PciMeaning.WindowsAre | src/lib/pci/bios_pci_bus.c:544-592 | Windows are programmed for the numbered bridges, one for each; if cursors fit, the window of a bridge holds exactly the BARs behind it, has no size exactly if there are none, and forwards VGA exactly if a display controller is behind it. |
| PciMeaning.VgaIffDisplay | src/lib/pci/bios_pci_bus.c:311-406 | A bus wants VGA if and only if a display controller is on it or behind its bridges, at any depth. |
| PciMeaning.SkippedOnlyWhenFull | src/lib/pci/bios_pci_bus.c:350-358 | A bridge goes without a bus number only when all 15 numbers behind the root have been given out. |
| PciRegisters.IoWindowExactly | src/lib/pci/bios_pci_bus.c:248-269 | With the registers written for a port window the bridge passes on exactly its ports, and none for size 0. |
| PciRegisters.MemWindowExactly | src/lib/pci/bios_pci_bus.c:271-293 | With those written for a memory window it passes on exactly its addresses. |
| PciRegisters.WindowsProgrammed | src/lib/pci/bios_pci_bus.c:568-572 | Every window of the second pass below 4 GiB lies on blocks the registers can express, so its bridge passes on that window and nothing else. |
| PciSnapshot.Snapshot.ScanBus | src/stage3/pci_snapshot.c:44-87 | Terminates on any configuration space, because every nested scan has fewer unvisited buses; entries stay distinct with earlier parents, no bus is scanned twice, and while there is room nothing is missed. |
| PciSnapshot.Snapshot.ScanDevice | src/stage3/pci_snapshot.c:57-85 | The functions of one device, with the early stop when the table is full. |
| PciSnapshot.Snapshot.RecordFunction | src/stage3/pci_snapshot.c:74-83 | Records one function and follows it if it is a bridge with a usable secondary number. |
| PciSnapshot.Snapshot.Build | src/stage3/pci_snapshot.c:89-119 | The whole snapshot: every entry is real, distinct and has an earlier parent leading to its bus; unless the table is full every visited bus is complete and every recorded bridge was followed. |
| PciSnapshot.EntryIs | src/stage3/pci_snapshot.c:16-42 | An entry holds what the function it names answers, and bus numbers only for headers 1 and 0x81. |
| PciSnapshot.ParentBridges | src/stage3/pci_snapshot.c:74-83 | An entry is on bus 0, or its parent is an earlier entry that is a bridge to its bus, with secondary at least 1 and at most subordinate. |
| PciSnapshot.BridgesAreFollowed | src/stage3/pci_snapshot.c:79-83 | In a complete snapshot the bus of every such bridge, also with secondary equal to subordinate, has been scanned. |
| PciSnapshot.FunctionsAreThere | src/stage3/pci_snapshot.c:57-85 | Of a scanned bus every present function 0 is recorded, and of devices with several functions all eight that are present. |
| PciSnapshot.ReachableIsComplete | src/stage3/pci_snapshot.c:44-87 | A snapshot with room to spare has every function of every bus reachable from bus 0. |
| PciSnapshot.EntryHasRoute | src/stage3/pci_snapshot.c:16-42 | From every entry the parents lead back to bus 0. |
| ByteReader.ContainsExactly | src/app/linux_loader/linux_loader.c:628-643 | The 32-bit range test accepts exactly the byte ranges inside the partition and below 4 GiB. |
| ByteReader.Machine.ReadBytes | src/app/linux_loader/linux_loader.c:645-697 | Any offset, destination and length: success leaves exactly the bytes of the disk at the destination; only the destination and, for unaligned reads, the bounce sector change; only sectors of the partition are read; a healthy drive always succeeds. |
| ByteReader.Machine.ReadChunk | src/app/linux_loader/linux_loader.c:657-688 | One round: a run of whole sectors read straight into place, or a piece of one through the bounce sector. |
| ByteReader.Machine.Copy | src/app/linux_loader/linux_loader.c:297-303 | The forward byte copy moves the bytes when the ranges are apart or the destination is lower. |
| ElfPlan.OverlapsExactly | src/app/linux_loader/linux_loader.c:305-319 | The overlap test finds a shared address if there is one, and also fires for a range that reaches or passes 4 GiB; otherwise it does not fire. |
| ElfPlan.CheckLoads | src/app/linux_loader/linux_loader.c:1166-1197 | First pass: accepts exactly the headers whose loadable segments resolve, fit usable memory and the partition, with at most eight deferred; the resolved headers, high-water mark and 32-bit total are as specified. |
| ElfPlan.DeferEndShifts | src/app/linux_loader/linux_loader.c:1189-1258 | Pass two lays the deferred copies out exactly as pass one counted them. |
| ElfPlan.TempsApart | src/app/linux_loader/linux_loader.c:1238-1258 | Deferred copies follow each other without overlap from the start of the buffer. |
| ElfPlan.DisjointTotalFits | src/app/linux_loader/linux_loader.c:1189-1196 | The 32-bit total of deferred sizes cannot wrap when segments do not overlap, whatever their sizes. |
| ElfLoad.LoadDirect | src/app/linux_loader/linux_loader.c:1274-1286 | A segment read into place and cleared behind its file bytes. |
| ElfLoad.ApplyOne | src/app/linux_loader/linux_loader.c:327-339 | One deferred segment put in place: its file bytes, then zeros. |
| ElfLoad.LoadSegments | src/app/linux_loader/linux_loader.c:1238-1287 | Second pass: direct segments are loaded, deferred ones wait intact in the buffer, nothing else changes (deferred destinations stay as they were), and the table lists the deferred headers in order. |
| ElfLoad.BufferMissesSegments | src/app/linux_loader/linux_loader.c:1218-1236 | The buffer overlaps no segment, including when there is nothing to copy. |
| ElfBoot.ApplyDeferred | src/app/linux_loader/linux_loader.c:327-339 | After the last moves every segment is in memory, if segments do not overlap. |
| ElfBoot.InitrdPlaceExactly | src/app/linux_loader/linux_loader.c:740-757 | A place for the initrd is found exactly when some page boundary above the kernel leaves room for it. |
| ElfBoot.LoadInitrd | src/app/linux_loader/linux_loader.c:740-765 | On success the partition is at that place; nothing but that place and the bounce sector changes, on failure either. |
| ElfBoot.DeferBaseExactly | src/app/linux_loader/linux_loader.c:1218-1230 | The loader gives up for want of a buffer exactly when no page boundary above the kernel leaves room for the copies. |
| ElfBoot.BufferFits | src/app/linux_loader/linux_loader.c:1218-1239 | The buffer chosen lies above all segments and ends at or below the initrd. |
| ElfBoot.InitrdSurvives | src/app/linux_loader/linux_loader.c:1238-1298 | Loading and the final moves leave the initrd as it was read. |
| ElfBoot.FindEntry | src/app/linux_loader/linux_loader.c:699-721 | The entry point is translated through the first segment that holds its virtual address, else taken as it is; it is refused exactly when neither lies in usable memory. |
| ElfBoot.DisjointIsEnough | src/app/linux_loader/linux_loader.c:1189-1196 | Non-overlapping segments meet what Boot asks of the 32-bit total. |
| ElfBoot.BootPlanned | src/app/linux_loader/linux_loader.c:1205-1298 | After the first pass: initrd and buffer are at the places the formulas give, second pass, final moves, and what memory holds just before the moves, the runtime byte for byte. |
| ElfBoot.RuntimeKnown | src/app/linux_loader/linux_loader.c:1205-1287 | Each byte of the runtime just before the final moves: the byte of initrd or deferred segment that is placed there, or the one it was. |
| ElfBoot.RuntimeSurvivesIff | src/app/linux_loader/linux_loader.c:1205-1287 | For every content of memory and disk the runtime is as it was until the final moves, if and only if the place computed for the initrd and the homes computed for the deferred copies are clear of it. |
| ElfBoot.CopiesClearExactly | src/app/linux_loader/linux_loader.c:1218-1258 | For a runtime that does not wrap at 4 GiB all copies are clear of it exactly when the whole buffer is. |
| ElfBoot.InitrdOverRuntime | src/app/linux_loader/linux_loader.c:740-757 | An initrd of 2560 sectors with usable memory up to 3 MiB: every byte of a runtime at 2 MiB is a byte of the initrd partition before the final moves. |
| ElfBoot.Boot | src/app/linux_loader/linux_loader.c:1166-1300 | Success implies: each non-overlapping segment is its file bytes then zeros although some were deferred, the initrd is intact, execution begins at the address that the first segment holding the entry point gives it, else at the entry point itself, and that is in usable memory, memory below the high-water mark outside segments (and the bounce sector) is untouched; initrd (unless unreadable) and buffer are where the formulas put them, and until the final moves the runtime holds what `RuntimeSurvivesIff` speaks of; healthy drives succeed exactly when a stated condition on headers and sizes holds. |
| ElfMeaning.LoadsAtResolved | src/app/linux_loader/linux_loader.c:723-738 | Which address a segment resolves to: a physical address of 1 MiB or more wins; else the virtual one, less 3 GiB from 3 GiB on, which has to be 1 MiB or more. |
| ElfMeaning.UsualKernel | src/app/linux_loader/linux_loader.c:723-738 | A kernel linked at 3 GiB and 1 MiB without physical addresses is loaded at 1 MiB. |
| ElfMeaning.AcceptedIff | src/app/linux_loader/linux_loader.c:1166-1186 | Which headers are acceptable, in addresses and sizes: usable memory for the segment, file bytes no longer than it and inside the partition. |
| ElfMeaning.SegmentBytes | src/app/linux_loader/linux_loader.c:1238-1298 | Byte b of a loaded segment is byte b of its file part on the disk, and 0 behind that. |
| ElfMeaning.DisjointIff | src/app/linux_loader/linux_loader.c:305-319 | Segments that are not empty count as not overlapping if and only if no address is in two of them. |
| ElfMeaning.DefersIff | src/app/linux_loader/linux_loader.c:1187-1196 | A segment waits if and only if it shares an address with the runtime, or one of the two reaches 4 GiB. |
| ElfMeaning.InitrdIsHighest | src/app/linux_loader/linux_loader.c:740-757 | The initrd is placed on the highest page boundary that leaves room for its sectors. |
| ElfMeaning.BufferIsHighest | src/app/linux_loader/linux_loader.c:1218-1230 | So is the buffer, below the initrd. |
| ElfMeaning.CopiesAreDense | src/app/linux_loader/linux_loader.c:1238-1258 | Each deferred copy begins at the first multiple of 16 behind the one before it. |
| MemoryMap.BiosGetEntry | src/lib/x86/bios_memory.c:34-73 | Answers exactly the indices below the count, with the entries of the map. |
| MemoryMap.BiosEntryCount | src/lib/x86/bios_memory.c:15-23 | The count is the number of entries of the map. |
| MemoryMap.LinuxEntryCount | src/app/linux_loader/linux_loader.c:165-185 | The count is the number of entries of the loader's map. |
| MemoryMap.LinuxGetEntry | src/app/linux_loader/linux_loader.c:187-271 | Answers exactly the indices below the count; the running index decrements select the right entry. |
| MemoryMap.BiosMapTiles | src/lib/x86/bios_memory.c:34-73 | Above 1 MiB the entries are sorted, disjoint and cover exactly the installed memory. |
| MemoryMap.LinuxMapTiles | src/app/linux_loader/linux_loader.c:187-271 | So do the loader's, wherever the ACPI tables are said to be. |
| MemoryMap.TopReservedExactly | src/lib/x86/bios_memory.h:20-28 | The top of memory that is set apart: nothing up to 1 MiB, all above 1 MiB up to 2 MiB, and from there on 1 MiB and the rest of a page. |
| MemoryMap.BiosUsableExactly | src/lib/x86/bios_memory.c:34-73 | An address is in a usable entry of the BIOS if and only if it is below 0x9fc00, or from 1 MiB up to the top that is set apart. |
| MemoryMap.AcpiRangeExactly | src/app/linux_loader/linux_loader.c:140-162 | There are tables to reserve if and only if they begin at 1 MiB or above, inside memory, and have a size; the range is theirs, cut off at the end of memory. |
| MemoryMap.LinuxUsableExactly | src/app/linux_loader/linux_loader.c:187-271 | An address is in a usable entry of the loader if and only if it is below 0x9fc00 or from 0xe0000 up to the end of memory and not in the tables; without tables to reserve, if the BIOS says so. |
| MemoryMap.MapsDisagreeExactly | src/app/linux_loader/linux_loader.c:187-271 | On which addresses the two maps disagree. |
| MemoryMap.TablesPlaced | src/lib/acpi/acpi_tables.c:158-178 | Where the firmware puts the tables and how much room it has for them, for every size of memory. |
| MemoryMap.TablesAreReserved | src/lib/acpi/acpi_tables.c:158-178 | The BIOS map calls none of it usable. |
| MemoryMap.LoadableIsUsable | src/lib/acpi/acpi_tables.c:158-178 | Memory the loader may fill is usable in both maps and clear of tables at their usual place. |
| MemoryMap.SegmentsAreUsable | src/app/linux_loader/linux_loader.c:1166-1186 | Every accepted kernel segment lies in a usable entry of both maps and outside the ACPI tables. |
| MemoryMap.InitrdIsUsable | src/app/linux_loader/linux_loader.c:740-757 | So does every initrd. |
| Vm86.TrapTame | src/lib/vm86/vm86.c:370-445 | Whatever the instruction and the host service: EIP stays within 16 bits, VM stays set, the high half of ESP and SS are not touched. |
| Vm86.IdentityService | src/lib/vm86/vm86.c:223-280 | A service that returns its frame unchanged changes nothing but IP, if and only if the data segments are 16-bit and EFLAGS is FLAGS with VM set. |
| Vm86.CliStiMean | src/lib/vm86/vm86.c:395-405 | CLI clears and STI sets the interrupt flag and neither touches another flag. |
| Vm86.GuestIntEnters | src/lib/vm86/vm86.c:282-324 | A guest handler is entered at the address in the vector table, with interrupts off and general registers and other flags as they were. |
| Vm86.PortsMoveLowBytes | src/lib/vm86/vm86.c:326-368 | A port input replaces the low bytes of EAX it has and keeps the others; an output sends the low bytes. |
| Vm86.StoreFill | src/lib/vm86/vm86.c:223-264 | Copying registers to the service frame and back truncates the data segments and EFLAGS and keeps all else. |
| Vm86Meaning.ImmediatePortTrap | src/lib/vm86/vm86.c:326-368 | From the bytes at CS:IP, with any prefixes: E4 to E7 make one access to the port in the second byte, of 1, 2 or (after an odd number of 0x66) 4 bytes, in for E4 and E5; EAX has the value read in its low bytes or is sent; IP is behind both bytes, and nothing else changes. |
| Vm86Meaning.DxPortTrap | src/lib/vm86/vm86.c:326-368 | EC to EF likewise, with the port in DX and one byte. |
| Vm86Meaning.FlagTrap | src/lib/vm86/vm86.c:395-405 | FA clears and FB sets bit 9 of FLAGS; the other bits stay, IP moves by one, and nothing else changes. |
| Vm86Meaning.PushfTrap | src/lib/vm86/vm86.c:406-409 | 9C puts FLAGS on the stack. |
| Vm86Meaning.PopfTrap | src/lib/vm86/vm86.c:410-413 | 9D takes FLAGS from it. |
| Vm86Meaning.IretTrap | src/lib/vm86/vm86.c:414-418 | CF takes IP, CS and FLAGS from it, in this order. |
| Vm86Meaning.GuestIntTrap | src/lib/vm86/vm86.c:282-324 | CD with a handler of the guest: IP behind the INT, CS and FLAGS are on the stack, the handler is entered at the address in the table, bit 9 is clear, and nothing else changes. |
| Vm86Meaning.HostIntTrap | src/lib/vm86/vm86.c:223-280 | CD with a handler in the thunk window: the service sees each register in its own field, and each register afterwards has what the service left there; the guest goes on behind the INT. |
| Vm86Meaning.StopTrap | src/lib/vm86/vm86.c:370-445 | The guest ends with 0 at HLT and INT 0xff and nowhere else, and with -1 exactly at instructions that are not on the list. |
| Vm86Trace.PushRefines | src/lib/vm86/vm86.c:203-208 | A push on a wrapping 16-bit stack in guest memory is a push on a list of words. |
| Vm86Trace.PopRefines | src/lib/vm86/vm86.c:194-201 | A pop yields the head of that list and leaves its tail. |
| Vm86Trace.GuestIntPushes | src/lib/vm86/vm86.c:316-322 | INT leaves return address, CS and FLAGS on the stack in the order IRET takes them. |
| Vm86Trace.IretPops | src/lib/vm86/vm86.c:414-418 | IRET takes three words in order and moves the pointer past them. |
| Vm86Trace.CallReturns | src/lib/vm86/vm86.c:316-418 | IRET after INT restores CS, the address behind the INT, FLAGS, ESP and SS if the pushed words were left alone. |
| Vm86Trace.RunKeepsHeld | src/lib/vm86/vm86.c:370-445 | In a well-bracketed run of any nesting depth every word held on the stack at the start is still there at the end. |
| Vm86Trace.InterruptReturns | src/lib/vm86/vm86.c:370-445 | In such a run every IRET restores its own caller. |
| Vm86Trace.FlagsReturn | src/lib/vm86/vm86.c:406-413 | And every POPF the flags its PUSHF saved. |
| Vm86Trace.SingleKeepsStack | src/lib/vm86/vm86.c:370-445 | A trap that is no PUSHF, POPF, IRET or INT served by the guest leaves SS and ESP alone, whatever the host service does. |
| Vm86Trace.MatchedIsProper | src/lib/vm86/vm86.c:370-445 | A run in which brackets match and only code between traps is asked to put the stack pointer back is well bracketed: at the end of each bracket the stack pointer is where IRET or POPF needs it, and at the end where it began. |
| Vm86Trace.MatchedInterruptReturns | src/lib/vm86/vm86.c:370-445 | So every IRET of a matched run restores its own caller. |
| Vm86Trace.RoomBelow | src/lib/vm86/vm86.c:203-208 | Pushes never hit held words that lie above the pointer and leave room in the 64 KiB, even when the pointer wraps. |
| Vm86Monitor.Monitor.StackPush16 | src/lib/vm86/vm86.c:203-208 | The push in place. |
| Vm86Monitor.Monitor.StackPop16 | src/lib/vm86/vm86.c:194-201 | The pop in place. |
| Vm86Monitor.Monitor.HandleHostInt | src/lib/vm86/vm86.c:266-280 | A host service runs on a copy of the registers that is then written back. |
| Vm86Monitor.Monitor.HandleInternalInt | src/lib/vm86/vm86.c:282-324 | The sentinel, host services behind the thunk window, and interrupts served by the guest. |
| Vm86Monitor.Monitor.HandleInOut | src/lib/vm86/vm86.c:326-368 | Port, size, value and register merging of all eight port instructions, with operand-size prefixes. |
| Vm86Monitor.Monitor.SkipPrefixes | src/lib/vm86/vm86.c:370-393 | The prefix loop ends at the opcode with the wrapped IP and the operand size. |
| Vm86Monitor.Monitor.HandleTrap | src/lib/vm86/vm86.c:370-445 | One trap changes registers, memory and the port log exactly as specified, and stops with the specified result. |
| PrdTable.TableIsSound | src/lib/storage/bios_storage.c:704-740 | For every destination and size the entries are consecutive, sum to the size (0 read as 64 KiB), stay inside 64 KiB banks, are one per bank touched (at most 17 up to 1 MiB), only the last carries the end mark, and no other bit of the count word is set. |
| PrdTable.IdeBuildPrd | src/lib/storage/bios_storage.c:704-740 | Fills the table in place and clears the rest; fails exactly for an empty transfer or one that touches more than 32 banks. |
| PrdTable.PythonBuildPrd | scripts/check_mwdma.py:233-246 | The second implementation returns the same list, and nothing for an empty transfer, where it raises an error. |
| PrdTable.OneEntryPerBank | src/lib/storage/bios_storage.c:717-737 | The number of entries is the number of 64 KiB banks touched. |
| ReadPlan.TokenFields | src/lib/storage/bios_storage.c:1574-1581 | The fields packed into a token can all be read back. |
| ReadPlan.ChainIsSound | src/lib/storage/bios_storage.c:1712-1741 | A chain partitions its buffer into packets, all but the last full, sends each to the endpoint of the pipe, alternates toggles, and links each descriptor to the next, 32 bytes on, and the last to none. |
| ReadPlan.ChainLength | src/lib/storage/bios_storage.c:1712-1741 | Its length is the number of packets, the last perhaps short. |
| ReadPlan.Endpoint.Bulk | src/lib/storage/bios_storage.c:1712-1741 | The loop builds that chain, fails exactly when it needs more than 256 descriptors (or packets are empty), and leaves the stored toggle flipped by the parity of the descriptors built. |
| ReadPlan.RequestsFitChains | src/lib/storage/bios_storage.c:1180-1190 | Every request size allowed needs at most 256 descriptors if and only if packets hold at least 2 bytes. |
| ReadPlan.MaxUsbSectorsIs | src/lib/storage/bios_storage.c:1180-1190 | The largest request: half the packet size in sectors, at least 1 and at most 127. |
| ReadPlan.RequestsAreSound | src/lib/storage/bios_storage.c:1192-1265 | The requests cover the sectors once, in order, with contiguous destinations, each as large as allowed but for the last. |
| ReadPlan.PlanPlacesEverySector | src/lib/storage/bios_storage.c:1192-1265 | Sector i of the read is in exactly the request that puts it at byte 512 i. |
| ReadPlan.Disk.ReadSectors | src/lib/storage/bios_storage.c:1192-1265 | Success means exactly the planned requests were made; a failure stops at the first failing one; ranges off the disk make none. |
| ReadPlan.Disk.LimitIs | src/lib/storage/bios_storage.c:1201-1233 | An IDE drive is asked for up to 256 sectors, or 255 by DMA. |
| Xmodem.Receiver.ComputeCrc | tools/dos/xrecv.c:60-77 | The bit loop computes the specified CRC of the buffer. |
| Xmodem.DamagedByteNoticed | tools/dos/xrecv.c:60-77 | A block in which one byte, anywhere, was damaged never has the checksum of the original. |
| XmodemWire.GeneratorIs | tools/dos/xrecv.c:60-77 | The checksum is that of the generator x^16 + x^12 + x^5 + 1, with nothing added before or after. |
| XmodemWire.ZeroRemainder | tools/dos/xrecv.c:60-117 | A block followed by its checksum, upper byte first, has the remainder 0. |
| Xmodem.Receiver.RecvBlock | tools/dos/xrecv.c:89-129 | One block from the line: number, complement, data, CRC, then write or recognise; all failures leave file and number alone except a short write. |
| Xmodem.Receiver.Serve | tools/dos/xrecv.c:158-191 | The main loop from its first character to its end. |
| Xmodem.Receiver.Session | tools/dos/xrecv.c:131-192 | The program after the file is open, for any line. |
| XmodemFrames.FrameUnderstood | tools/dos/xrecv.c:89-129 | A whole frame is taken for what it is, whatever follows it. |
| XmodemWire.FrameIs | tools/dos/xrecv.c:89-117 | A frame byte by byte: 1 before 128 bytes and 2 before 1024, number, complement, data, and two bytes that make the remainder 0. |
| XmodemWire.FrameAnswered | tools/dos/xrecv.c:119-190 | A frame with the wanted number is written and answered by 6, one with the number before it is answered by 6 only, any other by 0x15; on a full disk the program ends with 3. |
| XmodemWire.ControlAnswered | tools/dos/xrecv.c:158-190 | 4 ends the transfer with success after an answer of 6, 0x18 ends it with code 5, any other byte that starts no frame gets 0x15. |
| XmodemWire.Asks | tools/dos/xrecv.c:147-156 | The program asks with C, once and again after each pause, until a byte arrives. |
| XmodemFrames.DamagedDataRefused | tools/dos/xrecv.c:89-117 | A frame with one damaged byte in its data or its checksum is read to its end and refused. |
| XmodemFrames.DamagedNumberRefused | tools/dos/xrecv.c:97-106 | A damaged number or complement: refused at once, with the data left on the line. |
| XmodemFrames.CutFrameRefused | tools/dos/xrecv.c:79-112 | Bytes that stop before the end of a block, whatever they are, are given up at the pause. |
| XmodemFrames.WrongSumHeard | tools/dos/xrecv.c:108-117 | A frame whose bytes have become any others behind a matching number and complement, with a checksum that fails: read to its end, one NAK. |
| XmodemFrames.MismatchHeard | tools/dos/xrecv.c:97-106 | A start character with a number and a complement that do not match, whatever follows: one NAK, and the bytes after them are read as characters. |
| XmodemFrames.DamageHeard | tools/dos/xrecv.c:158-190 | The main loop on any noticed corruption of a frame (any bytes in place of its own, with a checksum or complement that fails; any part of it before a pause; bytes that start no frame): it asks again as many times as stated and is then where it was, provided that no byte it reads alone is a control character. |
| XmodemFrames.ChangedByteNoticed | tools/dos/xrecv.c:108-117 | One changed byte, anywhere in data or checksum, is always noticed and costs one NAK. |
| XmodemFrames.CutFrameNoticed | tools/dos/xrecv.c:79-112 | So is a frame cut off anywhere. |
| XmodemFrames.StrayUntilControl | tools/dos/xrecv.c:158-190 | On any bytes the loop comes to the first control character, having refused all bytes before it. |
| XmodemFrames.StrayOutcome | tools/dos/xrecv.c:158-190 | On bytes without a start character: success if and only if EOT comes before any CAN, cancelled if and only if CAN comes first, else one NAK for each; nothing is written. |
| XmodemFrames.StartOutcome | tools/dos/xrecv.c:89-177 | A start character, wherever it comes from: the bytes after it are stored or recognised if and only if they are the rest of a frame with the block wanted next or the one before; else one NAK and nothing is written. |
| XmodemFrames.FailedBlockChangesNothing | tools/dos/xrecv.c:89-129 | A block that times out or fails a check changes neither file nor expected number. |
| XmodemProtocol.AcceptKeepsStep | tools/dos/xrecv.c:119-126 | A first copy is written and a repeat only acknowledged; 8-bit numbers never mix the two up, for any number of blocks. |
| XmodemProtocol.DeliveryHeard | tools/dos/xrecv.c:158-190 | The main loop on one delivery of the current frame, whatever follows it, does what the reaction of the protocol says and has sent its reply. |
| XmodemProtocol.ServedIsReactAll | tools/dos/xrecv.c:158-190 | So a round of the main loop is a round of reactions, with the same replies. |
| XmodemProtocol.ExactlyOnce | tools/dos/xrecv.c:131-192 | Rounds of the main loop with a stop-and-wait sender and a line that loses, repeats, cuts off, garbles (any bytes, as long as a check fails) or makes up frames and loses replies: the file is always a prefix of the blocks in order, the receiver is level with the acknowledgements or one ahead, and success after EOT means the whole file was written. |
| XmodemProtocol.RunIsMainLoop | tools/dos/xrecv.c:158-190 | One run of the main loop on everything that arrives in the course of all rounds ends as the rounds do. |
| XmodemProtocol.WholeTransfer | tools/dos/xrecv.c:131-192 | The program from its start on all that arrives: what is written is a prefix of the blocks, each exactly once, and success means all of them. |
| XmodemProtocol.OldRepliesSafeIff | tools/dos/xrecv.c:179-189 | A round in which the sender may take an old reply for a new one keeps both in step if and only if no old reply is an ACK, or the receiver already has the block being sent, or no block is left. |
| XmodemProtocol.StaleAckLosesBlock | tools/dos/xrecv.c:179-189 | Two blocks, the second of two acknowledgements for the first taken for one of the second: success is reported with a block missing. |
| XmodemFrames.DamagedHeaderEndsTransfer | tools/dos/xrecv.c:158-190 | A data frame with damaged header, number or complement and no start character among the bytes then read alone: the transfer ends as complete if and only if a byte 4 comes before any 0x18 among them, as cancelled if and only if 0x18 comes first, and otherwise goes on with one NAK each; nothing is written. |
| XmodemProtocol.CleanTransfer | tools/dos/xrecv.c:131-192 | Sending any blocks over a clean line and receiving them is the identity, byte for byte of the line. |
| AcpiWalk.FixedIsValid | src/lib/acpi/acpi_tables.c:70-74 | The table sums to 0 modulo 256 afterwards and only its checksum byte changed. |
| AcpiWalk.FixAllValid | src/lib/acpi/acpi_tables.c:265-277 | The last walk leaves every table where it is and all but FACS valid. |
| AcpiWalk.FixAllKeeps | src/lib/acpi/acpi_tables.c:265-277 | Inside a table it touches nothing but the checksum byte. |
| AcpiPatch.SurveyLists | src/lib/acpi/acpi_tables.c:212-239 | The references are the first 32 tables to be listed, in order. |
| AcpiPatch.SurveyGenuine | src/lib/acpi/acpi_tables.c:212-239 | RSDT, FADT, DSDT and FACS found are tables of the walk with those names. |
| AcpiNames.SurveyFindsLast | src/lib/acpi/acpi_tables.c:212-239 | By the letters they begin with, the RSDT, FADT, DSDT and FACS found are the last ones of the walk, and one is missing only if there is none. |
| AcpiNames.FirstIsFirst | src/lib/acpi/acpi_tables.c:150-156 | The tables to be listed are those that do not begin with RSDT, XSDT, FACS or DSDT: the first of them, in increasing order, as many as there is room for. |
| AcpiPatch.FadtPatchedIs | src/lib/acpi/acpi_tables.c:130-254 | The FADT is valid afterwards, points at FACS and DSDT (again in 64 bits when it is long enough), its four relative ports are absolute, and nothing outside it changed. |
| AcpiTables.RsdtPatchedIs | src/lib/acpi/acpi_tables.c:256-263 | The RSDT has the new length and exactly the given entries; nothing else changed, not even the entries given up. |
| AcpiTables.ChecksumsHold | src/lib/acpi/acpi_tables.c:201-282 | When the list fills the RSDT or nothing follows it, every table keeps place and name and all but FACS are valid at the end. |
| AcpiTables.RewrittenIsSound | src/lib/acpi/acpi_tables.c:201-282 | Under the same condition the RSDT has the new length and exactly the chosen entries, and the FADT its 32-bit and 64-bit pointers. |
| AcpiTables.PortsStay | src/lib/acpi/acpi_tables.c:130-148 | In the finished image the four register blocks of the FADT are absolute: below 0x100 they have been raised by 0xb000, but for a GPE block of 0. |
| AcpiDerail.FixAllSum | src/lib/acpi/acpi_tables.c:265-277 | The second walk, wherever it leads: every range of bytes loses, modulo 256, the sums of the tables met whose checksum byte lies in it. |
| AcpiDerail.TableSurvivesIff | src/lib/acpi/acpi_tables.c:265-277 | So a table is where it was and valid after any walk if and only if its header bytes owe nothing and its sum is what it owes. |
| AcpiDerail.SoundIff | src/lib/acpi/acpi_tables.c:201-282 | Any number of spare slots, whatever they hold: the outcome is good if and only if the walk from the end of the shortened RSDT settles what it owes every later table, and spares the pointers of a later FADT. |
| AcpiDerail.MetAgainIsSettled | src/lib/acpi/acpi_tables.c:265-277 | It does so for every table it happens to meet again. |
| AcpiDerail.ResumeTest | src/lib/acpi/acpi_tables.c:256-277 | What decides whether the walk goes on is a word of the image as it comes, taken for a length: the second entry given up; with one entry given up the name of the next table; with none its length. |
| AcpiDerail.SpareSlotStopsWalk | src/lib/acpi/acpi_tables.c:256-277 | If it is no length of a table, no table behind the RSDT is met. |
| AcpiDerail.StoppedTable | src/lib/acpi/acpi_tables.c:256-277 | Then each of them keeps place, name and length, and is valid afterwards if and only if it is the FADT or was valid before. |
| AcpiDerail.StoppedIsSoundIff | src/lib/acpi/acpi_tables.c:201-282 | And all tables end valid, and the outcome is good, if and only if every table behind the RSDT other than FADT and FACS was valid before. |
| AcpiExample.SpareSlotsLeaveInvalid | src/lib/acpi/acpi_tables.c:201-282 | An image of three tables with two spare slots in front of a DSDT without checksum: the patch succeeds and leaves the DSDT invalid. |
| AcpiArea.PatchIsSound | src/lib/acpi/acpi_tables.c:201-282 | The same for the tables the first walk finds, with as many of the references as the RSDT has slots. |
| AcpiArea.StoppedPatchIff | src/lib/acpi/acpi_tables.c:201-282 | And for a list that does not fill the RSDT, when the second walk stops there: a good outcome if and only if the tables behind the RSDT came valid. |
| AcpiArea.PatchOutcome | src/lib/acpi/acpi_tables.c:201-282 | The finished image, in letters and offsets: the last RSDT lists the addresses of the first tables that are not named RSDT, XSDT, FACS or DSDT, no more than 32 and no more than it had entries, whatever the second walk does; the last FADT, when it comes first or the list fits, points at the last FACS (or 0) and the last DSDT, in both forms, and its ports are absolute. |
| AcpiArea.Area.Checksum | src/lib/acpi/acpi_tables.c:61-68 | The loop returns the byte that makes the sum 0. |
| AcpiArea.Area.FixChecksum | src/lib/acpi/acpi_tables.c:70-74 | Checksum repair in place. |
| AcpiArea.Area.PatchFadt | src/lib/acpi/acpi_tables.c:245-254 | Ports and pointers of the FADT in place. |
| AcpiArea.Area.PatchRsdt | src/lib/acpi/acpi_tables.c:259-263 | Length and entries of the RSDT in place. |
| AcpiArea.Area.Patch | src/lib/acpi/acpi_tables.c:201-282 | The whole patch in place; fails exactly when there is no RSDT, FADT or DSDT and then changes nothing; otherwise with the outcome above; good if the list fits, and exactly when later tables came valid if the walk stops behind the RSDT. |
| AcpiArea.InstallRsdp | src/lib/acpi/acpi_tables.c:76-86 | The RSDP sums to 0 modulo 256 and holds name, OEM and RSDT address. |
| Nvram.RepairMakesSound | src/lib/x86/bios_nvram.c:78-128 | Whatever the memory holds, loading leaves a sound image. |
| Nvram.LoadTwice | src/lib/x86/bios_nvram.c:78-128 | Loading twice is loading once. |
| Nvram.SavedCmdline | src/lib/x86/bios_nvram.c:152-166 | A saved command line is loaded back, and no other setting changes. |
| Nvram.WithBitKnown | src/stage3/bios_maintenance.c:98-102 | Setting or clearing a flag changes exactly that flag. |
| Maintenance.LinesAreText | src/stage3/bios_maintenance.c:13-39 | An edited line is shorter than the buffer and has no NUL. |
| SettingsMeaning.LineTyped | src/stage3/bios_maintenance.c:13-39 | Up to 128 printable characters and an end of line are that line. |
| SettingsMeaning.KeysIgnored | src/stage3/bios_maintenance.c:23-33 | Backspace and DEL take the last character back, if there is one. |
| SettingsMeaning.KeyIgnored | src/stage3/bios_maintenance.c:30-37 | Other control characters, and a character too many, do nothing. |
| SettingsMeaning.CommandMeans | src/stage3/bios_maintenance.c:64-213 | What each line does to the settings, letter by letter: d, b 0-1, o 0-2, m, s, v and t 0-1 with the flag each stands for, a with up to 120 characters; every other line changes nothing, and q alone leaves the prompt. |
| SettingsMeaning.LineObeyed | src/stage3/bios_maintenance.c:143-213 | A line typed at the prompt is obeyed, and what is typed after q is not. |
| Maintenance.LoadAgrees | src/lib/x86/bios_nvram.c:78-128 | After a load, RAM and CMOS agree. |
| SettingsMeaning.AgreementIs | src/lib/x86/bios_nvram.c:78-128 | RAM and CMOS agree if and only if the image stores the settings, byte by byte: 42 58 4e 33, partition, flags, priority, and the command line with a NUL. |
| SettingsMeaning.LoadingMends | src/lib/x86/bios_nvram.c:78-128 | What loading does to any image: a fresh one when the first four bytes are wrong, else each field replaced exactly when it is out of range. |
| Maintenance.Firmware.Load | src/lib/x86/bios_nvram.c:78-128 | The load in place: repaired image, settings decoded from it, or the defaults without extended CMOS. |
| Maintenance.Firmware.LoadCmdline | src/lib/x86/bios_nvram.c:114-127 | The command line is copied up to its NUL; without one it is dropped in both places. |
| Maintenance.Firmware.SaveCmdline | src/lib/x86/bios_nvram.c:152-166 | Stores the string cut at 120 characters and clears the rest of the field. |
| SettingsMeaning.CmdlineStored | src/lib/x86/bios_nvram.c:152-166 | The stored line has zeros behind it up to the end, and no byte before it changes. |
| Maintenance.Firmware.InitDefaults | src/lib/x86/bios_nvram.c:66-76 | Writes the initial image. |
| Maintenance.Firmware.ReadLine | src/stage3/bios_maintenance.c:13-39 | Line editing with backspace, unprintable keys and a full buffer. |
| Maintenance.Firmware.ChangeCmdline | src/stage3/bios_maintenance.c:64-76 | RAM and CMOS get the same text, cut at the same place. |
| Maintenance.Firmware.ChangeFlag | src/stage3/bios_maintenance.c:91-112 | One flag changes in RAM and CMOS, with the derived memtest and test-blob fields. |
| Maintenance.Firmware.ResetDefaults | src/stage3/bios_maintenance.c:129-141 | RAM and CMOS go back to the defaults. |
| Maintenance.Firmware.Execute | src/stage3/bios_maintenance.c:153-213 | One command line: settings become what it asks for, and still agree with CMOS. |
| Maintenance.Firmware.Prompt | src/stage3/bios_maintenance.c:143-214 | For any keystrokes: settings end as the commands say, and a fresh load would return exactly them, whether or not the prompt was left. |
| Maintenance.Firmware.ConsumeTestBlobRequest | src/stage3/bios_settings.c:90-99 | The one-shot request is cleared in RAM and CMOS. |
| Maintenance.Firmware.RecordBootSuccess | src/stage3/bios_settings.c:118-131 | An undecided boot priority learns the drive, in RAM and CMOS. |
| SettingsCache.CopyCmdline | src/stage3/bios_settings.c:44-49 | The copy loop keeps the string, cut at 120 characters, and always terminates it. |
| SettingsCache.Cache.Fill | src/stage3/bios_settings.c:29-50 | The copy left for the next stage holds the settings. |
| SettingsCache.Cache.Load | src/stage3/bios_settings.c:52-88 | From a valid copy or from CMOS, settings and copy are the same afterwards; loaded from CMOS they agree with it, and from a valid copy they do if the copy agreed with it before. |

## Left out

- HeapAllocator.Heap.Init: a heap at address 0 and bounds that wrap when aligned are excluded.
- HeapAllocator.Heap.Alloc: sizes in the last 32 bytes below 4 GiB, for which the request wraps, are excluded.
- HeapAllocator.Heap.Free: double release, pointers that are not payloads of blocks in use and sizes that wrap 32 bits are excluded by its preconditions, as the service leaves them to its callers.
- HeapRuns.ServeAll: what the owners of blocks write into them between requests is not part of the run.
- BlobExpand.ExpandBlock: the destination ends at least one block below 4 GiB.
- BlobExpand.Expand: the status record and the polling for a maintenance key are not modelled, and header and block table are taken as read once; the destination ends at least one block below 4 GiB.
- PciWindows.ContainedIff: address cursors are unbounded; `PciWords.WordWalk` says that 32-bit ones agree while everything ends at or below 4 GiB, and what a resource tree beyond 4 GiB, or beyond the I/O space, wraps to is not modelled.
- PciAllocator.Allocator.Enumerate: the functions behind a bus are given in scan order with the sizes their BARs answer; probing of BARs, command registers, interrupt lines and printing are left out, and a 64-bit BAR counts as one BAR.
- PciAllocator.RootAssignmentSound: the same holds for the cursors behind the RAM size, whose own rounding does wrap.
- PciSnapshot.Snapshot.Build: identification and BAR fields are copied from configuration space without further use, so the entries hold only what the scan acts on.
- ElfBoot.Boot: reading and recognising the ELF header and the partition table, boot parameters, the bzImage path and video modes are left out; headers come parsed, and that nothing below 1 MiB but the bounce sector changes keeps them intact in memory.
- ElfBoot.RuntimeKnown: the bounce sector below 1 MiB is taken to be scratch, even inside a runtime.
- ByteReader.Machine.ReadSectors: a request writes its sectors or fails after some of them; the scratch memory of the USB path is not modelled.
- AcpiArea.Area.Patch: an FADT shorter than the fields that are rewritten, for which the code writes past the table, is excluded by the precondition.
- Vm86Monitor.Monitor.HandleTrap: the host service is always present and ports default to direct access, as the launcher ensures; entering virtual-8086 mode and trap vectors other than 6 and 13 are left out.
- XmodemProtocol.WholeTransfer: a line may put any bytes in the place of a frame as long as a check of the receiver fails on them and no control character is among bytes it reads alone (`XmodemFrames.StrayUntilControl` and `XmodemFrames.StartOutcome` say what the loop makes of any bytes); frames that go on after a pause are left out, and the sender discards old replies.
- Maintenance.Firmware.Prompt: printing is left out, and with no extended CMOS only the RAM side is stated.
- PrdTable.IdeBuildPrd: a transfer ends at or below 4 GiB, in both implementations.
- ReadPlan.Disk.ReadSectors: each request succeeds or fails as a whole; sector numbers and addresses do not wrap 32 bits.
- ReadPlan.Endpoint.Bulk: running the chain and control transfers are left out.
- Real-hardware ACPI tables built from constants, the ROM directory and payload lookup, and the loading of a payload found there.
- Port and MSR access, shadowing and cache control, SDRAM bring-up, video, keyboard, clock, interrupt dispatch, assembly.
- The packer that writes payloads; its output is defined by the format.
