# File mappings, memory system calls and ARP, modelled in Dafny

This project models two parts of a small operating system kernel.

**File-backed memory mappings** (`kernel/mm/load.c`):
- `MmMapFileSection` places a section of a file in an address space. It checks the kernel-process and handle permissions first, then derives the length (0 means "to the end of the file"), then the placement (inside a reservation or from the address accountant), and then creates the image section. When section creation fails after a fresh range was allocated, it rolls that allocation back.
- `MmUnmapFileSection` rounds the size up to a page and unmaps the region. It releases the range to the accountant only when no reservation was given.
- The user-mode entry points:
  - `MmSysMapOrUnmapMemory` validates an untrusted parameter block, translates the `SYS_MAP_FLAG_*` bits and calls the two routines above.
  - `MmSysSetMemoryProtection` validates the range and translates the protection bits.
  - `MmSysFlushMemory` walks the process's section registry. It adds up the overlaps with the requested range and writes shared, ever-writable sections back to their files. A range with a hole is reported as `STATUS_INVALID_ADDRESS_RANGE`.

**The ARP layer of the network core** (`drivers/net/netcore/arp.c`), for the Ethernet/IPv4 case of RFC 826:
- `NetpArpProcessReceivedData` parses a received packet: the length checks, the type checks, and the four addresses at fixed offsets. It then dispatches on the operation.
- `NetpArpSendRequest` and `NetpArpSendReply` build the 28-byte packets.

Machine words are the 32-bit build's: `UINTN` and pointers are 32 bits and wrap as in C, `ULONGLONG` is 64 bits, the page size is 4096 and `KERNEL_VA_START` is `0x80000000`.

The collaborators whose bodies are not part of this model are handled as follows:
- The address accountant is the set of allocated page bases.
- The section registry is a sequence of section records.
- The answers of `MmpAllocateAddressRange`, `MmpAddImageSection`, `MmpUnmapImageRegion`, `MmpFreeAccountingRange`, `MmpFlushImageSectionRegion`, `IoGetFileSize`, `IoOpen`, `IoSetFileInformation`, `NetAllocateBuffer`, the data link's `Send` and `NetFindEntryForAddress` are parameters (oracles).
- `MmpUnmapImageRegion` succeeding is taken to cut the range out of every section. `NetAddNetworkAddressTranslation` appends to a translation log.

Files:
- `machine.dfy`: word arithmetic and the page macros.
- `status.dfy`: status codes, `Option` and `Result`.
- `sections.dfy`: image sections, the accountant and the `AddressSpace` class.
- `mapping.dfy`: map and unmap.
- `syscalls.dfy`: the map/unmap and protection system calls.
- `flush.dfy`: the flush system call.
- `flush_coverage.dfy`: why the flush total detects holes.
- `arp_codec.dfy`: the packet format.
- `arp_link.dfy`: sending and receiving.

## Model

| member | source | states |
|---|---|---|
| Machine.Add | kernel/mm/load.c:535-537 | a UINTN sum is the true sum when it fits; the result is not above the first operand exactly when the sum wrapped or the second operand is 0 |
| Machine.Sub | kernel/mm/load.c:1010-1015 | a UINTN difference is the true difference when not negative, and adding the subtrahend back always returns the minuend |
| Machine.WordArithmeticIsModular | kernel/mm/load.c:535-537 | UINTN addition and subtraction are arithmetic modulo 2^32 |
| Machine.Sub64 | kernel/mm/load.c:198 | `FileSize - FileOffset` in ULONGLONG wraps modulo 2^64 |
| Machine.Add64 | kernel/mm/load.c:567 | `Offset + Size` in ULONGLONG wraps modulo 2^64; the result is not above the offset exactly when it wrapped or the size is 0 |
| Machine.AlignDown | kernel/mm/load.c:228-229 | the page-aligned base of an address is at most the address and within a page of it |
| Machine.AlignRangeUp | kernel/mm/load.c:276 | the result is page aligned, and is the least page multiple at or above the value when that fits in a UINTN, and 0 otherwise |
| Machine.AlignRangeUpIsMacro | kernel/mm/load.c:393 | the rounding equals rounding down the wrapped sum `x + PageSize - 1` |
| Machine.AlignRangeUpZero | kernel/mm/load.c:528 | rounding yields 0 exactly for 0 and for sizes within a page of 2^32, and leaves page multiples unchanged |
| Machine.AlignRangeUpBelow | kernel/mm/load.c:960-965 | rounding never passes a page-aligned bound of its input |
| ImageSections.Allocation | kernel/mm/load.c:277-293 | an allocation succeeds exactly when the allocator grants a non-empty, aligned, non-wrapping, free placement that honours the fixed and preferred strategies; a refusal passes its error through, and any other grant is taken to break the allocator assumption under ## Left out |
| ImageSections.AllocateThenFreeRestores | kernel/mm/load.c:323-328 | freeing a freshly allocated range restores the accountant exactly |
| ImageSections.TrimPieces | kernel/mm/load.c:413 | cutting a range out of a section leaves at most two pieces, each clear of the range and inside the section with its flags, and backed at the matching file offset |
| ImageSections.RemoveRangePiece | kernel/mm/load.c:413 | every section left after an unmap is clear of the range and lies inside an original section with the same flags |
| ImageSections.RemoveRangeKeepsClear | kernel/mm/load.c:413 | a section clear of the unmapped range survives unchanged |
| ImageSections.AddressSpace.Allocate | kernel/mm/load.c:280-292 | the accountant gains exactly the granted pages, and nothing on refusal |
| ImageSections.AddressSpace.FreeRange | kernel/mm/load.c:323-328 | the accountant loses exactly the range when the free succeeds |
| ImageSections.AddressSpace.AddSection | kernel/mm/load.c:300-309 | the registry gains exactly the new section when creation succeeds |
| ImageSections.AddressSpace.UnmapRegion | kernel/mm/load.c:413-416 | the registry has the range cut out when the region unmap succeeds, and is unchanged otherwise |
| FileMapping.AccessCheck | kernel/mm/load.c:159-186 | InvalidParameter for a clobbering request from the kernel process; otherwise AccessDenied exactly for a real handle without read access, or without write access for a shared writable section |
| FileMapping.EffectiveLength | kernel/mm/load.c:192-204 | a nonzero length is kept; for 0, the file-size error is passed through, NotSupported exactly when `FileSize - FileOffset` (64-bit) exceeds MAX_UINTN, else that difference |
| FileMapping.ReservedPlacementOutcome | kernel/mm/load.c:220-264 | the reservation path fails with InvalidParameter exactly for a page outside the reservation, a length clipped to 0, or an offset below the adjustment; otherwise it uses the requested page and clips the length to the reservation's end |
| FileMapping.PlanPlacement | kernel/mm/load.c:206-279 | errors come only from the fixed reservation path; the adjustment is below a page and at most the file offset; the adjusted size is page aligned; a fresh allocation takes `FileOffset mod PageSize`; a preset allocation plus its adjustment is the requested address, and its adjusted size is the clipped length plus that adjustment rounded up to a page |
| FileMapping.PlanMapping | kernel/mm/load.c:159-279 | the permission checks come first, then the length, then the placement, each error returned unchanged |
| FileMapping.EarlyErrorsTouchNothing | kernel/mm/load.c:159-186 | a failed permission check returns its status and leaves the accountant, the registry and the mapping untouched |
| FileMapping.InvalidHandleSkipsPermissionChecks | kernel/mm/load.c:172 | with INVALID_HANDLE the outcome is that of a handle with every access right |
| FileMapping.ZeroLengthMapsToEndOfFile | kernel/mm/load.c:192-204 | a zero length maps to the end of the file, NotSupported when that is over MAX_UINTN, including when the offset lies past the end and the 64-bit difference wraps |
| FileMapping.FreshAllocationLayout | kernel/mm/load.c:276-305 | without a preset allocation the backing offset is page aligned, and AdjustedSize was computed from the reservation path's adjustment before the reset |
| FileMapping.ReservedSectionInsideReservation | kernel/mm/load.c:220-276 | for aligned inputs the reservation path places a non-empty section wholly inside the reservation |
| FileMapping.RoundedRangeInside | kernel/mm/load.c:276 | rounding a size up keeps an aligned range below any aligned limit it was below |
| FileMapping.ReservedPlacementInside | kernel/mm/load.c:228-253 | the clipped reservation range ends inside the reservation |
| FileMapping.MapSuccess | kernel/mm/load.c:276-312 | on success exactly one section is appended, with the planned size, flags and page-aligned backing offset; the returned address is its start plus the adjustment; a fresh range was free and is now accounted |
| FileMapping.MapFailureRollsBack | kernel/mm/load.c:314-330 | on failure the registry and the requested address are unchanged; exactly the freshly allocated range (allocation, AdjustedSize) is freed, and a successful free restores the accountant |
| FileMapping.MapFileSection | kernel/mm/load.c:104-337 | updates the kernel or the process address space (per KernelSpace) as the map specification says, leaving the other one unchanged |
| FileMapping.MapIn | kernel/mm/load.c:271-336 | the allocate / add / roll-back sequence yields the specified status, mapping, accountant and registry |
| FileMapping.UnmapClearsRange | kernel/mm/load.c:393-453 | after a successful unmap no section meets the rounded range, and a freed range leaves no page of it accounted |
| FileMapping.UnmapOutcome | kernel/mm/load.c:413-453 | the status is the region unmap's; a failed region unmap changes nothing; the free's answer is ignored; only without a reservation can pages be released; sections clear of the range survive |
| FileMapping.UnmapIn | kernel/mm/load.c:393-453 | the unmap steps yield the specified status, accountant and registry |
| FileMapping.UnmapFileSection | kernel/mm/load.c:397-411 | an address above KERNEL_VA_START acts on the kernel address space, any other on the process's, leaving the other unchanged |
| MemorySyscalls.MapSectionFlags | kernel/mm/load.c:663-688 | MAP_SYSTEM_CALL is always set; READABLE for read, write or execute; WRITABLE, EXECUTABLE and SHARED as requested |
| MemorySyscalls.ProtectionFlags | kernel/mm/load.c:828-839 | each protection bit is translated on its own, with no implied read |
| MemorySyscalls.MapAndProtectionFlagsAgree | kernel/mm/load.c:663-680 | the two translations agree on write and execute, and differ on read exactly for write- or execute-only requests |
| MemorySyscalls.AnonymousAccess | kernel/mm/load.c:610-623 | an anonymous shared object is opened with read for any access bit, plus write and execute as requested |
| MemorySyscalls.UserRangeValidMeans | kernel/mm/load.c:535-541 | the range check accepts exactly aligned, non-empty ranges ending below KERNEL_VA_START |
| MemorySyscalls.PrepareMap | kernel/mm/load.c:549-712 | a request is built exactly when validation passes: flags translated, no reservation, the rounded size, the strategy from FIXED and the address, a non-null fixed address, offset 0 for anonymous memory, the handle's own offset otherwise |
| MemorySyscalls.MapValidationStatuses | kernel/mm/load.c:555-704 | each check of the map path fails with its own status: InvalidParameter for a misaligned or wrapping offset, InvalidHandle for a missing handle, NoEligibleDevices for a handle that is not cacheable, IoOpen's or the resize's status when they fail, and InvalidParameter for a fixed request at NULL |
| MemorySyscalls.SyscallValidationTouchesNothing | kernel/mm/load.c:528-602 | a bad range, every failure of the map path before MmMapFileSection and an unmap at NULL report their status and leave the requested address, the accountant and the registry untouched |
| MemorySyscalls.SyscallReleasesWhatItHolds | kernel/mm/load.c:750-753 | a handle reference is released exactly when one was taken: a handle found in the table, or an object IoOpen created |
| MemorySyscalls.AnonymousSharedNeedsSomeAccess | kernel/mm/load.c:609-637 | an anonymous shared mapping passes the map permission check exactly when some access bit was requested |
| MemorySyscalls.SyscallMapResultAligned | kernel/mm/load.c:549-722 | a successful system-call map returns a page-aligned address, the requested one for FIXED, and adds one section |
| MemorySyscalls.SysMapOrUnmapMemory | kernel/mm/load.c:528-757 | the parameter block's status, address and size and the process state are those of the system-call specification; the kernel space is unchanged |
| MemorySyscalls.ProtectionRequest | kernel/mm/load.c:812-839 | InvalidParameter exactly for a misaligned or null address or a bad range; otherwise the translated flags |
| MemorySyscalls.SysSetMemoryProtection | kernel/mm/load.c:812-847 | the size is rounded in place; an invalid request makes no change call, and a valid one passes the rounded range and translated flags and reports the change's status |
| MemoryFlush.Step | kernel/mm/load.c:969-1087 | a section not made by the system call or not meeting the range changes nothing; a counted, shared, ever-writable section is flushed at its overlap, and a flush is issued for no other section; the scan fails exactly when that flush fails, with its status |
| MemoryFlush.ScanExtends | kernel/mm/load.c:969-1103 | the scan only appends flushes |
| MemoryFlush.ScanFlushesOnlyEligible | kernel/mm/load.c:979-1070 | every flush is of a registry section made by the system call, meeting the range, shared and ever writable, at the overlap's page offset and page count |
| MemoryFlush.ScanFlushesEveryEligible | kernel/mm/load.c:979-1070 | a scan that reaches the end of the registry has flushed every section made by the system call that meets the range and is shared and ever writable |
| MemoryFlush.ScanStopsAtFirstFailure | kernel/mm/load.c:1067-1074 | a failed scan ends with the failing flush and reports its status; every earlier flush succeeded |
| MemoryFlush.ScanWithoutOverlapDoesNothing | kernel/mm/load.c:979-996 | with no counted section the scan changes nothing |
| MemoryFlush.FlushCallWithinSection | kernel/mm/load.c:1005-1070 | the pages a flush asks for lie inside the section |
| MemoryFlush.FlushRangeCheckAsWritten | kernel/mm/load.c:921-944 | accepts exactly a non-null aligned address and nonzero size whose wrapped end is within user space |
| MemoryFlush.FlushRangeCheck | kernel/mm/load.c:921-944 | accepts exactly a non-null aligned address and nonzero size whose true end is within user space |
| MemoryFlush.FlushSuccessNeedsMapping | kernel/mm/load.c:1111-1118 | a successful flush covers a non-empty user range and some section made by the system call meets it |
| MemoryFlush.UnmapThenFlushFails | kernel/mm/load.c:1111-1118 | flushing a range just unmapped reports InvalidAddressRange and flushes nothing |
| MemoryFlush.ScanOfEmptyRegionCountsNothing | kernel/mm/load.c:1005-1019 | a scan of an empty region adds nothing and never matches exactly |
| MemoryFlush.FlushWrapReportsSuccess | kernel/mm/load.c:941-965 | the as-written flush reports success for address 0x1000 and size 0xFFFFF001, whose end is past KERNEL_VA_START; the corrected one rejects it without flushing |
| MemoryFlush.ScanRegistry | kernel/mm/load.c:969-1103 | the loop's total, flushes and stopping reason are those of the scan specification |
| MemoryFlush.SysFlushMemory | kernel/mm/load.c:921-1127 | with the corrected range check (see ## Findings), the parameter block's status and the flushes issued are those of the flush specification, and the other fields are unchanged |
| FlushCoverage.OverlapIsIntersection | kernel/mm/load.c:1005-1015 | for page-granular sections the overlap is page aligned and is exactly the section's pages within the range |
| FlushCoverage.CoveredWithinSections | kernel/mm/load.c:979-1019 | for page-granular sections, every covered page lies in the range and in a section made by the system call |
| FlushCoverage.CountedBytesArePages | kernel/mm/load.c:1019 | on a registry of disjoint page-granular sections, the summed overlaps are the page size times the number of covered pages |
| FlushCoverage.ScanTotals | kernel/mm/load.c:1019-1087 | a completed scan's total is the summed overlaps; one stopped by an exact match has the summed overlaps up to that section |
| FlushCoverage.HoleShortensTotal | kernel/mm/load.c:1111-1118 | on a registry of disjoint page-granular sections, an uncovered page of the range makes the total fall short of the range's size |
| FlushCoverage.FlushDetectsHoles | kernel/mm/load.c:1111-1118 | on a registry of disjoint page-granular sections, a range with a page no system-call section covers is never reported as flushed |
| FlushCoverage.InCovered | kernel/mm/load.c:979-1019 | for page-granular sections, a page of the range inside a system-call section is covered |
| FlushCoverage.CoverageTotal | kernel/mm/load.c:1019 | on a registry of disjoint page-granular sections, when system-call sections cover every page, the total equals the range's size |
| FlushCoverage.ExactSectionTotal | kernel/mm/load.c:1081-1086 | on a registry of disjoint page-granular sections, a section matching the range exactly brings the total to the range's size |
| FlushCoverage.FlushCoveredSucceeds | kernel/mm/load.c:1111-1118 | on a registry of disjoint page-granular sections, a fully covered range whose flushes succeed is reported as flushed |
| FlushCoverage.FlushSucceedsIffCovered | kernel/mm/load.c:1111-1118 | on a registry of disjoint page-granular sections, when the flushes succeed, the flush reports success exactly when system-call sections cover every page of the rounded range |
| ArpPacket.ReadBigEndian16 | drivers/net/netcore/arp.c:497 | a 16-bit network-order read is below 2^16 |
| ArpPacket.BigEndian16 | drivers/net/netcore/arp.c:278 | writing a 16-bit value gives two bytes that read back as the value |
| ArpPacket.BigEndian16OfRead | drivers/net/netcore/arp.c:497 | reading two bytes and writing the value back gives the same bytes |
| ArpPacket.Parse | drivers/net/netcore/arp.c:484-542 | a packet is dropped as too short, not Ethernet or not IPv4 exactly under each check in order; an accepted packet yields the operation from bytes 6-7 and the four addresses from bytes 8-27 |
| ArpPacket.Header | drivers/net/netcore/arp.c:278-285 | the fixed header is 8 bytes; its bytes (hardware type Ethernet, protocol IPv4, the two address lengths, the operation in network order) are pinned by ArpPacket.AcceptedPackets and ArpPacket.ParseEncode |
| ArpPacket.Encode | drivers/net/netcore/arp.c:291-339 | an encoded packet is 28 bytes; its contents are pinned by the round trips ArpPacket.ParseEncode and ArpPacket.EncodeParse and by ArpPacket.AcceptedPackets |
| ArpPacket.AcceptedPackets | drivers/net/netcore/arp.c:485-508 | a packet is accepted exactly when it has 28 bytes or more and starts 00 01 08 00 06 04 |
| ArpPacket.ParseEncode | drivers/net/netcore/arp.c:519-542 | parsing an encoded message accepts it and gives the message back |
| ArpPacket.EncodeParse | drivers/net/netcore/arp.c:519-542 | an accepted packet is the encoding of its parsed message followed by its trailing bytes |
| Arp.SendStatus | drivers/net/netcore/arp.c:264-375 | sending succeeds exactly when allocation, configuration and Send all succeed; an unconfigured address gives NoNetworkConnection |
| Arp.Link.AddTranslation | drivers/net/netcore/arp.c:572-574 | the translation log gains exactly the sender's translation |
| Arp.Link.Transmit | drivers/net/netcore/arp.c:357-375 | a frame is queued exactly when Send succeeds, and dropped otherwise |
| Arp.CopyAt | drivers/net/netcore/arp.c:291-296 | the bytes are written at the cursor, the rest of the buffer is kept, and the cursor advances by their length |
| Arp.WriteHeader | drivers/net/netcore/arp.c:278-285 | the first 8 bytes become the header, the rest is unchanged |
| Arp.SendRequest | drivers/net/netcore/arp.c:205-378 | the status is the send status; on success exactly the broadcast request frame is queued, otherwise nothing |
| Arp.SendReply | drivers/net/netcore/arp.c:654-853 | the status is the send status; on success exactly the reply frame to the destination is queued, otherwise nothing |
| Arp.ProcessReceivedData | drivers/net/netcore/arp.c:438-608 | the link's translation log and queued frames grow by exactly the dispatch's reaction |
| Arp.DroppedPacketsChangeNothing | drivers/net/netcore/arp.c:485-508 | a packet failing a check changes nothing |
| Arp.ReactionByOperation | drivers/net/netcore/arp.c:548-607 | a translation is learned exactly for a reply, or for a request for one of the link's addresses, and is the sender's; at most one frame is sent, only for such a request, and it goes to the sender |
| Arp.RequestIsAnswered | drivers/net/netcore/arp.c:559-579 | a request for a configured address of the link is answered by one reply that parses to operation 2 from that address to the sender |
| Arp.RequestReplyExchange | drivers/net/netcore/arp.c:285-339 | a request from A for B's address makes B learn A and reply, and A learns B's hardware address from that reply |

## Left out

- Locks, run levels and debug printing are left out. They are synchronisation and diagnostics, not behaviour.
- The flush scan runs over a fixed registry. Dropping and reacquiring the lock around each flush, restarting from the list head when the current section was unlinked, and the section reference counts (`kernel/mm/load.c:1045-1102`) exist for concurrent unmaps, which are not modelled.
- `MmCleanUpProcessMemory` is not part of this model. It is one delegated call.
- The bodies of the memory-manager and I/O collaborators are oracle answers. Assumptions about them:
  - `MmpUnmapImageRegion`'s success is assumed to cut the range out of every section.
  - `MmpAddImageSection` is assumed to record a new section as ever writable exactly when it is mapped writable (`FileMapping.NewSection`). Flush eligibility depends on that flag.
  - `MmChangeImageSectionRegionAccess` is reduced to the call it receives and its status. How it splits sections is not modelled.
- Clobbering placement (`AllocationStrategyFixedAddressClobber`) is checked like a fixed placement on a free range. Displacing existing mappings is not modelled.
- ImageSections.Allocation: MmpAllocateAddressRange is not part of this model, so its grant is assumed to be a valid placement: non-empty, page aligned, not wrapping, free, and honouring the fixed and preferred strategies. A grant outside that assumption is reported as `STATUS_OUT_OF_ADDRESS_SPACE`, a status `MmMapFileSection` never produces itself. In particular, a request of size 0 (a zero `SectionLength`, as when `FileSize == FileOffset`) is treated as out of address space whatever the allocator answers.
- The FlushCoverage lemmas assume a registry of page-granular, pairwise page-disjoint sections (`FlushCoverage.Tiled`). No lemma shows that mapping and unmapping keep the registry that way. Proving that would need an invariant tying every section's pages to the accountant's allocated pages, and the model does not keep one.
- The kernel accountant is represented only as the kernel `AddressSpace`. Its separate virtual-space allocator is not distinguished.
- MemoryFlush.Scan keeps TotalSyncSize as an unbounded integer. Each overlap is below 2^32, so the 64-bit sum could only wrap with more than 2^32 counted sections.
- The ALIGN_RANGE_UP macro's definition is not part of this model. It is assumed to compute in the width of its operand, so a UINTN size within a page of 2^32 rounds to 0.
- `Parameters->Offset` is taken to be a ULONGLONG, and the file offset passed to `MmMapFileSection` a ULONGLONG too.
- A NULL process in `MmUnmapFileSection` means the current process. The model takes the chosen process as a parameter.
- In `arp.c`, the following are not modelled:
  - the registration in `NetpArpInitialize`;
  - the stubs `NetpArpInitializeLink`, `NetpArpDestroyLink` and `NetpArpPrintAddress`;
  - the link-domain field of `NETWORK_ADDRESS`;
  - the packet-list data structures. A queued frame stands for a packet list handed to `Send`, and a destroyed list is a frame not queued.

## Findings

| source | as written | input that shows it | evidently intended | confidence | as-written member | corrected member |
|---|---|---|---|---|---|---|
| kernel/mm/load.c:941-965 | `Address + Size > KERNEL_VA_START` is compared after a wrapping UINTN addition, and `ALIGN_RANGE_UP(Size)` wraps to 0 for sizes within a page of 2^32; the scan of the empty region then counts 0, which equals the aligned size, so the call reports success | Address 0x1000, Size 0xFFFFF001: the end wraps to 1, the aligned size to 0, and with every flush succeeding the status is STATUS_SUCCESS | reject a wrapping range with STATUS_INVALID_ADDRESS_RANGE, as the map/unmap call's `end <= address` test does (load.c:537) | medium, not executed | MemoryFlush.FlushWrapReportsSuccess | MemoryFlush.FlushRangeCheck |
