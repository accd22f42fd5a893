/** MmMapFileSection and MmUnmapFileSection: mapping a file (or anonymous
    memory) into an address space and unmapping it again. */
module FileMapping {
  import opened Machine
  import opened KernelStatus
  import opened ImageSections

  /** MEMORY_RESERVATION: a caller-held range of the accountant. */
  datatype Reservation = Reservation(virtualBase: UIntN, size: UIntN)

  /** The arguments of MmMapFileSection.  `requested` is *FileMapping on
      input: the requested address, or 0 to accept any address. */
  datatype MapRequest = MapRequest(
    handle: FileHandle,
    fileOffset: ULongLong,
    sectionLength: UIntN,
    flags: SectionFlags,
    reservation: Option<Reservation>,
    strategy: Strategy,
    requested: UIntN)

  /** The answers of the collaborators MmMapFileSection consults:
      IoGetFileSize, MmpAllocateAddressRange, MmpAddImageSection and the
      MmpFreeAccountingRange of the cleanup path. */
  datatype MapOracle = MapOracle(
    fileSize: Result<ULongLong>,
    allocator: AllocatorAnswer,
    addSection: Status,
    rollbackFree: Status)

  /** The kernel-process and handle-permission checks (load.c:159-186),
      Success when they pass. */
  function AccessCheck(req: MapRequest, currentIsKernel: bool): (s: Status)
    ensures currentIsKernel && req.strategy.FixedAddressClobber? ==> s == InvalidParameter
    ensures s == AccessDenied <==>
      && !(currentIsKernel && req.strategy.FixedAddressClobber?)
      && req.handle.Handle?
      && (!req.handle.io.access.read || (req.flags.shared && req.flags.writable && !req.handle.io.access.write))
    ensures s in {Success, InvalidParameter, AccessDenied}
  {
    if currentIsKernel && req.strategy.FixedAddressClobber? then InvalidParameter
    else if req.handle.Handle? && !req.handle.io.access.read then AccessDenied
    else if req.handle.Handle? && req.flags.shared && req.flags.writable && !req.handle.io.access.write then AccessDenied
    else Success
  }

  /** The length to map (load.c:192-204): the given length, or for 0 the
      rest of the file from the offset, computed in 64 bits. */
  function EffectiveLength(req: MapRequest, fileSize: Result<ULongLong>): (r: Result<UIntN>)
    ensures req.sectionLength != 0 ==> r == Ok(req.sectionLength)
    ensures req.sectionLength == 0 && fileSize.Err? ==> r == Err(fileSize.error)
    ensures req.sectionLength == 0 && fileSize.Ok? ==>
      (r == Err(NotSupported) <==> Sub64(fileSize.value, req.fileOffset) > MAX_UINTN)
    ensures r.Ok? && req.sectionLength == 0 ==> r.value == Sub64(fileSize.value, req.fileOffset)
  {
    if req.sectionLength != 0 then Ok(req.sectionLength)
    else match fileSize
      case Err(e) => Err(e)
      case Ok(size) =>
        var rest := Sub64(size, req.fileOffset);
        if rest > MAX_UINTN then Err(NotSupported) else Ok(rest)
  }

  /** Where the section goes before the accountant is consulted: the
      preset allocation (0 when none), the sub-page adjustment and the
      possibly clipped length. */
  datatype Placement = Placement(allocation: UIntN, adjustment: nat, length: UIntN)

  /** The reservation path with a fixed strategy (load.c:220-264). */
  function ReservedPlacement(req: MapRequest, res: Reservation, length: UIntN): Result<Placement>
  {
    var allocation := AlignDown(req.requested);
    var adjustment := req.requested % PAGE_SIZE;
    var limit := Add(res.virtualBase, res.size);
    if allocation < res.virtualBase || allocation > limit then Err(InvalidParameter)
    else
      var clip := Add(req.requested, length) > limit;
      var clipped := if clip then Sub(limit, req.requested) else length;
      if clip && clipped == 0 then Err(InvalidParameter)
      else if req.fileOffset < adjustment then Err(InvalidParameter)
      else Ok(Placement(allocation, adjustment, clipped))
  }

  /** The reservation path rejects exactly a requested page outside the
      reservation, a range clipped to nothing at the reservation's end,
      and a file offset smaller than the in-page adjustment; otherwise it
      places the section at the requested page, clipped to the end of the
      reservation. */
  lemma ReservedPlacementOutcome(req: MapRequest, res: Reservation, length: UIntN)
    ensures var p := ReservedPlacement(req, res, length);
      var limit := Add(res.virtualBase, res.size);
      && (p.Err? ==> p.error == InvalidParameter)
      && (p.Err? <==>
            || AlignDown(req.requested) < res.virtualBase
            || AlignDown(req.requested) > limit
            || (Add(req.requested, length) > limit && limit == req.requested)
            || req.fileOffset < req.requested % PAGE_SIZE)
      && (p.Ok? ==>
            && p.value.allocation == AlignDown(req.requested)
            && p.value.adjustment == req.requested % PAGE_SIZE
            && p.value.adjustment <= req.fileOffset
            && res.virtualBase <= p.value.allocation <= limit
            && p.value.length == if Add(req.requested, length) > limit
                                 then Sub(limit, req.requested) else length)
  {
  }

  /** The outcome of every step of MmMapFileSection that precedes the
      accountant: the clipped length, the preset allocation (0 when the
      accountant must pick one), the final adjustment and the size of the
      range to allocate. */
  datatype Plan = Plan(length: UIntN, allocation: UIntN, adjustment: nat, adjustedSize: UIntN)

  /** The placement of a request of `length` bytes (load.c:206-279).
      AdjustedSize is computed from the adjustment of the reservation path
      (0 without one) before the adjustment is reset to the sub-page part
      of the file offset for a fresh allocation. */
  function PlanPlacement(req: MapRequest, length: UIntN): (r: Result<Plan>)
    ensures r.Err? ==> r.error == InvalidParameter && req.reservation.Some? && req.strategy.IsFixed()
    ensures r.Ok? ==> r.value.adjustment < PAGE_SIZE && r.value.adjustment <= req.fileOffset
    ensures r.Ok? ==> IsPageAligned(r.value.adjustedSize)
    ensures r.Ok? && r.value.allocation == 0 ==> r.value.adjustment == req.fileOffset % PAGE_SIZE
    ensures r.Ok? && r.value.allocation != 0 ==>
      && req.reservation.Some? && req.strategy.IsFixed()
      && IsPageAligned(r.value.allocation)
      && r.value.allocation + r.value.adjustment == req.requested
      && r.value.adjustedSize == AlignRangeUp(Add(r.value.length, r.value.adjustment))
  {
    var placed := if req.reservation.Some? && req.strategy.IsFixed()
                  then ReservedPlacement(req, req.reservation.value, length)
                  else Ok(Placement(0, 0, length));
    match placed
    case Err(e) => Err(e)
    case Ok(pl) =>
      var adjustedSize := AlignRangeUp(Add(pl.length, pl.adjustment));
      if pl.allocation == 0 then Ok(Plan(pl.length, 0, req.fileOffset % PAGE_SIZE, adjustedSize))
      else Ok(Plan(pl.length, pl.allocation, pl.adjustment, adjustedSize))
  }

  /** Everything MmMapFileSection decides before it consults the
      accountant (load.c:159-279): the checks come first, in order, and
      only a request that passes them is placed. */
  function PlanMapping(req: MapRequest, currentIsKernel: bool, fileSize: Result<ULongLong>): (r: Result<Plan>)
    ensures AccessCheck(req, currentIsKernel) != Success ==> r == Err(AccessCheck(req, currentIsKernel))
    ensures AccessCheck(req, currentIsKernel) == Success && EffectiveLength(req, fileSize).Err? ==>
      r == Err(EffectiveLength(req, fileSize).error)
    ensures AccessCheck(req, currentIsKernel) == Success && EffectiveLength(req, fileSize).Ok? ==>
      r == PlanPlacement(req, EffectiveLength(req, fileSize).value)
  {
    var check := AccessCheck(req, currentIsKernel);
    if check != Success then Err(check)
    else match EffectiveLength(req, fileSize)
      case Err(e) => Err(e)
      case Ok(length) => PlanPlacement(req, length)
  }

  /** The section MmpAddImageSection is asked to create. */
  function NewSection(req: MapRequest, allocation: UIntN, plan: Plan): ImageSection
    requires plan.adjustment <= req.fileOffset
  {
    ImageSection(allocation, plan.adjustedSize, req.flags, req.flags.writable, req.handle,
                 req.fileOffset - plan.adjustment)
  }

  /** The observable outcome of MmMapFileSection: the status, *FileMapping
      on return, the accountant and registry of the target address space,
      and the range the cleanup path handed back to the accountant. */
  datatype MapResult = MapResult(
    status: Status,
    mapping: UIntN,
    used: set<int>,
    sections: seq<ImageSection>,
    freed: Option<(UIntN, UIntN)>)

  /** MmMapFileSection as a function of the target address space's state. */
  function MapSpec(used: set<int>, sections: seq<ImageSection>, currentIsKernel: bool,
                   req: MapRequest, oracle: MapOracle): MapResult
  {
    match PlanMapping(req, currentIsKernel, oracle.fileSize)
    case Err(e) => MapResult(e, req.requested, used, sections, None)
    case Ok(plan) =>
      if plan.allocation != 0 then
        if oracle.addSection == Success
        then MapResult(Success, Add(plan.allocation, plan.adjustment), used,
                       sections + [NewSection(req, plan.allocation, plan)], None)
        else MapResult(oracle.addSection, req.requested, used, sections, None)
      else
        match Allocation(used, plan.adjustedSize, req.strategy, req.requested, oracle.allocator)
        case Err(e) => MapResult(e, req.requested, used, sections, None)
        case Ok(a) =>
          var grown := used + Pages(a, plan.adjustedSize);
          if oracle.addSection == Success
          then MapResult(Success, Add(a, plan.adjustment), grown,
                         sections + [NewSection(req, a, plan)], None)
          else MapResult(oracle.addSection, req.requested,
                         if oracle.rollbackFree == Success then grown - Pages(a, plan.adjustedSize) else grown,
                         sections, Some((a, plan.adjustedSize)))
  }

  /** The early checks fail before any state is touched. */
  lemma EarlyErrorsTouchNothing(used: set<int>, sections: seq<ImageSection>, currentIsKernel: bool,
                                req: MapRequest, oracle: MapOracle)
    requires AccessCheck(req, currentIsKernel) != Success
    ensures var r := MapSpec(used, sections, currentIsKernel, req, oracle);
      && r.status == AccessCheck(req, currentIsKernel)
      && r.status in {InvalidParameter, AccessDenied}
      && r.mapping == req.requested && r.used == used && r.sections == sections && r.freed == None
  {
  }

  /** With INVALID_HANDLE no permission is checked: the plan is the one a
      handle granting every access would get. */
  lemma InvalidHandleSkipsPermissionChecks(req: MapRequest, currentIsKernel: bool,
                                           fileSize: Result<ULongLong>, io: IoHandle)
    requires req.handle.InvalidFileHandle?
    requires io.access == Access(true, true, true)
    ensures PlanMapping(req, currentIsKernel, fileSize) ==
            PlanMapping(req.(handle := Handle(io)), currentIsKernel, fileSize)
  {
    var full := req.(handle := Handle(io));
    assert AccessCheck(req, currentIsKernel) == AccessCheck(full, currentIsKernel);
    assert EffectiveLength(req, fileSize) == EffectiveLength(full, fileSize);
    forall length: UIntN
      ensures PlanPlacement(req, length) == PlanPlacement(full, length)
    {
      if req.reservation.Some? {
        assert ReservedPlacement(req, req.reservation.value, length) ==
               ReservedPlacement(full, full.reservation.value, length);
      }
    }
  }

  /** A zero length maps the rest of the file: with the offset inside the
      file the length is FileSize - FileOffset, and an offset past the end
      by less than 2^64 - 2^32 wraps to a 64-bit difference too large for a
      32-bit mapping, which is NotSupported. */
  lemma ZeroLengthMapsToEndOfFile(req: MapRequest, fileSize: ULongLong)
    requires req.sectionLength == 0
    ensures req.fileOffset <= fileSize && fileSize - req.fileOffset <= MAX_UINTN ==>
      EffectiveLength(req, Ok(fileSize)) == Ok(fileSize - req.fileOffset)
    ensures req.fileOffset <= fileSize && fileSize - req.fileOffset > MAX_UINTN ==>
      EffectiveLength(req, Ok(fileSize)) == Err(NotSupported)
    ensures fileSize < req.fileOffset < fileSize + ULONGLONG_LIMIT - UINTN_LIMIT + 1 ==>
      EffectiveLength(req, Ok(fileSize)) == Err(NotSupported)
  {
    if fileSize < req.fileOffset {
      assert Sub64(fileSize, req.fileOffset) == fileSize - req.fileOffset + ULONGLONG_LIMIT;
    }
  }

  /** Without a preset allocation (no reservation, a non-fixed strategy,
      or a reserved address inside page 0) the adjustment becomes
      FileOffset mod PageSize, so the section's backing offset is page
      aligned; the size to allocate is still the length rounded up after
      adding the reservation path's adjustment, which is 0 off that path. */
  lemma FreshAllocationLayout(req: MapRequest, length: UIntN)
    requires PlanPlacement(req, length).Ok? && PlanPlacement(req, length).value.allocation == 0
    ensures var p := PlanPlacement(req, length).value;
      && IsPageAligned(req.fileOffset - p.adjustment)
      && p.adjustedSize == AlignRangeUp(Add(p.length, if req.reservation.Some? && req.strategy.IsFixed()
                                                      then req.requested % PAGE_SIZE else 0))
      && (req.reservation.None? || !req.strategy.IsFixed() ==> p.length == length)
  {
  }

  /** The reservation path: the allocation is the requested address
      rounded down to its page and the returned address is the requested
      address itself.  With a page-aligned reservation that does not wrap
      and a page-aligned request whose range does not wrap, the section
      lies inside the reservation. */
  lemma ReservedSectionInsideReservation(req: MapRequest, length: UIntN)
    requires req.reservation.Some? && req.strategy.IsFixed()
    requires IsPageAligned(req.reservation.value.virtualBase) && IsPageAligned(req.reservation.value.size)
    requires NoWrap(req.reservation.value.virtualBase, req.reservation.value.size)
    requires IsPageAligned(req.requested) && length != 0 && NoWrap(req.requested, length)
    requires PlanPlacement(req, length).Ok? && PlanPlacement(req, length).value.allocation != 0
    ensures var p := PlanPlacement(req, length).value;
      var res := req.reservation.value;
      && p.allocation == req.requested && p.adjustment == 0
      && 0 < p.adjustedSize
      && res.virtualBase <= p.allocation
      && p.allocation + p.adjustedSize <= res.virtualBase + res.size
  {
    var res := req.reservation.value;
    ReservedPlacementInside(req, res, length);
    var pl := ReservedPlacement(req, res, length).value;
    var p := PlanPlacement(req, length).value;
    assert p.allocation == req.requested && p.adjustment == 0;
    assert p.adjustedSize == AlignRangeUp(pl.length);
    RoundedRangeInside(req.requested, pl.length, res.virtualBase + res.size);
  }

  /** A non-empty range from a page-aligned start that ends by a
      page-aligned limit still ends by it once its size is rounded up. */
  lemma RoundedRangeInside(start: UIntN, size: UIntN, limit: int)
    requires IsPageAligned(start) && IsPageAligned(limit) && 0 < start && 0 < size
    requires start + size <= limit < UINTN_LIMIT
    ensures 0 < AlignRangeUp(size) && start + AlignRangeUp(size) <= limit
  {
    AlignRangeUpBelow(size, limit - start);
  }

  /** The arithmetic of ReservedSectionInsideReservation on the placement
      itself: a page-aligned request is placed at itself, with no
      adjustment, and its clipped length ends inside the reservation. */
  lemma ReservedPlacementInside(req: MapRequest, res: Reservation, length: UIntN)
    requires IsPageAligned(res.virtualBase) && IsPageAligned(res.size) && NoWrap(res.virtualBase, res.size)
    requires IsPageAligned(req.requested) && length != 0 && NoWrap(req.requested, length)
    requires ReservedPlacement(req, res, length).Ok?
    ensures var pl := ReservedPlacement(req, res, length).value;
      && pl.allocation == req.requested && pl.adjustment == 0
      && 0 < pl.length
      && req.requested + pl.length <= res.virtualBase + res.size
  {
  }

  /** What success means: the section was created, the registry gained
      exactly that section at its end, the returned
      address is the allocation plus the adjustment (inside the section's
      first page), and the accountant either kept a preset allocation or
      gained exactly the freshly allocated, previously free range. */
  lemma MapSuccess(used: set<int>, sections: seq<ImageSection>, currentIsKernel: bool,
                   req: MapRequest, oracle: MapOracle)
    requires MapSpec(used, sections, currentIsKernel, req, oracle).status == Success
    ensures var r := MapSpec(used, sections, currentIsKernel, req, oracle);
      var p := PlanMapping(req, currentIsKernel, oracle.fileSize);
      && p.Ok? && oracle.addSection == Success && r.freed == None
      && |r.sections| == |sections| + 1 && r.sections[..|sections|] == sections
      && var s := r.sections[|sections|];
      && IsPageAligned(s.address) && s.size == p.value.adjustedSize
      && s.fileOffset == req.fileOffset - p.value.adjustment && s.flags == req.flags
      && r.mapping == s.address + p.value.adjustment
      && r.mapping % PAGE_SIZE == p.value.adjustment
      && (p.value.allocation != 0 ==> s.address == p.value.allocation && r.used == used && r.mapping == req.requested)
      && (p.value.allocation == 0 ==>
            && oracle.allocator.Granted? && s.address == oracle.allocator.address
            && RangeFree(used, s.address, s.size)
            && r.used == used + Pages(s.address, s.size))
  {
    var r := MapSpec(used, sections, currentIsKernel, req, oracle);
    var p := PlanMapping(req, currentIsKernel, oracle.fileSize).value;
    if p.allocation == 0 {
      var a := oracle.allocator.address;
      assert Placeable(used, a, p.adjustedSize, req.strategy, req.requested);
      assert NoWrap(a, p.adjustedSize);
      assert a + p.adjustment < UINTN_LIMIT;
    }
  }

  /** Rollback: every failure leaves *FileMapping and the registry as they
      were; the accountant is as it was unless a freshly allocated range
      could not be handed back, and the range handed back is exactly
      (Allocation, AdjustedSize) of that fresh allocation. */
  lemma MapFailureRollsBack(used: set<int>, sections: seq<ImageSection>, currentIsKernel: bool,
                            req: MapRequest, oracle: MapOracle)
    requires MapSpec(used, sections, currentIsKernel, req, oracle).status != Success
    ensures var r := MapSpec(used, sections, currentIsKernel, req, oracle);
      && r.mapping == req.requested
      && r.sections == sections
      && (oracle.rollbackFree == Success ==> r.used == used)
      && (r.freed.Some? <==>
            && PlanMapping(req, currentIsKernel, oracle.fileSize).Ok?
            && PlanMapping(req, currentIsKernel, oracle.fileSize).value.allocation == 0
            && oracle.allocator.Granted?
            && Allocation(used, PlanMapping(req, currentIsKernel, oracle.fileSize).value.adjustedSize,
                          req.strategy, req.requested, oracle.allocator).Ok?)
      && (r.freed.Some? ==>
            && r.freed.value == (oracle.allocator.address,
                                 PlanMapping(req, currentIsKernel, oracle.fileSize).value.adjustedSize)
            && oracle.addSection != Success)
  {
    var r := MapSpec(used, sections, currentIsKernel, req, oracle);
    if r.freed.Some? {
      var (a, size) := r.freed.value;
      AllocateThenFreeRestores(used, a, size);
    }
  }

  /** MmMapFileSection.  The target address space is the kernel's when
      `kernelSpace` is set, otherwise the current process's; the current
      process is the kernel process exactly when the two are the same
      object. */
  method MapFileSection(process: AddressSpace, kernel: AddressSpace, kernelSpace: bool,
                        req: MapRequest, oracle: MapOracle)
    returns (status: Status, mapping: UIntN)
    modifies process, kernel
    ensures var space := if kernelSpace then kernel else process;
      var r := MapSpec(old(space.used), old(space.sections), process == kernel, req, oracle);
      status == r.status && mapping == r.mapping && space.used == r.used && space.sections == r.sections
    ensures process != kernel ==> if kernelSpace then unchanged(process) else unchanged(kernel)
  {
    var space := if kernelSpace then kernel else process;
    status, mapping := MapIn(space, process == kernel, req, oracle);
  }

  /** The body of MmMapFileSection once the target address space is
      chosen, with its single cleanup path at the end. */
  method MapIn(space: AddressSpace, currentIsKernel: bool, req: MapRequest, oracle: MapOracle)
    returns (status: Status, mapping: UIntN)
    modifies space
    ensures var r := MapSpec(old(space.used), old(space.sections), currentIsKernel, req, oracle);
      status == r.status && mapping == r.mapping && space.used == r.used && space.sections == r.sections
  {
    status := Success;
    mapping := req.requested;
    var rangeAllocated := false;
    var allocation: UIntN := 0;
    var adjustedSize: UIntN := 0;
    var plan := PlanMapping(req, currentIsKernel, oracle.fileSize);
    if plan.Err? {
      status := plan.error;
    } else {
      var p := plan.value;
      allocation := p.allocation;
      adjustedSize := p.adjustedSize;
      if allocation == 0 {
        var got := space.Allocate(adjustedSize, req.strategy, req.requested, oracle.allocator);
        if got.Err? {
          status := got.error;
        } else {
          allocation := got.value;
          rangeAllocated := true;
        }
      }
      if status == Success {
        assert allocation != 0 ==> NoWrap(allocation, p.adjustment) by {
          if rangeAllocated {
            assert Placeable(old(space.used), allocation, adjustedSize, req.strategy, req.requested);
          }
        }
        status := space.AddSection(NewSection(req, allocation, p), oracle.addSection);
        if status == Success {
          mapping := Add(allocation, p.adjustment);
        }
      }
    }
    // MapFileSectionEnd: hand a fresh range back on failure.
    if status != Success && rangeAllocated {
      var _ := space.FreeRange(allocation, adjustedSize, oracle.rollbackFree);
    }
  }

  /** The observable outcome of MmUnmapFileSection on the selected address
      space. */
  datatype UnmapResult = UnmapResult(status: Status, used: set<int>, sections: seq<ImageSection>)

  /** MmUnmapFileSection (load.c:393-453) as a function of the selected
      address space: the size is rounded up to a page, the region is
      unmapped, and only without a reservation is the range handed back to
      the accountant, whose answer does not affect the status. */
  function UnmapSpec(used: set<int>, sections: seq<ImageSection>, address: UIntN, size: UIntN,
                     reservation: Option<Reservation>, regionOutcome: Status, freeOutcome: Status): UnmapResult
  {
    var aligned := AlignRangeUp(size);
    if regionOutcome != Success then UnmapResult(regionOutcome, used, sections)
    else UnmapResult(Success,
                     if reservation.None? && freeOutcome == Success then used - Pages(address, aligned) else used,
                     RemoveRange(sections, address, address + aligned))
  }

  /** After a successful unmap no section of the registry meets the
      unmapped range, and no page of it stays accounted when it was freed
      without a reservation. */
  lemma UnmapClearsRange(used: set<int>, sections: seq<ImageSection>, address: UIntN, size: UIntN,
                         freeOutcome: Status)
    ensures var r := UnmapSpec(used, sections, address, size, None, Success, freeOutcome);
      var end := address + AlignRangeUp(size);
      && r.status == Success
      && (forall t :: t in r.sections ==> t.address + t.size <= address || end <= t.address)
      && (freeOutcome == Success ==> forall q :: q in r.used && IsPageAligned(q) ==> !(address <= q < end))
  {
    var r := UnmapSpec(used, sections, address, size, None, Success, freeOutcome);
    forall t | t in r.sections
      ensures t.address + t.size <= address || address + AlignRangeUp(size) <= t.address
    {
      RemoveRangePiece(sections, address, address + AlignRangeUp(size), t);
    }
  }

  /** The status of an unmap is the region unmap's own: a failed region
      unmap changes nothing, a successful one reports success whatever the
      accountant answered.  The accountant only ever loses pages, and only
      without a reservation; sections clear of the range survive. */
  lemma UnmapOutcome(used: set<int>, sections: seq<ImageSection>, address: UIntN, size: UIntN,
                     reservation: Option<Reservation>, regionOutcome: Status, freeOutcome: Status)
    ensures var r := UnmapSpec(used, sections, address, size, reservation, regionOutcome, freeOutcome);
      && (r.status == Success <==> regionOutcome == Success)
      && (regionOutcome != Success ==> r.status == regionOutcome && r.used == used && r.sections == sections)
      && r.used <= used
      && (reservation.Some? || freeOutcome != Success ==> r.used == used)
      && (regionOutcome == Success ==>
            forall s :: s in sections && (s.address + s.size <= address || address + AlignRangeUp(size) <= s.address)
                        ==> s in r.sections)
  {
    if regionOutcome == Success {
      forall s | s in sections && (s.address + s.size <= address || address + AlignRangeUp(size) <= s.address)
        ensures s in RemoveRange(sections, address, address + AlignRangeUp(size))
      {
        RemoveRangeKeepsClear(sections, address, address + AlignRangeUp(size), s);
      }
    }
  }

  /** The body of MmUnmapFileSection once the address space is chosen. */
  method UnmapIn(space: AddressSpace, address: UIntN, size: UIntN, reservation: Option<Reservation>,
                 regionOutcome: Status, freeOutcome: Status)
    returns (status: Status)
    modifies space
    ensures var r := UnmapSpec(old(space.used), old(space.sections), address, size, reservation,
                               regionOutcome, freeOutcome);
      status == r.status && space.used == r.used && space.sections == r.sections
  {
    var alignedSize := AlignRangeUp(size);
    status := space.UnmapRegion(address, alignedSize, regionOutcome);
    if status != Success {
      return;
    }
    if reservation.None? {
      // A failure to release the accounting range is not reported.
      var _ := space.FreeRange(address, alignedSize, freeOutcome);
    }
    status := Success;
  }

  /** MmUnmapFileSection.  An address above KERNEL_VA_START selects the
      kernel's address space, any other address (KERNEL_VA_START itself
      included) the given process's. */
  method UnmapFileSection(process: AddressSpace, kernel: AddressSpace, address: UIntN, size: UIntN,
                          reservation: Option<Reservation>, regionOutcome: Status, freeOutcome: Status)
    returns (status: Status)
    modifies process, kernel
    ensures var space := if address > KERNEL_VA_START then kernel else process;
      UnmapResult(status, space.used, space.sections) ==
      UnmapSpec(old(space.used), old(space.sections), address, size, reservation,
                regionOutcome, freeOutcome)
    ensures process != kernel ==>
      if address > KERNEL_VA_START then unchanged(process) else unchanged(kernel)
  {
    var space := process;
    if address > KERNEL_VA_START {
      space := kernel;
    }
    status := UnmapIn(space, address, size, reservation, regionOutcome, freeOutcome);
  }
}
