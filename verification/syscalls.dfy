/** The user-mode entry points MmSysMapOrUnmapMemory and
    MmSysSetMemoryProtection: validation of the untrusted parameter block,
    translation of the user-mode flags, and the calls they make. */
module MemorySyscalls {
  import opened Machine
  import opened KernelStatus
  import opened ImageSections
  import opened FileMapping

  /** The SYS_MAP_FLAG_* bits of a user request. */
  datatype SysMapFlags = SysMapFlags(
    read: bool,
    write: bool,
    execute: bool,
    shared: bool,
    fixed: bool,
    anonymous: bool)

  /** The section flags the map path asks for: every mapping made through
      the system call is marked as such, execute and write each imply read,
      and sharing is kept. */
  function MapSectionFlags(f: SysMapFlags): (s: SectionFlags)
    ensures s.mapSystemCall
    ensures s.readable <==> f.read || f.write || f.execute
    ensures s.writable == f.write && s.executable == f.execute && s.shared == f.shared
  {
    SectionFlags(f.read || f.execute || f.write, f.write, f.execute, f.shared, true)
  }

  /** The section flags the protection path asks for: each access bit on
      its own, with no implied read. */
  function ProtectionFlags(f: SysMapFlags): (s: SectionFlags)
    ensures s.readable == f.read && s.writable == f.write && s.executable == f.execute
    ensures !s.shared && !s.mapSystemCall
  {
    SectionFlags(f.read, f.write, f.execute, false, false)
  }

  /** The two translations agree on write and execute; only the map path
      adds read for a writable or executable request, so a write-only or
      execute-only protection change yields a section the map path could
      never have produced. */
  lemma MapAndProtectionFlagsAgree(f: SysMapFlags)
    ensures MapSectionFlags(f).writable == ProtectionFlags(f).writable
    ensures MapSectionFlags(f).executable == ProtectionFlags(f).executable
    ensures MapSectionFlags(f).readable ==
            (ProtectionFlags(f).readable || ProtectionFlags(f).writable || ProtectionFlags(f).executable)
    ensures (f.write || f.execute) && !f.read ==> MapSectionFlags(f).readable != ProtectionFlags(f).readable
  {
  }

  /** The access an anonymous shared memory object is opened with: read
      for any of read, write and execute, plus write and execute as asked. */
  function AnonymousAccess(f: SysMapFlags): (a: Access)
    ensures a.read <==> f.read || f.write || f.execute
    ensures a.write == f.write && a.execute == f.execute
  {
    Access(f.read || f.write || f.execute, f.write, f.execute)
  }

  /** The range check shared by the map/unmap and protection calls on the
      page-rounded size: a page-aligned start, an end below KERNEL_VA_START,
      and an end that does not wrap. */
  predicate UserRangeValid(address: UIntN, alignedSize: UIntN) {
    && IsPageAligned(address)
    && Add(address, alignedSize) < KERNEL_VA_START
    && Add(address, alignedSize) > address
  }

  /** The check accepts exactly the non-empty, page-aligned user ranges
      that end below the kernel. */
  lemma UserRangeValidMeans(address: UIntN, alignedSize: UIntN)
    ensures UserRangeValid(address, alignedSize) <==>
      IsPageAligned(address) && 0 < alignedSize && address + alignedSize < KERNEL_VA_START
  {
  }

  /** What the map path has prepared when it calls MmMapFileSection, or
      the status that stopped it first, together with the I/O handle it
      holds a reference on by then. */
  datatype MapPreparation = MapPreparation(status: Status, request: Option<MapRequest>, held: Option<IoHandle>)

  /** The answers of the collaborators of the map/unmap system call:
      IoOpen (the new shared memory object's identity),
      IoSetFileInformation, MmMapFileSection's own collaborators, and
      MmpUnmapImageRegion and MmpFreeAccountingRange for the unmap path. */
  datatype SyscallOracle = SyscallOracle(
    openResult: Result<nat>,
    resized: Status,
    mapping: MapOracle,
    unmapRegion: Status,
    unmapFree: Status)

  /** The backing handle, the file offset and the reference held (load.c:558-657). */
  function PrepareBacking(offset: ULongLong, alignedSize: UIntN, handleValue: nat, f: SysMapFlags,
                          handles: map<nat, IoHandle>, oracle: SyscallOracle): (p: MapPreparation)
    ensures p.request.None?
  {
    if !IsPageAligned(offset) || Add64(offset, alignedSize) <= offset then
      MapPreparation(InvalidParameter, None, None)
    else if !f.anonymous then
      if handleValue !in handles then MapPreparation(InvalidHandle, None, None)
      else
        var io := handles[handleValue];
        if !io.cacheable then MapPreparation(NoEligibleDevices, None, Some(io))
        else MapPreparation(Success, None, Some(io))
    else if f.shared then
      match oracle.openResult
      case Err(e) => MapPreparation(e, None, None)
      case Ok(id) =>
        var io := IoHandle(id, AnonymousAccess(f), true);
        MapPreparation(oracle.resized, None, Some(io))
    else MapPreparation(Success, None, None)
  }

  /** The whole map path up to the call of MmMapFileSection (load.c:549-712). */
  function PrepareMap(address: UIntN, alignedSize: UIntN, offset: ULongLong, handleValue: nat,
                      f: SysMapFlags, handles: map<nat, IoHandle>, oracle: SyscallOracle): (p: MapPreparation)
    ensures p.request.Some? <==> p.status == Success
    ensures p.held == PrepareBacking(offset, alignedSize, handleValue, f, handles, oracle).held
    ensures p.request.Some? ==>
      var req := p.request.value;
      && req.flags == MapSectionFlags(f)
      && req.reservation.None?
      && (IsPageAligned(alignedSize) ==> req.sectionLength == alignedSize)
      && req.requested == address
      && req.strategy == (if f.fixed then FixedAddressClobber
                          else if address != 0 then PreferredAddress else AnyAddress)
      && (f.fixed ==> address != 0)
      && (f.anonymous ==> req.fileOffset == 0)
      && (!f.anonymous ==>
            handleValue in handles && req.fileOffset == offset && req.handle == Handle(handles[handleValue]))
      && (f.anonymous && !f.shared ==> req.handle == InvalidFileHandle)
  {
    var backing := PrepareBacking(offset, alignedSize, handleValue, f, handles, oracle);
    if backing.status != Success then backing
    else
      var handle := if backing.held.Some? then Handle(backing.held.value) else InvalidFileHandle;
      var fileOffset := if f.anonymous then 0 else offset;
      if f.fixed && (!IsPageAligned(address) || Add(address, alignedSize) >= KERNEL_VA_START || address == 0) then
        MapPreparation(InvalidParameter, None, backing.held)
      else
        var strategy := if f.fixed then FixedAddressClobber
                        else if address != 0 then PreferredAddress else AnyAddress;
        var req := MapRequest(handle, fileOffset, AlignRangeUp(alignedSize), MapSectionFlags(f), None,
                              strategy, address);
        MapPreparation(Success, Some(req), backing.held)
  }

  /** The observable outcome of MmSysMapOrUnmapMemory: the status, address
      and size written back to the parameter block, the calling process's
      accountant and registry, and the handle whose reference is released
      on the way out. */
  datatype SyscallOutcome = SyscallOutcome(
    status: Status,
    address: UIntN,
    size: UIntN,
    used: set<int>,
    sections: seq<ImageSection>,
    released: Option<IoHandle>)

  /** MmSysMapOrUnmapMemory (load.c:528-757) as a function of the calling
      process's state. */
  function MapOrUnmapSpec(isMap: bool, address: UIntN, size: UIntN, offset: ULongLong, handleValue: nat,
                          f: SysMapFlags, handles: map<nat, IoHandle>, used: set<int>,
                          sections: seq<ImageSection>, oracle: SyscallOracle): SyscallOutcome
  {
    var aligned := AlignRangeUp(size);
    if !UserRangeValid(address, aligned) then
      SyscallOutcome(InvalidParameter, address, aligned, used, sections, None)
    else if isMap then
      var prep := PrepareMap(address, aligned, offset, handleValue, f, handles, oracle);
      if prep.status != Success then
        SyscallOutcome(prep.status, address, aligned, used, sections, prep.held)
      else
        var r := MapSpec(used, sections, false, prep.request.value, oracle.mapping);
        SyscallOutcome(r.status, r.mapping, aligned, r.used, r.sections, prep.held)
    else if address == 0 then
      SyscallOutcome(InvalidParameter, address, aligned, used, sections, None)
    else
      var u := UnmapSpec(used, sections, address, aligned, None, oracle.unmapRegion, oracle.unmapFree);
      SyscallOutcome(u.status, address, aligned, u.used, u.sections, None)
  }

  /** The offset checks of the map path (load.c:559-571): a page-aligned
      offset whose sum with the size does not wrap in 64 bits. */
  predicate OffsetValid(offset: ULongLong, alignedSize: UIntN) {
    IsPageAligned(offset) && Add64(offset, alignedSize) > offset
  }

  /** Each check of the map path fails with its own status, in source
      order: the offset checks, a missing handle, a handle that is not
      cacheable (whose reference is then held), a failed IoOpen, a failed
      resize of the new shared memory object (whose reference is held),
      and a fixed request at NULL once the handle is in place. */
  lemma MapValidationStatuses(address: UIntN, alignedSize: UIntN, offset: ULongLong, handleValue: nat,
                              f: SysMapFlags, handles: map<nat, IoHandle>, oracle: SyscallOracle)
    ensures var p := PrepareMap(address, alignedSize, offset, handleValue, f, handles, oracle);
      && (!IsPageAligned(offset) ==> p.status == InvalidParameter && p.held.None?)
      && (IsPageAligned(offset) && Add64(offset, alignedSize) <= offset ==>
            p.status == InvalidParameter && p.held.None?)
      && (OffsetValid(offset, alignedSize) && !f.anonymous && handleValue !in handles ==>
            p.status == InvalidHandle && p.held.None?)
      && (OffsetValid(offset, alignedSize) && !f.anonymous && handleValue in handles
          && !handles[handleValue].cacheable ==>
            p.status == NoEligibleDevices && p.held == Some(handles[handleValue]))
      && (OffsetValid(offset, alignedSize) && f.anonymous && f.shared && oracle.openResult.Err? ==>
            p.status == oracle.openResult.error && p.held.None?)
      && (OffsetValid(offset, alignedSize) && f.anonymous && f.shared && oracle.openResult.Ok?
          && oracle.resized != Success ==>
            p.status == oracle.resized && p.held.Some? && p.held.value.id == oracle.openResult.value)
      && (OffsetValid(offset, alignedSize)
          && (if f.anonymous then f.shared ==> oracle.openResult.Ok? && oracle.resized == Success
              else handleValue in handles && handles[handleValue].cacheable)
          && f.fixed && address == 0 ==>
            p.status == InvalidParameter)
  {
  }

  /** Validation errors are reported before anything changes: the range
      check, every failure of the map path before MmMapFileSection (with
      the status that path chose and the reference it holds), and an
      unmap at NULL leave the process's accountant, registry and
      requested address untouched. */
  lemma SyscallValidationTouchesNothing(isMap: bool, address: UIntN, size: UIntN, offset: ULongLong,
                                        handleValue: nat, f: SysMapFlags, handles: map<nat, IoHandle>,
                                        used: set<int>, sections: seq<ImageSection>, oracle: SyscallOracle)
    ensures var o := MapOrUnmapSpec(isMap, address, size, offset, handleValue, f, handles, used, sections, oracle);
      var aligned := AlignRangeUp(size);
      var prep := PrepareMap(address, aligned, offset, handleValue, f, handles, oracle);
      && o.size == aligned
      && (!UserRangeValid(address, aligned) ==>
            && o.status == InvalidParameter && o.released.None?
            && o.address == address && o.used == used && o.sections == sections)
      && (isMap && UserRangeValid(address, aligned) && prep.status != Success ==>
            && o.status == prep.status && o.released == prep.held
            && o.address == address && o.used == used && o.sections == sections)
      && (!isMap && UserRangeValid(address, aligned) && address == 0 ==>
            && o.status == InvalidParameter && o.released.None?
            && o.address == address && o.used == used && o.sections == sections)
  {
  }

  /** A handle reference is released exactly when one was taken: a handle
      found in the table (even one then refused as not cacheable) or a
      shared memory object IoOpen created; private anonymous mappings,
      unmaps and rejected requests hold none. */
  lemma SyscallReleasesWhatItHolds(isMap: bool, address: UIntN, size: UIntN, offset: ULongLong,
                                   handleValue: nat, f: SysMapFlags, handles: map<nat, IoHandle>,
                                   used: set<int>, sections: seq<ImageSection>, oracle: SyscallOracle)
    ensures var o := MapOrUnmapSpec(isMap, address, size, offset, handleValue, f, handles, used, sections, oracle);
      var aligned := AlignRangeUp(size);
      o.released.Some? <==>
        && isMap && UserRangeValid(address, aligned)
        && IsPageAligned(offset) && Add64(offset, aligned) > offset
        && (if f.anonymous then f.shared && oracle.openResult.Ok? else handleValue in handles)
    ensures var o := MapOrUnmapSpec(isMap, address, size, offset, handleValue, f, handles, used, sections, oracle);
      o.released.Some? && !f.anonymous ==> o.released == Some(handles[handleValue])
  {
    var aligned := AlignRangeUp(size);
    if isMap && UserRangeValid(address, aligned) {
      var prep := PrepareMap(address, aligned, offset, handleValue, f, handles, oracle);
      assert prep.held == PrepareBacking(offset, aligned, handleValue, f, handles, oracle).held;
    }
  }

  /** An anonymous shared mapping is backed by an object opened with
      AnonymousAccess, which MmMapFileSection's permission check accepts
      exactly when at least one of read, write and execute was asked for. */
  lemma AnonymousSharedNeedsSomeAccess(f: SysMapFlags, id: nat, currentIsKernel: bool, req: MapRequest)
    requires f.anonymous && f.shared
    requires req.handle == Handle(IoHandle(id, AnonymousAccess(f), true))
    requires req.flags == MapSectionFlags(f) && !req.strategy.FixedAddressClobber?
    ensures AccessCheck(req, currentIsKernel) == if f.read || f.write || f.execute then Success else AccessDenied
  {
  }

  /** A successful map through the system call returns a page-aligned
      address, since the file offset it passes is page aligned (0 for
      anonymous memory); a fixed request returns the requested address
      itself. */
  lemma SyscallMapResultAligned(address: UIntN, size: UIntN, offset: ULongLong, handleValue: nat,
                                f: SysMapFlags, handles: map<nat, IoHandle>, used: set<int>,
                                sections: seq<ImageSection>, oracle: SyscallOracle)
    requires MapOrUnmapSpec(true, address, size, offset, handleValue, f, handles, used, sections, oracle).status == Success
    ensures var o := MapOrUnmapSpec(true, address, size, offset, handleValue, f, handles, used, sections, oracle);
      && IsPageAligned(o.address)
      && (f.fixed ==> o.address == address)
      && |o.sections| == |sections| + 1
  {
    var aligned := AlignRangeUp(size);
    var prep := PrepareMap(address, aligned, offset, handleValue, f, handles, oracle);
    var req := prep.request.value;
    MapSuccess(used, sections, false, req, oracle.mapping);
    var p := PlanMapping(req, false, oracle.mapping.fileSize).value;
    assert p.allocation == 0;
    assert IsPageAligned(req.fileOffset);
  }

  /** SYSTEM_CALL_MAP_UNMAP_MEMORY, the parameter block the call reads and
      writes back in place. */
  class MapUnmapParameters {
    var isMap: bool
    var address: UIntN
    var size: UIntN
    var offset: ULongLong
    var handle: nat
    var flags: SysMapFlags
    var status: Status

    constructor (isMap: bool, address: UIntN, size: UIntN, offset: ULongLong, handle: nat, flags: SysMapFlags)
      ensures this.isMap == isMap && this.address == address && this.size == size
      ensures this.offset == offset && this.handle == handle && this.flags == flags
      ensures this.status == Success
    {
      this.isMap := isMap;
      this.address := address;
      this.size := size;
      this.offset := offset;
      this.handle := handle;
      this.flags := flags;
      this.status := Success;
    }
  }

  /** MmSysMapOrUnmapMemory.  `handles` is the calling process's handle
      table; the returned handle is the one whose reference is released on
      the way out. */
  method SysMapOrUnmapMemory(params: MapUnmapParameters, process: AddressSpace, kernel: AddressSpace,
                             handles: map<nat, IoHandle>, oracle: SyscallOracle)
    returns (released: Option<IoHandle>)
    requires process != kernel
    modifies params, process, kernel
    ensures var o := MapOrUnmapSpec(old(params.isMap), old(params.address), old(params.size), old(params.offset),
                                    old(params.handle), old(params.flags), handles,
                                    old(process.used), old(process.sections), oracle);
      && params.status == o.status && params.address == o.address && params.size == o.size
      && process.used == o.used && process.sections == o.sections
      && released == o.released
    ensures params.isMap == old(params.isMap) && params.offset == old(params.offset)
    ensures params.handle == old(params.handle) && params.flags == old(params.flags)
    ensures unchanged(kernel)
  {
    released := None;
    params.size := AlignRangeUp(params.size);
    if !UserRangeValid(params.address, params.size) {
      params.status := InvalidParameter;
      return;
    }
    if params.isMap {
      var prep := PrepareMap(params.address, params.size, params.offset, params.handle, params.flags,
                             handles, oracle);
      released := prep.held;
      if prep.status != Success {
        params.status := prep.status;
        return;
      }
      var status, mapping := MapFileSection(process, kernel, false, prep.request.value, oracle.mapping);
      params.status := status;
      params.address := mapping;
    } else {
      if params.address == 0 {
        params.status := InvalidParameter;
        return;
      }
      var status := UnmapFileSection(process, kernel, params.address, params.size, None,
                                     oracle.unmapRegion, oracle.unmapFree);
      params.status := status;
    }
  }

  /** The access change MmSysSetMemoryProtection asks for, or the status
      that stopped it (load.c:812-847). */
  function ProtectionRequest(address: UIntN, alignedSize: UIntN, attributes: SysMapFlags)
    : (r: Result<SectionFlags>)
    ensures r.Err? ==> r.error == InvalidParameter
    ensures r.Ok? <==> UserRangeValid(address, alignedSize) && address != 0
    ensures r.Ok? ==> r.value == ProtectionFlags(attributes)
  {
    if !IsPageAligned(address) || address == 0 || Add(address, alignedSize) >= KERNEL_VA_START
       || Add(address, alignedSize) <= address then Err(InvalidParameter)
    else Ok(ProtectionFlags(attributes))
  }

  /** SYSTEM_CALL_SET_MEMORY_PROTECTION. */
  class ProtectionParameters {
    var address: UIntN
    var size: UIntN
    var newAttributes: SysMapFlags
    var status: Status

    constructor (address: UIntN, size: UIntN, newAttributes: SysMapFlags)
      ensures this.address == address && this.size == size && this.newAttributes == newAttributes
      ensures this.status == Success
    {
      this.address := address;
      this.size := size;
      this.newAttributes := newAttributes;
      this.status := Success;
    }
  }

  /** MmSysSetMemoryProtection.  MmChangeImageSectionRegionAccess is not
      part of this model: the call it would receive is returned, and
      `changeOutcome` is its answer. */
  method SysSetMemoryProtection(params: ProtectionParameters, changeOutcome: Status)
    returns (change: Option<(UIntN, UIntN, SectionFlags)>)
    modifies params
    ensures params.size == AlignRangeUp(old(params.size))
    ensures params.address == old(params.address) && params.newAttributes == old(params.newAttributes)
    ensures var r := ProtectionRequest(old(params.address), params.size, old(params.newAttributes));
      && (r.Err? ==> change.None? && params.status == r.error)
      && (r.Ok? ==> change == Some((params.address, params.size, r.value)) && params.status == changeOutcome)
  {
    params.size := AlignRangeUp(params.size);
    var request := ProtectionRequest(params.address, params.size, params.newAttributes);
    if request.Err? {
      params.status := request.error;
      change := None;
    } else {
      change := Some((params.address, params.size, request.value));
      params.status := changeOutcome;
    }
  }
}
