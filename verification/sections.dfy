/** Image sections, the section registry and the address-space accountant.
    The bodies of the memory manager's internal collaborators
    (MmpAllocateAddressRange, MmpAddImageSection, MmpFreeAccountingRange,
    MmpUnmapImageRegion) are not part of this model: each is represented
    here by its effect on abstract state, with the collaborator's own
    answer (the address it picked, the status it returned) supplied as an
    oracle argument. */
module ImageSections {
  import opened Machine
  import opened KernelStatus

  /** IO_ACCESS_READ / IO_ACCESS_WRITE / IO_ACCESS_EXECUTE of an I/O handle. */
  datatype Access = Access(read: bool, write: bool, execute: bool)

  /** An open I/O handle: its identity, the access it was opened with and
      whether its file can be cached (IoIoHandleIsCacheable). */
  datatype IoHandle = IoHandle(id: nat, access: Access, cacheable: bool)

  /** The handle given to the mapper; INVALID_HANDLE maps anonymous memory. */
  datatype FileHandle = InvalidFileHandle | Handle(io: IoHandle)

  /** The IMAGE_SECTION_* flags a caller requests for a mapping. */
  datatype SectionFlags = SectionFlags(
    readable: bool,
    writable: bool,
    executable: bool,
    shared: bool,
    mapSystemCall: bool)

  /** One mapped region.  `wasWritable` is IMAGE_SECTION_WAS_WRITABLE: it
      stays set after a protection downgrade. */
  datatype ImageSection = ImageSection(
    address: UIntN,
    size: UIntN,
    flags: SectionFlags,
    wasWritable: bool,
    backing: FileHandle,
    fileOffset: nat)

  /** SectionStart + Size, as pointer arithmetic. */
  function SectionEnd(s: ImageSection): UIntN {
    Add(s.address, s.size)
  }

  /** A section whose end does not wrap. */
  predicate WellFormed(s: ImageSection) {
    NoWrap(s.address, s.size)
  }

  /** The page bases of [start, start + size). */
  function Pages(start: int, size: int): (p: set<int>)
    ensures forall q :: q in p <==> start <= q < start + size && IsPageAligned(q)
  {
    set q | start <= q < start + size && IsPageAligned(q)
  }

  /** ALLOCATION_STRATEGY. */
  datatype Strategy = AnyAddress | PreferredAddress | FixedAddress | FixedAddressClobber {
    predicate IsFixed() {
      FixedAddress? || FixedAddressClobber?
    }
  }

  /** What MmpAllocateAddressRange answered: the address it picked, or the
      failure it reported. */
  datatype AllocatorAnswer = Granted(address: UIntN) | Refused(error: ErrorStatus)

  predicate RangeFree(used: set<int>, start: int, size: int) {
    Pages(start, size) !! used
  }

  /** A placement the accountant may grant for `size` bytes under
      `strategy` with address hint `hint`: page aligned, non-empty, not
      wrapping, free, exactly the hint for the fixed strategies, and the
      hint itself for the preferred strategy whenever the hint is free. */
  predicate Placeable(used: set<int>, address: UIntN, size: UIntN, strategy: Strategy, hint: UIntN) {
    && size > 0
    && IsPageAligned(address)
    && NoWrap(address, size)
    && RangeFree(used, address, size)
    && (strategy.IsFixed() ==> address == hint)
    && (strategy.PreferredAddress? && IsPageAligned(hint) && NoWrap(hint, size) && RangeFree(used, hint, size)
        ==> address == hint)
  }

  /** The outcome of an allocation request given the allocator's answer:
      an answer that is not a valid placement is refused with
      OutOfAddressSpace. */
  function Allocation(used: set<int>, size: UIntN, strategy: Strategy, hint: UIntN, answer: AllocatorAnswer): (r: Result<UIntN>)
    ensures r.Ok? <==> answer.Granted? && Placeable(used, answer.address, size, strategy, hint)
    ensures r.Ok? ==> r.value == answer.address && size > 0 && IsPageAligned(r.value) && RangeFree(used, r.value, size)
    ensures answer.Refused? ==> r == Err(answer.error)
  {
    match answer
    case Refused(e) => Err(e)
    case Granted(a) => if Placeable(used, a, size, strategy, hint) then Ok(a) else Err(OutOfAddressSpace)
  }

  /** Pages given out by a successful allocation and freed again leave the
      accountant exactly as it was. */
  lemma AllocateThenFreeRestores(used: set<int>, start: int, size: int)
    requires RangeFree(used, start, size)
    ensures (used + Pages(start, size)) - Pages(start, size) == used
  {
  }

  /** The parts of `s` that lie outside [start, end): nothing when the
      range covers it, one piece when the range cuts off one end, two when
      the range lies strictly inside it. */
  function Trim(s: ImageSection, start: UIntN, end: int): seq<ImageSection>
  {
    var sEnd := s.address + s.size;
    if sEnd <= start || end <= s.address then [s]
    else
      (if s.address < start then [s.(size := start - s.address)] else [])
      + (if end < sEnd && end < UINTN_LIMIT
         then [s.(address := end, size := sEnd - end, fileOffset := s.fileOffset + (end - s.address))]
         else [])
  }

  /** Trim keeps a section the range does not meet, and otherwise leaves
      at most two pieces, each clear of the range and inside the section
      with the section's flags; a piece that starts later is backed by the
      file at the correspondingly later offset. */
  lemma TrimPieces(s: ImageSection, start: UIntN, end: int)
    ensures s.address + s.size <= start || end <= s.address ==> Trim(s, start, end) == [s]
    ensures |Trim(s, start, end)| <= 2
    ensures forall t :: t in Trim(s, start, end) ==>
      && (t.address + t.size <= start || end <= t.address)
      && s.address <= t.address && t.address + t.size <= s.address + s.size && t.flags == s.flags
      && t.fileOffset == s.fileOffset + (t.address - s.address)
  {
  }

  /** The registry after [start, end) is cut out of every section: the
      effect of MmpUnmapImageRegion on the section list. */
  function RemoveRange(sections: seq<ImageSection>, start: UIntN, end: int): seq<ImageSection>
  {
    if sections == [] then []
    else Trim(sections[0], start, end) + RemoveRange(sections[1..], start, end)
  }

  /** Every piece RemoveRange leaves is clear of [start, end), lies within
      one of the original sections and keeps its flags: unmapping never
      creates memory. */
  lemma {:induction false} RemoveRangePiece(sections: seq<ImageSection>, start: UIntN, end: int,
                                            t: ImageSection)
    requires t in RemoveRange(sections, start, end)
    ensures t.address + t.size <= start || end <= t.address
    ensures exists s :: s in sections && s.address <= t.address && t.address + t.size <= s.address + s.size
                        && t.flags == s.flags
  {
    var head := sections[0];
    TrimPieces(head, start, end);
    if t in Trim(head, start, end) {
      assert head in sections;
    } else {
      RemoveRangePiece(sections[1..], start, end, t);
      var s :| s in sections[1..] && s.address <= t.address && t.address + t.size <= s.address + s.size
               && t.flags == s.flags;
      assert s in sections;
    }
  }

  /** A section clear of [start, end) survives RemoveRange unchanged. */
  lemma {:induction false} RemoveRangeKeepsClear(sections: seq<ImageSection>, start: UIntN, end: int,
                                                 s: ImageSection)
    requires s in sections && (s.address + s.size <= start || end <= s.address)
    ensures s in RemoveRange(sections, start, end)
  {
    if sections[0] == s {
      TrimPieces(s, start, end);
      assert s in Trim(s, start, end);
    } else {
      RemoveRangeKeepsClear(sections[1..], start, end, s);
    }
  }

  /** The state one address space owns: its accountant (the set of page
      bases currently allocated) and its section registry. */
  class AddressSpace {
    var used: set<int>
    var sections: seq<ImageSection>

    constructor (initialUsed: set<int>, initialSections: seq<ImageSection>)
      ensures used == initialUsed && sections == initialSections
    {
      used := initialUsed;
      sections := initialSections;
    }

    /** MmpAllocateAddressRange: record the granted range as used. */
    method Allocate(size: UIntN, strategy: Strategy, hint: UIntN, answer: AllocatorAnswer)
      returns (r: Result<UIntN>)
      modifies this`used
      ensures r == Allocation(old(used), size, strategy, hint, answer)
      ensures used == if r.Ok? then old(used) + Pages(r.value, size) else old(used)
    {
      r := Allocation(used, size, strategy, hint, answer);
      if r.Ok? {
        used := used + Pages(r.value, size);
      }
    }

    /** MmpFreeAccountingRange: release the range when the collaborator
        reports success; a failed release leaves the pages accounted. */
    method FreeRange(start: UIntN, size: UIntN, outcome: Status) returns (status: Status)
      modifies this`used
      ensures status == outcome
      ensures used == if outcome == Success then old(used) - Pages(start, size) else old(used)
    {
      status := outcome;
      if outcome == Success {
        used := used - Pages(start, size);
      }
    }

    /** MmpAddImageSection: link a new section when creation succeeds. */
    method AddSection(section: ImageSection, outcome: Status) returns (status: Status)
      modifies this`sections
      ensures status == outcome
      ensures sections == if outcome == Success then old(sections) + [section] else old(sections)
    {
      status := outcome;
      if outcome == Success {
        sections := sections + [section];
      }
    }

    /** MmpUnmapImageRegion: cut [start, start + size) out of the registry
        when the collaborator reports success. */
    method UnmapRegion(start: UIntN, size: UIntN, outcome: Status) returns (status: Status)
      modifies this`sections
      ensures status == outcome
      ensures sections == if outcome == Success then RemoveRange(old(sections), start, start + size)
                          else old(sections)
    {
      status := outcome;
      if outcome == Success {
        sections := RemoveRange(sections, start, start + size);
      }
    }
  }
}
