/** MmSysFlushMemory: writing the shared, ever-writable mappings that a
    user range overlaps back to their files.  The scan is modelled as one
    thread walking the registry: the lock is dropped around each flush in
    the source, and what a concurrent unmap can do in that window is not
    part of this model. */
module MemoryFlush {
  import opened Machine
  import opened KernelStatus
  import opened ImageSections
  import opened FileMapping

  /** One call of MmpFlushImageSectionRegion: the section, the first page
      and the number of pages to write back, and whether to wait. */
  datatype FlushCall = FlushCall(section: ImageSection, pageOffset: nat, pageCount: nat, async: bool)

  /** Where the scan stands: still scanning, stopped after flushing a
      section that matched the range exactly, or stopped by a failed
      flush. */
  datatype Phase = Scanning | ExactMatch | FlushFailed(error: ErrorStatus)

  /** TotalSyncSize, the flushes issued so far and the phase. */
  datatype ScanState = ScanState(total: int, calls: seq<FlushCall>, phase: Phase)

  /** The sync region [start, end) meets the section, computed as the
      source does with the section's end as a wrapping pointer. */
  predicate Meets(s: ImageSection, start: UIntN, end: UIntN) {
    !(s.address >= end || SectionEnd(s) <= start)
  }

  /** A section the scan counts: made by the system call and meeting the
      region. */
  predicate Counted(s: ImageSection, start: UIntN, end: UIntN) {
    s.flags.mapSystemCall && Meets(s, start, end)
  }

  /** A counted section the scan writes back: shared and ever writable. */
  predicate Flushable(s: ImageSection) {
    s.flags.shared && s.wasWritable
  }

  /** OverlapStart and OverlapSize of a section that meets the region. */
  function OverlapStart(s: ImageSection, start: UIntN): UIntN {
    if s.address < start then start else s.address
  }

  function OverlapSize(s: ImageSection, start: UIntN, end: UIntN): UIntN {
    if SectionEnd(s) < end then Sub(SectionEnd(s), OverlapStart(s, start))
    else Sub(end, OverlapStart(s, start))
  }

  /** The flush the scan issues for a counted, flushable section. */
  function CallFor(s: ImageSection, start: UIntN, end: UIntN, async: bool): FlushCall {
    FlushCall(s, Sub(OverlapStart(s, start), s.address) / PAGE_SIZE, OverlapSize(s, start, end) / PAGE_SIZE, async)
  }

  /** One turn of the scan loop on section `s` (load.c:969-1087). */
  function Step(st: ScanState, s: ImageSection, start: UIntN, end: UIntN, async: bool,
                flusher: FlushCall -> Status): (r: ScanState)
    ensures !Counted(s, start, end) ==> r == st
    ensures Counted(s, start, end) && Flushable(s) ==> r.calls == st.calls + [CallFor(s, start, end, async)]
    ensures |r.calls| == |st.calls| ==> r.calls == st.calls && r.phase == st.phase
    ensures |r.calls| != |st.calls| ==>
      var call := CallFor(s, start, end, async);
      && Counted(s, start, end) && Flushable(s) && r.calls == st.calls + [call]
      && (r.phase.FlushFailed? <==> flusher(call) != Success)
      && (r.phase.FlushFailed? ==> r.phase.error == flusher(call))
  {
    if !Counted(s, start, end) then st
    else
      var total := st.total + OverlapSize(s, start, end);
      if !Flushable(s) then st.(total := total)
      else
        var call := CallFor(s, start, end, async);
        var calls := st.calls + [call];
        var status := flusher(call);
        if status != Success then ScanState(total, calls, FlushFailed(status))
        else if s.address == start && SectionEnd(s) == end then ScanState(total, calls, ExactMatch)
        else ScanState(total, calls, Scanning)
  }

  /** The scan over the rest of the registry, stopping at the first failed
      flush or exact match. */
  function Scan(sections: seq<ImageSection>, st: ScanState, start: UIntN, end: UIntN, async: bool,
                flusher: FlushCall -> Status): ScanState
    decreases |sections|
  {
    if sections == [] || !st.phase.Scanning? then st
    else Scan(sections[1..], Step(st, sections[0], start, end, async, flusher), start, end, async, flusher)
  }

  /** One turn of the scan, at position `i` of the registry. */
  lemma ScanUnfold(sections: seq<ImageSection>, i: nat, st: ScanState, start: UIntN, end: UIntN, async: bool,
                   flusher: FlushCall -> Status)
    requires i < |sections| && st.phase.Scanning?
    ensures Scan(sections[i..], st, start, end, async, flusher)
            == Scan(sections[i + 1..], Step(st, sections[i], start, end, async, flusher), start, end, async, flusher)
  {
    assert sections[i..][1..] == sections[i + 1..];
  }

  /** The outcome of the flush system call: the status written back and
      the flushes issued. */
  datatype FlushResult = FlushResult(status: Status, calls: seq<FlushCall>)

  /** The validation at load.c:921-944 as written: the end of the range
      is compared with KERNEL_VA_START after a wrapping addition. */
  function FlushRangeCheckAsWritten(address: UIntN, size: UIntN): (s: Status)
    ensures s == Success <==>
      address != 0 && IsPageAligned(address) && size != 0 && Add(address, size) <= KERNEL_VA_START
    ensures s != Success ==> s in {InvalidParameter, InvalidAddressRange}
  {
    if address == 0 || !IsPageAligned(address) then InvalidParameter
    else if size == 0 then InvalidParameter
    else if Add(address, size) > KERNEL_VA_START then InvalidAddressRange
    else Success
  }

  /** The same validation with the wrap rejected as a range that is not
      within user mode. */
  function FlushRangeCheck(address: UIntN, size: UIntN): (s: Status)
    ensures s == Success <==>
      address != 0 && IsPageAligned(address) && size != 0 && address + size <= KERNEL_VA_START
    ensures s != Success ==> s in {InvalidParameter, InvalidAddressRange}
  {
    if address == 0 || !IsPageAligned(address) then InvalidParameter
    else if size == 0 then InvalidParameter
    else if Add(address, size) > KERNEL_VA_START || Add(address, size) < address then InvalidAddressRange
    else Success
  }

  /** The flush system call once the range check has answered `check`. */
  function FlushAfterCheck(check: Status, address: UIntN, size: UIntN, async: bool,
                           sections: seq<ImageSection>, flusher: FlushCall -> Status): FlushResult
  {
    if check != Success then FlushResult(check, [])
    else
      var alignedSize := AlignRangeUp(size);
      var st := Scan(sections, ScanState(0, [], Scanning), address, Add(address, alignedSize), async, flusher);
      match st.phase
      case FlushFailed(e) => FlushResult(e, st.calls)
      case _ => FlushResult(if st.total != alignedSize then InvalidAddressRange else Success, st.calls)
  }

  /** MmSysFlushMemory as written (load.c:921-1127). */
  function FlushSpecAsWritten(address: UIntN, size: UIntN, async: bool, sections: seq<ImageSection>,
                              flusher: FlushCall -> Status): FlushResult
  {
    FlushAfterCheck(FlushRangeCheckAsWritten(address, size), address, size, async, sections, flusher)
  }

  /** MmSysFlushMemory with the corrected range check. */
  function FlushSpec(address: UIntN, size: UIntN, async: bool, sections: seq<ImageSection>,
                     flusher: FlushCall -> Status): FlushResult
  {
    FlushAfterCheck(FlushRangeCheck(address, size), address, size, async, sections, flusher)
  }

  /** The scan only ever appends to the flushes already issued. */
  lemma {:induction false} ScanExtends(sections: seq<ImageSection>, st: ScanState, start: UIntN,
                                       end: UIntN, async: bool, flusher: FlushCall -> Status)
    ensures var r := Scan(sections, st, start, end, async, flusher);
      |st.calls| <= |r.calls| && r.calls[..|st.calls|] == st.calls
  {
    if sections != [] && st.phase.Scanning? {
      var next := Step(st, sections[0], start, end, async, flusher);
      ScanExtends(sections[1..], next, start, end, async, flusher);
      var r := Scan(sections[1..], next, start, end, async, flusher);
      assert r.calls[..|st.calls|] == r.calls[..|next.calls|][..|st.calls|];
    }
  }

  /** Every flush the scan issues is for a section of the registry that
      the system call made, that is shared and was ever writable, and that
      meets the region; the flag is passed through unchanged. */
  lemma {:induction false} ScanFlushesOnlyEligible(sections: seq<ImageSection>, st: ScanState, start: UIntN,
                                                   end: UIntN, async: bool, flusher: FlushCall -> Status)
    ensures var r := Scan(sections, st, start, end, async, flusher);
      forall j :: |st.calls| <= j < |r.calls| ==>
        && r.calls[j].section in sections && Counted(r.calls[j].section, start, end)
        && Flushable(r.calls[j].section) && r.calls[j] == CallFor(r.calls[j].section, start, end, async)
  {
    if sections != [] && st.phase.Scanning? {
      var next := Step(st, sections[0], start, end, async, flusher);
      ScanFlushesOnlyEligible(sections[1..], next, start, end, async, flusher);
      ScanExtends(sections[1..], next, start, end, async, flusher);
      var r := Scan(sections[1..], next, start, end, async, flusher);
      assert Scan(sections, st, start, end, async, flusher) == r;
      forall j | |st.calls| <= j < |r.calls|
        ensures r.calls[j].section in sections && Counted(r.calls[j].section, start, end)
        ensures Flushable(r.calls[j].section) && r.calls[j] == CallFor(r.calls[j].section, start, end, async)
      {
        if j < |next.calls| {
          assert r.calls[j] == next.calls[j];
          assert r.calls[j] == CallFor(sections[0], start, end, async);
        } else {
          assert r.calls[j].section in sections[1..];
        }
      }
    }
  }

  /** Conversely, a scan that runs to the end of the registry has flushed
      every section of it that the system call made, that is shared and
      was ever writable, and that meets the region. */
  lemma {:induction false} ScanFlushesEveryEligible(sections: seq<ImageSection>, st: ScanState, start: UIntN,
                                                    end: UIntN, async: bool, flusher: FlushCall -> Status)
    ensures var r := Scan(sections, st, start, end, async, flusher);
      r.phase.Scanning? ==>
        forall s :: s in sections && Counted(s, start, end) && Flushable(s) ==>
          CallFor(s, start, end, async) in r.calls
  {
    if sections != [] && st.phase.Scanning? {
      var next := Step(st, sections[0], start, end, async, flusher);
      ScanFlushesEveryEligible(sections[1..], next, start, end, async, flusher);
      ScanExtends(sections[1..], next, start, end, async, flusher);
      var r := Scan(sections[1..], next, start, end, async, flusher);
      assert Scan(sections, st, start, end, async, flusher) == r;
      if r.phase.Scanning? {
        forall s | s in sections && Counted(s, start, end) && Flushable(s)
          ensures CallFor(s, start, end, async) in r.calls
        {
          if s == sections[0] {
            var k := |st.calls|;
            assert next.calls[k] == CallFor(s, start, end, async);
            assert r.calls[k] == next.calls[k];
          } else {
            assert s in sections[1..];
          }
        }
      }
    }
  }

  /** The scan stops at the first failed flush: that flush is the last
      one issued, its error is the one reported, and every flush before it
      succeeded. */
  lemma {:induction false} ScanStopsAtFirstFailure(sections: seq<ImageSection>, st: ScanState, start: UIntN,
                                                   end: UIntN, async: bool, flusher: FlushCall -> Status)
    requires st.phase.Scanning?
    ensures var r := Scan(sections, st, start, end, async, flusher);
      && (r.phase.FlushFailed? ==>
            |st.calls| < |r.calls| && flusher(r.calls[|r.calls| - 1]) == r.phase.error)
      && forall j :: |st.calls| <= j < |r.calls| && (j < |r.calls| - 1 || !r.phase.FlushFailed?) ==>
           flusher(r.calls[j]) == Success
  {
    if sections != [] {
      var next := Step(st, sections[0], start, end, async, flusher);
      var r := Scan(sections[1..], next, start, end, async, flusher);
      assert Scan(sections, st, start, end, async, flusher) == r;
      if next.phase.Scanning? {
        ScanStopsAtFirstFailure(sections[1..], next, start, end, async, flusher);
        ScanExtends(sections[1..], next, start, end, async, flusher);
        if |next.calls| != |st.calls| {
          assert r.calls[|st.calls|] == next.calls[|st.calls|];
        }
      }
    }
  }

  /** A registry in which no section the system call made meets the
      region leaves the scan where it started. */
  lemma {:induction false} ScanWithoutOverlapDoesNothing(sections: seq<ImageSection>, st: ScanState, start: UIntN,
                                                         end: UIntN, async: bool, flusher: FlushCall -> Status)
    requires forall s :: s in sections ==> !Counted(s, start, end)
    ensures Scan(sections, st, start, end, async, flusher) == st
  {
    if sections != [] && st.phase.Scanning? {
      assert sections[0] in sections;
      ScanWithoutOverlapDoesNothing(sections[1..], st, start, end, async, flusher);
    }
  }

  /** Each flush stays inside its section: for a well-formed section and
      a region that does not wrap, the pages written back lie within the
      section's pages. */
  lemma FlushCallWithinSection(s: ImageSection, start: UIntN, end: UIntN, async: bool)
    requires WellFormed(s) && start <= end && Meets(s, start, end)
    ensures var c := CallFor(s, start, end, async);
      (c.pageOffset + c.pageCount) * PAGE_SIZE <= s.size
  {
    var o := OverlapStart(s, start) - s.address;
    var n := OverlapSize(s, start, end);
    assert o + n <= s.size;
    assert Sub(OverlapStart(s, start), s.address) == o;
    assert (o / PAGE_SIZE) * PAGE_SIZE <= o;
    assert (n / PAGE_SIZE) * PAGE_SIZE <= n;
  }

  /** With the corrected check, a successful flush means the region is
      not empty and some section the system call made meets it: success
      is never reported for a range nothing was mapped into. */
  lemma FlushSuccessNeedsMapping(address: UIntN, size: UIntN, async: bool, sections: seq<ImageSection>,
                                 flusher: FlushCall -> Status)
    requires FlushSpec(address, size, async, sections, flusher).status == Success
    ensures var end := address + AlignRangeUp(size);
      && address < end <= KERNEL_VA_START
      && exists s :: s in sections && Counted(s, address, end)
  {
    assert FlushRangeCheck(address, size) == Success;
    var alignedSize := AlignRangeUp(size);
    var end := Add(address, alignedSize);
    assert end == address + alignedSize && address < end <= KERNEL_VA_START by {
      AlignRangeUpBelow(size, KERNEL_VA_START - address);
    }
    var init := ScanState(0, [], Scanning);
    var r := Scan(sections, init, address, end, async, flusher);
    assert r.total == alignedSize by {
      assert FlushSpec(address, size, async, sections, flusher)
             == FlushAfterCheck(Success, address, size, async, sections, flusher);
    }
    if forall s :: s in sections ==> !Counted(s, address, end) {
      ScanWithoutOverlapDoesNothing(sections, init, address, end, async, flusher);
      assert false;
    }
  }

  /** Unmapping a range and then flushing it reports InvalidAddressRange:
      nothing the system call made is left there. */
  lemma UnmapThenFlushFails(used: set<int>, sections: seq<ImageSection>, address: UIntN, size: UIntN,
                            freeOutcome: Status, async: bool, flusher: FlushCall -> Status)
    requires FlushRangeCheck(address, size) == Success
    ensures var u := UnmapSpec(used, sections, address, size, None, Success, freeOutcome);
      FlushSpec(address, size, async, u.sections, flusher) == FlushResult(InvalidAddressRange, [])
  {
    var u := UnmapSpec(used, sections, address, size, None, Success, freeOutcome);
    var alignedSize := AlignRangeUp(size);
    AlignRangeUpBelow(size, KERNEL_VA_START - address);
    var end := Add(address, alignedSize);
    assert end == address + alignedSize;
    forall t | t in u.sections
      ensures !Counted(t, address, end)
    {
      RemoveRangePiece(sections, address, address + alignedSize, t);
    }
    ScanWithoutOverlapDoesNothing(u.sections, ScanState(0, [], Scanning), address, end, async, flusher);
  }

  /** On an empty sync region every section adds nothing to TotalSyncSize. */
  lemma {:induction false} ScanOfEmptyRegionCountsNothing(sections: seq<ImageSection>, st: ScanState, start: UIntN,
                                                          async: bool, flusher: FlushCall -> Status)
    ensures Scan(sections, st, start, start, async, flusher).total == st.total
    ensures !Scan(sections, st, start, start, async, flusher).phase.ExactMatch? || st.phase.ExactMatch?
  {
    if sections != [] && st.phase.Scanning? {
      var s := sections[0];
      if Counted(s, start, start) {
        assert OverlapSize(s, start, start) == 0;
      }
      ScanOfEmptyRegionCountsNothing(sections[1..], Step(st, s, start, start, async, flusher), start,
                                     async, flusher);
    }
  }

  /** The check as written lets Address 0x1000 with Size 0xFFFFF001
      through: the end wraps to 1, ALIGN_RANGE_UP of the size wraps to 0,
      and the scan then counts 0 bytes against an aligned size of 0.  So
      for every registry whose flushes succeed, a range that runs through
      all of kernel space reports success. */
  lemma FlushWrapReportsSuccess(async: bool, sections: seq<ImageSection>, flusher: FlushCall -> Status)
    requires forall c :: flusher(c) == Success
    ensures 0x1000 + 0xFFFF_F001 > KERNEL_VA_START
    ensures FlushSpecAsWritten(0x1000, 0xFFFF_F001, async, sections, flusher).status == Success
    ensures FlushSpec(0x1000, 0xFFFF_F001, async, sections, flusher) == FlushResult(InvalidAddressRange, [])
  {
    assert AlignRangeUp(0xFFFF_F001) == 0;
    assert Add(0x1000, 0) == 0x1000;
    var init := ScanState(0, [], Scanning);
    ScanOfEmptyRegionCountsNothing(sections, init, 0x1000, async, flusher);
    ScanStopsAtFirstFailure(sections, init, 0x1000, 0x1000, async, flusher);
  }

  /** SYSTEM_CALL_FLUSH_MEMORY. */
  class FlushParameters {
    var address: UIntN
    var size: UIntN
    var async: bool
    var status: Status

    constructor (address: UIntN, size: UIntN, async: bool)
      ensures this.address == address && this.size == size && this.async == async
      ensures this.status == Success
    {
      this.address := address;
      this.size := size;
      this.async := async;
      this.status := Success;
    }
  }

  /** The loop of MmSysFlushMemory (load.c:969-1103) over the registry,
      from an empty total: it returns TotalSyncSize, the flushes issued and
      how the scan ended. */
  method ScanRegistry(sections: seq<ImageSection>, start: UIntN, end: UIntN, async: bool,
                      flusher: FlushCall -> Status)
    returns (total: int, calls: seq<FlushCall>, phase: Phase)
    ensures ScanState(total, calls, phase) == Scan(sections, ScanState(0, [], Scanning), start, end, async, flusher)
  {
    total, calls, phase := 0, [], Scanning;
    var i := 0;
    while i < |sections| && phase.Scanning?
      invariant 0 <= i <= |sections|
      invariant Scan(sections[i..], ScanState(total, calls, phase), start, end, async, flusher)
                == Scan(sections, ScanState(0, [], Scanning), start, end, async, flusher)
    {
      var s := sections[i];
      ghost var before := ScanState(total, calls, phase);
      ScanUnfold(sections, i, before, start, end, async, flusher);
      i := i + 1;
      var sectionStart := s.address;
      var sectionEnd := SectionEnd(s);
      if s.flags.mapSystemCall && !(sectionStart >= end || sectionEnd <= start) {
        var overlapStart := if sectionStart < start then start else sectionStart;
        var overlapSize := if sectionEnd < end then Sub(sectionEnd, overlapStart) else Sub(end, overlapStart);
        total := total + overlapSize;
        if s.flags.shared && s.wasWritable {
          var call := FlushCall(s, Sub(overlapStart, sectionStart) / PAGE_SIZE, overlapSize / PAGE_SIZE, async);
          calls := calls + [call];
          var status := flusher(call);
          if status != Success {
            phase := FlushFailed(status);
          } else if sectionStart == start && sectionEnd == end {
            phase := ExactMatch;
          }
        }
      }
      assert ScanState(total, calls, phase) == Step(before, s, start, end, async, flusher);
    }
  }

  /** MmSysFlushMemory with the corrected range check, scanning the
      calling process's registry.  `flusher` stands for
      MmpFlushImageSectionRegion; the flushes issued are returned. */
  method SysFlushMemory(params: FlushParameters, process: AddressSpace, flusher: FlushCall -> Status)
    returns (calls: seq<FlushCall>)
    modifies params
    ensures var r := FlushSpec(old(params.address), old(params.size), old(params.async), process.sections, flusher);
      params.status == r.status && calls == r.calls
    ensures params.address == old(params.address) && params.size == old(params.size)
    ensures params.async == old(params.async)
  {
    calls := [];
    var check := FlushRangeCheck(params.address, params.size);
    if check != Success {
      params.status := check;
      return;
    }
    var alignedSize := AlignRangeUp(params.size);
    var total, phase;
    total, calls, phase := ScanRegistry(process.sections, params.address, Add(params.address, alignedSize),
                                        params.async, flusher);
    if phase.FlushFailed? {
      params.status := phase.error;
    } else {
      params.status := if total != alignedSize then InvalidAddressRange else Success;
    }
  }
}
