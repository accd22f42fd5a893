/** Why MmSysFlushMemory's comparison of TotalSyncSize with the aligned
    size detects holes: when the registry's sections are page granular and
    share no page, the total the scan adds up is the page size times the
    number of pages of the range that sections made by the system call
    cover, so it falls short of the aligned size exactly when some page is
    left uncovered. */
module FlushCoverage {
  import opened Machine
  import opened KernelStatus
  import opened ImageSections
  import opened MemoryFlush

  /** A section as the accountant hands ranges out: page aligned at both
      ends and not wrapping. */
  predicate PageGranular(s: ImageSection) {
    IsPageAligned(s.address) && IsPageAligned(s.size) && WellFormed(s)
  }

  /** Every section of the registry is page granular. */
  predicate Granular(sections: seq<ImageSection>) {
    forall i :: 0 <= i < |sections| ==> PageGranular(sections[i])
  }

  /** The registry invariant: every section is page granular and no two
      sections share a page. */
  predicate Tiled(sections: seq<ImageSection>) {
    && Granular(sections)
    && (forall i, j :: 0 <= i < j < |sections| ==>
          Pages(sections[i].address, sections[i].size) !! Pages(sections[j].address, sections[j].size))
  }

  /** What remains of a tiled registry after its first section is tiled. */
  lemma TiledTail(sections: seq<ImageSection>)
    requires Tiled(sections) && sections != []
    ensures Tiled(sections[1..])
  {
    var rest := sections[1..];
    forall i, j | 0 <= i < j < |rest|
      ensures Pages(rest[i].address, rest[i].size) !! Pages(rest[j].address, rest[j].size)
    {
      assert rest[i] == sections[i + 1] && rest[j] == sections[j + 1];
    }
    forall i | 0 <= i < |rest|
      ensures PageGranular(rest[i])
    {
      assert rest[i] == sections[i + 1];
    }
  }

  /** A sync region as the corrected check lets it through: page aligned
      at both ends, inside user space. */
  predicate Region(start: UIntN, end: UIntN) {
    IsPageAligned(start) && IsPageAligned(end) && start <= end <= KERNEL_VA_START
  }

  /** Two page-aligned addresses less than a page apart are equal. */
  lemma SamePage(a: int, b: int)
    requires IsPageAligned(a) && IsPageAligned(b) && a <= b < a + PAGE_SIZE
    ensures a == b
  {
    var m, n := a / PAGE_SIZE, b / PAGE_SIZE;
    assert a == PAGE_SIZE * m && b == PAGE_SIZE * n;
    assert PAGE_SIZE * (n - m) < PAGE_SIZE;
  }

  /** A page-aligned range of `size` bytes holds size / PAGE_SIZE pages. */
  lemma {:induction false} PageCount(start: int, size: int)
    requires IsPageAligned(start) && IsPageAligned(size) && size >= 0
    ensures |Pages(start, size)| * PAGE_SIZE == size
    decreases size
  {
    if size == 0 {
      assert Pages(start, size) == {};
    } else {
      var shorter := size - PAGE_SIZE;
      var last := start + shorter;
      assert IsPageAligned(shorter) && IsPageAligned(last) && shorter >= 0 by {
        var m, n := start / PAGE_SIZE, size / PAGE_SIZE;
        assert start == PAGE_SIZE * m && size == PAGE_SIZE * n;
        assert shorter == PAGE_SIZE * (n - 1) && last == PAGE_SIZE * (m + n - 1);
      }
      PageCount(start, shorter);
      assert Pages(start, size) == Pages(start, shorter) + {last} by {
        forall q | q in Pages(start, size)
          ensures q in Pages(start, shorter) || q == last
        {
          if q >= last {
            SamePage(last, q);
          }
        }
      }
    }
  }


  /** A region holds (end - start) / PAGE_SIZE pages. */
  lemma RegionPages(start: UIntN, end: UIntN)
    requires Region(start, end)
    ensures |Pages(start, end - start)| * PAGE_SIZE == end - start
  {
    var m, n := start / PAGE_SIZE, end / PAGE_SIZE;
    assert end - start == PAGE_SIZE * (n - m) by {
      assert start == PAGE_SIZE * m && end == PAGE_SIZE * n;
    }
    PageCount(start, end - start);
  }

  /** The pages of the region a counted section covers. */
  function OverlapPages(s: ImageSection, start: UIntN, end: UIntN): set<int> {
    if Counted(s, start, end) then Pages(OverlapStart(s, start), OverlapSize(s, start, end)) else {}
  }

  /** The overlap the scan computes for a page-granular section is page
      aligned and is exactly the section's pages within the region. */
  lemma OverlapIsIntersection(s: ImageSection, start: UIntN, end: UIntN)
    requires PageGranular(s) && Region(start, end) && Counted(s, start, end)
    ensures IsPageAligned(OverlapStart(s, start)) && IsPageAligned(OverlapSize(s, start, end))
    ensures OverlapPages(s, start, end) == Pages(s.address, s.size) * Pages(start, end - start)
  {
    var sectionEnd := s.address + s.size;
    assert SectionEnd(s) == sectionEnd;
    var low := OverlapStart(s, start);
    var high := if sectionEnd < end then sectionEnd else end;
    assert low <= high && OverlapSize(s, start, end) == high - low;
    assert IsPageAligned(high - low) by {
      AlignedDifference(low, high);
    }
    assert Pages(low, high - low) == Pages(s.address, s.size) * Pages(start, end - start) by {
      forall q ensures q in Pages(low, high - low) <==> q in Pages(s.address, s.size) && q in Pages(start, end - start) {
      }
    }
  }

  /** The distance between two page-aligned addresses is page aligned. */
  lemma AlignedDifference(a: int, b: int)
    requires IsPageAligned(a) && IsPageAligned(b)
    ensures IsPageAligned(b - a)
  {
    var m, n := a / PAGE_SIZE, b / PAGE_SIZE;
    assert b - a == PAGE_SIZE * (n - m) by {
      assert a == PAGE_SIZE * m && b == PAGE_SIZE * n;
    }
  }

  /** The pages counted sections of the registry cover. */
  function Covered(sections: seq<ImageSection>, start: UIntN, end: UIntN): set<int> {
    if sections == [] then {} else OverlapPages(sections[0], start, end) + Covered(sections[1..], start, end)
  }

  /** The sum of the overlaps of the counted sections. */
  function CountedBytes(sections: seq<ImageSection>, start: UIntN, end: UIntN): int {
    if sections == [] then 0
    else (if Counted(sections[0], start, end) then OverlapSize(sections[0], start, end) else 0)
         + CountedBytes(sections[1..], start, end)
  }

  /** Every covered page lies in the region and in a section made by the
      system call. */
  lemma {:induction false} CoveredWithinSections(sections: seq<ImageSection>, start: UIntN, end: UIntN, q: int)
    requires Granular(sections) && Region(start, end) && q in Covered(sections, start, end)
    ensures start <= q < end && IsPageAligned(q)
    ensures exists k :: 0 <= k < |sections| && sections[k].flags.mapSystemCall
                        && q in Pages(sections[k].address, sections[k].size)
  {
    var s := sections[0];
    if q in OverlapPages(s, start, end) {
      OverlapIsIntersection(s, start, end);
      assert sections[0].flags.mapSystemCall && q in Pages(sections[0].address, sections[0].size);
    } else {
      var rest := sections[1..];
      assert Granular(rest) by {
        forall i | 0 <= i < |rest| ensures PageGranular(rest[i]) {
          assert rest[i] == sections[i + 1];
        }
      }
      CoveredWithinSections(rest, start, end, q);
      var k :| 0 <= k < |rest| && rest[k].flags.mapSystemCall && q in Pages(rest[k].address, rest[k].size);
      assert sections[k + 1] == rest[k];
    }
  }

  /** On a tiled registry the counted bytes are the page size times the
      number of covered pages. */
  lemma {:induction false} CountedBytesArePages(sections: seq<ImageSection>, start: UIntN, end: UIntN)
    requires Tiled(sections) && Region(start, end)
    ensures CountedBytes(sections, start, end) == |Covered(sections, start, end)| * PAGE_SIZE
  {
    if sections != [] {
      var s := sections[0];
      var rest := sections[1..];
      TiledTail(sections);
      CountedBytesArePages(rest, start, end);
      var mine := OverlapPages(s, start, end);
      if Counted(s, start, end) {
        OverlapIsIntersection(s, start, end);
        PageCount(OverlapStart(s, start), OverlapSize(s, start, end));
      }
      forall q | q in mine
        ensures q !in Covered(rest, start, end)
      {
        if q in Covered(rest, start, end) {
          CoveredWithinSections(rest, start, end, q);
          assert false;
        }
      }
      assert mine * Covered(rest, start, end) == {};
    }
  }

  /** The bytes counted before the scan meets the section at `k`, that
      section included. */
  function CountedThrough(sections: seq<ImageSection>, k: nat, start: UIntN, end: UIntN): int
    requires k < |sections|
  {
    CountedBytes(sections[..k + 1], start, end)
  }

  /** Counting through section `k` is counting the first section and then
      through the rest. */
  lemma CountedThroughTail(sections: seq<ImageSection>, k: nat, start: UIntN, end: UIntN)
    requires k < |sections|
    ensures CountedThrough(sections, k, start, end)
            == (if Counted(sections[0], start, end) then OverlapSize(sections[0], start, end) else 0)
               + (if k == 0 then 0 else CountedThrough(sections[1..], k - 1, start, end))
  {
    var prefix := sections[..k + 1];
    assert prefix[0] == sections[0];
    assert CountedBytes(prefix, start, end)
           == (if Counted(sections[0], start, end) then OverlapSize(sections[0], start, end) else 0)
              + CountedBytes(prefix[1..], start, end);
    if k == 0 {
      assert prefix[1..] == [];
    } else {
      assert prefix[1..] == sections[1..][..k];
    }
  }

  /** A scan that runs to the end of the registry adds up every counted
      overlap; one that stops at an exact match found a section made by
      the system call that spans the whole region, and added up the
      overlaps up to and including it. */
  lemma {:induction false} ScanTotals(sections: seq<ImageSection>, st: ScanState, start: UIntN, end: UIntN,
                                      async: bool, flusher: FlushCall -> Status)
    requires st.phase.Scanning?
    ensures var r := Scan(sections, st, start, end, async, flusher);
      && (r.phase.Scanning? ==> r.total == st.total + CountedBytes(sections, start, end))
      && (r.phase.ExactMatch? ==>
            exists k :: 0 <= k < |sections| && sections[k].flags.mapSystemCall
                        && sections[k].address == start && SectionEnd(sections[k]) == end
                        && r.total == st.total + CountedThrough(sections, k, start, end))
  {
    if sections != [] {
      var s := sections[0];
      var next := Step(st, s, start, end, async, flusher);
      var head := if Counted(s, start, end) then OverlapSize(s, start, end) else 0;
      if next.phase.Scanning? {
        ScanTotals(sections[1..], next, start, end, async, flusher);
        var r := Scan(sections[1..], next, start, end, async, flusher);
        if r.phase.ExactMatch? {
          var k :| 0 <= k < |sections[1..]| && sections[1..][k].flags.mapSystemCall
                   && sections[1..][k].address == start && SectionEnd(sections[1..][k]) == end
                   && r.total == next.total + CountedThrough(sections[1..], k, start, end);
          assert sections[k + 1] == sections[1..][k];
          CountedThroughTail(sections, k + 1, start, end);
        }
      } else if next.phase.ExactMatch? {
        CountedThroughTail(sections, 0, start, end);
      }
    }
  }

  /** A subset that misses one element of a set is smaller than it. */
  lemma MissingOneIsSmaller(a: set<int>, b: set<int>, x: int)
    requires a <= b && x in b && x !in a
    ensures |a| < |b|
  {
    assert b == a + (b - a);
    assert x in b - a;
  }

  /** Two sets included in each other have the same size. */
  lemma SameSetSameSize(a: set<int>, b: set<int>)
    requires a <= b && b <= a
    ensures |a| == |b|
  {
    assert a == b;
  }

  /** The covered pages are pages of the region. */
  lemma CoveredInRegion(sections: seq<ImageSection>, start: UIntN, end: UIntN)
    requires Granular(sections) && Region(start, end)
    ensures Covered(sections, start, end) <= Pages(start, end - start)
  {
    forall q | q in Covered(sections, start, end)
      ensures q in Pages(start, end - start)
    {
      CoveredWithinSections(sections, start, end, q);
    }
  }

  /** A page of the region that no section made by the system call
      covers makes the counted bytes fall short of the region's size. */
  lemma HoleShortensTotal(sections: seq<ImageSection>, start: UIntN, end: UIntN, hole: int)
    requires Tiled(sections) && Region(start, end)
    requires start <= hole < end && IsPageAligned(hole)
    requires forall k :: 0 <= k < |sections| && sections[k].flags.mapSystemCall ==>
               hole !in Pages(sections[k].address, sections[k].size)
    ensures CountedBytes(sections, start, end) < end - start
  {
    var covered := Covered(sections, start, end);
    var range := Pages(start, end - start);
    assert hole !in covered by {
      if hole in covered {
        CoveredWithinSections(sections, start, end, hole);
        assert false;
      }
    }
    assert |covered| < |range| by {
      CoveredInRegion(sections, start, end);
      MissingOneIsSmaller(covered, range, hole);
    }
    assert CountedBytes(sections, start, end) == |covered| * PAGE_SIZE by {
      CountedBytesArePages(sections, start, end);
    }
    assert |range| * PAGE_SIZE == end - start by {
      RegionPages(start, end);
    }
  }

  /** The flush system call detects holes: on a tiled registry, a range
      that holds a page no section made by the system call covers is never
      reported as flushed. */
  lemma FlushDetectsHoles(address: UIntN, size: UIntN, async: bool, sections: seq<ImageSection>,
                          flusher: FlushCall -> Status, hole: int)
    requires Tiled(sections) && FlushRangeCheck(address, size) == Success
    requires address <= hole < address + AlignRangeUp(size) && IsPageAligned(hole)
    requires forall k :: 0 <= k < |sections| && sections[k].flags.mapSystemCall ==>
               hole !in Pages(sections[k].address, sections[k].size)
    ensures FlushSpec(address, size, async, sections, flusher).status != Success
  {
    var alignedSize := AlignRangeUp(size);
    var end := Add(address, alignedSize);
    assert end == address + alignedSize && Region(address, end) by {
      AlignRangeUpBelow(size, KERNEL_VA_START - address);
    }
    var init := ScanState(0, [], Scanning);
    var r := Scan(sections, init, address, end, async, flusher);
    assert FlushSpec(address, size, async, sections, flusher).status
           == if r.phase.FlushFailed? then r.phase.error
              else if r.total != alignedSize then InvalidAddressRange else Success;
    ScanTotals(sections, init, address, end, async, flusher);
    if r.phase.ExactMatch? {
      assert false;
    } else if r.phase.Scanning? {
      HoleShortensTotal(sections, address, end, hole);
    }
  }

  /** Some section of the registry made by the system call holds page `q`. */
  predicate PageCovered(sections: seq<ImageSection>, q: int) {
    exists k :: 0 <= k < |sections| && sections[k].flags.mapSystemCall
                && q in Pages(sections[k].address, sections[k].size)
  }

  /** Every page of [start, end) lies in a section of the registry made
      by the system call. */
  predicate CoversRegion(sections: seq<ImageSection>, start: UIntN, end: UIntN) {
    forall q {:trigger PageCovered(sections, q)} ::
      start <= q < end && IsPageAligned(q) ==> PageCovered(sections, q)
  }

  /** A page of the region inside a section made by the system call is
      covered. */
  lemma {:induction false} InCovered(sections: seq<ImageSection>, k: nat, q: int, start: UIntN, end: UIntN)
    requires Granular(sections) && Region(start, end) && start <= q < end
    requires k < |sections| && sections[k].flags.mapSystemCall
    requires q in Pages(sections[k].address, sections[k].size)
    ensures q in Covered(sections, start, end)
    decreases k
  {
    var s := sections[0];
    if k == 0 {
      assert SectionEnd(s) == s.address + s.size;
      OverlapIsIntersection(s, start, end);
    } else {
      var rest := sections[1..];
      assert Granular(rest) by {
        forall i | 0 <= i < |rest| ensures PageGranular(rest[i]) {
          assert rest[i] == sections[i + 1];
        }
      }
      assert rest[k - 1] == sections[k];
      InCovered(rest, k - 1, q, start, end);
    }
  }

  /** When the registry covers the region, every page of the region is
      covered. */
  lemma RegionInCovered(sections: seq<ImageSection>, start: UIntN, end: UIntN)
    requires Granular(sections) && Region(start, end) && CoversRegion(sections, start, end)
    ensures Pages(start, end - start) <= Covered(sections, start, end)
  {
    forall q | q in Pages(start, end - start)
      ensures q in Covered(sections, start, end)
    {
      assert PageCovered(sections, q);
      var k :| 0 <= k < |sections| && sections[k].flags.mapSystemCall
               && q in Pages(sections[k].address, sections[k].size);
      InCovered(sections, k, q, start, end);
    }
  }

  /** On a tiled registry that covers the region, the counted bytes are
      the region's size. */
  lemma CoverageTotal(sections: seq<ImageSection>, start: UIntN, end: UIntN)
    requires Tiled(sections) && Region(start, end) && CoversRegion(sections, start, end)
    ensures CountedBytes(sections, start, end) == end - start
  {
    assert |Covered(sections, start, end)| == |Pages(start, end - start)| by {
      RegionInCovered(sections, start, end);
      CoveredInRegion(sections, start, end);
      SameSetSameSize(Covered(sections, start, end), Pages(start, end - start));
    }
    FullCoverageTotal(sections, start, end);
  }

  /** The counting half of CoverageTotal: as many covered pages as the
      region holds make the counted bytes the region's size. */
  lemma FullCoverageTotal(sections: seq<ImageSection>, start: UIntN, end: UIntN)
    requires Tiled(sections) && Region(start, end)
    requires |Covered(sections, start, end)| == |Pages(start, end - start)|
    ensures CountedBytes(sections, start, end) == end - start
  {
    var n := |Covered(sections, start, end)|;
    assert CountedBytes(sections, start, end) == n * PAGE_SIZE by {
      CountedBytesArePages(sections, start, end);
    }
    assert n * PAGE_SIZE == end - start by {
      RegionPages(start, end);
    }
  }

  /** The sections up to and including the one at `k` are tiled too. */
  lemma TiledPrefix(sections: seq<ImageSection>, k: nat)
    requires Tiled(sections) && k < |sections|
    ensures Tiled(sections[..k + 1])
  {
    var prefix := sections[..k + 1];
    assert forall i :: 0 <= i < |prefix| ==> prefix[i] == sections[i];
  }

  /** A section made by the system call that spans exactly the region
      makes the total counted up to it the region's size. */
  lemma ExactSectionTotal(sections: seq<ImageSection>, k: nat, start: UIntN, end: UIntN)
    requires Tiled(sections) && Region(start, end) && k < |sections|
    requires sections[k].flags.mapSystemCall
    requires sections[k].address == start && SectionEnd(sections[k]) == end
    ensures CountedThrough(sections, k, start, end) == end - start
  {
    var prefix := sections[..k + 1];
    TiledPrefix(sections, k);
    assert prefix[k] == sections[k];
    assert PageGranular(sections[k]);
    assert CoversRegion(prefix, start, end) by {
      forall q | start <= q < end && IsPageAligned(q)
        ensures PageCovered(prefix, q)
      {
        assert q in Pages(prefix[k].address, prefix[k].size);
      }
    }
    CoverageTotal(prefix, start, end);
  }

  /** On a tiled registry that covers the region, a scan whose
      write-backs all succeed does not fail and totals the region's size. */
  lemma CoveredScanTotal(sections: seq<ImageSection>, start: UIntN, end: UIntN, async: bool,
                         flusher: FlushCall -> Status)
    requires Tiled(sections) && Region(start, end) && CoversRegion(sections, start, end)
    requires forall c :: flusher(c) == Success
    ensures var r := Scan(sections, ScanState(0, [], Scanning), start, end, async, flusher);
            !r.phase.FlushFailed? && r.total == end - start
  {
    var init := ScanState(0, [], Scanning);
    var r := Scan(sections, init, start, end, async, flusher);
    ScanStopsAtFirstFailure(sections, init, start, end, async, flusher);
    ScanTotals(sections, init, start, end, async, flusher);
    if r.phase.Scanning? {
      CoverageTotal(sections, start, end);
    } else if r.phase.ExactMatch? {
      var k :| 0 <= k < |sections| && sections[k].flags.mapSystemCall
               && sections[k].address == start && SectionEnd(sections[k]) == end
               && r.total == CountedThrough(sections, k, start, end);
      ExactSectionTotal(sections, k, start, end);
    }
  }

  /** Once the corrected range check passes, the flush status is read off
      the scan of the aligned region. */
  lemma CheckedFlushStatus(address: UIntN, size: UIntN, async: bool, sections: seq<ImageSection>,
                           flusher: FlushCall -> Status)
    requires FlushRangeCheck(address, size) == Success
    ensures Region(address, address + AlignRangeUp(size))
    ensures var end := address + AlignRangeUp(size);
            var r := Scan(sections, ScanState(0, [], Scanning), address, end, async, flusher);
            FlushSpec(address, size, async, sections, flusher).status
              == if r.phase.FlushFailed? then r.phase.error
                 else if r.total != end - address then InvalidAddressRange else Success
  {
    var alignedSize := AlignRangeUp(size);
    assert Add(address, alignedSize) == address + alignedSize && Region(address, address + alignedSize) by {
      AlignRangeUpBelow(size, KERNEL_VA_START - address);
    }
  }

  /** The other direction: on a tiled registry that covers the range, a
      flush whose write-backs all succeed is reported as done. */
  lemma FlushCoveredSucceeds(address: UIntN, size: UIntN, async: bool, sections: seq<ImageSection>,
                             flusher: FlushCall -> Status)
    requires Tiled(sections) && FlushRangeCheck(address, size) == Success
    requires CoversRegion(sections, address, address + AlignRangeUp(size))
    requires forall c :: flusher(c) == Success
    ensures FlushSpec(address, size, async, sections, flusher).status == Success
  {
    CheckedFlushStatus(address, size, async, sections, flusher);
    CoveredScanTotal(sections, address, address + AlignRangeUp(size), async, flusher);
  }

  /** Together: on a tiled registry whose write-backs succeed, the flush
      system call reports success exactly when sections made by the system
      call cover every page of the range. */
  lemma FlushSucceedsIffCovered(address: UIntN, size: UIntN, async: bool, sections: seq<ImageSection>,
                                flusher: FlushCall -> Status)
    requires Tiled(sections) && FlushRangeCheck(address, size) == Success
    requires forall c :: flusher(c) == Success
    ensures FlushSpec(address, size, async, sections, flusher).status == Success
            <==> CoversRegion(sections, address, address + AlignRangeUp(size))
  {
    var end := address + AlignRangeUp(size);
    if CoversRegion(sections, address, end) {
      FlushCoveredSucceeds(address, size, async, sections, flusher);
    } else {
      var hole :| address <= hole < end && IsPageAligned(hole) && !PageCovered(sections, hole);
      FlushDetectsHoles(address, size, async, sections, flusher, hole);
    }
  }
}
