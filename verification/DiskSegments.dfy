/** Segment layout stored as page counts with padding entries, and its expansion. */
module DiskSegments {
  import opened MachineWords

  type PageSize = p: int | p == 0x1000 || p == 0x4000 witness 0x1000

  datatype SegmentInfo = SegmentInfo(
    vmAddr: uint64, vmSize: uint64, fileOffset: uint64, fileSize: uint64, protections: uint32, readOnlyData: bool)

  datatype DiskSegment = DiskSegment(filePageCount: uint30, vmPageCount: uint30, permissions: uint3, paddingNotSeg: bool)

  const PROT_READ_WRITE: uint3 := 3
  /** Write without read stands for read-write data made read-only after fixups. */
  const READ_ONLY_DATA: uint3 := 2

  function Bytes(p: PageSize, pages: int): int { if p == 0x1000 then 0x1000 * pages else 0x4000 * pages }

  function FloorPages(p: PageSize, bytes: nat): nat { if p == 0x1000 then bytes / 0x1000 else bytes / 0x4000 }

  /** Pages needed for a number of bytes. */
  function CeilPages(p: PageSize, bytes: nat): nat { FloorPages(p, bytes + p - 1) }

  predicate PageAligned(p: PageSize, x: nat) { if p == 0x1000 then x % 0x1000 == 0 else x % 0x4000 == 0 }

  // ----- encoder --------------------------------------------------------------------------

  /** The last file end is kept in 32 bits. */
  datatype Encoder = Encoder(entries: seq<DiskSegment>, lastFileOffsetEnd: uint32, lastVmAddrEnd: uint64)

  const NOTHING := Encoder([], 0, 0)

  predicate FilePadded(lastEnd: uint32, s: SegmentInfo) { s.fileOffset != 0 && s.fileOffset != lastEnd }

  predicate VmPadded(lastEnd: uint64, s: SegmentInfo) { lastEnd != 0 && s.vmAddr != lastEnd }

  /** Gaps are unsigned and cut to the 30 bits of the field. */
  function FilePadding(p: PageSize, lastEnd: uint32, s: SegmentInfo): DiskSegment
  {
    DiskSegment(FloorPages(p, Wrap64(s.fileOffset - lastEnd)) % 0x4000_0000, 0, 0, true)
  }

  function VmPadding(p: PageSize, lastEnd: uint64, s: SegmentInfo): DiskSegment
  {
    DiskSegment(0, FloorPages(p, Wrap64(s.vmAddr - lastEnd)) % 0x4000_0000, 0, true)
  }

  function Permissions(s: SegmentInfo): uint3 { if s.readOnlyData then READ_ONLY_DATA else s.protections % 8 }

  function SegmentEntry(p: PageSize, s: SegmentInfo): DiskSegment
  {
    DiskSegment(CeilPages(p, s.fileSize) % 0x4000_0000, CeilPages(p, s.vmSize) % 0x4000_0000, Permissions(s), false)
  }

  /** The one to three entries a segment adds. */
  function EntriesFor(p: PageSize, fileEnd: uint32, vmEnd: uint64, s: SegmentInfo): (r: seq<DiskSegment>)
    ensures 1 <= |r| <= 3
  {
    (if FilePadded(fileEnd, s) then [FilePadding(p, fileEnd, s)] else [])
    + (if VmPadded(vmEnd, s) then [VmPadding(p, vmEnd, s)] else [])
    + [SegmentEntry(p, s)]
  }

  function FileEnd(e: Encoder, s: SegmentInfo): uint32
  {
    if s.fileSize != 0 then (s.fileOffset + s.fileSize) % 0x1_0000_0000 else e.lastFileOffsetEnd
  }

  function VmEnd(e: Encoder, s: SegmentInfo): uint64
  {
    if s.vmSize != 0 then Wrap64(s.vmAddr + s.vmSize) else e.lastVmAddrEnd
  }

  function Encode(p: PageSize, segs: seq<SegmentInfo>): Encoder
  {
    if segs == [] then NOTHING else
    var e, s := Encode(p, segs[..|segs| - 1]), segs[|segs| - 1];
    Encoder(e.entries + EntriesFor(p, e.lastFileOffsetEnd, e.lastVmAddrEnd, s), FileEnd(e, s), VmEnd(e, s))
  }

  /** Writes the next entry of the buffer. */
  method Put(dsegs: array<DiskSegment>, diskSegIndex: nat, d: DiskSegment) returns (next: nat)
    requires diskSegIndex < dsegs.Length
    modifies dsegs
    ensures next == diskSegIndex + 1 && dsegs[..next] == old(dsegs[..diskSegIndex]) + [d]
  {
    dsegs[diskSegIndex] := d;
    next := diskSegIndex + 1;
  }

  /** The entries of one segment: file padding, virtual padding, the segment. */
  method AddSegment(p: PageSize, s: SegmentInfo, dsegs: array<DiskSegment>, start: nat, fileEnd: uint32, vmEnd: uint64)
    returns (diskSegIndex: nat)
    requires start + 3 <= dsegs.Length
    modifies dsegs
    ensures start < diskSegIndex <= start + 3
    ensures dsegs[..diskSegIndex] == old(dsegs[..start]) + EntriesFor(p, fileEnd, vmEnd, s)
  {
    hide FilePadding, VmPadding, SegmentEntry;
    diskSegIndex := start;
    if s.fileOffset != 0 && s.fileOffset != fileEnd {
      diskSegIndex := Put(dsegs, diskSegIndex, FilePadding(p, fileEnd, s));
    }
    if vmEnd != 0 && s.vmAddr != vmEnd {
      diskSegIndex := Put(dsegs, diskSegIndex, VmPadding(p, vmEnd, s));
    }
    diskSegIndex := Put(dsegs, diskSegIndex, SegmentEntry(p, s));
  }

  /** Fills a buffer with room for three entries a segment and returns the part used. */
  method AddSegments(p: PageSize, segs: seq<SegmentInfo>) returns (entries: seq<DiskSegment>)
    ensures entries == Encode(p, segs).entries && |entries| <= 3 * |segs|
  {
    hide EntriesFor, Wrap64;
    var dsegs := new DiskSegment[3 * |segs|](_ => DiskSegment(0, 0, 0, false));
    var diskSegIndex, lastFileOffsetEnd: uint32, lastVmAddrEnd: uint64 := 0, 0, 0;
    for k := 0 to |segs|
      invariant diskSegIndex <= 3 * k
      invariant Encode(p, segs[..k]) == Encoder(dsegs[..diskSegIndex], lastFileOffsetEnd, lastVmAddrEnd)
    {
      assert segs[..k + 1][..k] == segs[..k];
      var s := segs[k];
      diskSegIndex := AddSegment(p, s, dsegs, diskSegIndex, lastFileOffsetEnd, lastVmAddrEnd);
      if s.fileSize != 0 { lastFileOffsetEnd := (s.fileOffset + s.fileSize) % 0x1_0000_0000; }
      if s.vmSize != 0 { lastVmAddrEnd := Wrap64(s.vmAddr + s.vmSize); }
    }
    entries := dsegs[..diskSegIndex];
    assert segs[..|segs|] == segs;
  }

  // ----- expansion ------------------------------------------------------------------------

  datatype Report = Report(
    segIndex: nat, fileOffset: uint32, fileSize: uint32, vmOffset: int, vmSize: nat, permissions: uint3, laterReadOnly: bool)

  /** What the walk has reported, and its cursors. */
  datatype Walk = Walk(reports: seq<Report>, vmOffset: int, fileOffset: uint32)

  /** Pages of virtual memory before the first entry with file content. */
  function LeadingPages(entries: seq<DiskSegment>): nat
  {
    if entries == [] || entries[0].filePageCount != 0 then 0 else entries[0].vmPageCount + LeadingPages(entries[1..])
  }

  function FileBytes(p: PageSize, d: DiskSegment): uint32 { Bytes(p, d.filePageCount) % 0x1_0000_0000 }

  function ReportOf(p: PageSize, d: DiskSegment, w: Walk): Report
  {
    var ro := d.permissions == READ_ONLY_DATA;
    Report(|w.reports|, if FileBytes(p, d) == 0 then 0 else w.fileOffset, FileBytes(p, d), w.vmOffset,
           Bytes(p, d.vmPageCount), if ro then PROT_READ_WRITE else d.permissions, ro)
  }

  function WalkEntry(p: PageSize, d: DiskSegment, w: Walk): Walk
  {
    Walk(if d.paddingNotSeg then w.reports else w.reports + [ReportOf(p, d, w)],
         w.vmOffset + Bytes(p, d.vmPageCount), (w.fileOffset + FileBytes(p, d)) % 0x1_0000_0000)
  }

  function WalkAll(p: PageSize, entries: seq<DiskSegment>, start: int): Walk
  {
    if entries == [] then Walk([], start, 0)
    else WalkEntry(p, entries[|entries| - 1], WalkAll(p, entries[..|entries| - 1], start))
  }

  function Expand(p: PageSize, entries: seq<DiskSegment>): seq<Report>
  {
    WalkAll(p, entries, -Bytes(p, LeadingPages(entries))).reports
  }

  lemma BytesOfNothing(p: PageSize)
    ensures Bytes(p, 0) == 0
  {
  }

  lemma BytesSum(p: PageSize, a: int, b: int)
    ensures Bytes(p, a + b) == Bytes(p, a) + Bytes(p, b)
  {
  }

  /** The walk over all entries, from a given virtual offset. */
  method WalkSegments(p: PageSize, entries: seq<DiskSegment>, start: int) returns (reports: seq<Report>)
    ensures reports == WalkAll(p, entries, start).reports
  {
    var segIndex, fileOffset: uint32, vmOffset: int := 0, 0, start;
    reports := [];
    for k := 0 to |entries|
      invariant segIndex == |reports|
      invariant WalkAll(p, entries[..k], start) == Walk(reports, vmOffset, fileOffset)
    {
      assert entries[..k + 1][..k] == entries[..k];
      var d := entries[k];
      var vmSize: nat := Bytes(p, d.vmPageCount);
      var fileSize := Bytes(p, d.filePageCount) % 0x1_0000_0000;
      if !d.paddingNotSeg {
        var perms, laterRO := d.permissions, false;
        if perms == READ_ONLY_DATA {
          perms, laterRO := PROT_READ_WRITE, true;
        }
        reports := reports + [Report(segIndex, if fileSize == 0 then 0 else fileOffset, fileSize, vmOffset, vmSize, perms, laterRO)];
        segIndex := segIndex + 1;
      }
      vmOffset := vmOffset + vmSize;
      fileOffset := (fileOffset + fileSize) % 0x1_0000_0000;
    }
    assert entries[..|entries|] == entries;
  }

  method ForEachDiskSegment(p: PageSize, entries: seq<DiskSegment>) returns (reports: seq<Report>)
    ensures reports == Expand(p, entries)
  {
    hide Bytes, WalkAll;
    BytesOfNothing(p);
    var vmOffset := 0;
    var i := 0;
    while i < |entries| && entries[i].filePageCount == 0
      invariant i <= |entries|
      invariant -vmOffset == Bytes(p, LeadingPages(entries) - LeadingPages(entries[i..]))
    {
      BytesSum(p, LeadingPages(entries) - LeadingPages(entries[i..]), entries[i].vmPageCount);
      assert entries[i..][1..] == entries[i + 1..];
      vmOffset := vmOffset - Bytes(p, entries[i].vmPageCount);
      i := i + 1;
    }
    assert LeadingPages(entries[i..]) == 0;
    reports := WalkSegments(p, entries, vmOffset);
  }

  // ----- layouts the encoding is meant for ---------------------------------------------------

  /** Where the file content before position `n` ends. */
  function ContentEnd(segs: seq<SegmentInfo>): nat
  {
    if segs == [] then 0
    else if segs[|segs| - 1].fileSize != 0 then segs[|segs| - 1].fileOffset + segs[|segs| - 1].fileSize
    else ContentEnd(segs[..|segs| - 1])
  }

  predicate SegmentOk(p: PageSize, s: SegmentInfo)
  {
    && PageAligned(p, s.vmAddr) && 0 < s.vmSize && s.vmAddr + s.vmSize < TWO_64
    && PageAligned(p, s.fileOffset) && (s.fileSize == 0 ==> s.fileOffset == 0)
    && CeilPages(p, s.vmSize) < 0x4000_0000
    && CeilPages(p, s.fileOffset + s.fileSize) <= FloorPages(p, 0xFFFF_FFFF)
  }

  /** The next segment starts at or after the end of this one, within 2^30 pages. */
  predicate Follows(p: PageSize, prev: SegmentInfo, s: SegmentInfo)
  {
    prev.vmAddr + prev.vmSize <= s.vmAddr && FloorPages(p, s.vmAddr - prev.vmAddr - prev.vmSize) < 0x4000_0000
  }

  /** Content comes after the content so far; the first content starts the file. */
  predicate ContentFollows(end: nat, s: SegmentInfo)
  {
    s.fileSize != 0 ==> end <= s.fileOffset && (end == 0 ==> s.fileOffset == 0)
  }

  predicate Fits(p: PageSize, front: seq<SegmentInfo>, s: SegmentInfo)
  {
    SegmentOk(p, s) && (front != [] ==> Follows(p, front[|front| - 1], s)) && ContentFollows(ContentEnd(front), s)
  }

  /** Page-aligned, ordered, non-overlapping segments; the first with file content starts the file;
      every extent and gap fits its field. */
  predicate Layout(p: PageSize, segs: seq<SegmentInfo>)
  {
    segs == [] || (Layout(p, segs[..|segs| - 1]) && Fits(p, segs[..|segs| - 1], segs[|segs| - 1]))
  }

  predicate HasContent(segs: seq<SegmentInfo>)
  {
    exists k :: 0 <= k < |segs| && segs[k].fileSize != 0
  }

  /** The virtual address the reported offsets count from: that of the first segment with file content,
      or the page after the last segment when none has any. */
  function BaseAddress(p: PageSize, segs: seq<SegmentInfo>): (base: nat)
    requires segs != []
    ensures HasContent(segs) ==>
              exists k :: 0 <= k < |segs| && segs[k].fileSize != 0 && (forall j :: 0 <= j < k ==> segs[j].fileSize == 0)
                && base == segs[k].vmAddr
  {
    var front, s := segs[..|segs| - 1], segs[|segs| - 1];
    if HasContent(front) then
      var base := BaseAddress(p, front);
      var k :| 0 <= k < |front| && front[k].fileSize != 0 && (forall j :: 0 <= j < k ==> front[j].fileSize == 0)
               && base == front[k].vmAddr;
      assert segs[k] == front[k] && forall j :: 0 <= j < k ==> segs[j] == front[j];
      base
    else
      assert forall j :: 0 <= j < |front| ==> front[j] == segs[j];
      if s.fileSize != 0 then s.vmAddr else s.vmAddr + Bytes(p, CeilPages(p, s.vmSize))
  }

  /** What should be reported for segment `k`, with offsets counted from `base`. */
  function Expected(p: PageSize, s: SegmentInfo, k: nat, base: int): Report
    requires CeilPages(p, s.fileSize) <= FloorPages(p, 0xFFFF_FFFF) && s.fileOffset < 0x1_0000_0000
  {
    var ro := Permissions(s) == READ_ONLY_DATA;
    Report(k, s.fileOffset, Bytes(p, CeilPages(p, s.fileSize)), s.vmAddr - base, Bytes(p, CeilPages(p, s.vmSize)),
           if ro then PROT_READ_WRITE else s.protections % 8, ro)
  }

  // ----- proof ------------------------------------------------------------------------------

  lemma PageFacts(p: PageSize, a: nat, size: nat, b: nat)
    requires PageAligned(p, a) && PageAligned(p, b) && a + size <= b
    ensures Bytes(p, FloorPages(p, b - a - size) + CeilPages(p, size)) == b - a
  {
    var pages := FloorPages(p, b) - FloorPages(p, a);
    if p == 0x1000 {
      assert b - a == 0x1000 * pages;
      assert (0x1000 * pages - size) / 0x1000 == pages - (size + 0xFFF) / 0x1000;
    } else {
      assert b - a == 0x4000 * pages;
      assert (0x4000 * pages - size) / 0x4000 == pages - (size + 0x3FFF) / 0x4000;
    }
  }

  lemma CeilAligned(p: PageSize, a: nat, size: nat)
    requires PageAligned(p, a)
    ensures Bytes(p, CeilPages(p, a + size)) == a + Bytes(p, CeilPages(p, size))
    ensures CeilPages(p, size) <= CeilPages(p, a + size)
  {
    var n := FloorPages(p, a);
    assert a == Bytes(p, n);
    if p == 0x1000 {
      assert (size + 0xFFF + 0x1000 * n) / 0x1000 == (size + 0xFFF) / 0x1000 + n;
    } else {
      assert (size + 0x3FFF + 0x4000 * n) / 0x4000 == (size + 0x3FFF) / 0x4000 + n;
    }
  }

  lemma SmallFile(p: PageSize, pages: nat)
    requires pages <= FloorPages(p, 0xFFFF_FFFF)
    ensures 0 <= Bytes(p, pages) < 0x1_0000_0000 && pages < 0x4000_0000
  {
  }

  lemma WalkConcat(p: PageSize, a: seq<DiskSegment>, d: DiskSegment, start: int)
    ensures WalkAll(p, a + [d], start) == WalkEntry(p, d, WalkAll(p, a, start))
  {
    assert (a + [d])[..|a|] == a;
  }

  /** Content has ended at `end` and the last segment was `prev`: the cursors stand at the pages after them. */
  predicate Stands(p: PageSize, prev: SegmentInfo, end: nat, fileEnd: uint32, vmEnd: uint64, w: Walk, base: int)
  {
    && SegmentOk(p, prev)
    && fileEnd == end && w.fileOffset == Bytes(p, CeilPages(p, end))
    && vmEnd == prev.vmAddr + prev.vmSize
    && w.vmOffset == prev.vmAddr - base + Bytes(p, CeilPages(p, prev.vmSize))
  }

  /** The walk is about to meet the entries of segment `s`: at the very start, or after a previous segment. */
  predicate Before(p: PageSize, front: seq<SegmentInfo>, s: SegmentInfo, e: Encoder, w: Walk, base: int)
  {
    if front == [] then e == NOTHING && w == Walk([], s.vmAddr - base, 0)
    else Stands(p, front[|front| - 1], ContentEnd(front), e.lastFileOffsetEnd, e.lastVmAddrEnd, w, base)
  }

  lemma WalkConcatMany(p: PageSize, a: seq<DiskSegment>, b: seq<DiskSegment>, c: seq<DiskSegment>, d: DiskSegment, start: int)
    requires |b| <= 1 && |c| <= 1
    ensures WalkAll(p, a + (b + c + [d]), start)
         == WalkEntry(p, d, if c == [] then (if b == [] then WalkAll(p, a, start) else WalkEntry(p, b[0], WalkAll(p, a, start)))
                            else WalkEntry(p, c[0], if b == [] then WalkAll(p, a, start) else WalkEntry(p, b[0], WalkAll(p, a, start))))
  {
    hide WalkEntry;
    assert a + (b + c + [d]) == (a + b + c) + [d];
    WalkConcat(p, a + b + c, d, start);
    if c != [] {
      assert a + b + c == (a + b) + [c[0]];
      WalkConcat(p, a + b, c[0], start);
    } else {
      assert a + b + c == a + b;
    }
    if b != [] {
      assert a + b == a + [b[0]];
      WalkConcat(p, a, b[0], start);
    } else {
      assert a + b == a;
    }
  }

  lemma FloorSmall(p: PageSize, x: nat)
    requires x < 0x1_0000_0000
    ensures FloorPages(p, x) <= FloorPages(p, 0xFFFF_FFFF)
  {
  }

  /** A gap's page count survives the field width when it is below 2^30. */
  lemma PaddingCounts(p: PageSize, fileEnd: uint32, vmEnd: uint64, s: SegmentInfo)
    ensures fileEnd <= s.fileOffset && FloorPages(p, s.fileOffset - fileEnd) < 0x4000_0000 ==>
              FilePadding(p, fileEnd, s) == DiskSegment(FloorPages(p, s.fileOffset - fileEnd), 0, 0, true)
    ensures vmEnd <= s.vmAddr && FloorPages(p, s.vmAddr - vmEnd) < 0x4000_0000 ==>
              VmPadding(p, vmEnd, s) == DiskSegment(0, FloorPages(p, s.vmAddr - vmEnd), 0, true)
  {
  }

  lemma OffsetSmall(p: PageSize, s: SegmentInfo)
    requires SegmentOk(p, s)
    ensures s.fileOffset + s.fileSize < 0x1_0000_0000
    ensures CeilPages(p, s.fileSize) <= FloorPages(p, 0xFFFF_FFFF)
    ensures s.fileOffset + Bytes(p, CeilPages(p, s.fileSize)) == Bytes(p, CeilPages(p, s.fileOffset + s.fileSize)) < 0x1_0000_0000
  {
    CeilAligned(p, s.fileOffset, s.fileSize);
    SmallFile(p, CeilPages(p, s.fileOffset + s.fileSize));
  }

  /** A file padding entry moves only the file cursor, to the segment's offset. */
  lemma FilePaddingWalk(p: PageSize, fileEnd: uint32, s: SegmentInfo, w: Walk)
    requires SegmentOk(p, s) && fileEnd <= s.fileOffset && w.fileOffset == Bytes(p, CeilPages(p, fileEnd))
    ensures WalkEntry(p, FilePadding(p, fileEnd, s), w) == w.(fileOffset := s.fileOffset)
  {
    hide Bytes, CeilPages, FloorPages, FilePadding;
    OffsetSmall(p, s);
    BytesOfNothing(p);
    var gap := FloorPages(p, s.fileOffset - fileEnd);
    FloorSmall(p, s.fileOffset - fileEnd);
    SmallFile(p, gap);
    PaddingCounts(p, fileEnd, 0, s);
    assert PageAligned(p, 0);
    PageFacts(p, 0, fileEnd, s.fileOffset);
    BytesSum(p, gap, CeilPages(p, fileEnd));
  }

  /** A virtual padding entry moves only the virtual cursor, to the segment's address. */
  lemma VmPaddingWalk(p: PageSize, prev: SegmentInfo, s: SegmentInfo, w: Walk, base: int)
    requires SegmentOk(p, s) && SegmentOk(p, prev) && prev.vmAddr + prev.vmSize <= s.vmAddr
    requires FloorPages(p, s.vmAddr - prev.vmAddr - prev.vmSize) < 0x4000_0000
    requires w.vmOffset == prev.vmAddr - base + Bytes(p, CeilPages(p, prev.vmSize))
    ensures WalkEntry(p, VmPadding(p, prev.vmAddr + prev.vmSize, s), w) == w.(vmOffset := s.vmAddr - base)
  {
    hide Bytes, CeilPages, FloorPages, VmPadding;
    var gap := FloorPages(p, s.vmAddr - prev.vmAddr - prev.vmSize);
    PaddingCounts(p, 0, prev.vmAddr + prev.vmSize, s);
    PageFacts(p, prev.vmAddr, prev.vmSize, s.vmAddr);
    BytesSum(p, gap, CeilPages(p, prev.vmSize));
    BytesOfNothing(p);
    assert 0 <= w.fileOffset < 0x1_0000_0000;
  }

  /** Without a gap the next page is the next segment's. */
  lemma NoGap(p: PageSize, a: nat, size: nat)
    requires PageAligned(p, a) && PageAligned(p, a + size)
    ensures a + Bytes(p, CeilPages(p, size)) == a + size
  {
    PageFacts(p, a, size, a + size);
  }

  /** The segment's own entry is reported as expected and moves both cursors past it. */
  lemma SegmentWalk(p: PageSize, s: SegmentInfo, w: Walk, base: int)
    requires SegmentOk(p, s) && w.vmOffset == s.vmAddr - base && (s.fileSize != 0 ==> w.fileOffset == s.fileOffset)
    requires s.fileOffset < 0x1_0000_0000 && CeilPages(p, s.fileSize) <= FloorPages(p, 0xFFFF_FFFF)
    ensures var r := WalkEntry(p, SegmentEntry(p, s), w);
            && r.reports == w.reports + [Expected(p, s, |w.reports|, base)]
            && r.vmOffset == s.vmAddr - base + Bytes(p, CeilPages(p, s.vmSize))
            && r.fileOffset == if s.fileSize != 0 then Bytes(p, CeilPages(p, s.fileOffset + s.fileSize)) else w.fileOffset
  {
    hide Bytes, CeilPages, FloorPages;
    OffsetSmall(p, s);
    SmallFile(p, CeilPages(p, s.fileSize));
    BytesOfNothing(p);
    NoContent(p, s.fileSize);
  }

  lemma NoContent(p: PageSize, size: nat)
    ensures size == 0 <==> Bytes(p, CeilPages(p, size)) == 0
  {
  }

  /** Each segment is reported as expected, in order. */
  predicate ReportedAs(p: PageSize, s: SegmentInfo, r: Report, k: nat, base: int)
  {
    && s.fileOffset < 0x1_0000_0000 && CeilPages(p, s.fileSize) <= FloorPages(p, 0xFFFF_FFFF)
    && r == Expected(p, s, k, base)
  }

  predicate AllReported(p: PageSize, segs: seq<SegmentInfo>, reports: seq<Report>, base: int)
  {
    |reports| == |segs| && forall k :: 0 <= k < |segs| ==> ReportedAs(p, segs[k], reports[k], k, base)
  }

  /** Where the padding entries of a segment leave the walk: exactly at the segment. */
  function Positioned(p: PageSize, fileEnd: uint32, vmEnd: uint64, s: SegmentInfo, w: Walk): Walk
  {
    var w1 := if FilePadded(fileEnd, s) then WalkEntry(p, FilePadding(p, fileEnd, s), w) else w;
    if VmPadded(vmEnd, s) then WalkEntry(p, VmPadding(p, vmEnd, s), w1) else w1
  }

  lemma EntriesWalk(p: PageSize, e: Encoder, s: SegmentInfo, start: int)
    ensures WalkAll(p, e.entries + EntriesFor(p, e.lastFileOffsetEnd, e.lastVmAddrEnd, s), start)
         == WalkEntry(p, SegmentEntry(p, s),
                      Positioned(p, e.lastFileOffsetEnd, e.lastVmAddrEnd, s, WalkAll(p, e.entries, start)))
  {
    hide WalkAll, WalkEntry, FilePadding, VmPadding, SegmentEntry;
    var f := if FilePadded(e.lastFileOffsetEnd, s) then [FilePadding(p, e.lastFileOffsetEnd, s)] else [];
    var v := if VmPadded(e.lastVmAddrEnd, s) then [VmPadding(p, e.lastVmAddrEnd, s)] else [];
    WalkConcatMany(p, e.entries, f, v, SegmentEntry(p, s), start);
  }

  lemma ZeroPage(p: PageSize)
    ensures PageAligned(p, 0) && Bytes(p, CeilPages(p, 0)) == 0
  {
  }

  /** With no virtual padding the walk already stands at the segment. */
  lemma NoVmPadding(p: PageSize, prev: SegmentInfo, s: SegmentInfo)
    requires SegmentOk(p, prev) && SegmentOk(p, s) && !VmPadded(prev.vmAddr + prev.vmSize, s)
    ensures prev.vmAddr + Bytes(p, CeilPages(p, prev.vmSize)) == s.vmAddr
  {
    hide Bytes, CeilPages, PageAligned;
    NoGap(p, prev.vmAddr, prev.vmSize);
  }

  /** Padding brings the file cursor to the content of a segment that has any. */
  lemma FilePositioned(p: PageSize, end: uint32, s: SegmentInfo, w: Walk)
    requires SegmentOk(p, s) && ContentFollows(end, s) && w.fileOffset == Bytes(p, CeilPages(p, end))
    ensures var r := if FilePadded(end, s) then WalkEntry(p, FilePadding(p, end, s), w) else w;
            r == if s.fileSize != 0 then w.(fileOffset := s.fileOffset) else w
  {
    hide Bytes, CeilPages, FloorPages, FilePadding, WalkEntry, PageAligned;
    ZeroPage(p);
    if FilePadded(end, s) {
      FilePaddingWalk(p, end, s, w);
    } else if s.fileSize != 0 && s.fileOffset != 0 {
      NoGap(p, 0, s.fileOffset);
    }
  }

  /** The walk reaches each segment of a layout exactly at its address and, if it has content, its file offset. */
  lemma PositionedAt(p: PageSize, front: seq<SegmentInfo>, s: SegmentInfo, e: Encoder, w: Walk, base: int)
    requires Fits(p, front, s) && Before(p, front, s, e, w, base)
    ensures Positioned(p, e.lastFileOffsetEnd, e.lastVmAddrEnd, s, w)
         == Walk(w.reports, s.vmAddr - base, if s.fileSize != 0 then s.fileOffset else w.fileOffset)
  {
    hide Bytes, CeilPages, FloorPages, FilePadding, VmPadding, WalkEntry, PageAligned, SegmentOk, ContentFollows;
    ZeroPage(p);
    FilePositioned(p, e.lastFileOffsetEnd, s, w);
    if front != [] {
      var prev := front[|front| - 1];
      var w1 := if s.fileSize != 0 then w.(fileOffset := s.fileOffset) else w;
      if VmPadded(e.lastVmAddrEnd, s) {
        VmPaddingWalk(p, prev, s, w1, base);
      } else {
        NoVmPadding(p, prev, s);
      }
    }
  }

  lemma EndsInRange(p: PageSize, s: SegmentInfo)
    requires SegmentOk(p, s)
    ensures (s.fileOffset + s.fileSize) % 0x1_0000_0000 == s.fileOffset + s.fileSize
    ensures s.vmSize != 0 && Wrap64(s.vmAddr + s.vmSize) == s.vmAddr + s.vmSize
  {
    OffsetSmall(p, s);
  }

  lemma ContentEndSnoc(front: seq<SegmentInfo>, s: SegmentInfo)
    ensures ContentEnd(front + [s]) == if s.fileSize != 0 then s.fileOffset + s.fileSize else ContentEnd(front)
  {
    assert (front + [s])[..|front|] == front;
  }

  lemma WalkStep(p: PageSize, front: seq<SegmentInfo>, s: SegmentInfo, e: Encoder, w: Walk, base: int)
    requires Fits(p, front, s) && Before(p, front, s, e, w, base)
    ensures var r := WalkEntry(p, SegmentEntry(p, s), Positioned(p, e.lastFileOffsetEnd, e.lastVmAddrEnd, s, w));
            && |r.reports| == |w.reports| + 1 && r.reports[..|w.reports|] == w.reports
            && ReportedAs(p, s, r.reports[|w.reports|], |w.reports|, base)
            && Stands(p, s, ContentEnd(front + [s]), FileEnd(e, s), VmEnd(e, s), r, base)
  {
    hide Bytes, CeilPages, FloorPages, SegmentEntry, WalkEntry, PageAligned, Positioned, SegmentOk, Wrap64, Follows,
      ContentFollows, Expected;
    OffsetSmall(p, s);
    EndsInRange(p, s);
    ContentEndSnoc(front, s);
    PositionedAt(p, front, s, e, w, base);
    ZeroPage(p);
    SegmentWalk(p, s, Positioned(p, e.lastFileOffsetEnd, e.lastVmAddrEnd, s, w), base);
  }

  lemma ReportedSnoc(p: PageSize, segs: seq<SegmentInfo>, reports: seq<Report>, more: seq<Report>, base: int)
    requires segs != [] && AllReported(p, segs[..|segs| - 1], reports, base)
    requires |more| == |reports| + 1 && more[..|reports|] == reports
    requires ReportedAs(p, segs[|segs| - 1], more[|reports|], |reports|, base)
    ensures AllReported(p, segs, more, base)
  {
    hide ReportedAs;
    forall k | 0 <= k < |segs| ensures ReportedAs(p, segs[k], more[k], k, base) {
      if k < |segs| - 1 {
        assert more[k] == more[..|reports|][k];
        assert segs[..|segs| - 1][k] == segs[k];
      }
    }
  }

  /** Walking the entries reports the segments as expected and stands after them. */
  predicate WalkedOk(p: PageSize, segs: seq<SegmentInfo>, e: Encoder, start: int, base: int)
    requires segs != []
  {
    var w := WalkAll(p, e.entries, start);
    AllReported(p, segs, w.reports, base)
    && Stands(p, segs[|segs| - 1], ContentEnd(segs), e.lastFileOffsetEnd, e.lastVmAddrEnd, w, base)
  }

  function Extended(p: PageSize, e: Encoder, s: SegmentInfo): Encoder
  {
    Encoder(e.entries + EntriesFor(p, e.lastFileOffsetEnd, e.lastVmAddrEnd, s), FileEnd(e, s), VmEnd(e, s))
  }

  lemma EncodedStep(p: PageSize, front: seq<SegmentInfo>, s: SegmentInfo, e: Encoder, start: int, base: int)
    requires Fits(p, front, s)
    requires if front == [] then e == NOTHING && start == s.vmAddr - base else WalkedOk(p, front, e, start, base)
    ensures WalkedOk(p, front + [s], Extended(p, e, s), start, base)
  {
    hide Stands, FileEnd, VmEnd, EntriesFor, SegmentEntry, WalkEntry, Positioned, WalkAll, Fits, ReportedAs, ContentEnd,
      AllReported;
    var segs := front + [s];
    assert segs[..|segs| - 1] == front && segs[|segs| - 1] == s;
    var w := WalkAll(p, e.entries, start);
    if front == [] { NothingWalked(p, start, base); }
    WalkStep(p, front, s, e, w, base);
    EntriesWalk(p, e, s, start);
    ReportedSnoc(p, segs, w.reports,
                 WalkEntry(p, SegmentEntry(p, s), Positioned(p, e.lastFileOffsetEnd, e.lastVmAddrEnd, s, w)).reports, base);
  }

  lemma Unsnoc(p: PageSize, segs: seq<SegmentInfo>)
    requires Layout(p, segs) && segs != []
    ensures var front, s := segs[..|segs| - 1], segs[|segs| - 1];
            && Layout(p, front) && Fits(p, front, s) && segs == front + [s]
            && Encode(p, segs) == Extended(p, Encode(p, front), s)
  {
  }

  /** Walking the encoded layout from the right start reports every segment as expected. */
  lemma {:induction false} WalkEncoded(p: PageSize, segs: seq<SegmentInfo>, base: int)
    requires Layout(p, segs) && segs != []
    ensures WalkedOk(p, segs, Encode(p, segs), segs[0].vmAddr - base, base)
  {
    hide WalkedOk, Extended, Fits, Layout;
    var front := segs[..|segs| - 1];
    Unsnoc(p, segs);
    if front != [] {
      assert front[0] == segs[0];
      WalkEncoded(p, front, base);
    }
    EncodedStep(p, front, segs[|segs| - 1], Encode(p, front), segs[0].vmAddr - base, base);
  }

  lemma NothingWalked(p: PageSize, start: int, base: int)
    ensures WalkAll(p, [], start) == Walk([], start, 0)
    ensures AllReported(p, [], [], base) && Encode(p, []) == NOTHING
  {
  }

  // ----- the start of the walk ----------------------------------------------------------------

  function TotalPages(entries: seq<DiskSegment>): nat
  {
    if entries == [] then 0 else TotalPages(entries[..|entries| - 1]) + entries[|entries| - 1].vmPageCount
  }

  lemma {:induction false} TotalWalk(p: PageSize, entries: seq<DiskSegment>, start: int)
    ensures WalkAll(p, entries, start).vmOffset == start + Bytes(p, TotalPages(entries))
  {
    hide Bytes;
    BytesOfNothing(p);
    if entries != [] {
      TotalWalk(p, entries[..|entries| - 1], start);
      BytesSum(p, TotalPages(entries[..|entries| - 1]), entries[|entries| - 1].vmPageCount);
    }
  }

  predicate NoFile(entries: seq<DiskSegment>)
  {
    forall k :: 0 <= k < |entries| ==> entries[k].filePageCount == 0
  }

  lemma {:induction false} LeadingNoFile(a: seq<DiskSegment>, d: DiskSegment, b: seq<DiskSegment>)
    requires NoFile(a)
    ensures LeadingPages(a) == TotalPages(a)
    ensures d.filePageCount != 0 ==> LeadingPages(a + [d] + b) == TotalPages(a)
    decreases |a|
  {
    if a == [] {
      assert (a + [d] + b)[0] == d;
    } else {
      LeadingNoFile(a[1..], d, b);
      assert (a + [d] + b)[1..] == a[1..] + [d] + b;
      TotalFront(a);
    }
  }

  lemma {:induction false} TotalFront(a: seq<DiskSegment>)
    requires a != []
    ensures TotalPages(a) == a[0].vmPageCount + TotalPages(a[1..])
  {
    if |a| > 1 {
      TotalFront(a[..|a| - 1]);
      assert a[1..][..|a| - 2] == a[..|a| - 1][1..];
    } else {
      assert a[..0] == [] && a[1..] == [];
    }
  }

  /** Entries past one with file content do not matter to the start. */
  lemma {:induction false} LeadingStops(a: seq<DiskSegment>, b: seq<DiskSegment>)
    requires !NoFile(a)
    ensures LeadingPages(a + b) == LeadingPages(a)
  {
    if a[0].filePageCount == 0 {
      var k :| 0 <= k < |a| && a[k].filePageCount != 0;
      assert a[1..][k - 1] == a[k];
      LeadingStops(a[1..], b);
      assert (a + b)[1..] == a[1..] + b;
    }
  }

  /** Content gives an entry with file pages; no content gives only entries without. */
  lemma EntryContent(p: PageSize, s: SegmentInfo)
    requires SegmentOk(p, s)
    ensures SegmentEntry(p, s).filePageCount == 0 <==> s.fileSize == 0
  {
    OffsetSmall(p, s);
    SmallFile(p, CeilPages(p, s.fileSize));
    NoContent(p, s.fileSize);
  }

  /** The entries without file content that position the walk at the first segment with content. */
  function PadEntries(p: PageSize, e: Encoder, s: SegmentInfo): seq<DiskSegment>
  {
    if VmPadded(e.lastVmAddrEnd, s) then [VmPadding(p, e.lastVmAddrEnd, s)] else []
  }

  lemma HasContentSnoc(front: seq<SegmentInfo>, s: SegmentInfo)
    ensures HasContent(front + [s]) <==> HasContent(front) || s.fileSize != 0
  {
    var segs := front + [s];
    assert segs[|front|] == s && forall k :: 0 <= k < |front| ==> front[k] == segs[k];
    if HasContent(front) {
      var k :| 0 <= k < |front| && front[k].fileSize != 0;
      assert segs[k].fileSize != 0;
    }
  }

  lemma BaseSnoc(p: PageSize, front: seq<SegmentInfo>, s: SegmentInfo)
    ensures BaseAddress(p, front + [s]) ==
              if HasContent(front) then BaseAddress(p, front)
              else if s.fileSize != 0 then s.vmAddr else s.vmAddr + Bytes(p, CeilPages(p, s.vmSize))
  {
    assert (front + [s])[..|front|] == front;
  }

  lemma {:induction false} StartOfWalk(p: PageSize, segs: seq<SegmentInfo>)
    requires Layout(p, segs) && segs != []
    ensures Bytes(p, LeadingPages(Encode(p, segs).entries)) == BaseAddress(p, segs) - segs[0].vmAddr
    ensures NoFile(Encode(p, segs).entries) <==> !HasContent(segs)
  {
    hide Layout, Fits, Encode, BaseAddress, HasContent, LeadingPages, NoFile, Bytes, CeilPages, EntriesFor, FileEnd, VmEnd;
    hide WalkedOk;
    var front, s := segs[..|segs| - 1], segs[|segs| - 1];
    var e := Encode(p, front);
    Unsnoc(p, segs);
    HasContentSnoc(front, s);
    BaseSnoc(p, front, s);
    if front == [] {
      NothingHas(p);
    } else {
      StartOfWalk(p, front);
    }
    if HasContent(front) {
      LeadingStops(e.entries, EntriesFor(p, e.lastFileOffsetEnd, e.lastVmAddrEnd, s));
      StillHasFile(e.entries, EntriesFor(p, e.lastFileOffsetEnd, e.lastVmAddrEnd, s));
    } else {
      StartWithoutContent(p, front, s);
    }
  }

  lemma NothingHas(p: PageSize)
    ensures !HasContent([]) && NoFile(Encode(p, []).entries)
  {
  }

  lemma StillHasFile(a: seq<DiskSegment>, b: seq<DiskSegment>)
    requires !NoFile(a)
    ensures !NoFile(a + b)
  {
    var k :| 0 <= k < |a| && a[k].filePageCount != 0;
    assert (a + b)[k] == a[k];
  }

  lemma {:induction false} NoContentNoEnd(segs: seq<SegmentInfo>)
    requires !HasContent(segs)
    ensures ContentEnd(segs) == 0
  {
    if segs != [] {
      assert segs[|segs| - 1].fileSize == 0;
      assert forall k :: 0 <= k < |segs| - 1 ==> segs[..|segs| - 1][k] == segs[k];
      NoContentNoEnd(segs[..|segs| - 1]);
    }
  }

  /** The first segment with content, or a further one without. */
  lemma StartWithoutContent(p: PageSize, front: seq<SegmentInfo>, s: SegmentInfo)
    requires Layout(p, front + [s]) && !HasContent(front) && NoFile(Encode(p, front).entries)
    ensures var segs := front + [s];
            var entries := Encode(p, segs).entries;
            && Bytes(p, LeadingPages(entries)) ==
                 (if s.fileSize != 0 then s.vmAddr else s.vmAddr + Bytes(p, CeilPages(p, s.vmSize))) - segs[0].vmAddr
            && (NoFile(entries) <==> s.fileSize == 0)
  {
    hide Bytes, CeilPages, FloorPages, SegmentEntry, VmPadding, FilePadding, WalkEntry, Positioned, WalkAll, LeadingPages,
      TotalPages, Layout, AllReported, HasContent, SegmentOk;
    var segs, e := front + [s], Encode(p, front);
    SnocFacts(p, front, s);
    var d, pads := SegmentEntry(p, s), PadEntries(p, e, s);
    var entries := Encode(p, segs).entries;
    assert entries == (e.entries + pads) + [d] + [];
    EntryContent(p, s);
    PadNoFile(p, e, s);
    assert NoFile(e.entries + pads);
    if s.fileSize == 0 {
      assert NoFile(entries);
      LeadingNoFile(entries, d, []);
      TotalWalk(p, entries, 0);
      WalkEncoded(p, segs, segs[0].vmAddr);
    } else {
      assert entries[|e.entries + pads|] == d;
      LeadingNoFile(e.entries + pads, d, []);
      TotalWalk(p, e.entries + pads, 0);
      PadsPosition(p, front, s);
    }
  }

  lemma SnocFacts(p: PageSize, front: seq<SegmentInfo>, s: SegmentInfo)
    requires Layout(p, front + [s]) && !HasContent(front)
    ensures (front + [s])[..|front + [s]| - 1] == front && (front + [s])[|front + [s]| - 1] == s
    ensures Layout(p, front) && Fits(p, front, s) && SegmentOk(p, s) && s.fileOffset == 0
  {
    assert (front + [s])[..|front + [s]| - 1] == front;
    NoContentNoEnd(front);
  }

  lemma PadNoFile(p: PageSize, e: Encoder, s: SegmentInfo)
    ensures NoFile(PadEntries(p, e, s))
  {
  }

  /** Before the first segment with content, the entries so far and its padding end at its address. */
  lemma PadsPosition(p: PageSize, front: seq<SegmentInfo>, s: SegmentInfo)
    requires Layout(p, front + [s]) && !HasContent(front)
    ensures var e := Encode(p, front);
            WalkAll(p, e.entries + PadEntries(p, e, s), 0).vmOffset == s.vmAddr - (front + [s])[0].vmAddr
  {
    hide Bytes, CeilPages, FloorPages, SegmentEntry, VmPadding, FilePadding, WalkEntry, WalkAll, Layout, Fits, Stands,
      AllReported, HasContent;
    var segs, e := front + [s], Encode(p, front);
    SnocFacts(p, front, s);
    var base := segs[0].vmAddr;
    if front == [] {
      NothingWalked(p, 0, base);
    } else {
      WalkEncoded(p, front, base);
    }
    var w := WalkAll(p, e.entries, 0);
    PositionedAt(p, front, s, e, w, base);
    if VmPadded(e.lastVmAddrEnd, s) {
      WalkConcat(p, e.entries, VmPadding(p, e.lastVmAddrEnd, s), 0);
    } else {
      assert e.entries + [] == e.entries;
    }
  }

  // ----- main result ---------------------------------------------------------------------------

  /** Every layout is recovered: each segment once, in order, at its original file offset, with page-rounded
      sizes and its address counted from the first segment with file content. */
  lemma DiskSegmentRoundTrip(p: PageSize, segs: seq<SegmentInfo>)
    requires Layout(p, segs) && segs != []
    ensures AllReported(p, segs, Expand(p, Encode(p, segs).entries), BaseAddress(p, segs))
  {
    hide AllReported, Layout, Encode, LeadingPages, Stands;
    StartOfWalk(p, segs);
    WalkEncoded(p, segs, BaseAddress(p, segs));
  }

  /** The reported permissions are the original ones exactly when an ordinary segment is not write-only:
      that pattern is taken for read-only data. */
  lemma PermissionsExact(p: PageSize, s: SegmentInfo, k: nat, base: int)
    requires CeilPages(p, s.fileSize) <= FloorPages(p, 0xFFFF_FFFF) && s.fileOffset < 0x1_0000_0000
    ensures var r := Expected(p, s, k, base);
            (r.laterReadOnly == s.readOnlyData && r.permissions == if s.readOnlyData then 3 else s.protections % 8)
            <==> (s.readOnlyData || s.protections % 8 != 2)
  {
  }
}
