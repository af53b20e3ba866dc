/**
 Program images: what a PT_LOAD segment asks for (System V ABI, chapter 5, Program Header), which
 pages the loader gives it, and what it writes into each of them.
 */
module ElfImage {
  import opened Wrappers
  import opened PhysicalMemory

  datatype Segment = Segment(load: bool, offset: nat, vaddr: nat, filesz: nat, memsz: nat)

  datatype Elf = Elf(bytes: seq<Byte>, segments: seq<Segment>, entry: nat)

  const LOWER_HALF_END: nat := 0x7FFF_FFFF_FFFF
  const STACK_PAGES: nat := 16
  const STACK_TOP: nat := LOWER_HALF_END + 1 - 0x1000

  /** The first page that is not in the user half. */
  const PAGES_END: nat := (LOWER_HALF_END + 1) / PAGE_SIZE

  /** The file range of a segment lies in the file. */
  predicate InFile(bytes: seq<Byte>, seg: Segment) {
    seg.offset + seg.filesz <= |bytes|
  }

  /** The byte a segment puts at address v: file bytes first, then zeros. */
  function SegmentByte(bytes: seq<Byte>, seg: Segment, v: nat): Byte
    requires InFile(bytes, seg)
  {
    if seg.vaddr <= v < seg.vaddr + seg.filesz then bytes[seg.offset + (v - seg.vaddr)] else 0
  }

  // --- What the loader does ---

  function FirstPage(seg: Segment): nat { seg.vaddr / PAGE_SIZE }

  function FilePages(seg: Segment): nat {
    if seg.filesz > 0 then PageCount(seg.vaddr + seg.filesz) - seg.vaddr / PAGE_SIZE else 0
  }

  function ExtraPages(seg: Segment): nat {
    if seg.memsz > seg.filesz then PageCount(seg.vaddr + seg.memsz) - PageCount(seg.vaddr + seg.filesz) else 0
  }

  function TotalPages(seg: Segment): nat { FilePages(seg) + ExtraPages(seg) }

  /** Loading the segment computes an address outside the user half, which the address type refuses by a
      panic: its own address, one of its pages, or the page at which zero pages would begin. */
  predicate LeavesHalf(seg: Segment) {
    || LOWER_HALF_END < seg.vaddr
    || PAGES_END < FirstPage(seg) + TotalPages(seg)
    || (seg.filesz < seg.memsz && PAGES_END <= FirstPage(seg) + FilePages(seg))
  }

  /** A page of file data: zeroed, then the overlapping part of the file range copied in. */
  function FilePage(bytes: seq<Byte>, seg: Segment, page: nat): FrameBytes
    requires InFile(bytes, seg)
  {
    var base := page * PAGE_SIZE;
    var start := Max(base, seg.vaddr);
    var end := Min(base + PAGE_SIZE, seg.vaddr + seg.filesz);
    if start < end then
      var at, count := seg.offset + (start - seg.vaddr), end - start;
      Zeros(start - base) + bytes[at..at + count] + Zeros(base + PAGE_SIZE - end)
    else
      Zeros(PAGE_SIZE)
  }

  /** The copied page holds exactly the segment's bytes. */
  lemma FilePageIsRight(bytes: seq<Byte>, seg: Segment, page: nat)
    requires InFile(bytes, seg)
    ensures forall i :: 0 <= i < PAGE_SIZE ==>
      FilePage(bytes, seg, page)[i] == SegmentByte(bytes, seg, page * PAGE_SIZE + i)
  {
    var base := page * PAGE_SIZE;
    var start := Max(base, seg.vaddr);
    var end := Min(base + PAGE_SIZE, seg.vaddr + seg.filesz);
    var r := FilePage(bytes, seg, page);
    if start < end {
      var at, count := seg.offset + (start - seg.vaddr), end - start;
      forall i | 0 <= i < PAGE_SIZE ensures r[i] == SegmentByte(bytes, seg, base + i) {
        if start - base <= i < end - base { assert r[i] == bytes[at..at + count][i - (start - base)]; }
      }
    }
  }

  // --- Coverage ---

  /** Every byte the segment asks for lies on one of its pages. */
  ghost predicate Covered(seg: Segment) {
    forall v: nat :: seg.vaddr <= v < seg.vaddr + Max(seg.filesz, seg.memsz) ==> OnPages(seg, v)
  }

  predicate OnPages(seg: Segment, v: nat) {
    PageOf(seg, v / PAGE_SIZE)
  }

  predicate PageOf(seg: Segment, p: nat) {
    FirstPage(seg) <= p < FirstPage(seg) + TotalPages(seg)
  }

  predicate LoadsPage(seg: Segment, p: nat) {
    seg.load && PageOf(seg, p)
  }

  /** The pages cover the segment exactly if it has file bytes, is empty, or starts on a page boundary;
      otherwise the last page of a zero-only segment is missing. */
  lemma CoverageIsExact(seg: Segment)
    ensures Covered(seg) <==> seg.filesz > 0 || seg.memsz == 0 || seg.vaddr % PAGE_SIZE == 0
  {
    if seg.filesz > 0 || seg.memsz == 0 || seg.vaddr % PAGE_SIZE == 0 {
      forall v: nat | seg.vaddr <= v < seg.vaddr + Max(seg.filesz, seg.memsz)
        ensures OnPages(seg, v)
      {
        OnPagesWhenCovered(seg, v);
      }
    } else {
      var v := seg.vaddr + seg.memsz - 1;
      assert PageCount(seg.vaddr) == FirstPage(seg) + 1;
      assert v / PAGE_SIZE + 1 == PageCount(seg.vaddr + seg.memsz);
      assert !OnPages(seg, v);
    }
  }

  lemma OnPagesWhenCovered(seg: Segment, v: nat)
    requires seg.filesz > 0 || seg.memsz == 0 || seg.vaddr % PAGE_SIZE == 0
    requires seg.vaddr <= v < seg.vaddr + Max(seg.filesz, seg.memsz)
    ensures OnPages(seg, v)
  {
  }

  /** That happens exactly if the segment starts outside the user half or runs past it, or if it has zeros
      and its file bytes reach into the last page. */
  lemma LeavesHalfExactly(seg: Segment)
    requires seg.filesz > 0
    ensures LeavesHalf(seg) <==>
      || LOWER_HALF_END + 1 < seg.vaddr + Max(seg.filesz, seg.memsz)
      || (seg.filesz < seg.memsz && LOWER_HALF_END + 1 - PAGE_SIZE < seg.vaddr + seg.filesz)
  {
    assert PageCount(seg.vaddr + seg.filesz) * PAGE_SIZE >= seg.vaddr + seg.filesz;
  }
}
