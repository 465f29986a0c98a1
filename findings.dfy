/** Three places where loader/loader.c goes wrong on inputs it accepts: a
    flag row one entry short of the pages the handler indexes, a range test
    that admits the byte past a segment, and a flag set before the page is
    mapped. Each is modelled as written beside a lemma that exhibits the
    difference; the rest of the model uses the corrected forms. */
module Findings {
  import opened PageArith
  import opened Paging

  /** loader.c:148 sizes each flag row `mem_size / PAGESIZE`, rounding down. */
  function RowLenAsWritten(memSize: nat): (n: nat)
    ensures n * PageSize <= memSize < n * PageSize + PageSize
  {
    memSize / PageSize
  }

  /** When the memory size leaves a remainder, the page holding the
      segment's last byte has the index the as-written row length, one past
      the row's last entry; the corrected length `PageCount` covers it. */
  lemma RowTooShortAsWritten(memSize: nat)
    requires memSize % PageSize != 0
    ensures PageIndex(memSize - 1) == RowLenAsWritten(memSize)
    ensures PageIndex(memSize - 1) < PageCount(memSize)
  {
    PageIndexInRange(memSize - 1, memSize);
  }

  /** Memory 5000: the row has one entry, but the byte at offset 4096 is on
      page 1. */
  lemma RowTooShortExample()
    ensures RowLenAsWritten(5000) == 1 && PageIndex(4096) == 1 && PageCount(5000) == 2
  {
  }

  /** loader.c:64-65 accepts an address up to and including
      `vaddr + mem_size`. */
  predicate InSegmentAsWritten(addr: nat, seg: Segment)
  {
    seg.vaddr <= addr <= seg.vaddr + seg.memSize
  }

  /** The byte one past every segment passes the as-written test and fails
      the half-open one. When the memory size is a whole number of pages,
      that byte's page index is the page count itself: a page past the
      segment, outside its flag row. */
  lemma OnePastEndAsWritten(seg: Segment)
    ensures InSegmentAsWritten(seg.vaddr + seg.memSize, seg)
    ensures !InSegment(seg.vaddr + seg.memSize, seg)
    ensures seg.memSize % PageSize == 0 ==> PageIndex(seg.memSize) == PageCount(seg.memSize)
  {
  }

  /** The scan over the segments with the as-written range test. */
  function OwnerAsWritten(segs: seq<Segment>, addr: nat, k: nat): (r: Option<nat>)
    ensures r.Some? ==> k <= r.value < |segs| && InSegmentAsWritten(addr, segs[r.value])
    decreases |segs| - k
  {
    if k >= |segs| then None
    else if InSegmentAsWritten(addr, segs[k]) then Some(k)
    else OwnerAsWritten(segs, addr, k + 1)
  }

  /** When a segment starts right where the previous one ends, the
      as-written scan credits its first byte to the previous segment, whose
      page table and permissions then decide the fault; the half-open scan
      credits it to the segment it belongs to. */
  lemma AdjacentSegmentAsWritten(seg: Segment, next: Segment)
    requires next.vaddr == seg.vaddr + seg.memSize && next.memSize > 0
    ensures OwnerAsWritten([seg, next], next.vaddr, 0) == Some(0)
    ensures Owner([seg, next], next.vaddr) == Some(1)
  {
    var segs := [seg, next];
    assert !InSegment(next.vaddr, segs[0]);
    assert OwnerFrom(segs, next.vaddr, 1) == Some(1);
  }

  /** loader.c:68-105 on an unmapped page: the flag is set before `mmap`
      (line 69); a failed `mmap` returns with nothing mapped (line 83); a
      failed `mprotect` returns with the page mapped writable (line 103);
      every exit returns from the handler, so the faulting access is resumed
      whether or not the page was mapped. */
  function MaterialiseAsWritten(segs: seq<Segment>, image: seq<byte>, s: State,
                                i: nat, p: nat, mmapOk: bool, mprotectOk: bool)
    : (r: (Outcome, State))
    requires WellFormed(segs, image) && Shaped(segs, s.table)
    requires i < |segs| && p < |s.table[i]|
    ensures r.0 == Resolved
    ensures Shaped(segs, r.1.table) && r.1.table[i][p]
    ensures forall j, q :: 0 <= j < |segs| && 0 <= q < |s.table[j]| && (j, q) != (i, p) ==>
              r.1.table[j][q] == s.table[j][q]
    ensures !mmapOk ==> r.1.memory == s.memory
    ensures mmapOk ==>
              var base := PageBase(segs[i], p);
              base in r.1.memory &&
              r.1.memory[base].bytes == PageContent(segs[i], image, p) &&
              r.1.memory[base].perm == (if mprotectOk then segs[i].perm else ProtWrite) &&
              forall a :: a in s.memory && a != base ==> a in r.1.memory && r.1.memory[a] == s.memory[a]
  {
    var marked := s.table[i := s.table[i][p := true]];
    if !mmapOk then (Resolved, State(marked, s.memory))
    else
      var page := PageContent(segs[i], image, p);
      var base := PageBase(segs[i], p);
      if !mprotectOk then (Resolved, State(marked, s.memory[base := Region(page, ProtWrite)]))
      else (Resolved, State(marked, s.memory[base := Region(page, segs[i].perm)]))
  }

  /** As written, a failed `mmap` is reported as handled and the page is
      recorded as mapped although nothing was mapped: the state no longer
      satisfies `Coherent`, and every later fault on the page is delegated as
      genuine, however the system calls then fare, so the page can never be
      materialised. The corrected `Step` delegates and leaves the page
      unmarked, and a retry whose calls succeed materialises it. */
  lemma FailedMapAsWritten(segs: seq<Segment>, image: seq<byte>, s: State, e: Event, retry: Event)
    requires WellFormed(segs, image) && Shaped(segs, s.table)
    requires e.signum == SIGSEGV && !e.mmapOk
    requires Locate(segs, e.addr).Some?
    requires !s.table[Locate(segs, e.addr).value.0][Locate(segs, e.addr).value.1]
    requires PageBase(segs[Locate(segs, e.addr).value.0], Locate(segs, e.addr).value.1) !in s.memory
    requires retry.signum == SIGSEGV && retry.addr == e.addr
    ensures var (i, p) := Locate(segs, e.addr).value;
            var w := MaterialiseAsWritten(segs, image, s, i, p, e.mmapOk, e.mprotectOk);
            w.0 == Resolved && w.1.table[i][p] &&
            !Coherent(segs, image, w.1) &&
            Step(segs, image, w.1, retry) == (Delegate, w.1)
    ensures Step(segs, image, s, e) == (Delegate, s)
    ensures Step(segs, image, s, e.(mmapOk := true, mprotectOk := true)).0 == Resolved
  {
    var (i, p) := Locate(segs, e.addr).value;
    var w := MaterialiseAsWritten(segs, image, s, i, p, e.mmapOk, e.mprotectOk);
    assert PageBase(segs[i], p) !in w.1.memory;
  }

  /** As written, a failed `mprotect` is reported as handled with the page
      marked mapped but left writable rather than with the segment's
      permissions, so the state no longer satisfies `Coherent`. */
  lemma FailedProtectAsWritten(segs: seq<Segment>, image: seq<byte>, s: State, i: nat, p: nat)
    requires WellFormed(segs, image) && Shaped(segs, s.table)
    requires i < |segs| && p < |s.table[i]|
    requires segs[i].perm != ProtWrite
    ensures var w := MaterialiseAsWritten(segs, image, s, i, p, true, false);
            w.0 == Resolved && w.1.table[i][p] && !Coherent(segs, image, w.1)
  {
    var w := MaterialiseAsWritten(segs, image, s, i, p, true, false);
    assert w.1.memory[PageBase(segs[i], p)].perm == ProtWrite;
  }
}
