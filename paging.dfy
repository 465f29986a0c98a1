/** The fault-handling algorithm as a transition on values: the segment
    table, the per-segment page table, the pages materialised so far, and
    what one fault does to them. */
module Paging {
  import opened PageArith

  newtype byte = x: int | 0 <= x < 256

  datatype Option<T> = None | Some(value: T)

  /** The signal number of an invalid memory access (`SIGSEGV` on Linux). */
  const SIGSEGV: int := 11

  /** `PROT_WRITE`: the protection a page is created with before its final
      permissions are applied. */
  const ProtWrite: int := 2

  /** One entry of the parsed segment table. `perm` is passed through to the
      protection call unchanged, so it is kept opaque. */
  datatype Segment = Segment(vaddr: nat, memSize: nat, fileSize: nat, offset: nat, perm: int)

  /** A mapped page: its bytes and the protection it carries. */
  datatype Region = Region(bytes: seq<byte>, perm: int)

  /** What the handler does with a signal: resume the faulting instruction,
      or pass the signal on to the previous disposition. */
  datatype Outcome = Resolved | Delegate

  /** `table[i][p]` records whether page `p` of segment `i` is mapped;
      `memory` maps a page's start address to its contents. */
  datatype State = State(table: seq<seq<bool>>, memory: map<nat, Region>)

  /** One signal delivery, with the outcomes of the two system calls the
      handler would make for it. */
  datatype Event = Event(signum: int, addr: nat, mmapOk: bool, mprotectOk: bool)

  /** The half-open address range `[vaddr, vaddr + mem_size)` of a segment. */
  predicate InSegment(addr: nat, seg: Segment)
  {
    seg.vaddr <= addr < seg.vaddr + seg.memSize
  }

  function PageBase(seg: Segment, p: nat): nat
  {
    seg.vaddr + p * PageSize
  }

  /** A segment the parser may hand over: the file part fits in the memory
      part, and the file part lies inside the image. */
  predicate SegmentFits(seg: Segment, imageSize: nat)
  {
    seg.fileSize <= seg.memSize && seg.offset + seg.fileSize <= imageSize
  }

  predicate WellFormed(segs: seq<Segment>, image: seq<byte>)
  {
    forall i :: 0 <= i < |segs| ==> SegmentFits(segs[i], |image|)
  }

  /** The page table has one row per segment and one entry per page. */
  predicate Shaped(segs: seq<Segment>, table: seq<seq<bool>>)
  {
    |table| == |segs| &&
    forall i :: 0 <= i < |segs| ==> |table[i]| == PageCount(segs[i].memSize)
  }

  /** The page ranges of distinct segments do not overlap. */
  predicate Disjoint(segs: seq<Segment>)
  {
    forall i, j :: 0 <= i < |segs| && 0 <= j < |segs| && i != j ==>
      segs[i].vaddr + PageCount(segs[i].memSize) * PageSize <= segs[j].vaddr ||
      segs[j].vaddr + PageCount(segs[j].memSize) * PageSize <= segs[i].vaddr
  }

  /** The scan over the segments from index `k` on: the first one whose
      range holds `addr`. */
  function OwnerFrom(segs: seq<Segment>, addr: nat, k: nat): Option<nat>
    decreases |segs| - k
  {
    if k >= |segs| then None
    else if InSegment(addr, segs[k]) then Some(k)
    else OwnerFrom(segs, addr, k + 1)
  }

  function Owner(segs: seq<Segment>, addr: nat): Option<nat>
  {
    OwnerFrom(segs, addr, 0)
  }

  lemma {:induction false} OwnerFromFirst(segs: seq<Segment>, addr: nat, k: nat)
    requires forall j :: 0 <= j < k && j < |segs| ==> !InSegment(addr, segs[j])
    ensures OwnerFrom(segs, addr, k).None? <==>
              forall j :: 0 <= j < |segs| ==> !InSegment(addr, segs[j])
    ensures OwnerFrom(segs, addr, k).Some? ==>
              var i := OwnerFrom(segs, addr, k).value;
              i < |segs| && InSegment(addr, segs[i]) &&
              forall j :: 0 <= j < i ==> !InSegment(addr, segs[j])
    decreases |segs| - k
  {
    if k < |segs| && !InSegment(addr, segs[k]) {
      OwnerFromFirst(segs, addr, k + 1);
    }
  }

  /** The owner is the first segment, in table order, whose range holds the
      address; there is none exactly when no segment's range holds it. */
  lemma OwnerIsFirst(segs: seq<Segment>, addr: nat)
    ensures Owner(segs, addr).None? <==>
              forall j :: 0 <= j < |segs| ==> !InSegment(addr, segs[j])
    ensures Owner(segs, addr).Some? ==>
              var i := Owner(segs, addr).value;
              i < |segs| && InSegment(addr, segs[i]) &&
              forall j :: 0 <= j < i ==> !InSegment(addr, segs[j])
  {
    OwnerFromFirst(segs, addr, 0);
  }

  /** The segment and page a fault address belongs to: its owner and the
      page of the owner that holds it. */
  function Locate(segs: seq<Segment>, addr: nat): (r: Option<(nat, nat)>)
    ensures r.None? <==> forall j :: 0 <= j < |segs| ==> !InSegment(addr, segs[j])
    ensures r.Some? ==>
              var (i, p) := r.value;
              i < |segs| && InSegment(addr, segs[i]) &&
              (forall j :: 0 <= j < i ==> !InSegment(addr, segs[j])) &&
              p < PageCount(segs[i].memSize) &&
              PageBase(segs[i], p) <= addr < PageBase(segs[i], p) + PageSize
  {
    OwnerIsFirst(segs, addr);
    match Owner(segs, addr)
    case None => None
    case Some(i) =>
      PageIndexInRange(addr - segs[i].vaddr, segs[i].memSize);
      Some((i, PageIndex(addr - segs[i].vaddr)))
  }

  function Zeros(n: nat): (z: seq<byte>)
    ensures |z| == n && forall k :: 0 <= k < n ==> z[k] == 0
  {
    seq(n, _ => 0)
  }

  /** The contents page `p` of `seg` is created with: `allocate_mem` zero
      bytes whose first `allocate_cpy` bytes are overwritten with the image
      bytes at `offset + p * PageSize`. */
  function PageContent(seg: Segment, image: seq<byte>, p: nat): (c: seq<byte>)
    requires SegmentFits(seg, |image|)
    requires p < PageCount(seg.memSize)
    ensures |c| == AllocLen(p, seg.memSize)
  {
    CopyWithinAlloc(p, seg.memSize, seg.fileSize);
    var alloc := AllocLen(p, seg.memSize);
    var copy := CopyLen(p, seg.fileSize);
    var start := seg.offset + p * PageSize;
    if copy == 0 then Zeros(alloc)
    else image[start .. start + copy] + Zeros(alloc - copy)
  }

  /** A materialised page has `allocate_mem` bytes; the first `allocate_cpy`
      are the image bytes the page maps, the rest are zero. */
  lemma PageContentBytes(seg: Segment, image: seq<byte>, p: nat)
    requires SegmentFits(seg, |image|)
    requires p < PageCount(seg.memSize)
    ensures |PageContent(seg, image, p)| == AllocLen(p, seg.memSize)
    ensures forall k :: 0 <= k < CopyLen(p, seg.fileSize) ==>
              PageContent(seg, image, p)[k] == image[seg.offset + p * PageSize + k]
    ensures forall k :: CopyLen(p, seg.fileSize) <= k < AllocLen(p, seg.memSize) ==>
              PageContent(seg, image, p)[k] == 0
  {
    CopyWithinAlloc(p, seg.memSize, seg.fileSize);
  }

  /** A page wholly inside the file-backed part is a copy of the image. */
  lemma FileBackedPage(seg: Segment, image: seq<byte>, p: nat)
    requires SegmentFits(seg, |image|)
    requires (p + 1) * PageSize <= seg.fileSize
    ensures p < PageCount(seg.memSize)
    ensures PageContent(seg, image, p) ==
              image[seg.offset + p * PageSize .. seg.offset + (p + 1) * PageSize]
  {
    PageCountMonotone(seg.fileSize, seg.memSize);
    PageContentBytes(seg, image, p);
    CopyLenCases(p, seg.fileSize);
    AllocLenOnPage(p, seg.memSize);
  }

  /** A page wholly past the file-backed part is all zero. */
  lemma ZeroFilledPage(seg: Segment, image: seq<byte>, p: nat)
    requires SegmentFits(seg, |image|)
    requires p < PageCount(seg.memSize)
    requires seg.fileSize <= p * PageSize
    ensures PageContent(seg, image, p) == Zeros(AllocLen(p, seg.memSize))
  {
    CopyWithinAlloc(p, seg.memSize, seg.fileSize);
  }

  /** The page that straddles the end of the file part: its first
      `file_size % PageSize` bytes come from the image, the rest are zero. */
  lemma StraddlingPage(seg: Segment, image: seq<byte>, p: nat)
    requires SegmentFits(seg, |image|)
    requires p * PageSize < seg.fileSize < (p + 1) * PageSize
    ensures p < PageCount(seg.memSize)
    ensures var c := PageContent(seg, image, p);
            |c| == AllocLen(p, seg.memSize) &&
            seg.fileSize % PageSize <= |c| &&
            c[.. seg.fileSize % PageSize] ==
              image[seg.offset + p * PageSize .. seg.offset + seg.fileSize] &&
            forall k :: seg.fileSize % PageSize <= k < |c| ==> c[k] == 0
  {
    PageCountMonotone(seg.fileSize, seg.memSize);
    CopyLenCases(p, seg.fileSize);
    PageContentBytes(seg, image, p);
    assert p == seg.fileSize / PageSize;
  }

  /** The table `so_execute` builds: one all-unmapped row per segment,
      `ceil(mem_size / PageSize)` entries long; nothing is mapped yet. */
  function Init(segs: seq<Segment>): (s: State)
    ensures Shaped(segs, s.table)
    ensures forall i, p :: 0 <= i < |s.table| && 0 <= p < |s.table[i]| ==> !s.table[i][p]
    ensures s.memory == map[]
  {
    State(seq(|segs|, i requires 0 <= i < |segs| => seq(PageCount(segs[i].memSize), _ => false)), map[])
  }

  /** Materialising page `p` of segment `i` once `mmap` succeeded: the page
      is created writable and filled, then given the segment's permissions.
      Only when that protection call succeeds is the page marked mapped and
      the fault resolved; otherwise the page stays in memory, writable and
      unmarked, and the fault is delegated. */
  function Materialise(segs: seq<Segment>, image: seq<byte>, s: State, i: nat, p: nat, mprotectOk: bool)
    : (r: (Outcome, State))
    requires WellFormed(segs, image) && Shaped(segs, s.table)
    requires i < |segs| && p < PageCount(segs[i].memSize)
    ensures Shaped(segs, r.1.table)
  {
    var page := PageContent(segs[i], image, p);
    var base := PageBase(segs[i], p);
    if !mprotectOk then (Delegate, s.(memory := s.memory[base := Region(page, ProtWrite)]))
    else (Resolved, State(s.table[i := s.table[i][p := true]], s.memory[base := Region(page, segs[i].perm)]))
  }

  /** One run of the fault handler. A signal other than an invalid access, an
      address no segment holds, a page already mapped and a failing `mmap`
      are delegated untouched; otherwise the page is materialised. */
  function Step(segs: seq<Segment>, image: seq<byte>, s: State, e: Event): (r: (Outcome, State))
    requires WellFormed(segs, image) && Shaped(segs, s.table)
    ensures Shaped(segs, r.1.table)
  {
    if e.signum != SIGSEGV then (Delegate, s)
    else match Locate(segs, e.addr)
      case None => (Delegate, s)
      case Some((i, p)) =>
        if s.table[i][p] || !e.mmapOk then (Delegate, s)
        else Materialise(segs, image, s, i, p, e.mprotectOk)
  }

  /** `Step` on an invalid access that some segment's page holds. */
  lemma StepOnPage(segs: seq<Segment>, image: seq<byte>, s: State, e: Event, i: nat, p: nat)
    requires WellFormed(segs, image) && Shaped(segs, s.table)
    requires e.signum == SIGSEGV && Locate(segs, e.addr) == Some((i, p))
    ensures i < |segs| && p < |s.table[i]|
    ensures Step(segs, image, s, e) ==
              if s.table[i][p] || !e.mmapOk then (Delegate, s)
              else Materialise(segs, image, s, i, p, e.mprotectOk)
  {
  }

  /** The handler resolves a fault exactly when it is an invalid access to an
      unmapped page of some segment and both system calls succeed. */
  lemma ResolvedIff(segs: seq<Segment>, image: seq<byte>, s: State, e: Event)
    requires WellFormed(segs, image) && Shaped(segs, s.table)
    ensures Step(segs, image, s, e).0 == Resolved <==>
              e.signum == SIGSEGV && Locate(segs, e.addr).Some? &&
              !s.table[Locate(segs, e.addr).value.0][Locate(segs, e.addr).value.1] &&
              e.mmapOk && e.mprotectOk
  {
  }

  /** Signals that are not invalid accesses, addresses outside every segment
      and already-mapped pages are delegated, and change nothing. */
  lemma DelegatesUntouched(segs: seq<Segment>, image: seq<byte>, s: State, e: Event)
    requires WellFormed(segs, image) && Shaped(segs, s.table)
    requires e.signum != SIGSEGV ||
             (forall j :: 0 <= j < |segs| ==> !InSegment(e.addr, segs[j])) ||
             (Locate(segs, e.addr).Some? && s.table[Locate(segs, e.addr).value.0][Locate(segs, e.addr).value.1])
    ensures Step(segs, image, s, e) == (Delegate, s)
  {
  }

  /** A fault keeps the table's shape, never unmaps an entry, and changes at
      most one entry: the faulting page of the first segment that holds the
      address. A resolved fault sets exactly that entry, which was unmapped. */
  lemma StepTable(segs: seq<Segment>, image: seq<byte>, s: State, e: Event)
    requires WellFormed(segs, image) && Shaped(segs, s.table)
    ensures var s' := Step(segs, image, s, e).1;
            Shaped(segs, s'.table) &&
            (forall i, p :: 0 <= i < |segs| && 0 <= p < |s.table[i]| && s.table[i][p] ==> s'.table[i][p]) &&
            (forall i, p :: 0 <= i < |segs| && 0 <= p < |s.table[i]| && s'.table[i][p] != s.table[i][p] ==>
               Locate(segs, e.addr) == Some((i, p)))
    ensures Step(segs, image, s, e).0 == Resolved ==>
              var (i, p) := Locate(segs, e.addr).value;
              !s.table[i][p] && Step(segs, image, s, e).1.table == s.table[i := s.table[i][p := true]]
  {
  }

  /** A resolved fault leaves at the page's start address the page's
      contents, with the segment's permissions. */
  lemma ResolvedPage(segs: seq<Segment>, image: seq<byte>, s: State, e: Event)
    requires WellFormed(segs, image) && Shaped(segs, s.table)
    requires Step(segs, image, s, e).0 == Resolved
    ensures var (i, p) := Locate(segs, e.addr).value;
            var base := PageBase(segs[i], p);
            var m := Step(segs, image, s, e).1.memory;
            base in m && m[base] == Region(PageContent(segs[i], image, p), segs[i].perm) &&
            m.Keys == s.memory.Keys + {base} &&
            forall a :: a in s.memory && a != base ==> m[a] == s.memory[a]
  {
  }

  /** Touching a page again after it was resolved is a genuine fault: it is
      delegated and nothing is copied or allocated a second time. */
  lemma SecondTouchDelegates(segs: seq<Segment>, image: seq<byte>, s: State, e: Event, e': Event)
    requires WellFormed(segs, image) && Shaped(segs, s.table)
    requires Step(segs, image, s, e).0 == Resolved
    requires e'.signum == SIGSEGV && Locate(segs, e'.addr) == Locate(segs, e.addr)
    ensures Step(segs, image, Step(segs, image, s, e).1, e') == (Delegate, Step(segs, image, s, e).1)
  {
    StepTable(segs, image, s, e);
  }

  /** A failed `mmap` or `mprotect` delegates and leaves the page unmarked,
      so a later fault on it may still materialise it. */
  lemma FailureLeavesUnmapped(segs: seq<Segment>, image: seq<byte>, s: State, e: Event)
    requires WellFormed(segs, image) && Shaped(segs, s.table)
    requires e.signum == SIGSEGV && Locate(segs, e.addr).Some?
    requires !e.mmapOk || !e.mprotectOk
    ensures Step(segs, image, s, e).0 == Delegate
    ensures Step(segs, image, s, e).1.table == s.table
    ensures !e.mmapOk ==> Step(segs, image, s, e).1 == s
  {
  }

  /** Every page the table marks mapped holds, at its start address, the
      contents and permissions it was materialised with. */
  predicate Coherent(segs: seq<Segment>, image: seq<byte>, s: State)
    requires WellFormed(segs, image) && Shaped(segs, s.table)
  {
    forall i, p :: 0 <= i < |segs| && 0 <= p < |s.table[i]| && s.table[i][p] ==>
      PageBase(segs[i], p) in s.memory &&
      s.memory[PageBase(segs[i], p)] == Region(PageContent(segs[i], image, p), segs[i].perm)
  }

  /** Two different pages of non-overlapping segments start at different
      addresses. */
  lemma DistinctBases(segs: seq<Segment>, i: nat, p: nat, j: nat, q: nat)
    requires Disjoint(segs)
    requires i < |segs| && p < PageCount(segs[i].memSize)
    requires j < |segs| && q < PageCount(segs[j].memSize)
    requires (i, p) != (j, q)
    ensures PageBase(segs[i], p) != PageBase(segs[j], q)
  {
    if i != j {
      assert p * PageSize < PageCount(segs[i].memSize) * PageSize;
      assert q * PageSize < PageCount(segs[j].memSize) * PageSize;
    }
  }

  lemma InitCoherent(segs: seq<Segment>, image: seq<byte>)
    requires WellFormed(segs, image)
    ensures Coherent(segs, image, Init(segs))
  {
  }

  /** One fault keeps every mapped page's contents in place, provided the
      segments do not overlap. */
  lemma StepCoherent(segs: seq<Segment>, image: seq<byte>, s: State, e: Event)
    requires WellFormed(segs, image) && Shaped(segs, s.table)
    requires Disjoint(segs)
    requires Coherent(segs, image, s)
    ensures Coherent(segs, image, Step(segs, image, s, e).1)
  {
    StepTable(segs, image, s, e);
    var s' := Step(segs, image, s, e).1;
    if s' != s {
      var (o, po) := Locate(segs, e.addr).value;
      var base := PageBase(segs[o], po);
      forall i, p | 0 <= i < |segs| && 0 <= p < |s'.table[i]| && s'.table[i][p]
        ensures PageBase(segs[i], p) in s'.memory &&
                s'.memory[PageBase(segs[i], p)] == Region(PageContent(segs[i], image, p), segs[i].perm)
      {
        if (i, p) != (o, po) {
          DistinctBases(segs, i, p, o, po);
        }
      }
    }
  }

  /** The state after a sequence of faults, starting from `s`. */
  function Run(segs: seq<Segment>, image: seq<byte>, s: State, es: seq<Event>): (s': State)
    requires WellFormed(segs, image) && Shaped(segs, s.table)
    ensures Shaped(segs, s'.table)
    decreases |es|
  {
    if es == [] then s
    else Run(segs, image, Step(segs, image, s, es[0]).1, es[1..])
  }

  /** However many faults arrive, no page ever returns to unmapped. */
  lemma {:induction false} RunMonotone(segs: seq<Segment>, image: seq<byte>, s: State, es: seq<Event>)
    requires WellFormed(segs, image) && Shaped(segs, s.table)
    ensures forall i, p :: 0 <= i < |segs| && 0 <= p < |s.table[i]| && s.table[i][p] ==>
              Run(segs, image, s, es).table[i][p]
    decreases |es|
  {
    if es != [] {
      StepTable(segs, image, s, es[0]);
      RunMonotone(segs, image, Step(segs, image, s, es[0]).1, es[1..]);
    }
  }

  /** From the initial table, every mapped page holds its contents after any
      sequence of faults on non-overlapping segments. */
  lemma {:induction false} RunCoherent(segs: seq<Segment>, image: seq<byte>, s: State, es: seq<Event>)
    requires WellFormed(segs, image) && Shaped(segs, s.table)
    requires Disjoint(segs) && Coherent(segs, image, s)
    ensures Coherent(segs, image, Run(segs, image, s, es))
    decreases |es|
  {
    if es != [] {
      StepCoherent(segs, image, s, es[0]);
      RunCoherent(segs, image, Step(segs, image, s, es[0]).1, es[1..]);
    }
  }

  /** The segment at 0x1000 of 8192 bytes: its first byte is page 0, its
      last byte page 1, and the byte one past its end is delegated. */
  lemma OnePastEndExample(image: seq<byte>, s: State, mmapOk: bool, mprotectOk: bool)
    requires |image| >= 5000
    requires Shaped([Segment(0x1000, 8192, 5000, 0, 3)], s.table)
    ensures var segs := [Segment(0x1000, 8192, 5000, 0, 3)];
            Locate(segs, 0x1000) == Some((0, 0)) &&
            Locate(segs, 0x1000 + 8191) == Some((0, 1)) &&
            Step(segs, image, s, Event(SIGSEGV, 0x1000 + 8192, mmapOk, mprotectOk)) == (Delegate, s)
  {
    var segs := [Segment(0x1000, 8192, 5000, 0, 3)];
    assert !InSegment(0x1000 + 8192, segs[0]);
  }

  /** The same segment's pages: page 0 is image bytes 0..4096, page 1 is
      image bytes 4096..5000 followed by 3192 zeros. */
  lemma TwoPageContentExample(image: seq<byte>)
    requires |image| >= 5000
    ensures var seg := Segment(0x1000, 8192, 5000, 0, 3);
            PageContent(seg, image, 0) == image[0 .. 4096] &&
            PageContent(seg, image, 1) == image[4096 .. 5000] + Zeros(3192)
  {
    var seg := Segment(0x1000, 8192, 5000, 0, 3);
    FileBackedPage(seg, image, 0);
    CopyLenCases(1, 5000);
  }
}
