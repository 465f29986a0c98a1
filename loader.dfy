/** The loader's process-wide state and the fault handler that updates it in
    place: the per-segment flag arrays, the pages mapped so far, and the
    handler proved against the transition `Paging.Step`. */
module Loader {
  import opened PageArith
  import opened Paging

  /** `memcpy(dst, src + from, n)` into the start of a freshly mapped page;
      the rest of the page keeps what it held. A zero-length copy reads
      nothing, so `from` may then lie anywhere. */
  method MemCopy(dst: array<byte>, src: seq<byte>, from: nat, n: nat)
    requires n <= dst.Length
    requires n == 0 || from + n <= |src|
    modifies dst
    ensures forall k :: 0 <= k < n ==> dst[k] == src[from + k]
    ensures forall k :: n <= k < dst.Length ==> dst[k] == old(dst[k])
  {
    var k := 0;
    while k < n
      invariant 0 <= k <= n
      invariant forall j :: 0 <= j < k ==> dst[j] == src[from + j]
      invariant forall j :: k <= j < dst.Length ==> dst[j] == old(dst[j])
    {
      dst[k] := src[from + k];
      k := k + 1;
    }
  }

  class LoaderState {
    /** The parsed segment table and the bytes of the image file. */
    const segments: seq<Segment>
    const image: seq<byte>
    /** `flags[i][p]`: whether page `p` of segment `i` has been mapped. The
        row array is set once, when the table is built; its rows are then
        updated in place. */
    const flags: array<array<bool>>
    /** The pages mapped so far, by start address. */
    var memory: map<nat, Region>

    ghost function Rows(): set<array<bool>>
      reads flags
    {
      set i | 0 <= i < flags.Length :: flags[i]
    }

    /** One flag row per segment, each `ceil(mem_size / PageSize)` long and
        none shared with another segment. */
    ghost predicate Valid()
      reads this, flags
    {
      WellFormed(segments, image) &&
      flags.Length == |segments| &&
      (forall i :: 0 <= i < flags.Length ==> flags[i].Length == PageCount(segments[i].memSize)) &&
      (forall i, j :: 0 <= i < j < flags.Length ==> flags[i] != flags[j])
    }

    ghost function Table(): (t: seq<seq<bool>>)
      reads flags, Rows()
      ensures |t| == flags.Length
      ensures forall i :: 0 <= i < flags.Length ==> t[i] == flags[i][..]
    {
      seq(flags.Length, i reads flags, Rows() requires 0 <= i < flags.Length => flags[i][..])
    }

    /** The abstract state the handler's specification speaks of. */
    ghost function Abstract(): State
      reads this, flags, Rows()
    {
      State(Table(), memory)
    }

    /** The table `so_execute` builds before starting the image: one zeroed
        flag row per segment. The source sizes each row `mem_size / PageSize`
        (rounding down), one short of the pages the handler indexes when the
        size leaves a remainder; the row here is `ceil(mem_size / PageSize)`
        long. */
    constructor (segs: seq<Segment>, img: seq<byte>)
      requires WellFormed(segs, img)
      ensures Valid()
      ensures segments == segs && image == img
      ensures Abstract() == Init(segs)
      ensures fresh(flags) && fresh(Rows())
    {
      segments := segs;
      image := img;
      var none := new bool[0];
      var rows := new array<bool>[|segs|](_ => none);
      var i := 0;
      while i < |segs|
        invariant 0 <= i <= |segs|
        invariant forall j :: 0 <= j < i ==> fresh(rows[j])
        invariant forall j :: 0 <= j < i ==> rows[j].Length == PageCount(segs[j].memSize)
        invariant forall j, q :: 0 <= j < i && 0 <= q < rows[j].Length ==> !rows[j][q]
        invariant forall j, k :: 0 <= j < k < i ==> rows[j] != rows[k]
      {
        rows[i] := new bool[PageCount(segs[i].memSize)](_ => false);
        i := i + 1;
      }
      flags := rows;
      memory := map[];
      new;
      forall j | 0 <= j < |segs|
        ensures Table()[j] == Init(segs).table[j]
      {
        assert flags[j][..] == seq(PageCount(segs[j].memSize), _ => false);
      }
    }

    /** The scan over the segments in table order for the first one whose
        half-open range holds `addr`. */
    method FindOwner(addr: nat) returns (r: Option<nat>)
      ensures r == Owner(segments, addr)
    {
      var i := 0;
      while i < |segments|
        invariant 0 <= i <= |segments|
        invariant OwnerFrom(segments, addr, i) == Owner(segments, addr)
      {
        if InSegment(addr, segments[i]) {
          return Some(i);
        }
        i := i + 1;
      }
      return None;
    }

    /** The contents of page `p` of `seg`: a zeroed region of `allocate_mem`
        bytes (the anonymous mapping) whose first `allocate_cpy` bytes are
        copied from the image at `offset + p * PageSize`. */
    method MapPage(seg: Segment, p: nat) returns (bytes: seq<byte>)
      requires SegmentFits(seg, |image|)
      requires p < PageCount(seg.memSize)
      ensures bytes == PageContent(seg, image, p)
    {
      var allocLen := AllocLen(p, seg.memSize);
      var page := new byte[allocLen](_ => 0);
      var copyLen := CopyLen(p, seg.fileSize);
      CopyWithinAlloc(p, seg.memSize, seg.fileSize);
      MemCopy(page, image, seg.offset + p * PageSize, copyLen);
      PageContentBytes(seg, image, p);
      bytes := page[..];
    }

    /** `flags[i][p] = 1`: record page `p` of segment `i` as mapped, in place. */
    method MarkMapped(i: nat, p: nat)
      requires Valid()
      requires i < flags.Length && p < flags[i].Length
      modifies flags[i]
      ensures Valid()
      ensures Table() == old(Table())[i := old(Table())[i][p := true]]
    {
      ghost var t := Table();
      flags[i][p] := true;
      forall j | 0 <= j < flags.Length
        ensures Table()[j] == t[i := t[i][p := true]][j]
      {
        if j != i {
          assert flags[j] != flags[i];
        }
      }
    }

    /** loader.c's materialisation of an unmapped page once `mmap` succeeded:
        the filled page enters memory, and the flag is set only when the
        protection call succeeds. */
    method MaterialisePage(i: nat, p: nat, mprotectOk: bool) returns (outcome: Outcome)
      requires Valid()
      requires i < |segments| && p < PageCount(segments[i].memSize)
      modifies this`memory, flags[i]
      ensures Valid()
      ensures (outcome, Abstract()) == Materialise(segments, image, old(Abstract()), i, p, mprotectOk)
    {
      ghost var s := Abstract();
      var seg := segments[i];
      var page := MapPage(seg, p);
      assert Table() == s.table;
      var base := seg.vaddr + p * PageSize;
      if !mprotectOk {
        memory := memory[base := Region(page, ProtWrite)];
        assert Abstract() == s.(memory := s.memory[base := Region(page, ProtWrite)]);
        return Delegate;
      }
      memory := memory[base := Region(page, seg.perm)];
      MarkMapped(i, p);
      assert Abstract() == State(s.table[i := s.table[i][p := true]], s.memory[base := Region(page, seg.perm)]);
      return Resolved;
    }

    /** `segv_handler`. `mmapOk` and `mprotectOk` stand for the outcomes of
        the two system calls. Unlike the source, the flag is set only after
        both calls succeeded (the source sets it before `mmap`), a failing
        call delegates instead of returning, and the upper bound of a
        segment is exclusive (the source's `<=` admits the byte one past). */
    method HandleFault(signum: int, addr: nat, mmapOk: bool, mprotectOk: bool) returns (outcome: Outcome)
      requires Valid()
      modifies this`memory, Rows()
      ensures Valid()
      ensures (outcome, Abstract()) == Step(segments, image, old(Abstract()), Event(signum, addr, mmapOk, mprotectOk))
    {
      ghost var s := Abstract();
      ghost var e := Event(signum, addr, mmapOk, mprotectOk);
      if signum != SIGSEGV {
        return Delegate;
      }
      var owner := FindOwner(addr);
      OwnerIsFirst(segments, addr);
      if owner.None? {
        return Delegate;
      }
      var i := owner.value;
      var seg := segments[i];
      PageIndexInRange(addr - seg.vaddr, seg.memSize);
      var p := PageIndex(addr - seg.vaddr);
      assert Locate(segments, addr) == Some((i, p));
      StepOnPage(segments, image, s, e, i, p);
      if flags[i][p] {
        return Delegate;
      }
      if !mmapOk {
        return Delegate;
      }
      outcome := MaterialisePage(i, p, mprotectOk);
    }
  }

  /** A segment at 0x1000 of 8192 memory bytes, 5000 of them from offset 0
      of the image. Touching its second page resolves it, leaving 904 image
      bytes followed by 3192 zeros at 0x2000 (`page1`); touching that page again, and
      the byte one past the segment's end, are delegated. */
  method TwoPageScenario(image: seq<byte>) returns (first: Outcome, page1: seq<byte>, again: Outcome, past: Outcome)
    requires |image| >= 5000
    ensures first == Resolved && again == Delegate && past == Delegate
    ensures page1 == image[4096 .. 5000] + Zeros(3192)
  {
    var seg := Segment(0x1000, 8192, 5000, 0, 3);
    var loader := new LoaderState([seg], image);
    first := loader.HandleFault(SIGSEGV, 0x1000 + 4096, true, true);
    TwoPageContentExample(image);
    page1 := loader.memory[0x2000].bytes;
    again := loader.HandleFault(SIGSEGV, 0x1000 + 5000, true, true);
    assert !InSegment(0x1000 + 8192, seg);
    past := loader.HandleFault(SIGSEGV, 0x1000 + 8192, true, true);
  }
}
