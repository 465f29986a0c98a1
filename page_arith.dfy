/** Page arithmetic of the demand-paging fault handler: how a segment's sizes
    and a fault address turn into page counts, a page number, and the number
    of bytes of a page that are reserved and that come from the image file. */
module PageArith {

  /** The page granularity (`PAGESIZE`); the source's `>> 12` divides by it. */
  const PageSize: nat := 4096

  function Min(a: int, b: int): int { if a <= b then a else b }

  /** The remainder of C's `%` on `int`, which truncates toward zero (its sign
      follows the dividend), unlike Dafny's Euclidean `%`. */
  function CRem(a: int, b: int): int
    requires b > 0
  {
    if a >= 0 then a % b else -((-a) % b)
  }

  /** `verifyedges`: 1 when page `pgnb` is the edge page `nb` and the size
      `sgmnb` leaves that page partly filled, 0 otherwise. The body uses C's
      truncating remainder; the contract states the same test with Dafny's,
      so it holds for a negative `int` size as well. */
  function VerifyEdges(pgnb: int, nb: int, sgmnb: int): (r: int)
    ensures r == 0 || r == 1
    ensures r == 1 <==> pgnb == nb && sgmnb % PageSize != 0
  {
    if pgnb == nb && CRem(sgmnb, PageSize) != 0 then 1 else 0
  }

  /** `numofmem` / `numoffil`: the size shifted right by 12, plus one when a
      remainder is left, i.e. the number of pages the size occupies. */
  function PageCount(size: nat): (n: nat)
    ensures size == 0 <==> n == 0
    ensures n > 0 ==> (n - 1) * PageSize < size <= n * PageSize
  {
    size / PageSize + (if size % PageSize != 0 then 1 else 0)
  }

  /** The page count is the least number of pages that covers the size. */
  lemma PageCountIsLeast(size: nat, m: nat)
    requires size <= m * PageSize
    ensures PageCount(size) <= m
  {
  }

  lemma PageCountMonotone(a: nat, b: nat)
    requires a <= b
    ensures PageCount(a) <= PageCount(b)
  {
  }

  /** `pagenumber >>= 12`: the page of an address `delta` bytes past the start
      of a segment. An arithmetic right shift rounds toward minus infinity,
      as Dafny's `/` does for a positive divisor. */
  function PageIndex(delta: int): (p: int)
    ensures p * PageSize <= delta < p * PageSize + PageSize
    ensures delta >= 0 ==> p >= 0
  {
    delta / PageSize
  }

  /** An offset inside the segment's memory lands on a page the segment has. */
  lemma PageIndexInRange(delta: int, memSize: nat)
    requires 0 <= delta < memSize
    ensures 0 <= PageIndex(delta) < PageCount(memSize)
  {
  }

  /** `allocate_mem`: a full page, except on the last memory page when the
      memory size leaves a remainder, where it is that remainder. */
  function AllocLen(p: int, memSize: nat): (r: nat)
    ensures 1 <= r <= PageSize
  {
    if VerifyEdges(p, PageCount(memSize) - 1, memSize) == 1 then memSize % PageSize else PageSize
  }

  /** On every page of the segment, `allocate_mem` is whatever is left of the
      memory size from the page start, capped at a page; so the reserved bytes
      never run past the segment's end. */
  lemma AllocLenOnPage(p: nat, memSize: nat)
    requires p < PageCount(memSize)
    ensures AllocLen(p, memSize) == Min(PageSize, memSize - p * PageSize)
    ensures p * PageSize + AllocLen(p, memSize) <= memSize
    ensures AllocLen(p, memSize) < PageSize <==>
              p == PageCount(memSize) - 1 && memSize % PageSize != 0
  {
    var n := PageCount(memSize);
    if p == n - 1 && memSize % PageSize != 0 {
      assert n - 1 == memSize / PageSize;
    } else if p < n - 1 {
      assert (p + 1) * PageSize <= (n - 1) * PageSize;
    } else {
      assert memSize == n * PageSize;
    }
  }

  /** `allocate_cpy`: the remainder on the last partial file page, nothing on a
      page past the file, and a full page otherwise. */
  function CopyLen(p: int, fileSize: nat): (r: nat)
    ensures r <= PageSize
  {
    if VerifyEdges(p, PageCount(fileSize) - 1, fileSize) == 1 then fileSize % PageSize
    else if p >= PageCount(fileSize) then 0
    else PageSize
  }

  /** What of the file is left from the page start, clamped to `[0, PageSize]`. */
  function FileBytesFrom(p: nat, fileSize: nat): nat
  {
    if fileSize <= p * PageSize then 0 else Min(PageSize, fileSize - p * PageSize)
  }

  /** `allocate_cpy` in its three cases, and its agreement with the clamped
      amount of file left from the page start. */
  lemma CopyLenCases(p: nat, fileSize: nat)
    ensures p >= PageCount(fileSize) ==> CopyLen(p, fileSize) == 0
    ensures p == PageCount(fileSize) - 1 && fileSize % PageSize != 0 ==>
              CopyLen(p, fileSize) == fileSize % PageSize
    ensures p < PageCount(fileSize) && !(p == PageCount(fileSize) - 1 && fileSize % PageSize != 0) ==>
              CopyLen(p, fileSize) == PageSize
    ensures CopyLen(p, fileSize) == FileBytesFrom(p, fileSize)
  {
    var n := PageCount(fileSize);
    if p >= n {
      assert fileSize <= n * PageSize <= p * PageSize;
    } else if p == n - 1 && fileSize % PageSize != 0 {
      assert n - 1 == fileSize / PageSize;
    } else if p < n - 1 {
      assert (p + 1) * PageSize <= (n - 1) * PageSize;
    } else {
      assert fileSize == n * PageSize;
    }
  }

  /** When the file part fits in the memory part, the bytes copied into a page
      fit in the bytes reserved for it, and they are all file-backed. */
  lemma CopyWithinAlloc(p: nat, memSize: nat, fileSize: nat)
    requires fileSize <= memSize
    requires p < PageCount(memSize)
    ensures CopyLen(p, fileSize) <= AllocLen(p, memSize)
    ensures CopyLen(p, fileSize) == 0 || p * PageSize + CopyLen(p, fileSize) <= fileSize
    ensures CopyLen(p, fileSize) == 0 <==> fileSize <= p * PageSize
  {
    AllocLenOnPage(p, memSize);
    CopyLenCases(p, fileSize);
  }

  /** The bytes reserved by pages `0 .. n-1`. */
  function AllocTotal(n: nat, memSize: nat): nat
  {
    if n == 0 then 0 else AllocTotal(n - 1, memSize) + AllocLen(n - 1, memSize)
  }

  /** The bytes copied from the file by pages `0 .. n-1`. */
  function CopyTotal(n: nat, fileSize: nat): nat
  {
    if n == 0 then 0 else CopyTotal(n - 1, fileSize) + CopyLen(n - 1, fileSize)
  }

  lemma {:induction false} AllocTotalPrefix(n: nat, memSize: nat)
    requires n <= PageCount(memSize)
    ensures AllocTotal(n, memSize) == Min(memSize, n * PageSize)
  {
    if n > 0 {
      AllocTotalPrefix(n - 1, memSize);
      AllocLenOnPage(n - 1, memSize);
    }
  }

  /** Faulting in every page of a segment reserves exactly its memory size. */
  lemma AllocTotalIsMemSize(memSize: nat)
    ensures AllocTotal(PageCount(memSize), memSize) == memSize
  {
    AllocTotalPrefix(PageCount(memSize), memSize);
  }

  lemma {:induction false} CopyTotalPrefix(n: nat, fileSize: nat)
    ensures CopyTotal(n, fileSize) == Min(fileSize, n * PageSize)
  {
    if n > 0 {
      CopyTotalPrefix(n - 1, fileSize);
      CopyLenCases(n - 1, fileSize);
    }
  }

  /** Faulting in every page of a segment copies each file byte exactly once:
      the copied amounts add up to the file size. */
  lemma CopyTotalIsFileSize(memSize: nat, fileSize: nat)
    requires fileSize <= memSize
    ensures CopyTotal(PageCount(memSize), fileSize) == fileSize
  {
    CopyTotalPrefix(PageCount(memSize), fileSize);
  }

  /** Memory 8192, file 5000: page 0 is a full file page; page 1 copies 904
      bytes and leaves 3192 zero. */
  lemma TwoPageExample()
    ensures PageCount(8192) == 2 && PageCount(5000) == 2
    ensures AllocLen(0, 8192) == 4096 && CopyLen(0, 5000) == 4096
    ensures AllocLen(1, 8192) == 4096 && CopyLen(1, 5000) == 904
    ensures AllocLen(1, 8192) - CopyLen(1, 5000) == 3192
  {
  }

  /** Memory and file both exactly one page: one page, fully copied. */
  lemma OnePageExample()
    ensures PageCount(4096) == 1
    ensures AllocLen(0, 4096) == 4096 && CopyLen(0, 4096) == 4096
  {
  }
}
