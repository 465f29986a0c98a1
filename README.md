# Demand-paging executable loader: the fault-driven paging engine

This project models the core of a loader that maps an executable's segments
lazily. No segment page is mapped before the program starts. The first access
to a page raises an invalid-memory-access signal (`SIGSEGV`). The loader's
handler then finds the segment that owns the address and the page inside it.
If the page was never mapped, the handler creates it as a zeroed anonymous
page of `allocate_mem` bytes, copies `allocate_cpy` bytes of the image file
into its start, applies the segment's permissions and records the page as
mapped in a per-segment flag table. Anything else goes to the previous signal
disposition: another signal, an address outside every segment, or a page that
is already mapped.

Modules:

- `PageArith` (`page_arith.dfy`) holds the arithmetic of the handler as
  functions: `verifyedges` (`VerifyEdges`), the ceiling page counts `numofmem`
  and `numoffil` (`PageCount`), the page number of an address (`PageIndex`), and
  the per-page lengths `allocate_mem` (`AllocLen`) and `allocate_cpy`
  (`CopyLen`). Lemmas give their bounds, their cases and sums over a segment.
- `Paging` (`paging.dfy`) treats the handler as a transition on values. It
  holds the segment table, the page table as `seq<seq<bool>>`, memory as a map
  from page start address to `Region(bytes, perm)`, and one signal as an
  `Event`. `Step` is one run of the handler. `Run` is a sequence of runs.
  Lemmas cover the delegate cases, monotonicity, the single changed entry, the
  page contents, and the invariant that every mapped page holds its contents.
- `Loader` (`loader.dfy`) is the imperative form. Class `LoaderState` holds the
  flag rows as `array<array<bool>>`, updated in place, and the mapped pages.
  Its constructor builds the zeroed table, as `so_execute` does. `FindOwner` is
  the segment scan. `MapPage` allocates a zeroed page and fills it with
  `MemCopy`, a byte loop modelling `memcpy`. `MarkMapped` sets one flag.
  `HandleFault` is `segv_handler`, and each method is proved against the
  matching `Paging` function.
- `Findings` (`findings.dfy`) models three places where the code goes wrong
  on inputs it accepts. For each one it gives the code as written and a lemma
  that shows the difference.

The source's outcome "return from the handler" becomes `Resolved`. The call
`act.sa_sigaction(...)` to the previous disposition becomes `Delegate`. The
results of `mmap` and `mprotect` are the boolean parameters `mmapOk` and
`mprotectOk`.

In three places the code does something the rest of the handler cannot
cope with. The model uses the corrected form and records the code as
written under "## Findings":

- A flag row has `ceil(mem_size / 4096)` entries, because the handler
  indexes pages up to `ceil(mem_size / 4096) - 1`. The code allocates
  `mem_size / 4096`, rounded down.
- A segment's range is half-open, `[vaddr, vaddr + mem_size)`, because the
  byte at `vaddr + mem_size` is not part of the segment. The code's range
  test uses `<=`.
- A page is marked mapped only after both `mmap` and `mprotect` have
  succeeded. If either call fails, the handler delegates. The code sets the
  flag before `mmap` and returns on either failure, so a page whose `mmap`
  failed is never mapped by a later fault.

After a failed `mprotect`, the page is still mapped writable. So the model
keeps it in memory with `PROT_WRITE` and leaves it unmarked.

## Model

| member | source | states |
|---|---|---|
| `PageArith.VerifyEdges` | loader/loader.c:25-31 | returns only 0 or 1, and 1 exactly when the page number equals the edge page and the size is not a multiple of 4096; C's truncating `%` gives the same answer as Dafny's, negative sizes included |
| `PageArith.PageCount` | loader/loader.c:52-62 | a size of 0 gives 0 pages; a positive size gives the `n` with `(n-1)*4096 < size <= n*4096`, its ceiling |
| `PageArith.PageCountIsLeast` | loader/loader.c:52-62 | any number of pages that covers the size is at least the page count |
| `PageArith.PageCountMonotone` | loader/loader.c:52-62 | a larger size never has fewer pages |
| `PageArith.PageIndex` | loader/loader.c:49-50 | the page number `p` of an offset satisfies `p*4096 <= offset < p*4096 + 4096`, and it is non-negative for a non-negative offset |
| `PageArith.PageIndexInRange` | loader/loader.c:49-65 | an offset inside the segment's memory gives a page number below the memory page count |
| `PageArith.AllocLen` | loader/loader.c:71-76 | `allocate_mem` always lies in `1..4096` |
| `PageArith.AllocLenOnPage` | loader/loader.c:71-76 | on each page of the segment, `allocate_mem` is `min(4096, mem_size - p*4096)`; it ends within the segment; it is short of a full page exactly on the last page when there is a remainder |
| `PageArith.CopyLen` | loader/loader.c:86-94 | `allocate_cpy` never exceeds a page |
| `PageArith.CopyLenCases` | loader/loader.c:86-94 | `allocate_cpy` is 0 past the file pages, the remainder on the last partial file page, and 4096 otherwise; it equals what is left of the file from the page start, capped at a page |
| `PageArith.CopyWithinAlloc` | loader/loader.c:71-98 | with `file_size <= mem_size`, the copy fits in the page, reads only file-backed bytes, and is empty exactly when the page starts at or past the end of the file |
| `PageArith.AllocTotalIsMemSize` | loader/loader.c:71-76 | the `allocate_mem` of all pages of a segment add up to `mem_size` |
| `PageArith.CopyTotalIsFileSize` | loader/loader.c:86-98 | the `allocate_cpy` of all pages of a segment add up to `file_size`, so every file byte is copied exactly once |
| `PageArith.TwoPageExample` | loader/loader.c:52-94 | memory 8192, file 5000: two pages; page 0 copies 4096 bytes; page 1 copies 904 and leaves 3192 zero |
| `PageArith.OnePageExample` | loader/loader.c:52-94 | memory and file both 4096: one page, fully copied |
| `Paging.OwnerIsFirst` | loader/loader.c:44-65 | the segment the scan `Owner` (its steps `OwnerFrom`) picks is the first in table order whose half-open range `InSegment` holds the address; none is picked exactly when no range holds it |
| `Paging.Locate` | loader/loader.c:44-80 | the picked segment holds the address under the half-open test `InSegment`, no earlier one does, and the page lies in the segment's table with the address inside `[PageBase, PageBase + 4096)`, where `PageBase` is the `wheretoplace` address of lines 79-80 |
| `Paging.PageContent` | loader/loader.c:71-98 | a materialised page has `allocate_mem` bytes |
| `Paging.PageContentBytes` | loader/loader.c:78-98 | the page's bytes below `allocate_cpy` are the image bytes at `offset + p*4096`; the bytes from there up to `allocate_mem` are zero |
| `Paging.FileBackedPage` | loader/loader.c:86-98 | a page wholly inside the file part equals the corresponding 4096 image bytes |
| `Paging.ZeroFilledPage` | loader/loader.c:86-98 | a page wholly past the file part is all zero |
| `Paging.StraddlingPage` | loader/loader.c:86-98 | on the page holding the end of the file, the first `file_size % 4096` bytes come from the image and the rest are zero |
| `Paging.Init` | loader/loader.c:144-149 | the initial table has one row per segment, `ceil(mem_size/4096)` entries long, all unmapped; no page is in memory |
| `Paging.Step` | loader/loader.c:34-118 | one run of the handler keeps the table's shape |
| `Paging.Materialise` | loader/loader.c:68-105 | materialising a page keeps the table's shape |
| `Paging.StepOnPage` | loader/loader.c:64-110 | for an address in a segment's page, the handler delegates if the page is mapped or `mmap` fails, and materialises it otherwise |
| `Paging.ResolvedIff` | loader/loader.c:34-118 | a fault is resolved exactly when it is a `SIGSEGV` on an unmapped page of some segment and both `mmap` and `mprotect` succeed |
| `Paging.DelegatesUntouched` | loader/loader.c:39-116 | a non-`SIGSEGV` signal, an address outside every segment, and an already-mapped page are delegated, and the state is unchanged |
| `Paging.StepTable` | loader/loader.c:64-69 | a fault keeps the table's shape, never unmaps an entry, and changes at most the faulting page's entry in the first segment that holds the address; a resolved fault sets exactly that entry, which was unmapped before |
| `Paging.ResolvedPage` | loader/loader.c:78-104 | after a resolved fault, the page's start address holds the page contents with the segment's permissions; no other address changes |
| `Paging.SecondTouchDelegates` | loader/loader.c:67-110 | touching a resolved page again is delegated and changes nothing: no second allocation or copy |
| `Paging.FailureLeavesUnmapped` | loader/loader.c:81-104 | a failing `mmap` or `mprotect` delegates and leaves the table as it was; a failing `mmap` changes nothing at all |
| `Paging.DistinctBases` | loader/loader.c:79-80 | two different pages of non-overlapping segments start at different addresses |
| `Paging.InitCoherent` | loader/loader.c:144-149 | the initial state satisfies the invariant that every mapped page holds its contents |
| `Paging.StepCoherent` | loader/loader.c:64-105 | on non-overlapping segments, one fault keeps every mapped page's contents and permissions at its start address |
| `Paging.Run` | loader/loader.c:34-118 | any sequence of faults keeps the table's shape |
| `Paging.RunMonotone` | loader/loader.c:44-69 | across any sequence of faults, no page returns to unmapped |
| `Paging.RunCoherent` | loader/loader.c:34-118 | across any sequence of faults on non-overlapping segments, every mapped page holds its contents |
| `Paging.OnePastEndExample` | loader/loader.c:64-65 | for the segment at 0x1000 of 8192 bytes, the first byte is page 0, the last byte is page 1, and the byte one past the end is delegated untouched |
| `Paging.TwoPageContentExample` | loader/loader.c:86-98 | for the same segment with 5000 file bytes, page 0 is image bytes 0..4096, and page 1 is image bytes 4096..5000 followed by 3192 zeros |
| `Loader.MemCopy` | loader/loader.c:97-98 | the first `n` bytes of the destination become the source bytes from `from` on; the rest keep their values |
| `Loader.LoaderState.constructor` | loader/loader.c:144-149 | builds one fresh, distinct, all-unmapped flag row per segment, `ceil(mem_size/4096)` long; the abstract state is `Paging.Init` |
| `Loader.LoaderState.FindOwner` | loader/loader.c:44-65 | the loop over the segments returns the owner that `Paging.Owner` specifies |
| `Loader.LoaderState.MapPage` | loader/loader.c:71-98 | the zeroed page with the image copy in its start equals `Paging.PageContent` |
| `Loader.LoaderState.MarkMapped` | loader/loader.c:68-69 | sets exactly one flag in place and leaves every other row and entry unchanged |
| `Loader.LoaderState.MaterialisePage` | loader/loader.c:68-105 | the in-place materialisation has the outcome and new state that `Paging.Materialise` gives |
| `Loader.LoaderState.HandleFault` | loader/loader.c:34-118 | the handler has the outcome and new state that `Paging.Step` gives for the old state, and keeps the table's invariant |
| `Loader.TwoPageScenario` | loader/loader.c:34-118 | for the segment at 0x1000 (8192 memory bytes, 5000 file bytes), a fault on page 1 resolves it and leaves `page1`, the bytes at 0x2000, equal to 904 image bytes and 3192 zeros; a second touch and the byte one past the end are delegated |
| `Findings.RowLenAsWritten` | loader/loader.c:148 | the row length as written is `mem_size / 4096` rounded down |
| `Findings.RowTooShortAsWritten` | loader/loader.c:148 | when `mem_size` leaves a remainder, the last byte's page number equals the as-written row length, one past the row, while it is below the corrected `PageCount` |
| `Findings.RowTooShortExample` | loader/loader.c:148 | memory 5000: the as-written row has one entry, but offset 4096 is on page 1 |
| `Findings.OnePastEndAsWritten` | loader/loader.c:64-65 | the byte one past every segment passes the as-written `<=` test `InSegmentAsWritten` and fails the half-open `InSegment`; for a whole number of pages its page number is the page count, outside the table |
| `Findings.OwnerAsWritten` | loader/loader.c:44-65 | the as-written scan picks only a segment whose as-written range, upper bound included, holds the address |
| `Findings.AdjacentSegmentAsWritten` | loader/loader.c:44-65 | when a segment starts where the previous one ends, the as-written scan gives its first byte to the previous segment, while the half-open scan gives it to its own |
| `Findings.MaterialiseAsWritten` | loader/loader.c:68-105 | as written, the outcome is always resolved and the page is marked mapped whatever `mmap` and `mprotect` do, with no other flag changed; a failed `mmap` leaves memory unchanged, a successful one puts the page's contents at its base with the segment's permissions, or writable only when `mprotect` fails, and keeps every other page |
| `Findings.FailedProtectAsWritten` | loader/loader.c:100-104 | as written, a failed `mprotect` is reported as handled with the page marked mapped but still writable, which breaks the invariant that a marked page holds its contents with the segment's permissions |
| `Findings.FailedMapAsWritten` | loader/loader.c:68-84 | as written, a failed `mmap` is reported as handled with the page marked mapped but absent from memory, which breaks the invariant that a marked page holds its contents, and every later fault on that page is delegated unchanged, so it is never materialised; the corrected step delegates, changes nothing, and resolves a retry whose calls succeed |

## Findings

| source | as written | input that shows it | evidently intended | confidence | as-written member | corrected member |
|---|---|---|---|---|---|---|
| loader/loader.c:148 | each flag row has `mem_size / 4096` entries, rounded down | `mem_size = 5000`: the row has 1 entry, but a fault at `vaddr + 4096` reads and writes `flags[i][1]` | `ceil(mem_size / 4096)` entries | high (not executed) | `Findings.RowTooShortAsWritten` | `PageArith.PageIndexInRange` |
| loader/loader.c:64-65 | the range test is `vaddr <= addr <= vaddr + mem_size` | `vaddr = 0x1000, mem_size = 8192`, address `0x3000`: accepted, page number 2, past the 2-entry row; a segment starting at `0x3000` would lose its first byte to this one | the half-open range `[vaddr, vaddr + mem_size)` | high (not executed) | `Findings.OnePastEndAsWritten` | `Paging.Locate` |
| loader/loader.c:68-104 | the flag is set before `mmap`; a failing `mmap` or `mprotect` returns from the handler | any unmapped page whose `mmap` fails: the fault is reported as handled, the page is marked mapped and never materialised | set the flag only after both calls succeed; on failure delegate to the previous disposition | high (not executed) | `Findings.FailedMapAsWritten` | `Paging.FailureLeavesUnmapped` |

## Left out

- Installing the handler and chaining signals are left out: `so_init_loader`, `sigaction` and the `act.sa_sigaction(...)` calls (loader/loader.c:120-135, 40, 108, 116). Chaining is modelled only as the `Delegate` outcome. As written, `act` is never filled with the previous handler, because `sigaction` is passed a `NULL` old action (loader/loader.c:128). Installing the dispatcher twice is therefore not modelled.
- The executable parser and the entry trampoline are not part of this model: `so_parse_exec` and `so_start_exec` (loader/loader.c:139, 168). The segment table is an input. Its field widths come from `exec_parser.h`, which is not part of this model, so sizes and offsets are unbounded naturals.
- File I/O and the read-only mapping of the image are left out: `fopen`, `fseek`, `ftell`, and `mmap` on file descriptor 3 (loader/loader.c:151-166). The image is a given byte sequence.
- No failure of `calloc` when the table is built is modelled (loader/loader.c:145-149). The source does not check it either.
- The real `mmap` and `mprotect` are left out. They are the boolean inputs `mmapOk` and `mprotectOk`. Every mapped page sits at the address it was asked for. The source passes that address only as a hint (no `MAP_FIXED`), and the kernel may place the page elsewhere. The permission bits are an opaque integer stored with the page.
- The `uintptr_t` to `int` truncation of the page number (loader/loader.c:49) and any `int` overflow of sizes are not modelled. The model uses mathematical integers and checks the range before it indexes the table.
- Concurrent faults from several threads are left out. The flag table and the handler are unsynchronised, so the model treats faults as arriving one at a time.
- Freeing the table and unmapping the image are left out. The source does neither.
- `Loader.LoaderState.HandleFault`: requires that every segment satisfies `file_size <= mem_size` and that its file part lies inside the image. The source does not check this; it relies on the parser, and reading past the image would fault inside the handler.
- `Paging.StepCoherent`: requires the segments' page ranges not to overlap. The source does not check this. Where segments overlap, one page's contents can be overwritten by another's.
- `Paging.RunCoherent`: requires non-overlapping segments, for the same reason as `Paging.StepCoherent`.
