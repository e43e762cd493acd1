/**
 * The Pintos system-call layer of hw6 (userprog/syscall.c): range checks on user
 * pointers, a one-slot file table, `sbrk`, and the handler that decodes the
 * arguments on the user stack.
 *
 * The kernel services it calls are outside the model and arrive as data:
 * `filesys_open`'s result, the byte count `file_read` or `file_write` reports,
 * and whether `pagedir_set_page` succeeds for a page. `palloc_get_page` fails
 * exactly when the user pool holds no free frame. User memory is a function
 * from addresses to bytes.
 */
module Syscall {
  import opened Wrappers
  import opened Ints

  /** Pintos's page size and the first kernel address (threads/vaddr.h). */
  const PGSIZE: nat := 4096
  const PHYS_BASE: nat := 0xC000_0000

  /** `(uint32_t) -1`, the error return of `sbrk`. */
  const ERROR: uint32 := 0xFFFF_FFFF

  /** The per-thread record: the one open file, the break offset from the heap
      base, the heap pages mapped in the page directory, and the free frames of
      the user pool. */
  datatype Proc = Proc(openFile: Option<nat>, sbrk: int32, heapBase: uint32, mapped: set<nat>, pool: nat)

  // ---------------------------------------------------------------- validation

  /** `is_user_vaddr`. */
  predicate IsUser(va: nat) {
    va < PHYS_BASE
  }

  /** `validate_buffer_in_user_region` lets the call go on. */
  predicate BufferOk(buffer: nat, length: nat) {
    IsUser(buffer) && length <= PHYS_BASE - buffer
  }

  /** `strnlen`: the index of the first NUL among the `maxlen` bytes at `s`, or
      `maxlen` when there is none. */
  function StrNLen(mem: nat -> byte, s: nat, maxlen: nat): (n: nat)
    decreases maxlen
    ensures n <= maxlen
    ensures forall k :: s <= k < s + n ==> mem(k) != 0
    ensures n < maxlen ==> mem(s + n) == 0
  {
    if maxlen == 0 || mem(s) == 0 then 0 else 1 + StrNLen(mem, s + 1, maxlen - 1)
  }

  /** `validate_string_in_user_region` lets the call go on. */
  predicate StringOk(mem: nat -> byte, s: nat) {
    IsUser(s) && StrNLen(mem, s, PHYS_BASE - s) != PHYS_BASE - s
  }

  /** The string check passes exactly when the string starts in user memory and
      a NUL occurs before PHYS_BASE. */
  lemma StringOkIff(mem: nat -> byte, s: nat)
    ensures StringOk(mem, s) <==> IsUser(s) && exists k :: s <= k < PHYS_BASE && mem(k) == 0
  {
    if IsUser(s) && exists k :: s <= k < PHYS_BASE && mem(k) == 0 {
      var k :| s <= k < PHYS_BASE && mem(k) == 0;
      assert s <= k < s + (PHYS_BASE - s);
    }
  }

  // ------------------------------------------------------------ the file slot

  datatype Ret = Ret(p: Proc, value: int)

  /** `syscall_open`: fails while a file is open or when `filesys_open` returns
      NULL (`handle`), otherwise fills the slot and returns descriptor 2. */
  function Open(p: Proc, handle: Option<nat>): (r: Ret)
    ensures p.openFile.Some? ==> r == Ret(p, -1)
    ensures r.p == p.(openFile := r.p.openFile)
    ensures r.value == 2 <==> p.openFile.None? && handle.Some?
    ensures r.value == 2 || r.value == -1
    ensures r.p.openFile == if p.openFile.Some? then p.openFile else handle
  {
    if p.openFile.Some? then Ret(p, -1)
    else if handle.None? then Ret(p.(openFile := None), -1)
    else Ret(p.(openFile := handle), 2)
  }

  /** `syscall_write`: descriptor 1 is the console and reports all `size` bytes
      written; descriptor 2 reports what the file layer wrote (`written`); any
      other descriptor, or 2 with no file open, gives -1. */
  function Write(p: Proc, fd: int, size: uint32, written: int32): (r: int32)
    ensures fd == 1 ==> U32(r) == size
    ensures fd != 1 && (fd != 2 || p.openFile.None?) ==> r == -1
    ensures fd == 2 && p.openFile.Some? ==> r == written
  {
    if fd == 1 then I32(size)
    else if fd != 2 || p.openFile.None? then -1
    else written
  }

  /** `syscall_read`: only descriptor 2 with a file open reads. */
  function Read(p: Proc, fd: int, size: uint32, read: int32): (r: int32)
    ensures fd != 2 || p.openFile.None? ==> r == -1
    ensures fd == 2 && p.openFile.Some? ==> r == read
  {
    if fd != 2 || p.openFile.None? then -1 else read
  }

  /** `syscall_close`: empties the slot when asked for descriptor 2 and a file is
      open; any other call changes nothing. */
  function Close(p: Proc, fd: int): (r: Proc)
    ensures r.openFile.None? || r == p
    ensures r == p <==> fd != 2 || p.openFile.None?
    ensures r == p.(openFile := r.openFile)
  {
    if fd == 2 && p.openFile.Some? then p.(openFile := None) else p
  }

  /** A second `open` fails while the first file is open, and after `close(2)`
      the slot is free again: the table never holds two files. */
  lemma OpenCloseOpen(p: Proc, f: nat, g: nat)
    requires p.openFile.None?
    ensures Open(p, Some(f)) == Ret(p.(openFile := Some(f)), 2)
    ensures Open(Open(p, Some(f)).p, Some(g)).value == -1
    ensures Close(Open(p, Some(f)).p, 2) == p
    ensures Open(Close(Open(p, Some(f)).p, 2), Some(g)) == Ret(p.(openFile := Some(g)), 2)
  {
  }

  // --------------------------------------------------------------------- sbrk

  /** `pg_round_up` on a 32-bit address: the next page boundary, wrapping to 0
      past the last page. */
  function RoundUp(va: uint32): (r: uint32)
    ensures r % PGSIZE == 0
    ensures va + PGSIZE <= TWO_32 ==> va <= r < va + PGSIZE
  {
    (U32(va + PGSIZE - 1) / PGSIZE) * PGSIZE
  }

  /** The break, `heap_base + sbrk`, as a 32-bit address. */
  function Break(p: Proc): uint32 {
    U32(p.heapBase + p.sbrk)
  }

  /** The page-aligned addresses in [lo, hi). */
  function PageRange(lo: nat, hi: nat): set<nat> {
    set a: nat | lo <= a < hi && a % PGSIZE == 0
  }

  /** Drop the mapping of page `va` and give its frame back to the pool
      (`pagedir_get_page`, `pagedir_clear_page`, `palloc_free_page`). A page that
      is not mapped has no frame, and `palloc_free_page (NULL)` does nothing. */
  function Unmap(p: Proc, va: nat): (r: Proc)
    ensures r.mapped == p.mapped - {va}
    ensures r.pool == p.pool + (if va in p.mapped then 1 else 0)
    ensures r == p.(mapped := r.mapped, pool := r.pool)
  {
    if va in p.mapped then p.(mapped := p.mapped - {va}, pool := p.pool + 1) else p
  }

  /** The undo loop after a failed allocation: unmaps pages i-1 down to 0 of those
      mapped from `start`. */
  function Undo(p: Proc, start: nat, i: nat): (r: Proc)
    decreases i
    ensures r == p.(mapped := r.mapped, pool := r.pool)
    ensures r.mapped <= p.mapped && r.pool >= p.pool
  {
    if i == 0 then p else Undo(Unmap(p, U32(start + PGSIZE * (i - 1))), start, i - 1)
  }

  datatype Step = Step(p: Proc, ok: bool)

  /**
   * The mapping loop from iteration `i` of `n`: take a zeroed frame from the pool
   * and map it at page `i` from `start`. An empty pool undoes the pages mapped so
   * far. A failed `pagedir_set_page` returns at once; the source keeps the pages
   * mapped so far and the frame it just took, and `undoOnSetFail` instead gives
   * them all back.
   */
  function MapFrom(p: Proc, start: nat, i: nat, n: nat, setOk: nat -> bool, undoOnSetFail: bool): (r: Step)
    decreases n - i
    ensures r.p == p.(mapped := r.p.mapped, pool := r.p.pool)
  {
    if i >= n then Step(p, true)
    else if p.pool == 0 then Step(Undo(p, start, i), false)
    else
      var va := U32(start + PGSIZE * i);
      if !setOk(va) then
        Step(if undoOnSetFail then Undo(p, start, i) else p.(pool := p.pool - 1), false)
      else MapFrom(p.(mapped := p.mapped + {va}, pool := p.pool - 1), start, i + 1, n, setOk, undoOnSetFail)
  }

  /** The unmapping loop of a negative increment: iteration `i` of `n` drops the
      page `i + 1` pages below `start`. */
  function UnmapFrom(p: Proc, start: nat, i: nat, n: nat): (r: Proc)
    decreases n - i
    ensures r == p.(mapped := r.mapped, pool := r.pool)
    ensures r.mapped <= p.mapped && r.pool >= p.pool
  {
    if i >= n then p else UnmapFrom(Unmap(p, U32(start - PGSIZE * (i + 1))), start, i + 1, n)
  }

  /** C's `/` on `int`, which truncates toward zero. */
  function CDiv(a: int, d: nat): int
    requires d > 0
  {
    if a >= 0 then a / d else -((-a) / d)
  }

  /** `int` subtraction as the compiled code does it, wrapping at 32 bits. */
  function Sub32(a: int32, b: int32): int32 {
    I32(U32(a - b))
  }

  /** The break `sbrk` is asked for: `heap_base + sbrk + increment` as a 32-bit
      address. */
  function Desire(p: Proc, inc: int32): uint32 {
    U32(p.heapBase + p.sbrk + inc)
  }

  /** Pages to map for a positive increment, as the source computes them:
      `((int) pg_round_up (desire) - (int) sbrk - heap_base) / PGSIZE`, where the
      subtraction of the unsigned `heap_base` makes the rest unsigned. */
  function GrowCount(p: Proc, inc: int32): nat {
    U32(I32(RoundUp(Desire(p, inc))) - p.sbrk - p.heapBase) / PGSIZE
  }

  /** Pages to unmap for a negative increment, as the source computes them:
      `((int) pg_round_up (sbrk + heap_base) - (int) desire) / PGSIZE` in signed
      arithmetic, stored in a `uint32_t`. */
  function ShrinkCount(p: Proc, inc: int32): nat {
    U32(CDiv(Sub32(I32(RoundUp(Break(p))), I32(Desire(p, inc))), PGSIZE))
  }

  /** The new `sbrk` after a successful call: `desire - heap_base`. */
  function Moved(p: Proc, inc: int32): int32 {
    I32(U32(Desire(p, inc) - p.heapBase))
  }

  datatype SbrkResult = SbrkResult(p: Proc, ret: uint32)

  /** The positive branch of `syscall_sbrk`: map the pages from the old break
      rounded up; on success move the break and return the old one, on failure
      return -1 with `sbrk` as it was. */
  function Grow(p: Proc, inc: int32, setOk: nat -> bool, undoOnSetFail: bool): (r: SbrkResult)
    ensures r.ret != Break(p) ==> r.ret == ERROR && r.p.sbrk == p.sbrk
    ensures r.p.openFile == p.openFile && r.p.heapBase == p.heapBase
  {
    var m := MapFrom(p, RoundUp(Break(p)), 0, GrowCount(p, inc), setOk, undoOnSetFail);
    if m.ok then SbrkResult(m.p.(sbrk := Moved(p, inc)), Break(p))
    else SbrkResult(m.p, ERROR)
  }

  /** The negative branch of `syscall_sbrk`: unmap the pages below the old break
      rounded up, move the break and return the old one. */
  function Shrink(p: Proc, inc: int32): (r: SbrkResult)
    ensures r.ret == Break(p) && r.p.mapped <= p.mapped && r.p.pool >= p.pool
    ensures r.p.openFile == p.openFile && r.p.heapBase == p.heapBase
  {
    var q := UnmapFrom(p, RoundUp(Break(p)), 0, ShrinkCount(p, inc));
    SbrkResult(q.(sbrk := Moved(p, inc)), Break(p))
  }

  /**
   * `syscall_sbrk`. A positive increment maps the pages from the old break rounded
   * up to the new break rounded up; a negative one unmaps the pages between the
   * two; both return the old break. A failed allocation leaves `sbrk` as it was
   * and returns -1.
   */
  function Sbrk(p: Proc, inc: int32, setOk: nat -> bool, undoOnSetFail: bool): (r: SbrkResult)
    ensures inc == 0 ==> r == SbrkResult(p, Break(p))
    ensures inc < 0 ==> r.ret == Break(p) && r.p.mapped <= p.mapped && r.p.pool >= p.pool
    ensures r.ret != Break(p) ==> r.ret == ERROR && r.p.sbrk == p.sbrk
    ensures r.p.openFile == p.openFile && r.p.heapBase == p.heapBase
  {
    if inc > 0 then Grow(p, inc, setOk, undoOnSetFail)
    else if inc < 0 then Shrink(p, inc)
    else SbrkResult(p, Break(p))
  }

  // ------------------------------------------------------- the heap invariant

  /** A heap address below 2 GiB less a page, where C's casts between addresses
      and `int` are exact. */
  predicate Low(x: int) {
    0 <= x && x + PGSIZE <= 0x8000_0000
  }

  /** What `sbrk` is meant to keep: the heap pages mapped are exactly those from
      the heap base up to the break, both rounded up to a page boundary. */
  predicate HeapMapped(p: Proc) {
    && 0 <= p.sbrk && Low(p.heapBase + p.sbrk)
    && p.mapped == PageRange(RoundUp(p.heapBase), RoundUp(p.heapBase + p.sbrk))
  }

  lemma PageRangeLast(lo: nat, hi: nat)
    requires lo % PGSIZE == 0 && hi % PGSIZE == 0 && lo < hi
    ensures lo <= hi - PGSIZE
    ensures PageRange(lo, hi) == PageRange(lo, hi - PGSIZE) + {hi - PGSIZE}
  {
    forall a | a in PageRange(lo, hi) && a >= hi - PGSIZE
      ensures a == hi - PGSIZE
    {
      assert a / PGSIZE == hi / PGSIZE - 1;
    }
  }

  lemma Scale(a: nat, b: nat)
    ensures (a + b) * PGSIZE == a * PGSIZE + PGSIZE * b
  {
  }

  lemma PageRangeJoin(lo: nat, mid: nat, hi: nat)
    requires lo <= mid <= hi
    ensures PageRange(lo, mid) + PageRange(mid, hi) == PageRange(lo, hi)
  {
  }

  lemma PageRangeDisjoint(lo: nat, mid: nat, hi: nat)
    ensures PageRange(lo, mid) !! PageRange(mid, hi)
  {
  }

  /** Between two addresses `lo <= hi`, the page boundaries above them lie a whole
      number of pages apart, and that number is what `sbrk` computes from the
      boundary above `hi` and the address `lo` itself. */
  lemma PagesBetween(lo: nat, hi: nat)
    requires lo <= hi && Low(hi)
    ensures RoundUp(lo) <= RoundUp(hi)
    ensures PGSIZE * ((RoundUp(hi) - lo) / PGSIZE) == RoundUp(hi) - RoundUp(lo)
  {
    var a, b := RoundUp(lo), RoundUp(hi);
    assert a == PGSIZE * (a / PGSIZE) && b == PGSIZE * (b / PGSIZE);
    assert b - lo == PGSIZE * (b / PGSIZE - a / PGSIZE) + (a - lo);
  }

  /** Undoing `j` pages mapped from `start` restores the state before the call. */
  lemma {:induction false} Undone(p0: Proc, p: Proc, start: nat, j: nat)
    requires start % PGSIZE == 0 && start + PGSIZE * j <= TWO_32
    requires p0.mapped !! PageRange(start, start + PGSIZE * j)
    requires p.mapped == p0.mapped + PageRange(start, start + PGSIZE * j)
    requires p == p0.(mapped := p.mapped, pool := p.pool) && p.pool + j == p0.pool
    ensures Undo(p, start, j) == p0
    decreases j
  {
    if j > 0 {
      var va := start + PGSIZE * (j - 1);
      PageRangeLast(start, start + PGSIZE * j);
      var q := Unmap(p, U32(va));
      U32InRange(va);
      assert q.mapped == p0.mapped + PageRange(start, va);
      Undone(p0, q, start, j - 1);
    }
  }

  /** The state of the mapping loop at iteration `i`: pages 0..i-1 from `start`
      mapped on top of the state `p0` before the call, one frame taken for each,
      on pages that were not mapped before. */
  predicate Midway(p0: Proc, p: Proc, start: nat, i: nat, n: nat) {
    && start % PGSIZE == 0 && start + PGSIZE * n <= TWO_32 && i <= n
    && p0.mapped !! PageRange(start, start + PGSIZE * n)
    && p.mapped == p0.mapped + PageRange(start, start + PGSIZE * i)
    && p == p0.(mapped := p.mapped, pool := p.pool) && p.pool + i == p0.pool
  }

  /** One more page mapped keeps the loop midway. */
  lemma MidwayStep(p0: Proc, p: Proc, start: nat, i: nat, n: nat)
    requires Midway(p0, p, start, i, n) && i < n && p.pool > 0
    ensures Midway(p0, p.(mapped := p.mapped + {start + PGSIZE * i}, pool := p.pool - 1), start, i + 1, n)
  {
    PageRangeLast(start, start + PGSIZE * (i + 1));
  }

  /** A successful mapping loop maps all `n` pages, taking a frame for each. */
  lemma {:induction false} MappedOk(p0: Proc, p: Proc, start: nat, i: nat, n: nat, setOk: nat -> bool, undo: bool)
    requires Midway(p0, p, start, i, n)
    ensures var r := MapFrom(p, start, i, n, setOk, undo);
      r.ok ==> r.p == p0.(mapped := p0.mapped + PageRange(start, start + PGSIZE * n), pool := r.p.pool)
               && r.p.pool + n == p0.pool
    decreases n - i
  {
    if i < n && p.pool > 0 {
      var va := start + PGSIZE * i;
      U32InRange(va);
      if setOk(va) {
        MidwayStep(p0, p, start, i, n);
        MappedOk(p0, p.(mapped := p.mapped + {va}, pool := p.pool - 1), start, i + 1, n, setOk, undo);
      }
    }
  }

  /** A failed mapping loop restores the state before the call: always when a
      failed `pagedir_set_page` gives back what the call took, and in the source's
      version when only the pool can run out. */
  lemma {:induction false} MappedFail(p0: Proc, p: Proc, start: nat, i: nat, n: nat, setOk: nat -> bool, undo: bool)
    requires Midway(p0, p, start, i, n)
    requires undo || forall va :: va in PageRange(start, start + PGSIZE * n) ==> setOk(va)
    ensures var r := MapFrom(p, start, i, n, setOk, undo);
      !r.ok ==> r.p == p0
    decreases n - i
  {
    if i < n {
      var va := start + PGSIZE * i;
      U32InRange(va);
      assert va in PageRange(start, start + PGSIZE * n);
      if p.pool == 0 || !setOk(va) {
        Undone(p0, p, start, i);
      } else {
        MidwayStep(p0, p, start, i, n);
        MappedFail(p0, p.(mapped := p.mapped + {va}, pool := p.pool - 1), start, i + 1, n, setOk, undo);
      }
    }
  }

  /** When every page can be mapped, the mapping loop fails exactly when the pool
      runs out first. */
  lemma {:induction false} MapsUnlessPoolEmpty(p: Proc, start: nat, i: nat, n: nat, setOk: nat -> bool, undo: bool)
    requires start % PGSIZE == 0 && start + PGSIZE * n <= TWO_32 && i <= n
    requires forall va :: va in PageRange(start, start + PGSIZE * n) ==> setOk(va)
    ensures MapFrom(p, start, i, n, setOk, undo).ok <==> p.pool >= n - i
    decreases n - i
  {
    if i < n {
      var va := start + PGSIZE * i;
      U32InRange(va);
      assert va in PageRange(start, start + PGSIZE * n);
      if p.pool > 0 {
        MapsUnlessPoolEmpty(p.(mapped := p.mapped + {va}, pool := p.pool - 1), start, i + 1, n, setOk, undo);
      }
    }
  }

  /** The whole mapping loop, on pages that were not mapped before. */
  lemma MappedAll(p: Proc, start: nat, n: nat, setOk: nat -> bool, undo: bool)
    requires start % PGSIZE == 0 && start + PGSIZE * n <= TWO_32
    requires p.mapped !! PageRange(start, start + PGSIZE * n)
    requires undo || forall va :: va in PageRange(start, start + PGSIZE * n) ==> setOk(va)
    ensures var r := MapFrom(p, start, 0, n, setOk, undo);
      && (r.ok ==> r.p == p.(mapped := p.mapped + PageRange(start, start + PGSIZE * n), pool := r.p.pool)
                   && r.p.pool + n == p.pool)
      && (!r.ok ==> r.p == p)
      && ((forall va :: va in PageRange(start, start + PGSIZE * n) ==> setOk(va)) ==> (r.ok <==> p.pool >= n))
  {
    assert PageRange(start, start + PGSIZE * 0) == {};
    MappedOk(p, p, start, 0, n, setOk, undo);
    MappedFail(p, p, start, 0, n, setOk, undo);
    if forall va :: va in PageRange(start, start + PGSIZE * n) ==> setOk(va) {
      MapsUnlessPoolEmpty(p, start, 0, n, setOk, undo);
    }
  }

  /** The unmapping loop from iteration `i`, on a heap whose pages run from `lo` up
      to `i` pages below `start`: it leaves the pages from `lo` up to `n` pages
      below `start`, and puts a frame back in the pool for each page dropped. */
  lemma {:induction false} Unmapped(p: Proc, start: nat, lo: nat, i: nat, n: nat)
    requires lo % PGSIZE == 0 && start % PGSIZE == 0 && i <= n && lo + PGSIZE * n <= start < TWO_32
    requires p.mapped == PageRange(lo, start - PGSIZE * i)
    ensures UnmapFrom(p, start, i, n) == p.(mapped := PageRange(lo, start - PGSIZE * n), pool := p.pool + (n - i))
    decreases n - i
  {
    if i < n {
      var va := start - PGSIZE * (i + 1);
      U32InRange(va);
      PageRangeLast(lo, start - PGSIZE * i);
      Unmapped(Unmap(p, va), start, lo, i + 1, n);
    }
  }

  /** The pages a call to `sbrk` asks to map for a positive increment. */
  function NewPages(p: Proc, inc: int): set<nat>
    requires Low(p.heapBase + p.sbrk) && Low(p.heapBase + p.sbrk + inc)
  {
    PageRange(RoundUp(p.heapBase + p.sbrk), RoundUp(p.heapBase + p.sbrk + inc))
  }

  /** The facts about the heap both directions of `sbrk` rely on. */
  predicate Movable(p: Proc, inc: int) {
    HeapMapped(p) && InRange(p, inc)
  }

  /** The break before and after stays at or above the heap base and low. */
  predicate InRange(p: Proc, inc: int) {
    && 0 <= p.sbrk && Low(p.heapBase + p.sbrk)
    && 0 <= p.sbrk + inc && Low(p.heapBase + p.sbrk + inc)
  }

  /** Below 2 GiB the source's casts and wrapping arithmetic are exact. */
  lemma Exact(p: Proc, inc: int32)
    requires InRange(p, inc)
    ensures Break(p) == p.heapBase + p.sbrk && Desire(p, inc) == p.heapBase + p.sbrk + inc
    ensures Moved(p, inc) == p.sbrk + inc
  {
    U32InRange(p.heapBase + p.sbrk);
    U32InRange(p.heapBase + p.sbrk + inc);
    U32InRange(p.sbrk + inc);
  }

  lemma ExactGrow(p: Proc, inc: int32)
    requires InRange(p, inc) && inc > 0
    ensures GrowCount(p, inc) == (RoundUp(p.heapBase + p.sbrk + inc) - (p.heapBase + p.sbrk)) / PGSIZE
    ensures RoundUp(p.heapBase + p.sbrk) + PGSIZE * GrowCount(p, inc) == RoundUp(p.heapBase + p.sbrk + inc)
  {
    var b, d := p.heapBase + p.sbrk, p.heapBase + p.sbrk + inc;
    Exact(p, inc);
    PagesBetween(b, d);
    var x := RoundUp(d);
    assert RoundUp(Desire(p, inc)) == x;
    assert I32(x) == x;
    U32InRange(x - p.sbrk - p.heapBase);
  }

  lemma ExactShrink(p: Proc, inc: int32)
    requires InRange(p, inc) && inc < 0
    ensures ShrinkCount(p, inc) == (RoundUp(p.heapBase + p.sbrk) - (p.heapBase + p.sbrk + inc)) / PGSIZE
    ensures RoundUp(p.heapBase + p.sbrk + inc) + PGSIZE * ShrinkCount(p, inc) == RoundUp(p.heapBase + p.sbrk)
  {
    var b, d := p.heapBase + p.sbrk, p.heapBase + p.sbrk + inc;
    Exact(p, inc);
    PagesBetween(d, b);
    var x := RoundUp(b);
    assert RoundUp(Break(p)) == x && Desire(p, inc) == d;
    assert I32(x) == x && I32(d) == d;
    U32InRange(x - d);
    assert Sub32(x, d) == x - d;
    assert CDiv(x - d, PGSIZE) == (x - d) / PGSIZE;
    U32InRange((x - d) / PGSIZE);
  }

  /** The mapping loop of a positive increment, in terms of the pages it maps. */
  lemma GrowLoop(p: Proc, inc: int32, setOk: nat -> bool, undo: bool)
    requires Movable(p, inc) && inc > 0
    requires undo || forall va :: va in NewPages(p, inc) ==> setOk(va)
    ensures var m := MapFrom(p, RoundUp(Break(p)), 0, GrowCount(p, inc), setOk, undo);
      && (m.ok ==> m.p == p.(mapped := p.mapped + NewPages(p, inc), pool := m.p.pool)
                   && m.p.pool + GrowCount(p, inc) == p.pool)
      && (!m.ok ==> m.p == p)
      && ((forall va :: va in NewPages(p, inc) ==> setOk(va)) ==> (m.ok <==> p.pool >= GrowCount(p, inc)))
  {
    Exact(p, inc);
    ExactGrow(p, inc);
    var num, rb := GrowCount(p, inc), RoundUp(Break(p));
    assert NewPages(p, inc) == PageRange(rb, rb + PGSIZE * num);
    PageRangeDisjoint(RoundUp(p.heapBase), rb, rb + PGSIZE * num);
    MappedAll(p, rb, num, setOk, undo);
  }

  /** A positive increment maps the pages from the old break up to the new one,
      rounded up, taking a frame from the pool for each, or fails and changes
      nothing; when every page can be mapped, it fails exactly when the pool
      holds too few frames. */
  lemma SbrkGrows(p: Proc, inc: int32, setOk: nat -> bool, undo: bool)
    requires Movable(p, inc) && inc > 0
    requires undo || forall va :: va in NewPages(p, inc) ==> setOk(va)
    ensures var r := Grow(p, inc, setOk, undo);
      && (r.ret == ERROR ==> r.p == p)
      && (r.ret != ERROR ==> && r.ret == p.heapBase + p.sbrk
                             && r.p == p.(sbrk := p.sbrk + inc, mapped := p.mapped + NewPages(p, inc), pool := r.p.pool)
                             && r.p.pool + GrowCount(p, inc) == p.pool)
    ensures (forall va :: va in NewPages(p, inc) ==> setOk(va)) ==>
      (Grow(p, inc, setOk, undo).ret == ERROR <==> p.pool < GrowCount(p, inc))
  {
    Exact(p, inc);
    GrowLoop(p, inc, setOk, undo);
  }

  /** A negative increment unmaps the pages from the new break up to the old one,
      rounded up, and gives their frames back. */
  lemma SbrkShrinks(p: Proc, inc: int32)
    requires Movable(p, inc) && inc < 0
    ensures var r := Shrink(p, inc);
      && r.ret == p.heapBase + p.sbrk
      && r.p == p.(sbrk := p.sbrk + inc, mapped := PageRange(RoundUp(p.heapBase), RoundUp(p.heapBase + p.sbrk + inc)),
                   pool := r.p.pool)
      && r.p.pool == p.pool + ShrinkCount(p, inc)
  {
    var hb, b, d := p.heapBase, p.heapBase + p.sbrk, p.heapBase + p.sbrk + inc;
    Exact(p, inc);
    ExactShrink(p, inc);
    PagesBetween(d, b);
    PagesBetween(hb, d);
    var num := ShrinkCount(p, inc);
    Unmapped(p, RoundUp(b), RoundUp(hb), 0, num);
  }

  /** What `sbrk` should promise about a call that started from `p`: the heap
      invariant holds afterwards, the free frames of the pool plus the heap pages
      are as many as before, and either the break moved by the increment and the
      old break came back, or the call failed and nothing changed. */
  predicate Kept(p: Proc, inc: int, r: SbrkResult)
    requires Low(p.heapBase + p.sbrk)
  {
    && HeapMapped(r.p)
    && r.p.pool * PGSIZE + RoundUp(Break(r.p)) == p.pool * PGSIZE + RoundUp(p.heapBase + p.sbrk)
    && (r.ret == ERROR ==> r.p == p)
    && (r.ret != ERROR ==> r.ret == p.heapBase + p.sbrk && r.p.sbrk == p.sbrk + inc)
  }

  lemma GrowKeeps(p: Proc, inc: int32, setOk: nat -> bool, undo: bool)
    requires Movable(p, inc) && inc > 0
    requires undo || forall va :: va in NewPages(p, inc) ==> setOk(va)
    ensures Kept(p, inc, Grow(p, inc, setOk, undo))
  {
    var r := Grow(p, inc, setOk, undo);
    SbrkGrows(p, inc, setOk, undo);
    Exact(p, inc);
    if r.ret != ERROR {
      GrownKept(p, inc, r.p, GrowCount(p, inc));
    }
  }

  /** The state after a successful positive increment keeps the invariant. */
  lemma GrownKept(p: Proc, inc: int32, q: Proc, g: nat)
    requires Movable(p, inc) && inc > 0 && g == GrowCount(p, inc)
    requires q == p.(sbrk := p.sbrk + inc, mapped := p.mapped + NewPages(p, inc), pool := q.pool)
    requires q.pool + g == p.pool
    ensures HeapMapped(q)
    ensures q.pool * PGSIZE + RoundUp(Break(q)) == p.pool * PGSIZE + RoundUp(p.heapBase + p.sbrk)
  {
    var hb, b, d := p.heapBase, p.heapBase + p.sbrk, p.heapBase + p.sbrk + inc;
    ExactGrow(p, inc);
    assert Break(q) == d by {
      U32InRange(d);
    }
    assert q.mapped == PageRange(RoundUp(hb), RoundUp(d)) by {
      PagesBetween(hb, b);
      PagesBetween(b, d);
      PageRangeJoin(RoundUp(hb), RoundUp(b), RoundUp(d));
    }
    Scale(q.pool, g);
  }

  lemma ShrinkKeeps(p: Proc, inc: int32)
    requires Movable(p, inc) && inc < 0
    ensures Kept(p, inc, Shrink(p, inc))
  {
    var r := Shrink(p, inc);
    SbrkShrinks(p, inc);
    Exact(p, inc);
    ExactShrink(p, inc);
    U32InRange(p.heapBase + p.sbrk + inc);
    assert Break(r.p) == p.heapBase + p.sbrk + inc;
    Scale(p.pool, ShrinkCount(p, inc));
  }

  /**
   * `sbrk` keeps the heap invariant and loses no frame. This holds when a failed
   * `pagedir_set_page` gives back what the call took (`undo`), and in the
   * source's version as long as `pagedir_set_page` succeeds.
   */
  lemma SbrkKeepsHeapMapped(p: Proc, inc: int32, setOk: nat -> bool, undo: bool)
    requires Movable(p, inc)
    requires undo || inc <= 0 || forall va :: va in NewPages(p, inc) ==> setOk(va)
    ensures Kept(p, inc, Sbrk(p, inc, setOk, undo))
  {
    if inc > 0 {
      GrowKeeps(p, inc, setOk, undo);
    } else if inc < 0 {
      ShrinkKeeps(p, inc);
    } else {
      Exact(p, inc);
    }
  }

  /** A process that has not grown its heap yet, with eight free frames. */
  const Fresh: Proc := Proc(None, 0, 0x10_0000, {}, 8)

  /** `pagedir_set_page` fails for the second heap page, for want of memory for a
      page table, say. */
  predicate SecondPageFails(va: nat) {
    va == 0x10_1000
  }

  /** `sbrk (8192)` needs two pages from `Fresh`. */
  lemma TwoPages()
    ensures Break(Fresh) == 0x10_0000 && RoundUp(Break(Fresh)) == 0x10_0000
    ensures GrowCount(Fresh, 8192) == 2
  {
    assert Break(Fresh) == 0x10_0000;
    assert Desire(Fresh, 8192) == 0x10_2000;
    assert RoundUp(0x10_2000) == 0x10_2000;
  }

  /**
   * When `pagedir_set_page` fails for the second page, the source returns -1 with
   * `sbrk` unchanged but keeps the first page mapped and both frames taken: the
   * heap invariant is broken and one frame is in no page table at all. Giving the
   * frames back and undoing the first page restores the process exactly.
   */
  lemma SetPageFailureLeaks()
    ensures HeapMapped(Fresh)
    ensures Sbrk(Fresh, 8192, (va: nat) => !SecondPageFails(va), false)
      == SbrkResult(Fresh.(mapped := {0x10_0000}, pool := 6), ERROR)
    ensures !HeapMapped(Fresh.(mapped := {0x10_0000}, pool := 6))
    ensures Sbrk(Fresh, 8192, (va: nat) => !SecondPageFails(va), true) == SbrkResult(Fresh, ERROR)
  {
    var ok := (va: nat) => !SecondPageFails(va);
    TwoPages();
    assert RoundUp(0x10_0000) == 0x10_0000;
    assert PageRange(0x10_0000, 0x10_0000) == {};
    assert U32(0x10_0000 + PGSIZE * 0) == 0x10_0000 && U32(0x10_0000 + PGSIZE * 1) == 0x10_1000;
    var one := Fresh.(mapped := {0x10_0000}, pool := 7);
    assert MapFrom(Fresh, 0x10_0000, 0, 2, ok, false) == MapFrom(one, 0x10_0000, 1, 2, ok, false);
    assert MapFrom(Fresh, 0x10_0000, 0, 2, ok, true) == MapFrom(one, 0x10_0000, 1, 2, ok, true);
    assert Undo(one, 0x10_0000, 1) == Fresh;
  }

  /**
   * The negative branch never compares the new break with the heap base: from
   * `Fresh`, `sbrk (-4096)` succeeds, returns the old break, and leaves the break
   * a page below the heap base. The unmapping loop runs once, on the page at
   * 0x0F_F000 below the heap.
   */
  lemma ShrinkBelowBase()
    ensures HeapMapped(Fresh)
    ensures ShrinkCount(Fresh, -4096) == 1
    ensures Sbrk(Fresh, -4096, _ => true, true) == SbrkResult(Fresh.(sbrk := -4096), 0x10_0000)
    ensures !HeapMapped(Fresh.(sbrk := -4096))
  {
    assert RoundUp(0x10_0000) == 0x10_0000;
    assert PageRange(0x10_0000, 0x10_0000) == {};
    FreshShrinkCount();
    assert U32(0x10_0000 - PGSIZE * 1) == 0x0F_F000;
    assert UnmapFrom(Fresh, 0x10_0000, 1, 1) == Fresh;
    assert Moved(Fresh, -4096) == -4096;
  }

  /** The page count of sbrk(-4096) on the fresh heap: the one page under the base. */
  lemma FreshShrinkCount()
    ensures Break(Fresh) == 0x10_0000 && Desire(Fresh, -4096) == 0x0F_F000
    ensures ShrinkCount(Fresh, -4096) == 1
  {
    assert RoundUp(0x10_0000) == 0x10_0000;
    assert Sub32(I32(0x10_0000), I32(0x0F_F000)) == 4096;
  }

  /** `sbrk` that refuses to move the break below the heap base, returning -1
      with the process unchanged, and is `syscall_sbrk` otherwise. */
  function SbrkGuarded(p: Proc, inc: int32, setOk: nat -> bool, undoOnSetFail: bool): (r: SbrkResult)
    ensures p.sbrk + inc < 0 ==> r == SbrkResult(p, ERROR)
    ensures p.sbrk + inc >= 0 ==> r == Sbrk(p, inc, setOk, undoOnSetFail)
  {
    if p.sbrk + inc < 0 then SbrkResult(p, ERROR) else Sbrk(p, inc, setOk, undoOnSetFail)
  }

  /** The guarded `sbrk` keeps the heap invariant for every increment whose break
      stays low, including those that would go below the heap base. */
  lemma SbrkGuardedKeepsHeapMapped(p: Proc, inc: int32, setOk: nat -> bool, undo: bool)
    requires HeapMapped(p)
    requires p.sbrk + inc < 0 || Low(p.heapBase + p.sbrk + inc)
    requires undo || inc <= 0 || p.sbrk + inc < 0 || forall va :: va in NewPages(p, inc) ==> setOk(va)
    ensures HeapMapped(SbrkGuarded(p, inc, setOk, undo).p)
    ensures p.sbrk + inc >= 0 ==> Kept(p, inc, SbrkGuarded(p, inc, setOk, undo))
    ensures p.sbrk + inc < 0 ==> SbrkGuarded(p, inc, setOk, undo) == SbrkResult(p, ERROR)
  {
    if p.sbrk + inc >= 0 {
      SbrkKeepsHeapMapped(p, inc, setOk, undo);
    }
  }

  // ------------------------------------------------------------------ handler

  /** The 32-bit little-endian word at `a`, as `args[k]` reads the user stack. */
  function Word(mem: nat -> byte, a: nat): uint32 {
    mem(a) + 256 * mem(a + 1) + 65536 * mem(a + 2) + 16777216 * mem(a + 3)
  }

  /** The calls the handler knows, as decoded from `args[0]` (lib/syscall-nr.h is
      not part of this model, so the numbering is a parameter). */
  datatype Call = SysExit | SysOpen | SysWrite | SysRead | SysClose | SysSbrk | Unknown

  /** How many argument words after `args[0]` a call reads. */
  function Arity(c: Call): nat {
    match c
    case SysWrite | SysRead => 3
    case Unknown => 0
    case _ => 1
  }

  /** What the kernel services answer during one call. */
  datatype Env = Env(handle: Option<nat>, transferred: int32, setOk: nat -> bool)

  /** A call either ends the process with a status or returns to it, with `eax`
      set or left alone. */
  datatype Outcome = Exit(status: int) | Resume(p: Proc, eax: Option<uint32>)

  /** The checks `syscall_handler` makes for call `c` before acting: the argument
      words lie in user memory, and so does the buffer of a write or read and the
      string of an open. The source makes none for `SYS_SBRK`; `checkSbrkArg`
      adds the argument check there. */
  predicate Checked(c: Call, esp: nat, mem: nat -> byte, checkSbrkArg: bool) {
    match c
    case SysExit | SysClose => BufferOk(esp + 4, 4)
    case SysOpen => BufferOk(esp + 4, 4) && StringOk(mem, Word(mem, esp + 4))
    case SysWrite | SysRead => BufferOk(esp + 4, 12) && BufferOk(Word(mem, esp + 8), Word(mem, esp + 12))
    case SysSbrk => !checkSbrkArg || BufferOk(esp + 4, 4)
    case Unknown => true
  }

  /** The switch of `syscall_handler` on call `c`, once `args[0]` at `esp` has
      passed its check. */
  function Dispatch(p: Proc, c: Call, esp: nat, mem: nat -> byte, env: Env,
                    checkSbrkArg: bool, undoOnSetFail: bool): (r: Outcome)
    requires BufferOk(esp, 4)
    ensures r.Resume? && (checkSbrkArg || c != SysSbrk) ==> BufferOk(esp, 4 + 4 * Arity(c))
    ensures r.Resume? && (c == SysWrite || c == SysRead) ==> BufferOk(Word(mem, esp + 8), Word(mem, esp + 12))
    ensures r.Resume? && c == SysOpen ==> StringOk(mem, Word(mem, esp + 4))
    ensures r.Resume? && c != SysSbrk ==> r.p == p.(openFile := r.p.openFile)
    ensures r.Resume? && c != SysOpen && c != SysClose ==> r.p.openFile == p.openFile
    ensures r.Exit? ==> r.status == -1 || c == SysExit
    ensures r.Exit? <==> c == SysExit || !Checked(c, esp, mem, checkSbrkArg)
    ensures !Checked(c, esp, mem, checkSbrkArg) ==> r == Exit(-1)
    ensures Checked(c, esp, mem, checkSbrkArg) ==> match c
      case SysExit => r == Exit(I32(Word(mem, esp + 4)))
      case SysOpen => r == Resume(Open(p, env.handle).p, Some(U32(Open(p, env.handle).value)))
      case SysWrite =>
        r == Resume(p, Some(U32(Write(p, I32(Word(mem, esp + 4)), Word(mem, esp + 12), env.transferred))))
      case SysRead =>
        r == Resume(p, Some(U32(Read(p, I32(Word(mem, esp + 4)), Word(mem, esp + 12), env.transferred))))
      case SysClose => r == Resume(Close(p, I32(Word(mem, esp + 4))), None)
      case SysSbrk =>
        var s := Sbrk(p, I32(Word(mem, esp + 4)), env.setOk, undoOnSetFail);
        r == Resume(s.p, Some(s.ret))
      case Unknown => r == Resume(p, None)
  {
    var arg1 := esp + 4;
    if !Checked(c, esp, mem, checkSbrkArg) then Exit(-1)
    else match c
      case SysExit => Exit(I32(Word(mem, arg1)))
      case SysOpen =>
        var o := Open(p, env.handle);
        Resume(o.p, Some(U32(o.value)))
      case SysWrite => Resume(p, Some(U32(Write(p, I32(Word(mem, arg1)), Word(mem, esp + 12), env.transferred))))
      case SysRead => Resume(p, Some(U32(Read(p, I32(Word(mem, arg1)), Word(mem, esp + 12), env.transferred))))
      case SysClose => Resume(Close(p, I32(Word(mem, arg1))), None)
      case SysSbrk =>
        var s := Sbrk(p, I32(Word(mem, arg1)), env.setOk, undoOnSetFail);
        Resume(s.p, Some(s.ret))
      case Unknown => Resume(p, None)
  }

  /**
   * `syscall_handler`, entered with the user stack pointer `esp`. It checks that
   * the call number lies in user memory, then for each call the argument words,
   * and the buffer or string they point to, before acting; a failed check ends
   * the process with -1. The source does not check the argument word of
   * `SYS_SBRK`; `checkSbrkArg` adds that check.
   */
  function Handler(p: Proc, esp: uint32, mem: nat -> byte, decode: uint32 -> Call, env: Env,
                   checkSbrkArg: bool, undoOnSetFail: bool): (r: Outcome)
    ensures !BufferOk(esp, 4) ==> r == Exit(-1)
    ensures var c := decode(Word(mem, esp));
      r.Resume? && (checkSbrkArg || c != SysSbrk) ==> BufferOk(esp, 4 + 4 * Arity(c))
    ensures var c := decode(Word(mem, esp));
      r.Resume? && (c == SysWrite || c == SysRead) ==> BufferOk(Word(mem, esp + 8), Word(mem, esp + 12))
    ensures var c := decode(Word(mem, esp));
      r.Resume? && c == SysOpen ==> StringOk(mem, Word(mem, esp + 4))
    ensures var c := decode(Word(mem, esp));
      r.Resume? && c != SysSbrk ==> r.p == p.(openFile := r.p.openFile)
    ensures var c := decode(Word(mem, esp));
      r.Resume? && c != SysOpen && c != SysClose ==> r.p.openFile == p.openFile
    ensures var c := decode(Word(mem, esp));
      r.Exit? ==> r.status == -1 || c == SysExit
    ensures var c := decode(Word(mem, esp));
      r.Exit? <==> !BufferOk(esp, 4) || c == SysExit || !Checked(c, esp, mem, checkSbrkArg)
    ensures BufferOk(esp, 4) && Checked(decode(Word(mem, esp)), esp, mem, checkSbrkArg) ==>
      match decode(Word(mem, esp))
      case SysExit => r == Exit(I32(Word(mem, esp + 4)))
      case SysOpen => r == Resume(Open(p, env.handle).p, Some(U32(Open(p, env.handle).value)))
      case SysWrite =>
        r == Resume(p, Some(U32(Write(p, I32(Word(mem, esp + 4)), Word(mem, esp + 12), env.transferred))))
      case SysRead =>
        r == Resume(p, Some(U32(Read(p, I32(Word(mem, esp + 4)), Word(mem, esp + 12), env.transferred))))
      case SysClose => r == Resume(Close(p, I32(Word(mem, esp + 4))), None)
      case SysSbrk =>
        var s := Sbrk(p, I32(Word(mem, esp + 4)), env.setOk, undoOnSetFail);
        r == Resume(s.p, Some(s.ret))
      case Unknown => r == Resume(p, None)
  {
    if !BufferOk(esp, 4) then Exit(-1)
    else Dispatch(p, decode(Word(mem, esp)), esp, mem, env, checkSbrkArg, undoOnSetFail)
  }

  /** The topmost word of user memory. */
  const TopWord: uint32 := 0xBFFF_FFFC

  /**
   * With the stack pointer on the last user word, every call that takes an
   * argument reads it from PHYS_BASE, in kernel memory. Every call but `SYS_SBRK`
   * ends the process; the source's `SYS_SBRK` goes ahead with the kernel word as
   * its increment (here 0, so it returns the break), and checking the argument
   * like the others ends the process too.
   */
  lemma SbrkArgUnchecked()
    ensures BufferOk(TopWord, 4) && !BufferOk(TopWord, 8)
    ensures Handler(Fresh, TopWord, _ => 0, _ => SysSbrk, Env(None, 0, _ => true), false, false)
      == Resume(Fresh, Some(0x10_0000))
    ensures Handler(Fresh, TopWord, _ => 0, _ => SysSbrk, Env(None, 0, _ => true), true, false) == Exit(-1)
    ensures Handler(Fresh, TopWord, _ => 0, _ => SysClose, Env(None, 0, _ => true), false, false) == Exit(-1)
  {
    assert Word(_ => 0, TopWord + 4) == 0;
    assert Break(Fresh) == 0x10_0000;
  }
}
