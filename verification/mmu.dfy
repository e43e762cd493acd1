/**
 * The three-level PAE page walk of the page-table tool: a 32-bit virtual address
 * is split into a page-directory-pointer index (bits 31-30), a page-directory index
 * (bits 29-21), a page-table index (bits 20-12) and a page offset (bits 11-0), as in
 * section 4.4 of the Intel 64 and IA-32 Architectures Software Developer's Manual,
 * Volume 3A. Physical memory is a total function from 64-bit physical address to
 * byte; a table entry is the little-endian 64-bit word stored at its address.
 */
module Mmu {
  import opened Wrappers
  import opened Ints

  /** Physical memory: the byte stored at each physical address. */
  type Ram = uint64 -> byte

  /**
   * The masks of the C code, written as arithmetic on unbounded integers:
   *   PDE_MASK    0x3fe00000          keeps bits 29-21,
   *   PTE_MASK    0x001ff000          keeps bits 20-12,
   *   OFFSET_MASK 0x00000fff          keeps bits 11-0,
   *   PFN_MASK    0x000ffffffffff000  keeps bits 51-12,
   *   PRESENT_MASK 0x1                keeps bit 0.
   */
  const PAGE_SIZE: int := 4096
  const FRAME_LIMIT: int := 0x10_0000_0000_0000  // 2^52: bits 52-63 are clear below it

  function PdptIndex(vaddr: uint32): (i: int)
    ensures 0 <= i < 4
  {
    vaddr as int / 0x4000_0000
  }

  function PdIndex(vaddr: uint32): (i: int)
    ensures 0 <= i < 512
  {
    (vaddr as int / 0x20_0000) % 512
  }

  function PtIndex(vaddr: uint32): (i: int)
    ensures 0 <= i < 512
  {
    (vaddr as int / PAGE_SIZE) % 512
  }

  function PageOffset(vaddr: uint32): (o: int)
    ensures 0 <= o < PAGE_SIZE
  {
    vaddr as int % PAGE_SIZE
  }

  /** `entry & PFN_MASK`: the frame address held in bits 51-12 of an entry, that is
      the entry with bits 63-52 and bits 11-0 cleared. */
  function Frame(entry: uint64): (f: uint64)
    ensures f % PAGE_SIZE == 0 && f < FRAME_LIMIT
    ensures f == entry % FRAME_LIMIT - entry % PAGE_SIZE
  {
    var q := entry / PAGE_SIZE;
    var r := entry % PAGE_SIZE;
    assert entry % FRAME_LIMIT == (q % 0x100_0000_0000) * PAGE_SIZE + r by {
      LowBits(q, r);
    }
    (q % 0x100_0000_0000) * PAGE_SIZE
  }

  /** Cutting the word `q * PAGE_SIZE + r` at bit 52 cuts `q` at bit 40. */
  lemma LowBits(q: nat, r: nat)
    requires r < PAGE_SIZE
    ensures (q * PAGE_SIZE + r) % FRAME_LIMIT == (q % 0x100_0000_0000) * PAGE_SIZE + r
  {
    var hi := q / 0x100_0000_0000;
    var lo := q % 0x100_0000_0000;
    assert q * PAGE_SIZE + r == hi * FRAME_LIMIT + (lo * PAGE_SIZE + r);
    assert lo * PAGE_SIZE + r < FRAME_LIMIT;
  }

  /** A frame above 2^48 keeps its bits 51-48: an entry with only bit 48 and the
      present bit set names the frame at 2^48. */
  lemma FrameKeepsHighBits()
    ensures Frame(0x1_0000_0000_0001) == 0x1_0000_0000_0000
  {
  }

  predicate Present(entry: uint64) {
    entry % 2 == 1
  }

  /** The four fields partition the virtual address: putting them back gives it again. */
  lemma SplitRoundTrip(vaddr: uint32)
    ensures PdptIndex(vaddr) * 0x4000_0000 + PdIndex(vaddr) * 0x20_0000 + PtIndex(vaddr) * PAGE_SIZE
            + PageOffset(vaddr) == vaddr as int
  {
  }

  /** `paddr + k` with the wrap-around of 64-bit unsigned arithmetic. */
  function AddrAdd(a: uint64, k: nat): uint64 {
    (a + k) % TWO_64
  }

  /** The eight bytes at `a`, read as a little-endian word (the host is x86). */
  function LoadWord(ram: Ram, a: uint64): uint64 {
    ram(a)
    + ram(AddrAdd(a, 1)) * 0x100
    + ram(AddrAdd(a, 2)) * 0x1_0000
    + ram(AddrAdd(a, 3)) * 0x100_0000
    + ram(AddrAdd(a, 4)) * 0x1_0000_0000
    + ram(AddrAdd(a, 5)) * 0x100_0000_0000
    + ram(AddrAdd(a, 6)) * 0x1_0000_0000_0000
    + ram(AddrAdd(a, 7)) * 0x100_0000_0000_0000
  }

  /** The entry-word view of a memory: what `ram_fetch` of eight bytes gives. */
  type WordReader = uint64 -> uint64

  function Words(ram: Ram): WordReader {
    a => LoadWord(ram, a)
  }

  /** Physical address of entry `index` of the table based at `table`; every entry
      (PDPTE, PDE, PTE) is eight bytes wide. */
  function EntryAddr(table: uint64, index: int): uint64
    requires 0 <= index < 512
  {
    AddrAdd(table, 8 * index)
  }

  /** Where each level's entry is read from: the PDPT is based at cr3, the page
      directory at the PDPTE's frame, the page table at the PDE's frame. */
  function PdpteAddr(vaddr: uint32, cr3: uint64): uint64 {
    EntryAddr(cr3, PdptIndex(vaddr))
  }

  function Pdpte(vaddr: uint32, cr3: uint64, load: WordReader): uint64 {
    load(PdpteAddr(vaddr, cr3))
  }

  function PdeAddr(vaddr: uint32, cr3: uint64, load: WordReader): uint64 {
    EntryAddr(Frame(Pdpte(vaddr, cr3, load)), PdIndex(vaddr))
  }

  function Pde(vaddr: uint32, cr3: uint64, load: WordReader): uint64 {
    load(PdeAddr(vaddr, cr3, load))
  }

  function PteAddr(vaddr: uint32, cr3: uint64, load: WordReader): uint64 {
    EntryAddr(Frame(Pde(vaddr, cr3, load)), PtIndex(vaddr))
  }

  function Pte(vaddr: uint32, cr3: uint64, load: WordReader): uint64 {
    load(PteAddr(vaddr, cr3, load))
  }

  /** `(pte & PFN_MASK) | offset`: the two parts occupy disjoint bits, so the
      bitwise or is a sum. */
  function FrameAddress(pte: uint64, vaddr: uint32): (p: uint64)
    ensures p % PAGE_SIZE == vaddr % PAGE_SIZE
    ensures p / PAGE_SIZE == Frame(pte) / PAGE_SIZE
    ensures p < FRAME_LIMIT
  {
    var f := Frame(pte);
    var o := PageOffset(vaddr);
    assert (f + o) / PAGE_SIZE == f / PAGE_SIZE && (f + o) % PAGE_SIZE == o by {
      var q := f / PAGE_SIZE;
      assert f == q * PAGE_SIZE;
      assert f + o == q * PAGE_SIZE + o;
    }
    f + o
  }

  datatype Translation = PageFault | Translated(paddr: uint64)

  /**
   * The page walk. It faults exactly when one of the three entries on its path has
   * its present bit clear. A translated address keeps the page offset of the virtual
   * address in its low twelve bits, takes bits 51-12 from the PTE, and has bits
   * 52-63 clear.
   */
  function Translate(vaddr: uint32, cr3: uint64, load: WordReader): (t: Translation)
    ensures t.PageFault? <==>
      !Present(Pdpte(vaddr, cr3, load)) || !Present(Pde(vaddr, cr3, load)) || !Present(Pte(vaddr, cr3, load))
    ensures t.Translated? ==>
      && t.paddr % PAGE_SIZE == vaddr as int % PAGE_SIZE
      && t.paddr < FRAME_LIMIT
      && t.paddr / PAGE_SIZE == Frame(Pte(vaddr, cr3, load)) / PAGE_SIZE
  {
    if !Present(Pdpte(vaddr, cr3, load)) then PageFault
    else if !Present(Pde(vaddr, cr3, load)) then PageFault
    else if !Present(Pte(vaddr, cr3, load)) then PageFault
    else Translated(FrameAddress(Pte(vaddr, cr3, load), vaddr))
  }

  /**
   * `virt_to_phys` in the C calling convention: the returned status is 1 on a page
   * fault and 0 on success, and the out-parameter is written only on success.
   */
  function VirtToPhys(vaddr: uint32, cr3: uint64, ram: Ram, paddr: uint64): (r: (int, uint64))
    ensures r.0 == 0 || r.0 == 1
    ensures r.0 == 1 <==> Translate(vaddr, cr3, Words(ram)).PageFault?
    ensures r.0 == 1 ==> r.1 == paddr
    ensures r.0 == 0 ==> r.1 == Translate(vaddr, cr3, Words(ram)).paddr
  {
    match Translate(vaddr, cr3, Words(ram))
    case PageFault => (1, paddr)
    case Translated(p) => (0, p)
  }

  /** Two addresses on the same virtual page fault together or land on the same
      physical frame, each at its own offset. */
  lemma SamePageSameFrame(v1: uint32, v2: uint32, cr3: uint64, load: WordReader)
    requires v1 / PAGE_SIZE == v2 / PAGE_SIZE
    ensures Translate(v1, cr3, load).PageFault? == Translate(v2, cr3, load).PageFault?
    ensures Translate(v1, cr3, load).Translated? ==>
      Translate(v1, cr3, load).paddr - PageOffset(v1) == Translate(v2, cr3, load).paddr - PageOffset(v2)
  {
    assert PdptIndex(v1) == PdptIndex(v2) && PdIndex(v1) == PdIndex(v2) && PtIndex(v1) == PtIndex(v2) by {
      SplitRoundTrip(v1);
      SplitRoundTrip(v2);
    }
  }

  /**
   * The walk consults only the entries on its own path, and stops at the first
   * entry whose present bit is clear: two memories that agree on the entries the
   * walk reads (and on nothing else) give the same translation.
   */
  lemma TranslateReadsOnlyItsPath(vaddr: uint32, cr3: uint64, load1: WordReader, load2: WordReader)
    requires load1(PdpteAddr(vaddr, cr3)) == load2(PdpteAddr(vaddr, cr3))
    requires Present(Pdpte(vaddr, cr3, load1)) ==>
      load1(PdeAddr(vaddr, cr3, load1)) == load2(PdeAddr(vaddr, cr3, load1))
    requires Present(Pdpte(vaddr, cr3, load1)) && Present(Pde(vaddr, cr3, load1)) ==>
      load1(PteAddr(vaddr, cr3, load1)) == load2(PteAddr(vaddr, cr3, load1))
    ensures Translate(vaddr, cr3, load1) == Translate(vaddr, cr3, load2)
  {
  }

  // ---------------------------------------------------------------------------
  // str_from_virt

  /** Virtual address `vaddr + i`, with the 32-bit wrap-around of the C addition. */
  function AddrPlus(vaddr: uint32, i: nat): uint32 {
    ((vaddr as int + i) % TWO_32) as uint32
  }

  /** The byte at virtual address `vaddr + i`, or None when its translation faults. */
  function ByteAt(vaddr: uint32, i: nat, cr3: uint64, ram: Ram): Option<byte> {
    match Translate(AddrPlus(vaddr, i), cr3, Words(ram))
    case PageFault => None
    case Translated(p) => Some(ram(p))
  }

  /** What the read loop sees at each index: a byte, or a fault. */
  type ByteSource = nat -> Option<byte>

  function VirtualBytes(vaddr: uint32, cr3: uint64, ram: Ram): ByteSource {
    (i: nat) => ByteAt(vaddr, i, cr3, ram)
  }

  /**
   * Outcome of reading a string: a fault (the C function returns NULL), the bytes up
   * to and including the first NUL, or no NUL within the fuel bound (the C loop
   * would keep reading).
   */
  datatype StrResult = StrFault | Str(bytes: seq<byte>) | NoTerminator

  /** Puts already-read bytes in front of the rest of a read. */
  function Prepend(prefix: seq<byte>, rest: StrResult): StrResult {
    match rest
    case Str(t) => Str(prefix + t)
    case other => other
  }

  /** Reading the string from index `i` on, with `fuel` bytes left to look at. */
  function ReadFrom(src: ByteSource, i: nat, fuel: nat): StrResult
    decreases fuel
  {
    if fuel == 0 then NoTerminator
    else match src(i)
      case None => StrFault
      case Some(c) =>
        if c == 0 then Str([0])
        else Prepend([c], ReadFrom(src, i + 1, fuel - 1))
  }

  /** The bytes `s` are what the source yields at `i`, `i + 1`, ..., and `s` is a
      C string: it ends with its only NUL. */
  ghost predicate IsStringAt(src: ByteSource, i: nat, s: seq<byte>) {
    && |s| >= 1
    && s[|s| - 1] == 0
    && (forall k :: 0 <= k < |s| - 1 ==> s[k] != 0)
    && (forall k :: 0 <= k < |s| ==> src(i + k) == Some(s[k]))
  }

  /** A string at `i` that starts with a non-NUL byte is that byte followed by a
      string at `i + 1`. */
  lemma StringAtShift(src: ByteSource, i: nat, s: seq<byte>)
    requires |s| >= 1 && s[0] != 0
    ensures IsStringAt(src, i, s) <==> src(i) == Some(s[0]) && IsStringAt(src, i + 1, s[1..])
  {
    if IsStringAt(src, i, s) {
      assert src(i + 0) == Some(s[0]);
      forall k | 0 <= k < |s[1..]|
        ensures src(i + 1 + k) == Some(s[1..][k])
      {
        assert src(i + (k + 1)) == Some(s[k + 1]);
      }
    }
    if src(i) == Some(s[0]) && IsStringAt(src, i + 1, s[1..]) {
      forall k | 0 <= k < |s|
        ensures src(i + k) == Some(s[k])
      {
        if k > 0 {
          assert src(i + 1 + (k - 1)) == Some(s[1..][k - 1]);
        }
      }
    }
  }

  /** A successful read returns exactly the translated bytes up to and including the
      first NUL, and any such byte string within the fuel bound is what is read. */
  lemma {:induction false} ReadFromIsString(src: ByteSource, i: nat, fuel: nat, s: seq<byte>)
    ensures ReadFrom(src, i, fuel) == Str(s) <==> |s| <= fuel && IsStringAt(src, i, s)
    decreases fuel
  {
    if fuel == 0 {
    } else {
      match src(i)
      case None =>
        if |s| >= 1 {
          assert src(i + 0) != Some(s[0]);
        }
      case Some(c) =>
        if c == 0 {
          if IsStringAt(src, i, s) {
            assert src(i + 0) == Some(s[0]);
            assert |s| == 1;
          }
        } else {
          var rest := ReadFrom(src, i + 1, fuel - 1);
          if |s| >= 1 && s[0] == c {
            ReadFromIsString(src, i + 1, fuel - 1, s[1..]);
            StringAtShift(src, i, s);
            assert s == [c] + s[1..];
          } else if |s| >= 1 {
            assert src(i + 0) != Some(s[0]);
            match rest
            case Str(t) => assert Prepend([c], rest).bytes[0] == c;
            case _ =>
          }
        }
    }
  }

  /** Every index in [i, i + k) yields a byte other than NUL. */
  ghost predicate ClearBefore(src: ByteSource, i: nat, k: nat) {
    forall j :: i <= j < i + k ==> src(j).Some? && src(j).value != 0
  }

  /** Index `i + k` is the first one that faults, and no NUL comes before it. */
  ghost predicate FaultAfter(src: ByteSource, i: nat, k: nat) {
    src(i + k).None? && ClearBefore(src, i, k)
  }

  /** A read returns NULL exactly when some index faults before any NUL is seen. */
  lemma {:induction false} ReadFromFaults(src: ByteSource, i: nat, fuel: nat)
    ensures ReadFrom(src, i, fuel) == StrFault <==> exists k: nat :: k < fuel && FaultAfter(src, i, k)
    decreases fuel
  {
    if fuel == 0 {
    } else if src(i).None? {
      assert FaultAfter(src, i, 0);
    } else if src(i).value == 0 {
      forall k: nat | k < fuel
        ensures !FaultAfter(src, i, k)
      {
        if k > 0 {
          assert !(src(i).Some? && src(i).value != 0);
        }
      }
    } else {
      ReadFromFaults(src, i + 1, fuel - 1);
      var rest := ReadFrom(src, i + 1, fuel - 1);
      assert ReadFrom(src, i, fuel) == StrFault <==> rest == StrFault by {
        match rest
        case Str(t) =>
        case _ =>
      }
      forall k: nat | 0 < k
        ensures FaultAfter(src, i, k) <==> FaultAfter(src, i + 1, k - 1)
      {
        assert i + k == i + 1 + (k - 1);
      }
      if exists k: nat :: k < fuel && FaultAfter(src, i, k) {
        var k: nat :| k < fuel && FaultAfter(src, i, k);
        assert k != 0;
        assert FaultAfter(src, i + 1, k - 1);
      }
      var next := i + 1;
      if exists k: nat :: k < fuel - 1 && FaultAfter(src, next, k) {
        var k: nat :| k < fuel - 1 && FaultAfter(src, next, k);
        assert FaultAfter(src, i, k + 1);
      }
    }
  }

  predicate IsPowerOfTwo(n: nat) {
    n == 1 || (n > 1 && n % 2 == 0 && IsPowerOfTwo(n / 2))
  }

  /**
   * The loop of `str_from_virt` over any byte source: it reads bytes at index 0, 1,
   * ... into a buffer that starts with one byte and doubles whenever the next write
   * index reaches its length. `fuel` bounds the number of bytes looked at.
   */
  method ReadString(src: ByteSource, fuel: nat) returns (r: StrResult, capacity: nat)
    ensures r == ReadFrom(src, 0, fuel)
    ensures r.Str? ==> |r.bytes| < capacity
    ensures IsPowerOfTwo(capacity)
  {
    capacity := 1;
    var buf: seq<byte> := [];
    var c: byte := 0x20;
    var i: nat := 0;
    while c != 0 && i < fuel
      invariant i <= fuel
      invariant |buf| == i
      invariant i < capacity
      invariant IsPowerOfTwo(capacity)
      invariant c != 0 ==> ReadFrom(src, 0, fuel) == Prepend(buf, ReadFrom(src, i, fuel - i))
      invariant c == 0 ==> ReadFrom(src, 0, fuel) == Str(buf)
      decreases fuel - i
    {
      var b := src(i);
      if b.None? {
        return StrFault, capacity;
      }
      c := b.value;
      if c != 0 {
        PrependTwice(buf, [c], ReadFrom(src, i + 1, fuel - i - 1));
      }
      buf := buf + [c];
      if i + 1 >= capacity {
        capacity := capacity * 2;
      }
      // the terminator written after the byte stays inside the buffer
      assert i + 1 < capacity;
      i := i + 1;
    }
    if c != 0 {
      r := NoTerminator;
    } else {
      r := Str(buf);
    }
  }

  /** `str_from_virt`: the string at `vaddr`, read through the page walk. */
  method StrFromVirt(vaddr: uint32, cr3: uint64, ram: Ram, fuel: nat) returns (r: StrResult, capacity: nat)
    ensures r == ReadFrom(VirtualBytes(vaddr, cr3, ram), 0, fuel)
    ensures r.Str? ==> |r.bytes| < capacity && IsStringAt(VirtualBytes(vaddr, cr3, ram), 0, r.bytes)
    ensures r == StrFault <==> exists k: nat :: k < fuel && FaultAfter(VirtualBytes(vaddr, cr3, ram), 0, k)
    ensures IsPowerOfTwo(capacity)
  {
    var src := VirtualBytes(vaddr, cr3, ram);
    r, capacity := ReadString(src, fuel);
    if r.Str? {
      ReadFromIsString(src, 0, fuel, r.bytes);
    }
    ReadFromFaults(src, 0, fuel);
  }

  lemma PrependTwice(a: seq<byte>, b: seq<byte>, rest: StrResult)
    ensures Prepend(a, Prepend(b, rest)) == Prepend(a + b, rest)
  {
    match rest
    case Str(t) => assert a + (b + t) == (a + b) + t;
    case _ =>
  }
}
