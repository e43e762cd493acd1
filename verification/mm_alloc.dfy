/**
 * The first revision of the first-fit allocator (`mm_malloc`, `mm_free`,
 * `mm_realloc` in hw5/mm_alloc.c), on a 64-bit host: a header (`metadata_t`:
 * size, free flag padded to a word, prev, next) takes 32 bytes.
 *
 * The blocks are every block obtained from `sbrk`, in address order. The list the
 * code searches starts at the global `head`, which `find_first_fit` moves forward
 * as it scans; blocks in front of `head` can never be reached again. Every link
 * from `head` onwards is intact (each new block is linked after `tail`, the last
 * block, or becomes `head` itself), so the reachable list is `blocks[head..]`, and
 * `head == |blocks|` is NULL.
 */
module MmAlloc {
  import opened Wrappers
  import opened Heap

  /** sizeof(metadata_t) on a 64-bit host. */
  const H: nat := 32

  datatype MmHeap = MmHeap(blocks: seq<Block>, head: nat)

  /** The result of `mm_malloc`, or `Undefined` when the code writes through a
      pointer it has made out of a byte value. */
  datatype Outcome = Done(heap: MmHeap, ptr: Option<nat>) | Undefined

  /** `head` names a block or is NULL, and no header records more than its area. */
  predicate WellFormed(m: MmHeap) {
    m.head <= |m.blocks| && SizesCover(m.blocks)
  }

  /** Every block is reachable from `head`: what never moving `head` keeps. */
  predicate Linked(m: MmHeap) {
    m.head == 0
  }

  /** The blocks reachable from `head`. */
  function Reachable(m: MmHeap): seq<Block>
    requires m.head <= |m.blocks|
  {
    m.blocks[m.head..]
  }

  /** `find_first_fit`: the first block from `head` on that is free and large
      enough, as an index into all blocks. */
  function FindFirstFit(m: MmHeap, size: nat): (r: Option<nat>)
    requires m.head <= |m.blocks|
    ensures r.Some? ==> m.head <= r.value < |m.blocks| && Fits(m.blocks[r.value], size)
    ensures r.Some? ==> forall k :: m.head <= k < r.value ==> !Fits(m.blocks[k], size)
    ensures r.None? ==> forall k :: m.head <= k < |m.blocks| ==> !Fits(m.blocks[k], size)
  {
    var rs := Reachable(m);
    assert forall k :: m.head <= k < |m.blocks| ==> m.blocks[k] == rs[k - m.head];
    match FirstFit(rs, size)
    case None => None
    case Some(j) => Some(m.head + j)
  }

  /** Where a request of `size` bytes lands: the first fit from `head`, or a new
      block after the last one. */
  function Chosen(m: MmHeap, size: nat): nat
    requires m.head <= |m.blocks|
  {
    if m.head == |m.blocks| then |m.blocks|
    else match FindFirstFit(m, size)
      case None => |m.blocks|
      case Some(i) => i
  }

  /** A barely-fitting block handed out: its recorded size becomes the request, it
      is marked in use and its first `size` bytes are zero-filled. */
  function TakeFront(b: Block, size: nat): (r: Block)
    requires size <= |b.data|
    ensures r.size == size && !r.free && |r.data| == |b.data|
    ensures r.data[..size] == Zeros(size) && r.data[size..] == b.data[size..]
  {
    var d := Zeros(size) + b.data[size..];
    assert d[..size] == Zeros(size) && d[size..] == b.data[size..];
    Block(size, false, d)
  }

  /** The heap with its barely-fitting block `i` handed out for `size` bytes. */
  function TakeAt(bs: seq<Block>, i: nat, size: nat): (r: seq<Block>)
    requires SizesCover(bs) && i < |bs| && size <= bs[i].size
    ensures |r| == |bs| && r[..i] == bs[..i]
    ensures SizesCover(r) && Footprint(r, H) == Footprint(bs, H)
    ensures !r[i].free && r[i].size == size && r[i].data[..size] == Zeros(size)
    ensures r[i].data[size..] == bs[i].data[size..] && r[i + 1..] == bs[i + 1..]
  {
    var b := TakeFront(bs[i], size);
    var r := bs[i := b];
    assert r[..i] == bs[..i];
    assert r == bs[..i] + [b] + bs[i + 1..];
    FootprintOne(b, H);
    FootprintReplace(bs, i, [b], H);
    r
  }

  /** The heap with free block `i` handed out for `size` bytes, split when it
      exceeds the request by a header. */
  function Carve(bs: seq<Block>, i: nat, size: nat): (r: seq<Block>)
    requires SizesCover(bs) && i < |bs| && size <= bs[i].size
    ensures |r| >= |bs| && r[..i] == bs[..i]
    ensures SizesCover(r) && Footprint(r, H) == Footprint(bs, H)
    ensures !r[i].free && r[i].size == size && r[i].data[..size] == Zeros(size)
    ensures bs[i].size >= size + H ==>
      && |r| == |bs| + 1
      && r[i] == Block(size, false, Zeros(size))
      && r[i + 1] == Block(bs[i].size - size - H, true, bs[i].data[size + H..])
      && r[i + 2..] == bs[i + 1..]
    ensures bs[i].size < size + H ==>
      && |r| == |bs|
      && r[i].data[size..] == bs[i].data[size..]
      && r[i + 1..] == bs[i + 1..]
  {
    if bs[i].size >= size + H then
      var r := SplitAt(bs, i, size, H);
      assert r[i].data[..size] == Zeros(size);
      r
    else TakeAt(bs, i, size)
  }

  /**
   * `mm_malloc` as written. A zero request returns NULL. With `head` NULL the new
   * block becomes `head` (and `tail`). Otherwise `find_first_fit` runs, leaving
   * `head` at the block it returns, or NULL after a miss, even when `sbrk` then
   * fails. On a miss the new block is linked after `tail`. A fit that exceeds the
   * request by a header is split through a pointer made of a byte of the block's
   * contents: undefined. A barely-fitting block is taken with its recorded size
   * cut to the request.
   */
  function MmMalloc(m: MmHeap, size: nat, sbrkOk: bool): (r: Outcome)
    requires WellFormed(m)
    ensures size == 0 ==> r == Done(m, None)
    ensures r.Undefined? <==>
      && size > 0 && m.head < |m.blocks| && FindFirstFit(m, size).Some?
      && m.blocks[FindFirstFit(m, size).value].size >= size + H
    ensures r.Done? ==> WellFormed(r.heap) && m.head <= r.heap.head
    ensures r.Done? ==> (r.ptr.None? <==> size == 0 || (Chosen(m, size) == |m.blocks| && !sbrkOk))
    ensures r.Done? && r.ptr.None? ==> r.heap.blocks == m.blocks
    ensures r.Done? && r.ptr.Some? ==>
      var j := Chosen(m, size);
      && j < |r.heap.blocks|
      && r.ptr.value == ContentAddr(r.heap.blocks, j, H)
      && !r.heap.blocks[j].free && r.heap.blocks[j].size == size
      && r.heap.blocks[j].data[..size] == Zeros(size)
      && r.heap.blocks[..j] == m.blocks[..j]
    ensures r.Done? && r.ptr.Some? && Chosen(m, size) == |m.blocks| ==>
      r.heap.blocks == m.blocks + [Block(size, false, Zeros(size))]
    ensures r.Done? && r.ptr.Some? && Chosen(m, size) < |m.blocks| ==>
      var j := Chosen(m, size);
      && |r.heap.blocks| == |m.blocks|
      && r.heap.blocks[j].data[size..] == m.blocks[j].data[size..]
      && r.heap.blocks[j + 1..] == m.blocks[j + 1..]
    ensures r.Done? ==> (Footprint(r.heap.blocks, H) ==
      Footprint(m.blocks, H) + (if r.ptr.Some? && Chosen(m, size) == |m.blocks| then size + H else 0))
    ensures r.Done? && size > 0 && m.head < |m.blocks| ==>
      r.heap.head == (if FindFirstFit(m, size).Some? then FindFirstFit(m, size).value else |r.heap.blocks|)
  {
    if size == 0 then Done(m, None)
    else if m.head == |m.blocks| then
      if !sbrkOk then Done(m, None)
      else
        var g := Grow(m.blocks, size, H);
        assert g == m.blocks + [Block(size, false, Zeros(size))];
        Done(MmHeap(g, |m.blocks|), Some(ContentAddr(g, |m.blocks|, H)))
    else match FindFirstFit(m, size)
      case None =>
        if !sbrkOk then Done(MmHeap(m.blocks, |m.blocks|), None)
        else
          var g := Grow(m.blocks, size, H);
          assert g == m.blocks + [Block(size, false, Zeros(size))];
          Done(MmHeap(g, |g|), Some(ContentAddr(g, |m.blocks|, H)))
      case Some(i) =>
        if m.blocks[i].size >= size + H then Undefined
        else
          var bs := TakeAt(m.blocks, i, size);
          Done(MmHeap(bs, i), Some(ContentAddr(bs, i, H)))
  }

  /**
   * The evident intent of `mm_malloc`, as the later Pintos revision writes it: the
   * search walks a local pointer and leaves `head` alone, and a split puts the new
   * header right after the request, at `contents + size`. The barely-fit case
   * still cuts the recorded size to the request.
   */
  function MmMallocFixed(m: MmHeap, size: nat, sbrkOk: bool): (r: Outcome)
    requires WellFormed(m)
    ensures r.Done? && WellFormed(r.heap)
    ensures size == 0 ==> r == Done(m, None)
    ensures Linked(m) ==> Linked(r.heap)
    ensures r.ptr.None? <==> size == 0 || (Chosen(m, size) == |m.blocks| && !sbrkOk)
    ensures r.ptr.None? ==> r.heap.blocks == m.blocks
    ensures r.ptr.Some? ==>
      var j := Chosen(m, size);
      && j < |r.heap.blocks|
      && r.ptr.value == ContentAddr(r.heap.blocks, j, H)
      && !r.heap.blocks[j].free && r.heap.blocks[j].size == size
      && r.heap.blocks[j].data[..size] == Zeros(size)
      && r.heap.blocks[..j] == m.blocks[..j]
    ensures r.ptr.Some? && Chosen(m, size) == |m.blocks| ==>
      r.heap.blocks == m.blocks + [Block(size, false, Zeros(size))]
    ensures r.ptr.Some? && Chosen(m, size) < |m.blocks| && m.blocks[Chosen(m, size)].size >= size + H ==>
      var j := Chosen(m, size);
      && |r.heap.blocks| == |m.blocks| + 1
      && r.heap.blocks[j + 1] == Block(m.blocks[j].size - size - H, true, m.blocks[j].data[size + H..])
      && r.heap.blocks[j + 2..] == m.blocks[j + 1..]
    ensures r.ptr.Some? && Chosen(m, size) < |m.blocks| && m.blocks[Chosen(m, size)].size < size + H ==>
      var j := Chosen(m, size);
      && |r.heap.blocks| == |m.blocks|
      && r.heap.blocks[j].data[size..] == m.blocks[j].data[size..]
      && r.heap.blocks[j + 1..] == m.blocks[j + 1..]
    ensures Footprint(r.heap.blocks, H) ==
      Footprint(m.blocks, H) + (if r.ptr.Some? && Chosen(m, size) == |m.blocks| then size + H else 0)
  {
    if size == 0 then Done(m, None)
    else if m.head == |m.blocks| then
      if !sbrkOk then Done(m, None)
      else
        var g := Grow(m.blocks, size, H);
        assert g == m.blocks + [Block(size, false, Zeros(size))];
        Done(MmHeap(g, |m.blocks|), Some(ContentAddr(g, |m.blocks|, H)))
    else match FindFirstFit(m, size)
      case None =>
        if !sbrkOk then Done(m, None)
        else
          var g := Grow(m.blocks, size, H);
          assert g == m.blocks + [Block(size, false, Zeros(size))];
          Done(MmHeap(g, m.head), Some(ContentAddr(g, |m.blocks|, H)))
      case Some(i) =>
        var bs := Carve(m.blocks, i, size);
        Done(MmHeap(bs, m.head), Some(ContentAddr(bs, i, H)))
  }

  /** While every block is reachable, a request that some free block fits never
      grows the heap. */
  lemma FixedReuses(m: MmHeap, size: nat, sbrkOk: bool)
    requires WellFormed(m) && Linked(m)
    requires size > 0 && FirstFit(m.blocks, size).Some?
    ensures var r := MmMallocFixed(m, size, sbrkOk);
      && r.ptr.Some?
      && Footprint(r.heap.blocks, H) == Footprint(m.blocks, H)
      && Chosen(m, size) == FirstFit(m.blocks, size).value
  {
    assert Reachable(m) == m.blocks;
  }

  /** Where the code as written is defined, it builds the same blocks and returns
      the same pointer as the intended version; only `head` differs. */
  lemma FixedAgrees(m: MmHeap, size: nat, sbrkOk: bool)
    requires WellFormed(m) && MmMalloc(m, size, sbrkOk).Done?
    ensures MmMallocFixed(m, size, sbrkOk).heap.blocks == MmMalloc(m, size, sbrkOk).heap.blocks
    ensures MmMallocFixed(m, size, sbrkOk).ptr == MmMalloc(m, size, sbrkOk).ptr
  {
  }

  /**
   * `mm_free`: NULL is ignored; otherwise the free flag of the block whose contents
   * start at `p` is set. Nothing is merged (`coalesce` is empty) and no size or
   * byte changes.
   */
  function MmFree(m: MmHeap, p: Option<nat>): (r: MmHeap)
    requires WellFormed(m)
    requires p.Some? ==> Locate(m.blocks, p.value, H).Some?
    ensures p.None? ==> r == m
    ensures WellFormed(r) && r.head == m.head && |r.blocks| == |m.blocks|
    ensures forall k :: 0 <= k < |m.blocks| ==>
      r.blocks[k].size == m.blocks[k].size && r.blocks[k].data == m.blocks[k].data
    ensures forall k :: 0 <= k < |m.blocks| ==>
      r.blocks[k].free == (m.blocks[k].free || (p.Some? && k == Locate(m.blocks, p.value, H).value))
  {
    match p
    case None => m
    case Some(q) =>
      var i := Locate(m.blocks, q, H).value;
      MmHeap(m.blocks[i := m.blocks[i].(free := true)], m.head)
  }

  /** Freeing does not move any block, so the same pointer names the same block
      afterwards, and freeing it again changes nothing. */
  lemma MmFreeTwice(m: MmHeap, q: nat)
    requires WellFormed(m) && Locate(m.blocks, q, H).Some?
    ensures Locate(MmFree(m, Some(q)).blocks, q, H) == Locate(m.blocks, q, H)
    ensures MmFree(MmFree(m, Some(q)), Some(q)) == MmFree(m, Some(q))
  {
    var i := Locate(m.blocks, q, H).value;
    var f := MmFree(m, Some(q));
    FootprintIgnoresHeaders(f.blocks[..i], m.blocks[..i], H);
    assert ContentAddr(f.blocks, i, H) == q;
    LocateContent(f.blocks, i, H);
    var g := MmFree(f, Some(q));
    assert g.blocks == f.blocks;
  }

  /** `mm_realloc` is a stub: it returns NULL and touches nothing. */
  function MmRealloc(m: MmHeap, p: Option<nat>, size: nat): (r: Outcome)
    ensures r.Done? && r.heap == m && r.ptr.None?
  {
    Done(m, None)
  }

  // ---------------------------------------------------------------------------
  // The moving `head` loses free blocks
  // ---------------------------------------------------------------------------

  /** An eight-byte block in use, as `mm_malloc(8)` leaves it, and the same block freed. */
  const Eight: Block := Block(8, false, Zeros(8))
  const FreedEight: Block := Block(8, true, Zeros(8))

  /** The first eight-byte allocation on an empty heap. */
  lemma FirstEight()
    ensures MmMalloc(MmHeap([], 0), 8, true) == Done(MmHeap([Eight], 0), Some(H))
    ensures MmMallocFixed(MmHeap([], 0), 8, true) == Done(MmHeap([Eight], 0), Some(H))
  {
    assert Grow([], 8, H) == [Eight];
    assert ContentAddr([Eight], 0, H) == H by {
      assert [Eight][..0] == [];
    }
  }

  /** The second one misses: the code as written leaves `head` NULL. */
  lemma SecondEight()
    ensures MmMalloc(MmHeap([Eight], 0), 8, true) == Done(MmHeap([Eight, Eight], 2), Some(2 * H + 8))
    ensures MmMallocFixed(MmHeap([Eight], 0), 8, true) == Done(MmHeap([Eight, Eight], 0), Some(2 * H + 8))
  {
    var m := MmHeap([Eight], 0);
    assert FindFirstFit(m, 8).None? by {
      assert !Fits(m.blocks[0], 8);
    }
    var g := Grow([Eight], 8, H);
    assert g[0] == g[..1][0] == Eight;
    assert g == [Eight, Eight];
    assert ContentAddr(g, 1, H) == 2 * H + 8 by {
      assert g[..1] == [Eight];
      FootprintOne(Eight, H);
    }
  }

  /** Freeing the first block only sets its flag. */
  lemma FreeFirst(head: nat)
    requires head <= 2
    ensures MmFree(MmHeap([Eight, Eight], head), Some(H)) == MmHeap([FreedEight, Eight], head)
  {
    var bs := [Eight, Eight];
    assert ContentAddr(bs, 0, H) == H by {
      assert bs[..0] == [];
    }
    LocateContent(bs, 0, H);
  }

  /** With `head` NULL, the third request starts a new list after the freed block. */
  lemma ThirdEight()
    ensures MmMalloc(MmHeap([FreedEight, Eight], 2), 8, true)
      == Done(MmHeap([FreedEight, Eight, Eight], 2), Some(3 * H + 16))
  {
    var g := Grow([FreedEight, Eight], 8, H);
    assert g[0] == g[..2][0] == FreedEight && g[1] == g[..2][1] == Eight;
    assert g == [FreedEight, Eight, Eight];
    assert ContentAddr(g, 2, H) == 3 * H + 16 by {
      assert g[..2] == [FreedEight, Eight];
      FootprintTwo(FreedEight, Eight, H);
    }
  }

  /** The intended version finds the freed block and hands it out again. */
  lemma ThirdEightFixed()
    ensures MmMallocFixed(MmHeap([FreedEight, Eight], 0), 8, true) == Done(MmHeap([Eight, Eight], 0), Some(H))
  {
    var m := MmHeap([FreedEight, Eight], 0);
    assert FindFirstFit(m, 8) == Some(0);
    assert TakeFront(FreedEight, 8) == Eight by {
      assert Zeros(8) + Zeros(8)[8..] == Zeros(8);
    }
    assert m.blocks[0 := Eight] == [Eight, Eight];
    assert ContentAddr([Eight, Eight], 0, H) == H by {
      assert [Eight, Eight][..0] == [];
    }
  }

  /**
   * mm_malloc(8), mm_malloc(8), mm_free of the first, mm_malloc(8): the first
   * block is free and fits, yet the code as written asks `sbrk` for a third block,
   * and the freed block can never be reached again. The intended version hands the
   * freed block back.
   */
  lemma HeadLosesFreeBlock()
    ensures MmMalloc(MmHeap([], 0), 8, true) == Done(MmHeap([Eight], 0), Some(H))
    ensures MmMalloc(MmHeap([Eight], 0), 8, true) == Done(MmHeap([Eight, Eight], 2), Some(2 * H + 8))
    ensures MmFree(MmHeap([Eight, Eight], 2), Some(H)) == MmHeap([FreedEight, Eight], 2)
    ensures FirstFit([FreedEight, Eight], 8) == Some(0)
    ensures MmMalloc(MmHeap([FreedEight, Eight], 2), 8, true)
      == Done(MmHeap([FreedEight, Eight, Eight], 2), Some(3 * H + 16))
    ensures Reachable(MmHeap([FreedEight, Eight, Eight], 2)) == [Eight]
  {
    FirstEight();
    SecondEight();
    FreeFirst(2);
    ThirdEight();
  }

  /** The same calls with the intended `mm_malloc` end with the freed block reused
      and no third block. */
  lemma FixedKeepsFreeBlock()
    ensures MmMallocFixed(MmHeap([], 0), 8, true) == Done(MmHeap([Eight], 0), Some(H))
    ensures MmMallocFixed(MmHeap([Eight], 0), 8, true) == Done(MmHeap([Eight, Eight], 0), Some(2 * H + 8))
    ensures MmFree(MmHeap([Eight, Eight], 0), Some(H)) == MmHeap([FreedEight, Eight], 0)
    ensures MmMallocFixed(MmHeap([FreedEight, Eight], 0), 8, true) == Done(MmHeap([Eight, Eight], 0), Some(H))
  {
    FirstEight();
    SecondEight();
    FreeFirst(0);
    ThirdEightFixed();
  }

  // ---------------------------------------------------------------------------
  // The split is undefined
  // ---------------------------------------------------------------------------

  /** A free 64-byte block. */
  const FreeSixtyFour: Block := Block(64, true, Zeros(64))

  /** An eight-byte request on it: the code as written splits through a bad pointer. */
  lemma SplitUndefined()
    ensures MmMalloc(MmHeap([FreeSixtyFour], 0), 8, true) == Undefined
  {
    assert FindFirstFit(MmHeap([FreeSixtyFour], 0), 8) == Some(0);
  }

  /** The intended version hands out its front and leaves a 24-byte free block. */
  lemma SplitFixed()
    ensures MmMallocFixed(MmHeap([FreeSixtyFour], 0), 8, true)
      == Done(MmHeap([Eight, Block(24, true, Zeros(64)[40..])], 0), Some(H))
  {
    var m := MmHeap([FreeSixtyFour], 0);
    assert FindFirstFit(m, 8) == Some(0);
    var bs := SplitAt(m.blocks, 0, 8, H);
    assert bs == [bs[0], bs[1]];
    assert ContentAddr(bs, 0, H) == H by {
      assert bs[..0] == [];
    }
  }
}
