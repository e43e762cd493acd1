/**
 * The first-fit allocator of the Pintos user library (`malloc`, `free`, `calloc`,
 * `realloc` in lib/user/stdlib.c). The heap is the block sequence of the `Heap`
 * module with 16-byte headers (`metadata_t` on 32-bit x86: size, free flag padded
 * to a word, prev and next). A pointer is the offset of a block's contents from
 * the start of the heap; `sbrk` success is a parameter.
 */
module UserMalloc {
  import opened Wrappers
  import opened Ints
  import opened Heap

  /** sizeof(metadata_t) on 32-bit x86. */
  const H: nat := 16
  /** sizeof(void *) on 32-bit x86. */
  const VOID_PTR_SIZE: nat := 4

  /** The heap invariant that `free` keeps: exact sizes and no two free neighbours. */
  predicate Valid(bs: seq<Block>) {
    SizesExact(bs) && NoAdjacentFree(bs)
  }

  /** A heap after a call, and the pointer returned (None for NULL). */
  datatype Alloc = Alloc(blocks: seq<Block>, ptr: Option<nat>)

  /** Where a request of `size` bytes lands: the first fit, or a new block after
      the last one. */
  function Slot(bs: seq<Block>, size: nat): nat {
    match FirstFit(bs, size)
    case Some(i) => i
    case None => |bs|
  }

  /** The heap after the free block `i` is handed out whole: marked in use and
      zero-filled over its recorded size, which is left as it was. */
  function TakeWhole(bs: seq<Block>, i: nat): (r: seq<Block>)
    requires SizesExact(bs) && i < |bs|
    ensures |r| == |bs| && r[..i] == bs[..i] && r[i + 1..] == bs[i + 1..]
    ensures r[i] == Block(bs[i].size, false, Zeros(bs[i].size))
    ensures SizesExact(r)
    ensures Footprint(r, H) == Footprint(bs, H)
    ensures NoAdjacentFree(bs) ==> NoAdjacentFree(r)
  {
    var nb := Block(bs[i].size, false, Zeros(bs[i].size));
    var r := bs[i := nb];
    assert r[..i] == bs[..i];
    assert r == bs[..i] + [nb] + bs[i + 1..];
    FootprintReplace(bs, i, [nb], H);
    assert Footprint([nb], H) == Extent(nb, H) by {
      assert [nb][1..] == [];
    }
    r
  }

  /**
   * `malloc`. A zero request returns NULL. Otherwise the first free block that is
   * large enough is used: split when it exceeds the request by at least a header,
   * taken whole (keeping its recorded size) when it does not. With no fit, the
   * heap grows by a header plus the request, and the new block follows the last
   * one; `head == NULL` is the case of an empty sequence. The block handed out is
   * zero-filled, and nothing in front of it changes.
   */
  function Malloc(bs: seq<Block>, size: nat, sbrkOk: bool): (r: Alloc)
    requires SizesExact(bs)
    ensures SizesExact(r.blocks)
    ensures r.ptr.None? <==> size == 0 || (FirstFit(bs, size).None? && !sbrkOk)
    ensures r.ptr.None? ==> r.blocks == bs
    ensures r.ptr.Some? ==>
      var j := Slot(bs, size);
      && j < |r.blocks|
      && r.ptr.value == ContentAddr(r.blocks, j, H)
      && !r.blocks[j].free
      && r.blocks[j].size >= size
      && r.blocks[j].data == Zeros(r.blocks[j].size)
      && r.blocks[..j] == bs[..j]
    ensures r.ptr.Some? && FirstFit(bs, size).Some? ==>
      var i := FirstFit(bs, size).value;
      bs[i].size >= size + H ==>
        && |r.blocks| == |bs| + 1
        && r.blocks[i] == Block(size, false, Zeros(size))
        && r.blocks[i + 1] == Block(bs[i].size - size - H, true, bs[i].data[size + H..])
        && r.blocks[i + 2..] == bs[i + 1..]
    ensures r.ptr.Some? && FirstFit(bs, size).Some? ==>
      var i := FirstFit(bs, size).value;
      bs[i].size < size + H ==>
        && |r.blocks| == |bs|
        && r.blocks[i] == Block(bs[i].size, false, Zeros(bs[i].size))
        && r.blocks[i + 1..] == bs[i + 1..]
    ensures r.ptr.Some? && FirstFit(bs, size).None? ==>
      r.blocks == bs + [Block(size, false, Zeros(size))]
    ensures Footprint(r.blocks, H) ==
      Footprint(bs, H) + (if r.ptr.Some? && FirstFit(bs, size).None? then size + H else 0)
    ensures NoAdjacentFree(bs) ==> NoAdjacentFree(r.blocks)
  {
    if size == 0 then Alloc(bs, None)
    else match FirstFit(bs, size)
      case None =>
        if !sbrkOk then Alloc(bs, None)
        else
          var r := Grow(bs, size, H);
          Alloc(r, Some(ContentAddr(r, |bs|, H)))
      case Some(i) =>
        var r := if bs[i].size >= size + H then SplitAt(bs, i, size, H) else TakeWhole(bs, i);
        Alloc(r, Some(ContentAddr(r, i, H)))
  }

  // ---------------------------------------------------------------------------
  // free and coalesce
  // ---------------------------------------------------------------------------

  /** The first block of the free run that ends at `i`: `coalesce` walks `prev`
      while the previous block is free. */
  function RunStart(bs: seq<Block>, i: nat): (a: nat)
    requires i < |bs|
    ensures a <= i
    ensures a == 0 || !bs[a - 1].free
    ensures forall k :: a <= k < i ==> bs[k].free
    decreases i
  {
    if i > 0 && bs[i - 1].free then RunStart(bs, i - 1) else i
  }

  /** The last block of the free run that starts at `i`: `coalesce` walks `next`
      while the next block is free. */
  function RunEnd(bs: seq<Block>, i: nat): (b: nat)
    requires i < |bs|
    ensures i <= b < |bs|
    ensures b == |bs| - 1 || !bs[b + 1].free
    ensures forall k :: i < k <= b ==> bs[k].free
    decreases |bs| - i
  {
    if i + 1 < |bs| && bs[i + 1].free then RunEnd(bs, i + 1) else i
  }

  /** The size `coalesce` records for a merged run: every header but the last
      block's contributes its size and its header, the last its size. */
  function MergedSize(run: seq<Block>): nat
    requires run != []
  {
    if |run| == 1 then run[0].size else run[0].size + H + MergedSize(run[1..])
  }

  /** With exact sizes, the merged size is the first block's size plus the region of
      the others. */
  lemma {:induction false} MergedSizeExact(run: seq<Block>)
    requires run != [] && SizesExact(run)
    ensures MergedSize(run) == run[0].size + Footprint(run[1..], H)
    decreases |run|
  {
    if |run| > 1 {
      MergedSizeExact(run[1..]);
      assert run[1..][1..] == run[2..];
    } else {
      assert run[1..] == [];
    }
  }

  /** The block a run of free blocks becomes: the first header now covers the
      other blocks' headers and contents. */
  function Merge(run: seq<Block>): Block
    requires run != []
  {
    Block(MergedSize(run), true, run[0].data + Flatten(run[1..], H))
  }

  /** The merged block has exactly the memory image of the run. */
  lemma MergeImage(run: seq<Block>)
    requires run != [] && SizesExact(run)
    ensures Flatten([Merge(run)], H) == Flatten(run, H)
    ensures Footprint([Merge(run)], H) == Footprint(run, H)
    ensures Merge(run).size == |Merge(run).data|
  {
    var m := Merge(run);
    assert [m][1..] == [];
    MergedSizeExact(run);
    FlattenLength(run[1..], H);
    assert Flatten([m], H) == Unknown(H) + m.data;
  }

  /** `free_ptr->free = true`. */
  function MarkFree(bs: seq<Block>, i: nat): (r: seq<Block>)
    requires i < |bs|
    ensures |r| == |bs| && r[i].free
    ensures forall k :: 0 <= k < |bs| ==> r[k].data == bs[k].data && r[k].size == bs[k].size
    ensures forall k :: 0 <= k < |bs| && k != i ==> r[k] == bs[k]
  {
    bs[i := bs[i].(free := true)]
  }

  /** Blocks [a, b] replaced by the single block `x`. */
  function Splice(bs: seq<Block>, a: nat, b: nat, x: Block): (r: seq<Block>)
    requires a <= b < |bs|
    ensures |r| == |bs| - (b - a)
    ensures r[..a] == bs[..a] && r[a] == x && r[a + 1..] == bs[b + 1..]
  {
    var r := bs[..a] + [x] + bs[b + 1..];
    assert r[..a] == bs[..a] && r[a + 1..] == bs[b + 1..];
    r
  }

  /** `coalesce` on block `i`, which is free: the maximal run of free blocks around
      it becomes one block. A run of `i` alone is the early return, and merging it
      changes nothing (`CoalesceAlone`). */
  function Coalesce(bs: seq<Block>, i: nat): (r: seq<Block>)
    requires i < |bs| && bs[i].free
  {
    var a := RunStart(bs, i);
    var b := RunEnd(bs, i);
    Splice(bs, a, b, Merge(bs[a..b + 1]))
  }

  /** With no free neighbour, `coalesce` leaves the heap as it was. */
  lemma CoalesceAlone(bs: seq<Block>, i: nat)
    requires i < |bs| && bs[i].free
    requires (i == 0 || !bs[i - 1].free) && (i == |bs| - 1 || !bs[i + 1].free)
    ensures Coalesce(bs, i) == bs
  {
    var r := Coalesce(bs, i);
    assert bs[i..i + 1] == [bs[i]];
    assert [bs[i]][1..] == [];
    assert bs[i].data + Flatten([], H) == bs[i].data;
    assert r == r[..i] + [r[i]] + r[i + 1..];
    assert bs == bs[..i] + [bs[i]] + bs[i + 1..];
  }

  /** Coalescing removes all but one block of the run and keeps the blocks before it. */
  lemma CoalesceLength(bs: seq<Block>, i: nat)
    requires i < |bs| && bs[i].free
    ensures |Coalesce(bs, i)| == |bs| - (RunEnd(bs, i) - RunStart(bs, i))
    ensures Coalesce(bs, i)[..RunStart(bs, i)] == bs[..RunStart(bs, i)]
  {
  }

  /** Replacing blocks [a, b] by their merge keeps the memory image and exact sizes. */
  lemma MergeRange(bs: seq<Block>, a: nat, b: nat)
    requires SizesExact(bs) && a <= b < |bs|
    ensures var r := Splice(bs, a, b, Merge(bs[a..b + 1]));
      && SizesExact(r)
      && Flatten(r, H) == Flatten(bs, H)
      && Footprint(r, H) == Footprint(bs, H)
  {
    var run := bs[a..b + 1];
    var mg := Merge(run);
    var r := Splice(bs, a, b, mg);
    assert r == bs[..a] + [mg] + bs[b + 1..];
    assert SizesExact(run);
    MergeImage(run);
    FlattenSplice(bs, a, b + 1, [mg], H);
    FootprintSplice(bs, a, b + 1, [mg], H);
    forall k | 0 <= k < |r|
      ensures r[k].size == |r[k].data|
    {
      if k < a {
        assert r[k] == r[..a][k] == bs[k];
      } else if k > a {
        assert r[k] == r[a + 1..][k - a - 1] == bs[k + b - a];
      }
    }
  }

  /** Coalescing never moves or changes a byte of memory. */
  lemma {:induction false} CoalesceImage(bs: seq<Block>, i: nat)
    requires SizesExact(bs) && i < |bs| && bs[i].free
    ensures SizesExact(Coalesce(bs, i))
    ensures Flatten(Coalesce(bs, i), H) == Flatten(bs, H)
    ensures Footprint(Coalesce(bs, i), H) == Footprint(bs, H)
  {
    var a := RunStart(bs, i);
    var b := RunEnd(bs, i);
    MergeRange(bs, a, b);
    assert Coalesce(bs, i) == Splice(bs, a, b, Merge(bs[a..b + 1]));
  }

  /** After coalescing, the block around `i` has no free neighbour. */
  lemma CoalesceNoAdjacent(bs: seq<Block>, i: nat)
    requires i < |bs| && bs[i].free
    requires forall k :: 0 <= k < |bs| - 1 && k != i - 1 && k != i ==> !(bs[k].free && bs[k + 1].free)
    ensures NoAdjacentFree(Coalesce(bs, i))
  {
    var a := RunStart(bs, i);
    var b := RunEnd(bs, i);
    var r := Coalesce(bs, i);
    forall k | 0 <= k < |r| - 1
      ensures !(r[k].free && r[k + 1].free)
    {
      if k + 1 < a {
        assert r[k] == r[..a][k] == bs[k] && r[k + 1] == r[..a][k + 1] == bs[k + 1];
      } else if k + 1 == a {
        assert r[k] == r[..a][k] == bs[a - 1];
      } else if k == a {
        assert r[k + 1] == r[a + 1..][0] == bs[b + 1];
      } else {
        assert r[k] == r[a + 1..][k - a - 1] == bs[k + b - a];
        assert r[k + 1] == r[a + 1..][k - a] == bs[k + 1 + b - a];
      }
    }
  }

  /** The block that `free(p)` releases. */
  function Target(bs: seq<Block>, p: nat): nat
    requires Locate(bs, p, H).Some?
  {
    Locate(bs, p, H).value
  }

  /**
   * `free`. NULL is ignored; otherwise `p` must be a pointer `malloc` handed out.
   * Its block is marked free and merged with the free blocks around it. Freeing
   * never moves or changes a byte of memory, the whole released area ends up in
   * one free block, and no two free blocks are left side by side.
   */
  function Free(bs: seq<Block>, p: Option<nat>): (r: seq<Block>)
    requires SizesExact(bs)
    requires p.Some? ==> Locate(bs, p.value, H).Some?
    ensures p.None? ==> r == bs
    ensures SizesExact(r)
    ensures Flatten(r, H) == Flatten(bs, H)
    ensures Footprint(r, H) == Footprint(bs, H)
    ensures p.Some? ==> FreeCovers(r, p.value, p.value + bs[Target(bs, p.value)].size, H)
    ensures NoAdjacentFree(bs) ==> NoAdjacentFree(r)
  {
    match p
    case None => bs
    case Some(q) =>
      var i := Target(bs, q);
      var m := MarkFree(bs, i);
      assert SizesExact(m);
      FlattenIgnoresHeaders(m, bs, H);
      FootprintIgnoresHeaders(m, bs, H);
      CoalesceImage(m, i);
      CoalesceCovers(bs, i);
      assert NoAdjacentFree(bs) ==> NoAdjacentFree(Coalesce(m, i)) by {
        if NoAdjacentFree(bs) {
          CoalesceNoAdjacent(m, i);
        }
      }
      Coalesce(m, i)
  }

  /** The released block's contents lie inside one free block after coalescing. */
  lemma CoalesceCovers(bs: seq<Block>, i: nat)
    requires SizesExact(bs) && i < |bs|
    ensures FreeCovers(Coalesce(MarkFree(bs, i), i), ContentAddr(bs, i, H), ContentAddr(bs, i, H) + bs[i].size, H)
  {
    var m := MarkFree(bs, i);
    CoverMerged(bs, m, RunStart(m, i), RunEnd(m, i), i);
  }

  /** The merged block covers the contents of every block of its run. */
  lemma CoverMerged(bs: seq<Block>, m: seq<Block>, a: nat, b: nat, i: nat)
    requires SizesExact(bs) && i < |bs| && m == MarkFree(bs, i)
    requires a <= i <= b < |bs|
    ensures var r := Splice(m, a, b, Merge(m[a..b + 1]));
      FreeCovers(r, ContentAddr(bs, i, H), ContentAddr(bs, i, H) + bs[i].size, H)
  {
    var run := m[a..b + 1];
    var mg := Merge(run);
    var r := Splice(m, a, b, mg);
    assert SizesExact(run);
    MergeImage(run);
    assert Footprint([mg], H) == H + |mg.data| by {
      assert [mg][1..] == [];
    }
    assert r[..a] == m[..a] && r[a] == mg;
    FootprintIgnoresHeaders(m[..a], bs[..a], H);
    FootprintIgnoresHeaders(run, bs[a..b + 1], H);
    StartOfRun(bs, a, i);
    RunCovers(bs, a, i, b);
    assert 0 <= a < |r| && r[a].free && ContentAddr(r, a, H) <= ContentAddr(bs, i, H)
      && ContentAddr(bs, i, H) + bs[i].size <= ContentAddr(r, a, H) + |r[a].data|;
  }

  /** Where block `i` starts, measured from block `a` in front of it. */
  lemma StartOfRun(bs: seq<Block>, a: nat, i: nat)
    requires a <= i <= |bs|
    ensures ContentAddr(bs, i, H) == Footprint(bs[..a], H) + Footprint(bs[a..i], H) + H
  {
    FootprintSplit(bs[..i], a, H);
    assert bs[..i][..a] == bs[..a] && bs[..i][a..] == bs[a..i];
  }

  /** Blocks [a, b] take up at least the region up to the end of block `i`'s contents. */
  lemma RunCovers(bs: seq<Block>, a: nat, i: nat, b: nat)
    requires a <= i <= b < |bs|
    ensures Footprint(bs[a..b + 1], H) >= Footprint(bs[a..i], H) + H + |bs[i].data|
  {
    FootprintSplit(bs[a..b + 1], i + 1 - a, H);
    assert bs[a..b + 1][..i + 1 - a] == bs[a..i + 1];
    assert bs[a..i + 1] == bs[a..i] + [bs[i]];
    FootprintAppend(bs[a..i], [bs[i]], H);
    assert [bs[i]][1..] == [];
  }

  /** Two heaps with the same block sizes and free flags, in the same order. */
  predicate SameShape(xs: seq<Block>, ys: seq<Block>) {
    |xs| == |ys| && forall k :: 0 <= k < |xs| ==> xs[k].size == ys[k].size && xs[k].free == ys[k].free
  }

  /** `free` of a block's content address releases that block. */
  lemma FreeAt(bs: seq<Block>, i: nat)
    requires SizesExact(bs) && i < |bs|
    ensures Locate(bs, ContentAddr(bs, i, H), H) == Some(i)
    ensures Free(bs, Some(ContentAddr(bs, i, H))) == Coalesce(MarkFree(bs, i), i)
  {
    LocateContent(bs, i, H);
  }

  /** Freeing the front of a split block merges it back with the remainder. */
  lemma SplitThenFree(bs: seq<Block>, i: nat, size: nat)
    requires Valid(bs) && i < |bs| && bs[i].free && bs[i].size >= size + H
    ensures SameShape(Coalesce(MarkFree(SplitAt(bs, i, size, H), i), i), bs)
  {
    var mk := MarkFree(SplitAt(bs, i, size, H), i);
    assert i > 0 ==> !bs[i - 1].free;
    assert i + 1 < |bs| ==> !bs[i + 1].free;
    assert RunStart(mk, i) == i;
    assert mk[i + 1].free;
    assert RunEnd(mk, i + 1) == i + 1 by {
      assert i + 2 < |mk| ==> mk[i + 2] == bs[i + 1];
    }
    assert RunEnd(mk, i) == i + 1;
    var run := mk[i..i + 2];
    assert |run| == 2 && run[0] == mk[i] && run[1..] == [mk[i + 1]];
    assert mk[i].size == size && mk[i + 1].size == bs[i].size - size - H;
    assert MergedSize(run[1..]) == mk[i + 1].size;
    assert Merge(run).size == bs[i].size;
    var r := Coalesce(mk, i);
    assert r == Splice(mk, i, i + 1, Merge(run));
    forall k | 0 <= k < |r|
      ensures r[k].size == bs[k].size && r[k].free == bs[k].free
    {
      if k < i {
        assert r[k] == bs[k];
      } else if k > i {
        assert r[k] == mk[k + 1] == bs[k];
      }
    }
  }

  /** Freeing a block that was taken whole makes it free again, unmerged. */
  lemma WholeThenFree(bs: seq<Block>, i: nat)
    requires Valid(bs) && i < |bs| && bs[i].free
    ensures SameShape(Coalesce(MarkFree(TakeWhole(bs, i), i), i), bs)
  {
    var mk := MarkFree(TakeWhole(bs, i), i);
    assert i > 0 ==> !bs[i - 1].free;
    assert i + 1 < |bs| ==> !bs[i + 1].free;
    assert RunStart(mk, i) == i;
    assert RunEnd(mk, i) == i;
  }

  /**
   * Freeing what `malloc` just carved out of an existing free block gives back the
   * heap's shape: a taken-whole block is free again, and a split block is merged
   * back with its free remainder into one block of the original size.
   */
  lemma MallocThenFree(bs: seq<Block>, size: nat, sbrkOk: bool)
    requires Valid(bs) && size > 0 && FirstFit(bs, size).Some?
    ensures var m := Malloc(bs, size, sbrkOk);
      && m.ptr.Some?
      && Locate(m.blocks, m.ptr.value, H).Some?
      && SameShape(Free(m.blocks, m.ptr), bs)
  {
    var i := FirstFit(bs, size).value;
    var m := Malloc(bs, size, sbrkOk);
    FreeAt(m.blocks, i);
    if bs[i].size >= size + H {
      SplitThenFree(bs, i, size);
    } else {
      WholeThenFree(bs, i);
    }
  }

  /** The blocks in use, in list order. */
  function Used(bs: seq<Block>): seq<Block> {
    if bs == [] then [] else (if bs[0].free then [] else [bs[0]]) + Used(bs[1..])
  }

  lemma {:induction false} UsedAppend(xs: seq<Block>, ys: seq<Block>)
    ensures Used(xs + ys) == Used(xs) + Used(ys)
    decreases |xs|
  {
    if xs == [] {
      assert xs + ys == ys;
    } else {
      UsedAppend(xs[1..], ys);
      assert (xs + ys)[1..] == xs[1..] + ys;
    }
  }

  lemma {:induction false} UsedNone(run: seq<Block>)
    requires forall k :: 0 <= k < |run| ==> run[k].free
    ensures Used(run) == []
    decreases |run|
  {
    if run != [] {
      UsedNone(run[1..]);
    }
  }

  /** Marking block `i` free drops it, and only it, from the blocks in use. */
  lemma MarkFreeUsed(bs: seq<Block>, i: nat)
    requires i < |bs|
    ensures Used(MarkFree(bs, i)) == Used(bs[..i]) + Used(bs[i + 1..])
  {
    var m := MarkFree(bs, i);
    assert m == bs[..i] + [m[i]] + bs[i + 1..];
    UsedAppend(bs[..i] + [m[i]], bs[i + 1..]);
    UsedAppend(bs[..i], [m[i]]);
    assert [m[i]][1..] == [];
  }

  /** Replacing a run of free blocks by one free block keeps the blocks in use. */
  lemma UsedReplace(pre: seq<Block>, run: seq<Block>, post: seq<Block>, x: Block, before: seq<Block>, after: seq<Block>)
    requires x.free && forall k :: 0 <= k < |run| ==> run[k].free
    requires before == pre + run + post && after == pre + [x] + post
    ensures Used(after) == Used(before)
  {
    UsedAppend(pre + run, post);
    UsedAppend(pre, run);
    UsedNone(run);
    UsedAppend(pre + [x], post);
    UsedAppend(pre, [x]);
    assert [x][1..] == [];
  }

  /** Coalescing keeps the blocks in use: the run it merges is free throughout. */
  lemma {:induction false} CoalesceUsed(m: seq<Block>, i: nat)
    requires i < |m| && m[i].free
    ensures Used(Coalesce(m, i)) == Used(m)
  {
    var a := RunStart(m, i);
    var b := RunEnd(m, i);
    var run := m[a..b + 1];
    forall k | 0 <= k < |run|
      ensures run[k].free
    {
      assert run[k] == m[a + k];
    }
    assert m == m[..a] + run + m[b + 1..];
    UsedReplace(m[..a], run, m[b + 1..], Merge(run), m, Coalesce(m, i));
  }

  /** `free` keeps every block in use other than the released one, unchanged and in
      order: a merge takes in free blocks only. */
  lemma FreeKeepsUsed(bs: seq<Block>, p: nat)
    requires SizesExact(bs) && Locate(bs, p, H).Some?
    ensures var i := Target(bs, p);
      Used(Free(bs, Some(p))) == Used(bs[..i]) + Used(bs[i + 1..])
  {
    var i := Target(bs, p);
    MarkFreeUsed(bs, i);
    CoalesceUsed(MarkFree(bs, i), i);
    FreeAt(bs, i);
  }

  // ---------------------------------------------------------------------------
  // program stores, realloc, calloc
  // ---------------------------------------------------------------------------

  /** The program writes `v` at `p + k`, inside the contents of the block at `p`. */
  function Store(bs: seq<Block>, p: nat, k: nat, v: byte): (r: seq<Block>)
    requires SizesExact(bs)
    requires Locate(bs, p, H).Some? && k < bs[Target(bs, p)].size
    ensures SameShape(r, bs) && SizesExact(r)
    ensures p + k < |Flatten(bs, H)|
    ensures Flatten(r, H) == Flatten(bs, H)[p + k := Some(v)]
  {
    var i := Target(bs, p);
    var nb := bs[i].(data := bs[i].data[k := Some(v)]);
    var r := bs[i := nb];
    StoreImage(bs, i, nb, k, v);
    r
  }

  lemma StoreImage(bs: seq<Block>, i: nat, nb: Block, k: nat, v: byte)
    requires i < |bs| && k < |bs[i].data| && nb.data == bs[i].data[k := Some(v)]
    ensures ContentAddr(bs, i, H) + k < |Flatten(bs, H)|
    ensures Flatten(bs[i := nb], H) == Flatten(bs, H)[ContentAddr(bs, i, H) + k := Some(v)]
  {
    var pre := bs[..i];
    var post := bs[i + 1..];
    assert bs == pre + ([bs[i]] + post);
    assert bs[i := nb] == pre + ([nb] + post);
    FlattenAppend(pre, [bs[i]] + post, H);
    FlattenAppend(pre, [nb] + post, H);
    assert ([bs[i]] + post)[1..] == post;
    assert ([nb] + post)[1..] == post;
    FlattenLength(pre, H);
    ContentInImage(bs, i, H);
  }

  /** The block at index `j` with its first bytes replaced by `bytes`: `memcpy` into it. */
  function CopyInto(bs: seq<Block>, j: nat, bytes: seq<Cell>): (r: seq<Block>)
    requires j < |bs| && |bytes| <= |bs[j].data|
    ensures SameShape(r, bs)
    ensures |r[j].data| == |bs[j].data|
    ensures r[j].data[..|bytes|] == bytes && r[j].data[|bytes|..] == bs[j].data[|bytes|..]
    ensures forall k :: 0 <= k < |bs| && k != j ==> r[k] == bs[k]
    ensures SizesExact(bs) ==> SizesExact(r)
  {
    var nd := bytes + bs[j].data[|bytes|..];
    assert nd[..|bytes|] == bytes && nd[|bytes|..] == bs[j].data[|bytes|..];
    bs[j := bs[j].(data := nd)]
  }

  function Min(a: nat, b: nat): nat {
    if a < b then a else b
  }

  /**
   * `realloc`. A NULL pointer is `malloc(size)`; a zero size frees the block and
   * returns NULL. Otherwise the block is freed and `malloc(size)` is called; when
   * that fails NULL is returned and the old block stays freed. On success the first
   * min(size, old size) bytes of the new block are the old block's first bytes,
   * read before `malloc` zero-fills the block it hands out.
   */
  function Realloc(bs: seq<Block>, p: Option<nat>, size: nat, sbrkOk: bool): (r: Alloc)
    requires SizesExact(bs)
    requires p.Some? ==> Locate(bs, p.value, H).Some?
    ensures SizesExact(r.blocks)
    ensures p.None? ==> r == Malloc(bs, size, sbrkOk)
    ensures p.Some? && size == 0 ==> r == Alloc(Free(bs, p), None)
    ensures p.Some? && size > 0 ==>
      var orig := bs[Target(bs, p.value)];
      var n := Min(size, orig.size);
      && (r.ptr.None? <==> Malloc(Free(bs, p), size, sbrkOk).ptr.None?)
      && (r.ptr.None? ==> r.blocks == Free(bs, p))
      && (r.ptr.Some? ==>
        var j := Slot(Free(bs, p), size);
        && j < |r.blocks|
        && ContentAddr(r.blocks, j, H) == r.ptr.value
        && !r.blocks[j].free && r.blocks[j].size >= size
        && r.blocks[j].data[..n] == orig.data[..n])
  {
    if p.Some? && size == 0 then Alloc(Free(bs, p), None)
    else if p.None? then Malloc(bs, size, sbrkOk)
    else
      var orig := bs[Target(bs, p.value)];
      var n := Min(size, orig.size);
      var saved := orig.data[..n];
      var f := Free(bs, p);
      var m := Malloc(f, size, sbrkOk);
      if m.ptr.None? then Alloc(m.blocks, None)
      else
        var j := Slot(f, size);
        var r := CopyInto(m.blocks, j, saved);
        assert r[..j] == m.blocks[..j];
        Alloc(r, m.ptr)
  }

  /**
   * `realloc` as the source writes it: `memcpy` reads the old block's address
   * after `malloc` has run, so when `malloc` hands back memory that overlaps the
   * old block, the bytes copied are the zeros it has just written.
   */
  function ReallocAsWritten(bs: seq<Block>, p: Option<nat>, size: nat, sbrkOk: bool): (r: Alloc)
    requires SizesExact(bs)
    requires p.Some? ==> Locate(bs, p.value, H).Some?
    ensures SizesExact(r.blocks)
    ensures r.ptr == Realloc(bs, p, size, sbrkOk).ptr
  {
    if p.Some? && size == 0 then Alloc(Free(bs, p), None)
    else if p.None? then Malloc(bs, size, sbrkOk)
    else
      var i := Target(bs, p.value);
      var n := Min(size, bs[i].size);
      var f := Free(bs, p);
      var m := Malloc(f, size, sbrkOk);
      if m.ptr.None? then Alloc(m.blocks, None)
      else
        ContentInImage(bs, i, H);
        FlattenLength(bs, H);
        FlattenLength(m.blocks, H);
        Alloc(CopyFromImage(m.blocks, Slot(f, size), p.value, n), m.ptr)
  }

  /** The block at index `j` with its first `n` bytes replaced by the `n` bytes of
      the memory image at offset `p`. */
  function CopyFromImage(bs: seq<Block>, j: nat, p: nat, n: nat): seq<Block>
    requires j < |bs| && n <= |bs[j].data| && p + n <= |Flatten(bs, H)|
  {
    CopyInto(bs, j, Flatten(bs, H)[p..p + n])
  }

  /** The heap of one eight-byte block holding 7 in its first byte. */
  function Seven(): (s: seq<Block>)
    ensures SizesExact(s)
    ensures |s| == 1 && |s[0].data| == 8 && s[0].data[0] == Some(7)
  {
    var s := [Block(8, false, Zeros(8)[0 := Some(7)])];
    assert s[0].size == |s[0].data|;
    s
  }

  /** Allocating eight bytes and storing 7 in the first gives `Seven()`. */
  lemma MallocThenStore()
    ensures var a := Malloc([], 8, true);
      && a.ptr == Some(H)
      && Locate(a.blocks, H, H).Some? && 0 < a.blocks[Target(a.blocks, H)].size
      && Store(a.blocks, H, 0, 7) == Seven()
  {
    MallocEight();
    StoreSeven();
  }

  /** The first eight-byte allocation. */
  lemma MallocEight()
    ensures Malloc([], 8, true) == Alloc([Block(8, false, Zeros(8))], Some(H))
  {
    var g := Grow([], 8, H);
    assert g == [Block(8, false, Zeros(8))];
    assert FirstFit([], 8).None?;
    assert ContentAddr(g, 0, H) == H by {
      assert g[..0] == [];
    }
  }

  /** Storing 7 in the first byte of the zeroed eight-byte block. */
  lemma StoreSeven()
    ensures Locate([Block(8, false, Zeros(8))], H, H) == Some(0)
    ensures Store([Block(8, false, Zeros(8))], H, 0, 7) == Seven()
  {
    var g := [Block(8, false, Zeros(8))];
    assert ContentAddr(g, 0, H) == H by {
      assert g[..0] == [];
    }
    LocateContent(g, 0, H);
    assert Store(g, H, 0, 7) == g[0 := g[0].(data := g[0].data[0 := Some(7)])];
  }

  /** `realloc` of that block to the same size frees it and takes it back whole. */
  lemma ReallocSevenReuses()
    ensures Locate(Seven(), H, H) == Some(0)
    ensures Free(Seven(), Some(H)) == [Block(8, true, Zeros(8)[0 := Some(7)])]
    ensures Malloc(Free(Seven(), Some(H)), 8, true) == Alloc([Block(8, false, Zeros(8))], Some(H))
    ensures Slot(Free(Seven(), Some(H)), 8) == 0
  {
    SevenFreed();
    TakeBackWhole(Zeros(8)[0 := Some(7)]);
  }

  /** Freeing the block of `Seven()` marks it free; it has no neighbour to merge with. */
  lemma SevenFreed()
    ensures Locate(Seven(), H, H) == Some(0)
    ensures Free(Seven(), Some(H)) == [Block(8, true, Zeros(8)[0 := Some(7)])]
  {
    var sv := Seven();
    assert ContentAddr(sv, 0, H) == H by {
      assert sv[..0] == [];
    }
    FreeAt(sv, 0);
    var mk := MarkFree(sv, 0);
    assert mk == [Block(8, true, Zeros(8)[0 := Some(7)])];
    CoalesceAlone(mk, 0);
  }

  /** A lone free eight-byte block is handed out whole for an eight-byte request. */
  lemma TakeBackWhole(d: seq<Cell>)
    requires |d| == 8
    ensures Slot([Block(8, true, d)], 8) == 0
    ensures Malloc([Block(8, true, d)], 8, true) == Alloc([Block(8, false, Zeros(8))], Some(H))
  {
    var f := [Block(8, true, d)];
    assert FirstFit(f, 8) == Some(0);
    var w := TakeWhole(f, 0);
    assert w == [Block(8, false, Zeros(8))];
    assert ContentAddr(w, 0, H) == H by {
      assert w[..0] == [];
    }
  }

  /** Resizing `Seven()` in place with the source's `realloc` loses the stored 7:
      the byte comes back as the zero `malloc` wrote over it. */
  lemma ReallocAsWrittenSeven()
    ensures ReallocAsWritten(Seven(), Some(H), 8, true) == Alloc([Block(8, false, Zeros(8))], Some(H))
  {
    ReallocSevenReuses();
    ReallocAsWrittenMoves(Seven(), H, 8, true, [Block(8, false, Zeros(8))], H);
    CopyBack();
  }

  /** The intended `realloc` of `Seven()` to the same size gives the same heap back,
      the stored 7 included. */
  lemma ReallocSeven()
    ensures Realloc(Seven(), Some(H), 8, true) == Alloc(Seven(), Some(H))
  {
    ReallocSevenReuses();
    ReallocMoves(Seven(), H, 8, true, [Block(8, false, Zeros(8))], H);
    CopyBack();
  }

  /** The intended `realloc` once `malloc` has found the new block: the bytes saved
      from the old block are copied into it. */
  lemma ReallocMoves(bs: seq<Block>, q: nat, size: nat, sbrkOk: bool, w: seq<Block>, ptr: nat)
    requires SizesExact(bs) && Locate(bs, q, H).Some? && size > 0
    requires Malloc(Free(bs, Some(q)), size, sbrkOk) == Alloc(w, Some(ptr))
    ensures var n := Min(size, bs[Target(bs, q)].size);
      var j := Slot(Free(bs, Some(q)), size);
      && j < |w| && n <= |w[j].data|
      && Realloc(bs, Some(q), size, sbrkOk) == Alloc(CopyInto(w, j, bs[Target(bs, q)].data[..n]), Some(ptr))
  {
    var i := Target(bs, q);
    var f := Free(bs, Some(q));
    var m := Malloc(f, size, sbrkOk);
    var saved := bs[i].data[..Min(size, bs[i].size)];
    assert Realloc(bs, Some(q), size, sbrkOk) == Alloc(CopyInto(m.blocks, Slot(f, size), saved), m.ptr);
  }

  /** The source's `realloc` once `malloc` has found the new block: the bytes at the
      old address in the image `malloc` left behind are copied into it. */
  lemma ReallocAsWrittenMoves(bs: seq<Block>, q: nat, size: nat, sbrkOk: bool, w: seq<Block>, ptr: nat)
    requires SizesExact(bs) && Locate(bs, q, H).Some? && size > 0
    requires Malloc(Free(bs, Some(q)), size, sbrkOk) == Alloc(w, Some(ptr))
    ensures var n := Min(size, bs[Target(bs, q)].size);
      var j := Slot(Free(bs, Some(q)), size);
      && q + n <= |Flatten(w, H)|
      && j < |w| && n <= |w[j].data|
      && ReallocAsWritten(bs, Some(q), size, sbrkOk) == Alloc(CopyFromImage(w, j, q, n), Some(ptr))
  {
    var i := Target(bs, q);
    var f := Free(bs, Some(q));
    var m := Malloc(f, size, sbrkOk);
    ReallocMoves(bs, q, size, sbrkOk, w, ptr);
    ContentInImage(bs, i, H);
    FlattenLength(bs, H);
    FlattenLength(w, H);
    assert ReallocAsWritten(bs, Some(q), size, sbrkOk) == Alloc(CopyFromImage(m.blocks, Slot(f, size), q, Min(size, bs[i].size)), m.ptr);
  }

  /** Copying into the zero-filled block: zeros leave it as it is, the bytes of
      `Seven()` turn it back into `Seven()`. */
  lemma CopyBack()
    ensures CopyFromImage([Block(8, false, Zeros(8))], 0, H, 8) == [Block(8, false, Zeros(8))]
    ensures CopyInto([Block(8, false, Zeros(8))], 0, Seven()[0].data[..8]) == Seven()
  {
    var w := [Block(8, false, Zeros(8))];
    ZeroedImage();
    var z := Zeros(8);
    assert z + z[8..] == z;
    assert CopyInto(w, 0, z) == w[0 := w[0].(data := z)];
    var d := Seven()[0].data;
    assert d[..8] == d;
    assert d + d[8..] == d;
    assert CopyInto(w, 0, d) == w[0 := w[0].(data := d)];
  }

  lemma ZeroedImage()
    ensures Flatten([Block(8, false, Zeros(8))], H)[H..H + 8] == Zeros(8)
  {
    var w := [Block(8, false, Zeros(8))];
    assert Flatten(w, H) == Unknown(H) + Zeros(8) + Flatten([], H) by {
      assert w[1..] == [];
    }
  }

  /**
   * `calloc`: NULL when either count is zero, otherwise `malloc` of
   * `nmemb * size` bytes, which comes back zero-filled.
   */
  function Calloc(bs: seq<Block>, nmemb: nat, size: nat, sbrkOk: bool): (r: Alloc)
    requires SizesExact(bs)
    ensures nmemb == 0 || size == 0 ==> r == Alloc(bs, None)
    ensures r.ptr.None? <==>
      nmemb == 0 || size == 0 || (FirstFit(bs, nmemb * size).None? && !sbrkOk)
    ensures r.ptr.Some? ==>
      var j := Slot(bs, nmemb * size);
      && j < |r.blocks|
      && ContentAddr(r.blocks, j, H) == r.ptr.value
      && r.blocks[j].size >= nmemb * size
      && r.blocks[j].data == Zeros(r.blocks[j].size)
  {
    if nmemb == 0 || size == 0 then Alloc(bs, None)
    else Malloc(bs, nmemb * size, sbrkOk)
  }

  /** `calloc` as the source writes it: the request is `nmemb * sizeof(void *)`,
      whatever the element size. */
  function CallocAsWritten(bs: seq<Block>, nmemb: nat, size: nat, sbrkOk: bool): (r: Alloc)
    requires SizesExact(bs)
    ensures nmemb == 0 || size == 0 ==> r == Alloc(bs, None)
    ensures r.ptr.None? <==>
      nmemb == 0 || size == 0 || (FirstFit(bs, nmemb * VOID_PTR_SIZE).None? && !sbrkOk)
    ensures r.ptr.Some? ==>
      var j := Slot(bs, nmemb * VOID_PTR_SIZE);
      && j < |r.blocks|
      && ContentAddr(r.blocks, j, H) == r.ptr.value
      && r.blocks[j].size >= nmemb * VOID_PTR_SIZE
      && r.blocks[j].data == Zeros(r.blocks[j].size)
  {
    if nmemb == 0 || size == 0 then Alloc(bs, None)
    else Malloc(bs, nmemb * VOID_PTR_SIZE, sbrkOk)
  }

  /** One eight-byte element: the source's `calloc` hands out a four-byte block. */
  lemma CallocIgnoresSize()
    ensures CallocAsWritten([], 1, 8, true).blocks == [Block(4, false, Zeros(4))]
    ensures Calloc([], 1, 8, true).blocks == [Block(8, false, Zeros(8))]
  {
  }
}
