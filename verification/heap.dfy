/**
 * The block layout shared by both first-fit allocators. The heap is the region
 * obtained from `sbrk`, carved into consecutive blocks; each block is a metadata
 * header of `h` bytes followed by its contents area. A block is modelled by the
 * size recorded in its header, its free flag and the bytes of its contents area
 * (a byte whose value the model does not know, such as a stale header, is `None`).
 * The block list of the C code is the sequence of blocks in address order.
 */
module Heap {
  import opened Wrappers
  import opened Ints

  type Cell = Option<byte>

  datatype Block = Block(size: nat, free: bool, data: seq<Cell>)

  /** `n` bytes that `zero_fill` has cleared. */
  function Zeros(n: nat): (z: seq<Cell>)
    ensures |z| == n
    ensures forall k :: 0 <= k < n ==> z[k] == Some(0)
  {
    seq(n, _ => Some(0))
  }

  /** `n` bytes whose values the model does not track (header words). */
  function Unknown(n: nat): (z: seq<Cell>)
    ensures |z| == n
    ensures forall k :: 0 <= k < n ==> z[k] == None
  {
    seq(n, _ => None)
  }

  /** Bytes of the region one block occupies: its header and its contents area. */
  function Extent(b: Block, h: nat): nat {
    h + |b.data|
  }

  /** Bytes of the region the blocks occupy together. */
  function Footprint(bs: seq<Block>, h: nat): nat {
    if bs == [] then 0 else Extent(bs[0], h) + Footprint(bs[1..], h)
  }

  /** The memory image of the blocks: each header (unknown bytes) followed by the
      block's contents, block after block. */
  function Flatten(bs: seq<Block>, h: nat): seq<Cell> {
    if bs == [] then [] else Unknown(h) + bs[0].data + Flatten(bs[1..], h)
  }

  /** Offset from the start of the heap of block `i`'s contents: the pointer
      `malloc` hands out for it. */
  function ContentAddr(bs: seq<Block>, i: nat, h: nat): nat
    requires i <= |bs|
  {
    Footprint(bs[..i], h) + h
  }

  /** The region of one block. */
  lemma FootprintOne(x: Block, h: nat)
    ensures Footprint([x], h) == Extent(x, h)
  {
    assert [x][1..] == [];
  }

  /** The region of two blocks. */
  lemma FootprintTwo(x: Block, y: Block, h: nat)
    ensures Footprint([x, y], h) == Extent(x, h) + Extent(y, h)
  {
    assert [x, y][1..] == [y];
    FootprintOne(y, h);
  }

  lemma {:induction false} FootprintAppend(a: seq<Block>, b: seq<Block>, h: nat)
    ensures Footprint(a + b, h) == Footprint(a, h) + Footprint(b, h)
    decreases |a|
  {
    if a == [] {
      assert a + b == b;
    } else {
      assert (a + b)[1..] == a[1..] + b;
      FootprintAppend(a[1..], b, h);
    }
  }

  lemma {:induction false} FlattenAppend(a: seq<Block>, b: seq<Block>, h: nat)
    ensures Flatten(a + b, h) == Flatten(a, h) + Flatten(b, h)
    decreases |a|
  {
    if a == [] {
      assert a + b == b;
    } else {
      assert (a + b)[1..] == a[1..] + b;
      FlattenAppend(a[1..], b, h);
    }
  }

  /** The memory image is exactly as long as the region the blocks occupy. */
  lemma {:induction false} FlattenLength(bs: seq<Block>, h: nat)
    ensures |Flatten(bs, h)| == Footprint(bs, h)
    decreases |bs|
  {
    if bs != [] {
      FlattenLength(bs[1..], h);
    }
  }

  /** The contents of block `i` sit in the memory image at its content address. */
  lemma ContentInImage(bs: seq<Block>, i: nat, h: nat)
    requires i < |bs|
    ensures ContentAddr(bs, i, h) + |bs[i].data| <= |Flatten(bs, h)|
    ensures Flatten(bs, h)[ContentAddr(bs, i, h)..ContentAddr(bs, i, h) + |bs[i].data|] == bs[i].data
  {
    assert bs == bs[..i] + ([bs[i]] + bs[i + 1..]);
    FlattenAppend(bs[..i], [bs[i]] + bs[i + 1..], h);
    FlattenLength(bs[..i], h);
    assert Flatten([bs[i]] + bs[i + 1..], h) == Unknown(h) + bs[i].data + Flatten(bs[i + 1..], h) by {
      assert ([bs[i]] + bs[i + 1..])[1..] == bs[i + 1..];
    }
  }

  /** Block `i + 1` of `bs` is block `i` of `bs[1..]`, one extent further on. */
  lemma ContentAddrStep(bs: seq<Block>, i: nat, h: nat)
    requires i < |bs|
    ensures ContentAddr(bs, i + 1, h) == Extent(bs[0], h) + ContentAddr(bs[1..], i, h)
  {
    assert bs[..i + 1][1..] == bs[1..][..i];
  }

  /** Content addresses strictly increase along the list when headers are non-empty. */
  lemma {:induction false} ContentAddrIncreasing(bs: seq<Block>, i: nat, j: nat, h: nat)
    requires i < j <= |bs|
    requires h > 0
    ensures ContentAddr(bs, i, h) < ContentAddr(bs, j, h)
    decreases j - i
  {
    assert bs[..i + 1] == bs[..i] + [bs[i]];
    FootprintAppend(bs[..i], [bs[i]], h);
    if i + 1 < j {
      ContentAddrIncreasing(bs, i + 1, j, h);
    }
  }

  /**
   * The block whose contents start at offset `p`: what `ptr - sizeof(metadata_t)`
   * finds in `free`. None when no block starts there.
   */
  function Locate(bs: seq<Block>, p: nat, h: nat): (r: Option<nat>)
    ensures r.Some? ==> r.value < |bs| && ContentAddr(bs, r.value, h) == p
    ensures r.None? ==> forall i :: 0 <= i < |bs| ==> ContentAddr(bs, i, h) != p
    decreases |bs|
  {
    if bs == [] then None
    else if p == h then Some(0)
    else if p < Extent(bs[0], h) + h then
      assert forall i :: 0 < i < |bs| ==> ContentAddr(bs, i, h) >= Extent(bs[0], h) + h by {
        forall i | 0 < i < |bs|
          ensures ContentAddr(bs, i, h) >= Extent(bs[0], h) + h
        {
          ContentAddrStep(bs, i - 1, h);
        }
      }
      None
    else
      match Locate(bs[1..], p - Extent(bs[0], h), h)
      case None =>
        assert forall i :: 0 < i < |bs| ==> ContentAddr(bs, i, h) != p by {
          forall i | 0 < i < |bs|
            ensures ContentAddr(bs, i, h) != p
          {
            ContentAddrStep(bs, i - 1, h);
          }
        }
        None
      case Some(j) =>
        ContentAddrStep(bs, j, h);
        Some(j + 1)
  }

  /** With non-empty headers, every block is found again from its content address. */
  lemma LocateContent(bs: seq<Block>, j: nat, h: nat)
    requires j < |bs| && h > 0
    ensures Locate(bs, ContentAddr(bs, j, h), h) == Some(j)
  {
    var r := Locate(bs, ContentAddr(bs, j, h), h);
    var k := r.value;
    if k < j {
      ContentAddrIncreasing(bs, k, j, h);
    } else if j < k {
      ContentAddrIncreasing(bs, j, k, h);
    }
  }

  /** Block `i` is free and large enough for a request of `req` bytes. */
  predicate Fits(b: Block, req: nat) {
    b.free && b.size >= req
  }

  /** `find_first_fit`: the earliest free block whose recorded size covers the request. */
  function FirstFit(bs: seq<Block>, req: nat): (r: Option<nat>)
    ensures r.Some? ==> r.value < |bs| && Fits(bs[r.value], req)
    ensures r.Some? ==> forall j :: 0 <= j < r.value ==> !Fits(bs[j], req)
    ensures r.None? ==> forall j :: 0 <= j < |bs| ==> !Fits(bs[j], req)
    decreases |bs|
  {
    if bs == [] then None
    else if Fits(bs[0], req) then Some(0)
    else match FirstFit(bs[1..], req)
      case None => None
      case Some(j) => Some(j + 1)
  }

  /** No two neighbouring blocks are both free: what coalescing on every free keeps. */
  predicate NoAdjacentFree(bs: seq<Block>) {
    forall i :: 0 <= i < |bs| - 1 ==> !(bs[i].free && bs[i + 1].free)
  }

  /** Every header records the size of the contents area that follows it. */
  predicate SizesExact(bs: seq<Block>) {
    forall i :: 0 <= i < |bs| ==> bs[i].size == |bs[i].data|
  }

  /** Every header records at most the size of the contents area that follows it. */
  predicate SizesCover(bs: seq<Block>) {
    forall i :: 0 <= i < |bs| ==> bs[i].size <= |bs[i].data|
  }

  /** Cutting the sequence at any point splits the footprint. */
  lemma FootprintSplit(bs: seq<Block>, k: nat, h: nat)
    requires k <= |bs|
    ensures Footprint(bs, h) == Footprint(bs[..k], h) + Footprint(bs[k..], h)
  {
    assert bs == bs[..k] + bs[k..];
    FootprintAppend(bs[..k], bs[k..], h);
  }

  /** Replacing the blocks in [a, b) by blocks of the same footprint keeps the total. */
  lemma FootprintSplice(bs: seq<Block>, a: nat, b: nat, mid: seq<Block>, h: nat)
    requires a <= b <= |bs|
    requires Footprint(mid, h) == Footprint(bs[a..b], h)
    ensures Footprint(bs[..a] + mid + bs[b..], h) == Footprint(bs, h)
  {
    assert bs == bs[..a] + bs[a..b] + bs[b..];
    FootprintAppend(bs[..a] + mid, bs[b..], h);
    FootprintAppend(bs[..a], mid, h);
    FootprintAppend(bs[..a] + bs[a..b], bs[b..], h);
    FootprintAppend(bs[..a], bs[a..b], h);
  }

  /** Replacing the blocks in [a, b) by blocks with the same memory image keeps the image. */
  lemma FlattenSplice(bs: seq<Block>, a: nat, b: nat, mid: seq<Block>, h: nat)
    requires a <= b <= |bs|
    requires Flatten(mid, h) == Flatten(bs[a..b], h)
    ensures Flatten(bs[..a] + mid + bs[b..], h) == Flatten(bs, h)
  {
    assert bs == bs[..a] + bs[a..b] + bs[b..];
    FlattenAppend(bs[..a] + mid, bs[b..], h);
    FlattenAppend(bs[..a], mid, h);
    FlattenAppend(bs[..a] + bs[a..b], bs[b..], h);
    FlattenAppend(bs[..a], bs[a..b], h);
  }

  /** The memory image does not depend on the recorded sizes or the free flags. */
  lemma {:induction false} FlattenIgnoresHeaders(xs: seq<Block>, ys: seq<Block>, h: nat)
    requires |xs| == |ys|
    requires forall k :: 0 <= k < |xs| ==> xs[k].data == ys[k].data
    ensures Flatten(xs, h) == Flatten(ys, h)
    decreases |xs|
  {
    if xs != [] {
      FlattenIgnoresHeaders(xs[1..], ys[1..], h);
    }
  }

  /** ... and neither does the footprint. */
  lemma FootprintIgnoresHeaders(xs: seq<Block>, ys: seq<Block>, h: nat)
    requires |xs| == |ys|
    requires forall k :: 0 <= k < |xs| ==> xs[k].data == ys[k].data
    ensures Footprint(xs, h) == Footprint(ys, h)
  {
    FlattenIgnoresHeaders(xs, ys, h);
    FlattenLength(xs, h);
    FlattenLength(ys, h);
  }

  /** `split_large_block` with `h`-byte headers: the front of a free block becomes
      the allocated, zeroed block; a new header is written after it and the rest
      stays free, keeping the bytes it held. */
  function Split(b: Block, size: nat, h: nat): (pair: seq<Block>)
    requires size + h <= b.size <= |b.data|
    ensures |pair| == 2 && SizesCover(pair)
    ensures b.size == |b.data| ==> SizesExact(pair)
    ensures Footprint(pair, h) == Extent(b, h)
  {
    var pair := [Block(size, false, Zeros(size)), Block(b.size - size - h, true, b.data[size + h..])];
    assert pair[1..] == [pair[1]];
    assert pair[1..][1..] == [];
    assert Footprint(pair[1..], h) == Extent(pair[1], h);
    assert Footprint(pair, h) == Extent(pair[0], h) + Footprint(pair[1..], h);
    pair
  }

  /** Replacing one block by blocks of the same total extent keeps the footprint. */
  lemma FootprintReplace(bs: seq<Block>, i: nat, mid: seq<Block>, h: nat)
    requires i < |bs|
    requires Footprint(mid, h) == Extent(bs[i], h)
    ensures Footprint(bs[..i] + mid + bs[i + 1..], h) == Footprint(bs, h)
  {
    assert bs == bs[..i] + [bs[i]] + bs[i + 1..];
    FootprintAppend(bs[..i] + mid, bs[i + 1..], h);
    FootprintAppend(bs[..i], mid, h);
    FootprintAppend(bs[..i] + [bs[i]], bs[i + 1..], h);
    FootprintAppend(bs[..i], [bs[i]], h);
    assert [bs[i]][1..] == [];
  }

  /** The heap grown by `sbrk` for a header and `size` bytes: the new block, in
      use and zero-filled, follows the last one. */
  function Grow(bs: seq<Block>, size: nat, h: nat): (r: seq<Block>)
    ensures |r| == |bs| + 1 && r[..|bs|] == bs
    ensures r[|bs|] == Block(size, false, Zeros(size))
    ensures SizesExact(bs) ==> SizesExact(r)
    ensures SizesCover(bs) ==> SizesCover(r)
    ensures Footprint(r, h) == Footprint(bs, h) + size + h
    ensures NoAdjacentFree(bs) ==> NoAdjacentFree(r)
  {
    var nb := Block(size, false, Zeros(size));
    var r := bs + [nb];
    assert r[..|bs|] == bs;
    FootprintAppend(bs, [nb], h);
    assert Footprint([nb], h) == size + h by {
      assert [nb][1..] == [];
    }
    r
  }

  /** The heap after the free block `i` is split for a request of `size` bytes. */
  function SplitAt(bs: seq<Block>, i: nat, size: nat, h: nat): (r: seq<Block>)
    requires i < |bs| && size + h <= bs[i].size <= |bs[i].data|
    ensures |r| == |bs| + 1 && r[..i] == bs[..i] && r[i + 2..] == bs[i + 1..]
    ensures r[i] == Block(size, false, Zeros(size))
    ensures r[i + 1] == Block(bs[i].size - size - h, true, bs[i].data[size + h..])
    ensures SizesExact(bs) ==> SizesExact(r)
    ensures SizesCover(bs) ==> SizesCover(r)
    ensures Footprint(r, h) == Footprint(bs, h)
    ensures NoAdjacentFree(bs) && bs[i].free ==> NoAdjacentFree(r)
  {
    var mid := Split(bs[i], size, h);
    var r := bs[..i] + mid + bs[i + 1..];
    assert r[..i] == bs[..i];
    assert r[i + 2..] == bs[i + 1..];
    FootprintReplace(bs, i, mid, h);
    assert forall k :: 0 <= k < |r| ==> r[k] == (if k < i then bs[k] else if k < i + 2 then mid[k - i] else bs[k - 1]);
    assert SizesExact(bs) ==> SizesExact(r) by {
      if SizesExact(bs) {
        forall k | 0 <= k < |r|
          ensures r[k].size == |r[k].data|
        {
          if i <= k < i + 2 {
            assert r[k] == mid[k - i];
          }
        }
      }
    }
    assert SizesCover(bs) ==> SizesCover(r) by {
      if SizesCover(bs) {
        forall k | 0 <= k < |r|
          ensures r[k].size <= |r[k].data|
        {
          if i <= k < i + 2 {
            assert r[k] == mid[k - i];
          }
        }
      }
    }
    assert NoAdjacentFree(bs) && bs[i].free ==> NoAdjacentFree(r) by {
      if NoAdjacentFree(bs) && bs[i].free {
        forall k | 0 <= k < |r| - 1
          ensures !(r[k].free && r[k + 1].free)
        {
          if k == i + 1 {
            assert r[k + 1] == bs[i + 1];
          } else if k > i + 1 {
            assert r[k] == bs[k - 1] && r[k + 1] == bs[k];
          }
        }
      }
    }
    r
  }

  /** The byte range [lo, hi) lies inside the contents of one free block. */
  ghost predicate FreeCovers(bs: seq<Block>, lo: nat, hi: nat, h: nat) {
    exists j :: 0 <= j < |bs| && bs[j].free && ContentAddr(bs, j, h) <= lo && hi <= ContentAddr(bs, j, h) + |bs[j].data|
  }
}
