/**
 * The `tail` pointer of the Pintos user allocator (lib/user/stdlib.c). The source
 * keeps a global `tail` and links every block obtained from `sbrk` after it, but
 * never moves it when `split_large_block` puts a new block after the tail, nor
 * when `coalesce` merges the tail into an earlier block. Once `tail` is not the
 * last block, the next `sbrk` block is linked after it and every block behind it
 * drops out of the list.
 *
 * The state here is the list reachable from `head`, the index of the block `tail`
 * names (None once `tail` names a header inside a merged block, or a block that
 * is itself unreachable), and the number of bytes obtained from `sbrk` so far.
 */
module TailPointer {
  import opened Wrappers
  import opened Heap
  import opened UserMalloc

  datatype State = State(list: seq<Block>, tail: Option<nat>, brk: nat)

  /** The index of the last block, None for an empty list. */
  function Last(bs: seq<Block>): (t: Option<nat>)
    ensures t.None? <==> bs == []
    ensures t.Some? ==> t.value == |bs| - 1
  {
    if bs == [] then None else Some(|bs| - 1)
  }

  /** A state the allocator's code can be in: exact sizes, and `tail` names a block
      of the list whenever it names one at all. */
  predicate WellFormed(s: State) {
    SizesExact(s.list) && (s.tail.Some? ==> s.tail.value < |s.list|)
  }

  /** What the allocator is meant to keep: every byte obtained from `sbrk` lies in
      a block of the list, and `tail` is the last block. */
  predicate Accounted(s: State) {
    SizesExact(s.list) && Footprint(s.list, H) == s.brk && s.tail == Last(s.list)
  }

  /** Bytes `sbrk` is asked for by a request of `size` bytes on heap `bs`. */
  function SbrkBytes(bs: seq<Block>, size: nat, sbrkOk: bool): nat {
    if size > 0 && FirstFit(bs, size).None? && sbrkOk then size + H else 0
  }

  /** The request splits the last block of the list. */
  predicate SplitsLast(bs: seq<Block>, size: nat) {
    && size > 0
    && bs != []
    && FirstFit(bs, size) == Some(|bs| - 1)
    && bs[|bs| - 1].size >= size + H
  }

  /**
   * `malloc` as the source writes it. On a miss, the new block is linked after
   * `tail`: whatever followed `tail` in the list is cut off, and when `tail` is
   * not in the list the new block is not reachable either. On a split, the new
   * free remainder goes after the chosen block and `tail` keeps naming the same
   * header.
   */
  function MallocAsWritten(s: State, size: nat, sbrkOk: bool): (r: State)
    requires WellFormed(s)
    ensures WellFormed(r)
    ensures r.brk == s.brk + SbrkBytes(s.list, size, sbrkOk)
    ensures size > 0 && FirstFit(s.list, size).Some? ==>
      r.list == Malloc(s.list, size, sbrkOk).blocks
    ensures s.tail == Last(s.list) ==> r.list == Malloc(s.list, size, sbrkOk).blocks
  {
    if size == 0 then s
    else match FirstFit(s.list, size)
      case None =>
        if !sbrkOk then s
        else
          var nb := Block(size, false, Zeros(size));
          var brk := s.brk + size + H;
          if s.list == [] then State([nb], Some(0), brk)
          else (
            match s.tail
            case Some(t) =>
              assert t == |s.list| - 1 ==> s.list[..t + 1] == s.list;
              State(s.list[..t + 1] + [nb], Some(t + 1), brk)
            case None => State(s.list, None, brk))
      case Some(i) =>
        if s.list[i].size >= size + H then
          var tail := (match s.tail
            case Some(t) => Some(if t > i then t + 1 else t)
            case None => None);
          State(SplitAt(s.list, i, size, H), tail, s.brk)
        else State(TakeWhole(s.list, i), s.tail, s.brk)
  }

  /** Where `tail` points after `coalesce` has merged blocks [a, b] into block a. */
  function TailAfterMerge(t: Option<nat>, a: nat, b: nat): Option<nat> {
    match t
    case None => None
    case Some(k) =>
      if k <= a then Some(k)
      else if k <= b then None
      else Some(k - (b - a))
  }

  /** `free` of block `i` as the source writes it: the block is marked free and
      coalesced (the list `Free` produces, by `FreeAt`), and `tail` is left where
      it was. */
  function FreeAsWritten(s: State, i: nat): (r: State)
    requires WellFormed(s) && i < |s.list|
    ensures WellFormed(r) && r.brk == s.brk
    ensures r.list == Coalesce(MarkFree(s.list, i), i)
  {
    var m := MarkFree(s.list, i);
    CoalesceLength(m, i);
    CoalesceImage(m, i);
    State(Coalesce(m, i), TailAfterMerge(s.tail, RunStart(m, i), RunEnd(m, i)), s.brk)
  }

  /** The intended `malloc`: the list `Malloc` produces, `tail` at its last block. */
  function MallocTracked(s: State, size: nat, sbrkOk: bool): (r: State)
    requires SizesExact(s.list)
    ensures Accounted(s) ==> Accounted(r)
    ensures r.brk == s.brk + SbrkBytes(s.list, size, sbrkOk)
  {
    var m := Malloc(s.list, size, sbrkOk);
    State(m.blocks, Last(m.blocks), s.brk + SbrkBytes(s.list, size, sbrkOk))
  }

  /** The intended `free` of block `i`: `tail` at the last block of the result. */
  function FreeTracked(s: State, i: nat): (r: State)
    requires SizesExact(s.list) && i < |s.list|
    ensures Accounted(s) ==> Accounted(r)
    ensures r.brk == s.brk
    ensures r.list == Coalesce(MarkFree(s.list, i), i)
  {
    var m := MarkFree(s.list, i);
    CoalesceLength(m, i);
    CoalesceImage(m, i);
    FootprintIgnoresHeaders(m, s.list, H);
    var f := Coalesce(m, i);
    State(f, Last(f), s.brk)
  }

  /**
   * While `tail` is where it should be, the source's `malloc` builds the same list
   * and asks `sbrk` for the same bytes as the intended one; `tail` goes stale
   * exactly when the request splits the last block.
   */
  lemma MallocAgreesWhileAccounted(s: State, size: nat, sbrkOk: bool)
    requires Accounted(s)
    ensures var w := MallocAsWritten(s, size, sbrkOk);
      var c := MallocTracked(s, size, sbrkOk);
      && w.list == c.list && w.brk == c.brk
      && (w.tail != c.tail <==> SplitsLast(s.list, size))
  {
    var w := MallocAsWritten(s, size, sbrkOk);
    var c := MallocTracked(s, size, sbrkOk);
    if size > 0 && FirstFit(s.list, size).Some? {
      var i := FirstFit(s.list, size).value;
      if s.list[i].size >= size + H {
        assert w.tail == Some(|s.list| - 1 + (if |s.list| - 1 > i then 1 else 0));
        assert |c.list| == |s.list| + 1;
      } else {
        assert |c.list| == |s.list|;
      }
    }
  }

  /** While `tail` is where it should be, the source's `free` goes stale exactly
      when the merged run takes the last block into an earlier one. */
  lemma FreeAgreesWhileAccounted(s: State, i: nat)
    requires Accounted(s) && i < |s.list|
    ensures var w := FreeAsWritten(s, i);
      var c := FreeTracked(s, i);
      var m := MarkFree(s.list, i);
      && w.list == c.list && w.brk == c.brk
      && (w.tail != c.tail <==> RunStart(m, i) < RunEnd(m, i) == |s.list| - 1)
  {
    var m := MarkFree(s.list, i);
    FreeTails(s, i);
    TailCompare(|s.list|, RunStart(m, i), RunEnd(m, i));
  }

  /** The stale and the intended `tail` after merging [a, b] in a list of `n` blocks. */
  lemma TailCompare(n: nat, a: nat, b: nat)
    requires a <= b < n
    ensures TailAfterMerge(Some(n - 1), a, b) != Some(n - 1 - (b - a)) <==> a < b == n - 1
  {
  }

  /** Where each `free` leaves `tail`, with `tail` at the last block beforehand. */
  lemma FreeTails(s: State, i: nat)
    requires Accounted(s) && i < |s.list|
    ensures var m := MarkFree(s.list, i);
      var a := RunStart(m, i);
      var b := RunEnd(m, i);
      && FreeAsWritten(s, i).tail == TailAfterMerge(Some(|s.list| - 1), a, b)
      && FreeTracked(s, i).tail == Some(|s.list| - 1 - (b - a))
  {
    CoalesceLength(MarkFree(s.list, i), i);
  }

  /** Allocating 40 bytes on an empty heap. */
  lemma StepOne()
    ensures MallocAsWritten(State([], None, 0), 40, true) == State([Block(40, false, Zeros(40))], Some(0), 56)
  {
  }

  /** Freeing that block. */
  lemma StepTwo()
    ensures FreeAsWritten(State([Block(40, false, Zeros(40))], Some(0), 56), 0)
      == State([Block(40, true, Zeros(40))], Some(0), 56)
  {
    var bs := [Block(40, false, Zeros(40))];
    var m := MarkFree(bs, 0);
    assert m == [Block(40, true, Zeros(40))];
    CoalesceAlone(m, 0);
  }

  /** An 8-byte request splits it; `tail` still names the front half. */
  lemma StepThree()
    ensures MallocAsWritten(State([Block(40, true, Zeros(40))], Some(0), 56), 8, true)
      == State([Block(8, false, Zeros(8)), Block(16, true, Zeros(40)[24..])], Some(0), 56)
  {
    var bs := [Block(40, true, Zeros(40))];
    assert FirstFit(bs, 8) == Some(0);
    var r := SplitAt(bs, 0, 8, H);
    assert r == [r[0], r[1]];
  }

  /** A 100-byte request misses and is linked after the front half: the free
      remainder drops out of the list. */
  lemma StepFour()
    ensures var front := Block(8, false, Zeros(8));
      MallocAsWritten(State([front, Block(16, true, Zeros(40)[24..])], Some(0), 56), 100, true)
        == State([front, Block(100, false, Zeros(100))], Some(1), 172)
  {
    var front := Block(8, false, Zeros(8));
    var bs := [front, Block(16, true, Zeros(40)[24..])];
    assert FirstFit(bs, 100) == None by {
      assert !Fits(bs[0], 100) && !Fits(bs[1], 100);
    }
    assert bs[..1] == [front];
  }

  /**
   * malloc(40), free, malloc(8), malloc(100): the source's allocator has taken 172
   * bytes from `sbrk` but its list covers only 140 of them; the 16-byte free
   * remainder of the split can never be handed out again.
   */
  lemma TailLosesBlock()
    ensures var s4 := MallocAsWritten(MallocAsWritten(FreeAsWritten(
      MallocAsWritten(State([], None, 0), 40, true), 0), 8, true), 100, true);
      && Accounted(State([], None, 0))
      && s4.brk == 172
      && Footprint(s4.list, H) == 140
      && !Accounted(s4)
  {
    var s0 := State([], None, 0);
    var front := Block(8, false, Zeros(8));
    var s1 := MallocAsWritten(s0, 40, true);
    StepOne();
    var s2 := FreeAsWritten(s1, 0);
    StepTwo();
    var s3 := MallocAsWritten(s2, 8, true);
    StepThree();
    var s4 := MallocAsWritten(s3, 100, true);
    StepFour();
    assert s4.list == [front, Block(100, false, Zeros(100))];
    FootprintTwo(front, Block(100, false, Zeros(100)), H);
    assert Footprint(s0.list, H) == 0;
  }
}
