/**
 * The Pintos user allocator of lib/user/stdlib.c with its links kept as the code
 * keeps them. Memory holds headers at byte addresses counted from the start of the
 * heap, and each `prev` and `next` is the address last stored in it, so a link that
 * `split_large_block` or `coalesce` does not update keeps its old value. Only
 * headers are tracked here; the `UserMalloc` module models the block contents, with
 * the links a list would have.
 */
module LinkedMalloc {
  import opened Wrappers

  /** sizeof(metadata_t) on 32-bit x86. */
  const H: nat := 16

  /** A `metadata_t`: size, free flag, and the `prev` and `next` pointers. */
  datatype Hdr = Hdr(size: nat, free: bool, prev: Option<nat>, next: Option<nat>)

  /** What the H bytes at an address hold: the header last written there whole, or
      bytes that do not form one (never written as a header, or partly overwritten
      since). */
  datatype Cell = Intact(hdr: Hdr) | Garbled

  /** H zero bytes read as a header: size 0, in use, NULL links. */
  const ZeroHdr := Hdr(0, false, None, None)

  /** The allocator: memory, the globals `head` and `tail`, and the break. */
  datatype State = State(mem: nat -> Cell, head: Option<nat>, tail: Option<nat>, brk: nat)

  /** An outcome, or undefined behaviour: a header read or written through NULL, or
      through a pointer whose bytes do not hold a whole header. */
  datatype Res<T> = Ok(v: T) | Undefined

  /** The state after a call and the pointer it returns (None for NULL, or for `free`). */
  datatype Ret = Ret(s: State, ptr: Option<nat>)

  /** Before the first call: no header anywhere, `head == tail == NULL`. */
  function Empty(): State {
    State(_ => Garbled, None, None, 0)
  }

  /** Memory after the header `h` is written at `x`: a header that shared a byte
      with it is no longer whole. */
  function Put(mem: nat -> Cell, x: nat, h: Hdr): nat -> Cell {
    (a: nat) => if a == x then Intact(h) else if a + H <= x || x + H <= a then mem(a) else Garbled
  }

  /** `zero_fill(c, n)`: a header lying wholly in [c, c + n) reads as zeros, and one
      that straddles an end of it is no longer whole. */
  function ZeroFill(mem: nat -> Cell, c: nat, n: nat): nat -> Cell {
    (a: nat) =>
      if c <= a && a + H <= c + n then Intact(ZeroHdr)
      else if a + H <= c || c + n <= a then mem(a)
      else Garbled
  }

  /** The layout every header keeps: it and its contents lie below the break,
      `prev` names an address at least a header lower, and `next` one at or past
      the end of its contents. */
  ghost predicate Fits(a: nat, h: Hdr, brk: nat) {
    && a + H + h.size <= brk
    && (h.prev.Some? ==> h.prev.value + H <= a)
    && (h.next.Some? ==> a + H + h.size <= h.next.value)
  }

  ghost predicate Valid(s: State) {
    forall a: nat :: s.mem(a).Intact? ==> Fits(a, s.mem(a).hdr, s.brk)
  }

  lemma EmptyValid()
    ensures Valid(Empty())
  {
  }

  /** How far a walk along `next` from `p` can still go before it leaves the heap. */
  function Room(s: State, p: Option<nat>): nat {
    if p.Some? && p.value < s.brk then s.brk - p.value else 0
  }

  // ---------------------------------------------------------------------------
  // the walks
  // ---------------------------------------------------------------------------

  /** `find_first_fit`, started at `p`: the first header on the `next` walk that is
      free and holds at least `size` bytes, or NULL when the walk ends first. */
  function FindFit(s: State, p: Option<nat>, size: nat): (r: Res<Option<nat>>)
    requires Valid(s)
    ensures p.None? ==> r == Ok(None)
    ensures r.Ok? && r.v.Some? ==>
      && s.mem(r.v.value).Intact?
      && s.mem(r.v.value).hdr.free
      && s.mem(r.v.value).hdr.size >= size
    decreases Room(s, p)
  {
    match p
    case None => Ok(None)
    case Some(a) =>
      match s.mem(a)
      case Garbled => Undefined
      case Intact(h) =>
        if h.free && h.size >= size then Ok(Some(a)) else FindFit(s, h.next, size)
  }

  /** The first loop of `coalesce`: from `a`, step to `prev` while it names a free
      header. */
  function RunHead(s: State, a: nat): (r: Res<nat>)
    requires Valid(s) && s.mem(a).Intact?
    ensures r.Ok? ==> s.mem(r.v).Intact? && (r.v == a || r.v + H <= a)
    decreases a
  {
    match s.mem(a).hdr.prev
    case None => Ok(a)
    case Some(q) =>
      match s.mem(q)
      case Garbled => Undefined
      case Intact(qh) => if qh.free then RunHead(s, q) else Ok(a)
  }

  /** The second loop of `coalesce`: from `a`, step to `next` while it names a free
      header. */
  function RunTail(s: State, a: nat): (r: Res<nat>)
    requires Valid(s) && s.mem(a).Intact?
    ensures r.Ok? ==> s.mem(r.v).Intact? && (r.v == a || a + H <= r.v)
    decreases s.brk - a
  {
    match s.mem(a).hdr.next
    case None => Ok(a)
    case Some(n) =>
      match s.mem(n)
      case Garbled => Undefined
      case Intact(nh) => if nh.free then RunTail(s, n) else Ok(a)
  }

  /** The third loop of `coalesce`: size plus header of each block on the `next`
      walk from `x` up to, not including, `t`. Running off the list dereferences
      NULL. The blocks walked end before `t` begins. */
  function SpanTo(s: State, x: nat, t: nat): (r: Res<nat>)
    requires Valid(s)
    ensures r.Ok? ==> x + r.v <= t
    ensures r.Ok? && x != t ==> r.v >= H
    decreases Room(s, Some(x))
  {
    if x == t then Ok(0)
    else match s.mem(x)
      case Garbled => Undefined
      case Intact(h) =>
        match h.next
        case None => Undefined
        case Some(n) =>
          match SpanTo(s, n, t)
          case Undefined => Undefined
          case Ok(m) => Ok(h.size + H + m)
  }

  /** The blocks met on the `next` walk from `p`, the list `find_first_fit` searches. */
  function ListFrom(s: State, p: Option<nat>): (r: Res<seq<(nat, Hdr)>>)
    requires Valid(s)
    ensures r.Ok? ==> forall k :: 0 <= k < |r.v| ==> s.mem(r.v[k].0) == Intact(r.v[k].1)
    decreases Room(s, p)
  {
    match p
    case None => Ok([])
    case Some(a) =>
      match s.mem(a)
      case Garbled => Undefined
      case Intact(h) =>
        match ListFrom(s, h.next)
        case Undefined => Undefined
        case Ok(rest) => Ok([(a, h)] + rest)
  }

  // ---------------------------------------------------------------------------
  // malloc
  // ---------------------------------------------------------------------------

  /** The branch for `head == NULL`: `new_mapped_region` with a NULL `prev` writes
      the first header at the old break, and `head` and `tail` both name it. */
  function First(s: State, size: nat): (r: Ret)
    requires Valid(s)
    ensures Valid(r.s)
    ensures r.ptr == Some(s.brk + H) && r.s.brk == s.brk + H + size
    ensures r.s.head == Some(s.brk) && r.s.tail == Some(s.brk)
    ensures r.s.mem(s.brk) == Intact(Hdr(size, false, None, None))
  {
    var b := s.brk;
    var m := Put(s.mem, b, Hdr(size, false, None, None));
    Ret(State(ZeroFill(m, b + H, size), Some(b), Some(b), b + H + size), Some(b + H))
  }

  /** The `sbrk` branch after a miss: `new_mapped_region` writes a header for
      `size` bytes at the old break with `prev = tail`, links it after `tail` when
      `tail` is not NULL, then `tail` names it and its contents are zeroed. `head`
      is left alone. */
  function Extend(s: State, size: nat): (r: Res<Ret>)
    requires Valid(s)
    ensures r.Ok? ==> Valid(r.v.s)
    ensures r.Ok? ==>
      && r.v.ptr == Some(s.brk + H)
      && r.v.s.brk == s.brk + H + size
      && r.v.s.head == s.head
      && r.v.s.tail == Some(s.brk)
      && r.v.s.mem(s.brk) == Intact(Hdr(size, false, s.tail, None))
    ensures r.Ok? && s.tail.Some? ==> r.v.s.mem(s.tail.value).Intact? && r.v.s.mem(s.tail.value).hdr.next == Some(s.brk)
    ensures r.Undefined? <==> s.tail.Some? && s.mem(s.tail.value).Garbled?
  {
    var b := s.brk;
    var m1 := Put(s.mem, b, Hdr(size, false, s.tail, None));
    match s.tail
    case None =>
      Ok(Ret(s.(mem := ZeroFill(m1, b + H, size), tail := Some(b), brk := b + H + size), Some(b + H)))
    case Some(t) =>
      match s.mem(t)
      case Garbled => Undefined
      case Intact(th) =>
        var m2 := Put(m1, t, th.(next := Some(b)));
        Ok(Ret(s.(mem := ZeroFill(m2, b + H, size), tail := Some(b), brk := b + H + size), Some(b + H)))
  }

  /** `split_large_block`: the front `size` bytes of the free block at `f` are
      handed out, and a free header for the rest follows them, linked between `f`
      and `f`'s old `next`. The old `next`'s `prev` is not updated. */
  function SplitLarge(s: State, f: nat, size: nat): (r: State)
    requires Valid(s) && s.mem(f).Intact? && s.mem(f).hdr.size >= size + H
    ensures Valid(r) && r.head == s.head && r.tail == s.tail && r.brk == s.brk
    ensures var fh := s.mem(f).hdr;
      && r.mem(f) == Intact(Hdr(size, false, fh.prev, Some(f + H + size)))
      && r.mem(f + H + size) == Intact(Hdr(fh.size - size - H, true, Some(f), fh.next))
      && (forall a: nat :: a + H <= f || f + H + fh.size <= a ==> r.mem(a) == s.mem(a))
  {
    var fh := s.mem(f).hdr;
    var sub := f + H + size;
    var m1 := Put(s.mem, sub, Hdr(fh.size - size - H, true, Some(f), fh.next));
    var m2 := Put(m1, f, fh.(size := size, free := false, next := Some(sub)));
    s.(mem := ZeroFill(m2, f + H, size))
  }

  /**
   * `malloc` as written. A zero request returns NULL. With an empty list the heap
   * grows by `sbrk` (`sbrkOk`) and the new block becomes the list; when no block
   * fits it grows the same way and the new block is linked after `tail`. A fitting
   * block is split when it exceeds the request by at least a header, or otherwise
   * taken whole. Headers outside the block that is used do
   * not change, so the header after a split block still names that block as `prev`.
   */
  function Malloc(s: State, size: nat, sbrkOk: bool): (r: Res<Ret>)
    requires Valid(s)
    ensures size == 0 ==> r == Ok(Ret(s, None))
    ensures r.Ok? ==> Valid(r.v.s)
    ensures r.Ok? && r.v.ptr.None? <==> size == 0 || (FindFit(s, s.head, size) == Ok(None) && !sbrkOk)
    ensures r.Ok? && r.v.ptr.Some? ==>
      && r.v.ptr.value >= H
      && r.v.s.mem(r.v.ptr.value - H).Intact?
      && !r.v.s.mem(r.v.ptr.value - H).hdr.free
      && r.v.s.mem(r.v.ptr.value - H).hdr.size >= size
    ensures size > 0 && FindFit(s, s.head, size).Ok? && FindFit(s, s.head, size).v.Some? ==>
      var f := FindFit(s, s.head, size).v.value;
      var fh := s.mem(f).hdr;
      && r.Ok? && r.v.ptr == Some(f + H)
      && (forall a: nat :: a + H <= f || f + H + fh.size <= a ==> r.v.s.mem(a) == s.mem(a))
      && (fh.size >= size + H ==>
            && r.v.s.mem(f) == Intact(fh.(size := size, free := false, next := Some(f + H + size)))
            && r.v.s.mem(f + H + size) == Intact(Hdr(fh.size - size - H, true, Some(f), fh.next)))
      && (fh.size < size + H ==> r.v.s.mem(f) == Intact(fh.(free := false)))
      && r.v.s.head == s.head && r.v.s.tail == s.tail && r.v.s.brk == s.brk
    ensures size > 0 && s.head.None? && sbrkOk ==> r == Ok(First(s, size))
    ensures size > 0 && s.head.Some? && FindFit(s, s.head, size) == Ok(None) && sbrkOk ==> r == Extend(s, size)
    ensures size > 0 && s.head.Some? && FindFit(s, s.head, size).Undefined? ==> r.Undefined?
  {
    if size == 0 then Ok(Ret(s, None))
    else if s.head.None? then (if sbrkOk then Ok(First(s, size)) else Ok(Ret(s, None)))
    else match FindFit(s, s.head, size)
      case Undefined => Undefined
      case Ok(None) => if sbrkOk then Extend(s, size) else Ok(Ret(s, None))
      case Ok(Some(f)) =>
        var fh := s.mem(f).hdr;
        if fh.size >= size + H then Ok(Ret(SplitLarge(s, f, size), Some(f + H)))
        else
          var m := Put(s.mem, f, fh.(free := false));
          Ok(Ret(s.(mem := ZeroFill(m, f + H, fh.size)), Some(f + H)))
  }

  // ---------------------------------------------------------------------------
  // free and coalesce
  // ---------------------------------------------------------------------------

  /**
   * What `coalesce` on `p` leaves, in terms of its three walks: nothing changes
   * when neither walk moves; otherwise the header at the run's head takes the
   * summed size with the tail's size, and the tail's `next`, and no header clear
   * of it changes. A walk that is undefined makes the whole call undefined.
   */
  ghost predicate Merged(s: State, p: nat, r: Res<State>)
    requires Valid(s) && s.mem(p).Intact?
  {
    match RunHead(s, p)
    case Undefined => r.Undefined?
    case Ok(hd) =>
      match RunTail(s, p)
      case Undefined => r.Undefined?
      case Ok(tl) =>
        if hd == p && tl == p then r == Ok(s)
        else
          match SpanTo(s, hd, tl)
          case Undefined => r.Undefined?
          case Ok(span) =>
            && r.Ok?
            && r.v.mem(hd) == Intact(s.mem(hd).hdr.(size := span + s.mem(tl).hdr.size, next := s.mem(tl).hdr.next))
            && (forall a: nat :: a + H <= hd || hd + H <= a ==> r.v.mem(a) == s.mem(a))
  }

  /**
   * `coalesce` as written on the header at `p`. The two walks find the free run
   * around `p` through `prev` and `next`; with neither walk moving, nothing
   * changes. Otherwise the first header of the run takes the summed size and the
   * last one's `next`. No `prev` anywhere is updated.
   */
  function Coalesce(s: State, p: nat): (r: Res<State>)
    requires Valid(s) && s.mem(p).Intact?
    ensures r.Ok? ==> Valid(r.v) && r.v.head == s.head && r.v.tail == s.tail && r.v.brk == s.brk
    ensures r.Ok? ==> r.v.mem(p).Intact? && r.v.mem(p).hdr.free == s.mem(p).hdr.free
    ensures r.Ok? ==> forall a: nat :: r.v.mem(a).Intact? ==>
      && s.mem(a).Intact?
      && r.v.mem(a).hdr.prev == s.mem(a).hdr.prev
      && r.v.mem(a).hdr.free == s.mem(a).hdr.free
  {
    match RunHead(s, p)
    case Undefined => Undefined
    case Ok(hd) =>
      match RunTail(s, p)
      case Undefined => Undefined
      case Ok(tl) =>
        if hd == p && tl == p then Ok(s)
        else
          match SpanTo(s, hd, tl)
          case Undefined => Undefined
          case Ok(span) =>
            var th := s.mem(tl).hdr;
            var m1 := Put(s.mem, hd, s.mem(hd).hdr.(size := span + th.size));
            assert hd + H <= tl;
            var m2 := Put(m1, hd, m1(hd).hdr.(next := m1(tl).hdr.next));
            Ok(s.(mem := m2))
  }

  /**
   * `free` as written: NULL is ignored; otherwise the header in front of `ptr` is
   * marked free and `coalesce` runs on it. A pointer with no whole header in front
   * of it is undefined behaviour. Afterwards that header says free, every other
   * free flag is as it was, and no `prev` link has changed.
   */
  function Free(s: State, ptr: Option<nat>): (r: Res<State>)
    requires Valid(s)
    ensures ptr.None? ==> r == Ok(s)
    ensures ptr.Some? && (ptr.value < H || s.mem(ptr.value - H).Garbled?) ==> r.Undefined?
    ensures r.Ok? ==> Valid(r.v) && r.v.head == s.head && r.v.tail == s.tail && r.v.brk == s.brk
    ensures r.Ok? && ptr.Some? ==>
      ptr.value >= H && r.v.mem(ptr.value - H).Intact? && r.v.mem(ptr.value - H).hdr.free
    ensures r.Ok? ==> forall a: nat :: r.v.mem(a).Intact? ==>
      && s.mem(a).Intact?
      && r.v.mem(a).hdr.prev == s.mem(a).hdr.prev
      && (ptr == Some(a + H) || r.v.mem(a).hdr.free == s.mem(a).hdr.free)
  {
    match ptr
    case None => Ok(s)
    case Some(q) =>
      if q < H then Undefined
      else
        match s.mem(q - H)
        case Garbled => Undefined
        case Intact(h) => Coalesce(s.(mem := Put(s.mem, q - H, h.(free := true))), q - H)
  }

  /** `coalesce` merges the run its walks find, as `Merged` describes. */
  lemma CoalesceMerges(s: State, p: nat)
    requires Valid(s) && s.mem(p).Intact?
    ensures Merged(s, p, Coalesce(s, p))
  {
  }

  /** `free` of a pointer with a whole header in front of it marks that header
      free and then merges the run around it. */
  lemma FreeMerges(s: State, ptr: nat)
    requires Valid(s) && ptr >= H && s.mem(ptr - H).Intact?
    ensures var x := ptr - H;
      var t := s.(mem := Put(s.mem, x, s.mem(x).hdr.(free := true)));
      && Valid(t) && t.mem(x) == Intact(s.mem(x).hdr.(free := true))
      && Merged(t, x, Free(s, Some(ptr)))
  {
    var x := ptr - H;
    var t := s.(mem := Put(s.mem, x, s.mem(x).hdr.(free := true)));
    assert Free(s, Some(ptr)) == Coalesce(t, x);
    CoalesceMerges(t, x);
  }

  // ---------------------------------------------------------------------------
  // programs
  // ---------------------------------------------------------------------------

  /** One call a program makes, `sbrk` always succeeding. */
  datatype Call = MallocOf(size: nat) | FreeOf(ptr: nat)

  function Step(s: State, c: Call): (r: Res<Ret>)
    requires Valid(s)
    ensures r.Ok? ==> Valid(r.v.s)
    ensures c.FreeOf? && r.Ok? ==> r.v.ptr.None?
    ensures c.MallocOf? && r.Ok? ==> (r.v.ptr.None? <==> c.size == 0)
  {
    match c
    case MallocOf(n) => Malloc(s, n, true)
    case FreeOf(p) =>
      match Free(s, Some(p))
      case Undefined => Undefined
      case Ok(t) => Ok(Ret(t, None))
  }

  /** The calls run in order from `s`, stopped by the first undefined one: the
      final state and what each call returned (None for `free`). */
  function Run(s: State, calls: seq<Call>): (r: Res<(State, seq<Option<nat>>)>)
    requires Valid(s)
    ensures r.Ok? ==> Valid(r.v.0) && |r.v.1| == |calls|
    decreases |calls|
  {
    if calls == [] then Ok((s, []))
    else
      match Step(s, calls[0])
      case Undefined => Undefined
      case Ok(x) =>
        match Run(x.s, calls[1..])
        case Undefined => Undefined
        case Ok(rest) => Ok((rest.0, [x.ptr] + rest.1))
  }

  /**
   * p1 = malloc(100), p2 = malloc(8), free(p1), malloc(8), free(p2). The second
   * `malloc(8)` splits p1's block and puts a free header at 24 in front of p2's
   * block, but p2's header keeps `prev` = 0. Freeing p2 looks back at 0, which is
   * in use, and stops: the list ends with two free blocks side by side.
   */
  lemma FreeLeavesFreeNeighbours(calls: seq<Call>)
    requires calls == [MallocOf(100), MallocOf(8), FreeOf(16), MallocOf(8), FreeOf(132)]
    ensures var r := Run(Empty(), calls);
      && r.Ok?
      && r.v.1 == [Some(16), Some(132), None, Some(16), None]
      && ListFrom(r.v.0, r.v.0.head) == Ok([(0, Hdr(8, false, None, Some(24))),
                                             (24, Hdr(76, true, Some(0), Some(116))),
                                             (116, Hdr(8, true, Some(0), None))])
  {
    var s5 := SplitRun(calls);
    ListFromThree(s5, 0, Hdr(8, false, None, Some(24)), 24, Hdr(76, true, Some(0), Some(116)),
                  116, Hdr(8, true, Some(0), None));
  }

  /** The state and outputs of the first scenario. */
  lemma SplitRun(calls: seq<Call>) returns (s5: State)
    requires calls == [MallocOf(100), MallocOf(8), FreeOf(16), MallocOf(8), FreeOf(132)]
    ensures Run(Empty(), calls) == Ok((s5, [Some(16), Some(132), None, Some(16), None]))
    ensures Valid(s5) && s5.head == Some(0)
    ensures s5.mem(0) == Intact(Hdr(8, false, None, Some(24)))
    ensures s5.mem(24) == Intact(Hdr(76, true, Some(0), Some(116)))
    ensures s5.mem(116) == Intact(Hdr(8, true, Some(0), None))
  {
    var s4 := FirstFour(calls[4..]);
    s5 := FreeBehindUsed(s4);
    assert Run(s5, []) == Ok((s5, []));
    RunBack(s4, s5, FreeOf(132), [], [], None);
    assert calls[4..] == [FreeOf(132)] + [];
    SplitFour(calls);
    var none: Option<nat> := None;
    assert [Some(16), Some(132), None, Some(16)] + ([none] + []) == [Some(16), Some(132), None, Some(16), None];
  }

  /** After `free(132)` in the first scenario: the walk back from 116 stops at
      0, which is in use, and the walk forward finds no `next`. */
  lemma FreeBehindUsed(s4: State) returns (s5: State)
    requires Valid(s4) && s4.head == Some(0) && s4.tail == Some(116) && s4.brk == 140
    requires s4.mem(0) == Intact(Hdr(8, false, None, Some(24)))
    requires s4.mem(24) == Intact(Hdr(76, true, Some(0), Some(116)))
    requires s4.mem(116) == Intact(Hdr(8, false, Some(0), None))
    ensures Step(s4, FreeOf(132)) == Ok(Ret(s5, None))
    ensures Valid(s5) && s5.head == Some(0)
    ensures s5.mem(0) == Intact(Hdr(8, false, None, Some(24)))
    ensures s5.mem(24) == Intact(Hdr(76, true, Some(0), Some(116)))
    ensures s5.mem(116) == Intact(Hdr(8, true, Some(0), None))
  {
    s5 := s4.(mem := Put(s4.mem, 116, Hdr(8, true, Some(0), None)));
    assert RunHead(s5, 116) == Ok(116);
    assert RunTail(s5, 116) == Ok(116);
  }

  /** One more call in front of a run. */
  lemma RunBack(s: State, t: State, c: Call, cs: seq<Call>, out: seq<Option<nat>>, ptr: Option<nat>)
    requires Valid(s) && Valid(t) && Step(s, c) == Ok(Ret(t, ptr))
    requires Run(t, cs).Ok? && Run(t, cs).v.1 == out
    ensures Run(s, [c] + cs) == Ok((Run(t, cs).v.0, [ptr] + out))
  {
    assert ([c] + cs)[0] == c && ([c] + cs)[1..] == cs;
  }

  /** Three calls in front of a run. */
  lemma RunThree(s0: State, s1: State, s2: State, s3: State, c0: Call, c1: Call, c2: Call,
                 p0: Option<nat>, p1: Option<nat>, p2: Option<nat>, cs: seq<Call>)
    requires Valid(s0) && Valid(s1) && Valid(s2) && Valid(s3)
    requires Step(s0, c0) == Ok(Ret(s1, p0)) && Step(s1, c1) == Ok(Ret(s2, p1)) && Step(s2, c2) == Ok(Ret(s3, p2))
    requires Run(s3, cs).Ok?
    ensures Run(s0, [c0, c1, c2] + cs) == Ok((Run(s3, cs).v.0, [p0, p1, p2] + Run(s3, cs).v.1))
  {
    var out := Run(s3, cs).v.1;
    RunBack(s2, s3, c2, cs, out, p2);
    RunBack(s1, s2, c1, [c2] + cs, [p2] + out, p1);
    RunBack(s0, s1, c0, [c1] + ([c2] + cs), [p1] + ([p2] + out), p0);
    ConsThree(c0, c1, c2, cs);
    ConsThree(p0, p1, p2, out);
  }

  /** Four calls in front of a run. */
  lemma RunFour(s0: State, s1: State, s2: State, s3: State, s4: State, c0: Call, c1: Call, c2: Call, c3: Call,
                p0: Option<nat>, p1: Option<nat>, p2: Option<nat>, p3: Option<nat>, cs: seq<Call>)
    requires Valid(s0) && Valid(s1) && Valid(s2) && Valid(s3) && Valid(s4)
    requires Step(s0, c0) == Ok(Ret(s1, p0)) && Step(s1, c1) == Ok(Ret(s2, p1))
    requires Step(s2, c2) == Ok(Ret(s3, p2)) && Step(s3, c3) == Ok(Ret(s4, p3))
    requires Run(s4, cs).Ok?
    ensures Run(s0, [c0, c1, c2, c3] + cs) == Ok((Run(s4, cs).v.0, [p0, p1, p2, p3] + Run(s4, cs).v.1))
  {
    var out := Run(s4, cs).v.1;
    RunBack(s3, s4, c3, cs, out, p3);
    RunThree(s0, s1, s2, s3, c0, c1, c2, p0, p1, p2, [c3] + cs);
    SnocThree(c0, c1, c2, c3, cs);
    SnocThree(p0, p1, p2, p3, out);
  }

  // Sequence identities for the scenario proofs, stated apart so that the solver
  // meets them outside the scenarios' larger contexts.

  lemma SplitFour<T>(xs: seq<T>)
    requires 4 <= |xs|
    ensures xs == [xs[0], xs[1], xs[2], xs[3]] + xs[4..]
  {
  }

  lemma JoinFourThree<T>(x0: T, x1: T, x2: T, x3: T, x4: T, x5: T, x6: T)
    ensures [x0, x1, x2, x3] + [x4, x5, x6] == [x0, x1, x2, x3, x4, x5, x6]
  {
  }

  lemma ConsThree<T>(x0: T, x1: T, x2: T, rest: seq<T>)
    ensures [x0] + ([x1] + ([x2] + rest)) == [x0, x1, x2] + rest
  {
  }

  lemma SnocThree<T>(x0: T, x1: T, x2: T, x3: T, rest: seq<T>)
    ensures [x0, x1, x2] + ([x3] + rest) == [x0, x1, x2, x3] + rest
  {
  }

  /** A list of three headers, the last with a NULL `next`. */
  lemma ListFromThree(s: State, a: nat, ha: Hdr, b: nat, hb: Hdr, c: nat, hc: Hdr)
    requires Valid(s) && s.mem(a) == Intact(ha) && s.mem(b) == Intact(hb) && s.mem(c) == Intact(hc)
    requires ha.next == Some(b) && hb.next == Some(c) && hc.next.None?
    ensures ListFrom(s, Some(a)) == Ok([(a, ha), (b, hb), (c, hc)])
  {
    assert ListFrom(s, hc.next) == Ok([]);
    assert [(c, hc)] + [] == [(c, hc)];
    assert ListFrom(s, Some(c)) == Ok([(c, hc)]);
    assert [(b, hb)] + [(c, hc)] == [(b, hb), (c, hc)];
    assert ListFrom(s, Some(b)) == Ok([(b, hb), (c, hc)]);
    assert [(a, ha)] + [(b, hb), (c, hc)] == [(a, ha), (b, hb), (c, hc)];
  }

  lemma ListFromOne(s: State, a: nat, ha: Hdr)
    requires Valid(s) && s.mem(a) == Intact(ha) && ha.next.None?
    ensures ListFrom(s, Some(a)) == Ok([(a, ha)])
  {
    assert ListFrom(s, ha.next) == Ok([]);
    assert [(a, ha)] + [] == [(a, ha)];
  }

  /** After `malloc(100)` on an empty heap. */
  lemma AfterFirst() returns (s1: State)
    ensures Valid(Empty()) && Step(Empty(), MallocOf(100)) == Ok(Ret(s1, Some(16)))
    ensures Valid(s1) && s1.head == Some(0) && s1.tail == Some(0) && s1.brk == 116
    ensures s1.mem(0) == Intact(Hdr(100, false, None, None))
  {
    EmptyValid();
    s1 := First(Empty(), 100).s;
  }

  /** After `malloc(8)`: no fit, so a block at 116 is linked after `tail`. */
  lemma AfterSecond(s1: State) returns (s2: State)
    requires Valid(s1) && s1.head == Some(0) && s1.tail == Some(0) && s1.brk == 116
    requires s1.mem(0) == Intact(Hdr(100, false, None, None))
    ensures Step(s1, MallocOf(8)) == Ok(Ret(s2, Some(132)))
    ensures Valid(s2) && s2.head == Some(0) && s2.tail == Some(116) && s2.brk == 140
    ensures s2.mem(0) == Intact(Hdr(100, false, None, Some(116)))
    ensures s2.mem(116) == Intact(Hdr(8, false, Some(0), None))
  {
    assert FindFit(s1, Some(0), 8) == Ok(None);
    s2 := Extend(s1, 8).v.s;
  }

  /** After `free(16)`: the block at 0 is free, with no free neighbour. */
  lemma AfterThird(s2: State) returns (s3: State)
    requires Valid(s2) && s2.head == Some(0) && s2.tail == Some(116) && s2.brk == 140
    requires s2.mem(0) == Intact(Hdr(100, false, None, Some(116)))
    requires s2.mem(116) == Intact(Hdr(8, false, Some(0), None))
    ensures Step(s2, FreeOf(16)) == Ok(Ret(s3, None))
    ensures Valid(s3) && s3.head == Some(0) && s3.tail == Some(116) && s3.brk == 140
    ensures s3.mem(0) == Intact(Hdr(100, true, None, Some(116)))
    ensures s3.mem(116) == Intact(Hdr(8, false, Some(0), None))
  {
    s3 := s2.(mem := Put(s2.mem, 0, Hdr(100, true, None, Some(116))));
    assert RunHead(s3, 0) == Ok(0);
    assert RunTail(s3, 0) == Ok(0);
  }

  /** After `malloc(8)`: the block at 0 is split, the free rest at 24 links to 116,
      and the header at 116 keeps `prev` = 0. */
  lemma AfterFourth(s3: State) returns (s4: State)
    requires Valid(s3) && s3.head == Some(0) && s3.tail == Some(116) && s3.brk == 140
    requires s3.mem(0) == Intact(Hdr(100, true, None, Some(116)))
    requires s3.mem(116) == Intact(Hdr(8, false, Some(0), None))
    ensures Step(s3, MallocOf(8)) == Ok(Ret(s4, Some(16)))
    ensures Valid(s4) && s4.head == Some(0) && s4.tail == Some(116) && s4.brk == 140
    ensures s4.mem(0) == Intact(Hdr(8, false, None, Some(24)))
    ensures s4.mem(24) == Intact(Hdr(76, true, Some(0), Some(116)))
    ensures s4.mem(116) == Intact(Hdr(8, false, Some(0), None))
  {
    assert FindFit(s3, Some(0), 8) == Ok(Some(0));
    s4 := SplitLarge(s3, 0, 8);
  }

  /**
   * p1 = malloc(100), p2 = malloc(8), free(p1), p3 = malloc(8), p4 = malloc(76),
   * free(p3), free(p2). p4 takes the free rest at 24 whole. Freeing p2 follows its
   * stale `prev` to 0, which is free, and sums the run 0, 24, 116 into one free
   * block of 124 bytes. The list is that single free block; its contents [16, 140)
   * cover p4's 76 bytes at 40, which are still in use.
   */
  lemma FreeSwallowsLiveBlock(calls: seq<Call>)
    requires calls == [MallocOf(100), MallocOf(8), FreeOf(16), MallocOf(8), MallocOf(76), FreeOf(16), FreeOf(132)]
    ensures var r := Run(Empty(), calls);
      && r.Ok?
      && r.v.1 == [Some(16), Some(132), None, Some(16), Some(40), None, None]
      && ListFrom(r.v.0, r.v.0.head) == Ok([(0, Hdr(124, true, None, None))])
      && r.v.0.mem(40 - H) == Intact(Hdr(76, false, Some(0), Some(116)))
      && 0 + H <= 40 && 40 + 76 <= 0 + H + 124
  {
    var s7 := SwallowRun(calls);
    ListFromOne(s7, 0, Hdr(124, true, None, None));
  }

  /** The state and outputs of the second scenario. */
  lemma SwallowRun(calls: seq<Call>) returns (s7: State)
    requires calls == [MallocOf(100), MallocOf(8), FreeOf(16), MallocOf(8), MallocOf(76), FreeOf(16), FreeOf(132)]
    ensures Run(Empty(), calls) == Ok((s7, [Some(16), Some(132), None, Some(16), Some(40), None, None]))
    ensures Valid(s7) && s7.head == Some(0)
    ensures s7.mem(0) == Intact(Hdr(124, true, None, None))
    ensures s7.mem(24) == Intact(Hdr(76, false, Some(0), Some(116)))
  {
    var s4 := FirstFour(calls[4..]);
    s7 := LastThree(s4, calls[4..]);
    SplitFour(calls);
    JoinFourThree(Some(16), Some(132), None, Some(16), Some(40), None, None);
  }

  /** The first four calls of both scenarios, followed by any run `cs`. */
  lemma FirstFour(cs: seq<Call>) returns (s4: State)
    ensures Valid(s4) && s4.head == Some(0) && s4.tail == Some(116) && s4.brk == 140
    ensures s4.mem(0) == Intact(Hdr(8, false, None, Some(24)))
    ensures s4.mem(24) == Intact(Hdr(76, true, Some(0), Some(116)))
    ensures s4.mem(116) == Intact(Hdr(8, false, Some(0), None))
    ensures Run(s4, cs).Ok? ==>
      Run(Empty(), [MallocOf(100), MallocOf(8), FreeOf(16), MallocOf(8)] + cs)
        == Ok((Run(s4, cs).v.0, [Some(16), Some(132), None, Some(16)] + Run(s4, cs).v.1))
  {
    EmptyValid();
    var s1 := AfterFirst();
    var s2 := AfterSecond(s1);
    var s3 := AfterThird(s2);
    s4 := AfterFourth(s3);
    if Run(s4, cs).Ok? {
      RunFour(Empty(), s1, s2, s3, s4, MallocOf(100), MallocOf(8), FreeOf(16), MallocOf(8),
              Some(16), Some(132), None, Some(16), cs);
    }
  }

  /** The last three calls, from the state the first four leave. */
  lemma LastThree(s4: State, cs: seq<Call>) returns (s7: State)
    requires Valid(s4) && s4.head == Some(0) && s4.tail == Some(116) && s4.brk == 140
    requires s4.mem(0) == Intact(Hdr(8, false, None, Some(24)))
    requires s4.mem(24) == Intact(Hdr(76, true, Some(0), Some(116)))
    requires s4.mem(116) == Intact(Hdr(8, false, Some(0), None))
    requires cs == [MallocOf(76), FreeOf(16), FreeOf(132)]
    ensures Run(s4, cs) == Ok((s7, [Some(40), None, None]))
    ensures Valid(s7) && s7.head == Some(0)
    ensures s7.mem(0) == Intact(Hdr(124, true, None, None))
    ensures s7.mem(24) == Intact(Hdr(76, false, Some(0), Some(116)))
  {
    var s5 := TakeRest(s4);
    var s6 := FreeFront(s5);
    s7 := FreeStale(s6);
    assert Run(s7, []) == Ok((s7, []));
    RunThree(s4, s5, s6, s7, MallocOf(76), FreeOf(16), FreeOf(132), Some(40), None, None, []);
    assert [MallocOf(76), FreeOf(16), FreeOf(132)] + [] == cs;
    assert [Some(40), None, None] + [] == [Some(40), None, None];
  }

  /** After `malloc(76)`: the free rest at 24 is taken whole. */
  lemma TakeRest(s4: State) returns (s5: State)
    requires Valid(s4) && s4.head == Some(0) && s4.tail == Some(116) && s4.brk == 140
    requires s4.mem(0) == Intact(Hdr(8, false, None, Some(24)))
    requires s4.mem(24) == Intact(Hdr(76, true, Some(0), Some(116)))
    requires s4.mem(116) == Intact(Hdr(8, false, Some(0), None))
    ensures Step(s4, MallocOf(76)) == Ok(Ret(s5, Some(40)))
    ensures Valid(s5) && s5.head == Some(0) && s5.tail == Some(116) && s5.brk == 140
    ensures s5.mem(0) == Intact(Hdr(8, false, None, Some(24)))
    ensures s5.mem(24) == Intact(Hdr(76, false, Some(0), Some(116)))
    ensures s5.mem(116) == Intact(Hdr(8, false, Some(0), None))
  {
    assert FindFit(s4, Some(0), 76) == Ok(Some(24));
    s5 := Malloc(s4, 76, true).v.s;
  }

  /** After `free(16)`: the block at 0 is free; its neighbour at 24 is in use. */
  lemma FreeFront(s5: State) returns (s6: State)
    requires Valid(s5) && s5.head == Some(0) && s5.tail == Some(116) && s5.brk == 140
    requires s5.mem(0) == Intact(Hdr(8, false, None, Some(24)))
    requires s5.mem(24) == Intact(Hdr(76, false, Some(0), Some(116)))
    requires s5.mem(116) == Intact(Hdr(8, false, Some(0), None))
    ensures Step(s5, FreeOf(16)) == Ok(Ret(s6, None))
    ensures Valid(s6) && s6.head == Some(0) && s6.tail == Some(116) && s6.brk == 140
    ensures s6.mem(0) == Intact(Hdr(8, true, None, Some(24)))
    ensures s6.mem(24) == Intact(Hdr(76, false, Some(0), Some(116)))
    ensures s6.mem(116) == Intact(Hdr(8, false, Some(0), None))
  {
    s6 := s5.(mem := Put(s5.mem, 0, Hdr(8, true, None, Some(24))));
    assert RunHead(s6, 0) == Ok(0);
    assert RunTail(s6, 0) == Ok(0);
  }

  /** After `free(132)`: the walk back from 116 reaches 0, and the merge runs
      0, 24, 116. */
  lemma FreeStale(s6: State) returns (s7: State)
    requires Valid(s6) && s6.head == Some(0) && s6.tail == Some(116) && s6.brk == 140
    requires s6.mem(0) == Intact(Hdr(8, true, None, Some(24)))
    requires s6.mem(24) == Intact(Hdr(76, false, Some(0), Some(116)))
    requires s6.mem(116) == Intact(Hdr(8, false, Some(0), None))
    ensures Step(s6, FreeOf(132)) == Ok(Ret(s7, None))
    ensures Valid(s7) && s7.head == Some(0) && s7.tail == Some(116) && s7.brk == 140
    ensures s7.mem(0) == Intact(Hdr(124, true, None, None))
    ensures s7.mem(24) == Intact(Hdr(76, false, Some(0), Some(116)))
  {
    var t := s6.(mem := Put(s6.mem, 116, Hdr(8, true, Some(0), None)));
    assert RunHead(t, 0) == Ok(0);
    assert RunHead(t, 116) == Ok(0);
    assert RunTail(t, 116) == Ok(116);
    assert SpanTo(t, 116, 116) == Ok(0);
    assert SpanTo(t, 24, 116) == Ok(92);
    assert SpanTo(t, 0, 116) == Ok(116);
    s7 := Coalesce(t, 116).v;
  }
}
