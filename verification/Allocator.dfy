/** The two allocators that never free: ALT_SBRK of alt_sbrk.c and mcount_allocate of alt_gmon.c. */
module Allocator {
  /** MCOUNT_SLAB_INCREMENT */
  const SLAB: nat := 1020

  /** A block of memory handed to a client. */
  datatype Block = Block(lo: int, hi: int)

  /** The next word boundary: (x + 3) & ~3. */
  function AlignUp(x: int): (a: int)
    ensures a % 4 == 0 && x <= a < x + 4
  {
    (x + 3) / 4 * 4
  }

  /**
   heap_end, the slab pointer and size, the blocks handed out so far, and whether the latest slab request
   succeeded (the code does not look).
   */
  datatype Heap = Heap(end: int, slabPtr: int, slabSize: int, blocks: seq<Block>, slabOk: bool)

  datatype Request = Sbrk(incr: int) | Mcount(size: nat)

  /** sbrk: the old end of the heap, or -1 if the new one would be beyond the limit; aligned in either case. */
  function SbrkStep(h: Heap, incr: int, limit: nat): (Heap, int) {
    var end := AlignUp(h.end);
    if end + incr > limit then (h.(end := end), -1) else (h.(end := end + incr), end)
  }

  function Step(h: Heap, r: Request, limit: nat): (Heap, int) {
    match r
    case Sbrk(incr) =>
      var (g, p) := SbrkStep(h, incr, limit);
      (if p == -1 || incr < 0 then g else g.(blocks := g.blocks + [Block(p, p + incr)]), p)
    case Mcount(size) =>
      var g := if size > h.slabSize then Refill(h, limit) else h;
      (g.(slabPtr := g.slabPtr + size, slabSize := g.slabSize - size,
          blocks := if g.slabOk then g.blocks + [Block(g.slabPtr, g.slabPtr + size)] else g.blocks), g.slabPtr)
  }

  function Refill(h: Heap, limit: nat): Heap {
    var (g, p) := SbrkStep(h, SLAB, limit);
    g.(slabPtr := p, slabSize := SLAB, slabOk := p != -1)
  }

  predicate Apart(a: Block, b: Block) {
    a.hi <= b.lo || b.hi <= a.lo
  }

  /** A word-aligned block inside the heap. */
  predicate Inside(b: Block, start: nat, end: int, limit: nat) {
    start <= b.lo <= b.hi <= end && b.hi <= limit && b.lo % 4 == 0
  }

  /** The unused rest of the latest slab. */
  function Rest(h: Heap): Block {
    Block(h.slabPtr, h.slabPtr + h.slabSize)
  }

  /** Blocks are aligned, inside the heap and pairwise disjoint, and the rest of the slab is free. */
  ghost predicate Inv(h: Heap, start: nat, limit: nat) {
    && start <= h.end && 0 <= h.slabSize && h.slabSize % 4 == 0 && (!h.slabOk ==> h.slabPtr % 4 == 3)
    && (forall i :: 0 <= i < |h.blocks| ==> Inside(h.blocks[i], start, h.end, limit))
    && (forall i, j :: 0 <= i < j < |h.blocks| ==> Apart(h.blocks[i], h.blocks[j]))
    && (h.slabOk && h.slabSize > 0
        ==> Inside(Rest(h), start, h.end, limit) && forall i :: 0 <= i < |h.blocks| ==> Apart(h.blocks[i], Rest(h)))
  }

  /** Requests for memory: any size for sbrk, whole words up to a slab for the profiler. */
  predicate Proper(r: Request) {
    if r.Sbrk? then r.incr >= 0 else 0 < r.size <= SLAB && r.size % 4 == 0
  }

  /** x rounded up to a word: no number from x on that is a whole number of words comes before it. */
  lemma NextWord(x: int, a: int)
    requires a % 4 == 0
    ensures x <= a ==> AlignUp(x) <= a
  {
  }

  /**
   sbrk grants what fits and nothing else. The block starts at the first word boundary the heap has not
   reached, and the heap ends with it; a request that is refused costs the heap no more than the alignment.
   */
  lemma SbrkGrants(h: Heap, incr: nat, limit: nat, start: int)
    requires start % 4 == 0 && h.end <= start < h.end + 4
    ensures var (g, p) := Step(h, Sbrk(incr), limit);
      if start + incr <= limit then p == start && g == h.(end := start + incr, blocks := h.blocks + [Block(p, g.end)])
      else p == -1 && g == h.(end := start)
  {
    NextWord(h.end, start);
  }

  /**
   The profiler cuts its memory off the front of the slab as long as the slab lasts; only then does it take a
   new slab off the heap, and what is left of the old one is lost.
   */
  lemma McountCuts(h: Heap, size: nat, limit: nat, start: int)
    requires size <= SLAB && start % 4 == 0 && h.end <= start < h.end + 4
    ensures var (g, p) := Step(h, Mcount(size), limit);
      && (size <= h.slabSize ==> p == h.slabPtr && g.end == h.end && g.slabSize == h.slabSize - size)
      && (size > h.slabSize && start + SLAB <= limit
          ==> p == start && g.end == start + SLAB && g.slabSize == SLAB - size && g.slabOk)
      && (size > h.slabSize && start + SLAB > limit ==> p == -1 && g.end == start && g.slabSize == SLAB - size)
      && g.slabPtr == p + size
      && (g.slabOk ==> g.blocks == h.blocks + [Block(p, p + size)])
  {
    NextWord(h.end, start);
  }

  /** One more block at the end of the heap. */
  lemma SbrkInv(h: Heap, incr: nat, start: nat, limit: nat)
    requires Inv(h, start, limit)
    ensures var (g, p) := SbrkStep(h, incr, limit);
      && Inv(g, start, limit)
      && (p != -1 ==> Inside(Block(p, p + incr), start, g.end, limit) && h.end <= p)
      && forall i :: 0 <= i < |h.blocks| ==> Apart(h.blocks[i], Block(p, p + incr)) || p == -1
  {
  }

  /** ... which then counts as handed out. */
  lemma AppendInv(h: Heap, incr: nat, start: nat, limit: nat)
    requires Inv(h, start, limit)
    ensures Inv(Step(h, Sbrk(incr), limit).0, start, limit)
  {
    SbrkInv(h, incr, start, limit);
  }

  lemma StepInv(h: Heap, r: Request, start: nat, limit: nat)
    requires Inv(h, start, limit) && Proper(r)
    ensures Inv(Step(h, r, limit).0, start, limit)
  {
    match r {
      case Sbrk(incr) =>
        AppendInv(h, incr, start, limit);
      case Mcount(size) =>
        var g := if size > h.slabSize then Refill(h, limit) else h;
        if size > h.slabSize {
          RefillInv(h, start, limit);
        }
        SlabNotNegative(g, start, limit);
        hide Inv, Refill;
        CarveInv(g, size, start, limit);
    }
  }

  lemma RefillInv(h: Heap, start: nat, limit: nat)
    requires Inv(h, start, limit)
    ensures Inv(Refill(h, limit), start, limit) && Refill(h, limit).slabSize == SLAB
  {
    SbrkInv(h, SLAB, start, limit);
  }

  lemma SlabNotNegative(h: Heap, start: nat, limit: nat)
    requires Inv(h, start, limit)
    ensures 0 <= h.slabSize && h.slabSize % 4 == 0
  {
  }

  lemma CarveInv(g: Heap, size: nat, start: nat, limit: nat)
    requires Inv(g, start, limit) && 0 < size <= g.slabSize && size % 4 == 0
    ensures Inv(g.(slabPtr := g.slabPtr + size, slabSize := g.slabSize - size,
                   blocks := if g.slabOk then g.blocks + [Block(g.slabPtr, g.slabPtr + size)] else g.blocks),
                       start, limit)
  {
  }

  function Run(h: Heap, rs: seq<Request>, limit: nat): Heap {
    if rs == [] then h else Step(Run(h, rs[..|rs| - 1], limit), rs[|rs| - 1], limit).0
  }

  /** Whatever the two allocators are asked for, and in whatever order, their blocks never overlap. */
  lemma {:induction false} RunInv(rs: seq<Request>, start: nat, limit: nat)
    requires forall i :: 0 <= i < |rs| ==> Proper(rs[i])
    ensures Inv(Run(Heap(start, 0, 0, [], true), rs, limit), start, limit)
  {
    if rs != [] {
      RunInv(rs[..|rs| - 1], start, limit);
      StepInv(Run(Heap(start, 0, 0, [], true), rs[..|rs| - 1], limit), rs[|rs| - 1], start, limit);
    }
  }

  /** The end of the slab most recently asked for in a run, as sbrk's result gives it. */
  function LatestSlabEnd(h: Heap, rs: seq<Request>, limit: nat): int {
    if rs == [] then h.slabPtr + h.slabSize
    else
      var init, r := rs[..|rs| - 1], rs[|rs| - 1];
      var g := Run(h, init, limit);
      if r.Mcount? && r.size > g.slabSize then SbrkStep(g, SLAB, limit).1 + SLAB else LatestSlabEnd(h, init, limit)
  }

  /** Slab pointer and remaining size always add up to it. */
  lemma {:induction false} SlabEndKept(h: Heap, rs: seq<Request>, limit: nat)
    ensures var g := Run(h, rs, limit); g.slabPtr + g.slabSize == LatestSlabEnd(h, rs, limit)
  {
    if rs != [] {
      SlabEndKept(h, rs[..|rs| - 1], limit);
    }
  }

  /**
   What mcount_allocate returns is memory, word aligned, inside the heap and apart from every block in use, if
   and only if the slab it cuts from was really obtained.
   */
  lemma McountReturnsMemory(h: Heap, size: nat, start: nat, limit: nat)
    requires Inv(h, start, limit) && Proper(Mcount(size))
    ensures var (g, p) := Step(h, Mcount(size), limit);
      Inside(Block(p, p + size), start, g.end, limit)
          && (forall i :: 0 <= i < |h.blocks| ==> Apart(h.blocks[i], Block(p, p + size)))
      <==> if size > h.slabSize then AlignUp(h.end) + SLAB <= limit else h.slabOk
  {
    if size > h.slabSize {
      RefillInv(h, start, limit);
    }
  }

  /** The end of the heap after a request to give memory back. */
  function ShrunkEnd(h: Heap, incr: int, limit: nat): int {
    if AlignUp(h.end) + incr > limit then AlignUp(h.end) else AlignUp(h.end) + incr
  }

  /**
   A negative increment is not checked: it keeps the invariant if and only if the memory given back is in no
   block.
   */
  lemma ShrinkInv(h: Heap, incr: int, start: nat, limit: nat)
    requires Inv(h, start, limit) && incr < 0
    ensures Inv(Step(h, Sbrk(incr), limit).0, start, limit)
      <==> && start <= ShrunkEnd(h, incr, limit)
           && (forall i :: 0 <= i < |h.blocks| ==> h.blocks[i].hi <= ShrunkEnd(h, incr, limit))
           && (h.slabOk && h.slabSize > 0 ==> h.slabPtr + h.slabSize <= ShrunkEnd(h, incr, limit))
  {
    hide AlignUp;
    var g := Step(h, Sbrk(incr), limit).0;
    assert g.blocks == h.blocks && g.end == ShrunkEnd(h, incr, limit);
  }

  /** Memory given back too early is handed out again. */
  lemma NegativeSbrkOverlaps()
    ensures var rs := [Sbrk(16), Sbrk(-16), Sbrk(8)];
      Run(Heap(0, 0, 0, [], true), rs, 64).blocks == [Block(0, 16), Block(0, 8)] && !Apart(Block(0, 16), Block(0, 8))
  {
    var rs := [Sbrk(16), Sbrk(-16), Sbrk(8)];
    var h := Heap(0, 0, 0, [], true);
    assert rs[..2][..1][..0] == [] && rs[..2][..1] == [Sbrk(16)] && rs[..2] == [Sbrk(16), Sbrk(-16)];
    assert Run(h, [Sbrk(16)], 64) == Heap(16, 0, 0, [Block(0, 16)], true);
    assert Run(h, rs[..2], 64) == Heap(0, 0, 0, [Block(0, 16)], true);
  }

  /** When the heap is full, the profiler is given the error value -1 as a pointer, and then addresses 15, 31, ... */
  lemma FullHeapGivesMinusOne(h: Heap, limit: nat)
    requires h.slabSize == 0 && AlignUp(h.end) + SLAB > limit
    ensures var (g, p) := Step(h, Mcount(16), limit);
      p == -1 && Step(g, Mcount(16), limit).1 == 15
  {
  }

  /** The pointers and counters as the code keeps them. */
  class Memory {
    const start: nat
    const limit: nat
    var heapEnd: int
    var slabPtr: int
    var slabSize: int
    ghost var blocks: seq<Block>
    ghost var slabOk: bool

    ghost function Abstract(): Heap
      reads this
    {
      Heap(heapEnd, slabPtr, slabSize, blocks, slabOk)
    }

    constructor (start: nat, limit: nat)
      ensures this.start == start && this.limit == limit
      ensures Abstract() == Heap(start, 0, 0, [], true) && Inv(Abstract(), start, limit)
    {
      this.start, this.limit := start, limit;
      heapEnd, slabPtr, slabSize, blocks, slabOk := start, 0, 0, [], true;
    }

    /** ALT_SBRK without the record of the block. */
    method Extend(incr: int) returns (p: int)
      modifies this`heapEnd
      ensures (Abstract(), p) == SbrkStep(old(Abstract()), incr, limit)
    {
      heapEnd := AlignUp(heapEnd);
      if heapEnd + incr > limit {
        return -1;
      }
      p := heapEnd;
      heapEnd := heapEnd + incr;
    }

    method SbrkCall(incr: int) returns (p: int)
      requires Inv(Abstract(), start, limit)
      modifies this
      ensures (Abstract(), p) == Step(old(Abstract()), Sbrk(incr), limit)
      ensures incr >= 0 ==> Inv(Abstract(), start, limit)
    {
      if incr >= 0 {
        StepInv(Abstract(), Sbrk(incr), start, limit);
      }
      p := Extend(incr);
      if p != -1 && incr >= 0 {
        blocks := blocks + [Block(p, p + incr)];
      }
    }

    method McountAllocate(size: nat) returns (data: int)
      requires Inv(Abstract(), start, limit) && Proper(Mcount(size))
      modifies this
      ensures (Abstract(), data) == Step(old(Abstract()), Mcount(size), limit) && Inv(Abstract(), start, limit)
    {
      StepInv(Abstract(), Mcount(size), start, limit);
      if size > slabSize {
        slabPtr := Extend(SLAB);
        slabSize := SLAB;
        slabOk := slabPtr != -1;
      }
      data := slabPtr;
      slabPtr := slabPtr + size;
      slabSize := slabSize - size;
      if slabOk {
        blocks := blocks + [Block(data, data + size)];
      }
    }
  }
}
