/**
  What the frame allocator promises over whole runs, and exactly when its region
  calls cover the memory they are asked to cover.
 */
module FrameRuns {
  import opened Words
  import opened Frames

  // ---------- runs of allocation and release ----------

  datatype Request = Alloc | Release(block: nat)

  // `live` holds the blocks handed out and not yet released.
  datatype Pool = Pool(free: set<nat>, live: set<nat>)

  // A block at or above `total` is not tracked: its release is ignored.
  ghost function Step(p: Pool, r: Request, total: nat): Pool {
    match r
    case Alloc =>
      if p.free == {} then p
      else Pool(p.free - {Lowest(p.free)}, p.live + {Lowest(p.free)})
    case Release(b) => Pool(p.free + Below({b}, total), p.live - {b})
  }

  ghost function Run(p: Pool, rs: seq<Request>, total: nat): Pool
    decreases |rs|
  {
    if rs == [] then p else Run(Step(p, rs[0], total), rs[1..], total)
  }

  // Every release names a block that is live at that moment.
  ghost predicate Legal(p: Pool, rs: seq<Request>, total: nat)
    decreases |rs|
  {
    rs != [] ==>
      && (rs[0].Release? ==> rs[0].block in p.live)
      && Legal(Step(p, rs[0], total), rs[1..], total)
  }

  // The allocatable blocks `pool`, all tracked, are split between the free and the live ones.
  ghost predicate Conserves(pool: set<nat>, p: Pool, total: nat) {
    && (forall b :: b in pool ==> b < total)
    && p.free !! p.live && p.free + p.live == pool
  }

  lemma StepConserves(pool: set<nat>, p: Pool, r: Request, total: nat)
    requires Conserves(pool, p, total) && (r.Release? ==> r.block in p.live)
    ensures Conserves(pool, Step(p, r, total), total)
  {
    var q := Step(p, r, total);
    assert q.free + q.live == p.free + p.live;
  }

  lemma {:induction false} RunConserves(pool: set<nat>, p: Pool, rs: seq<Request>, total: nat)
    requires Conserves(pool, p, total) && Legal(p, rs, total)
    ensures Conserves(pool, Run(p, rs, total), total)
    ensures |Run(p, rs, total).free| + |Run(p, rs, total).live| == |pool|
    decreases |rs|
  {
    hide Step;
    if rs == [] {
      assert |p.free + p.live| == |p.free| + |p.live|;
    } else {
      StepConserves(pool, p, rs[0], total);
      RunConserves(pool, Step(p, rs[0], total), rs[1..], total);
    }
  }

  // After any legal run an allocation hands out the lowest free block, which no one
  // holds and which was never reserved; its address is a page-aligned 32-bit number.
  lemma AllocationIsFresh(pool: set<nat>, rs: seq<Request>, total: nat)
    requires 0 !in pool && total <= MAX_BLOCKS && forall b :: b in pool ==> b < total
    requires Legal(Pool(pool, {}), rs, total)
    ensures
      var p := Run(Pool(pool, {}), rs, total);
      p.free != {} ==>
        var b := Lowest(p.free);
        && b in pool && b !in p.live
        && 0 < AllocAddress(p.free) == b * 4096 && b * 4096 + 4095 < WORD_SIZE
        && |Step(p, Alloc, total).live| == |p.live| + 1
  {
    hide Run, Legal;
    assert Conserves(pool, Pool(pool, {}), total);
    RunConserves(pool, Pool(pool, {}), rs, total);
  }

  // Releasing keeps the split exactly when the block is live, already free (the bit test in
  // `pmm_free_block` makes a repeated release do nothing) or not tracked at all.
  lemma ReleaseSoundIff(pool: set<nat>, p: Pool, b: nat, total: nat)
    requires Conserves(pool, p, total)
    ensures Conserves(pool, Step(p, Release(b), total), total) <==> b in p.live || b in p.free || b >= total
  {
    var q := Step(p, Release(b), total);
    if b in p.live || b in p.free || b >= total {
      assert q.free + q.live == p.free + p.live;
    } else {
      assert b in q.free && b !in pool;
    }
  }

  // An allocation returns NULL exactly when no block is free or block 0 is.
  lemma NullMeansExhausted(free: set<nat>)
    ensures AllocAddress(free) == 0 <==> free == {} || 0 in free
  {
    if 0 in free {
      assert Lowest(free) <= 0;
    }
  }

  // ---------- the allocator performs these runs ----------

  method Perform(pmm: FrameAllocator, r: Request, ghost p: Pool) returns (address: word)
    requires pmm.Valid() && pmm.free == p.free && (r.Release? ==> r.block < 0x10_0000)
    modifies pmm`used, pmm`free, pmm.bitmap
    ensures pmm.Valid() && pmm.free == Step(p, r, pmm.total).free
    ensures address == (if r.Alloc? then AllocAddress(p.free) else 4096 * r.block)
  {
    hide FrameAllocator.Valid;
    match r
    case Alloc =>
      address := pmm.AllocBlock();
    case Release(b) =>
      address := 4096 * b;
      assert address / 4096 == b;
      pmm.FreeBlock(address);
  }

  // The addresses a run hands out and takes back.
  ghost function Addresses(p: Pool, rs: seq<Request>, total: nat): seq<nat>
    decreases |rs|
  {
    if rs == [] then []
    else [if rs[0].Alloc? then AllocAddress(p.free) else 4096 * rs[0].block] + Addresses(Step(p, rs[0], total), rs[1..], total)
  }

  // Whatever the requests, the bitmap, the counter and the addresses are those of the run.
  method PerformAll(pmm: FrameAllocator, rs: seq<Request>, ghost p: Pool) returns (addresses: seq<nat>)
    requires pmm.Valid() && pmm.free == p.free
    requires forall i :: 0 <= i < |rs| && rs[i].Release? ==> rs[i].block < 0x10_0000
    modifies pmm`used, pmm`free, pmm.bitmap
    ensures pmm.Valid() && pmm.free == Run(p, rs, pmm.total).free
    ensures addresses == Addresses(p, rs, pmm.total)
  {
    hide FrameAllocator.Valid, Step;
    ghost var q := p;
    addresses := [];
    for i := 0 to |rs|
      invariant pmm.Valid() && pmm.free == q.free
      invariant Run(p, rs, pmm.total) == Run(q, rs[i..], pmm.total)
      invariant Addresses(p, rs, pmm.total) == addresses + Addresses(q, rs[i..], pmm.total)
    {
      assert rs[i..][0] == rs[i] && rs[i..][1..] == rs[i + 1..];
      var a := Perform(pmm, rs[i], q);
      addresses := addresses + [a];
      q := Step(q, rs[i], pmm.total);
    }
  }

  // ---------- regions ----------

  // Block `b` lies wholly inside the byte range.
  predicate Inside(base: nat, size: nat, b: nat) {
    base <= 4096 * b && 4096 * b + 4096 <= base + size
  }

  // Block `b` shares at least one byte with the byte range.
  predicate Touches(base: nat, size: int, b: nat) {
    size > 0 && 4096 * b < base + size && base < 4096 * b + 4096
  }

  // Freeing a region frees exactly the blocks inside it just when its base is
  // aligned (or the region is too small to free anything).
  lemma FreeRegionExactIff(base: word, size: word)
    ensures (forall b: nat :: b in Blocks(base / 4096, FreeCount(size)) <==> Inside(base, size, b))
            <==> base % 4096 == 0 || size < 4096
  {
    if base % 4096 == 0 || size < 4096 {
      forall b: nat
        ensures b in Blocks(base / 4096, FreeCount(size)) <==> Inside(base, size, b)
      {
        assert b in Blocks(base / 4096, FreeCount(size)) <==> Covers(base / 4096, FreeCount(size), b);
      }
    } else {
      var b := base / 4096;
      assert Covers(b, FreeCount(size), b) && b in Blocks(b, FreeCount(size));
      assert !Inside(base, size, b);
    }
  }

  // The caller-checkable condition for a reservation to reach the last byte: the rounding
  // sum does not wrap, and the ignored page offset does not push the end into a further block.
  predicate FitsRounded(base: word, size: word) {
    && size <= 0xFFFF_F000
    && (size == 0 || base % 4096 == 0 || (size % 4096 != 0 && base % 4096 + size % 4096 <= 4096))
  }

  // Reserving a region takes exactly the blocks it shares a byte with just when it fits.
  lemma ReserveRegionExactIff(base: word, size: word)
    ensures (forall b: nat :: b in Blocks(base / 4096, ReserveCount(size)) <==> Touches(base, size, b))
            <==> FitsRounded(base, size)
  {
    var s, n := base / 4096, ReserveCount(size);
    if FitsRounded(base, size) {
      forall b: nat
        ensures b in Blocks(s, n) <==> Touches(base, size, b)
      {
        assert b in Blocks(s, n) <==> Covers(s, n, b);
      }
    } else {
      var b := s + n;
      assert b in Blocks(s, n) <==> Covers(s, n, b);
      assert Touches(base, size, b);
    }
  }
}
