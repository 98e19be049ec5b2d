/**
  The physical frame allocator (src/pmm.c): a bitmap with one bit per 4 KB block,
  set when the block is taken, and a counter of taken blocks. Its abstract value is
  the set of free block numbers.
 */
module Frames {
  import opened Words

  // 0xFFFFFFFF / 4096, the largest block count `pmm_init` can compute.
  const MAX_BLOCKS := 0xF_FFFF

  // ---------- abstract values ----------

  ghost predicate IsLowest(s: set<nat>, r: nat) {
    r in s && forall x :: x in s ==> r <= x
  }

  ghost function Lowest(s: set<nat>): (r: nat)
    requires s != {}
    ensures IsLowest(s, r)
  {
    HasLowest(s);
    var r :| IsLowest(s, r);
    r
  }

  lemma {:induction false} HasLowest(s: set<nat>)
    requires s != {}
    ensures exists r :: IsLowest(s, r)
    decreases |s|
  {
    var y :| y in s;
    var rest := s - {y};
    assert forall x :: x in s ==> x in rest || x == y;
    if rest == {} {
      assert IsLowest(s, y);
    } else {
      HasLowest(rest);
      var r :| IsLowest(rest, r);
      assert IsLowest(s, if r < y then r else y);
    }
  }

  // The blocks below `total` whose bit is clear.
  ghost function ClearBlocks(bits: seq<word>, total: nat): set<nat> {
    set b: nat | b < total && b / 32 < |bits| && !Bit(bits[b / 32], b % 32)
  }

  // The bits past the last block keep the value `memset` gave them.
  ghost predicate Padded(bits: seq<word>, total: nat) {
    forall b: nat :: total <= b < 32 * |bits| ==> Bit(bits[b / 32], b % 32)
  }

  predicate Covers(start: nat, count: nat, b: nat) {
    start <= b < start + count
  }

  ghost function Blocks(start: nat, count: nat): set<nat> {
    set b: nat | b < start + count && Covers(start, count, b)
  }

  // The blocks of `s` that are tracked at all.
  ghost function Below(s: set<nat>, n: nat): set<nat> {
    set b | b in s && b < n
  }

  lemma BlocksGrow(start: nat, count: nat)
    ensures Blocks(start, 0) == {}
    ensures Blocks(start, count + 1) == Blocks(start, count) + {start + count}
  {
    forall b: nat
      ensures b in Blocks(start, count + 1) <==> b in Blocks(start, count) || b == start + count
    {
      assert Covers(start, count + 1, b) <==> Covers(start, count, b) || b == start + count;
    }
  }

  lemma TakeNext(s: set<nat>, start: nat, i: nat)
    ensures s - Blocks(start, i) - {start + i} == s - Blocks(start, i + 1)
  {
    BlocksGrow(start, i);
  }

  lemma GiveNothing(s: set<nat>, start: nat, n: nat)
    ensures s + Below(Blocks(start, 0), n) == s
  {
    BlocksGrow(start, 0);
  }

  lemma GiveNext(s: set<nat>, start: nat, i: nat, n: nat)
    ensures s + Below(Blocks(start, i), n) + Below({start + i}, n) == s + Below(Blocks(start, i + 1), n)
  {
    BlocksGrow(start, i);
  }

  // What `pmm_alloc_block` returns: the address of the lowest free block, or NULL.
  ghost function AllocAddress(free: set<nat>): nat {
    if free == {} then 0 else Lowest(free) * 4096
  }

  // The number of blocks the region calls touch; the sum is a 32-bit one.
  function ReserveCount(size: word): (r: nat) {
    Add32(size, 4095) / 4096
  }

  function FreeCount(size: word): (r: nat) {
    size / 4096
  }

  lemma SetBit(w: word, j: nat)
    requires j < 32
    ensures Or(w, Pow2(j)) < WORD_SIZE
    ensures forall k: nat :: Bit(Or(w, Pow2(j)), k) == (Bit(w, k) || k == j)
  {
    Pow32();
    PowBelow(j);
    OrBound(w, Pow2(j), 32);
    forall k: nat
      ensures Bit(Or(w, Pow2(j)), k) == (Bit(w, k) || k == j)
    {
      OrBit(w, Pow2(j), k);
      PowBit(j, k);
    }
  }

  lemma PowBelow(j: nat)
    requires j < 32
    ensures Pow2(j) < WORD_SIZE
  {
    Pow32();
    PowMonotone(j, 32);
  }

  lemma {:induction false} PowMonotone(i: nat, j: nat)
    requires i < j
    ensures Pow2(i) < Pow2(j)
    decreases j
  {
    if i < j - 1 {
      PowMonotone(i, j - 1);
    }
  }

  lemma ResetBit(w: word, j: nat)
    requires j < 32 && Pow2(j) < WORD_SIZE
    ensures And(w, Not(Pow2(j))) < WORD_SIZE
    ensures forall k: nat :: k < 32 ==> Bit(And(w, Not(Pow2(j))), k) == (Bit(w, k) && k != j)
  {
    AndBound(w, Not(Pow2(j)));
    forall k: nat | k < 32
      ensures Bit(And(w, Not(Pow2(j))), k) == (Bit(w, k) && k != j)
    {
      AndBit(w, Not(Pow2(j)), k);
      NotBit(Pow2(j), k);
      PowBit(j, k);
    }
  }

  lemma TestBit(w: word, j: nat)
    ensures And(w, Pow2(j)) != 0 <==> Bit(w, j)
  {
    AndBit(w, Pow2(j), j);
    PowBit(j, j);
    ZeroBit(j);
    if And(w, Pow2(j)) != 0 {
      HasBit(And(w, Pow2(j)));
      var k: nat :| Bit(And(w, Pow2(j)), k);
      AndBit(w, Pow2(j), k);
      PowBit(j, k);
    }
  }

  lemma {:induction false} HasBit(x: nat)
    requires x != 0
    ensures exists k: nat :: Bit(x, k)
  {
    if x % 2 == 1 {
      assert Bit(x, 0);
    } else {
      HasBit(x / 2);
      var k: nat :| Bit(x / 2, k);
      assert Bit(x, k + 1);
    }
  }

  class FrameAllocator {
    var bitmap: array<word>
    var total: nat
    var used: word

    // The abstract value: the numbers of the free blocks.
    ghost var free: set<nat>

    ghost predicate Layout()
      reads this, bitmap
    {
      && total <= MAX_BLOCKS
      && bitmap.Length == (total + 31) / 32
      && Padded(bitmap[..], total)
    }

    // The counter is always the number of taken blocks.
    ghost predicate Valid()
      reads this, bitmap
    {
      && Layout()
      && free == ClearBlocks(bitmap[..], total)
      && used == total - |free|
    }

    constructor ()
      ensures Valid() && total == 0 && free == {}
      ensures fresh(bitmap)
    {
      bitmap := new word[0];
      total := 0;
      used := 0;
      free := {};
    }

    method BitmapTest(bit: nat) returns (r: bool)
      requires bit / 32 < bitmap.Length
      ensures r == Bit(bitmap[bit / 32], bit % 32)
    {
      TestBit(bitmap[bit / 32], bit % 32);
      r := And(bitmap[bit / 32], Pow2(bit % 32)) != 0;
    }

    method BitmapSet(bit: nat)
      requires Layout() && bit < total
      modifies bitmap
      ensures Layout() && ClearBlocks(bitmap[..], total) == old(ClearBlocks(bitmap[..], total)) - {bit}
    {
      SetBit(bitmap[bit / 32], bit % 32);
      bitmap[bit / 32] := Or(bitmap[bit / 32], Pow2(bit % 32));
      assert forall i :: 0 <= i < bitmap.Length && i != bit / 32 ==> bitmap[i] == old(bitmap[i]);
    }

    method BitmapClear(bit: nat)
      requires Layout() && bit < total
      modifies bitmap
      ensures Layout() && ClearBlocks(bitmap[..], total) == old(ClearBlocks(bitmap[..], total)) + {bit}
    {
      PowBelow(bit % 32);
      ResetBit(bitmap[bit / 32], bit % 32);
      bitmap[bit / 32] := And(bitmap[bit / 32], Not(Pow2(bit % 32)));
      assert forall i :: 0 <= i < bitmap.Length && i != bit / 32 ==> bitmap[i] == old(bitmap[i]);
    }

    // The guarded body shared by the region loops and by `pmm_free_block`.
    method TakeBlock(block: nat)
      requires Valid()
      modifies this`used, this`free, bitmap
      ensures Valid()
      ensures free == old(free) - {block}
    {
      if block < total {
        var taken := BitmapTest(block);
        if !taken {
          FreeBelowTotal();
          BitmapSet(block);
          used := used + 1;
          free := free - {block};
        }
      }
    }

    method GiveBlock(block: nat)
      requires Valid()
      modifies this`used, this`free, bitmap
      ensures Valid()
      ensures free == old(free) + Below({block}, total)
    {
      if block < total {
        var taken := BitmapTest(block);
        if taken {
          FreeBelowTotal();
          BitmapClear(block);
          free := free + {block};
          CardinalityBelow(free, total);
          used := used - 1;
        }
      }
    }

    method TakeBlocks(start: nat, count: nat)
      requires Valid()
      modifies this`used, this`free, bitmap
      ensures Valid()
      ensures free == old(free) - Blocks(start, count)
    {
      hide FrameAllocator.Valid, Blocks;
      ghost var before := free;
      BlocksGrow(start, 0);
      for i := 0 to count
        invariant Valid()
        invariant free == before - Blocks(start, i)
      {
        TakeNext(before, start, i);
        TakeBlock(start + i);
      }
    }

    method GiveBlocks(start: nat, count: nat)
      requires Valid()
      modifies this`used, this`free, bitmap
      ensures Valid()
      ensures free == old(free) + Below(Blocks(start, count), total)
    {
      hide FrameAllocator.Valid, Blocks, Below;
      ghost var before := free;
      GiveNothing(before, start, total);
      for i := 0 to count
        invariant Valid()
        invariant free == before + Below(Blocks(start, i), total)
      {
        GiveNext(before, start, i, total);
        GiveBlock(start + i);
      }
    }

    method ReserveRegion(base: word, size: word)
      requires Valid()
      modifies this`used, this`free, bitmap
      ensures Valid()
      ensures free == old(free) - Blocks(base / 4096, ReserveCount(size))
    {
      TakeBlocks(base / 4096, ReserveCount(size));
    }

    method FreeRegion(base: word, size: word)
      requires Valid()
      modifies this`used, this`free, bitmap
      ensures Valid()
      ensures free == old(free) + Below(Blocks(base / 4096, FreeCount(size)), total)
    {
      GiveBlocks(base / 4096, FreeCount(size));
    }

    // The inner loop of the scan: the lowest clear bit of a word that is not full.
    method ScanWord(i: nat) returns (found: bool, bit: nat)
      requires free == ClearBlocks(bitmap[..], total)
      requires i < bitmap.Length && bitmap[i] != 0xFFFF_FFFF
      requires forall b :: b in free ==> 32 * i <= b
      ensures found <==> free != {}
      ensures found ==> bit == Lowest(free)
    {
      ghost var k := NotFullWord(bitmap[i]);
      bit := 0;
      for j := 0 to 32
        invariant forall b :: b in free ==> 32 * i + j <= b
        invariant j <= k
      {
        bit := i * 32 + j;
        assert bit / 32 == i && bit % 32 == j;
        if bit >= total {
          return false, bit;
        }
        var taken := BitmapTest(bit);
        if !taken {
          assert bit in free;
          return true, bit;
        }
        assert bit !in free;
      }
      found := false;
    }

    // The word-skipping scan finds the lowest free block of the whole bitmap.
    method FirstFree() returns (found: bool, bit: nat)
      requires Valid()
      ensures found <==> free != {}
      ensures found ==> bit == Lowest(free)
    {
      var words := (total + 31) / 32;
      for i := 0 to words
        invariant forall b :: b in free ==> 32 * i <= b
      {
        if bitmap[i] != 0xFFFF_FFFF {
          found, bit := ScanWord(i);
          return;
        }
        FullWordFree(i);
      }
      assert free == {};
      return false, 0;
    }

    // First fit. NULL is address 0, so block 0 must be reserved for NULL to mean
    // "no memory"; see NullMeansExhausted.
    method AllocBlock() returns (address: word)
      requires Valid()
      modifies this`used, this`free, bitmap
      ensures Valid()
      ensures address == AllocAddress(old(free))
      ensures old(free) == {} ==> free == {}
      ensures old(free) != {} ==>
                free == old(free) - {Lowest(old(free))}
    {
      var found, bit := FirstFree();
      if !found {
        return 0;
      }
      FreeBelowTotal();
      BitmapSet(bit);
      used := used + 1;
      free := free - {bit};
      return bit * 4096;
    }

    lemma FullWordFree(i: nat)
      requires free == ClearBlocks(bitmap[..], total)
      requires i < bitmap.Length && bitmap[i] == 0xFFFF_FFFF
      ensures forall b :: b in free ==> b / 32 != i
    {
      forall b | b in free
        ensures b / 32 != i
      {
        if b / 32 == i {
          FullWordBits(bitmap[i], b % 32);
        }
      }
    }

    method FreeBlock(address: word)
      requires Valid()
      modifies this`used, this`free, bitmap
      ensures Valid()
      ensures free == old(free) + Below({address / 4096}, total)
    {
      GiveBlock(address / 4096);
    }

    method GetFreeBlocks() returns (r: nat)
      requires Valid()
      ensures r == |free|
    {
      FreeBelowTotal();
      r := total - used;
    }

    lemma FreeBelowTotal()
      requires free == ClearBlocks(bitmap[..], total)
      ensures |free| <= total
    {
      CardinalityBelow(free, total);
    }
  }

  lemma {:induction false} CardinalityBelow(s: set<nat>, n: nat)
    requires forall x :: x in s ==> x < n
    ensures |s| <= n
  {
    if n == 0 {
      assert s == {};
    } else {
      CardinalityBelow(s - {n - 1}, n - 1);
    }
  }
}
