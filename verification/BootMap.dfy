/**
  Initialisation of the frame allocator from the Multiboot memory map
  (`pmm_init`, src/pmm.c). The boot information arrives as the structures of
  section 3.3 of the Multiboot Specification 0.6.96: `at(p)` is the memory map entry
  that starts at address `p`.
 */
module BootMap {
  import opened Words
  import opened Frames
  import opened FrameRuns

  // The 64-bit fields are kept as their 32-bit halves.
  datatype Entry = Entry(size: word, addrLow: word, addrHigh: word, lenLow: word, lenHigh: word, usable: bool) {
    function Addr(): nat { addrLow + 0x1_0000_0000 * addrHigh }
    function Len(): nat { lenLow + 0x1_0000_0000 * lenHigh }

    // A 64-bit sum.
    function End(): nat {
      var sum := Addr() + Len();
      if sum < 0x1_0000_0000_0000_0000 then sum else sum - 0x1_0000_0000_0000_0000
    }
  }

  datatype Module = Module(start: word, end: word)

  type MemoryMap = nat -> Entry

  // ---------- the memory map as the code walks it ----------

  // An entry starts with its own size, which does not count that field.
  function Next(at: MemoryMap, p: nat): (r: nat)
    ensures r > p
  {
    p + at(p).size + 4
  }

  // The pointer never wraps around before it reaches the end of the map.
  predicate WalkEnds(at: MemoryMap, p: nat, end: nat)
    decreases end - p
  {
    p < end ==> Next(at, p) < 0x1_0000_0000 && WalkEnds(at, Next(at, p), end)
  }

  function Max(a: nat, b: nat): nat { if a < b then b else a }

  function HighestEnd(at: MemoryMap, p: nat, end: nat): (r: nat)
    decreases end - p
  {
    if p < end then
      var rest := HighestEnd(at, Next(at, p), end);
      if at(p).usable then Max(at(p).End(), rest) else rest
    else 0
  }

  // What one usable entry adds to the free blocks: the casts truncate to 32 bits.
  ghost function EntryBlocks(e: Entry): set<nat> {
    if e.usable then Blocks(e.addrLow / 4096, FreeCount(e.lenLow)) else {}
  }

  ghost function FreedBlocks(at: MemoryMap, p: nat, end: nat): set<nat>
    decreases end - p
  {
    if p < end then EntryBlocks(at(p)) + FreedBlocks(at, Next(at, p), end) else {}
  }

  ghost function ModuleBlocks(m: Module): set<nat> {
    Blocks(m.start / 4096, ReserveCount(Sub32(m.end, m.start)))
  }

  ghost function AllModuleBlocks(mods: seq<Module>): set<nat> {
    if mods == [] then {} else AllModuleBlocks(mods[..|mods| - 1]) + ModuleBlocks(mods[|mods| - 1])
  }

  // ---------- the code ----------

  method DetectRam(at: MemoryMap, start: word, end: word) returns (ram: nat)
    requires WalkEnds(at, start, end)
    ensures ram == HighestEnd(at, start, end)
  {
    var p: nat := start;
    ram := 0;
    while p < end
      invariant WalkEnds(at, p, end)
      invariant HighestEnd(at, start, end) == Max(ram, HighestEnd(at, p, end))
      decreases end - p
    {
      if at(p).usable {
        var entryEnd := at(p).End();
        if entryEnd > ram {
          ram := entryEnd;
        }
      }
      p := Next(at, p);
    }
  }

  lemma FreeEntryNext(s: set<nat>, at: MemoryMap, p: nat, end: nat, n: nat)
    requires p < end
    ensures s + Below(EntryBlocks(at(p)), n) + Below(FreedBlocks(at, Next(at, p), end), n)
         == s + Below(FreedBlocks(at, p, end), n)
  {
  }

  lemma FreeEntryDone(s: set<nat>, at: MemoryMap, p: nat, end: nat, n: nat)
    requires p >= end
    ensures s + Below(FreedBlocks(at, p, end), n) == s
  {
  }

  method FreeEntry(pmm: FrameAllocator, e: Entry)
    requires pmm.Valid()
    modifies pmm`used, pmm`free, pmm.bitmap
    ensures pmm.Valid()
    ensures pmm.free == old(pmm.free) + Below(EntryBlocks(e), pmm.total)
  {
    hide FrameAllocator.Valid, Blocks, FreeCount;
    if e.usable {
      pmm.FreeRegion(e.addrLow, e.lenLow);
    }
  }

  method FreeUsable(pmm: FrameAllocator, at: MemoryMap, start: word, end: word)
    requires pmm.Valid() && WalkEnds(at, start, end)
    modifies pmm`used, pmm`free, pmm.bitmap
    ensures pmm.Valid()
    ensures pmm.free == old(pmm.free) + Below(FreedBlocks(at, start, end), pmm.total)
  {
    hide FrameAllocator.Valid, Below, EntryBlocks;
    var p: nat := start;
    ghost var goal := pmm.free + Below(FreedBlocks(at, start, end), pmm.total);
    while p < end
      invariant pmm.Valid() && WalkEnds(at, p, end)
      invariant pmm.free + Below(FreedBlocks(at, p, end), pmm.total) == goal
      decreases end - p
    {
      FreeEntryNext(pmm.free, at, p, end, pmm.total);
      FreeEntry(pmm, at(p));
      p := Next(at, p);
    }
    FreeEntryDone(pmm.free, at, p, end, pmm.total);
  }

  method ReserveModule(pmm: FrameAllocator, m: Module)
    requires pmm.Valid()
    modifies pmm`used, pmm`free, pmm.bitmap
    ensures pmm.Valid()
    ensures pmm.free == old(pmm.free) - ModuleBlocks(m)
  {
    var size := Sub32(m.end, m.start);
    pmm.ReserveRegion(m.start, size);
  }

  lemma NoModules(s: set<nat>)
    ensures s - AllModuleBlocks([]) == s
  {
  }

  lemma NextModule(s: set<nat>, mods: seq<Module>, i: nat)
    requires i < |mods|
    ensures s - AllModuleBlocks(mods[..i]) - ModuleBlocks(mods[i]) == s - AllModuleBlocks(mods[..i + 1])
  {
    assert mods[..i + 1][..i] == mods[..i];
  }

  method ReserveModules(pmm: FrameAllocator, mods: seq<Module>)
    requires pmm.Valid()
    modifies pmm`used, pmm`free, pmm.bitmap
    ensures pmm.Valid()
    ensures pmm.free == old(pmm.free) - AllModuleBlocks(mods)
  {
    hide FrameAllocator.Valid, ModuleBlocks, AllModuleBlocks;
    ghost var before := pmm.free;
    NoModules(before);
    for i := 0 to |mods|
      invariant pmm.Valid()
      invariant pmm.free == before - AllModuleBlocks(mods[..i])
    {
      NextModule(before, mods, i);
      ReserveModule(pmm, mods[i]);
    }
    assert mods[..|mods|] == mods;
  }

  const MULTIBOOT_INFO_MEM_MAP := 0x40
  const MULTIBOOT_INFO_MODS := 0x08

  datatype BootInfo = BootInfo(flags: word, mmapAddr: word, mmapLength: word, mods: seq<Module>)

  // The free blocks `pmm_init` leaves, as the code computes them.
  ghost function InitialFree(info: BootInfo, at: MemoryMap, kernelStart: word, kernelEnd: word): set<nat> {
    var total := TotalBlocks(info, at);
    Below(FreedBlocks(at, info.mmapAddr, MapEnd(info)), total)
    - Blocks(0, 256)
    - KernelBlocks(kernelStart, kernelEnd, total)
    - (if Bit(info.flags, 3) then AllModuleBlocks(info.mods) else {})
  }

  function MapEnd(info: BootInfo): word { Add32(info.mmapAddr, info.mmapLength) }

  function TotalBlocks(info: BootInfo, at: MemoryMap): (r: nat)
    ensures r <= MAX_BLOCKS
  {
    var ram := HighestEnd(at, info.mmapAddr, MapEnd(info));
    (if ram > 0xFFFF_FFFF then 0xFFFF_FFFF else ram) / 4096
  }

  // The kernel image together with the bitmap placed at its end.
  function KernelBytes(kernelStart: word, kernelEnd: word, total: nat): word
    requires total <= MAX_BLOCKS
  {
    Sub32(Add32(kernelEnd, (total + 31) / 32 * 4), kernelStart)
  }

  ghost function KernelBlocks(kernelStart: word, kernelEnd: word, total: nat): set<nat>
    requires total <= MAX_BLOCKS
  {
    Blocks(kernelStart / 4096, ReserveCount(KernelBytes(kernelStart, kernelEnd, total)))
  }

  method Reset(pmm: FrameAllocator, total: nat)
    requires total <= MAX_BLOCKS
    modifies pmm
    ensures pmm.Valid() && pmm.total == total && pmm.free == {}
    ensures fresh(pmm.bitmap)
  {
    pmm.total := total;
    pmm.bitmap := new word[(total + 31) / 32](_ => 0xFFFF_FFFF);
    pmm.used := total;
    pmm.free := {};
    forall b: nat | b < 32 * pmm.bitmap.Length
      ensures Bit(pmm.bitmap[b / 32], b % 32)
    {
      FullWordBits(pmm.bitmap[b / 32], b % 32);
    }
  }

  // `info` is None when no Multiboot address was passed.
  method Init(pmm: FrameAllocator, info: Option<BootInfo>, at: MemoryMap, kernelStart: word, kernelEnd: word)
    requires pmm.Valid()
    requires info.Some? ==> WalkEnds(at, info.value.mmapAddr, MapEnd(info.value))
    modifies pmm, pmm.bitmap
    ensures pmm.Valid()
    ensures info.None? || !Bit(info.value.flags, 6) ==>
              pmm.free == old(pmm.free) && pmm.total == old(pmm.total) && pmm.bitmap == old(pmm.bitmap)
    ensures info.Some? && Bit(info.value.flags, 6) ==>
              && fresh(pmm.bitmap)
              && pmm.total == TotalBlocks(info.value, at)
              && pmm.free == InitialFree(info.value, at, kernelStart, kernelEnd)
  {
    if info.None? {
      return;
    }
    TestFlag(info.value.flags, 6);
    if And(info.value.flags, MULTIBOOT_INFO_MEM_MAP) == 0 {
      return;
    }
    hide FrameAllocator.Valid, InitialFree, HighestEnd, WalkEnds, And, Bit;
    var ram := DetectRam(at, info.value.mmapAddr, MapEnd(info.value));
    if ram > 0xFFFF_FFFF {
      ram := 0xFFFF_FFFF;
    }
    Reset(pmm, ram / 4096);
    Populate(pmm, info.value, at, kernelStart, kernelEnd);
  }

  // Steps 3 and 4: free what the map declares usable, then take back what must never be allocated.
  method Populate(pmm: FrameAllocator, info: BootInfo, at: MemoryMap, kernelStart: word, kernelEnd: word)
    requires pmm.Valid() && pmm.free == {} && pmm.total == TotalBlocks(info, at)
    requires WalkEnds(at, info.mmapAddr, MapEnd(info))
    modifies pmm`used, pmm`free, pmm.bitmap
    ensures pmm.Valid()
    ensures pmm.free == InitialFree(info, at, kernelStart, kernelEnd)
  {
    hide FrameAllocator.Valid, Blocks, Below, KernelBlocks, TotalBlocks, FreedBlocks, WalkEnds, AllModuleBlocks, And, Bit;
    TestFlag(info.flags, 3);
    FreeUsable(pmm, at, info.mmapAddr, MapEnd(info));
    assert pmm.free == Below(FreedBlocks(at, info.mmapAddr, MapEnd(info)), pmm.total);
    ReserveFixed(pmm, kernelStart, kernelEnd);
    if And(info.flags, MULTIBOOT_INFO_MODS) != 0 {
      ReserveModules(pmm, info.mods);
    }
  }

  method ReserveFixed(pmm: FrameAllocator, kernelStart: word, kernelEnd: word)
    requires pmm.Valid()
    modifies pmm`used, pmm`free, pmm.bitmap
    ensures pmm.Valid()
    ensures pmm.free == old(pmm.free) - Blocks(0, 256) - KernelBlocks(kernelStart, kernelEnd, pmm.total)
  {
    hide Blocks, ClearBlocks, Padded;
    pmm.ReserveRegion(0, 0x10_0000);
    pmm.ReserveRegion(kernelStart, KernelBytes(kernelStart, kernelEnd, pmm.total));
  }

  lemma TestFlag(flags: word, j: nat)
    requires j == 3 || j == 6
    ensures And(flags, if j == 3 then 0x08 else 0x40) != 0 <==> Bit(flags, j)
  {
    assert Pow2(3) == 8;
    assert Pow2(6) == 64;
    TestBit(flags, j);
  }

  // ---------- what the result means ----------

  // The addresses at which the walk meets an entry.
  ghost function Entries(at: MemoryMap, p: nat, end: nat): set<nat>
    decreases end - p
  {
    if p < end then {p} + Entries(at, Next(at, p), end) else {}
  }

  ghost predicate FreedByMap(at: MemoryMap, p: nat, end: nat, b: nat) {
    exists q :: q in Entries(at, p, end) && b in EntryBlocks(at(q))
  }

  lemma {:induction false} FreedBlocksMeaning(at: MemoryMap, p: nat, end: nat, b: nat)
    ensures b in FreedBlocks(at, p, end) <==> FreedByMap(at, p, end, b)
    decreases end - p
  {
    hide EntryBlocks;
    if p < end {
      FreedBlocksMeaning(at, Next(at, p), end, b);
      if b in EntryBlocks(at(p)) {
        assert p in Entries(at, p, end);
      }
    }
  }

  lemma {:induction false} HighestEndBounds(at: MemoryMap, p: nat, end: nat, q: nat)
    requires q in Entries(at, p, end) && at(q).usable
    ensures at(q).End() <= HighestEnd(at, p, end)
    decreases end - p
  {
    if q != p {
      HighestEndBounds(at, Next(at, p), end, q);
    }
  }

  // Some usable entry ends there, or there is none with an end above 0.
  lemma {:induction false} HighestEndAttained(at: MemoryMap, p: nat, end: nat)
    ensures HighestEnd(at, p, end) == 0
         || exists q :: q in Entries(at, p, end) && at(q).usable && at(q).End() == HighestEnd(at, p, end)
    decreases end - p
  {
    if p < end {
      HighestEndAttained(at, Next(at, p), end);
      assert p in Entries(at, p, end);
    }
  }

  lemma {:induction false} ModuleBlocksMeaning(mods: seq<Module>, b: nat)
    ensures b in AllModuleBlocks(mods) <==> exists i :: 0 <= i < |mods| && b in ModuleBlocks(mods[i])
  {
    hide ModuleBlocks;
    if mods != [] {
      var n := |mods| - 1;
      ModuleBlocksMeaning(mods[..n], b);
      if b in AllModuleBlocks(mods[..n]) {
        var i :| 0 <= i < n && b in ModuleBlocks(mods[..n][i]);
        assert mods[i] == mods[..n][i];
      }
      if i :| 0 <= i < n && b in ModuleBlocks(mods[i]) {
        assert mods[i] == mods[..n][i];
      }
    }
  }

  // An entry frees only memory of its own exactly when it lies below 4 GB on a page
  // boundary, or frees nothing: the casts to 32 bits drop the high halves.
  lemma EntryFreesOwnMemoryIff(e: Entry)
    requires e.usable
    ensures (forall b :: b in EntryBlocks(e) ==> Inside(e.Addr(), e.Len(), b))
            <==> e.lenLow < 4096 || (e.addrHigh == 0 && e.addrLow % 4096 == 0)
  {
    var s, n := e.addrLow / 4096, FreeCount(e.lenLow);
    if e.lenLow < 4096 || (e.addrHigh == 0 && e.addrLow % 4096 == 0) {
      forall b | b in EntryBlocks(e)
        ensures Inside(e.Addr(), e.Len(), b)
      {
        assert Covers(s, n, b);
      }
    } else {
      assert Covers(s, n, s) && s in EntryBlocks(e);
      assert !Inside(e.Addr(), e.Len(), s);
    }
  }

  ghost predicate GoodEntry(e: Entry) {
    e.usable ==>
      && e.addrHigh == 0 && e.lenHigh == 0
      && e.addrLow % 4096 == 0
      && e.addrLow + e.lenLow < 0x1_0000_0000
  }

  predicate GoodRegion(start: word, end: word) {
    start <= end && FitsRounded(start, end - start)
  }

  ghost predicate GoodBoot(info: BootInfo, at: MemoryMap, kernelStart: word, kernelEnd: word) {
    var bitmapEnd := kernelEnd + (TotalBlocks(info, at) + 31) / 32 * 4;
    && (forall p :: p in Entries(at, info.mmapAddr, MapEnd(info)) ==> GoodEntry(at(p)))
    && bitmapEnd < 0x1_0000_0000 && GoodRegion(kernelStart, bitmapEnd)
    && forall i :: 0 <= i < |info.mods| ==> GoodRegion(info.mods[i].start, info.mods[i].end)
  }

  // A block that may be handed out: inside usable memory, above the first megabyte,
  // and disjoint from the kernel, its bitmap and every module.
  ghost predicate Allocatable(info: BootInfo, at: MemoryMap, kernelStart: word, kernelEnd: word, b: nat) {
    && (exists p :: p in Entries(at, info.mmapAddr, MapEnd(info)) && at(p).usable && Inside(at(p).Addr(), at(p).Len(), b))
    && 0x10_0000 <= 4096 * b
    && !Touches(kernelStart, kernelEnd + (TotalBlocks(info, at) + 31) / 32 * 4 - kernelStart, b)
    && (Bit(info.flags, 3) ==>
          forall i :: 0 <= i < |info.mods| ==> !Touches(info.mods[i].start, info.mods[i].end - info.mods[i].start, b))
  }

  lemma GoodEntryBlocks(e: Entry, b: nat)
    requires GoodEntry(e)
    ensures b in EntryBlocks(e) <==> e.usable && Inside(e.Addr(), e.Len(), b)
  {
    if e.usable {
      FreeRegionExactIff(e.addrLow, e.lenLow);
    }
  }

  lemma GoodRegionBlocks(start: word, end: word, b: nat)
    requires GoodRegion(start, end)
    ensures b in Blocks(start / 4096, ReserveCount(Sub32(end, start))) <==> Touches(start, end - start, b)
  {
    ReserveRegionExactIff(start, end - start);
  }

  lemma UsableBelowTotal(info: BootInfo, at: MemoryMap, p: nat, b: nat)
    requires p in Entries(at, info.mmapAddr, MapEnd(info))
    requires GoodEntry(at(p)) && at(p).usable && Inside(at(p).Addr(), at(p).Len(), b)
    ensures b < TotalBlocks(info, at)
  {
    HighestEndBounds(at, info.mmapAddr, MapEnd(info), p);
  }

  lemma FreedExactly(info: BootInfo, at: MemoryMap, b: nat)
    requires forall p :: p in Entries(at, info.mmapAddr, MapEnd(info)) ==> GoodEntry(at(p))
    ensures b in Below(FreedBlocks(at, info.mmapAddr, MapEnd(info)), TotalBlocks(info, at))
       <==> exists p :: p in Entries(at, info.mmapAddr, MapEnd(info)) && at(p).usable && Inside(at(p).Addr(), at(p).Len(), b)
  {
    hide Entries, EntryBlocks, FreedBlocks, TotalBlocks, Inside, GoodEntry;
    var start, end := info.mmapAddr, MapEnd(info);
    FreedBlocksMeaning(at, start, end, b);
    if p :| p in Entries(at, start, end) && at(p).usable && Inside(at(p).Addr(), at(p).Len(), b) {
      GoodEntryBlocks(at(p), b);
      UsableBelowTotal(info, at, p, b);
    }
    if FreedByMap(at, start, end, b) {
      var q :| q in Entries(at, start, end) && b in EntryBlocks(at(q));
      GoodEntryBlocks(at(q), b);
    }
  }

  // After initialisation the free set is exactly the allocatable blocks.
  lemma InitialFreeExact(info: BootInfo, at: MemoryMap, kernelStart: word, kernelEnd: word, b: nat)
    requires GoodBoot(info, at, kernelStart, kernelEnd)
    ensures b in InitialFree(info, at, kernelStart, kernelEnd) <==> Allocatable(info, at, kernelStart, kernelEnd, b)
  {
    hide Entries, FreedBlocks, TotalBlocks, ReserveCount, Inside, Touches, GoodEntry, GoodRegion, Below, Bit;
    var bitmapEnd := kernelEnd + (TotalBlocks(info, at) + 31) / 32 * 4;
    FreedExactly(info, at, b);
    GoodRegionBlocks(kernelStart, bitmapEnd, b);
    ModuleBlocksMeaning(info.mods, b);
    forall i | 0 <= i < |info.mods|
      ensures b in ModuleBlocks(info.mods[i]) <==>
              Touches(info.mods[i].start, info.mods[i].end - info.mods[i].start, b)
    {
      GoodRegionBlocks(info.mods[i].start, info.mods[i].end, b);
    }
    assert b in Blocks(0, 256) <==> Covers(0, 256, b);
  }
}
