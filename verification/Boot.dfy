/**
  Boot, up to the state the loader starts from (src/kernel.c calls `pmm_init`, then
  `vmm_init`): the modules, and with them the archive, are reserved, identity-mapped and
  hold neither directory nor table.
 */
module Boot {
  import opened Words
  import opened Frames
  import opened FrameRuns
  import opened BootMap
  import opened BitmapRam
  import opened BootFormat
  import opened Paging
  import opened IdentityMap
  import opened VirtualMemory
  import opened ElfPages
  import opened Bytes
  import opened ElfImage
  import opened ElfTheorems
  import opened MemoryUsers
  import TaskContexts
  import SchedulerRuns
  import ContextSwitch

  // ---------- vmm_init leaves frames in use alone ----------

  lemma EmptyUntabled(s: Mem, g: nat)
    requires s.free != {} && FramesOwned(s, {}) && g !in s.free
    ensures
      var d := Lowest(s.free);
      Untabled(EmptySpace(s).words, {d}, g) && FrameSame(s.words, EmptySpace(s).words, g)
  {
    EmptySpaceOwned(s);
    ZeroedMeaning(s.words, Lowest(s.free));
    hide Word, Zeroed;
  }

  // A frame in use is neither made a table nor written to while RAM is being mapped.
  lemma {:induction false} MapUpToUntabled(s: Mem, d: nat, k: nat, g: nat)
    requires Built(s, s, d, 0) && k <= PAGES && MapUpTo(s, d, k).Some?
    requires g !in s.free && Untabled(s.words, {d}, g)
    ensures Untabled(MapUpTo(s, d, k).value.words, {d}, g) && FrameSame(s.words, MapUpTo(s, d, k).value.words, g)
  {
    hide Word, Untabled, MapPage, DirectoryEntry;
    if k > 0 {
      MapUpToUntabled(s, d, k - 1, g);
      MapUpToBuilds(s, d, k - 1);
      var s1 := MapUpTo(s, d, k - 1).value;
      assert Owned(s1, {d}) && g !in s1.free by { hide Walk, HasTable, Owned; }
      MapKeepsUntabled(s1, {d}, d, k - 1, DirectoryEntry(k - 1), g);
    }
  }

  lemma InitLeavesAlone(s: Mem, n: nat, g: nat)
    requires s.free != {} && FramesOwned(s, {}) && n <= PAGES && g !in s.free
    requires MapUpTo(EmptySpace(s), Lowest(s.free), n).Some?
    ensures
      var d := Lowest(s.free);
      var m' := MapUpTo(EmptySpace(s), d, n).value.words;
      Untabled(m', {d}, g) && FrameSame(s.words, m', g)
  {
    var d, s0 := Lowest(s.free), EmptySpace(s);
    EmptySpaceOwned(s);
    EmptyUntabled(s, g);
    assert Built(s0, s0, d, 0);
    hide Word, Untabled, MapUpTo, EmptySpace, Built;
    assert s0.free <= s.free by { EmptyFree(s); }
    MapUpToUntabled(s0, d, n, g);
  }

  lemma EmptyFree(s: Mem)
    requires s.free != {}
    ensures EmptySpace(s).free <= s.free && EmptySpace(s).free == s.free - {Lowest(s.free)}
  {
  }

  // ---------- the setting of a load ----------

  // The bytes of the bitmap behind the kernel image.
  function Own(info: BootInfo, at: MemoryMap, kernelEnd: word): Span {
    BitmapSpan(kernelEnd, TotalBlocks(info, at))
  }

  // The file lies in module `i`, and that module in tracked RAM and clear of the bitmap.
  ghost predicate InModule(info: BootInfo, at: MemoryMap, kernelEnd: word, file: File, i: nat) {
    && Bit(info.flags, 3) && i < |info.mods| && info.mods[i].start < info.mods[i].end
    && info.mods[i].start <= file.impl && file.impl + file.length <= info.mods[i].end
    && info.mods[i].end <= 4096 * TotalBlocks(info, at)
    && Clear(Span(info.mods[i].start, info.mods[i].end), Own(info, at, kernelEnd))
  }

  // The archive is reserved: none of its blocks is ever handed out.
  lemma ModuleReserved(info: BootInfo, at: MemoryMap, kernelStart: word, kernelEnd: word, file: File, i: nat, p: nat)
    requires GoodBoot(info, at, kernelStart, kernelEnd) && InModule(info, at, kernelEnd, file, i) && FileFrame(file, p)
    ensures p !in InitialFree(info, at, kernelStart, kernelEnd)
  {
    hide InitialFree, Bit, GoodBoot, TotalBlocks;
    InitialFreeExact(info, at, kernelStart, kernelEnd, p);
    assert Touches(info.mods[i].start, info.mods[i].end - info.mods[i].start, p);
  }

  lemma InitialFreeTracked(info: BootInfo, at: MemoryMap, kernelStart: word, kernelEnd: word, b: nat)
    requires b in InitialFree(info, at, kernelStart, kernelEnd)
    ensures b < TotalBlocks(info, at) && b != 0
  {
    hide FreedBlocks, TotalBlocks;
    assert Covers(0, 256, 0);
  }

  // Memory at `vmm_init`: after `pmm_init`, some of the free blocks may have been taken.
  ghost predicate Booted(info: BootInfo, at: MemoryMap, kernelStart: word, kernelEnd: word, s: Mem) {
    && GoodBoot(info, at, kernelStart, kernelEnd) && |s.words| == 1024 * TotalBlocks(info, at)
    && s.free <= InitialFree(info, at, kernelStart, kernelEnd)
    && s.free != {} && MapUpTo(EmptySpace(s), Lowest(s.free), TotalBlocks(info, at)).Some?
    && kernelStart <= kernelEnd && Own(info, at, kernelEnd).to <= 4096 * TotalBlocks(info, at)
  }

  // From the boot information to the state the loader needs: after `pmm_init` and
  // `vmm_init` a file inside a module can be loaded, and its bytes are those that were
  // there before.
  lemma BootMakesSetting(info: BootInfo, at: MemoryMap, kernelStart: word, kernelEnd: word, s: Mem, file: File, i: nat)
    requires Booted(info, at, kernelStart, kernelEnd, s) && InModule(info, at, kernelEnd, file, i)
    ensures
      var d, n := Lowest(s.free), TotalBlocks(info, at);
      var s' := MapUpTo(EmptySpace(s), d, n).value;
      && Setting(s', {d}, d, file, n, Own(info, at, kernelEnd))
      && forall k: nat :: k < file.length ==> FileByte(s'.words, file, k) == FileByte(s.words, file, k)
  {
    hide InitialFree, MapUpTo, EmptySpace, GoodBoot, Walk, Word, Owned, Untabled, TotalBlocks, Bit, FrameSame, Byte;
    var n := TotalBlocks(info, at);
    forall b | b in s.free
      ensures InRam(s.words, b)
    {
      InitialFreeTracked(info, at, kernelStart, kernelEnd, b);
    }
    InitBuildsIdentity(s, n);
    SizeKept(s, n);
    var s', own := MapUpTo(EmptySpace(s), Lowest(s.free), n).value, Own(info, at, kernelEnd);
    forall p: nat | FileFrame(file, p)
      ensures p !in s'.free && Untabled(s'.words, {Lowest(s.free)}, p) && FrameSame(s.words, s'.words, p)
    {
      ModuleReserved(info, at, kernelStart, kernelEnd, file, i, p);
      InitLeavesAlone(s, n, p);
    }
    forall g: nat | FrameOf(own, g)
      ensures g !in s'.free && Untabled(s'.words, {Lowest(s.free)}, g)
    {
      KernelReserved(info, at, kernelStart, kernelEnd, g);
      InitLeavesAlone(s, n, g);
    }
    forall k: nat | k < file.length
      ensures FileByte(s'.words, file, k) == FileByte(s.words, file, k)
    {
      BytesInFrame(s.words, s'.words, file, k);
    }
  }

  // ---------- the boot stack ----------

  // The kernel image and the bitmap behind it are never handed out either.
  lemma KernelReserved(info: BootInfo, at: MemoryMap, kernelStart: word, kernelEnd: word, p: nat)
    requires GoodBoot(info, at, kernelStart, kernelEnd)
    requires kernelStart < 4096 * p + 4096 && 4096 * p < Own(info, at, kernelEnd).to && kernelStart < Own(info, at, kernelEnd).to
    ensures p !in InitialFree(info, at, kernelStart, kernelEnd)
  {
    hide InitialFree, Bit, GoodBoot, TotalBlocks;
    InitialFreeExact(info, at, kernelStart, kernelEnd, p);
  }

  // With the boot stack inside the kernel image, the state after `scheduler_init` is one
  // from which every run keeps its contexts.
  lemma BootMakesInv(info: BootInfo, at: MemoryMap, kernelStart: word, kernelEnd: word, s: Mem,
                     b: TaskContexts.Boot, regs: ContextSwitch.Regs, tss: word)
    requires Booted(info, at, kernelStart, kernelEnd, s)
    requires kernelStart <= 4 * b.low < 4 * b.top <= kernelEnd && b.top <= |s.words|
    ensures
      var d := Lowest(s.free);
      var mem := MapUpTo(EmptySpace(s), d, TotalBlocks(info, at)).value;
      && d < PAGES && (forall g: nat :: TaskContexts.Overlaps(b.low, b.top, g) ==> InUse(mem, {d}, g))
      && TaskContexts.Inv(b, TaskContexts.Kernel(mem, {d}, SchedulerRuns.InitialSched(4096 * d), regs, 4096 * d, 4096 * d, tss, map[]))
  {
    hide InitialFree, MapUpTo, EmptySpace, GoodBoot, Walk, Word, Untabled, TotalBlocks, FrameSame, Bit;
    var n := TotalBlocks(info, at);
    forall x | x in s.free
      ensures InRam(s.words, x) && x != 0
    {
      InitialFreeTracked(info, at, kernelStart, kernelEnd, x);
    }
    InitBuildsIdentity(s, n);
    var d := Lowest(s.free);
    var mem := MapUpTo(EmptySpace(s), d, n).value;
    forall g: nat | TaskContexts.Overlaps(b.low, b.top, g)
      ensures g !in mem.free && Untabled(mem.words, {d}, g)
    {
      KernelReserved(info, at, kernelStart, kernelEnd, g);
      InitLeavesAlone(s, n, g);
    }
    SizeKept(s, n);
    TaskContexts.InitialInv(b, mem, {d}, d, regs, tss);
  }

  lemma {:induction false} MapUpToSize(s: Mem, d: nat, k: nat)
    requires MapUpTo(s, d, k).Some?
    ensures |MapUpTo(s, d, k).value.words| == |s.words|
  {
    hide MapPage, DirectoryEntry;
    if k > 0 {
      MapUpToSize(s, d, k - 1);
      MapSize(MapUpTo(s, d, k - 1).value, d, k - 1, DirectoryEntry(k - 1));
    }
  }

  lemma SizeKept(s: Mem, n: nat)
    requires s.free != {} && MapUpTo(EmptySpace(s), Lowest(s.free), n).Some?
    ensures |MapUpTo(EmptySpace(s), Lowest(s.free), n).value.words| == |s.words|
  {
    MapUpToSize(EmptySpace(s), Lowest(s.free), n);
  }

  // ---------- the frames that are left ----------

  // `after` is `before` without its `n` lowest blocks.
  ghost predicate LowestTaken(before: set<nat>, after: set<nat>, n: nat) {
    && after <= before && |before| == |after| + n
    && forall x, y :: x in before && x !in after && y in after ==> x < y
  }

  lemma TakeLowest(before: set<nat>, after: set<nat>, n: nat)
    requires LowestTaken(before, after, n) && after != {}
    ensures LowestTaken(before, after - {Lowest(after)}, n + 1)
  {
  }

  // Mapping RAM takes the lowest frames.
  lemma {:induction false} MapUpToTakesLowest(s: Mem, d: nat, k: nat)
    requires Built(s, s, d, 0) && k <= PAGES && MapUpTo(s, d, k).Some?
    ensures LowestTaken(s.free, MapUpTo(s, d, k).value.free, Tables(k))
  {
    hide Built, MapPage, LowestTaken, DirectoryEntry, HasTable;
    if k == 0 {
      assert LowestTaken(s.free, s.free, 0) by { NoneTaken(s.free); }
    } else {
      MapUpToTakesLowest(s, d, k - 1);
      var s1 := MapUpTo(s, d, k - 1).value;
      MapTakes(s1, d, k - 1, DirectoryEntry(k - 1));
      TablesStep(k - 1);
      MapUpToBuilds(s, d, k - 1);
      BuiltTable(s, s1, d, k - 1);
      if !HasTable(s1.words, d, (k - 1) / 1024) {
        TakeLowest(s.free, s1.free, Tables(k - 1));
      }
    }
  }

  lemma NoneTaken(s: set<nat>)
    ensures LowestTaken(s, s, 0)
  {
  }

  lemma BuiltTable(s: Mem, s': Mem, d: nat, k: nat)
    requires Built(s, s', d, k) && k < PAGES
    ensures HasTable(s'.words, d, k / 1024) <==> k / 1024 < Tables(k)
  {
    hide HasTable, Walk, Owned, Tables;
  }

  // So `vmm_init` takes the lowest 1 + ceil(n / 1024) of the free frames.
  lemma InitTakesLowest(s: Mem, n: nat)
    requires s.free != {} && FramesOwned(s, {}) && n <= PAGES
    requires MapUpTo(EmptySpace(s), Lowest(s.free), n).Some?
    ensures LowestTaken(s.free, MapUpTo(EmptySpace(s), Lowest(s.free), n).value.free, 1 + Tables(n))
  {
    var d, s0 := Lowest(s.free), EmptySpace(s);
    EmptySpaceOwned(s);
    assert Built(s0, s0, d, 0);
    hide MapUpTo, Built, FramesOwned, Tables;
    NoneTaken(s.free);
    TakeLowest(s.free, s.free, 0);
    assert s0.free == s.free - {d} by { EmptyFree(s); }
    MapUpToTakesLowest(s0, d, n);
    var after := MapUpTo(s0, d, n).value.free;
    forall x, y | x in s.free && x !in after && y in after
      ensures x < y
    {
      assert y in s0.free;
    }
  }

  lemma InitSucceedsIff(s: Mem, n: nat)
    requires FramesOwned(s, {}) && n <= PAGES
    ensures (s.free != {} && MapUpTo(EmptySpace(s), Lowest(s.free), n).Some?) <==> |s.free| >= 1 + Tables(n)
  {
    hide MapUpTo, EmptySpace, Owned, Walk, Identity, FramesOwned, Tables;
    if s.free != {} {
      InitBuildsIdentity(s, n);
    }
  }

  // The free blocks of the encoded records.
  ghost function FreeBlocks(b: BootRecords, kernelStart: word, kernelEnd: word): set<nat> {
    set x: nat | x < Tracked(b) && FreeBlock(b, kernelStart, kernelEnd, x)
  }

  lemma FreeBlocksAre(m: Memory, mbi: nat, b: BootRecords, kernelStart: word, kernelEnd: word)
    requires HoldsBoot(m, mbi, b) && GoodRecords(b, kernelStart, kernelEnd)
    ensures InitialFree(InfoIn(m, mbi), MapIn(m), kernelStart, kernelEnd) == FreeBlocks(b, kernelStart, kernelEnd)
    ensures TotalBlocks(InfoIn(m, mbi), MapIn(m)) == Tracked(b)
  {
    hide InitialFree, InfoIn, MapIn, HoldsBoot, GoodRecords, FreeBlock, TotalBlocks, Tracked, GoodBoot, BootMap.WalkEnds;
    RecordsGood(m, mbi, b, kernelStart, kernelEnd);
    forall x: nat
      ensures x in InitialFree(InfoIn(m, mbi), MapIn(m), kernelStart, kernelEnd) <==> x in FreeBlocks(b, kernelStart, kernelEnd)
    {
      FreeFromRecords(m, mbi, b, kernelStart, kernelEnd, x);
      if FreeBlock(b, kernelStart, kernelEnd, x) {
        InitialFreeTracked(InfoIn(m, mbi), MapIn(m), kernelStart, kernelEnd, x);
      }
    }
  }

  // ---------- the calls ----------

  // `pmm_init` on the RAM the boot loader left, with its information at `mbi`. It leaves its
  // bitmap in RAM; what it reads after that is what it read before (InfoSurvives).
  method InitFrames(memory: Memory, mbi: word, kernelStart: word, kernelEnd: word) returns (pmm: FrameAllocator, ram: Memory)
    requires BootRam(memory, mbi, kernelStart, kernelEnd)
    ensures pmm.Valid() && fresh(pmm) && fresh(pmm.bitmap) && |ram| == |memory| && 0 !in pmm.free
    ensures
      var info, at := InfoIn(memory, mbi), MapIn(memory);
      pmm.total == TotalBlocks(info, at) && pmm.free == InitialFree(info, at, kernelStart, kernelEnd)
    ensures ram == PutBytes(memory, kernelEnd, BytesOf(pmm.bitmap[..]))
    ensures Own(InfoIn(memory, mbi), MapIn(memory), kernelEnd) == Span(kernelEnd, kernelEnd + |BytesOf(pmm.bitmap[..])|)
  {
    hide FrameAllocator.Valid, InitialFree, GoodBoot, TotalBlocks, Bit, BootMap.WalkEnds, InfoIn, MapIn, PutBytes, BytesOf, Own, InfoClear;
    var info, at := InfoIn(memory, mbi), MapIn(memory);
    pmm := new FrameAllocator();
    BootMap.Init(pmm, Some(info), at, kernelStart, kernelEnd);
    if 0 in pmm.free {
      InitialFreeTracked(info, at, kernelStart, kernelEnd, 0);
      assert false;
    }
    BitmapFills(pmm, info, at, kernelEnd);
    PutSize(memory, kernelEnd, BytesOf(pmm.bitmap[..]));
    ram := PutBytes(memory, kernelEnd, BytesOf(pmm.bitmap[..]));
  }

  lemma PutSize(m: Memory, at: nat, data: seq<byte>)
    requires |m| % 1024 == 0 && at + |data| <= 4 * |m|
    ensures |PutBytes(m, at, data)| == |m|
  {
    PutMeaning(m, at, data, 0);
  }

  // `pmm_init`, then `vmm_init`; `ok == false` is the halt in the second. If the information is
  // an encoding of records `b`, the frames left free are the free blocks of these records but
  // for the lowest ones, which hold the directory and its tables.
  method Start(memory: Memory, mbi: word, kernelStart: word, kernelEnd: word, ghost file: File, ghost i: nat, ghost b: BootRecords)
    returns (k: Machine, ok: bool)
    requires BootRam(memory, mbi, kernelStart, kernelEnd)
    requires InModule(InfoIn(memory, mbi), MapIn(memory), kernelEnd, file, i)
    ensures k.Valid()
    ensures
      var info, at := InfoIn(memory, mbi), MapIn(memory);
      ok ==>
        && Setting(k.View(), {k.directory}, k.directory, file, TotalBlocks(info, at), Own(info, at, kernelEnd))
        && k.cr3 == k.directory
        && forall x: nat :: x < file.length ==> FileByte(k.ram, file, x) == FileByte(memory, file, x)
    ensures HoldsBoot(memory, mbi, b) && GoodRecords(b, kernelStart, kernelEnd) ==>
              && k.pmm.total == Tracked(b)
              && (ok <==> |FreeBlocks(b, kernelStart, kernelEnd)| >= 1 + Tables(Tracked(b)))
              && (ok ==> LowestTaken(FreeBlocks(b, kernelStart, kernelEnd), k.pmm.free, 1 + Tables(Tracked(b))))
  {
    hide FrameAllocator.Valid, InitialFree, MapUpTo, EmptySpace, BootRam, InModule, Setting, TotalBlocks, InfoIn, MapIn, PutBytes, BytesOf,
         Own, FileByte, HoldsBoot, GoodRecords, Tracked, FreeBlocks, Tables, LowestTaken, FramesOwned, Machine.Ready;
    assert |memory| == 1024 * TotalBlocks(InfoIn(memory, mbi), MapIn(memory)) by { BootRamSize(memory, mbi, kernelStart, kernelEnd); }
    var pmm, ram := InitFrames(memory, mbi, kernelStart, kernelEnd);
    ghost var data := BytesOf(pmm.bitmap[..]);
    k := new Machine(pmm, ram);
    ghost var before := k.View();
    k.FramesInRam();
    ok := k.Init();
    Started(memory, mbi, kernelStart, kernelEnd, file, i, b, before, data, ok, k.View());
  }

  lemma BootRamSize(memory: Memory, mbi: word, kernelStart: word, kernelEnd: word)
    requires BootRam(memory, mbi, kernelStart, kernelEnd)
    ensures |memory| == 1024 * TotalBlocks(InfoIn(memory, mbi), MapIn(memory))
  {
  }

  // What the two calls amount to, `before` and `after` being memory before and after the second.
  lemma Started(memory: Memory, mbi: word, kernelStart: word, kernelEnd: word, file: File, i: nat, b: BootRecords,
                before: Mem, data: seq<byte>, ok: bool, after: Mem)
    requires BootRam(memory, mbi, kernelStart, kernelEnd) && FramesOwned(before, {})
    requires
      var info, at := InfoIn(memory, mbi), MapIn(memory);
      && InModule(info, at, kernelEnd, file, i) && Own(info, at, kernelEnd) == Span(kernelEnd, kernelEnd + |data|)
      && before == Mem(PutBytes(memory, kernelEnd, data), InitialFree(info, at, kernelStart, kernelEnd))
      && |before.words| == |memory|
      && (ok <==> before.free != {} && MapUpTo(EmptySpace(before), Lowest(before.free), TotalBlocks(info, at)).Some?)
      && (ok ==> Some(after) == MapUpTo(EmptySpace(before), Lowest(before.free), TotalBlocks(info, at)))
    ensures
      var info, at := InfoIn(memory, mbi), MapIn(memory);
      ok ==>
        && before.free != {}
        && Setting(after, {Lowest(before.free)}, Lowest(before.free), file, TotalBlocks(info, at), Own(info, at, kernelEnd))
        && forall x: nat :: x < file.length ==> FileByte(after.words, file, x) == FileByte(memory, file, x)
    ensures HoldsBoot(memory, mbi, b) && GoodRecords(b, kernelStart, kernelEnd) ==>
              && TotalBlocks(InfoIn(memory, mbi), MapIn(memory)) == Tracked(b)
              && (ok <==> |FreeBlocks(b, kernelStart, kernelEnd)| >= 1 + Tables(Tracked(b)))
              && (ok ==> LowestTaken(FreeBlocks(b, kernelStart, kernelEnd), after.free, 1 + Tables(Tracked(b))))
  {
    hide InitialFree, MapUpTo, EmptySpace, GoodBoot, InModule, Setting, TotalBlocks, InfoIn, MapIn, PutBytes, Bit, BootMap.WalkEnds, InfoClear,
         Own, FileByte, HoldsBoot, GoodRecords, Tracked, FreeBlocks, Tables, LowestTaken, FramesOwned;
    var info, at := InfoIn(memory, mbi), MapIn(memory);
    InitSucceedsIff(before, TotalBlocks(info, at));
    BitmapWritten(memory, mbi, kernelStart, kernelEnd, data, file, i);
    if ok {
      BootMakesSetting(info, at, kernelStart, kernelEnd, before, file, i);
      InitTakesLowest(before, TotalBlocks(info, at));
    }
    if HoldsBoot(memory, mbi, b) && GoodRecords(b, kernelStart, kernelEnd) {
      FreeBlocksAre(memory, mbi, b, kernelStart, kernelEnd);
    }
  }

  // RAM at boot: a well-formed map that the bitmap does not overwrite.
  ghost predicate BootRam(memory: Memory, mbi: word, kernelStart: word, kernelEnd: word) {
    var info, at := InfoIn(memory, mbi), MapIn(memory);
    && BootMap.WalkEnds(at, info.mmapAddr, MapEnd(info)) && Bit(info.flags, 6)
    && GoodBoot(info, at, kernelStart, kernelEnd) && kernelStart <= kernelEnd
    && |memory| == 1024 * TotalBlocks(info, at) && Own(info, at, kernelEnd).to <= 4096 * TotalBlocks(info, at)
    && InfoClear(memory, mbi, Own(info, at, kernelEnd))
  }

  lemma BitmapFills(pmm: FrameAllocator, info: BootInfo, at: MemoryMap, kernelEnd: word)
    requires pmm.Valid() && pmm.total == TotalBlocks(info, at)
    ensures kernelEnd + |BytesOf(pmm.bitmap[..])| == Own(info, at, kernelEnd).to && Own(info, at, kernelEnd).from == kernelEnd
  {
    hide TotalBlocks, BytesOf;
  }

  // With the bitmap written, the boot information reads as before and the file is intact.
  lemma BitmapWritten(memory: Memory, mbi: word, kernelStart: word, kernelEnd: word, data: seq<byte>, file: File, i: nat)
    requires BootRam(memory, mbi, kernelStart, kernelEnd)
    requires
      var info, at := InfoIn(memory, mbi), MapIn(memory);
      && InModule(info, at, kernelEnd, file, i)
      && Own(info, at, kernelEnd) == Span(kernelEnd, kernelEnd + |data|)
    ensures
      var m', info, at := PutBytes(memory, kernelEnd, data), InfoIn(memory, mbi), MapIn(memory);
      && |m'| == |memory| && InfoIn(m', mbi) == info
      && FreedBlocks(MapIn(m'), info.mmapAddr, MapEnd(info)) == FreedBlocks(at, info.mmapAddr, MapEnd(info))
      && forall x: nat :: x < file.length ==> FileByte(m', file, x) == FileByte(memory, file, x)
  {
    hide InfoIn, MapIn, PutBytes, GoodBoot, TotalBlocks, Bit, FreedBlocks, Byte, BootMap.WalkEnds, InfoClear;
    PutMeaning(memory, kernelEnd, data, 0);
    InfoSurvives(memory, mbi, kernelEnd, data);
    forall x: nat | x < file.length
      ensures FileByte(PutBytes(memory, kernelEnd, data), file, x) == FileByte(memory, file, x)
    {
      PutMeaning(memory, kernelEnd, data, file.impl + x);
    }
  }
}
