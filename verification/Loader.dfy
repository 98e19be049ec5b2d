/**
  `elf_load` as it runs (src/elf.c): nested loops over program headers and pages, the
  switch of CR3 with interrupts off, the 64-entry block list, and the cleanup.
 */
module Loader {
  import opened Words
  import opened Frames
  import opened Paging
  import opened IdentityMap
  import opened Bytes
  import opened ElfPages
  import opened ElfImage
  import opened Elf
  import opened VirtualMemory

  // Loaded is the code's 0, Refused its -1, Stuck its halt loop.
  datatype Code = Loaded | Refused | Stuck

  // Frame `d` is RAM that was handed out.
  ghost predicate Held(k: Machine, d: nat)
    reads k, k.pmm
  {
    d < k.pmm.total && d !in k.pmm.free
  }

  lemma HeldReady(k: Machine)
    requires k.Valid() && Held(k, k.directory)
    ensures k.Ready()
  {
    k.FramesInRam();
  }

  // The list of blocks to give back: the first 64 of all that were allocated.
  ghost predicate Tracks(list: array<nat>, count: nat, blocks: seq<nat>)
    reads list
  {
    && list.Length == MAX_SEGMENT_BLOCKS
    && count == (if |blocks| < MAX_SEGMENT_BLOCKS then |blocks| else MAX_SEGMENT_BLOCKS)
    && forall i :: 0 <= i < count ==> list[i] == blocks[i]
  }

  ghost predicate InUse(total: nat, blocks: seq<nat>) {
    forall i :: 0 <= i < |blocks| ==> 0 < blocks[i] < total
  }

  // The machine and the block list are where the specified progress says.
  ghost predicate Follows(k: Machine, list: array<nat>, count: nat, code: Code, r: Progress)
    reads k, k.pmm, list
  {
    && (r.Stopped? <==> code == Stuck)
    && (r.Going? <==> code == Loaded)
    && (!r.Stopped? ==> k.View() == r.load.mem && Tracks(list, count, r.load.blocks) && InUse(k.pmm.total, r.load.blocks))
  }

  method CopyLoop(k: Machine, dst: nat, src: nat, n: nat)
    modifies k`ram
    ensures k.ram == CopyBytes(old(k.ram), k.directory, dst, src, n)
  {
    hide SetByteAt, ByteAt;
    for i := 0 to n
      invariant k.ram == CopyBytes(old(k.ram), k.directory, dst, src, i)
    {
      k.ram := SetByteAt(k.ram, k.directory, dst + i, ByteAt(k.ram, k.directory, src + i));
    }
  }

  // One page of a segment: allocate, track, map, clear.
  method PageStep(k: Machine, p: nat, list: array<nat>, count: nat, ghost l: Load)
    returns (code: Code, count': nat)
    requires k.Ready() && k.View() == l.mem && p < PAGES
    requires Tracks(list, count, l.blocks) && InUse(k.pmm.total, l.blocks) && (list as object) != k.pmm.bitmap
    modifies k`ram, k`tlb, k.pmm`used, k.pmm`free, k.pmm.bitmap, list
    ensures k.Valid() && (code != Stuck ==> k.pmm.free <= old(k.pmm.free))
    ensures Follows(k, list, count', code, LoadPage(l, k.directory, p))
  {
    hide FrameAllocator.Valid, MapPage, Or, ZeroAt;
    count' := count;
    var frame := k.AllocFrame();
    if frame.None? {
      return Refused, count;
    }
    var f := frame.value;
    FrameInUse(k, old(k.pmm.free), f);
    if count < MAX_SEGMENT_BLOCKS {
      list[count] := f;
      count' := count + 1;
    }
    SevenIsFlags(f);
    HeldReady(k);
    MapTakes(k.View(), k.directory, p, DirectoryEntry(f));
    var ok := k.Map(4096 * f, 4096 * p, Or(Or(PRESENT, WRITE), USER));
    if !ok {
      return Stuck, count';
    }
    ZeroAtSize(k.ram, k.directory, p);
    k.ram := ZeroAt(k.ram, k.directory, p);
    code := Loaded;
  }

  lemma FrameInUse(k: Machine, free: set<nat>, f: nat)
    requires k.Valid() && f in free && 0 !in free && forall b :: b in free ==> b < k.pmm.total
    ensures 0 < f < k.pmm.total
  {
  }

  lemma ZeroAtSize(m: Memory, d: nat, p: nat)
    ensures |ZeroAt(m, d, p)| == |m|
  {
  }

  method PagesLoop(k: Machine, first: nat, n: nat, list: array<nat>, count: nat, ghost l: Load)
    returns (code: Code, count': nat)
    requires k.Ready() && k.View() == l.mem && first + n <= PAGES
    requires Tracks(list, count, l.blocks) && InUse(k.pmm.total, l.blocks) && (list as object) != k.pmm.bitmap
    modifies k`ram, k`tlb, k.pmm`used, k.pmm`free, k.pmm.bitmap, list
    ensures k.Valid() && (code != Stuck ==> k.pmm.free <= old(k.pmm.free))
    ensures Follows(k, list, count', code, LoadPages(l, k.directory, first, n))
  {
    hide FrameAllocator.Valid, LoadPage, LoadPages, Tracks, InUse;
    count' := count;
    ghost var c := k.directory;
    ghost var now := l;
    PagesNone(l, c, first);
    for i := 0 to n
      invariant k.Ready() && k.pmm.free <= old(k.pmm.free)
      invariant LoadPages(l, c, first, i) == Going(now)
      invariant k.View() == now.mem && Tracks(list, count', now.blocks) && InUse(k.pmm.total, now.blocks)
    {
      PagesNext(l, c, first, i);
      code, count' := PageStep(k, first + i, list, count', now);
      if code != Loaded {
        PagesEnd(l, c, first, i + 1, n);
        return;
      }
      now := LoadPage(now, c, first + i).load;
      HeldReady(k);
    }
    code := Loaded;
  }

  lemma PagesNone(l: Load, c: nat, first: nat)
    ensures LoadPages(l, c, first, 0) == Going(l)
  {
  }

  lemma PagesNext(l: Load, c: nat, first: nat, n: nat)
    requires LoadPages(l, c, first, n).Going?
    ensures LoadPages(l, c, first, n + 1) == LoadPage(LoadPages(l, c, first, n).load, c, first + n)
  {
  }

  lemma {:induction false} PagesEnd(l: Load, c: nat, first: nat, i: nat, n: nat)
    requires i <= n && !LoadPages(l, c, first, i).Going?
    ensures LoadPages(l, c, first, n) == LoadPages(l, c, first, i)
    decreases n
  {
    hide LoadPage;
    if i < n {
      PagesEnd(l, c, first, i, n - 1);
    }
  }

  // One loadable segment: the window with `proc_pd` active and interrupts off.
  method SegmentStep(k: Machine, c: nat, file: File, h: Header, list: array<nat>, count: nat, ghost l: Load)
    returns (code: Code, count': nat)
    requires k.Ready() && k.cr3 == k.directory && Held(k, c) && k.View() == l.mem
    requires Tracks(list, count, l.blocks) && InUse(k.pmm.total, l.blocks) && (list as object) != k.pmm.bitmap
    modifies k`ram, k`directory, k`cr3, k`tlb, k`interrupts, k.pmm`used, k.pmm`free, k.pmm.bitmap, list
    ensures k.Valid() && (code != Stuck ==> k.pmm.free <= old(k.pmm.free))
    ensures Follows(k, list, count', code, LoadSegment(l, c, file, h))
    ensures code == Stuck ==> !k.interrupts
    ensures code != Stuck ==> k.directory == old(k.directory) && k.cr3 == k.directory && k.interrupts
  {
    hide FrameAllocator.Valid, LoadPages, Tracks, InUse, CopyBytes;
    var oldPd := k.directory;
    k.interrupts := false;
    k.LoadCr3(c);
    HeldReady(k);
    assert h.First() + h.Count() <= PAGES;
    code, count' := PagesLoop(k, h.First(), h.Count(), list, count, l);
    if code == Stuck {
      return;
    }
    if code == Loaded {
      ghost var m1 := k.ram;
      CopyLoop(k, h.vaddr, Add32(file.impl, h.offset), Tar.ReadSize(file.length, h.offset, h.filesz));
      CopySize(m1, c, h.vaddr, Add32(file.impl, h.offset), Tar.ReadSize(file.length, h.offset, h.filesz));
    }
    k.LoadCr3(oldPd);
    k.interrupts := true;
  }

  lemma {:induction false} CopySize(m: Memory, d: nat, dst: nat, src: nat, n: nat)
    ensures |CopyBytes(m, d, dst, src, n)| == |m|
  {
    hide WithByte, ByteOf, Walk;
    if n > 0 {
      CopySize(m, d, dst, src, n - 1);
    }
  }

  method HeadersLoop(k: Machine, c: nat, file: File, e: Ehdr, list: array<nat>, ghost l: Load)
    returns (code: Code, count: nat)
    requires k.Ready() && k.cr3 == k.directory && Held(k, c) && k.View() == l.mem && l.blocks == []
    requires list.Length == MAX_SEGMENT_BLOCKS && (list as object) != k.pmm.bitmap
    modifies k`ram, k`directory, k`cr3, k`tlb, k`interrupts, k.pmm`used, k.pmm`free, k.pmm.bitmap, list
    ensures k.Valid() && (code != Stuck ==> k.pmm.free <= old(k.pmm.free))
    ensures Follows(k, list, count, code, LoadHeaders(l, old(k.directory), c, file, e, e.phnum))
    ensures code != Stuck ==> k.directory == old(k.directory) && k.cr3 == k.directory
  {
    hide FrameAllocator.Valid, LoadSegment, LoadHeaders, ReadPhdr, PhdrOffset, Add32;
    count := 0;
    ghost var kd := k.directory;
    ghost var now := l;
    HeadersNone(l, kd, c, file, e);
    for i := 0 to e.phnum
      invariant k.Ready() && k.cr3 == k.directory == kd && k.pmm.free <= old(k.pmm.free)
      invariant LoadHeaders(l, kd, c, file, e, i) == Going(now)
      invariant k.View() == now.mem && Tracks(list, count, now.blocks) && InUse(k.pmm.total, now.blocks)
    {
      var offset := PhdrOffset(e, i);
      HeadersNext(l, kd, c, file, e, i);
      if Tar.ReadSize(file.length, offset, 32) < 32 {
        HeadersEnd(l, kd, c, file, e, i + 1, e.phnum);
        return Refused, count;
      }
      var h := ReadPhdr(k.ram, k.directory, file, offset);
      if h.kind == PT_LOAD {
        code, count := SegmentStep(k, c, file, h, list, count, now);
        if code != Loaded {
          HeadersEnd(l, kd, c, file, e, i + 1, e.phnum);
          return;
        }
        now := LoadSegment(now, c, file, h).load;
        HeldReady(k);
      }
    }
    code := Loaded;
  }

  lemma HeadersNone(l: Load, kd: nat, c: nat, file: File, e: Ehdr)
    ensures LoadHeaders(l, kd, c, file, e, 0) == Going(l)
  {
  }

  lemma HeadersNext(l: Load, kd: nat, c: nat, file: File, e: Ehdr, i: nat)
    requires LoadHeaders(l, kd, c, file, e, i).Going?
    ensures LoadHeaders(l, kd, c, file, e, i + 1)
         == LoadHeader(LoadHeaders(l, kd, c, file, e, i).load, kd, c, file, PhdrOffset(e, i))
  {
    hide LoadHeader, PhdrOffset;
  }

  lemma {:induction false} HeadersEnd(l: Load, kd: nat, c: nat, file: File, e: Ehdr, i: nat, n: nat)
    requires i <= n && !LoadHeaders(l, kd, c, file, e, i).Going?
    ensures LoadHeaders(l, kd, c, file, e, n) == LoadHeaders(l, kd, c, file, e, i)
    decreases n
  {
    hide LoadHeader, PhdrOffset;
    if i < n {
      HeadersEnd(l, kd, c, file, e, i, n - 1);
    }
  }

  // Gives back the tracked blocks, then the directory.
  method Cleanup(k: Machine, list: array<nat>, count: nat, c: nat, ghost blocks: seq<nat>)
    requires k.Valid() && 0 < c < k.pmm.total
    requires Tracks(list, count, blocks) && InUse(k.pmm.total, blocks) && (list as object) != k.pmm.bitmap
    modifies k.pmm`used, k.pmm`free, k.pmm.bitmap
    ensures k.Valid() && k.pmm.free == old(k.pmm.free) + Tracked(blocks) + {c}
  {
    hide FrameAllocator.Valid;
    ghost var before := k.pmm.free;
    FirstBlocksStep(blocks, 64);
    for i := 0 to count
      invariant k.Valid()
      invariant k.pmm.free == before + FirstBlocks(blocks, i)
    {
      FirstBlocksStep(blocks, i);
      GiveOne(k, list[i]);
    }
    GiveOne(k, c);
  }

  method GiveOne(k: Machine, b: nat)
    requires k.Valid() && 0 < b < k.pmm.total
    modifies k.pmm`used, k.pmm`free, k.pmm.bitmap
    ensures k.Valid() && k.pmm.free == old(k.pmm.free) + {b}
  {
    k.FramesInRam();
    hide FrameAllocator.Valid;
    k.pmm.FreeBlock(4096 * b);
    assert 4096 * b / 4096 == b;
  }

  // `elf_load`; `node` is what the path lookup found.
  method ElfLoad(k: Machine, node: Option<File>) returns (code: Code, entry: word, pd: nat)
    requires k.Ready() && k.cr3 == k.directory
    modifies k`ram, k`directory, k`cr3, k`tlb, k`interrupts, k.pmm`used, k.pmm`free, k.pmm.bitmap
    ensures k.Valid()
    ensures node.None? ==> code == Refused && k.View() == old(k.View())
    ensures node.Some? ==>
              match LoadFile(old(k.View()), old(k.directory), node.value)
              case Rejected => code == Refused && k.View() == old(k.View())
              case Success(mem, start, c) => code == Loaded && k.View() == mem && entry == start && pd == c
              case Failure(mem) => code == Refused && k.View() == mem
              case Halted => code == Stuck
    ensures code != Stuck ==> k.directory == old(k.directory) && k.cr3 == k.directory
  {
    hide FrameAllocator.Valid, LoadHeaders, ReadEhdr, Add32, Copied, Tracks, Tracked;
    code, entry, pd := Refused, 0, 0;
    if node.None? {
      return;
    }
    var file := node.value;
    if Tar.ReadSize(file.length, 0, 52) < 52 {
      return;
    }
    var e := ReadEhdr(k.ram, k.directory, file);
    if e.magic != ELF_MAGIC || e.class_ != 1 || e.machine != 3 || e.kind != 2 {
      return;
    }
    ghost var s, kd := k.View(), k.directory;
    var frame := k.AllocFrame();
    if frame.None? {
      return;
    }
    var c := frame.value;
    FrameInUse(k, s.free, c);
    CopiedSize(k.ram, c, k.directory);
    k.ram := Copied(k.ram, c, k.directory);
    assert k.View() == Start(s, kd).mem;
    HeldReady(k);
    var list := new nat[MAX_SEGMENT_BLOCKS](_ => 0);
    var count;
    code, count := HeadersLoop(k, c, file, e, list, Start(s, kd));
    if code == Loaded {
      entry, pd := e.entry, c;
    } else if code == Refused {
      Cleanup(k, list, count, c, LoadHeaders(Start(s, kd), kd, c, file, e, e.phnum).load.blocks);
    }
  }

  lemma CopiedSize(m: Memory, to: nat, from: nat)
    ensures |Copied(m, to, from)| == |m|
  {
  }
}
