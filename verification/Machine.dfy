/**
  The virtual memory manager as it runs (src/vmm.c): physical memory, the frame
  allocator, `current_page_directory`, CR3 and the translation cache, updated in place.
  A method that reports `ok == false` has reached the code's endless halt loop.
 */
module VirtualMemory {
  import opened Words
  import opened Frames
  import opened Paging
  import opened MemoryRuns
  import opened IdentityMap

  const PRESENT := 1
  const WRITE := 2
  const USER := 4

  class Machine {
    const pmm: FrameAllocator
    var ram: Memory

    // Frame numbers of `current_page_directory` and of the directory in CR3.
    var directory: nat
    var cr3: nat
    var interrupts: bool
    ghost var tlb: map<nat, Translation>

    // The allocator tracks exactly the RAM there is, and block 0 stays reserved.
    ghost predicate Valid()
      reads this, pmm, pmm.bitmap
    {
      pmm.Valid() && |ram| == 1024 * pmm.total && 0 !in pmm.free
    }

    ghost function View(): Mem
      reads this, pmm
    {
      Mem(ram, pmm.free)
    }

    constructor (allocator: FrameAllocator, memory: Memory)
      requires allocator.Valid() && |memory| == 1024 * allocator.total && 0 !in allocator.free
      ensures pmm == allocator && ram == memory && Valid() && View() == Mem(memory, allocator.free)
      ensures tlb == map[] && !interrupts
    {
      pmm := allocator;
      ram := memory;
      directory, cr3 := 0, 0;
      interrupts := false;
      tlb := map[];
    }

    // One frame from the allocator, or none: NULL is never a block.
    method AllocFrame() returns (frame: Option<nat>)
      requires Valid()
      modifies pmm`used, pmm`free, pmm.bitmap
      ensures Valid()
      ensures old(pmm.free) == {} ==> frame.None? && pmm.free == {}
      ensures old(pmm.free) != {} ==>
                frame == Some(Lowest(old(pmm.free))) && pmm.free == old(pmm.free) - {Lowest(old(pmm.free))}
    {
      hide FrameAllocator.Valid;
      var address := pmm.AllocBlock();
      if address == 0 {
        frame := None;
      } else {
        frame := Some(address / 4096);
      }
    }

    lemma FramesInRam()
      requires Valid()
      ensures FramesOwned(View(), {}) && pmm.total <= MAX_BLOCKS
    {
    }

    // `current_page_directory` points to a frame that was handed out.
    ghost predicate Ready()
      reads this, pmm, pmm.bitmap
    {
      Valid() && FramesOwned(View(), {directory})
    }

    // `vmm_map_page`
    method Map(phys: word, virt: word, flags: word) returns (ok: bool)
      requires Ready()
      modifies this`ram, this`tlb, pmm`used, pmm`free, pmm.bitmap
      ensures Valid() && Or(phys, flags) < WORD_SIZE
      ensures MapPage(old(View()), directory, virt / 4096, Or(phys, flags)).None? <==> !ok
      ensures ok ==> MapPage(old(View()), directory, virt / 4096, Or(phys, flags)) == Some(View())
      ensures ok ==> tlb == old(tlb) - {virt / 4096}
    {
      OrWord(phys, flags);
      SplitAddress(virt);
      hide FrameAllocator.Valid, Store, Zeroed, Word, Or, And;
      var pdIndex := virt / 0x40_0000;
      var ptIndex := And(virt / 4096, 0x3FF);
      var pde := Word(ram, directory, pdIndex);
      LowBit(pde);
      ClearLowTwelve(pde);
      var table := And(pde, 0xFFFF_F000) / 4096;
      if And(pde, PRESENT) == 0 {
        var frame := AllocFrame();
        if frame.None? {
          return false;
        }
        table := frame.value;
        InstallTable(pdIndex, table, old(View()));
      }
      StoreSize(ram, table, ptIndex, Or(phys, flags));
      ram := Store(ram, table, ptIndex, Or(phys, flags));
      tlb := tlb - {virt / 4096};
      ok := true;
    }

    // Clears a fresh frame and enters it into the directory.
    method InstallTable(i: nat, t: nat, ghost s: Mem)
      requires i < 1024 && ram == s.words && FramesOwned(s, {directory}) && t in s.free
      modifies this`ram
      ensures ram == InstallFresh(s, directory, i, t).words && |ram| == |s.words|
      ensures TableOf(ram, directory, i) == t
    {
      InstallFreshMeaning(s, {directory}, directory, i, t);
      PackSeven(t);
      DirectoryEntryBits(t);
      ram := Zeroed(ram, t);
      ram := Store(ram, directory, i, Or(Or(Or(4096 * t, PRESENT), WRITE), USER));
    }

    // `vmm_unmap_page`
    method Unmap(virt: word)
      requires Valid()
      modifies this`ram, this`tlb
      ensures Valid() && View() == UnmapPage(old(View()), directory, virt / 4096)
      ensures tlb == if HasTable(old(ram), directory, virt / 4096 / 1024) then old(tlb) - {virt / 4096} else old(tlb)
    {
      SplitAddress(virt);
      hide FrameAllocator.Valid, Store, Word, And;
      var pde := Word(ram, directory, virt / 0x40_0000);
      LowBit(pde);
      if And(pde, PRESENT) != 0 {
        ClearLowTwelve(pde);
        var table := And(pde, 0xFFFF_F000) / 4096;
        StoreSize(ram, table, And(virt / 4096, 0x3FF), 0);
        ram := Store(ram, table, And(virt / 4096, 0x3FF), 0);
        tlb := tlb - {virt / 4096};
      }
    }

    // `page_fault_handler`: the address comes from CR2, the error code from the trap.
    // It returns for faults on pages that are not present, from page 1 on, in user mode or
    // below page 0xC0000, while memory lasts; all others end in a halt loop.
    method PageFault(address: word, err: word) returns (ok: bool)
      requires Ready()
      modifies this`ram, this`tlb, pmm`used, pmm`free, pmm.bitmap
      ensures Valid()
      ensures ok <==>
                && !Bit(err, 0) && 1 <= address / 4096 && (address / 4096 < 0xC_0000 || Bit(err, 2))
                && |old(pmm.free)| >= if HasTable(old(ram), directory, address / 4096 / 1024) then 1 else 2
      ensures ok ==> DemandPage(old(View()), directory, address) == Some(View())
      ensures ok ==> tlb == old(tlb) - {address / 4096}
    {
      hide FrameAllocator.Valid, Word, And, Or, Bit, MapPage, HasTable;
      ResolvableIff(address, err);
      DemandPageIff(View(), directory, address);
      if And(err, 1) == 0 && address >= 0x1000 && !(And(err, 4) == 0 && address >= 0xC000_0000) {
        var frame := AllocFrame();
        if frame.None? {
          return false;
        }
        var page := And(address, 0xFFFF_F000);
        ClearLowTwelve(address);
        FramesInRam();
        assert InRam(ram, frame.value) by { assert frame.value in old(pmm.free); }
        PackSeven(frame.value);
        SevenIsFlags(frame.value);
        ok := Map(4096 * frame.value, page, Or(Or(PRESENT, WRITE), USER));
        return;
      }
      ok := false;
    }

    // Loading CR3 drops every cached translation.
    method LoadCr3(d: nat)
      modifies this`directory, this`cr3, this`tlb
      ensures directory == d && cr3 == d && tlb == map[]
    {
      directory := d;
      cr3 := d;
      tlb := map[];
    }

    // The loop of `vmm_init`.
    method IdentityMapRam() returns (ok: bool)
      requires Ready()
      modifies this`ram, this`tlb, pmm`used, pmm`free, pmm.bitmap
      ensures Valid()
      ensures !ok <==> MapUpTo(old(View()), directory, pmm.total).None?
      ensures ok ==> MapUpTo(old(View()), directory, pmm.total) == Some(View())
    {
      hide FrameAllocator.Valid, Word, MapPage, MapUpTo, Or;
      ghost var s0 := View();
      MapUpToNone(s0, directory);
      for k := 0 to pmm.total
        invariant Ready()
        invariant MapUpTo(s0, directory, k) == Some(View())
      {
        ghost var s := View();
        SevenIsFlags(k);
        MapUpToNext(s0, directory, k);
        MapTakes(s, directory, k, DirectoryEntry(k));
        ok := Map(4096 * k, 4096 * k, Or(Or(PRESENT, WRITE), USER));
        if !ok {
          MapUpToFails(s0, directory, k + 1, pmm.total);
          return;
        }
        FramesInRam();
      }
      ok := true;
    }

    // `vmm_init`: a directory, the identity map of all tracked RAM, paging switched on.
    method Init() returns (ok: bool)
      requires Valid()
      modifies this`ram, this`directory, this`cr3, this`tlb, pmm`used, pmm`free, pmm.bitmap
      ensures Valid()
      ensures ok ==>
                && old(pmm.free) != {}
                && MapUpTo(EmptySpace(old(View())), Lowest(old(pmm.free)), pmm.total) == Some(View())
                && directory == cr3 == Lowest(old(pmm.free)) && tlb == map[]
      ensures !ok ==>
                old(pmm.free) == {} || MapUpTo(EmptySpace(old(View())), Lowest(old(pmm.free)), pmm.total).None?
    {
      hide FrameAllocator.Valid, Zeroed, Word, MapUpTo;
      FramesInRam();
      var frame := AllocFrame();
      if frame.None? {
        return false;
      }
      directory := frame.value;
      ZeroedMeaning(ram, directory);
      ram := Zeroed(ram, directory);
      FramesInRam();
      ok := IdentityMapRam();
      if ok {
        LoadCr3(directory);
      }
    }
  }

  lemma MapUpToNone(s: Mem, d: nat)
    ensures MapUpTo(s, d, 0) == Some(s)
  {
  }

  lemma MapUpToNext(s: Mem, d: nat, k: nat)
    requires MapUpTo(s, d, k).Some?
    ensures MapUpTo(s, d, k + 1) == MapPage(MapUpTo(s, d, k).value, d, k, DirectoryEntry(k))
  {
  }

  lemma {:induction false} MapUpToFails(s: Mem, d: nat, k: nat, n: nat)
    requires k <= n && MapUpTo(s, d, k).None?
    ensures MapUpTo(s, d, n).None?
    decreases n
  {
    if k < n {
      MapUpToFails(s, d, k, n - 1);
    }
  }

  lemma StoreSize(m: Memory, f: nat, i: nat, w: word)
    ensures |Store(m, f, i, w)| == |m|
  {
  }

  // The two table indices of an address are those of its page.
  lemma SplitAddress(virt: word)
    ensures virt / 0x40_0000 == virt / 4096 / 1024 < 1024
    ensures And(virt / 4096, 0x3FF) == virt / 4096 % 1024
  {
    LowTen(virt / 4096);
  }

  lemma SevenIsFlags(frame: nat)
    requires frame < PAGES
    ensures Or(Or(1, 2), 4) == 7
    ensures Or(4096 * frame, 7) == DirectoryEntry(frame)
  {
    PackFlags(frame, 0, 7);
    assert Or(1, 2) == 3 && Or(3, 4) == 7;
  }
}
