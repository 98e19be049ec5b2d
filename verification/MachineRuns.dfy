/**
  The virtual memory manager performs the steps of the memory system (src/vmm.c): each of its
  calls, on the machine as it is, is one step of a run, so the theorems about runs are about
  these calls.
 */
module MachineRuns {
  import opened Words
  import opened Frames
  import opened Paging
  import opened MemoryRuns
  import opened VirtualMemory

  // The machine as the runs see it, with the directories that exist.
  ghost function CpuOf(k: Machine, dirs: set<nat>): Cpu
    reads k, k.pmm
  {
    Cpu(k.View(), dirs, k.cr3, k.directory, k.tlb)
  }

  // The steps that are calls of the memory manager and the allocator.
  predicate IsCall(st: Step) {
    st.Map? || st.Unmap? || st.Fault? || st.LoadCr3? || st.Take? || (st.Give? && st.frame != 0)
  }

  lemma SoundReady(k: Machine, dirs: set<nat>)
    requires k.Valid() && Sound(CpuOf(k, dirs))
    ensures k.Ready()
  {
    hide FrameAllocator.Valid, TablesOwned, OneSlotPerTable;
  }

  lemma OrNothing(w: word)
    ensures Or(w, 0) == w
  {
    OrZero(w);
  }

  lemma PageOf(p: nat)
    requires p < PAGES
    ensures 4096 * p < WORD_SIZE && 4096 * p / 4096 == p
  {
  }

  // Memory, free frames, CR3, `current_page_directory` and the translation cache after the call
  // are those after the step.
  method Perform(k: Machine, st: Step, ghost dirs: set<nat>)
    requires k.Valid() && Sound(CpuOf(k, dirs)) && IsCall(st) && Enabled(CpuOf(k, dirs), st)
    modifies k`ram, k`directory, k`cr3, k`tlb, k.pmm`used, k.pmm`free, k.pmm.bitmap
    ensures k.Valid() && CpuOf(k, dirs) == Next(old(CpuOf(k, dirs)), st)
  {
    hide FrameAllocator.Valid, MapPage, UnmapPage, Or, Word, HasTable, Owned, Bit, And;
    SoundReady(k, dirs);
    match st
    case Map(p, w) =>
      PageOf(p);
      OrNothing(w);
      var ok := k.Map(w, 4096 * p, 0);
    case Unmap(p) =>
      PageOf(p);
      k.Unmap(4096 * p);
    case Fault(a, err) =>
      ResolvableIff(a, err);
      DemandPageIff(k.View(), k.directory, a);
      hide DemandPage, Resolvable;
      var ok := k.PageFault(a, err);
    case LoadCr3(d) =>
      k.LoadCr3(d);
    case Take =>
      var frame := k.AllocFrame();
    case Give(f) =>
      GiveInRam(k, f);
      k.pmm.FreeBlock(4096 * f);
  }

  lemma GiveInRam(k: Machine, f: nat)
    requires k.Valid() && InRam(k.ram, f)
    ensures f < k.pmm.total <= MAX_BLOCKS && 4096 * f < WORD_SIZE && 4096 * f / 4096 == f && Below({f}, k.pmm.total) == {f}
  {
    assert f < k.pmm.total;
  }
}
