/**
  The work of the running task (src/vmm.c, src/elf.c): the steps of the memory system and a
  whole load leave the stacks of the other tasks alone, so contexts survive them.
 */
module TaskWork {
  import opened Words
  import opened Frames
  import opened Paging
  import opened AddressSpaces
  import opened MemoryRuns
  import opened ElfPages
  import opened ElfImage
  import opened Elf
  import opened ElfTrace
  import opened ElfTheorems
  import opened MemoryUsers
  import opened Scheduler
  import opened TaskContexts
  import opened TaskRuns

  lemma SlicesSame(m: Memory, m': Memory, low: int, top: int)
    requires 0 <= low <= top <= |m| && |m'| == |m|
    requires forall g: nat :: Overlaps(low, top, g) ==> FrameSame(m, m', g)
    ensures m'[low..top] == m[low..top]
  {
    forall x | low <= x < top
      ensures m'[x] == m[x]
    {
      var g: nat := x / 1024;
      assert Overlaps(low, top, g);
      assert Word(m', g, x % 1024) == Word(m, g, x % 1024);
    }
  }

  // Frame `g` holds part of the stack of a used slot.
  ghost predicate OfStack(b: Boot, t: Table, g: nat) {
    exists i :: Used(t, i) && Overlaps(Low(b, t, i), Top(b, t, i), g)
  }

  // Memory in which the frames of all stacks stay in use, and those of suspended tasks as
  // they are.
  lemma StacksLast(b: Boot, k: Kernel, k': Kernel)
    requires Inv(b, k) && k'.sched == k.sched && k'.saved == k.saved && |k'.mem.words| == |k.mem.words|
    requires Owned(k'.mem, k'.dirs) && DirectoriesLive(k') && 0 !in k'.mem.free
    requires forall g: nat :: OfStack(b, k.sched.table, g) ==> InUse(k'.mem, k'.dirs, g)
    requires forall i :: Suspended(k.sched, i) ==> StackSame(b, k, k', i)
    ensures Works(b, k, k')
  {
    hide Owned, Untabled, SchedulerRuns.Sound, DirectoriesLive, StackSame;
    var t := k.sched.table;
    forall i | Used(t, i)
      ensures StackHeld(b, k'.mem, k'.dirs, t, i)
    {
      assert StackHeld(b, k.mem, k.dirs, t, i);
      forall g: nat | Overlaps(Low(b, t, i), Top(b, t, i), g)
        ensures g !in k'.mem.free && Untabled(k'.mem.words, k'.dirs, g)
      {
        assert OfStack(b, t, g);
      }
    }
  }

  lemma StackInUse(b: Boot, k: Kernel, g: nat)
    requires Inv(b, k) && OfStack(b, k.sched.table, g)
    ensures InUse(k.mem, k.dirs, g)
  {
    hide Owned, Untabled, SchedulerRuns.Sound, DirectoriesLive, AllSaved;
    var t := k.sched.table;
    var i :| Used(t, i) && Overlaps(Low(b, t, i), Top(b, t, i), g);
    assert StackHeld(b, k.mem, k.dirs, t, i);
  }

  lemma SuspendedSame(b: Boot, k: Kernel, k': Kernel, i: int)
    requires Inv(b, k) && Suspended(k.sched, i) && |k'.mem.words| == |k.mem.words|
    requires forall g: nat :: OfStack(b, k.sched.table, g) ==> FrameSame(k.mem.words, k'.mem.words, g)
    ensures StackSame(b, k, k', i)
  {
    hide Owned, Untabled, SchedulerRuns.Sound, DirectoriesLive, AllSaved, FrameSame;
    var t := k.sched.table;
    assert StackHeld(b, k.mem, k.dirs, t, i);
    forall g: nat | Overlaps(Low(b, t, i), Top(b, t, i), g)
      ensures FrameSame(k.mem.words, k'.mem.words, g)
    {
      assert OfStack(b, t, g);
    }
    SlicesSame(k.mem.words, k'.mem.words, Low(b, t, i), Top(b, t, i));
  }

  // ---------- steps of the memory system ----------

  // The processor's view of the kernel state.
  ghost predicate Seen(k: Kernel, c: Cpu) {
    c.mem == k.mem && c.dirs == k.dirs && 4096 * c.cr3 == k.cr3 && 4096 * c.directory == k.directory
  }

  // What the step must not do: free a stack or block 0, free a directory a live task uses,
  // or write into the stack of a suspended task.
  ghost predicate Harmless(b: Boot, k: Kernel, k': Kernel, st: MemoryRuns.Step)
    requires SchedulerRuns.Sound(k.sched)
  {
    && (st.Give? ==> st.frame != 0 && !OfStack(b, k.sched.table, st.frame))
    && (st.Drop? ==> st.dir != 0 && forall i :: Used(k.sched.table, i) && k.sched.table[i].state != Zombie ==>
                       k.sched.table[i].pageDir / 4096 != st.dir)
    && (st.Write? ==> forall i :: Suspended(k.sched, i) ==> StackSame(b, k, k', i))
  }

  lemma SeenSound(b: Boot, k: Kernel, c: Cpu)
    requires Inv(b, k) && Seen(k, c) && k.cr3 == k.directory
    ensures MemoryRuns.Sound(c)
  {
    hide Owned, SchedulerRuns.Sound, Stacks, AllSaved;
    FrameBits(c.cr3, 0);
  }

  // A step of the memory system that harms no other task is work of the running one.
  lemma StepIsWork(b: Boot, k: Kernel, c: Cpu, st: MemoryRuns.Step, k': Kernel)
    requires Inv(b, k) && Seen(k, c) && k.cr3 == k.directory && MemoryRuns.Enabled(c, st)
    requires Seen(k', MemoryRuns.Next(c, st)) && k'.sched == k.sched && k'.saved == k.saved
    requires Harmless(b, k, k', st)
    ensures Works(b, k, k')
  {
    SeenSound(b, k, c);
    hide Owned, Untabled, Stacks, AllSaved, StackSame, MemoryRuns.Enabled, MemoryRuns.Next, InUse, FrameSame, Works;
    StepKeepsSound(c, st);
    StepKeepsSize(c, st);
    StepKeepsLive(b, k, c, st, k');
    forall g: nat | OfStack(b, k.sched.table, g)
      ensures InUse(k'.mem, k'.dirs, g) && (!st.Write? ==> FrameSame(k.mem.words, k'.mem.words, g))
    {
      StackInUse(b, k, g);
      StepSpares(c, st, g);
    }
    forall i | Suspended(k.sched, i)
      ensures StackSame(b, k, k', i)
    {
      if !st.Write? {
        SuspendedSame(b, k, k', i);
      }
    }
    StacksLast(b, k, k');
  }

  lemma StepKeepsLive(b: Boot, k: Kernel, c: Cpu, st: MemoryRuns.Step, k': Kernel)
    requires Inv(b, k) && Seen(k, c) && MemoryRuns.Sound(c) && MemoryRuns.Enabled(c, st)
    requires Seen(k', MemoryRuns.Next(c, st)) && k'.sched == k.sched && Harmless(b, k, k', st)
    ensures DirectoriesLive(k') && 0 !in k'.mem.free
  {
    hide Owned, Untabled, SchedulerRuns.Sound, Stacks, AllSaved, MapPage, DemandPage, CloneDirectory, Touch, UnmapPage, OfStack, StackSame;
    StepKeepsSound(c, st);
    var c' := MemoryRuns.Next(c, st);
    FrameBits(c'.cr3, 0);
    FrameBits(c'.directory, 0);
    FreeAfter(c, st);
    forall i | Used(k'.sched.table, i) && k'.sched.table[i].state != Zombie
      ensures k'.sched.table[i].pageDir / 4096 in k'.dirs
    {
      StepRetains(c, st, k.sched.table[i].pageDir / 4096);
    }
  }

  // Only a release adds to the free frames.
  lemma FreeAfter(c: Cpu, st: MemoryRuns.Step)
    requires MemoryRuns.Enabled(c, st)
    ensures forall f :: f in MemoryRuns.Next(c, st).mem.free ==> f in c.mem.free || st == Give(f) || st == Drop(f)
  {
    hide HasTable, Word, Untabled;
    match st
    case Map(p, w) => MapTakes(c.mem, c.directory, p, w);
    case Fault(a, err) =>
      var f := Lowest(c.mem.free);
      MapTakes(c.mem.(free := c.mem.free - {f}), c.directory, a / 4096, DirectoryEntry(f));
    case _ =>
  }

  // ---------- from boot to `scheduler_init` ----------

  lemma {:induction false} RunKeepsReserved(c: Cpu, run: seq<MemoryRuns.Step>)
    requires MemoryRuns.Sound(c) && MemoryRuns.Legal(c, run) && 0 !in c.mem.free
    requires forall i :: 0 <= i < |run| ==> run[i] != Give(0) && run[i] != Drop(0)
    ensures
      var c' := MemoryRuns.Run(c, run);
      MemoryRuns.Sound(c') && 0 !in c'.mem.free && |c'.mem.words| == |c.mem.words|
    decreases |run|
  {
    hide MemoryRuns.Sound, MemoryRuns.Enabled, MemoryRuns.Next;
    if run != [] {
      StepKeepsSound(c, run[0]);
      StepKeepsSize(c, run[0]);
      FreeAfter(c, run[0]);
      RunKeepsReserved(MemoryRuns.Next(c, run[0]), run[1..]);
    }
  }

  // Whatever is mapped, unmapped and faulted in before `scheduler_init`, the state after it
  // is one from which every run keeps its contexts.
  lemma InvAfterRun(b: Boot, c: Cpu, run: seq<MemoryRuns.Step>, regs: ContextSwitch.Regs, tss: word)
    requires MemoryRuns.Sound(c) && MemoryRuns.Legal(c, run) && 0 !in c.mem.free && |c.mem.words| <= 1024 * MAX_BLOCKS
    requires b.low < b.top <= |c.mem.words| && forall g: nat :: Overlaps(b.low, b.top, g) ==> InUse(c.mem, c.dirs, g)
    requires forall i :: 0 <= i < |run| ==>
               run[i] != Give(0) && run[i] != Drop(0) && forall g: nat :: Overlaps(b.low, b.top, g) ==> run[i] != Give(g)
    ensures
      var c' := MemoryRuns.Run(c, run);
      && c'.cr3 < PAGES
      && Inv(b, Kernel(c'.mem, c'.dirs, SchedulerRuns.InitialSched(4096 * c'.cr3), regs, 4096 * c'.cr3, 4096 * c'.cr3, tss, map[]))
  {
    hide Untabled, MemoryRuns.Run, MemoryRuns.Legal, TablesOwned, OneSlotPerTable;
    RunKeepsReserved(c, run);
    var c' := MemoryRuns.Run(c, run);
    forall g: nat | Overlaps(b.low, b.top, g)
      ensures g !in c'.mem.free && Untabled(c'.mem.words, c'.dirs, g)
    {
      RunSpares(c, run, g);
    }
    assert InRam(c'.mem.words, c'.cr3);
    InitialInv(b, c'.mem, c'.dirs, c'.cr3, regs, tss);
  }

  // ---------- a whole load ----------

  // Loading a program is work of the running task, whether the load returns 0 or -1: all
  // other tasks keep their contexts.
  lemma LoadIsWork(b: Boot, k: Kernel, file: File, k': Kernel)
    requires Inv(b, k) && GoodHeaders(k.mem, k.directory / 4096, file)
    requires Ended(LoadFile(k.mem, k.directory / 4096, file))
    requires
      var r := LoadFile(k.mem, k.directory / 4096, file);
      k' == k.(mem := r.mem, dirs := if r.Success? then k.dirs + {r.pd} else k.dirs)
    ensures Works(b, k, k')
  {
    hide Untabled, Stacks, AllSaved, StackSame, LoadFile, GoodHeaders, FrameSame, SchedulerRuns.Sound, Owned, OfStack, Works;
    var kd := k.directory / 4096;
    LoadEnds(k.mem, k.dirs, kd, file);
    forall g: nat | OfStack(b, k.sched.table, g)
      ensures InUse(k'.mem, k'.dirs, g) && FrameSame(k.mem.words, k'.mem.words, g)
    {
      StackInUse(b, k, g);
      InUseAfter(k.mem, k.dirs, kd, file, g);
      UsersUndisturbed(k.mem, k.dirs, kd, file, g);
      FewerDirs(k'.mem.words, k.dirs + {Lowest(k.mem.free)}, k'.dirs, g);
    }
    LoadKeepsSize(k.mem, k.dirs, kd, file);
    forall i | Suspended(k.sched, i)
      ensures StackSame(b, k, k', i)
    {
      SuspendedSame(b, k, k', i);
    }
    StacksLast(b, k, k');
  }

  lemma FewerDirs(m: Memory, dirs: set<nat>, fewer: set<nat>, g: nat)
    requires Untabled(m, dirs, g) && fewer <= dirs
    ensures Untabled(m, fewer, g)
  {
  }

  lemma LoadEnds(s: Mem, dirs: set<nat>, kd: nat, file: File)
    requires Owned(s, dirs) && kd in dirs && GoodHeaders(s, kd, file) && Ended(LoadFile(s, kd, file))
    ensures
      var r := LoadFile(s, kd, file);
      && s.free != {} && r.mem.free <= s.free
      && (r.Success? ==> r.pd == Lowest(s.free))
      && Owned(r.mem, if r.Success? then dirs + {Lowest(s.free)} else dirs)
  {
    EndedMeans(s, kd, file);
    if LoadFile(s, kd, file).Failure? {
      FailureAccount(s, dirs, kd, file);
      FailureKeepsOwned(s, dirs, kd, file);
    } else {
      FinalAccount(s, dirs, kd, file);
      hide Owned, Untabled, LoadHeaders, ReadEhdr, CloneDirectory, NewTables, GoodHeaders, Add32;
      CloneFree(s, kd);
    }
  }
}
