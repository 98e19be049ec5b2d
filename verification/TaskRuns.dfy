/**
  Creating tasks, and contexts over whole runs (src/task.c, src/switch.s).
 */
module TaskRuns {
  import opened Words
  import opened Frames
  import opened Paging
  import opened ElfPages
  import opened Scheduler
  import opened SchedulerRuns
  import opened ContextSwitch
  import opened TaskContexts

  const TASK_USER_BOOTSTRAP: word := 0x10_10C0

  // ---------- the stack of a new task ----------

  // The seven words `task_create` writes at the top of the stack in frame `f`.
  function Framed(m: Memory, f: nat, entry: word): Memory {
    var top := 1024 * f + 1024;
    Put(Put(Put(Put(Put(Put(Put(m, top - 1, entry), top - 2, TASK_EXIT), top - 3, TASK_KERNEL_BOOTSTRAP),
                    top - 4, 0), top - 5, 0), top - 6, 0), top - 7, 0)
  }

  // Its first turn: `task_kernel_bootstrap` called with `entry`, returning to `task_exit`.
  function FirstContext(f: nat, entry: word): Context {
    Context(0, 0, 0, 0, 4 * (1024 * f + 1022), TASK_KERNEL_BOOTSTRAP, [TASK_EXIT, entry])
  }

  lemma FramedMeaning(m: Memory, f: nat, entry: word)
    requires InRam(m, f)
    ensures |Framed(m, f, entry)| == |m|
    ensures ContextAt(Framed(m, f, entry), 1024 * f + 1017, 1024 * f + 1024) == FirstContext(f, entry)
    ensures SameOutside(m, Framed(m, f, entry), {f})
  {
    var top := 1024 * f + 1024;
    var m' := Framed(m, f, entry);
    assert m'[top - 2..top] == [TASK_EXIT, entry];
    forall g: nat, j: nat | j < 1024 && g != f
      ensures Word(m', g, j) == Word(m, g, j)
    {
    }
  }

  // Stack allocated, cleared, identity-mapped without the user flag, and filled; None is
  // the halt inside `vmm_map_page`.
  ghost function StackMem(s: Mem, d: nat, entry: word): Option<Mem>
    requires s.free != {}
  {
    var f := Lowest(s.free);
    match MapPage(Mem(Zeroed(s.words, f), s.free - {f}), d, f, KernelEntry(f))
    case None => None
    case Some(s') => Some(s'.(words := Framed(s'.words, f, entry)))
  }

  // Present and writable.
  function KernelEntry(f: nat): word {
    if f < 0x10_0000 then 4096 * f + 3 else 3
  }

  lemma ClearedStack(s: Mem, dirs: set<nat>)
    requires Owned(s, dirs) && s.free != {}
    ensures
      var f := Lowest(s.free);
      var s1 := Mem(Zeroed(s.words, f), s.free - {f});
      && Owned(s1, dirs) && KeepsData(dirs, s, s1) && Untabled(s1.words, dirs, f) && InRam(s.words, f)
  {
    var f := Lowest(s.free);
    ZeroedMeaning(s.words, f);
    FreeIsUntabled(s, dirs, f);
    TakeKeepsOwned(s, dirs, f);
    assert InRam(s.words, f);
    hide Word, Zeroed, Owned, Untabled;
    var taken := s.(free := s.free - {f});
    DataWriteKeepsOwned(taken, Zeroed(s.words, f), dirs, {f});
    DataWriteKeepsTables(s.words, Zeroed(s.words, f), dirs, {f});
    FreshWriteKeepsData(dirs, s, taken, Zeroed(s.words, f), {f});
  }

  ghost predicate StackMade(dirs: set<nat>, s: Mem, s': Mem, f: nat, entry: word) {
    && Owned(s', dirs) && KeepsData(dirs, s, s') && f !in s'.free && Untabled(s'.words, dirs, f)
    && InRam(s'.words, f)
    && ContextAt(s'.words, 1024 * f + 1017, 1024 * f + 1024) == FirstContext(f, entry)
  }

  lemma MapKeepsData(s: Mem, dirs: set<nat>, d: nat, p: nat, w: word)
    requires Owned(s, dirs) && d in dirs && p < PAGES && MapPage(s, d, p, w).Some?
    ensures KeepsData(dirs, s, MapPage(s, d, p, w).value)
  {
    hide Word, MapPage, Owned, Untabled;
    MapTakes(s, d, p, w);
    MapSize(s, d, p, w);
    forall g: nat | g !in s.free && Untabled(s.words, dirs, g)
      ensures FrameSame(s.words, MapPage(s, d, p, w).value.words, g) && Untabled(MapPage(s, d, p, w).value.words, dirs, g)
    {
      MapKeepsUntabled(s, dirs, d, p, w, g);
    }
  }

  lemma StackMemMade(s: Mem, dirs: set<nat>, d: nat, entry: word)
    requires Owned(s, dirs) && d in dirs && s.free != {} && StackMem(s, d, entry).Some?
    requires |s.words| <= 1024 * MAX_BLOCKS
    ensures StackMade(dirs, s, StackMem(s, d, entry).value, Lowest(s.free), entry)
  {
    hide Word, MapPage, Zeroed, Owned, Untabled, Framed, ContextAt, FirstContext;
    var f := Lowest(s.free);
    ClearedStack(s, dirs);
    var s1 := Mem(Zeroed(s.words, f), s.free - {f});
    var s2 := MapPage(s1, d, f, KernelEntry(f)).value;
    MapKeepsOwned(s1, dirs, d, f, KernelEntry(f));
    MapKeepsData(s1, dirs, d, f, KernelEntry(f));
    KeepsDataTransitive(dirs, s, s1, s2);
    FramedMeaning(s2.words, f, entry);
    var m3 := Framed(s2.words, f, entry);
    DataWriteKeepsOwned(s2, m3, dirs, {f});
    DataWriteKeepsTables(s2.words, m3, dirs, {f});
    FreshWriteKeepsData(dirs, s, s2, m3, {f});
  }

  // ---------- task_create ----------

  function KernelStart(entry: word, isUser: bool): word {
    if isUser then TASK_USER_BOOTSTRAP else entry
  }

  function TaskFor(f: nat, entry: word, pageDir: word): NewTask
    requires f < MAX_BLOCKS
  {
    NewTask(4096 * f + 4068, entry, pageDir, 4096 * f + 4096)
  }

  // None is a halt; an exhausted table or memory leaves everything as it was.
  ghost function Spawn(k: Kernel, entry: word, isUser: bool, pageDir: word): Option<Kernel>
    requires |k.sched.table| >= 1 && (k.mem.free != {} ==> Lowest(k.mem.free) < MAX_BLOCKS)
  {
    var slot := FindSlot(k.sched.table, 1);
    if slot == NULL || k.mem.free == {} then Some(k)
    else
      var f := Lowest(k.mem.free);
      match StackMem(k.mem, k.directory / 4096, KernelStart(entry, isUser))
      case None => None
      case Some(mem) =>
        Some(k.(mem := mem,
                sched := CreateTask(k.sched, TaskFor(f, entry, if pageDir != 0 then pageDir else k.cr3)),
                saved := k.saved[slot := FirstContext(f, KernelStart(entry, isUser))]))
  }

  lemma CreateFields(s: Sched, t: NewTask)
    requires |s.table| >= 1 && FindSlot(s.table, 1) != NULL
    ensures
      var slot, s' := FindSlot(s.table, 1), CreateTask(s, t);
      && |s'.table| == |s.table| && s'.current == s.current
      && s'.table[slot] == Task(s.nextPid, t.esp, t.eip, t.pageDir, t.kstack, Ready, NULL)
      && forall i :: 0 <= i < |s.table| && i != slot ==> s'.table[i] == s.table[i].(next := s'.table[i].next)
  {
    hide Chain;
  }

  lemma FreeBounded(b: Boot, k: Kernel)
    requires Inv(b, k)
    ensures |k.sched.table| >= 1
    ensures k.mem.free != {} ==> Lowest(k.mem.free) < MAX_BLOCKS && InRam(k.mem.words, Lowest(k.mem.free))
  {
    hide Acyclic, OneRuns, PidsDistinct, LinksUsed, TablesOwned, OneSlotPerTable, Stacks, AllSaved;
  }

  // The stacks after a creation: the old ones as before, and the new one in a fresh frame.
  lemma SpawnKeepsStacks(b: Boot, m: Mem, m': Mem, dirs: set<nat>, t: Table, t': Table, slot: int, f: nat, entry: word)
    requires Stacks(b, m, dirs, t) && StackMade(dirs, m, m', f, entry) && f in m.free
    requires |t'| == |t| && 0 < slot < |t| && t'[slot].kstack == 4096 * f + 4096
    requires forall i :: 0 <= i < |t| && i != slot ==> t'[i].pid == t[i].pid && t'[i].kstack == t[i].kstack
    ensures Stacks(b, m', dirs, t')
  {
    hide Word, Owned, Untabled, ContextAt, FirstContext;
    assert t'[slot].kstack / 4 == 1024 * f + 1024;
    forall i | Used(t', i) && i != slot
      ensures StackHeld(b, m', dirs, t', i)
      ensures Apart(Low(b, t', i), Top(b, t', i), 1024 * f, 1024 * f + 1024)
    {
      assert Used(t, i) && StackHeld(b, m, dirs, t, i);
      assert !Overlaps(Low(b, t, i), Top(b, t, i), f);
    }
    assert StackHeld(b, m', dirs, t', slot) by {
      forall g: nat | Overlaps(Low(b, t', slot), Top(b, t', slot), g)
        ensures g == f
      {
      }
    }
    forall i, j | Used(t', i) && Used(t', j) && i != j
      ensures Apart(Low(b, t', i), Top(b, t', i), Low(b, t', j), Top(b, t', j))
    {
      if i != slot && j != slot {
        assert Used(t, i) && Used(t, j);
      }
    }
  }

  // A stack that is held keeps its words while others' data changes.
  lemma HeldStackSame(b: Boot, m: Mem, m': Mem, dirs: set<nat>, t: Table, i: int, a: int)
    requires IsSlot(t, i) && StackHeld(b, m, dirs, t, i) && KeepsData(dirs, m, m')
    requires Low(b, t, i) <= a <= Top(b, t, i)
    ensures |m'.words| == |m.words| && m'.words[a..Top(b, t, i)] == m.words[a..Top(b, t, i)]
  {
    hide Untabled;
    forall x | a <= x < Top(b, t, i)
      ensures m'.words[x] == m.words[x]
    {
      var g: nat := x / 1024;
      assert Overlaps(Low(b, t, i), Top(b, t, i), g);
      assert FrameSame(m.words, m'.words, g);
      assert Word(m'.words, g, x % 1024) == Word(m.words, g, x % 1024);
    }
  }

  lemma SpawnKeepsSaved(b: Boot, k: Kernel, k': Kernel, slot: int, f: nat, entry: word)
    requires Inv(b, k) && StackMade(k.dirs, k.mem, k'.mem, f, entry) && f in k.mem.free && f < MAX_BLOCKS
    requires |k'.sched.table| == |k.sched.table| && k'.sched.current == k.sched.current && 0 < slot < |k.sched.table|
    requires k'.sched.table[slot].esp == 4096 * f + 4068 && k'.sched.table[slot].kstack == 4096 * f + 4096
    requires forall i :: 0 <= i < |k.sched.table| && i != slot ==>
               k'.sched.table[i] == k.sched.table[i].(next := k'.sched.table[i].next)
    requires k'.saved == k.saved[slot := FirstContext(f, entry)]
    ensures AllSaved(b, k')
  {
    hide Word, Acyclic, OneRuns, PidsDistinct, LinksUsed, Owned, Untabled, KeepsData, ContextAt, FirstContext;
    forall i | Suspended(k'.sched, i)
      ensures SavedAt(b, k'.mem.words, k'.sched.table, k'.saved, i)
    {
      if i == slot {
        assert k'.sched.table[i].esp / 4 == 1024 * f + 1017 && k'.sched.table[i].kstack / 4 == 1024 * f + 1024;
      } else {
        assert Suspended(k.sched, i);
        assert StackHeld(b, k.mem, k.dirs, k.sched.table, i);
        assert SavedAt(b, k.mem.words, k.sched.table, k.saved, i);
        var x := k.sched.table[i].esp / 4;
        HeldStackSame(b, k.mem, k'.mem, k.dirs, k.sched.table, i, x);
        ContextSame(k.mem.words, k'.mem.words, x, Top(b, k.sched.table, i));
      }
    }
  }

  lemma SpawnKeepsInv(b: Boot, k: Kernel, entry: word, isUser: bool, pageDir: word)
    requires Inv(b, k) && k.sched.nextPid < 0xFFFF_FFFF && (pageDir != 0 ==> pageDir / 4096 in k.dirs)
    requires |k.sched.table| >= 1 && (k.mem.free != {} ==> Lowest(k.mem.free) < MAX_BLOCKS)
    requires Spawn(k, entry, isUser, pageDir).Some?
    ensures Inv(b, Spawn(k, entry, isUser, pageDir).value)
  {
    hide Word, Acyclic, OneRuns, PidsDistinct, LinksUsed, Owned, Untabled, StackMem, CreateTask, Stacks, AllSaved, SavedAt, KeepsData,
         ContextAt, FirstContext;
    var slot := FindSlot(k.sched.table, 1);
    if slot != NULL && k.mem.free != {} {
      var f, start := Lowest(k.mem.free), KernelStart(entry, isUser);
      var t := TaskFor(f, entry, if pageDir != 0 then pageDir else k.cr3);
      var k' := Spawn(k, entry, isUser, pageDir).value;
      StackMemMade(k.mem, k.dirs, k.directory / 4096, start);
      KeptSize(k.dirs, k.mem, k'.mem);
      CreateFields(k.sched, t);
      CreateSound(k.sched, t);
      SpawnKeepsStacks(b, k.mem, k'.mem, k.dirs, k.sched.table, k'.sched.table, slot, f, start);
      SpawnKeepsSaved(b, k, k', slot, f, start);
      forall i | Used(k'.sched.table, i) && k'.sched.table[i].state != Zombie
        ensures k'.sched.table[i].pageDir / 4096 in k.dirs
      {
        assert i != slot ==> Used(k.sched.table, i);
      }
    }
  }

  lemma KeptSize(dirs: set<nat>, s: Mem, s': Mem)
    requires KeepsData(dirs, s, s')
    ensures |s'.words| == |s.words| && s'.free <= s.free
  {
  }

  // ---------- runs ----------

  datatype Step =
    | Work(after: Kernel)                                         // the current task computes
    | Take(op: Op)                                                // a tick or an exit
    | New(entry: word, isUser: bool, pageDir: word)               // task_create

  // The current task may change anything but the tasks' records and the stacks of the
  // others; it neither frees those stacks nor makes tables of them.
  ghost predicate Works(b: Boot, k: Kernel, k': Kernel)
    requires Sound(k.sched)
  {
    && k'.sched == k.sched && k'.saved == k.saved && |k'.mem.words| == |k.mem.words|
    && Owned(k'.mem, k'.dirs) && DirectoriesLive(k') && 0 !in k'.mem.free
    && Stacks(b, k'.mem, k'.dirs, k'.sched.table)
    && forall i :: Suspended(k.sched, i) ==> StackSame(b, k, k', i)
  }

  ghost predicate StackSame(b: Boot, k: Kernel, k': Kernel, i: int)
    requires IsSlot(k.sched.table, i)
  {
    var low, top := Low(b, k.sched.table, i), Top(b, k.sched.table, i);
    && 0 <= low <= top <= |k.mem.words| && |k'.mem.words| == |k.mem.words|
    && k'.mem.words[low..top] == k.mem.words[low..top]
  }

  ghost predicate Enabled(b: Boot, k: Kernel, st: Step) {
    && Inv(b, k)
    && match st
       case Work(k') => Works(b, k, k')
       case Take(op) => !op.Create? && Allowed(k.sched, op) && ReadyToSwitch(b, k)
       case New(entry, isUser, pageDir) =>
         && k.sched.nextPid < 0xFFFF_FFFF && (pageDir != 0 ==> pageDir / 4096 in k.dirs)
         && (k.mem.free != {} ==> Lowest(k.mem.free) < MAX_BLOCKS)
         && Spawn(k, entry, isUser, pageDir).Some?
  }

  ghost function After(b: Boot, k: Kernel, st: Step): Kernel
    requires Enabled(b, k, st)
  {
    match st
    case Work(k') => k'
    case Take(op) => Turn(b, k, op)
    case New(entry, isUser, pageDir) => Spawn(k, entry, isUser, pageDir).value
  }

  lemma WorkKeepsInv(b: Boot, k: Kernel, k': Kernel)
    requires Inv(b, k) && Works(b, k, k')
    ensures Inv(b, k')
  {
    hide Acyclic, OneRuns, PidsDistinct, LinksUsed, Owned, Stacks, ContextAt;
    forall i | Suspended(k.sched, i)
      ensures SavedAt(b, k'.mem.words, k'.sched.table, k'.saved, i)
    {
      assert SavedAt(b, k.mem.words, k.sched.table, k.saved, i) && StackSame(b, k, k', i);
      var low, x, top := Low(b, k.sched.table, i), k.sched.table[i].esp / 4, Top(b, k.sched.table, i);
      SliceSame(k.mem.words, k'.mem.words, low, x, top);
      ContextSame(k.mem.words, k'.mem.words, x, top);
    }
  }

  lemma SliceSame(m: Memory, m': Memory, low: int, x: int, top: int)
    requires 0 <= low <= x <= top <= |m| && |m'| == |m| && m'[low..top] == m[low..top]
    ensures m'[x..top] == m[x..top]
  {
    assert m'[x..top] == m'[low..top][x - low..] && m[x..top] == m[low..top][x - low..];
  }

  lemma StepKeepsInv(b: Boot, k: Kernel, st: Step)
    requires Enabled(b, k, st)
    ensures Inv(b, After(b, k, st))
  {
    hide Inv;
    match st
    case Work(k') => WorkKeepsInv(b, k, k');
    case Take(op) => TurnKeepsInv(b, k, op);
    case New(entry, isUser, pageDir) =>
      FreeBounded(b, k);
      SpawnKeepsInv(b, k, entry, isUser, pageDir);
  }

  ghost predicate Legal(b: Boot, k: Kernel, run: seq<Step>)
    decreases |run|
  {
    run != [] ==> Enabled(b, k, run[0]) && Legal(b, After(b, k, run[0]), run[1..])
  }

  ghost function Run(b: Boot, k: Kernel, run: seq<Step>): Kernel
    requires Legal(b, k, run)
    decreases |run|
  {
    if run == [] then k else Run(b, After(b, k, run[0]), run[1..])
  }

  // Task `t` is not current in any state of the run.
  ghost predicate StaysOff(b: Boot, k: Kernel, run: seq<Step>, t: int)
    requires Legal(b, k, run)
    decreases |run|
  {
    k.sched.current != t && (run != [] ==> StaysOff(b, After(b, k, run[0]), run[1..], t))
  }

  // While it does not run, a suspended task stays suspended, its slot is not reused and
  // its record is not touched.
  lemma StepKeepsSuspended(b: Boot, k: Kernel, st: Step, t: int)
    requires Enabled(b, k, st) && Suspended(k.sched, t) && After(b, k, st).sched.current != t
    ensures
      var k' := After(b, k, st);
      && Suspended(k'.sched, t) && t in k.saved && t in k'.saved && k'.saved[t] == k.saved[t]
      && Top(b, k'.sched.table, t) == Top(b, k.sched.table, t)
  {
    hide Acyclic, OneRuns, PidsDistinct, LinksUsed, Owned, Untabled, Stacks, ContextAt, Next, StackMem, CreateTask;
    assert SavedAt(b, k.mem.words, k.sched.table, k.saved, t);
    match st
    case Work(k') =>
    case Take(op) =>
      TurnKeepsStacks(k.sched, op);
      if NextCurrent(k, op) != k.sched.current {
        TurnCanSwitch(b, k, op);
      }
    case New(entry, isUser, pageDir) =>
      var slot := FindSlot(k.sched.table, 1);
      if slot != NULL && k.mem.free != {} {
        CreateFields(k.sched, TaskFor(Lowest(k.mem.free), entry, if pageDir != 0 then pageDir else k.cr3));
      }
  }

  lemma {:induction false} RunKeepsSuspended(b: Boot, k: Kernel, run: seq<Step>, t: int)
    requires Inv(b, k) && Legal(b, k, run) && Suspended(k.sched, t) && StaysOff(b, k, run, t)
    ensures
      var k' := Run(b, k, run);
      && Inv(b, k') && Suspended(k'.sched, t) && t in k.saved && t in k'.saved && k'.saved[t] == k.saved[t]
      && Top(b, k'.sched.table, t) == Top(b, k.sched.table, t)
    decreases |run|
  {
    hide Inv, Enabled, After, Top;
    if run == [] {
      SuspendedSaved(b, k, t);
    } else {
      EnabledStep(b, k, run[0]);
      StepKeepsInv(b, k, run[0]);
      assert After(b, k, run[0]).sched.current != t;
      StepKeepsSuspended(b, k, run[0], t);
      RunKeepsSuspended(b, After(b, k, run[0]), run[1..], t);
    }
  }

  lemma SuspendedSaved(b: Boot, k: Kernel, t: int)
    requires Inv(b, k) && Suspended(k.sched, t)
    ensures t in k.saved
  {
    assert SavedAt(b, k.mem.words, k.sched.table, k.saved, t);
  }

  lemma EnabledStep(b: Boot, k: Kernel, st: Step)
    requires Enabled(b, k, st)
    ensures Inv(b, k)
  {
  }

  // However long a task is suspended and whatever runs meanwhile, when it is switched to
  // it has exactly the registers, the stack pointer, the return point and the stack that
  // were recorded for it when it was suspended.
  lemma ContextPreserved(b: Boot, k: Kernel, run: seq<Step>, op: Op, t: int)
    requires Inv(b, k) && Legal(b, k, run) && Suspended(k.sched, t) && StaysOff(b, k, run, t)
    requires Enabled(b, Run(b, k, run), Take(op)) && NextCurrent(Run(b, k, run), op) == t
    ensures t in k.saved
    ensures Resumed(AsCore(After(b, Run(b, k, run), Take(op))), k.saved[t], Top(b, k.sched.table, t))
  {
    hide Inv, Legal, Run, Resumed, Turn, Next, Top;
    RunKeepsSuspended(b, k, run, t);
    TurnResumes(b, Run(b, k, run), op);
  }

  // What is recorded for a task that switches away: the registers it had, its return point
  // and its stack.
  lemma RecordedContexts(b: Boot, k: Kernel, op: Op)
    requires Enabled(b, k, Take(op)) && NextCurrent(k, op) != k.sched.current
    ensures
      var prev, x := k.sched.current, k.regs.esp / 4;
      var top, r := Top(b, k.sched.table, prev), k.regs;
      && 0 <= x < top <= |k.mem.words| && prev in Turn(b, k, op).saved
      && Turn(b, k, op).saved[prev]
         == Context(r.edi, r.esi, r.ebx, r.ebp, 4 * (x + 1), k.mem.words[x], k.mem.words[x + 1..top])
  {
    hide Acyclic, OneRuns, PidsDistinct, LinksUsed, Owned, Untabled, Stacks, AllSaved, ContextAt, Next, StackMem, CreateTask, Switched;
    TurnCanSwitch(b, k, op);
  }

  // What a creation makes, in frame `f`: a task whose record names its entry, its directory (by
  // default the one in CR3) and the top of its stack, and which starts with a call of
  // `task_kernel_bootstrap` that returns to `task_exit`. The argument of that call is the
  // entry of a kernel task, and `task_user_bootstrap` for a user task, which then jumps to
  // the recorded entry. The stack page is not accessible from user mode, and empty below.
  lemma SpawnMeans(b: Boot, k: Kernel, entry: word, isUser: bool, pageDir: word)
    requires Enabled(b, k, New(entry, isUser, pageDir)) && FindSlot(k.sched.table, 1) != NULL && k.mem.free != {}
    ensures
      var k', slot, f := After(b, k, New(entry, isUser, pageDir)), FindSlot(k.sched.table, 1), Lowest(k.mem.free);
      && |k'.sched.table| == |k.sched.table| && f < MAX_BLOCKS && slot in k'.saved
      && k'.sched.table[slot]
         == Task(k.sched.nextPid, 4096 * f + 4068, entry, if pageDir == 0 then k.cr3 else pageDir, 4096 * f + 4096, Ready, NULL)
      && (isUser ==>
            k'.saved[slot] == Context(0, 0, 0, 0, 4096 * f + 4088, TASK_KERNEL_BOOTSTRAP, [TASK_EXIT, TASK_USER_BOOTSTRAP]))
      && (!isUser ==>
            k'.saved[slot] == Context(0, 0, 0, 0, 4096 * f + 4088, TASK_KERNEL_BOOTSTRAP, [TASK_EXIT, entry]))
      && Walk(k'.mem.words, k.directory / 4096, f) == Some(Translation(f, 3))
      && (forall j: nat :: j < 1017 ==> Word(k'.mem.words, f, j) == 0)
      && k'.mem.free <= k.mem.free - {f} && k'.cr3 == k.cr3 && k'.directory == k.directory && k'.tss == k.tss && k'.regs == k.regs
  {
    hide Acyclic, OneRuns, PidsDistinct, LinksUsed, Owned, Untabled, Stacks, AllSaved, ContextAt, StackMem, CreateTask, Walk, Word;
    var f := Lowest(k.mem.free);
    FreeBounded(b, k);
    CreateFields(k.sched, TaskFor(f, entry, if pageDir != 0 then pageDir else k.cr3));
    StackShown(k.mem, k.dirs, k.directory / 4096, KernelStart(entry, isUser));
  }

  // The new stack is identity-mapped, present and writable for the kernel only.
  lemma StackShown(s: Mem, dirs: set<nat>, d: nat, start: word)
    requires Owned(s, dirs) && d in dirs && s.free != {} && StackMem(s, d, start).Some? && |s.words| <= 1024 * MAX_BLOCKS
    ensures
      var s', f := StackMem(s, d, start).value, Lowest(s.free);
      && Walk(s'.words, d, f) == Some(Translation(f, 3)) && s'.free <= s.free - {f}
      && forall j: nat :: j < 1017 ==> Word(s'.words, f, j) == 0
  {
    hide Word, MapPage, Zeroed, Owned, Untabled, Framed, Walk, Decode, KernelEntry, Shares, HasTable, ContextAt, FirstContext;
    var f := Lowest(s.free);
    ClearedStack(s, dirs);
    var s1 := Mem(Zeroed(s.words, f), s.free - {f});
    var s2 := MapPage(s1, d, f, KernelEntry(f)).value;
    ZeroedSize(s.words, f);
    MapWalk(s1, dirs, d, f, KernelEntry(f), d, f);
    MapTakes(s1, d, f, KernelEntry(f));
    KernelEntryMeans(f);
    MapKeepsUntabled(s1, dirs, d, f, KernelEntry(f), f);
    MapSize(s1, d, f, KernelEntry(f));
    FramedMeaning(s2.words, f, start);
    DataWriteKeepsWalk(s2.words, Framed(s2.words, f, start), dirs, {f}, d, f);
    ZeroedMeaning(s.words, f);
    FramedBelow(s2.words, f, start);
  }

  lemma FramedBelow(m: Memory, f: nat, start: word)
    requires InRam(m, f)
    ensures forall j: nat :: j < 1017 ==> Word(Framed(m, f, start), f, j) == Word(m, f, j)
  {
  }

  lemma ZeroedSize(m: Memory, f: nat)
    ensures |Zeroed(m, f)| == |m|
  {
  }

  lemma KernelEntryMeans(f: nat)
    requires f < PAGES
    ensures Decode(KernelEntry(f)) == Some(Translation(f, 3))
  {
    DecodePacked(f, 3);
  }
}
