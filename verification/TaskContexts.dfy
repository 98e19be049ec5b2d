/**
  Contexts over whole runs (src/task.c, src/switch.s): tasks are created, work, take turns
  and exit; whenever a suspended task runs again it finds the registers, the stack pointer,
  the return point and the stack it was suspended with.
 */
module TaskContexts {
  import opened Words
  import opened Frames
  import opened Paging
  import opened ElfPages
  import opened Scheduler
  import opened SchedulerRuns
  import opened ContextSwitch

  // The words of the boot stack.
  datatype Boot = Boot(low: nat, top: nat)

  // `saved` records each suspended task's context at the moment it was suspended.
  datatype Kernel = Kernel(mem: Mem, dirs: set<nat>, sched: Sched, regs: Regs,
                           cr3: word, directory: word, tss: word, saved: map<int, Context>)

  // ---------- the stacks ----------

  function Low(b: Boot, t: Table, i: int): int
    requires IsSlot(t, i)
  {
    if i == 0 then b.low else t[i].kstack / 4 - 1024
  }

  function Top(b: Boot, t: Table, i: int): int
    requires IsSlot(t, i)
  {
    if i == 0 then b.top else t[i].kstack / 4
  }

  // Frame `g` holds a word of the stack from `low` up to `top`.
  predicate Overlaps(low: int, top: int, g: nat) {
    low < top && 1024 * g < top && low < 1024 * g + 1024
  }

  predicate Used(t: Table, i: int) {
    IsSlot(t, i) && t[i].pid != 0
  }

  ghost predicate StackHeld(b: Boot, m: Mem, dirs: set<nat>, t: Table, i: int)
    requires IsSlot(t, i)
  {
    && 0 <= Low(b, t, i) < Top(b, t, i) <= |m.words|
    && forall g: nat :: Overlaps(Low(b, t, i), Top(b, t, i), g) ==> g !in m.free && Untabled(m.words, dirs, g)
  }

  // The stacks of used slots are RAM of their own, apart from each other and from all tables.
  ghost predicate Stacks(b: Boot, m: Mem, dirs: set<nat>, t: Table) {
    && (forall i :: Used(t, i) ==> StackHeld(b, m, dirs, t, i))
    && (forall i, j :: Used(t, i) && Used(t, j) && i != j ==>
          Apart(Low(b, t, i), Top(b, t, i), Low(b, t, j), Top(b, t, j)))
  }

  predicate Suspended(s: Sched, i: int) {
    Used(s.table, i) && i != s.current && s.table[i].state != Zombie
  }

  ghost predicate SavedAt(b: Boot, words: Memory, t: Table, saved: map<int, Context>, i: int)
    requires IsSlot(t, i)
  {
    && i in saved
    && StackOk(words, Low(b, t, i), t[i].esp, Top(b, t, i), 2, 5) && t[i].esp + 20 < 0x1_0000_0000
    && ContextAt(words, t[i].esp / 4, Top(b, t, i)) == saved[i]
  }

  ghost predicate AllSaved(b: Boot, k: Kernel) {
    forall i :: Suspended(k.sched, i) ==> SavedAt(b, k.mem.words, k.sched.table, k.saved, i)
  }

  // CR3 and the live tasks name directories that exist.
  ghost predicate DirectoriesLive(k: Kernel) {
    && k.directory / 4096 in k.dirs && k.cr3 / 4096 in k.dirs
    && forall i :: Used(k.sched.table, i) && k.sched.table[i].state != Zombie ==> k.sched.table[i].pageDir / 4096 in k.dirs
  }

  ghost predicate Inv(b: Boot, k: Kernel) {
    && Sound(k.sched) && Owned(k.mem, k.dirs) && DirectoriesLive(k) && 0 !in k.mem.free
    && |k.mem.words| <= 1024 * MAX_BLOCKS
    && Stacks(b, k.mem, k.dirs, k.sched.table) && AllSaved(b, k)
  }

  // The state after `scheduler_init`: the boot task alone, on a stack of its own.
  lemma InitialInv(b: Boot, mem: Mem, dirs: set<nat>, d: nat, regs: Regs, tss: word)
    requires Owned(mem, dirs) && d in dirs && d < PAGES && 0 !in mem.free && |mem.words| <= 1024 * MAX_BLOCKS
    requires b.low < b.top <= |mem.words|
    requires forall g: nat :: Overlaps(b.low, b.top, g) ==> g !in mem.free && Untabled(mem.words, dirs, g)
    ensures Inv(b, Kernel(mem, dirs, InitialSched(4096 * d), regs, 4096 * d, 4096 * d, tss, map[]))
  {
    hide Owned, Untabled, Sound;
    InitialSound(4096 * d);
  }

  // ---------- a turn ----------

  ghost predicate ReadyToSwitch(b: Boot, k: Kernel)
    requires IsSlot(k.sched.table, k.sched.current)
  {
    var i := k.sched.current;
    StackOk(k.mem.words, Low(b, k.sched.table, i), k.regs.esp, Top(b, k.sched.table, i), 6, 1)
  }

  // The task that a tick or an exit makes current.
  ghost function NextCurrent(k: Kernel, op: Op): int
    requires IsSlot(k.sched.table, k.sched.current)
  {
    Next(k.sched, op).current
  }

  ghost function CoreOf(k: Kernel, op: Op): Core
    requires IsSlot(k.sched.table, k.sched.current)
  {
    Core(k.mem.words, Next(k.sched, op).table, k.regs, k.cr3, k.directory, k.tss)
  }

  // Scheduling leaves each slot's stack fields alone, and picks a suspended task.
  lemma TurnKeepsStacks(s: Sched, op: Op)
    requires Sound(s) && !op.Create? && Allowed(s, op)
    ensures
      var s' := Next(s, op);
      && |s'.table| == |s.table|
      && (forall i :: 0 <= i < |s.table| ==> s'.table[i] == s.table[i].(state := s'.table[i].state))
      && (forall i :: 0 <= i < |s.table| && i != s.current && i != s'.current ==> s'.table[i] == s.table[i])
      && (s'.current != s.current ==> Suspended(s, s'.current))
      && (op.Exit? ==> s'.table[s.current].state == Zombie)
      && (forall i :: 0 <= i < |s.table| && s'.table[i].state != Zombie ==> s.table[i].state != Zombie)
  {
    hide Acyclic, PidsDistinct, LinksUsed, Pick;
    if op.Exit? {
      ExitSound(s);
      var z := s.(table := s.table[s.current := s.table[s.current].(state := Zombie)]);
      PickIsReady(z, s);
    } else {
      PickIsReady(s, s);
    }
  }

  lemma PickIsReady(z: Sched, s: Sched)
    requires Sound(s) && SameLinks(s.table, z.table) && z.head == s.head && z.current == s.current && z.nextPid == s.nextPid
    requires forall i :: 0 <= i < |s.table| && i != s.current ==> z.table[i] == s.table[i]
    ensures Pick(z).Some? ==>
              IsSlot(s.table, Pick(z).value) && (Pick(z).value == s.current || Suspended(s, Pick(z).value))
  {
    SameLinksKeep(s, z);
    if Pick(z).Some? {
      PickUsed(z);
      var m := FirstStopAt(z, SearchPath(z));
    }
  }

  lemma EspKeepsSound(s: Sched, i: int, esp: word)
    requires Sound(s) && IsSlot(s.table, i)
    ensures Sound(s.(table := s.table[i := s.table[i].(esp := esp)]))
  {
    hide Chain, Acyclic, PidsDistinct, LinksUsed;
    SameLinksKeep(s, s.(table := s.table[i := s.table[i].(esp := esp)]));
  }

  lemma TurnCanSwitch(b: Boot, k: Kernel, op: Op)
    requires Inv(b, k) && ReadyToSwitch(b, k) && !op.Create? && Allowed(k.sched, op)
    requires NextCurrent(k, op) != k.sched.current
    ensures
      var c, prev, next := CoreOf(k, op), k.sched.current, NextCurrent(k, op);
      && |c.table| == |k.sched.table| && Suspended(k.sched, next)
      && CanSwitch(c, prev, next, Low(b, c.table, prev), Top(b, c.table, prev), Low(b, c.table, next), Top(b, c.table, next))
      && SavedAt(b, c.ram, c.table, k.saved, next)
  {
    hide Next, Acyclic, OneRuns, PidsDistinct, LinksUsed, Owned, Untabled, ContextAt;
    TurnKeepsStacks(k.sched, op);
    assert SavedAt(b, k.mem.words, k.sched.table, k.saved, NextCurrent(k, op));
  }

  // `schedule` and the switch it makes.
  ghost function Turn(b: Boot, k: Kernel, op: Op): Kernel
    requires Inv(b, k) && ReadyToSwitch(b, k) && !op.Create? && Allowed(k.sched, op)
  {
    var prev, next := k.sched.current, NextCurrent(k, op);
    if next == prev then k.(sched := Next(k.sched, op))
    else
      TurnCanSwitch(b, k, op);
      var c := Switched(CoreOf(k, op), prev, next);
      Kernel(k.mem.(words := c.ram), k.dirs, Next(k.sched, op).(table := c.table), c.regs,
             c.cr3, c.directory, c.tssStack,
             k.saved[prev := ContextOf(k.mem.words, k.regs, k.regs.esp / 4, Top(b, k.sched.table, prev))])
  }

  function AsCore(k: Kernel): Core {
    Core(k.mem.words, k.sched.table, k.regs, k.cr3, k.directory, k.tss)
  }

  // The task that runs next goes on with exactly the context it was suspended with.
  lemma TurnResumes(b: Boot, k: Kernel, op: Op)
    requires Inv(b, k) && ReadyToSwitch(b, k) && !op.Create? && Allowed(k.sched, op)
    requires NextCurrent(k, op) != k.sched.current
    ensures
      var k', next := Turn(b, k, op), NextCurrent(k, op);
      && k'.sched.current == next && next in k.saved && IsSlot(k.sched.table, next)
      && Resumed(AsCore(k'), k.saved[next], Top(b, k.sched.table, next))
  {
    hide Acyclic, OneRuns, PidsDistinct, LinksUsed, Owned, Untabled, ContextAt, Next;
    var c, prev, next := CoreOf(k, op), k.sched.current, NextCurrent(k, op);
    TurnKeepsStacks(k.sched, op);
    TurnCanSwitch(b, k, op);
    SwitchResumes(c, prev, next, Low(b, c.table, prev), Top(b, c.table, prev), Low(b, c.table, next), Top(b, c.table, next));
    hide Switched;
  }

  // The frames of two stacks.
  ghost function FramesOf(words: nat, low: int, top: int, low': int, top': int): set<nat> {
    set g: nat | g < words && (Overlaps(low, top, g) || Overlaps(low', top', g))
  }

  lemma SwitchChanges(c: Core, prev: int, next: int, low: int, top: int, low': int, top': int)
    requires CanSwitch(c, prev, next, low, top, low', top')
    ensures SameOutside(c.ram, Switched(c, prev, next).ram, FramesOf(|c.ram|, low, top, low', top'))
  {
    hide Switched;
    SwitchSuspends(c, prev, next, low, top, low', top');
    var m' := Switched(c, prev, next).ram;
    forall g: nat, j: nat | j < 1024 && g !in FramesOf(|c.ram|, low, top, low', top')
      ensures Word(m', g, j) == Word(c.ram, g, j)
    {
      var a := 1024 * g + j;
      if a < |c.ram| {
        SwitchLeavesOthers(c, prev, next, low, top, low', top', a, a + 1);
        assert m'[a] == m'[a..a + 1][0] && c.ram[a] == c.ram[a..a + 1][0];
      }
    }
  }

  // Writes into stacks of used slots disturb neither ownership nor the stacks' own standing.
  lemma StackWriteKeeps(b: Boot, m: Mem, dirs: set<nat>, t: Table, words: Memory, i: int, j: int)
    requires Owned(m, dirs) && Stacks(b, m, dirs, t) && Used(t, i) && Used(t, j)
    requires SameOutside(m.words, words, FramesOf(|m.words|, Low(b, t, i), Top(b, t, i), Low(b, t, j), Top(b, t, j)))
    ensures Owned(m.(words := words), dirs) && Stacks(b, m.(words := words), dirs, t)
  {
    hide Word, Owned, Untabled, Low, Top;
    var changed := FramesOf(|m.words|, Low(b, t, i), Top(b, t, i), Low(b, t, j), Top(b, t, j));
    assert StackHeld(b, m, dirs, t, i) && StackHeld(b, m, dirs, t, j);
    DataWriteKeepsOwned(m, words, dirs, changed);
    DataWriteKeepsTables(m.words, words, dirs, changed);
    forall x | Used(t, x)
      ensures StackHeld(b, m.(words := words), dirs, t, x)
    {
      assert StackHeld(b, m, dirs, t, x);
    }
  }

  // Only the task-table fields that stacks do not depend on may differ.
  lemma SameEnds(b: Boot, t: Table, t': Table, i: int)
    requires IsSlot(t, i) && IsSlot(t', i) && t'[i].kstack == t[i].kstack
    ensures Low(b, t', i) == Low(b, t, i) && Top(b, t', i) == Top(b, t, i)
  {
  }

  lemma SameStackFields(b: Boot, m: Mem, dirs: set<nat>, t: Table, t': Table)
    requires |t'| == |t| && Stacks(b, m, dirs, t)
    requires forall i :: 0 <= i < |t| ==> t'[i].pid == t[i].pid && t'[i].kstack == t[i].kstack
    ensures Stacks(b, m, dirs, t')
  {
    hide Untabled, Overlaps, Apart, Low, Top;
    forall i | 0 <= i < |t|
      ensures Low(b, t', i) == Low(b, t, i) && Top(b, t', i) == Top(b, t, i)
    {
      SameEnds(b, t, t', i);
    }
    forall i | Used(t', i)
      ensures StackHeld(b, m, dirs, t', i)
    {
      assert StackHeld(b, m, dirs, t, i);
    }
    assert forall i, j :: Used(t', i) && Used(t', j) && i != j ==> Used(t, i) && Used(t, j);
  }

  // A task that is neither of the two keeps its context.
  lemma ThirdKept(b: Boot, k: Kernel, op: Op, i: int)
    requires Inv(b, k) && ReadyToSwitch(b, k) && !op.Create? && Allowed(k.sched, op)
    requires NextCurrent(k, op) != k.sched.current
    requires Suspended(k.sched, i) && i != NextCurrent(k, op)
    ensures SavedAt(b, Turn(b, k, op).mem.words, Turn(b, k, op).sched.table, Turn(b, k, op).saved, i)
  {
    hide Acyclic, OneRuns, PidsDistinct, LinksUsed, Owned, Untabled, ContextAt, Next;
    var c, prev, next := CoreOf(k, op), k.sched.current, NextCurrent(k, op);
    TurnKeepsStacks(k.sched, op);
    TurnCanSwitch(b, k, op);
    var low, top := Low(b, k.sched.table, i), Top(b, k.sched.table, i);
    assert SavedAt(b, k.mem.words, k.sched.table, k.saved, i);
    SwitchLeavesOthers(c, prev, next, Low(b, c.table, prev), Top(b, c.table, prev), Low(b, c.table, next), Top(b, c.table, next),
                       k.sched.table[i].esp / 4, top);
    ContextSame(k.mem.words, Turn(b, k, op).mem.words, k.sched.table[i].esp / 4, top);
  }

  lemma PrevSaved(b: Boot, k: Kernel, op: Op)
    requires Inv(b, k) && ReadyToSwitch(b, k) && !op.Create? && Allowed(k.sched, op)
    requires NextCurrent(k, op) != k.sched.current
    ensures SavedAt(b, Turn(b, k, op).mem.words, Turn(b, k, op).sched.table, Turn(b, k, op).saved, k.sched.current)
  {
    hide Acyclic, OneRuns, PidsDistinct, LinksUsed, Owned, Untabled, ContextAt, ContextOf, Next;
    var c, prev, next := CoreOf(k, op), k.sched.current, NextCurrent(k, op);
    TurnKeepsStacks(k.sched, op);
    TurnCanSwitch(b, k, op);
    SwitchSuspends(c, prev, next, Low(b, c.table, prev), Top(b, c.table, prev), Low(b, c.table, next), Top(b, c.table, next));
  }

  lemma TurnKeepsMemory(b: Boot, k: Kernel, op: Op)
    requires Inv(b, k) && ReadyToSwitch(b, k) && !op.Create? && Allowed(k.sched, op)
    requires NextCurrent(k, op) != k.sched.current
    ensures Owned(Turn(b, k, op).mem, k.dirs) && Stacks(b, Turn(b, k, op).mem, k.dirs, Turn(b, k, op).sched.table)
    ensures |Turn(b, k, op).mem.words| == |k.mem.words|
  {
    hide Acyclic, OneRuns, PidsDistinct, LinksUsed, Owned, Untabled, AllSaved, Next;
    var c, prev, next := CoreOf(k, op), k.sched.current, NextCurrent(k, op);
    TurnKeepsStacks(k.sched, op);
    TurnCanSwitch(b, k, op);
    SwitchChanges(c, prev, next, Low(b, c.table, prev), Top(b, c.table, prev), Low(b, c.table, next), Top(b, c.table, next));
    StackWriteKeeps(b, k.mem, k.dirs, k.sched.table, Turn(b, k, op).mem.words, prev, next);
    SameStackFields(b, Turn(b, k, op).mem, k.dirs, k.sched.table, Turn(b, k, op).sched.table);
  }

  lemma TurnKeepsSched(b: Boot, k: Kernel, op: Op)
    requires Inv(b, k) && ReadyToSwitch(b, k) && !op.Create? && Allowed(k.sched, op)
    ensures Sound(Turn(b, k, op).sched)
  {
    hide Acyclic, OneRuns, PidsDistinct, LinksUsed, Owned, Untabled, AllSaved, Stacks, Next;
    StepSound(k.sched, op);
    var prev, next := k.sched.current, NextCurrent(k, op);
    if next != prev {
      TurnCanSwitch(b, k, op);
      EspKeepsSound(Next(k.sched, op), prev, k.regs.esp - 16);
    }
  }

  lemma TurnKeepsDirectories(b: Boot, k: Kernel, op: Op)
    requires Inv(b, k) && ReadyToSwitch(b, k) && !op.Create? && Allowed(k.sched, op)
    ensures DirectoriesLive(Turn(b, k, op))
  {
    hide Acyclic, OneRuns, PidsDistinct, LinksUsed, Owned, Untabled, AllSaved, Stacks, Next;
    TurnKeepsStacks(k.sched, op);
    if NextCurrent(k, op) != k.sched.current {
      TurnCanSwitch(b, k, op);
      assert Suspended(k.sched, NextCurrent(k, op));
    } else {
      SameTurn(k.sched, op);
    }
    var k' := Turn(b, k, op);
    forall i | Used(k'.sched.table, i) && k'.sched.table[i].state != Zombie
      ensures k'.sched.table[i].pageDir / 4096 in k.dirs
    {
      assert Used(k.sched.table, i);
    }
  }

  // Every task suspended after the turn has its context in `saved`.
  lemma TurnKeepsSaved(b: Boot, k: Kernel, op: Op)
    requires Inv(b, k) && ReadyToSwitch(b, k) && !op.Create? && Allowed(k.sched, op)
    requires NextCurrent(k, op) != k.sched.current
    ensures AllSaved(b, Turn(b, k, op))
  {
    var k' := Turn(b, k, op);
    TurnKeepsStacks(k.sched, op);
    TurnCanSwitch(b, k, op);
    forall i | Suspended(k'.sched, i)
      ensures SavedAt(b, k'.mem.words, k'.sched.table, k'.saved, i)
    {
      if i == k.sched.current {
        PrevSaved(b, k, op);
      } else {
        assert Suspended(k.sched, i);
        ThirdKept(b, k, op, i);
      }
    }
  }

  lemma TurnKeepsInv(b: Boot, k: Kernel, op: Op)
    requires Inv(b, k) && ReadyToSwitch(b, k) && !op.Create? && Allowed(k.sched, op)
    ensures Inv(b, Turn(b, k, op))
  {
    hide Acyclic, OneRuns, PidsDistinct, LinksUsed, Owned, DirectoriesLive, Untabled, ContextAt, Next;
    TurnKeepsSched(b, k, op);
    TurnKeepsDirectories(b, k, op);
    if NextCurrent(k, op) != k.sched.current {
      TurnKeepsMemory(b, k, op);
      TurnKeepsSaved(b, k, op);
      hide AllSaved, Stacks;
    } else {
      SameTurn(k.sched, op);
    }
  }

  lemma SameTurn(s: Sched, op: Op)
    requires Sound(s) && !op.Create? && Allowed(s, op) && Next(s, op).current == s.current
    ensures Next(s, op) == s
  {
    hide Acyclic, PidsDistinct, LinksUsed, Pick;
    if op.Exit? {
      ExitSound(s);
    }
  }
}
