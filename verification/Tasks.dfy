/**
  Tasks as the kernel runs them (src/task.c, src/switch.s): the slot table, the run list
  and the processor's registers, updated in place.
 */
module Tasks {
  import opened Words
  import opened Frames
  import opened Paging
  import opened VirtualMemory
  import opened Scheduler
  import opened SchedulerRuns
  import opened ContextSwitch
  import TaskRuns

  class TaskManager {
    const machine: Machine
    const table: array<Task>
    var head: int
    var current: int
    var nextPid: word
    var regs: Regs
    var tss: word

    ghost function View(): Sched
      reads this, table
    {
      Sched(table[..], head, current, nextPid)
    }

    constructor (m: Machine)
      ensures machine == m && table.Length == MAX_TASKS && fresh(table)
      ensures head == NULL && current == NULL && nextPid == 1
    {
      machine := m;
      table := new Task[MAX_TASKS](_ => Task(0, 0, 0, 0, 0, Ready, NULL));
      head, current, nextPid := NULL, NULL, 1;
      regs := Regs(0, 0, 0, 0, 0, 0);
      tss := 0;
    }

    // `scheduler_init`
    method SchedulerInit(cr3: word)
      requires table.Length == MAX_TASKS
      modifies this`head, this`current, this`nextPid, table, machine`interrupts
      ensures View() == InitialSched(cr3) && !machine.interrupts
    {
      machine.interrupts := false;
      for i := 0 to MAX_TASKS
        invariant forall k :: 0 <= k < i ==> table[k] == Task(0, 0, 0, 0, 0, Ready, NULL)
        invariant !machine.interrupts
      {
        table[i] := Task(0, 0, 0, 0, 0, Ready, NULL);
      }
      nextPid := 2;
      table[0] := Task(1, 0, 0, cr3, 0, Running, NULL);
      head := 0;
      current := 0;
    }

    // ---------- schedule ----------

    // The search loop. It is only entered where it ends; see SearchEndsIff.
    method Search(ghost rank: seq<nat>) returns (curr: int)
      requires IsSlot(table[..], current) && IsSlot(table[..], head)
      requires Ranked(table[..], rank) && Pick(View()).Some?
      ensures Some(curr) == Pick(View())
    {
      hide SearchPath;
      ghost var s := View();
      ghost var path := SearchPath(s);
      PathStart(s, rank);
      PathSlots(s);
      curr := table[current].next;
      if curr == NULL {
        curr := head;
      }
      ghost var k := 0;
      while curr != current && table[curr].state != Ready
        invariant 0 <= k < |path| && curr == path[k] && IsSlot(table[..], curr)
        invariant FirstStop(s, path[k..]) == Pick(s)
        decreases |path| - k
      {
        assert !Stops(s, path[k..][0]) && path[k..][1..] == path[k + 1..];
        PathNext(s, rank, k);
        curr := table[curr].next;
        if curr == NULL {
          curr := head;
        }
        k := k + 1;
      }
      assert Stops(s, path[k..][0]);
    }

    // ---------- switch_task ----------

    ghost predicate Addressable()
      reads this, machine
    {
      machine.cr3 < PAGES && machine.directory < PAGES
    }

    ghost function CoreView(): Core
      requires Addressable()
      reads this, table, machine
    {
      Core(machine.ram, table[..], regs, 4096 * machine.cr3, 4096 * machine.directory, tss)
    }

    method Push(w: word)
      requires regs.esp >= 4
      modifies this`regs, machine`ram
      ensures regs == old(regs).(esp := old(regs).esp - 4)
      ensures machine.ram == Put(old(machine.ram), old(regs).esp / 4 - 1, w)
    {
      regs := regs.(esp := regs.esp - 4);
      machine.ram := Put(machine.ram, regs.esp / 4, w);
    }

    method Pop() returns (w: word)
      requires regs.esp + 4 < WORD_SIZE
      modifies this`regs
      ensures regs == old(regs).(esp := old(regs).esp + 4) && w == Fetch(machine.ram, old(regs).esp / 4)
    {
      w := Fetch(machine.ram, regs.esp / 4);
      regs := regs.(esp := regs.esp + 4);
    }

    // The four pushes.
    method PushFrame()
      requires 16 <= regs.esp
      modifies this`regs, machine`ram
      ensures machine.ram == Pushed(old(machine.ram), old(regs)) && regs == old(regs).(esp := old(regs).esp - 16)
    {
      hide Put;
      Push(regs.ebp);
      Push(regs.ebx);
      Push(regs.esi);
      Push(regs.edi);
    }

    // `push ecx`, the call of `tss_set_kernel_stack`, and `add esp, 4`.
    method CallTss(t: Task)
      requires regs.esp == t.esp && 8 <= t.esp
      modifies this`regs, this`tss, machine`ram
      ensures machine.ram == Called(old(machine.ram), t) && regs == old(regs) && tss == t.kstack
    {
      hide Put;
      Push(t.kstack);
      Push(AFTER_TSS_CALL);
      tss := t.kstack;
      regs := regs.(esp := regs.esp + 8);
    }

    // The four pops and the `ret`.
    method PopFrame(t: Task)
      requires regs.esp == t.esp && t.esp + 20 < WORD_SIZE
      modifies this`regs
      ensures regs == Popped(machine.ram, t)
    {
      hide Fetch;
      var edi := Pop();
      var esi := Pop();
      var ebx := Pop();
      var ebp := Pop();
      var eip := Pop();
      regs := Regs(edi, esi, ebx, ebp, regs.esp, eip);
    }

    method SwitchTask(prev: int, next: int)
      requires IsSlot(table[..], prev) && IsSlot(table[..], next) && prev != next && Addressable()
      requires 16 <= regs.esp && 8 <= table[next].esp && table[next].esp + 20 < WORD_SIZE
      requires table[next].pageDir % 4096 == 0
      modifies this`regs, this`tss, table, machine`ram, machine`directory, machine`cr3, machine`tlb
      ensures Addressable() && CoreView() == Switched(old(CoreView()), prev, next)
      ensures 4096 * machine.cr3 == old(table[next].pageDir) && tss == old(table[next].kstack)
      ensures old(machine.cr3 == machine.directory) ==> machine.directory == machine.cr3
      ensures machine.tlb == if old(machine.cr3 == table[next].pageDir / 4096) then old(machine.tlb) else map[]
    {
      hide Pushed, Called, Popped;
      PushFrame();
      table[prev] := table[prev].(esp := regs.esp);
      var to := table[next];
      regs := regs.(esp := to.esp);
      if to.pageDir != 4096 * machine.cr3 {
        machine.LoadCr3(to.pageDir / 4096);
      }
      CallTss(to);
      PopFrame(to);
    }

    // ---------- schedule, task_yield, task_exit ----------

    // The stacks of the two tasks of a switch have room for it.
    ghost predicate CanSwitchFrom(s: Sched)
      reads this, machine
    {
      && 16 <= regs.esp && Addressable()
      && forall i :: 0 <= i < |s.table| ==>
           s.table[i].pageDir % 4096 == 0 && (Live(s.table[i]) && i != s.current ==> 8 <= s.table[i].esp < 0xFFFF_FF00)
    }

    // What `schedule` leaves behind, from core `c` with tasks `s`.
    ghost predicate Scheduled(s: Sched, c: Core)
      requires IsSlot(s.table, s.current)
      reads this, table, machine
    {
      var s' := Dispatch(s);
      && Addressable() && current == s'.current && head == s.head && nextPid == s.nextPid
      && (if s'.current == s.current then CoreView() == c.(table := s'.table)
          else
            && IsSlot(s'.table, s.current) && IsSlot(s'.table, s'.current)
            && 16 <= c.regs.esp && s'.table[s'.current].esp + 20 < WORD_SIZE
            && CoreView() == Switched(c.(table := s'.table), s.current, s'.current))
    }

    // The body of `schedule` once there is a current task.
    method TakeTurn()
      requires Schedulable(View()) && CanSwitchFrom(View())
      modifies this`current, this`regs, this`tss, table, machine`ram, machine`directory, machine`cr3, machine`tlb
      ensures Scheduled(old(View()), old(CoreView()))
      ensures current != old(current) ==>
                && IsSlot(table[..], current) && 4096 * machine.cr3 == table[current].pageDir && tss == table[current].kstack
                && (old(machine.cr3 == machine.directory) ==> machine.directory == machine.cr3)
      ensures current == old(current) ==>
                && machine.cr3 == old(machine.cr3) && machine.directory == old(machine.directory)
                && machine.tlb == old(machine.tlb) && tss == old(tss)
    {
      hide Pick, Switched, Ranked;
      ghost var s := View();
      ghost var rank :| Ranked(s.table, rank);
      var curr := Search(rank);
      if curr != current && table[curr].state == Ready {
        var prev := current;
        if table[prev].state == Running {
          table[prev] := table[prev].(state := Ready);
        }
        table[curr] := table[curr].(state := Running);
        current := curr;
        assert table[..] == Dispatch(s).table;
        SwitchLoads(CoreView(), prev, curr);
        SwitchTask(prev, curr);
      }
    }

    // `schedule`; before `scheduler_init` there is no current task, and nothing happens.
    method Schedule()
      requires current != NULL ==> Schedulable(View()) && CanSwitchFrom(View())
      modifies this`current, this`regs, this`tss, table, machine`ram, machine`directory, machine`cr3, machine`tlb
      ensures old(current) == NULL ==> View() == old(View()) && regs == old(regs) && machine.ram == old(machine.ram)
      ensures old(current) != NULL ==> Scheduled(old(View()), old(CoreView()))
      ensures current != old(current) ==>
                && IsSlot(table[..], current) && 4096 * machine.cr3 == table[current].pageDir && tss == table[current].kstack
                && (old(machine.cr3 == machine.directory) ==> machine.directory == machine.cr3)
      ensures current == old(current) ==>
                && machine.cr3 == old(machine.cr3) && machine.directory == old(machine.directory)
                && machine.tlb == old(machine.tlb) && tss == old(tss)
    {
      hide Scheduled, Schedulable, CanSwitchFrom;
      if current != NULL {
        TakeTurn();
      }
    }

    // `task_yield`. After a switch its `sti` waits until the yielding task runs again, so
    // the next task goes on with interrupts off.
    method Yield()
      requires Sound(View()) && CanSwitchFrom(View())
      modifies this`current, this`regs, this`tss, table
      modifies machine`ram, machine`directory, machine`cr3, machine`tlb, machine`interrupts
      ensures Scheduled(old(View()), old(CoreView()))
      ensures machine.interrupts <==> current == old(current)
    {
      hide Schedulable, Switched, Dispatch;
      SoundSchedulable(View());
      machine.interrupts := false;
      var yielding := current;
      Schedule();
      if current == yielding {
        machine.interrupts := true;
      }
    }

    // `task_exit`: reaching the end of the method would be the halt loop.
    method Exit() returns (halted: bool)
      requires Sound(View()) && CanSwitchFrom(View()) && current != 0
      modifies this`current, this`regs, this`tss, table
      modifies machine`ram, machine`directory, machine`cr3, machine`tlb, machine`interrupts
      ensures !halted && current == ExitTask(old(View())).current != old(current) && !machine.interrupts
      ensures Scheduled(Exited(old(View())), old(CoreView()).(table := Exited(old(View())).table))
    {
      hide Schedulable, Switched, Dispatch;
      ghost var s := View();
      ExitSound(s);
      SoundSchedulable(s);
      machine.interrupts := false;
      table[current] := table[current].(state := Zombie);
      assert View() == Exited(s);
      var before := current;
      Schedule();
      halted := current == before;
    }

    // ---------- task_create ----------

    // The slot search.
    method FindFree() returns (slot: int)
      requires table.Length == MAX_TASKS
      ensures slot == FindSlot(table[..], 1)
    {
      for i := 1 to MAX_TASKS
        invariant FindSlot(table[..], i) == FindSlot(table[..], 1)
      {
        if table[i].pid == 0 || table[i].state == Zombie {
          return i;
        }
      }
      return NULL;
    }

    // Walks to the end of the run list.
    method Tail(ghost rank: seq<nat>) returns (last: int)
      requires IsSlot(table[..], head) && Ranked(table[..], rank)
      ensures last == Last(Chain(table[..], head)) && IsSlot(table[..], last)
    {
      ghost var list := Chain(table[..], head);
      ChainIsList(table[..], rank, head);
      last := head;
      ghost var k := 0;
      while table[last].next != NULL
        invariant 0 <= k < |list| && last == list[k] && IsSlot(table[..], last)
        decreases |list| - k
      {
        ListAt(table[..], head, list, k);
        last := table[last].next;
        k := k + 1;
      }
      ListAt(table[..], head, list, k);
    }

    // Fills the slot and appends it, in the order of the code: the new slot's own link is
    // cleared last.
    method Enlist(slot: int, t: NewTask)
      requires IsSlot(table[..], slot) && (head == NULL || IsSlot(table[..], head)) && Acyclic(table[..])
      modifies this`head, this`nextPid, table
      ensures View() == CreateIn(old(View()), slot, t)
    {
      ghost var s := View();
      ghost var rank :| Ranked(s.table, rank);
      table[slot] := table[slot].(pid := nextPid);
      nextPid := Add32(nextPid, 1);
      table[slot] := table[slot].(state := Ready, pageDir := t.pageDir, kstack := t.kstack, eip := t.eip);
      table[slot] := table[slot].(esp := t.esp);
      assert table[..] == Filled(s, slot, t);
      FilledRanked(s, slot, t, rank);
      if head == NULL {
        head := slot;
      } else {
        var last := Tail(rank);
        table[last] := table[last].(next := slot);
      }
      table[slot] := table[slot].(next := NULL);
    }

    // The seven stack words.
    method BuildFrame(f: nat, entry: word)
      modifies machine`ram
      ensures machine.ram == TaskRuns.Framed(old(machine.ram), f, entry)
    {
      hide Put;
      var top := 1024 * f + 1024;
      machine.ram := Put(machine.ram, top - 1, entry);
      machine.ram := Put(machine.ram, top - 2, TASK_EXIT);
      machine.ram := Put(machine.ram, top - 3, TASK_KERNEL_BOOTSTRAP);
      machine.ram := Put(machine.ram, top - 4, 0);
      machine.ram := Put(machine.ram, top - 5, 0);
      machine.ram := Put(machine.ram, top - 6, 0);
      machine.ram := Put(machine.ram, top - 7, 0);
    }

    // Allocates, clears, maps and fills the kernel stack; no frame when memory is out.
    method PrepareStack(start: word) returns (ok: bool, frame: Option<nat>)
      requires machine.Ready()
      modifies machine`ram, machine`tlb, machine.pmm`used, machine.pmm`free, machine.pmm.bitmap
      ensures machine.Valid()
      ensures old(machine.pmm.free) == {} ==> ok && frame.None? && machine.View() == old(machine.View())
      ensures old(machine.pmm.free) != {} ==>
                var made := TaskRuns.StackMem(old(machine.View()), machine.directory, start);
                && frame == Some(Lowest(old(machine.pmm.free))) && frame.value < MAX_BLOCKS
                && (ok <==> made.Some?)
                && (ok ==> Some(machine.View()) == made)
      ensures ok && frame.Some? ==>
                var top := 1024 * frame.value + 1024;
                top <= |machine.ram| && machine.ram[top - 7..top] == [0, 0, 0, 0, TASK_KERNEL_BOOTSTRAP, TASK_EXIT, start]
    {
      hide FrameAllocator.Valid, MapPage, Zeroed, TaskRuns.Framed, Or;
      machine.FramesInRam();
      ok := true;
      frame := machine.AllocFrame();
      if frame.None? {
        return;
      }
      var f := frame.value;
      assert InRam(machine.ram, f) by { assert f in old(machine.pmm.free); }
      ZeroedMeaning(machine.ram, f);
      machine.ram := Zeroed(machine.ram, f);
      machine.FramesInRam();
      ThreeIsFlags(f);
      ok := machine.Map(4096 * f, 4096 * f, Or(PRESENT, WRITE));
      if ok {
        FramedSize(machine.ram, f, start);
        FramedWords(machine.ram, f, start);
        BuildFrame(f, start);
      }
    }

    // `task_create`: the new slot, NULL when none or no memory is left, and `ok` unless the
    // machine halted. Interrupts stay off.
    method Create(entry: word, pageDir: word, isUser: bool) returns (ok: bool, slot: int)
      requires machine.Ready() && Addressable() && (table as object) != machine.pmm.bitmap
      requires table.Length == MAX_TASKS && (head == NULL || IsSlot(table[..], head)) && Acyclic(table[..])
      modifies this`head, this`nextPid, table
      modifies machine`ram, machine`tlb, machine`interrupts, machine.pmm`used, machine.pmm`free, machine.pmm.bitmap
      ensures machine.Valid() && !machine.interrupts
      ensures old(FindSlot(table[..], 1) == NULL || machine.pmm.free == {}) ==>
                ok && slot == NULL && View() == old(View()) && machine.View() == old(machine.View())
      ensures old(FindSlot(table[..], 1) != NULL && machine.pmm.free != {}) ==>
                var s, m, f := old(View()), old(machine.View()), Lowest(old(machine.pmm.free));
                var made := TaskRuns.StackMem(m, machine.directory, TaskRuns.KernelStart(entry, isUser));
                && (ok <==> made.Some?)
                && (ok ==>
                      && f < MAX_BLOCKS && slot == FindSlot(s.table, 1) && Some(machine.View()) == made
                      && View() == CreateTask(s, TaskRuns.TaskFor(f, entry, if pageDir != 0 then pageDir else 4096 * machine.cr3)))
      // The record and the stack of the new task, word by word.
      ensures ok && slot != NULL ==>
                var f, top := Lowest(old(machine.pmm.free)), 1024 * Lowest(old(machine.pmm.free)) + 1024;
                && IsSlot(table[..], slot) && f < MAX_BLOCKS && top <= |machine.ram|
                && table[slot] == Task(old(nextPid), 4096 * f + 4068, entry, if pageDir == 0 then 4096 * machine.cr3 else pageDir,
                                       4096 * f + 4096, Ready, NULL)
                && machine.ram[top - 7..top]
                   == [0, 0, 0, 0, TASK_KERNEL_BOOTSTRAP, TASK_EXIT, if isUser then TaskRuns.TASK_USER_BOOTSTRAP else entry]
    {
      hide FrameAllocator.Valid, TaskRuns.StackMem, CreateIn, Acyclic;
      machine.interrupts := false;
      slot := FindFree();
      if slot == NULL {
        return true, NULL;
      }
      var frame;
      ok, frame := PrepareStack(if isUser then TaskRuns.TASK_USER_BOOTSTRAP else entry);
      if !ok || frame.None? {
        return ok, NULL;
      }
      var pd := if pageDir != 0 then pageDir else 4096 * machine.cr3;
      TaskRuns.CreateFields(View(), TaskRuns.TaskFor(frame.value, entry, pd));
      machine.FramesInRam();
      Enlist(slot, TaskRuns.TaskFor(frame.value, entry, pd));
    }
  }

  // The state a task leaves by setting itself to zombie.
  function Exited(s: Sched): Sched
    requires IsSlot(s.table, s.current)
  {
    s.(table := s.table[s.current := s.table[s.current].(state := Zombie)])
  }

  // The search of `schedule` ends, with the current task or with a used one.
  ghost predicate Schedulable(s: Sched) {
    && IsSlot(s.table, s.current) && IsSlot(s.table, s.head) && Acyclic(s.table)
    && Pick(s).Some? && IsSlot(s.table, Pick(s).value)
    && (Pick(s).value == s.current || (Live(s.table[Pick(s).value]) && s.table[Pick(s).value].state == Ready))
  }

  lemma SoundSchedulable(s: Sched)
    requires Sound(s)
    ensures Schedulable(s)
    ensures s.current != 0 ==> Schedulable(Exited(s))
  {
    BootFound(s);
    PickUsed(s);
    if s.current != 0 {
      SameLinksKeep(s, Exited(s));
      BootFound(Exited(s));
      PickUsed(Exited(s));
    }
    hide Pick, Chain;
  }

  lemma PathSlots(s: Sched)
    requires IsSlot(s.table, s.current)
    ensures forall k :: 0 <= k < |SearchPath(s)| ==> IsSlot(s.table, SearchPath(s)[k])
  {
  }

  lemma FramedWords(m: Memory, f: nat, start: word)
    requires InRam(m, f)
    ensures |TaskRuns.Framed(m, f, start)| == |m|
    ensures
      var top := 1024 * f + 1024;
      TaskRuns.Framed(m, f, start)[top - 7..top] == [0, 0, 0, 0, TASK_KERNEL_BOOTSTRAP, TASK_EXIT, start]
  {
  }

  lemma FramedSize(m: Memory, f: nat, entry: word)
    ensures |TaskRuns.Framed(m, f, entry)| == |m|
  {
  }

  lemma ThreeIsFlags(f: nat)
    requires f < PAGES
    ensures Or(1, 2) == 3 && Or(4096 * f, 3) == TaskRuns.KernelEntry(f)
  {
    PackFlags(f, 0, 3);
  }
}
