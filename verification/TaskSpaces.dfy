/**
  Address spaces and trap stacks of tasks over whole runs (src/switch.s, src/task.c): the
  running task is always in its own address space, and the turns of the kernel's tasks are
  those of the protocol that keeps CR3 and `current_page_directory` in step.
 */
module TaskSpaces {
  import opened Words
  import opened Frames
  import opened Paging
  import opened Scheduler
  import opened SchedulerRuns
  import opened ContextSwitch
  import opened TaskContexts
  import opened TaskRuns
  import Protocol

  // ---------- the running task is in its own space ----------

  predicate InOwnSpace(k: Kernel) {
    IsSlot(k.sched.table, k.sched.current) && k.cr3 == k.directory == k.sched.table[k.sched.current].pageDir
  }

  // A trap from user mode switches to the running task's kernel stack.
  predicate OwnTrapStack(k: Kernel) {
    IsSlot(k.sched.table, k.sched.current) && k.tss == k.sched.table[k.sched.current].kstack
  }

  // A turn that changes the current task loads the next one's directory and trap stack.
  lemma TurnLoads(b: Boot, k: Kernel, op: Op)
    requires Inv(b, k) && ReadyToSwitch(b, k) && !op.Create? && Allowed(k.sched, op)
    ensures
      var k' := Turn(b, k, op);
      && k'.sched.current == NextCurrent(k, op)
      && (NextCurrent(k, op) != k.sched.current ==>
            IsSlot(k.sched.table, k'.sched.current) && k'.cr3 == k.sched.table[k'.sched.current].pageDir && OwnTrapStack(k'))
      && (InOwnSpace(k) ==> InOwnSpace(k')) && (OwnTrapStack(k) ==> OwnTrapStack(k'))
  {
    hide Acyclic, OneRuns, PidsDistinct, LinksUsed, Owned, Untabled, Stacks, AllSaved, ContextAt, ContextOf, Next;
    TurnKeepsStacks(k.sched, op);
    if NextCurrent(k, op) != k.sched.current {
      TurnCanSwitch(b, k, op);
      SwitchLoads(CoreOf(k, op), k.sched.current, NextCurrent(k, op));
      hide Switched;
    } else {
      SameTurn(k.sched, op);
    }
  }

  // A creation leaves the running task where it is.
  lemma SpawnKeepsSpace(b: Boot, k: Kernel, entry: word, isUser: bool, pageDir: word)
    requires Inv(b, k) && |k.sched.table| >= 1 && (k.mem.free != {} ==> Lowest(k.mem.free) < MAX_BLOCKS)
    requires Spawn(k, entry, isUser, pageDir).Some?
    ensures
      var k' := Spawn(k, entry, isUser, pageDir).value;
      (InOwnSpace(k) ==> InOwnSpace(k')) && (OwnTrapStack(k) ==> OwnTrapStack(k'))
  {
    hide Acyclic, PidsDistinct, LinksUsed, Owned, Untabled, Stacks, AllSaved, StackMem, CreateTask;
    var slot := FindSlot(k.sched.table, 1);
    if slot != NULL && k.mem.free != {} {
      CreateFields(k.sched, TaskFor(Lowest(k.mem.free), entry, if pageDir != 0 then pageDir else k.cr3));
      Protocol.SlotNotCurrent(k.sched);
    }
  }

  // Between two turns a task's work comes back to its own space; the loader's window does
  // (see Protocol.WindowRestores).
  predicate WorkReturns(run: seq<Step>) {
    forall i :: 0 <= i < |run| && run[i].Work? ==> InOwnSpace(run[i].after) && OwnTrapStack(run[i].after)
  }

  lemma StepKeepsSpace(b: Boot, k: Kernel, st: Step)
    requires Enabled(b, k, st) && InOwnSpace(k) && (st.Work? ==> InOwnSpace(st.after) && OwnTrapStack(st.after))
    ensures InOwnSpace(After(b, k, st))
    ensures OwnTrapStack(k) ==> OwnTrapStack(After(b, k, st))
  {
    hide Inv, InOwnSpace, OwnTrapStack, Turn, Spawn, Works;
    match st
    case Work(k') =>
    case Take(op) => TurnLoads(b, k, op);
    case New(entry, isUser, pageDir) =>
      FreeBounded(b, k);
      SpawnKeepsSpace(b, k, entry, isUser, pageDir);
  }

  // Over every run CR3, `current_page_directory` and the running task's directory are one, and
  // the trap stack is the running task's own.
  lemma {:induction false} AlwaysInOwnSpace(b: Boot, k: Kernel, run: seq<Step>)
    requires Inv(b, k) && TaskRuns.Legal(b, k, run) && WorkReturns(run) && InOwnSpace(k)
    ensures InOwnSpace(TaskRuns.Run(b, k, run))
    ensures OwnTrapStack(k) ==> OwnTrapStack(TaskRuns.Run(b, k, run))
    decreases |run|
  {
    hide Inv, Enabled, After, InOwnSpace, OwnTrapStack;
    if run != [] {
      EnabledStep(b, k, run[0]);
      StepKeepsInv(b, k, run[0]);
      StepKeepsSpace(b, k, run[0]);
      AlwaysInOwnSpace(b, After(b, k, run[0]), run[1..]);
    }
  }

  // ---------- the protocol's turns are the kernel's ----------

  // The same tasks; saved stack pointers may differ, which the protocol does not follow.
  predicate Alike(s: Sched, t: Sched) {
    && |s.table| == |t.table| && s.head == t.head && s.current == t.current && s.nextPid == t.nextPid
    && forall i :: 0 <= i < |s.table| ==> t.table[i] == s.table[i].(esp := t.table[i].esp)
  }

  lemma {:induction false} AlikeStops(s: Sched, t: Sched, path: seq<int>)
    requires Alike(s, t)
    ensures FirstStop(s, path) == FirstStop(t, path)
  {
    if path != [] {
      AlikeStops(s, t, path[1..]);
    }
  }

  lemma AlikePick(s: Sched, t: Sched)
    requires Alike(s, t) && IsSlot(s.table, s.current)
    ensures Pick(s) == Pick(t)
  {
    assert SameLinks(s.table, t.table);
    SameLinksKeep(s, t);
    hide Chain;
    AlikeStops(s, t, SearchPath(s));
  }

  lemma AlikeDispatch(s: Sched, t: Sched)
    requires Alike(s, t) && IsSlot(s.table, s.current)
    ensures Alike(Dispatch(s), Dispatch(t))
  {
    AlikePick(s, t);
    hide Pick;
    PickSlot(s);
  }

  lemma AlikeTurn(s: Sched, t: Sched, op: Op)
    requires Alike(s, t) && IsSlot(s.table, s.current) && !op.Create?
    ensures Alike(SchedulerRuns.Next(s, op), SchedulerRuns.Next(t, op))
  {
    hide Dispatch;
    if op.Exit? {
      AlikeDispatch(s.(table := s.table[s.current := s.table[s.current].(state := Zombie)]),
                    t.(table := t.table[t.current := t.table[t.current].(state := Zombie)]));
    } else {
      AlikeDispatch(s, t);
    }
  }

  ghost predicate Matches(p: Protocol.State, k: Kernel) {
    Alike(p.sched, k.sched) && p.cr3 == k.cr3 && p.directory == k.directory
  }

  // From matching states a turn of the protocol and a turn of the kernel give the same CR3,
  // the same `current_page_directory` and the same tasks.
  lemma TurnsMatch(b: Boot, k: Kernel, p: Protocol.State, op: Op)
    requires Inv(b, k) && ReadyToSwitch(b, k) && !op.Create? && Allowed(k.sched, op)
    requires Sound(p.sched) && Matches(p, k)
    ensures Allowed(p.sched, op) && Matches(Protocol.AfterTurn(p, op), Turn(b, k, op))
  {
    hide Acyclic, OneRuns, PidsDistinct, LinksUsed, Owned, Untabled, Stacks, AllSaved, ContextAt, ContextOf, SchedulerRuns.Next;
    AlikeTurn(p.sched, k.sched, op);
    StepSound(p.sched, op);
    if NextCurrent(k, op) != k.sched.current {
      TurnCanSwitch(b, k, op);
    }
  }

  lemma {:induction false} AlikeFindSlot(s: Sched, t: Sched, i: nat)
    requires Alike(s, t) && i <= |s.table|
    ensures FindSlot(s.table, i) == FindSlot(t.table, i)
    decreases |s.table| - i
  {
    if i < |s.table| {
      AlikeFindSlot(s, t, i + 1);
    }
  }

  lemma AlikeCreate(s: Sched, t: Sched, task: NewTask)
    requires Alike(s, t) && |s.table| >= 1
    ensures Alike(CreateTask(s, task), CreateTask(t, task))
  {
    hide Chain, Follow;
    AlikeFindSlot(s, t, 1);
    var slot := FindSlot(s.table, 1);
    if slot != NULL {
      SameTail(s, t, slot, task);
    }
  }

  lemma SameTail(s: Sched, t: Sched, slot: int, task: NewTask)
    requires Alike(s, t) && IsSlot(s.table, slot)
    ensures Chain(Filled(s, slot, task), s.head) == Chain(Filled(t, slot, task), t.head)
  {
    hide Follow;
    FilledFollow(s, slot, task, s.head, |s.table|);
    FilledFollow(t, slot, task, t.head, |t.table|);
    SameLinksFollow(s.table, t.table, s.head, |s.table|);
  }

  // The same for a creation that finds a slot and a frame for the stack.
  lemma SpawnsMatch(b: Boot, k: Kernel, p: Protocol.State, entry: word, isUser: bool, pageDir: word)
    requires Inv(b, k) && |k.sched.table| >= 1 && k.mem.free != {} && Lowest(k.mem.free) < MAX_BLOCKS
    requires FindSlot(k.sched.table, 1) != NULL && Spawn(k, entry, isUser, pageDir).Some? && Matches(p, k)
    requires Protocol.Enabled(p, Protocol.Spawn(TaskFor(Lowest(k.mem.free), entry, pageDir)))
    ensures Matches(Protocol.Next(p, Protocol.Spawn(TaskFor(Lowest(k.mem.free), entry, pageDir))),
                    Spawn(k, entry, isUser, pageDir).value)
  {
    hide Sound, Owned, Untabled, Stacks, AllSaved, StackMem, CreateTask, FindSlot;
    AlikeCreate(p.sched, k.sched, TaskFor(Lowest(k.mem.free), entry, if pageDir != 0 then pageDir else k.cr3));
  }
}
