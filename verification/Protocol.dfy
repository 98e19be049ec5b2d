/**
  CR3, `current_page_directory` and the running task's page directory (src/switch.s,
  src/task.c, src/elf.c): they agree in every state in which a timer tick can fire,
  although the loader lets them differ for a while.
 */
module Protocol {
  import opened Words
  import opened Scheduler
  import opened SchedulerRuns

  // Where a task is inside the loader's segment loop: it has read
  // `current_page_directory` into `old_pd`, or it is inside the window.
  datatype Phase = Outside | Captured(pd: word) | Window(pd: word)

  datatype State = State(sched: Sched, cr3: word, directory: word, interrupts: bool, phase: seq<Phase>)

  datatype Step =
    | Timer                      // the tick: schedule, from the interrupt
    | Yield                      // task_yield
    | Exit                       // task_exit
    | Spawn(task: NewTask)       // task_create; a page directory of 0 means "the one in CR3"
    | Capture                    // old_pd = current_page_directory
    | Enter(pd: word)            // cli, then both set to the new directory
    | Leave                      // both set back to old_pd, then sti
    | Bootstrap                  // the directory part of task_user_bootstrap
    | Cli
    | Sti

  predicate InWindow(s: State)
    requires 0 <= s.sched.current < |s.phase|
  {
    s.phase[s.sched.current].Window?
  }

  // A tick needs interrupts to be on. The other calls are made by the running code, and
  // the code of the window makes none of them.
  ghost predicate Enabled(s: State, st: Step) {
    && Sound(s.sched) && |s.phase| == MAX_TASKS
    && match st
       case Timer => s.interrupts
       case Yield => !InWindow(s)
       case Exit => s.sched.current != 0 && !InWindow(s)
       case Spawn(t) => Allowed(s.sched, Create(t)) && !InWindow(s)
       case Capture => s.phase[s.sched.current].Outside?
       case Enter(_) => s.phase[s.sched.current].Captured?
       case Leave => InWindow(s)
       case Bootstrap => !InWindow(s)
       case Cli => true
       case Sti => !InWindow(s)
  }

  // The directory part of `switch_task`.
  function Loaded(s: State, sched': Sched): State
    requires IsSlot(sched'.table, sched'.current)
  {
    var pd := sched'.table[sched'.current].pageDir;
    if sched'.current == s.sched.current || pd == s.cr3 then s.(sched := sched')
    else s.(sched := sched', cr3 := pd, directory := pd)
  }

  function WithDirectory(s: State, t: NewTask): NewTask {
    if t.pageDir != 0 then t else t.(pageDir := s.cr3)
  }

  ghost function AfterTurn(s: State, op: Op): State
    requires Sound(s.sched) && Allowed(s.sched, op)
  {
    StepSound(s.sched, op);
    Loaded(s, SchedulerRuns.Next(s.sched, op)).(interrupts := false)
  }

  ghost function Next(s: State, st: Step): State
    requires Enabled(s, st)
  {
    match st
    case Timer => AfterTurn(s, Tick)
    case Yield => AfterTurn(s, Tick)
    case Exit => AfterTurn(s, Op.Exit)
    case Spawn(t) =>
      var slot := FindSlot(s.sched.table, 1);
      s.(sched := CreateTask(s.sched, WithDirectory(s, t)), interrupts := false,
         phase := if slot == NULL then s.phase else s.phase[slot := Outside])
    case Capture => s.(phase := s.phase[s.sched.current := Captured(s.directory)])
    case Enter(pd) =>
      s.(interrupts := false, cr3 := pd, directory := pd,
         phase := s.phase[s.sched.current := Window(s.phase[s.sched.current].pd)])
    case Leave =>
      var pd := s.phase[s.sched.current].pd;
      s.(interrupts := true, cr3 := pd, directory := pd, phase := s.phase[s.sched.current := Outside])
    case Bootstrap =>
      var pd := s.sched.table[s.sched.current].pageDir;
      if pd != 0 && pd != s.directory then s.(cr3 := pd, directory := pd) else s
    case Cli => s.(interrupts := false)
    case Sti => s.(interrupts := true)
  }

  // ---------- the invariant ----------

  predicate Agrees(s: State)
    requires IsSlot(s.sched.table, s.sched.current)
  {
    s.cr3 == s.directory == s.sched.table[s.sched.current].pageDir
  }

  ghost predicate Inv(s: State) {
    && Sound(s.sched) && |s.phase| == MAX_TASKS
    && (forall i :: 0 <= i < MAX_TASKS && !s.phase[i].Outside? ==> s.phase[i].pd == s.sched.table[i].pageDir)
    && (forall i :: 0 <= i < MAX_TASKS && i != s.sched.current ==> !s.phase[i].Window?)
    && (if InWindow(s) then !s.interrupts else Agrees(s))
  }

  // Scheduling changes no task's page directory.
  lemma TurnKeepsDirectories(s: Sched, op: Op, i: int)
    requires IsSlot(s.table, s.current) && !op.Create? && IsSlot(s.table, i)
    ensures |SchedulerRuns.Next(s, op).table| == |s.table|
    ensures SchedulerRuns.Next(s, op).table[i].pageDir == s.table[i].pageDir
  {
    hide Pick;
    if op.Exit? {
      PickSlot(s.(table := s.table[s.current := s.table[s.current].(state := Zombie)]));
    } else {
      PickSlot(s);
    }
  }

  lemma SpawnKeepsDirectories(s: Sched, t: NewTask, i: int)
    requires IsSlot(s.table, i) && i != FindSlot(s.table, 1)
    ensures |CreateTask(s, t).table| == |s.table| && CreateTask(s, t).current == s.current
    ensures CreateTask(s, t).table[i].pageDir == s.table[i].pageDir
  {
    hide Chain;
  }

  lemma TurnKeepsInv(s: State, op: Op)
    requires Inv(s) && !InWindow(s) && !op.Create? && Allowed(s.sched, op)
    ensures Inv(AfterTurn(s, op))
  {
    StepSound(s.sched, op);
    forall i | 0 <= i < MAX_TASKS
      ensures |SchedulerRuns.Next(s.sched, op).table| == MAX_TASKS
      ensures SchedulerRuns.Next(s.sched, op).table[i].pageDir == s.sched.table[i].pageDir
    {
      TurnKeepsDirectories(s.sched, op, i);
    }
    hide SchedulerRuns.Next, Acyclic, OneRuns, PidsDistinct, LinksUsed;
  }

  lemma SlotNotCurrent(s: Sched)
    requires Sound(s)
    ensures FindSlot(s.table, 1) != s.current
  {
  }

  lemma SpawnKeepsInv(s: State, t: NewTask)
    requires Inv(s) && Enabled(s, Spawn(t))
    ensures Inv(Next(s, Spawn(t)))
  {
    hide CreateTask, Acyclic, OneRuns, PidsDistinct, LinksUsed;
    var t' := WithDirectory(s, t);
    CreateSound(s.sched, t');
    SlotNotCurrent(s.sched);
    var slot := FindSlot(s.sched.table, 1);
    forall i | 0 <= i < MAX_TASKS && i != slot
      ensures |CreateTask(s.sched, t').table| == MAX_TASKS && CreateTask(s.sched, t').current == s.sched.current
      ensures CreateTask(s.sched, t').table[i].pageDir == s.sched.table[i].pageDir
    {
      SpawnKeepsDirectories(s.sched, t', i);
    }
  }

  lemma StepKeepsInv(s: State, st: Step)
    requires Inv(s) && Enabled(s, st)
    ensures Inv(Next(s, st))
  {
    match st
    case Timer => TurnKeepsInv(s, Tick);
    case Yield => TurnKeepsInv(s, Tick);
    case Exit => TurnKeepsInv(s, Op.Exit);
    case Spawn(t) => SpawnKeepsInv(s, t);
    case _ =>
  }

  ghost predicate Legal(s: State, run: seq<Step>)
    decreases |run|
  {
    run != [] ==> Enabled(s, run[0]) && Legal(Next(s, run[0]), run[1..])
  }

  ghost function Run(s: State, run: seq<Step>): State
    requires Legal(s, run)
    decreases |run|
  {
    if run == [] then s else Run(Next(s, run[0]), run[1..])
  }

  // Whenever a timer tick can fire, the three agree.
  lemma {:induction false} AgreesWhenInterruptible(s: State, run: seq<Step>)
    requires Inv(s) && Legal(s, run)
    ensures Inv(Run(s, run)) && (Run(s, run).interrupts ==> Agrees(Run(s, run)))
    decreases |run|
  {
    hide Next, Enabled;
    if run != [] {
      StepKeepsInv(s, run[0]);
      AgreesWhenInterruptible(Next(s, run[0]), run[1..]);
    }
  }

  // `task_user_bootstrap` never finds a directory to switch to.
  lemma {:induction false} BootstrapNeverSwitches(s: State, run: seq<Step>)
    requires Inv(s) && Legal(s, run) && Enabled(Run(s, run), Bootstrap)
    ensures Next(Run(s, run), Bootstrap) == Run(s, run)
  {
    AgreesWhenInterruptible(s, run);
  }

  // The window shows the new directory with ticks held off. A task that read `old_pd` and was
  // preempted before its `cli` still leaves the window into the directory that is its own: all
  // is as it was, and ticks can fire again.
  lemma WindowRestores(s: State, pd: word)
    requires Inv(s) && Enabled(s, Enter(pd))
    ensures
      var w := Next(s, Enter(pd));
      && w.cr3 == w.directory == pd && w.sched == s.sched && !Enabled(w, Timer)
      && Enabled(w, Leave) && Agrees(Next(w, Leave))
      && Next(w, Leave) == s.(interrupts := true, phase := s.phase[s.sched.current := Outside])
  {
    StepKeepsInv(s, Enter(pd));
    StepKeepsInv(Next(s, Enter(pd)), Leave);
  }

  lemma InitialInv(cr3: word)
    ensures Inv(State(InitialSched(cr3), cr3, cr3, false, seq(MAX_TASKS, i => Outside)))
  {
    InitialSound(cr3);
  }
}
