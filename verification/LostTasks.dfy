/**
  Which tasks ever run again (src/task.c): a task that the search of `schedule` cannot meet
  is lost in every further run, and a ready task that it can meet gets its turn.
 */
module LostTasks {
  import opened Words
  import opened Scheduler
  import opened SchedulerRuns
  import opened Waiting

  // The links of a table that the search can rely on.
  ghost predicate Linked(s: Sched) {
    Acyclic(s.table) && IsSlot(s.table, s.head) && IsSlot(s.table, s.current)
  }

  // ---------- how the search path moves ----------

  lemma SuffixIsChain(table: Table, i: int, c: nat)
    requires Acyclic(table) && (i == NULL || IsSlot(table, i)) && c < |Chain(table, i)|
    ensures Chain(table, table[Chain(table, i)[c]].next) == Chain(table, i)[c + 1..]
  {
    hide Chain, Ranked;
    var rank :| Ranked(table, rank);
    var list := Chain(table, i);
    ChainIsList(table, rank, i);
    ListSuffix(table, i, list, c);
    ListIsChain(table, rank, table[list[c]].next, list[c + 1..]);
  }

  lemma NextIsSlot(s: Sched)
    requires Linked(s)
    ensures s.table[s.current].next == NULL || IsSlot(s.table, s.table[s.current].next)
  {
  }

  // From the task at place `m` of the path the search goes on along the rest of the path,
  // and meets nothing that was not on the path.
  lemma PathFrom(s: Sched, m: nat)
    requires Linked(s) && m < |SearchPath(s)|
    ensures IsSlot(s.table, SearchPath(s)[m])
    ensures
      var path' := SearchPath(s.(current := SearchPath(s)[m]));
      SearchPath(s)[m + 1..] <= path' && forall x :: x in path' ==> x in SearchPath(s)
  {
    NextIsSlot(s);
    hide Chain, Acyclic;
    var ahead, list := Chain(s.table, s.table[s.current].next), Chain(s.table, s.head);
    if m < |ahead| {
      SuffixIsChain(s.table, s.table[s.current].next, m);
      assert SearchPath(s)[m + 1..] == ahead[m + 1..] + list;
    } else {
      SuffixIsChain(s.table, s.head, m - |ahead|);
      assert SearchPath(s)[m + 1..] == list[m - |ahead| + 1..];
    }
  }

  function Zombied(s: Sched): Sched
    requires IsSlot(s.table, s.current)
  {
    s.(table := s.table[s.current := s.table[s.current].(state := Zombie)])
  }

  lemma {:induction false} StopsSame(s: Sched, path: seq<int>)
    requires IsSlot(s.table, s.current)
    ensures FirstStop(Zombied(s), path) == FirstStop(s, path)
  {
    if path != [] {
      StopsSame(s, path[1..]);
    }
  }

  lemma SamePath(s: Sched, s': Sched)
    requires SameLinks(s.table, s'.table) && s'.head == s.head && s'.nextPid == s.nextPid
    requires IsSlot(s.table, s.current) && IsSlot(s.table, s'.current)
    ensures SearchPath(s') == SearchPath(s.(current := s'.current))
  {
    hide Chain;
    SameLinksKeep(s, s');
  }

  lemma DispatchMoves(s: Sched)
    requires IsSlot(s.table, s.current) && Pick(s).Some?
    ensures |Dispatch(s).table| == |s.table| && Dispatch(s).current == Pick(s).value
    ensures forall i :: 0 <= i < |s.table| && i != s.current && i != Pick(s).value ==> Dispatch(s).table[i] == s.table[i]
  {
    hide Pick;
    PickSlot(s);
  }

  // An exiting task is passed over like a running one.
  lemma PickSame(s: Sched)
    requires IsSlot(s.table, s.current)
    ensures Pick(Zombied(s)) == Pick(s)
  {
    SamePath(s, Zombied(s));
    hide SearchPath;
    StopsSame(s, SearchPath(s));
  }

  lemma TurnPicks(s: Sched, op: Op)
    requires Sound(s) && Allowed(s, op) && !op.Create?
    ensures Pick(s).Some? && |Next(s, op).table| == |s.table| && Next(s, op).current == Pick(s).value
    ensures forall i :: 0 <= i < |s.table| && i != s.current && i != Pick(s).value ==> Next(s, op).table[i] == s.table[i]
  {
    hide Acyclic, PidsDistinct, LinksUsed, OneRuns, Pick, Dispatch;
    BootFound(s);
    if op.Exit? {
      PickSame(s);
      DispatchMoves(Zombied(s));
    } else {
      DispatchMoves(s);
    }
  }

  // A turn goes to the first place of the path at which the search stops.
  lemma TurnGoes(s: Sched, op: Op) returns (m: nat)
    requires Sound(s) && Allowed(s, op) && !op.Create?
    ensures m < |SearchPath(s)| && Next(s, op).current == SearchPath(s)[m]
    ensures forall k :: 0 <= k < m ==> !Stops(s, SearchPath(s)[k])
    ensures Sound(Next(s, op)) && SearchPath(Next(s, op)) == SearchPath(s.(current := SearchPath(s)[m]))
    ensures forall i :: 0 <= i < |s.table| && i != s.current && i != SearchPath(s)[m] ==> Next(s, op).table[i] == s.table[i]
  {
    hide Acyclic, PidsDistinct, LinksUsed, OneRuns, SearchPath, Next;
    StepSound(s, op);
    StepKeepsLinks(s, op);
    TurnPicks(s, op);
    SamePath(s, Next(s, op));
    m := FirstStopAt(s, SearchPath(s));
  }

  // ---------- lost tasks ----------

  // A live task other than the current one, neither ahead of it nor on the run list.
  ghost predicate Lost(s: Sched, i: int) {
    Sound(s) && IsSlot(s.table, i) && Live(s.table[i]) && i != s.current && i !in SearchPath(s)
  }

  lemma LostTurn(s: Sched, op: Op, i: int)
    requires Lost(s, i) && Allowed(s, op) && !op.Create?
    ensures Lost(Next(s, op), i)
  {
    hide Next, SearchPath, Acyclic, PidsDistinct, LinksUsed, OneRuns;
    var m := TurnGoes(s, op);
    PathFrom(s, m);
  }

  // A creation leads links only to the slot it fills, and the list ends there.
  lemma {:induction false} FollowCreated(s: Sched, s': Sched, slot: int, x: int, fuel: nat, i: int)
    requires IsSlot(s.table, slot) && Created(s, s', slot) && i in Follow(s'.table, x, fuel)
    ensures i == slot || i in Follow(s.table, x, fuel)
    decreases fuel
  {
    assert CreatedSlot(s, s', slot, x);
    if i != x {
      FollowCreated(s, s', slot, s'.table[x].next, fuel - 1, i);
      if s'.table[x].next == slot && fuel > 1 {
        assert CreatedSlot(s, s', slot, slot);
      }
    }
  }

  lemma LostCreate(s: Sched, t: NewTask, i: int)
    requires Lost(s, i) && Allowed(s, Create(t))
    ensures Lost(CreateTask(s, t), i)
  {
    var slot := FindSlot(s.table, 1);
    CreateSound(s, t);
    if slot != NULL {
      hide CreateIn, Sound, Follow;
      var s' := CreateIn(s, slot, t);
      CreateIsCreated(s, slot, t);
      assert CreatedSlot(s, s', slot, i) && CreatedSlot(s, s', slot, s.current);
      if i in SearchPath(s') {
        CreatedPath(s, s', slot, i);
      }
    }
  }

  lemma CreatedPath(s: Sched, s': Sched, slot: int, i: int)
    requires Sound(s) && Sound(s') && IsSlot(s.table, slot) && slot != s.current && Created(s, s', slot)
    requires i in SearchPath(s')
    ensures i == slot || i in SearchPath(s)
  {
    hide Acyclic, PidsDistinct, LinksUsed, OneRuns, Follow;
    assert CreatedSlot(s, s', slot, s.current);
    var x := s'.table[s.current].next;
    if i in Chain(s'.table, x) {
      FollowCreated(s, s', slot, x, |s.table|, i);
      if x == slot {
        EndsAtSlot(s, s', slot, i);
      }
    } else {
      FollowCreated(s, s', slot, s.head, |s.table|, i);
    }
  }

  lemma EndsAtSlot(s: Sched, s': Sched, slot: int, i: int)
    requires IsSlot(s.table, slot) && Created(s, s', slot) && i in Chain(s'.table, slot)
    ensures i == slot
  {
    assert CreatedSlot(s, s', slot, slot);
    assert Follow(s'.table, NULL, |s'.table| - 1) == [];
  }

  // A lost task is lost in every further run, whatever ticks, exits and is created.
  lemma {:induction false} LostForever(s: Sched, run: seq<Op>, i: int)
    requires Lost(s, i) && Legal(s, run)
    ensures Lost(Run(s, run), i) && Run(s, run).current != i
    decreases |run|
  {
    hide Lost, Allowed;
    if run != [] {
      LostStep(s, run[0], i);
      LostForever(Next(s, run[0]), run[1..], i);
    } else {
      LostMeans(s, i);
    }
  }

  lemma LostMeans(s: Sched, i: int)
    requires Lost(s, i)
    ensures s.current != i && Sound(s)
  {
  }

  lemma LostStep(s: Sched, op: Op, i: int)
    requires Lost(s, i) && Allowed(s, op)
    ensures IsSlot(s.table, s.current) && Lost(Next(s, op), i)
  {
    hide Lost;
    LostMeans(s, i);
    if op.Create? {
      LostCreate(s, op.task, i);
    } else {
      LostTurn(s, op, i);
    }
  }

  // A current task that is off the run list has its last turn: once a tick takes the
  // processor from it, it is lost.
  lemma OffListTurnIsLast(s: Sched)
    requires Sound(s) && s.current !in Chain(s.table, s.head)
    ensures Lost(Dispatch(s), s.current)
  {
    var rank :| Ranked(s.table, rank);
    NotAhead(s, rank);
    assert s.current !in SearchPath(s);
    var m := TurnGoes(s, Tick);
    PathFrom(s, m);
    hide Chain, Acyclic, PidsDistinct, LinksUsed, SearchPath, Pick;
    StepKeepsLinks(s, Tick);
    assert Dispatch(s).table[s.current].state == Ready by {
      PickSlot(s);
    }
  }

  // ---------- tasks that get their turn ----------

  ghost predicate FirstPlace(path: seq<int>, i: int, p: nat) {
    p < |path| && path[p] == i && forall k :: 0 <= k < p ==> path[k] != i
  }

  lemma {:induction false} HasPlace(path: seq<int>, i: int, q: nat) returns (p: nat)
    requires q < |path| && path[q] == i
    ensures p <= q && FirstPlace(path, i, p)
  {
    p := q;
    if k :| 0 <= k < q && path[k] == i {
      p := HasPlace(path, i, k);
    }
  }

  // What comes after the current task on the run list is met first.
  lemma AheadOfCurrent(s: Sched, c: nat, j: nat)
    requires Linked(s) && c < j < |Chain(s.table, s.head)| && Chain(s.table, s.head)[c] == s.current
    ensures j - c - 1 < |Chain(s.table, s.table[s.current].next)|
    ensures SearchPath(s)[j - c - 1] == Chain(s.table, s.head)[j]
  {
    SuffixIsChain(s.table, s.head, c);
  }

  // The search meets another task before it comes back to the current one.
  lemma NotBefore(s: Sched, i: int, p: nat, k: nat)
    requires Linked(s) && i != s.current && FirstPlace(SearchPath(s), i, p) && k < p
    ensures SearchPath(s)[k] != s.current
  {
    hide Chain;
    var rank :| Ranked(s.table, rank);
    NotAhead(s, rank);
    var ahead, list := Chain(s.table, s.table[s.current].next), Chain(s.table, s.head);
    if SearchPath(s)[k] == s.current {
      assert list[k - |ahead|] == s.current && list[p - |ahead|] == i;
      AheadOfCurrent(s, k - |ahead|, p - |ahead|);
    }
  }

  ghost predicate ReadyAt(s: Sched, i: int, p: nat) {
    && Sound(s) && IsSlot(s.table, i) && s.table[i].state == Ready && i != s.current
    && FirstPlace(SearchPath(s), i, p)
  }

  // One turn goes to the task itself or brings it nearer.
  lemma TurnNearer(s: Sched, op: Op, i: int, p: nat) returns (p': nat)
    requires ReadyAt(s, i, p) && Allowed(s, op) && !op.Create?
    ensures Next(s, op).current == i || (p' < p && ReadyAt(Next(s, op), i, p'))
  {
    hide Next, SearchPath, Acyclic, PidsDistinct, LinksUsed, OneRuns;
    var m := TurnGoes(s, op);
    var path := SearchPath(s);
    assert Stops(s, path[p]);
    p' := 0;
    if m < p {
      NotBefore(s, i, p, m);
      PathFrom(s, m);
      var path' := SearchPath(Next(s, op));
      assert path'[p - m - 1] == path[m + 1..][p - m - 1] == i;
      p' := HasPlace(path', i, p - m - 1);
    }
  }

  // While nothing is created, a ready task at place `p` of the search path runs within
  // p + 1 turns, whichever tasks exit, and whether the current task is on the list or not.
  lemma {:induction false} PlaceBounds(s: Sched, run: seq<Op>, i: int, p: nat)
    requires ReadyAt(s, i, p) && Legal(s, run) && p < |run|
    requires forall k :: 0 <= k < |run| ==> !run[k].Create?
    ensures RunsWithin(s, run, i, p + 1)
    decreases |run|
  {
    hide Next, ReadyAt, Allowed;
    var p' := TurnNearer(s, run[0], i, p);
    if Next(s, run[0]).current != i {
      PlaceBounds(Next(s, run[0]), run[1..], i, p');
      RunsLater(Next(s, run[0]), run[1..], i, p' + 1, p);
    }
  }

  // ---------- exactly which tasks run again ----------

  function Ticks(n: nat): (r: seq<Op>)
    ensures |r| == n && forall k :: 0 <= k < n ==> r[k] == Tick
  {
    seq(n, _ => Tick)
  }

  lemma {:induction false} TicksLegal(s: Sched, n: nat)
    requires Sound(s)
    ensures Legal(s, Ticks(n))
    decreases n
  {
    hide Sound;
    if n > 0 {
      StepSound(s, Tick);
      assert Ticks(n)[1..] == Ticks(n - 1);
      TicksLegal(Next(s, Tick), n - 1);
      SoundCurrent(s);
    }
  }

  lemma SoundCurrent(s: Sched)
    requires Sound(s)
    ensures IsSlot(s.table, s.current) && Linked(s)
  {
  }

  lemma {:induction false} WithinReaches(s: Sched, run: seq<Op>, i: int, k: nat) returns (prefix: seq<Op>)
    requires Legal(s, run) && RunsWithin(s, run, i, k)
    ensures Legal(s, prefix) && Run(s, prefix).current == i
    decreases |run|
  {
    hide Next, Allowed;
    var s' := Next(s, run[0]);
    var rest := [];
    if s'.current != i {
      rest := WithinReaches(s', run[1..], i, k - 1);
    }
    prefix := [run[0]] + rest;
    assert prefix[1..] == rest;
  }

  // A ready task runs again in some run if and only if the search can meet it now.
  lemma RunsAgainIff(s: Sched, i: int)
    requires Sound(s) && IsSlot(s.table, i) && s.table[i].state == Ready && s.table[i].pid != 0 && i != s.current
    ensures (exists run :: Legal(s, run) && Run(s, run).current == i) <==> i in SearchPath(s)
  {
    hide SearchPath, Sound, Run, Legal;
    SoundCurrent(s);
    if i in SearchPath(s) {
      var q: nat :| q < |SearchPath(s)| && SearchPath(s)[q] == i;
      var p := HasPlace(SearchPath(s), i, q);
      TicksLegal(s, p + 1);
      PlaceBounds(s, Ticks(p + 1), i, p);
      var run := WithinReaches(s, Ticks(p + 1), i, p + 1);
    } else {
      forall run | Legal(s, run)
        ensures Run(s, run).current != i
      {
        LostForever(s, run, i);
      }
    }
  }

  // ---------- a run that loses a task ----------

  // Slots 0 up to n - 1 on the run list, in these states.
  function Stage(n: nat, states: seq<TaskState>, current: int): Sched
    requires n < MAX_TASKS && |states| == 3
  {
    Sched(seq(MAX_TASKS, i requires 0 <= i < MAX_TASKS =>
                Task(if i < n then i + 1 else 0, 0, 0, 0, 0,
                     if i < 3 then states[i] else Ready, if i + 1 < n then i + 1 else NULL)),
          0, current, n + 1)
  }

  function UpFrom(k: nat, n: nat): seq<int>
    requires k <= n
  {
    seq(n - k, i requires 0 <= i => k + i)
  }

  lemma {:induction false} StageList(n: nat, states: seq<TaskState>, current: int, k: nat)
    requires 0 < n < MAX_TASKS && |states| == 3 && k < n
    ensures IsList(Stage(n, states, current).table, k, UpFrom(k, n))
    decreases n - k
  {
    assert UpFrom(k, n)[1..] == if k + 1 < n then UpFrom(k + 1, n) else [];
    if k + 1 < n {
      StageList(n, states, current, k + 1);
    }
  }

  lemma StageLinked(n: nat, states: seq<TaskState>, current: int, k: nat)
    requires 0 < n < MAX_TASKS && |states| == 3 && k < n
    ensures Acyclic(Stage(n, states, current).table)
    ensures Chain(Stage(n, states, current).table, k) == UpFrom(k, n)
  {
    var rank := seq(MAX_TASKS, i requires 0 <= i < MAX_TASKS => (MAX_TASKS - i) as nat);
    assert Ranked(Stage(n, states, current).table, rank);
    StageList(n, states, current, k);
    ListIsChain(Stage(n, states, current).table, rank, k, UpFrom(k, n));
  }

  const T0 := NewTask(0, 0, 0, 0)

  lemma StageCreate(n: nat, states: seq<TaskState>, current: int)
    requires 0 < n < 3 && |states| == 3 && states[n] == Ready && (n == 2 ==> states[1] != Zombie)
    ensures CreateTask(Stage(n, states, current), T0) == Stage(n + 1, states, current)
  {
    hide Chain;
    var s, s' := Stage(n, states, current), Stage(n + 1, states, current);
    StageLinked(n, states, current, 0);
    assert FindSlot(s.table, 1) == n;
    FilledFollow(s, n, T0, 0, |s.table|);
    assert Last(Chain(Filled(s, n, T0), 0)) == n - 1 by {
      assert Chain(Filled(s, n, T0), 0) == Chain(s.table, 0) by { ChainOfFilled(s, n); }
    }
    assert CreateIn(s, n, T0).table == s'.table;
  }

  lemma ChainOfFilled(s: Sched, slot: int)
    requires IsSlot(s.table, slot)
    ensures Chain(Filled(s, slot, T0), s.head) == Chain(s.table, s.head)
  {
    FilledFollow(s, slot, T0, s.head, |s.table|);
  }

  // The search on three listed tasks.
  lemma StagePath(states: seq<TaskState>, current: nat)
    requires |states| == 3 && current < 3
    ensures SearchPath(Stage(3, states, current)) == UpFrom(current + 1, 3) + UpFrom(0, 3)
  {
    var s := Stage(3, states, current);
    StageLinked(3, states, current, 0);
    if current < 2 {
      StageLinked(3, states, current, current + 1);
    } else {
      assert Chain(s.table, NULL) == [];
    }
  }

  // A ready task right after the current one, wrapping at the end, gets the turn.
  lemma StageTurn(states: seq<TaskState>, current: nat)
    requires |states| == 3 && current < 3
    requires var to := if current == 2 then 0 else current + 1; states[to] == Ready
    ensures
      var to := if current == 2 then 0 else current + 1;
      Dispatch(Stage(3, states, current))
      == Stage(3, (if states[current] == Running then states[current := Ready] else states)[to := Running], to)
  {
    var s, to := Stage(3, states, current), if current == 2 then 0 else current + 1;
    StagePath(states, current);
    assert Pick(s) == Some(to) by {
      hide SearchPath;
      assert SearchPath(s)[0] == to && Stops(s, to);
    }
    hide Pick;
    StageSwitch(states, current, to);
  }

  lemma StageSwitch(states: seq<TaskState>, current: nat, to: nat)
    requires |states| == 3 && current < 3 && to < 3 && to != current
    ensures IsSlot(Stage(3, states, current).table, current) && IsSlot(Stage(3, states, current).table, to)
    ensures SwitchTo(Stage(3, states, current), to)
         == Stage(3, (if states[current] == Running then states[current := Ready] else states)[to := Running], to)
  {
    var states' := (if states[current] == Running then states[current := Ready] else states)[to := Running];
    assert SwitchTo(Stage(3, states, current), to).table == Stage(3, states', to).table;
  }

  // Two tasks are created; the first runs and exits, the second runs, the boot task again.
  function BreakingRun(): seq<Op> {
    [Create(T0), Create(T0), Tick, Op.Exit, Tick]
  }

  function Broken(): Sched {
    Stage(3, [Running, Zombie, Ready], 0)
  }

  lemma BrokenReached()
    ensures Legal(InitialSched(0), BreakingRun()) && Run(InitialSched(0), BreakingRun()) == Broken()
  {
    hide Stage, CreateTask, Dispatch;
    var r := BreakingRun();
    var s0 := Stage(1, [Running, Ready, Ready], 0);
    var s1 := Stage(2, [Running, Ready, Ready], 0);
    var s2 := Stage(3, [Running, Ready, Ready], 0);
    var s3 := Stage(3, [Ready, Running, Ready], 1);
    var s4 := Stage(3, [Ready, Zombie, Running], 2);
    StageInitial();
    StageCreate(1, [Running, Ready, Ready], 0);
    StageCreate(2, [Running, Ready, Ready], 0);
    StageTurn([Running, Ready, Ready], 0);
    StageExit();
    StageTurn([Ready, Zombie, Running], 2);
    StageSlots(1, [Running, Ready, Ready], 0);
    StageSlots(2, [Running, Ready, Ready], 0);
    StageSlots(3, [Running, Ready, Ready], 0);
    StageSlots(3, [Ready, Running, Ready], 1);
    StageSlots(3, [Ready, Zombie, Running], 2);
    assert [Running, Ready, Ready][0 := Ready][1 := Running] == [Ready, Running, Ready];
    assert [Ready, Zombie, Running][2 := Ready][0 := Running] == [Running, Zombie, Ready];
    assert Next(s0, r[0]) == s1 && Next(s1, r[1]) == s2 && Next(s2, r[2]) == s3;
    assert Next(s3, r[3]) == s4 && Next(s4, r[4]) == Broken();
    assert r[1..][0] == r[1] && r[1..][1..] == r[2..] && r[2..][1..] == r[3..] && r[3..][1..] == r[4..] && r[4..][1..] == [];
    RunOne(s4, r[4..], Broken());
    RunOne(s3, r[3..], s4);
    RunOne(s2, r[2..], s3);
    RunOne(s1, r[1..], s2);
    RunOne(s0, r, s1);
  }

  lemma RunOne(s: Sched, run: seq<Op>, s': Sched)
    requires run != [] && IsSlot(s.table, s.current) && Allowed(s, run[0]) && Next(s, run[0]) == s' && Legal(s', run[1..])
    ensures Legal(s, run) && Run(s, run) == Run(s', run[1..])
  {
  }

  lemma StageSlots(n: nat, states: seq<TaskState>, current: nat)
    requires 0 < n < MAX_TASKS && |states| == 3 && current < n
    ensures
      var s := Stage(n, states, current);
      |s.table| == MAX_TASKS && IsSlot(s.table, s.current) && s.current == current && s.nextPid == n + 1
  {
  }

  lemma StageInitial()
    ensures InitialSched(0) == Stage(1, [Running, Ready, Ready], 0)
  {
    assert InitialSched(0).table == Stage(1, [Running, Ready, Ready], 0).table;
  }

  lemma StageExit()
    ensures IsSlot(Stage(3, [Ready, Running, Ready], 1).table, 1)
    ensures ExitTask(Stage(3, [Ready, Running, Ready], 1)) == Stage(3, [Ready, Zombie, Running], 2)
  {
    var s := Stage(3, [Ready, Running, Ready], 1);
    assert Zombied(s).table == Stage(3, [Ready, Zombie, Ready], 1).table;
    StageTurn([Ready, Zombie, Ready], 1);
  }

  // From there a creation reuses the zombie in the middle of the list, and the ready task
  // after it is lost.
  lemma MidReuseLosesTask(t: NewTask)
    ensures Legal(InitialSched(0), BreakingRun() + [Create(t)])
    ensures Lost(Run(InitialSched(0), BreakingRun() + [Create(t)]), 2)
  {
    var s := Broken();
    BrokenReached();
    InitialSound(0);
    AlwaysSound(InitialSched(0), BreakingRun());
    assert Allowed(s, Create(t));
    RunThen(InitialSched(0), BreakingRun(), Create(t));
    BrokenCreate(t);
  }

  lemma {:induction false} RunThen(s: Sched, run: seq<Op>, op: Op)
    requires Legal(s, run) && IsSlot(Run(s, run).table, Run(s, run).current) && Allowed(Run(s, run), op)
    ensures Legal(s, run + [op]) && Run(s, run + [op]) == Next(Run(s, run), op)
    decreases |run|
  {
    hide Next, Allowed;
    if run != [] {
      assert (run + [op])[1..] == run[1..] + [op];
      RunThen(Next(s, run[0]), run[1..], op);
    }
  }

  lemma BrokenCreate(t: NewTask)
    requires Sound(Broken())
    ensures Lost(CreateTask(Broken(), t), 2)
  {
    hide Acyclic, PidsDistinct, LinksUsed, OneRuns, Chain;
    var s := Broken();
    assert FindSlot(s.table, 1) == 1;
    var s' := CreateIn(s, 1, t);
    CreateSound(s, t);
    StageLinked(3, [Running, Zombie, Ready], 0, 0);
    CreateChain(s, 1, t);
    assert UpTo(UpFrom(0, 3), 1) == [0, 1];
    CreateIsCreated(s, 1, t);
    assert CreatedSlot(s, s', 1, 2) && CreatedSlot(s, s', 1, 0);
    var list := Chain(s'.table, 0);
    assert list[0] == 0;
    PathOnList(s', 0);
  }
}
