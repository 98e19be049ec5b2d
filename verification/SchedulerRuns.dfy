/**
  Properties of every run of the scheduler (src/task.c): the search ends, exactly one
  task runs, and every slot in use stays on the list unless a zombie in its middle is reused.
 */
module SchedulerRuns {
  import opened Words
  import opened Scheduler

  // ---------- when the search of `schedule` ends ----------

  // The slot the search looks at after `k` further advances.
  function Orbit(s: Sched, k: nat): int {
    if k == 0 then Advance(s, s.current) else Advance(s, Orbit(s, k - 1))
  }

  lemma PathNext(s: Sched, rank: seq<nat>, j: nat)
    requires Ranked(s.table, rank) && IsSlot(s.table, s.head) && IsSlot(s.table, s.current) && j < |SearchPath(s)|
    ensures Advance(s, SearchPath(s)[j]) == if j + 1 < |SearchPath(s)| then SearchPath(s)[j + 1] else s.head
  {
    var first, second := Chain(s.table, s.table[s.current].next), Chain(s.table, s.head);
    ChainIsList(s.table, rank, s.table[s.current].next);
    ChainIsList(s.table, rank, s.head);
    if j < |first| {
      ListAt(s.table, s.table[s.current].next, first, j);
    } else {
      ListAt(s.table, s.head, second, j - |first|);
    }
  }

  lemma PathStart(s: Sched, rank: seq<nat>)
    requires Ranked(s.table, rank) && IsSlot(s.table, s.head) && IsSlot(s.table, s.current)
    ensures |SearchPath(s)| > 0 && Advance(s, s.current) == SearchPath(s)[0] && s.head in SearchPath(s)
  {
    ChainIsList(s.table, rank, s.table[s.current].next);
    ChainIsList(s.table, rank, s.head);
    assert Chain(s.table, s.head)[0] == s.head;
    assert s.head in Chain(s.table, s.head);
  }

  lemma {:induction false} OrbitFollowsPath(s: Sched, rank: seq<nat>, k: nat)
    requires Ranked(s.table, rank) && IsSlot(s.table, s.head) && IsSlot(s.table, s.current)
    ensures k < |SearchPath(s)| ==> Orbit(s, k) == SearchPath(s)[k]
    ensures Orbit(s, k) in SearchPath(s)
  {
    hide SearchPath, Advance;
    PathStart(s, rank);
    if k > 0 {
      OrbitFollowsPath(s, rank, k - 1);
      var j :| 0 <= j < |SearchPath(s)| && SearchPath(s)[j] == Orbit(s, k - 1) && (k - 1 < |SearchPath(s)| ==> j == k - 1);
      PathNext(s, rank, j);
    }
  }

  lemma {:induction false} FirstStopAt(s: Sched, path: seq<int>) returns (m: nat)
    requires FirstStop(s, path).Some?
    ensures m < |path| && path[m] == FirstStop(s, path).value
    ensures forall k :: 0 <= k < m ==> !Stops(s, path[k])
  {
    if Stops(s, path[0]) {
      m := 0;
    } else {
      m := FirstStopAt(s, path[1..]);
      m := m + 1;
    }
  }

  // The search ends if and only if the current task is on the run list, or a ready task
  // lies ahead of it or on the run list.
  lemma SearchEndsIff(s: Sched, rank: seq<nat>)
    requires Ranked(s.table, rank) && IsSlot(s.table, s.head) && IsSlot(s.table, s.current)
    ensures (exists k :: Stops(s, Orbit(s, k))) <==> Pick(s).Some?
    ensures Pick(s).Some? <==>
            || s.current in Chain(s.table, s.head)
            || (exists i :: i in SearchPath(s) && s.table[i].state == Ready)
  {
    var path := SearchPath(s);
    if k :| Stops(s, Orbit(s, k)) {
      OrbitFollowsPath(s, rank, k);
    }
    if Pick(s).Some? {
      var m := FirstStopAt(s, path);
      OrbitFollowsPath(s, rank, m);
      assert Stops(s, Orbit(s, m));
      if s.table[path[m]].state != Ready {
        NotAhead(s, rank);
      }
    } else {
      NoStopMeans(s);
    }
  }

  lemma NoStopMeans(s: Sched)
    requires IsSlot(s.table, s.current) && Pick(s).None?
    ensures s.current !in Chain(s.table, s.head)
    ensures forall i :: i in SearchPath(s) ==> s.table[i].state != Ready
  {
    var path, first := SearchPath(s), Chain(s.table, s.table[s.current].next);
    forall j | 0 <= j < |Chain(s.table, s.head)|
      ensures Chain(s.table, s.head)[j] != s.current
    {
      assert path[|first| + j] == Chain(s.table, s.head)[j];
    }
  }

  // The current task is never ahead of itself.
  lemma NotAhead(s: Sched, rank: seq<nat>)
    requires Ranked(s.table, rank) && IsSlot(s.table, s.current)
    ensures s.current !in Chain(s.table, s.table[s.current].next)
  {
    ChainIsList(s.table, rank, s.table[s.current].next);
    ListDescends(s.table, rank, s.table[s.current].next, Chain(s.table, s.table[s.current].next));
  }

  // ---------- runs ----------

  // A timer tick and a yield are both one `schedule`.
  datatype Op = Tick | Exit | Create(task: NewTask)

  ghost function Next(s: Sched, op: Op): Sched
    requires IsSlot(s.table, s.current)
  {
    match op
    case Tick => Dispatch(s)
    case Exit => ExitTask(s)
    case Create(t) => CreateTask(s, t)
  }

  // The boot task never exits, and process ids have not wrapped.
  predicate Allowed(s: Sched, op: Op) {
    && (op.Exit? ==> s.current != 0)
    && (op.Create? ==> s.nextPid < 0xFFFF_FFFF)
  }

  ghost predicate OneRuns(s: Sched) {
    forall i :: 0 <= i < |s.table| ==> (s.table[i].state == Running <==> i == s.current)
  }

  // Process ids of used slots are distinct and below the next one.
  ghost predicate PidsDistinct(s: Sched) {
    && s.nextPid > 0
    && (forall i :: 0 <= i < |s.table| ==> s.table[i].pid < s.nextPid)
    && (forall i, j :: 0 <= i < j < |s.table| && s.table[i].pid != 0 ==> s.table[i].pid != s.table[j].pid)
  }

  // Only used slots are linked to.
  ghost predicate LinksUsed(s: Sched) {
    forall i :: 0 <= i < |s.table| && s.table[i].next != NULL ==>
      IsSlot(s.table, s.table[i].next) && s.table[s.table[i].next].pid != 0
  }

  ghost predicate Sound(s: Sched) {
    && |s.table| == MAX_TASKS && Acyclic(s.table) && s.head == 0 && IsSlot(s.table, s.current)
    && OneRuns(s) && PidsDistinct(s) && LinksUsed(s)
    && s.table[0].pid != 0 && s.table[s.current].pid != 0
    && (s.current != 0 ==> s.table[0].state == Ready)
  }

  // ---------- what a dispatch does ----------

  // Only the states of two slots change.
  ghost predicate SameLinks(t: Table, t': Table) {
    && |t'| == |t|
    && forall i :: 0 <= i < |t| ==> t'[i].next == t[i].next && t'[i].pid == t[i].pid
  }

  lemma {:induction false} SameLinksFollow(t: Table, t': Table, i: int, fuel: nat)
    requires SameLinks(t, t')
    ensures Follow(t', i, fuel) == Follow(t, i, fuel)
    decreases fuel
  {
    if fuel > 0 && IsSlot(t, i) {
      SameLinksFollow(t, t', t[i].next, fuel - 1);
    }
  }

  lemma SameLinksKeep(s: Sched, s': Sched)
    requires SameLinks(s.table, s'.table) && s'.nextPid == s.nextPid
    ensures Acyclic(s.table) ==> Acyclic(s'.table)
    ensures PidsDistinct(s) ==> PidsDistinct(s')
    ensures LinksUsed(s) ==> LinksUsed(s')
    ensures forall i :: Chain(s'.table, i) == Chain(s.table, i)
  {
    if rank :| Ranked(s.table, rank) {
      assert Ranked(s'.table, rank);
    }
    forall i
      ensures Chain(s'.table, i) == Chain(s.table, i)
    {
      SameLinksFollow(s.table, s'.table, i, |s.table|);
    }
  }

  // Slots met by following links from a used slot are used.
  lemma {:induction false} FollowUsed(s: Sched, i: int, fuel: nat)
    requires LinksUsed(s) && (IsSlot(s.table, i) ==> s.table[i].pid != 0)
    ensures forall k :: 0 <= k < |Follow(s.table, i, fuel)| ==> s.table[Follow(s.table, i, fuel)[k]].pid != 0
    decreases fuel
  {
    if fuel > 0 && IsSlot(s.table, i) {
      FollowUsed(s, s.table[i].next, fuel - 1);
    }
  }

  // A ready boot task, or the boot task itself running, is always found.
  lemma BootFound(s: Sched)
    requires Acyclic(s.table) && s.head == 0 && IsSlot(s.table, 0) && IsSlot(s.table, s.current)
    requires s.current == 0 || s.table[0].state == Ready
    ensures Pick(s).Some? && IsSlot(s.table, Pick(s).value)
    ensures Pick(s).value == s.current || s.table[Pick(s).value].state == Ready
  {
    var rank :| Ranked(s.table, rank);
    PathStart(s, rank);
    assert Stops(s, 0);
  }

  lemma PickUsed(s: Sched)
    requires LinksUsed(s) && IsSlot(s.table, s.head) && s.table[s.head].pid != 0
    requires IsSlot(s.table, s.current) && Pick(s).Some?
    ensures IsSlot(s.table, Pick(s).value) && s.table[Pick(s).value].pid != 0
  {
    FollowUsed(s, s.head, |s.table|);
    FollowUsed(s, s.table[s.current].next, |s.table|);
    var m := FirstStopAt(s, SearchPath(s));
  }

  lemma SwitchKeeps(s: Sched, to: int)
    requires IsSlot(s.table, s.current) && IsSlot(s.table, to)
    ensures SameLinks(s.table, SwitchTo(s, to).table)
    ensures SwitchTo(s, to).head == s.head && SwitchTo(s, to).nextPid == s.nextPid && SwitchTo(s, to).current == to
  {
  }

  // A switch from a state in which at most the current task runs.
  lemma SwitchSound(s: Sched, to: int)
    requires |s.table| == MAX_TASKS && Acyclic(s.table) && s.head == 0 && IsSlot(s.table, s.current)
    requires forall i :: 0 <= i < |s.table| && s.table[i].state == Running ==> i == s.current
    requires PidsDistinct(s) && LinksUsed(s) && s.table[0].pid != 0
    requires IsSlot(s.table, to) && to != s.current && s.table[to].pid != 0
    requires s.current == 0 ==> s.table[0].state == Running
    requires s.current != 0 ==> s.table[0].state == Ready
    ensures Sound(SwitchTo(s, to))
  {
    SwitchKeeps(s, to);
    SameLinksKeep(s, SwitchTo(s, to));
    hide Chain, Acyclic, PidsDistinct, LinksUsed;
  }

  lemma DispatchSound(s: Sched)
    requires Sound(s)
    ensures Sound(Dispatch(s))
  {
    hide Chain, Acyclic, PidsDistinct, LinksUsed, Pick, SwitchTo;
    BootFound(s);
    PickUsed(s);
    if Pick(s).value != s.current {
      SwitchSound(s, Pick(s).value);
    }
  }

  // A task other than the boot task that exits always hands over: `task_exit` does not
  // reach its halt loop.
  lemma ExitSound(s: Sched)
    requires Sound(s) && s.current != 0
    ensures Sound(ExitTask(s)) && ExitTask(s).current != s.current
    ensures ExitTask(s).table[s.current].state == Zombie
  {
    var z := s.(table := s.table[s.current := s.table[s.current].(state := Zombie)]);
    SameLinksKeep(s, z);
    hide Chain, Acyclic, PidsDistinct, LinksUsed;
    BootFound(z);
    PickUsed(z);
    NotSelf(z);
    SwitchSound(z, Pick(z).value);
  }

  // With the boot task ready, the search does not come back to the current task.
  lemma NotSelf(s: Sched)
    requires Acyclic(s.table) && s.head == 0 && IsSlot(s.table, 0) && IsSlot(s.table, s.current)
    requires s.current != 0 && s.table[0].state == Ready && Pick(s).Some?
    ensures Pick(s).value != s.current
  {
    var rank :| Ranked(s.table, rank);
    var first, list := Chain(s.table, s.table[s.current].next), Chain(s.table, 0);
    NotAhead(s, rank);
    ChainIsList(s.table, rank, 0);
    assert list[0] == 0;
    var m := FirstStopAt(s, SearchPath(s));
    assert SearchPath(s)[|first|] == 0 && Stops(s, 0);
    assert m <= |first|;
  }

  // ---------- creation ----------

  // The new slot is filled; elsewhere at most one link changes, and it leads to the slot.
  ghost predicate CreatedSlot(s: Sched, s': Sched, slot: int, i: int)
    requires |s'.table| == |s.table| && IsSlot(s.table, i)
  {
    if i == slot then s'.table[i].pid == s.nextPid && s'.table[i].state == Ready && s'.table[i].next == NULL
    else
      && s'.table[i] == s.table[i].(next := s'.table[i].next)
      && (s'.table[i].next == s.table[i].next || s'.table[i].next == slot)
  }

  ghost predicate Created(s: Sched, s': Sched, slot: int) {
    && |s'.table| == |s.table| && s'.current == s.current && s'.nextPid == s.nextPid + 1
    && forall i :: 0 <= i < |s.table| ==> CreatedSlot(s, s', slot, i)
  }

  lemma CreateIsCreated(s: Sched, slot: int, t: NewTask)
    requires IsSlot(s.table, slot) && s.nextPid < 0xFFFF_FFFF
    ensures Created(s, CreateIn(s, slot, t), slot)
  {
    hide Chain;
  }

  lemma CreatedPids(s: Sched, s': Sched, slot: int)
    requires PidsDistinct(s) && LinksUsed(s) && IsSlot(s.table, slot) && Created(s, s', slot)
    ensures PidsDistinct(s') && LinksUsed(s')
  {
    forall i | 0 <= i < |s.table|
      ensures i == slot ==> s'.table[i].pid == s.nextPid && s'.table[i].next == NULL
      ensures i != slot ==> s'.table[i].pid == s.table[i].pid
      ensures i != slot ==> s'.table[i].next == s.table[i].next || s'.table[i].next == slot
    {
      assert CreatedSlot(s, s', slot, i);
    }
  }

  lemma CreateSound(s: Sched, t: NewTask)
    requires Sound(s) && s.nextPid < 0xFFFF_FFFF
    ensures Sound(CreateTask(s, t))
  {
    hide Chain, Acyclic, CreateIn, PidsDistinct, LinksUsed;
    var slot := FindSlot(s.table, 1);
    if slot != NULL {
      var s' := CreateIn(s, slot, t);
      CreateAcyclic(s, slot, t);
      CreateIsCreated(s, slot, t);
      CreatedPids(s, s', slot);
      assert slot != s.current;
      assert CreatedSlot(s, s', slot, 0) && CreatedSlot(s, s', slot, s.current);
      forall i | 0 <= i < |s'.table|
        ensures s'.table[i].state == Running <==> i == s'.current
      {
        assert CreatedSlot(s, s', slot, i);
      }
    }
  }

  lemma CreateAcyclic(s: Sched, slot: int, t: NewTask)
    requires Acyclic(s.table) && IsSlot(s.table, s.head) && IsSlot(s.table, slot)
    ensures Acyclic(CreateIn(s, slot, t).table) && CreateIn(s, slot, t).head == s.head
  {
    hide Ranked, CreateIn;
    var rank :| Ranked(s.table, rank);
    CreateList(s, rank, slot, t);
  }

  ghost predicate Legal(s: Sched, run: seq<Op>)
    decreases |run|
  {
    run != [] ==> IsSlot(s.table, s.current) && Allowed(s, run[0]) && Legal(Next(s, run[0]), run[1..])
  }

  ghost function Run(s: Sched, run: seq<Op>): Sched
    requires Legal(s, run)
    decreases |run|
  {
    if run == [] then s else Run(Next(s, run[0]), run[1..])
  }

  lemma StepSound(s: Sched, op: Op)
    requires Sound(s) && Allowed(s, op)
    ensures Sound(Next(s, op))
  {
    match op
    case Tick => DispatchSound(s);
    case Exit => ExitSound(s);
    case Create(t) => CreateSound(s, t);
  }

  // In every run in which the boot task does not exit, zombie slots reused or not, there
  // is always exactly one running task and `schedule` always ends.
  lemma {:induction false} AlwaysSound(s: Sched, run: seq<Op>)
    requires Sound(s) && Legal(s, run)
    ensures Sound(Run(s, run)) && Pick(Run(s, run)).Some?
    decreases |run|
  {
    hide Next, Pick;
    if run == [] {
      BootFound(s);
    } else {
      StepSound(s, run[0]);
      AlwaysSound(Next(s, run[0]), run[1..]);
    }
  }

  // ---------- the first state ----------

  // `scheduler_init`: the cleared table with the boot task in slot 0.
  function InitialSched(cr3: word): Sched {
    Sched(seq(MAX_TASKS, i => Task(if i == 0 then 1 else 0, 0, 0, if i == 0 then cr3 else 0, 0,
                                   if i == 0 then Running else Ready, NULL)),
          0, 0, 2)
  }

  lemma InitialSound(cr3: word)
    ensures Sound(InitialSched(cr3)) && ListsAll(InitialSched(cr3))
  {
    var s := InitialSched(cr3);
    var rank := seq(MAX_TASKS, i => 0);
    assert Ranked(s.table, rank);
    assert Chain(s.table, 0) == [0] by {
      assert IsList(s.table, 0, [0]);
      ListIsChain(s.table, rank, 0, [0]);
    }
  }

  // ---------- every live task is on the list ----------

  predicate Live(t: Task) {
    t.pid != 0 && t.state != Zombie
  }

  // A creation is refused exactly when all 31 slots beside the boot task's are live.
  lemma CreateRefusedIff(s: Sched)
    requires Sound(s)
    ensures |s.table| == 32
    ensures FindSlot(s.table, 1) == NULL <==> forall i :: 1 <= i < 32 ==> Live(s.table[i])
  {
    var slot := FindSlot(s.table, 1);
    assert slot != NULL ==> !Live(s.table[slot]);
  }

  // The run list holds every slot in use.
  ghost predicate ListsAll(s: Sched) {
    forall i :: 0 <= i < |s.table| && s.table[i].pid != 0 ==> i in Chain(s.table, s.head)
  }

  // The slot the next creation would take is new, or the last of the list.
  predicate NoMidReuse(s: Sched, op: Op)
    requires |s.table| >= 1
  {
    op.Create? ==>
      var slot := FindSlot(s.table, 1);
      slot == NULL || s.table[slot].pid == 0 || slot == Last(Chain(s.table, s.head))
  }

  lemma {:induction false} UpToMembers(list: seq<int>, slot: int, i: int)
    requires forall j, k :: 0 <= j < k < |list| ==> list[j] != list[k]
    requires slot !in list || slot == Last(list)
    ensures i in UpTo(list, slot) <==> i in list || i == slot
    decreases |list|
  {
    if list == [] {
    } else if list[0] == slot {
      assert |list| == 1;
    } else {
      UpToMembers(list[1..], slot, i);
    }
  }

  // A new slot is appended: the list L becomes L followed by it.
  lemma {:induction false} UpToAppends(list: seq<int>, slot: int)
    requires slot !in list
    ensures UpTo(list, slot) == list + [slot]
  {
    if list != [] {
      UpToAppends(list[1..], slot);
      assert list == [list[0]] + list[1..];
    }
  }

  lemma ChainDistinct(s: Sched)
    requires Acyclic(s.table) && IsSlot(s.table, s.head)
    ensures forall j, k :: 0 <= j < k < |Chain(s.table, s.head)| ==> Chain(s.table, s.head)[j] != Chain(s.table, s.head)[k]
    ensures Chain(s.table, s.head) != []
  {
    var rank :| Ranked(s.table, rank);
    ChainIsList(s.table, rank, s.head);
  }

  lemma UnusedUnlisted(s: Sched, i: int)
    requires Sound(s) && IsSlot(s.table, i) && s.table[i].pid == 0
    ensures i !in Chain(s.table, s.head)
  {
    FollowUsed(s, s.head, |s.table|);
  }

  lemma CreateChain(s: Sched, slot: int, t: NewTask)
    requires Acyclic(s.table) && IsSlot(s.table, s.head) && IsSlot(s.table, slot)
    ensures CreateIn(s, slot, t).head == s.head
    ensures Chain(CreateIn(s, slot, t).table, s.head) == UpTo(Chain(s.table, s.head), slot)
  {
    hide Ranked, CreateIn, Chain;
    var rank :| Ranked(s.table, rank);
    CreateList(s, rank, slot, t);
  }

  lemma CreateListsAll(s: Sched, t: NewTask)
    requires Sound(s) && ListsAll(s) && Allowed(s, Create(t)) && NoMidReuse(s, Create(t))
    ensures ListsAll(CreateTask(s, t))
  {
    hide CreateIn, Chain, PidsDistinct, LinksUsed, Acyclic;
    var slot := FindSlot(s.table, 1);
    if slot != NULL {
      var list := Chain(s.table, s.head);
      var s' := CreateIn(s, slot, t);
      ChainDistinct(s);
      CreateChain(s, slot, t);
      CreateIsCreated(s, slot, t);
      if s.table[slot].pid == 0 {
        UnusedUnlisted(s, slot);
      }
      forall i | 0 <= i < |s'.table| && s'.table[i].pid != 0
        ensures i in Chain(s'.table, s'.head)
      {
        assert CreatedSlot(s, s', slot, i);
        UpToMembers(list, slot, i);
      }
    }
  }

  lemma StepListsAll(s: Sched, op: Op)
    requires Sound(s) && ListsAll(s) && Allowed(s, op) && NoMidReuse(s, op)
    ensures ListsAll(Next(s, op))
  {
    match op
    case Create(t) => CreateListsAll(s, t);
    case _ =>
      StepKeepsLinks(s, op);
      SameLinksKeep(s, Next(s, op));
  }

  lemma StepKeepsLinks(s: Sched, op: Op)
    requires IsSlot(s.table, s.current) && !op.Create?
    ensures SameLinks(s.table, Next(s, op).table)
    ensures Next(s, op).head == s.head && Next(s, op).nextPid == s.nextPid
  {
    hide Pick;
    if op.Exit? {
      PickSlot(s.(table := s.table[s.current := s.table[s.current].(state := Zombie)]));
    } else {
      PickSlot(s);
    }
  }

  lemma PickSlot(s: Sched)
    requires IsSlot(s.table, s.current)
    ensures Pick(s).Some? ==> IsSlot(s.table, Pick(s).value)
  {
  }

  ghost predicate NeverMidReuse(s: Sched, run: seq<Op>)
    requires Legal(s, run)
    decreases |run|
  {
    run != [] ==> |s.table| >= 1 && NoMidReuse(s, run[0]) && NeverMidReuse(Next(s, run[0]), run[1..])
  }

  // Runs that never reuse a zombie in the middle of the list keep every used slot, and so
  // every live task, on one NULL-ended list of distinct slots.
  lemma {:induction false} AlwaysListed(s: Sched, run: seq<Op>)
    requires Sound(s) && ListsAll(s) && Legal(s, run) && NeverMidReuse(s, run)
    ensures Sound(Run(s, run)) && ListsAll(Run(s, run))
    decreases |run|
  {
    hide Next, Sound, ListsAll, NoMidReuse;
    if run != [] {
      StepSound(s, run[0]);
      StepListsAll(s, run[0]);
      AlwaysListed(Next(s, run[0]), run[1..]);
    }
  }
}
