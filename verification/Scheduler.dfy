/**
  The round-robin scheduler (src/task.c): a fixed table of task slots whose `next`
  fields form the run list. Slots are numbered; NULL is -1.
 */
module Scheduler {
  import opened Words
  import opened Frames

  const MAX_TASKS := 32
  const NULL := -1

  datatype TaskState = Ready | Running | Blocked | Zombie

  datatype Task = Task(pid: word, esp: word, eip: word, pageDir: word, kstack: word, state: TaskState, next: int)

  datatype Sched = Sched(table: seq<Task>, head: int, current: int, nextPid: word)

  type Table = seq<Task>

  predicate IsSlot(table: Table, i: int) {
    0 <= i < |table|
  }

  // ---------- the list as the `next` fields give it ----------

  // The slots met from `i` on, at most `fuel` of them.
  function Follow(table: Table, i: int, fuel: nat): (r: seq<int>)
    ensures forall k :: 0 <= k < |r| ==> IsSlot(table, r[k])
    ensures |r| <= fuel
    decreases fuel
  {
    if fuel == 0 || !IsSlot(table, i) then [] else [i] + Follow(table, table[i].next, fuel - 1)
  }

  function Chain(table: Table, i: int): (r: seq<int>)
    ensures forall k :: 0 <= k < |r| ==> IsSlot(table, r[k])
  {
    Follow(table, i, |table|)
  }

  // `next` fields lead to a slot of lower rank or to NULL, so no list has a cycle.
  ghost predicate Ranked(table: Table, rank: seq<nat>) {
    && |rank| == |table|
    && forall i :: 0 <= i < |table| && table[i].next != NULL ==>
         IsSlot(table, table[i].next) && rank[table[i].next] < rank[i]
  }

  ghost predicate Acyclic(table: Table) {
    exists rank: seq<nat> :: Ranked(table, rank)
  }

  ghost predicate Descends(rank: seq<nat>, list: seq<int>) {
    && (forall k :: 0 <= k < |list| ==> 0 <= list[k] < |rank|)
    && (forall j, k :: 0 <= j < k < |list| ==> rank[list[j]] > rank[list[k]])
  }

  // `list` is the NULL-terminated list that starts at `i`.
  ghost predicate IsList(table: Table, i: int, list: seq<int>)
    decreases |list|
  {
    if list == [] then i == NULL
    else list[0] == i && IsSlot(table, i) && IsList(table, table[i].next, list[1..])
  }

  lemma {:induction false} ListAt(table: Table, i: int, list: seq<int>, k: nat)
    requires IsList(table, i, list) && k < |list|
    ensures IsSlot(table, list[k])
    ensures table[list[k]].next == if k + 1 < |list| then list[k + 1] else NULL
    decreases |list|
  {
    if k > 0 {
      ListAt(table, table[i].next, list[1..], k - 1);
    }
  }

  lemma {:induction false} ListDescends(table: Table, rank: seq<nat>, i: int, list: seq<int>)
    requires Ranked(table, rank) && IsList(table, i, list)
    ensures Descends(rank, list)
    ensures list != [] ==> forall k :: 0 <= k < |list| ==> rank[list[k]] <= rank[i]
    decreases |list|
  {
    if list != [] {
      ListDescends(table, rank, table[i].next, list[1..]);
    }
  }

  // ---------- lists are complete ----------

  ghost function Members(list: seq<int>): set<nat> {
    set x: nat | x in list
  }

  lemma {:induction false} MembersSize(list: seq<int>)
    requires forall j, k :: 0 <= j < k < |list| ==> list[j] != list[k]
    requires forall k :: 0 <= k < |list| ==> 0 <= list[k]
    ensures |Members(list)| == |list|
  {
    if list != [] {
      var n := |list| - 1;
      MembersSize(list[..n]);
      assert list == list[..n] + [list[n]];
      assert Members(list) == Members(list[..n]) + {list[n]};
    }
  }

  // Distinct slots are at most as many as there are slots.
  lemma DistinctBound(list: seq<int>, n: nat)
    requires forall k :: 0 <= k < |list| ==> 0 <= list[k] < n
    requires forall j, k :: 0 <= j < k < |list| ==> list[j] != list[k]
    ensures |list| <= n
  {
    MembersSize(list);
    CardinalityBelow(Members(list), n);
  }

  lemma {:induction false} ListFollowed(table: Table, i: int, list: seq<int>, fuel: nat)
    requires IsList(table, i, list) && |list| <= fuel
    ensures Follow(table, i, fuel) == list
    decreases fuel
  {
    if list != [] {
      ListFollowed(table, table[i].next, list[1..], fuel - 1);
    }
  }

  // The list from `i`, by descent on the ranks.
  lemma {:induction false} ListExists(table: Table, rank: seq<nat>, i: int) returns (list: seq<int>)
    requires Ranked(table, rank) && (i == NULL || IsSlot(table, i))
    ensures IsList(table, i, list)
    decreases if IsSlot(table, i) then rank[i] + 1 else 0
  {
    if i == NULL {
      list := [];
    } else {
      var rest := ListExists(table, rank, table[i].next);
      list := [i] + rest;
      assert list[1..] == rest;
    }
  }

  // In a table without cycles a list fits into the table and is what following it finds.
  lemma ListIsChain(table: Table, rank: seq<nat>, i: int, list: seq<int>)
    requires Ranked(table, rank) && IsList(table, i, list)
    ensures Chain(table, i) == list && Descends(rank, list)
  {
    ListDescends(table, rank, i, list);
    DistinctBound(list, |table|);
    ListFollowed(table, i, list, |table|);
  }

  lemma ChainIsList(table: Table, rank: seq<nat>, i: int)
    requires Ranked(table, rank) && (i == NULL || IsSlot(table, i))
    ensures IsList(table, i, Chain(table, i)) && Descends(rank, Chain(table, i))
  {
    var list := ListExists(table, rank, i);
    ListIsChain(table, rank, i, list);
  }

  // ---------- choosing the next task ----------

  // One advance of the search: past the end it wraps to the head of the list.
  function Advance(s: Sched, i: int): int {
    if IsSlot(s.table, i) && s.table[i].next != NULL then s.table[i].next else s.head
  }

  // What the search meets: the rest of the current task's list, then the whole list.
  function SearchPath(s: Sched): seq<int>
    requires IsSlot(s.table, s.current)
  {
    Chain(s.table, s.table[s.current].next) + Chain(s.table, s.head)
  }

  // The search stops at a ready task or back at the current one.
  predicate Stops(s: Sched, i: int) {
    i == s.current || (IsSlot(s.table, i) && s.table[i].state == Ready)
  }

  function FirstStop(s: Sched, path: seq<int>): (r: Option<int>)
    ensures r.Some? ==> r.value in path && Stops(s, r.value)
    ensures r.None? ==> forall k :: 0 <= k < |path| ==> !Stops(s, path[k])
  {
    if path == [] then None
    else if Stops(s, path[0]) then Some(path[0])
    else FirstStop(s, path[1..])
  }

  // The task that runs next; None when the search never ends.
  function Pick(s: Sched): Option<int>
    requires IsSlot(s.table, s.current)
  {
    FirstStop(s, SearchPath(s))
  }

  function SwitchTo(s: Sched, to: int): Sched
    requires IsSlot(s.table, s.current) && IsSlot(s.table, to)
  {
    var prev := s.table[s.current];
    var t1 := if prev.state == Running then s.table[s.current := prev.(state := Ready)] else s.table;
    s.(table := t1[to := t1[to].(state := Running)], current := to)
  }

  // `schedule`
  function Dispatch(s: Sched): Sched {
    if !IsSlot(s.table, s.current) then s
    else match Pick(s)
      case Some(i) => if i != s.current then SwitchTo(s, i) else s
      case None => s
  }

  // `task_exit`
  function ExitTask(s: Sched): Sched
    requires IsSlot(s.table, s.current)
  {
    Dispatch(s.(table := s.table[s.current := s.table[s.current].(state := Zombie)]))
  }

  // ---------- creating a task ----------

  predicate Reusable(t: Task) {
    t.pid == 0 || t.state == Zombie
  }

  // The first reusable slot from `i` on; slot 0 is never considered.
  function FindSlot(table: Table, i: nat): (r: int)
    requires i <= |table|
    ensures r == NULL || (i <= r < |table| && Reusable(table[r]))
    ensures forall k :: i <= k < (if r == NULL then |table| else r) ==> !Reusable(table[k])
    decreases |table| - i
  {
    if i == |table| then NULL
    else if Reusable(table[i]) then i
    else FindSlot(table, i + 1)
  }

  // The caller's part of a new task: its address space and its prepared kernel stack.
  datatype NewTask = NewTask(esp: word, eip: word, pageDir: word, kstack: word)

  function Filled(s: Sched, slot: int, t: NewTask): Table
    requires IsSlot(s.table, slot)
  {
    s.table[slot := s.table[slot].(pid := s.nextPid, esp := t.esp, eip := t.eip, pageDir := t.pageDir,
                                   kstack := t.kstack, state := Ready)]
  }

  // The last slot of the run list.
  function Last(list: seq<int>): int {
    if list == [] then NULL else list[|list| - 1]
  }

  // Append to the list, then end it there.
  function Appended(table: Table, head: int, slot: int): Table
    requires IsSlot(table, slot)
  {
    var last := Last(Chain(table, head));
    var t1 := if IsSlot(table, last) then table[last := table[last].(next := slot)] else table;
    t1[slot := t1[slot].(next := NULL)]
  }

  // `task_create` once the stack is prepared, into the slot the search found.
  function CreateIn(s: Sched, slot: int, t: NewTask): Sched
    requires IsSlot(s.table, slot)
  {
    Sched(Appended(Filled(s, slot, t), s.head, slot), if s.head == NULL then slot else s.head, s.current, Add32(s.nextPid, 1))
  }

  function CreateTask(s: Sched, t: NewTask): Sched
    requires |s.table| >= 1
  {
    var slot := FindSlot(s.table, 1);
    if slot == NULL then s else CreateIn(s, slot, t)
  }

  // ---------- the list after a creation ----------

  // Filling a slot moves no link.
  lemma {:induction false} FilledFollow(s: Sched, slot: int, t: NewTask, i: int, fuel: nat)
    requires IsSlot(s.table, slot)
    ensures Follow(Filled(s, slot, t), i, fuel) == Follow(s.table, i, fuel)
    decreases fuel
  {
    if fuel > 0 && IsSlot(s.table, i) {
      FilledFollow(s, slot, t, s.table[i].next, fuel - 1);
    }
  }

  lemma FilledRanked(s: Sched, slot: int, t: NewTask, rank: seq<nat>)
    requires IsSlot(s.table, slot) && Ranked(s.table, rank)
    ensures Ranked(Filled(s, slot, t), rank)
  {
  }

  // Appending keeps lists free of cycles, whatever linked to the slot before.
  lemma AppendedRanked(table: Table, head: int, slot: int, rank: seq<nat>)
    requires IsSlot(table, slot) && Ranked(table, rank)
    ensures Ranked(Appended(table, head, slot), seq(|rank|, k requires 0 <= k < |rank| => if k == slot then 0 else rank[k] + 1))
  {
  }

  // The list before and up to the first place where `slot` occurs.
  function UpTo(list: seq<int>, slot: int): (r: seq<int>)
    ensures r != [] && r[|r| - 1] == slot
  {
    if list == [] || list[0] == slot then [slot] else [list[0]] + UpTo(list[1..], slot)
  }

  lemma {:induction false} AppendedList(table: Table, table': Table, i: int, list: seq<int>, slot: int)
    requires IsList(table, i, list) && list != [] && IsSlot(table, slot) && |table'| == |table|
    requires forall k :: 0 <= k < |table| ==>
               table'[k].next == if k == slot then NULL else if k == Last(list) then slot else table[k].next
    requires forall j, k :: 0 <= j < k < |list| ==> list[j] != list[k]
    ensures IsList(table', i, UpTo(list, slot))
    decreases |list|
  {
    if list[0] == slot {
    } else if |list| == 1 {
      assert list[1..] == [];
    } else {
      assert Last(list[1..]) == Last(list);
      AppendedList(table, table', table[i].next, list[1..], slot);
      assert UpTo(list, slot)[1..] == UpTo(list[1..], slot);
    }
  }

  // A creation turns list L into L with the new slot at its end; if the slot was still on
  // the list, into the part of L that ends there.
  lemma CreateList(s: Sched, rank: seq<nat>, slot: int, t: NewTask)
    requires Ranked(s.table, rank) && (s.head == NULL || IsSlot(s.table, s.head)) && IsSlot(s.table, slot)
    ensures
      var s' := CreateIn(s, slot, t);
      && Acyclic(s'.table) && s'.head == (if s.head == NULL then slot else s.head)
      && Chain(s'.table, s'.head) == UpTo(Chain(s.table, s.head), slot)
  {
    hide Chain, Ranked, Descends, IsList;
    var filled := Filled(s, slot, t);
    var list := Chain(s.table, s.head);
    FilledChain(s, slot, t);
    FilledRanked(s, slot, t, rank);
    FilledHead(s, slot, t);
    ChainIsList(filled, rank, s.head);
    var s' := CreateIn(s, slot, t);
    var rank' := seq(|rank|, k requires 0 <= k < |rank| => if k == slot then 0 else rank[k] + 1);
    AppendedRanked(filled, s.head, slot, rank);
    AppendedIsList(filled, rank, s.head, list, slot);
    ListIsChain(s'.table, rank', s'.head, UpTo(list, slot));
  }

  lemma FilledChain(s: Sched, slot: int, t: NewTask)
    requires IsSlot(s.table, slot)
    ensures Chain(Filled(s, slot, t), s.head) == Chain(s.table, s.head)
  {
    FilledFollow(s, slot, t, s.head, |s.table|);
  }

  lemma FilledHead(s: Sched, slot: int, t: NewTask)
    requires IsSlot(s.table, slot)
    ensures |Filled(s, slot, t)| == |s.table|
  {
  }

  lemma AppendedIsList(table: Table, rank: seq<nat>, head: int, list: seq<int>, slot: int)
    requires Ranked(table, rank) && (head == NULL || IsSlot(table, head)) && IsSlot(table, slot)
    requires list == Chain(table, head) && IsList(table, head, list) && Descends(rank, list)
    ensures IsList(Appended(table, head, slot), if head == NULL then slot else head, UpTo(list, slot))
  {
    hide Chain, Ranked;
    var table' := Appended(table, head, slot);
    if head == NULL {
      assert list == [];
      assert IsList(table', slot, [slot]);
    } else {
      AppendedList(table, table', head, list, slot);
    }
  }
}
