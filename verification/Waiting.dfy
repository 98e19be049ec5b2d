/**
  Two finer results about the run list (src/task.c): exactly when a creation loses live
  tasks, and how long a ready task can wait.
 */
module Waiting {
  import opened Scheduler
  import opened SchedulerRuns

  // ---------- creation and the live tasks ----------

  ghost predicate LiveListed(s: Sched) {
    forall i :: 0 <= i < |s.table| && Live(s.table[i]) ==> i in Chain(s.table, s.head)
  }

  // No live task comes after `slot` on the list.
  ghost predicate NothingLiveAfter(s: Sched, slot: int) {
    var list := Chain(s.table, s.head);
    forall j, k :: 0 <= j < k < |list| && list[j] == slot ==> !Live(s.table[list[k]])
  }

  lemma {:induction false} UpToAt(list: seq<int>, slot: int, k: nat)
    requires k < |list|
    requires forall i, j :: 0 <= i < j < |list| ==> list[i] != list[j]
    ensures list[k] in UpTo(list, slot) <==> forall j :: 0 <= j < k ==> list[j] != slot
    decreases |list|
  {
    if k > 0 && list[0] != slot {
      UpToAt(list[1..], slot, k - 1);
      forall j | 0 <= j < k && list[j] == slot
        ensures list[1..][j - 1] == slot
      {
      }
      assert forall j :: 0 <= j < k - 1 ==> list[1..][j] == list[j + 1];
    }
  }

  lemma {:induction false} UpToOnly(list: seq<int>, slot: int, i: int)
    requires i in UpTo(list, slot)
    ensures i == slot || i in list
  {
    if list != [] && list[0] != slot && i != list[0] {
      UpToOnly(list[1..], slot, i);
    }
  }

  // A creation keeps all live tasks on the list if and only if none of them comes after
  // the slot it reuses.
  lemma CreateKeepsLiveIff(s: Sched, t: NewTask)
    requires Sound(s) && LiveListed(s) && Allowed(s, Create(t)) && FindSlot(s.table, 1) != NULL
    ensures LiveListed(CreateTask(s, t)) <==> NothingLiveAfter(s, FindSlot(s.table, 1))
  {
    hide CreateIn, Chain, PidsDistinct, LinksUsed, Acyclic;
    var slot, list := FindSlot(s.table, 1), Chain(s.table, s.head);
    var s' := CreateIn(s, slot, t);
    ChainDistinct(s);
    CreateChain(s, slot, t);
    CreateIsCreated(s, slot, t);
    if NothingLiveAfter(s, slot) {
      forall i | 0 <= i < |s'.table| && Live(s'.table[i])
        ensures i in Chain(s'.table, s'.head)
      {
        assert CreatedSlot(s, s', slot, i);
        if i != slot {
          var k :| 0 <= k < |list| && list[k] == i;
          UpToAt(list, slot, k);
        }
      }
    } else {
      var j, k :| 0 <= j < k < |list| && list[j] == slot && Live(s.table[list[k]]);
      UpToAt(list, slot, k);
      assert CreatedSlot(s, s', slot, list[k]);
      assert Live(s'.table[list[k]]);
    }
  }

  // ---------- bounded waiting ----------

  // How far place `p` is ahead of place `c` on a list of `n` that wraps.
  function Distance(n: nat, c: nat, p: nat): int {
    if p >= c then p - c else p - c + n
  }

  lemma {:induction false} ListSuffix(table: Table, i: int, list: seq<int>, c: nat)
    requires IsList(table, i, list) && c < |list|
    ensures IsSlot(table, list[c]) && IsList(table, table[list[c]].next, list[c + 1..])
    decreases c
  {
    if c > 0 {
      ListSuffix(table, table[i].next, list[1..], c - 1);
      assert list[1..][c..] == list[c + 1..];
    }
  }

  // The current task at place `c` of the list, a ready task at place `p`.
  ghost predicate Waits(s: Sched, c: nat, p: nat) {
    var list := Chain(s.table, s.head);
    && Acyclic(s.table) && IsSlot(s.table, s.head)
    && c < |list| && p < |list| && c != p
    && list[c] == s.current && s.table[list[p]].state == Ready
  }

  lemma PathOnList(s: Sched, c: nat)
    requires Acyclic(s.table) && IsSlot(s.table, s.head) && c < |Chain(s.table, s.head)|
    requires Chain(s.table, s.head)[c] == s.current
    ensures SearchPath(s) == Chain(s.table, s.head)[c + 1..] + Chain(s.table, s.head)
  {
    var list := Chain(s.table, s.head);
    var rank :| Ranked(s.table, rank);
    ChainIsList(s.table, rank, s.head);
    ListSuffix(s.table, s.head, list, c);
    ListIsChain(s.table, rank, s.table[s.current].next, list[c + 1..]);
  }

  // The search takes a task that is nearer to the waiting one, or that one itself.
  lemma PickAdvances(s: Sched, c: nat, p: nat) returns (c': nat)
    requires Waits(s, c, p)
    ensures Pick(s).Some? && Pick(s).value != s.current
    ensures c' < |Chain(s.table, s.head)| && Pick(s).value == Chain(s.table, s.head)[c']
    ensures 0 <= Distance(|Chain(s.table, s.head)|, c', p) < Distance(|Chain(s.table, s.head)|, c, p)
  {
    var list := Chain(s.table, s.head);
    ChainDistinct(s);
    PathOnList(s, c);
    var path := SearchPath(s);
    hide Chain;
    var at := if p > c then p - c - 1 else |list| - c - 1 + p;
    assert path[at] == list[p] && Stops(s, path[at]);
    var m := FirstStopAt(s, path);
    assert m <= at;
    c' := if m < |list| - c - 1 then c + 1 + m else m - (|list| - c - 1);
    assert path[m] == list[c'];
  }

  ghost predicate Nearer(s: Sched, s': Sched, c: nat, c': nat, p: nat) {
    var list := Chain(s.table, s.head);
    && Chain(s'.table, s'.head) == list
    && c' < |list| && s'.current == list[c']
    && 0 <= Distance(|list|, c', p) < Distance(|list|, c, p)
    && (c' != p ==> Waits(s', c', p))
  }

  lemma DispatchAdvances(s: Sched, c: nat, p: nat) returns (c': nat)
    requires Waits(s, c, p)
    ensures Nearer(s, Dispatch(s), c, c', p)
  {
    ChainDistinct(s);
    hide Chain, Acyclic, Pick;
    c' := PickAdvances(s, c, p);
    var to := Pick(s).value;
    assert IsSlot(s.table, s.current) && IsSlot(s.table, to) by { ChainSlots(s, c); ChainSlots(s, c'); ChainSlots(s, p); }
    SwitchKeeps(s, to);
    SameLinksKeep(s, SwitchTo(s, to));
    assert Dispatch(s) == SwitchTo(s, to);
    if c' != p {
      ChainSlots(s, p);
    }
  }

  lemma ChainSlots(s: Sched, k: nat)
    requires k < |Chain(s.table, s.head)|
    ensures IsSlot(s.table, Chain(s.table, s.head)[k])
  {
  }

  // One tick, or the current task's exit.
  lemma StepAdvances(s: Sched, op: Op, c: nat, p: nat) returns (c': nat)
    requires Waits(s, c, p) && !op.Create?
    ensures Nearer(s, Next(s, op), c, c', p)
  {
    ChainDistinct(s);
    if op.Exit? {
      var z := s.(table := s.table[s.current := s.table[s.current].(state := Zombie)]);
      SameLinksKeep(s, z);
      hide Chain, Acyclic, Dispatch;
      ChainSlots(s, p);
      assert Waits(z, c, p);
      c' := DispatchAdvances(z, c, p);
    } else {
      c' := DispatchAdvances(s, c, p);
    }
  }

  // The task in `slot` becomes current within `k` steps of the run.
  ghost predicate RunsWithin(s: Sched, run: seq<Op>, slot: int, k: nat)
    requires Legal(s, run)
    decreases |run|
  {
    k > 0 && run != [] &&
    (Next(s, run[0]).current == slot || RunsWithin(Next(s, run[0]), run[1..], slot, k - 1))
  }

  lemma {:induction false} DistanceBounds(s: Sched, run: seq<Op>, c: nat, p: nat)
    requires Waits(s, c, p) && Legal(s, run)
    requires forall i :: 0 <= i < |run| ==> !run[i].Create?
    requires Distance(|Chain(s.table, s.head)|, c, p) <= |run|
    ensures RunsWithin(s, run, Chain(s.table, s.head)[p], Distance(|Chain(s.table, s.head)|, c, p))
    decreases |run|
  {
    hide Chain, Next;
    var list := Chain(s.table, s.head);
    var c' := StepAdvances(s, run[0], c, p);
    if c' != p {
      DistanceBounds(Next(s, run[0]), run[1..], c', p);
      RunsLater(Next(s, run[0]), run[1..], list[p], Distance(|list|, c', p), Distance(|list|, c, p) - 1);
    }
  }

  lemma {:induction false} RunsLater(s: Sched, run: seq<Op>, slot: int, k: nat, k': nat)
    requires Legal(s, run) && RunsWithin(s, run, slot, k) && k <= k'
    ensures RunsWithin(s, run, slot, k')
    decreases |run|
  {
    if Next(s, run[0]).current != slot {
      RunsLater(Next(s, run[0]), run[1..], slot, k - 1, k' - 1);
    }
  }

  // While no task is created, a ready task on a list of n tasks runs within n - 1 turns,
  // whichever tasks exit meanwhile.
  lemma BoundedWaiting(s: Sched, run: seq<Op>, c: nat, p: nat)
    requires Waits(s, c, p) && Legal(s, run) && |Chain(s.table, s.head)| - 1 <= |run|
    requires forall i :: 0 <= i < |run| ==> !run[i].Create?
    ensures RunsWithin(s, run, Chain(s.table, s.head)[p], |Chain(s.table, s.head)| - 1)
  {
    hide Chain;
    var list := Chain(s.table, s.head);
    DistanceBounds(s, run, c, p);
    RunsLater(s, run, list[p], Distance(|list|, c, p), |list| - 1);
  }
}
