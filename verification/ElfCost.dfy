/**
  What loading a list of pages costs (src/elf.c, src/vmm.c): one frame for each page and one
  for each directory slot that has no table yet. From that cost alone follows whether the
  page loop goes through, fails or halts.
 */
module ElfCost {
  import opened Frames
  import opened Paging
  import opened ElfPages

  // Some page of the list lies in slot `i`.
  ghost predicate UsesSlot(pages: seq<nat>, i: nat) {
    exists k :: 0 <= k < |pages| && pages[k] / 1024 == i
  }

  // The slots the pages use that have no table in directory `d`.
  ghost function Absent(m: Memory, d: nat, pages: seq<nat>): set<nat> {
    set i: nat | i < 1024 && !HasTable(m, d, i) && UsesSlot(pages, i)
  }

  ghost function Cost(m: Memory, d: nat, pages: seq<nat>): nat {
    |pages| + |Absent(m, d, pages)|
  }

  lemma UsesNext(pages: seq<nat>, p: nat, i: nat)
    ensures UsesSlot(pages + [p], i) <==> UsesSlot(pages, i) || i == p / 1024
  {
    var all := pages + [p];
    if k :| 0 <= k < |pages| && pages[k] / 1024 == i {
      assert all[k] / 1024 == i;
    }
    if i == p / 1024 {
      assert all[|pages|] / 1024 == i;
    }
    if k :| 0 <= k < |all| && all[k] / 1024 == i {
      assert k < |pages| ==> pages[k] / 1024 == i;
    }
  }

  // A page costs one frame, or two when it is the first in an absent slot.
  lemma CostNext(m: Memory, d: nat, pages: seq<nat>, p: nat)
    requires p < PAGES
    ensures
      var first := !HasTable(m, d, p / 1024) && !UsesSlot(pages, p / 1024);
      Cost(m, d, pages + [p]) == Cost(m, d, pages) + if first then 2 else 1
  {
    hide HasTable, UsesSlot;
    var i := p / 1024;
    forall j: nat
      ensures UsesSlot(pages + [p], j) <==> UsesSlot(pages, j) || j == i
    {
      UsesNext(pages, p, j);
    }
    if !HasTable(m, d, i) && !UsesSlot(pages, i) {
      assert Absent(m, d, pages + [p]) == Absent(m, d, pages) + {i};
    } else {
      assert Absent(m, d, pages + [p]) == Absent(m, d, pages);
    }
  }

  predicate ArePages(pages: seq<nat>) {
    forall k :: 0 <= k < |pages| ==> pages[k] < PAGES
  }

  lemma {:induction false} CostGrows(m: Memory, d: nat, pages: seq<nat>, j: nat, k: nat)
    requires ArePages(pages) && j < k <= |pages|
    ensures Cost(m, d, pages[..j]) < Cost(m, d, pages[..k])
    decreases k
  {
    hide Cost;
    assert pages[..k] == pages[..k - 1] + [pages[k - 1]];
    CostNext(m, d, pages[..k - 1], pages[k - 1]);
    if j < k - 1 {
      CostGrows(m, d, pages, j, k - 1);
    }
  }

  // How many of the pages `budget` frames are enough for.
  ghost function Fit(m: Memory, d: nat, pages: seq<nat>, budget: nat): (k: nat)
    ensures k <= |pages|
  {
    if pages == [] || Cost(m, d, pages) <= budget then |pages| else Fit(m, d, pages[..|pages| - 1], budget)
  }

  ghost predicate IsFit(m: Memory, d: nat, pages: seq<nat>, budget: nat, k: nat) {
    && k <= |pages| && Cost(m, d, pages[..k]) <= budget
    && (k < |pages| ==> Cost(m, d, pages[..k + 1]) > budget)
  }

  lemma {:induction false} FitUnique(m: Memory, d: nat, pages: seq<nat>, budget: nat, k: nat)
    requires ArePages(pages)
    ensures IsFit(m, d, pages, budget, k) <==> k == Fit(m, d, pages, budget)
    decreases |pages|
  {
    hide Cost;
    var n := |pages|;
    assert pages[..n] == pages;
    if n == 0 {
      CostNone(m, d);
    } else if Cost(m, d, pages) <= budget {
      if k < n - 1 {
        CostGrows(m, d, pages, k + 1, n);
      }
    } else {
      var front := pages[..n - 1];
      FitUnique(m, d, front, budget, k);
      if k < n {
        assert front[..k] == pages[..k];
        assert k < n - 1 ==> front[..k + 1] == pages[..k + 1];
      }
    }
  }

  lemma CostNone(m: Memory, d: nat)
    ensures Cost(m, d, []) == 0
  {
    assert Absent(m, d, []) == {};
  }

  // ---------- the load so far ----------

  // The tables of `c` are those it had and those of the pages loaded.
  ghost predicate TablesAre(m0: Memory, m: Memory, c: nat, pages: seq<nat>) {
    forall i: nat :: i < 1024 ==> (HasTable(m, c, i) <==> HasTable(m0, c, i) || UsesSlot(pages, i))
  }

  ghost predicate Costed(s0: Mem, dirs: set<nat>, c: nat, l: Load) {
    Account(s0, dirs, c, l) && TablesAre(s0.words, l.mem.words, c, l.pages)
  }

  // The frames still free are what the cost leaves of those free at the start.
  lemma CostLeaves(s0: Mem, dirs: set<nat>, c: nat, l: Load)
    requires Costed(s0, dirs, c, l)
    ensures |l.mem.free| + Cost(s0.words, c, l.pages) == |s0.free|
    ensures NewTables(s0.words, l.mem.words, c) == Absent(s0.words, c, l.pages)
  {
    hide Owned, Untabled, HasTable, UsesSlot;
    assert NewTables(s0.words, l.mem.words, c) == Absent(s0.words, c, l.pages);
  }

  lemma PageCosted(s0: Mem, dirs: set<nat>, c: nat, l: Load, p: nat)
    requires Costed(s0, dirs, c, l) && c in dirs && p < PAGES && LoadPage(l, c, p).Going?
    ensures Costed(s0, dirs, c, LoadPage(l, c, p).load) && LoadPage(l, c, p).load.pages == l.pages + [p]
  {
    var l' := LoadPage(l, c, p).load;
    LoadPageAccounts(s0, dirs, c, l, p);
    LoadPageEffect(l, dirs, c, p);
    hide Word, Walk, Owned, Untabled, HasTable, UsesSlot, KeepsData, KeepsPages, LoadPage, Account;
    forall i: nat | i < 1024
      ensures HasTable(l'.mem.words, c, i) <==> HasTable(s0.words, c, i) || UsesSlot(l'.pages, i)
    {
      UsesNext(l.pages, p, i);
    }
  }

  // One page: it fails when nothing is free, halts when its block is the last free frame
  // and its slot has no table, and else goes through.
  lemma PageOutcome(l: Load, c: nat, p: nat)
    ensures LoadPage(l, c, p).Failed? <==> l.mem.free == {}
    ensures LoadPage(l, c, p).Stopped? <==> |l.mem.free| == 1 && !HasTable(l.mem.words, c, p / 1024)
    ensures LoadPage(l, c, p).Failed? ==> LoadPage(l, c, p).load == l
  {
    if l.mem.free != {} {
      var f := Lowest(l.mem.free);
      MapTakes(l.mem.(free := l.mem.free - {f}), c, p, DirectoryEntry(f));
      hide MapPage, HasTable, DirectoryEntry;
      assert |l.mem.free - {f}| == |l.mem.free| - 1;
      assert l.mem.free - {f} == {} <==> |l.mem.free - {f}| == 0;
    }
  }

  // ---------- how a list of pages ends ----------

  // With page `k` the block is the last free frame, and a table is missing.
  ghost predicate Breaks(m: Memory, c: nat, all: seq<nat>, budget: nat, k: nat) {
    k < |all| && Cost(m, c, all[..k]) + 1 == budget && Cost(m, c, all[..k + 1]) == budget + 1
  }

  ghost predicate Ending(s0: Mem, dirs: set<nat>, c: nat, r: Progress, all: seq<nat>) {
    match r
    case Going(l) => Costed(s0, dirs, c, l) && l.pages == all
    case Failed(l) => Costed(s0, dirs, c, l) && l.mem.free == {} && l.pages < all
    case Stopped => exists k: nat :: Breaks(s0.words, c, all, |s0.free|, k)
  }

  function Range(first: nat, n: nat): (r: seq<nat>)
    ensures |r| == n && forall k :: 0 <= k < n ==> r[k] == first + k
  {
    seq(n, k requires 0 <= k => first + k)
  }

  // A list that has failed or halted does so with more pages behind it too.
  lemma EndingExtends(s0: Mem, dirs: set<nat>, c: nat, r: Progress, all: seq<nat>, more: seq<nat>)
    requires Ending(s0, dirs, c, r, all) && !r.Going?
    ensures Ending(s0, dirs, c, r, all + more)
  {
    hide Costed, Cost;
    if r.Stopped? {
      var k: nat :| Breaks(s0.words, c, all, |s0.free|, k);
      assert (all + more)[..k] == all[..k] && (all + more)[..k + 1] == all[..k + 1];
      assert Breaks(s0.words, c, all + more, |s0.free|, k);
    }
  }

  lemma PageEnds(s0: Mem, dirs: set<nat>, c: nat, l: Load, p: nat)
    requires Costed(s0, dirs, c, l) && c in dirs && p < PAGES
    ensures Ending(s0, dirs, c, LoadPage(l, c, p), l.pages + [p])
  {
    var all := l.pages + [p];
    PageOutcome(l, c, p);
    CostLeaves(s0, dirs, c, l);
    var absent := !HasTable(s0.words, c, p / 1024) && !UsesSlot(l.pages, p / 1024);
    assert HasTable(l.mem.words, c, p / 1024) <==> !absent;
    hide Costed, Cost, LoadPage, HasTable, UsesSlot;
    match LoadPage(l, c, p)
    case Going(_) => PageCosted(s0, dirs, c, l, p);
    case Failed(_) =>
    case Stopped =>
      CostNext(s0.words, c, l.pages, p);
      assert all[..|l.pages|] == l.pages && all[..|l.pages| + 1] == all;
      assert Breaks(s0.words, c, all, |s0.free|, |l.pages|);
  }

  lemma {:induction false} PagesEnd(s0: Mem, dirs: set<nat>, c: nat, l: Load, first: nat, n: nat)
    requires Costed(s0, dirs, c, l) && c in dirs && first + n <= PAGES
    ensures Ending(s0, dirs, c, LoadPages(l, c, first, n), l.pages + Range(first, n))
    decreases n
  {
    hide Costed, LoadPage, Breaks;
    if n == 0 {
      assert l.pages + Range(first, 0) == l.pages;
    } else {
      PagesEnd(s0, dirs, c, l, first, n - 1);
      var all, p := l.pages + Range(first, n - 1), first + n - 1;
      assert l.pages + Range(first, n) == all + [p];
      var r := LoadPages(l, c, first, n - 1);
      if r.Going? {
        PageEnds(s0, dirs, c, r.load, p);
      } else {
        EndingExtends(s0, dirs, c, r, all, [p]);
      }
    }
  }
}
