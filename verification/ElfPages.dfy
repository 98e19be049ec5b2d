/**
  Loading the pages of a segment (src/elf.c): one frame per page is allocated, mapped
  into the new directory and cleared. What each page changes, what it leaves alone,
  and how many frames it costs.
 */
module ElfPages {
  import opened Words
  import opened Frames
  import opened Paging
  import opened MemoryRuns
  import opened IdentityMap

  // `blocks[k]` was allocated for page `pages[k]`, in this order.
  datatype Load = Load(mem: Mem, pages: seq<nat>, blocks: seq<nat>)

  // Failed leads to the cleanup; Stopped is the halt inside `vmm_map_page`.
  datatype Progress = Going(load: Load) | Failed(load: Load) | Stopped

  ghost function LoadPage(l: Load, c: nat, p: nat): Progress {
    if l.mem.free == {} then Failed(l)
    else
      var f := Lowest(l.mem.free);
      match MapPage(l.mem.(free := l.mem.free - {f}), c, p, DirectoryEntry(f))
      case None => Stopped
      case Some(s) => Going(Load(s.(words := ZeroAt(s.words, c, p)), l.pages + [p], l.blocks + [f]))
  }

  ghost function LoadPages(l: Load, c: nat, first: nat, n: nat): Progress {
    if n == 0 then Going(l)
    else match LoadPages(l, c, first, n - 1)
      case Going(l') => LoadPage(l', c, first + n - 1)
      case r => r
  }

  // ---------- what the steps keep ----------

  ghost predicate FrameSame(m: Memory, m': Memory, g: nat) {
    forall j: nat :: j < 1024 ==> Word(m', g, j) == Word(m, g, j)
  }

  // Frames that are taken and hold neither directory nor table keep their contents.
  ghost predicate KeepsData(dirs: set<nat>, s: Mem, s': Mem) {
    && s'.free <= s.free && |s'.words| == |s.words|
    && forall g: nat :: g !in s.free && Untabled(s.words, dirs, g) ==>
         FrameSame(s.words, s'.words, g) && Untabled(s'.words, dirs, g)
  }

  // Loading pages `first` up to `first + n - 1` into `c` may change directory `e` at page `q`.
  ghost predicate Affected(m: Memory, c: nat, e: nat, q: nat, first: nat, n: nat) {
    first <= q < first + n && (e == c || Shares(m, c, e, q / 1024))
  }

  ghost predicate KeepsPages(dirs: set<nat>, c: nat, m: Memory, m': Memory, first: nat, n: nat) {
    && (forall e, q: nat :: e in dirs && q < PAGES && !Affected(m, c, e, q, first, n) ==> Walk(m', e, q) == Walk(m, e, q))
    && (forall e, i: nat :: e in dirs && e != c && i < 1024 ==> Shares(m', c, e, i) == Shares(m, c, e, i))
  }

  lemma KeepsDataTransitive(dirs: set<nat>, s: Mem, s1: Mem, s2: Mem)
    requires KeepsData(dirs, s, s1) && KeepsData(dirs, s1, s2)
    ensures KeepsData(dirs, s, s2)
  {
    hide Word, Untabled;
  }

  lemma KeepsPagesExtend(dirs: set<nat>, c: nat, m: Memory, m1: Memory, m2: Memory, first: nat, n: nat)
    requires first + n < PAGES
    requires KeepsPages(dirs, c, m, m1, first, n) && KeepsPages(dirs, c, m1, m2, first + n, 1)
    ensures KeepsPages(dirs, c, m, m2, first, n + 1)
  {
    hide Walk, Shares;
    var n', p := n + 1, first + n;
    forall e, q: nat | e in dirs && q < PAGES && !Affected(m, c, e, q, first, n')
      ensures Walk(m2, e, q) == Walk(m, e, q)
    {
      assert !Affected(m, c, e, q, first, n);
      assert !Affected(m1, c, e, q, p, 1);
    }
  }

  // ---------- the table edits of one page ----------

  lemma MapKeepsUntabled(s: Mem, dirs: set<nat>, d: nat, p: nat, w: word, g: nat)
    requires Owned(s, dirs) && d in dirs && p < PAGES && MapPage(s, d, p, w).Some?
    requires g !in s.free && Untabled(s.words, dirs, g)
    ensures Untabled(MapPage(s, d, p, w).value.words, dirs, g)
    ensures FrameSame(s.words, MapPage(s, d, p, w).value.words, g)
  {
    var i := p / 1024;
    var s1 := Install(s, d, i).value;
    assert Untabled(s1.words, dirs, g) && FrameSame(s.words, s1.words, g) by {
      InstallKeepsUntabled(s, dirs, d, i, g);
    }
    InstallKeepsOwned(s, dirs, d, i);
    SetEntryKeepsUntabled(s1, dirs, d, p, w, g);
    hide Word, Untabled, Install, SetEntry, Owned;
  }

  lemma InstallKeepsUntabled(s: Mem, dirs: set<nat>, d: nat, i: nat, g: nat)
    requires Owned(s, dirs) && d in dirs && i < 1024 && Install(s, d, i).Some?
    requires g !in s.free && Untabled(s.words, dirs, g)
    ensures Untabled(Install(s, d, i).value.words, dirs, g)
    ensures FrameSame(s.words, Install(s, d, i).value.words, g)
  {
    if !HasTable(s.words, d, i) {
      var t := Lowest(s.free);
      InstallFreshMeaning(s, dirs, d, i, t);
      DirectoryEntryBits(t);
      hide Word, InstallFresh, DirectoryEntry, TablesOwned, OneSlotPerTable, FramesOwned;
      var m' := InstallFresh(s, d, i, t).words;
      forall e, j: nat | e in dirs && j < 1024 && HasTable(m', e, j)
        ensures TableOf(m', e, j) != g
      {
        if !(e == d && j == i) {
          assert HasTable(s.words, e, j);
        }
      }
    }
  }

  lemma SetEntryKeepsUntabled(s: Mem, dirs: set<nat>, d: nat, p: nat, w: word, g: nat)
    requires Owned(s, dirs) && d in dirs && p < PAGES && HasTable(s.words, d, p / 1024)
    requires Untabled(s.words, dirs, g)
    ensures Untabled(SetEntry(s, d, p, w).words, dirs, g)
    ensures FrameSame(s.words, SetEntry(s, d, p, w).words, g)
  {
    var t := TableOf(s.words, d, p / 1024);
    TableOwned(s, dirs, d, p / 1024);
    StoreMeaning(s.words, t, p % 1024, w);
    hide Word, Store, TablesOwned, OneSlotPerTable;
    var m' := SetEntry(s, d, p, w).words;
    forall e, j: nat | e in dirs && j < 1024
      ensures HasTable(m', e, j) == HasTable(s.words, e, j) && TableOf(m', e, j) == TableOf(s.words, e, j)
    {
      assert e != t;
    }
  }

  // Writing data leaves the tables as they are.
  lemma DataWriteKeepsTables(m: Memory, m': Memory, dirs: set<nat>, changed: set<nat>)
    requires SameOutside(m, m', changed) && forall f :: f in changed ==> Untabled(m, dirs, f)
    ensures forall e, i: nat :: e in dirs && i < 1024 ==> HasTable(m', e, i) == HasTable(m, e, i)
    ensures forall e, i: nat :: e in dirs && i < 1024 ==> TableOf(m', e, i) == TableOf(m, e, i)
    ensures forall g: nat :: Untabled(m, dirs, g) ==> Untabled(m', dirs, g)
    ensures forall e, f, i: nat :: e in dirs && f in dirs && i < 1024 ==> Shares(m', e, f, i) == Shares(m, e, f, i)
  {
    hide Word;
    forall e, i: nat | e in dirs && i < 1024
      ensures HasTable(m', e, i) == HasTable(m, e, i) && TableOf(m', e, i) == TableOf(m, e, i)
    {
      assert e !in changed;
    }
  }

  // ---------- one page ----------

  ghost predicate Loaded(l: Load, l': Load, c: nat, p: nat) {
    && l.mem.free != {}
    && l'.pages == l.pages + [p] && l'.blocks == l.blocks + [Lowest(l.mem.free)]
    && Walk(l'.mem.words, c, p) == Some(Translation(Lowest(l.mem.free), 7))
    && (forall j: nat :: j < 1024 ==> Word(l'.mem.words, Lowest(l.mem.free), j) == 0)
  }

  ghost predicate PageEffect(dirs: set<nat>, c: nat, l: Load, l': Load, p: nat) {
    l.mem.free != {} &&
    var f := Lowest(l.mem.free);
    && Loaded(l, l', c, p)
    && Owned(l'.mem, dirs)
    && f !in l'.mem.free && Untabled(l'.mem.words, dirs, f)
    && KeepsData(dirs, l.mem, l'.mem)
    && KeepsPages(dirs, c, l.mem.words, l'.mem.words, p, 1)
    && (forall i: nat :: i < 1024 ==>
          (HasTable(l'.mem.words, c, i) <==> HasTable(l.mem.words, c, i) || i == p / 1024))
    && |l.mem.free| == |l'.mem.free| + (if HasTable(l.mem.words, c, p / 1024) then 1 else 2)
  }

  // The mapping, before the page is cleared.
  lemma MapEffect(s: Mem, dirs: set<nat>, c: nat, p: nat)
    requires Owned(s, dirs) && c in dirs && p < PAGES && s.free != {}
    requires MapPage(s.(free := s.free - {Lowest(s.free)}), c, p, DirectoryEntry(Lowest(s.free))).Some?
    ensures
      var f := Lowest(s.free);
      var s' := MapPage(s.(free := s.free - {f}), c, p, DirectoryEntry(f)).value;
      && Owned(s', dirs) && |s'.words| == |s.words|
      && Walk(s'.words, c, p) == Some(Translation(f, 7))
      && f !in s'.free && Untabled(s'.words, dirs, f)
      && KeepsData(dirs, s, s') && KeepsPages(dirs, c, s.words, s'.words, p, 1)
      && (forall i: nat :: i < 1024 ==> (HasTable(s'.words, c, i) <==> HasTable(s.words, c, i) || i == p / 1024))
      && |s.free| == |s'.free| + (if HasTable(s.words, c, p / 1024) then 1 else 2)
  {
    var f := Lowest(s.free);
    var s1, w := s.(free := s.free - {f}), DirectoryEntry(f);
    var s' := MapPage(s1, c, p, w).value;
    TakeKeepsOwned(s, dirs, f);
    FreeIsUntabled(s, dirs, f);
    MapKeepsOwned(s1, dirs, c, p, w);
    MapTakes(s1, c, p, w);
    MapSize(s1, c, p, w);
    assert InRam(s.words, f);
    DecodePacked(f, 7);
    hide Word, Walk, Owned, MapPage, Decode, DirectoryEntry, Untabled, Shares, HasTable;
    MapWalk(s1, dirs, c, p, w, c, p);
    MapKeepsUntabled(s1, dirs, c, p, w, f);
    forall g: nat | g !in s.free && Untabled(s.words, dirs, g)
      ensures FrameSame(s.words, s'.words, g) && Untabled(s'.words, dirs, g)
    {
      MapKeepsUntabled(s1, dirs, c, p, w, g);
    }
    forall e, q: nat | e in dirs && q < PAGES && !Affected(s.words, c, e, q, p, 1)
      ensures Walk(s'.words, e, q) == Walk(s.words, e, q)
    {
      MapWalk(s1, dirs, c, p, w, e, q);
    }
    forall e, i: nat | e in dirs && e != c && i < 1024
      ensures Shares(s'.words, c, e, i) == Shares(s.words, c, e, i)
    {
      MapKeepsSharing(s1, dirs, c, p, w, c, e, i);
    }
    forall i: nat | i < 1024
      ensures HasTable(s'.words, c, i) <==> HasTable(s.words, c, i) || i == p / 1024
    {
      MapPresence(s1, dirs, c, p, w, i);
    }
  }

  lemma MapSize(s: Mem, d: nat, p: nat, w: word)
    requires MapPage(s, d, p, w).Some?
    ensures |MapPage(s, d, p, w).value.words| == |s.words|
  {
    if !HasTable(s.words, d, p / 1024) {
      ZeroedMeaning(s.words, Lowest(s.free));
    }
  }

  lemma LoadPageEffect(l: Load, dirs: set<nat>, c: nat, p: nat)
    requires Owned(l.mem, dirs) && c in dirs && p < PAGES && LoadPage(l, c, p).Going?
    ensures PageEffect(dirs, c, l, LoadPage(l, c, p).load, p)
  {
    MapEffect(l.mem, dirs, c, p);
    var f := Lowest(l.mem.free);
    var s1 := MapPage(l.mem.(free := l.mem.free - {f}), c, p, DirectoryEntry(f)).value;
    var l' := LoadPage(l, c, p).load;
    ZeroedMeaning(s1.words, f);
    hide Word, Walk, Owned, MapPage, Zeroed, DirectoryEntry, Untabled, Shares, HasTable, KeepsData, KeepsPages;
    assert l'.mem.words == Zeroed(s1.words, f);
    assert SameOutside(s1.words, l'.mem.words, {f});
    DataWriteKeepsOwned(s1, l'.mem.words, dirs, {f});
    DataWriteKeepsTables(s1.words, l'.mem.words, dirs, {f});
    DataWriteKeepsPages(dirs, c, l.mem.words, s1.words, l'.mem.words, p, 1, {f});
    DataWriteKeepsWalk(s1.words, l'.mem.words, dirs, {f}, c, p);
    FreshWriteKeepsData(dirs, l.mem, s1, l'.mem.words, {f});
  }

  lemma DataWriteKeepsPages(dirs: set<nat>, c: nat, m: Memory, m1: Memory, m2: Memory, first: nat, n: nat, changed: set<nat>)
    requires c in dirs && KeepsPages(dirs, c, m, m1, first, n)
    requires SameOutside(m1, m2, changed) && forall f :: f in changed ==> Untabled(m1, dirs, f)
    ensures KeepsPages(dirs, c, m, m2, first, n)
  {
    hide Word, Walk, Shares, Untabled, Affected;
    DataWriteKeepsTables(m1, m2, dirs, changed);
    forall e, q: nat | e in dirs && q < PAGES && !Affected(m, c, e, q, first, n)
      ensures Walk(m2, e, q) == Walk(m, e, q)
    {
      DataWriteKeepsWalk(m1, m2, dirs, changed, e, q);
    }
  }

  // Writing into frames that were free at the start keeps the data of all others.
  lemma FreshWriteKeepsData(dirs: set<nat>, s: Mem, s1: Mem, m2: Memory, changed: set<nat>)
    requires KeepsData(dirs, s, s1) && SameOutside(s1.words, m2, changed) && changed <= s.free
    requires forall f :: f in changed ==> Untabled(s1.words, dirs, f)
    ensures KeepsData(dirs, s, s1.(words := m2))
  {
    hide Word, Untabled;
    DataWriteKeepsTables(s1.words, m2, dirs, changed);
    forall g: nat | g !in s.free && Untabled(s.words, dirs, g)
      ensures FrameSame(s.words, m2, g)
    {
      assert FrameSame(s.words, s1.words, g);
    }
  }

  // ---------- the account of frames ----------

  // The slots of `c` that got a page table since `m0`.
  ghost function NewTables(m0: Memory, m: Memory, c: nat): set<nat> {
    set i: nat | i < 1024 && HasTable(m, c, i) && !HasTable(m0, c, i)
  }

  ghost predicate Distinct(s: seq<nat>) {
    forall i, j :: 0 <= i < j < |s| ==> s[i] != s[j]
  }

  // Every block of the load was free at the start and is held by nothing else now.
  ghost predicate BlocksHeld(s0: Mem, dirs: set<nat>, l: Load) {
    && |l.pages| == |l.blocks| && Distinct(l.blocks)
    && forall k :: 0 <= k < |l.blocks| ==>
         l.blocks[k] in s0.free && l.blocks[k] !in l.mem.free && Untabled(l.mem.words, dirs, l.blocks[k])
  }

  // Frames are conserved: those gone are the blocks of the load and its new page tables.
  ghost predicate Account(s0: Mem, dirs: set<nat>, c: nat, l: Load) {
    && Owned(l.mem, dirs) && |l.mem.words| == |s0.words| && l.mem.free <= s0.free
    && BlocksHeld(s0, dirs, l)
    && (forall i: nat :: i < 1024 && HasTable(s0.words, c, i) ==> HasTable(l.mem.words, c, i))
    && |s0.free| == |l.mem.free| + |l.blocks| + |NewTables(s0.words, l.mem.words, c)|
  }

  lemma NewTablesGrow(m0: Memory, m: Memory, m': Memory, c: nat, i: nat)
    requires i < 1024
    requires forall k: nat :: k < 1024 ==> (HasTable(m', c, k) <==> HasTable(m, c, k) || k == i)
    requires forall k: nat :: k < 1024 && HasTable(m0, c, k) ==> HasTable(m, c, k)
    ensures |NewTables(m0, m', c)| == |NewTables(m0, m, c)| + (if HasTable(m, c, i) then 0 else 1)
  {
    hide HasTable;
    if HasTable(m, c, i) {
      assert NewTables(m0, m', c) == NewTables(m0, m, c);
    } else {
      assert i !in NewTables(m0, m, c);
      assert NewTables(m0, m', c) == NewTables(m0, m, c) + {i};
    }
  }

  lemma BlocksHeldNext(s0: Mem, dirs: set<nat>, l: Load, l': Load, c: nat, p: nat)
    requires BlocksHeld(s0, dirs, l) && l.mem.free <= s0.free && PageEffect(dirs, c, l, l', p)
    ensures BlocksHeld(s0, dirs, l')
  {
    hide Word, Walk, Owned, KeepsPages, HasTable, Untabled, FrameSame;
    var f := Lowest(l.mem.free);
    assert l.blocks + [f] == l'.blocks;
    forall k | 0 <= k < |l'.blocks|
      ensures l'.blocks[k] in s0.free && l'.blocks[k] !in l'.mem.free && Untabled(l'.mem.words, dirs, l'.blocks[k])
    {
      if k < |l.blocks| {
        assert l'.blocks[k] == l.blocks[k];
      }
    }
  }

  lemma LoadPageAccounts(s0: Mem, dirs: set<nat>, c: nat, l: Load, p: nat)
    requires Account(s0, dirs, c, l) && c in dirs && p < PAGES && LoadPage(l, c, p).Going?
    ensures Account(s0, dirs, c, LoadPage(l, c, p).load)
  {
    var l' := LoadPage(l, c, p).load;
    LoadPageEffect(l, dirs, c, p);
    BlocksHeldNext(s0, dirs, l, l', c, p);
    NewTablesGrow(s0.words, l.mem.words, l'.mem.words, c, p / 1024);
    hide Word, Walk, Owned, LoadPage, KeepsPages, HasTable, Untabled, FrameSame, BlocksHeld, NewTables;
  }

  lemma {:induction false} LoadPagesAccounts(s0: Mem, dirs: set<nat>, c: nat, l: Load, first: nat, n: nat)
    requires Account(s0, dirs, c, l) && c in dirs && first + n <= PAGES
    ensures !LoadPages(l, c, first, n).Stopped? ==> Account(s0, dirs, c, LoadPages(l, c, first, n).load)
    decreases n
  {
    hide Account, LoadPage;
    if n > 0 {
      LoadPagesAccounts(s0, dirs, c, l, first, n - 1);
      var r := LoadPages(l, c, first, n - 1);
      if r.Going? {
        NoFramesKeeps(r.load, c, first + n - 1);
        if LoadPage(r.load, c, first + n - 1).Going? {
          LoadPageAccounts(s0, dirs, c, r.load, first + n - 1);
        }
      }
    }
  }

  lemma NoFramesKeeps(l: Load, c: nat, p: nat)
    ensures LoadPage(l, c, p).Failed? ==> LoadPage(l, c, p).load == l
  {
  }

  // ---------- all pages of a segment ----------

  // Page `first + k` shows block `k` of the segment, cleared.
  ghost predicate Placed(dirs: set<nat>, c: nat, l: Load, l': Load, first: nat, n: nat) {
    && |l'.blocks| == |l.blocks| + n && |l.pages| <= |l'.pages| == |l.pages| + n
    && l'.blocks[..|l.blocks|] == l.blocks && l'.pages[..|l.pages|] == l.pages
    && forall k: nat :: k < n ==> PlacedPage(dirs, c, l, l', first, k)
  }

  ghost predicate PlacedPage(dirs: set<nat>, c: nat, l: Load, l': Load, first: nat, k: nat) {
    && |l.blocks| + k < |l'.blocks| && |l.pages| + k < |l'.pages|
    && var f := l'.blocks[|l.blocks| + k];
       && l'.pages[|l.pages| + k] == first + k
       && f in l.mem.free && f !in l'.mem.free && Untabled(l'.mem.words, dirs, f)
       && Walk(l'.mem.words, c, first + k) == Some(Translation(f, 7))
       && (forall j: nat :: j < 1024 ==> Word(l'.mem.words, f, j) == 0)
  }

  ghost predicate PagesEffect(dirs: set<nat>, c: nat, l: Load, l': Load, first: nat, n: nat) {
    && Owned(l'.mem, dirs)
    && KeepsData(dirs, l.mem, l'.mem)
    && KeepsPages(dirs, c, l.mem.words, l'.mem.words, first, n)
    && Placed(dirs, c, l, l', first, n)
  }

  lemma PagesEffectNext(dirs: set<nat>, c: nat, l: Load, l1: Load, l2: Load, first: nat, n: nat)
    requires first + n < PAGES && c in dirs
    requires PagesEffect(dirs, c, l, l1, first, n) && PageEffect(dirs, c, l1, l2, first + n)
    ensures PagesEffect(dirs, c, l, l2, first, n + 1)
  {
    hide Word, Walk, Owned, Untabled, Shares, HasTable;
    KeepsDataTransitive(dirs, l.mem, l1.mem, l2.mem);
    KeepsPagesExtend(dirs, c, l.mem.words, l1.mem.words, l2.mem.words, first, n);
    var n' := n + 1;
    forall k: nat | k < n'
      ensures PlacedPage(dirs, c, l, l2, first, k)
    {
      if k < n {
        assert PlacedPage(dirs, c, l, l1, first, k);
        var f := l1.blocks[|l.blocks| + k];
        assert FrameSame(l1.mem.words, l2.mem.words, f);
        assert !Affected(l1.mem.words, c, c, first + k, first + n, 1);
      }
    }
  }

  lemma {:induction false} LoadPagesEffect(l: Load, dirs: set<nat>, c: nat, first: nat, n: nat)
    requires Owned(l.mem, dirs) && c in dirs && first + n <= PAGES && LoadPages(l, c, first, n).Going?
    ensures PagesEffect(dirs, c, l, LoadPages(l, c, first, n).load, first, n)
    decreases n
  {
    hide PageEffect, LoadPage, Owned, Untabled;
    if n == 0 {
      hide Word, Walk, Shares;
    } else {
      LoadPagesEffect(l, dirs, c, first, n - 1);
      var l1 := LoadPages(l, c, first, n - 1).load;
      LoadPageEffect(l1, dirs, c, first + n - 1);
      PagesEffectNext(dirs, c, l, l1, LoadPages(l, c, first, n).load, first, n - 1);
    }
  }

  lemma DataWriteAccounts(s0: Mem, dirs: set<nat>, c: nat, l: Load, m': Memory, changed: set<nat>)
    requires Account(s0, dirs, c, l) && c in dirs
    requires SameOutside(l.mem.words, m', changed) && forall f :: f in changed ==> Untabled(l.mem.words, dirs, f)
    ensures Account(s0, dirs, c, l.(mem := l.mem.(words := m')))
  {
    hide Word, Owned, Untabled, HasTable, Shares;
    DataWriteKeepsOwned(l.mem, m', dirs, changed);
    DataWriteKeepsTables(l.mem.words, m', dirs, changed);
    assert NewTables(s0.words, m', c) == NewTables(s0.words, l.mem.words, c);
  }
}
