/**
  Two-level paging over physical memory (src/vmm.c): page directories and page tables
  are frames of memory, and a virtual page is translated by walking them
  (section 4.3 of the Intel SDM, Volume 3A).
 */
module Paging {
  import opened Words
  import opened Frames

  // Physical memory in 32-bit words; frame `f` is words 1024 f up to 1024 f + 1023.
  type Memory = seq<word>

  // Memory together with the frames the allocator still has.
  datatype Mem = Mem(words: Memory, free: set<nat>)

  predicate InRam(m: Memory, f: nat) {
    1024 * f + 1024 <= |m|
  }

  // ---------- words of a frame ----------

  // Word `i` of memory; there is nothing outside.
  function Fetch(m: Memory, i: int): word {
    if 0 <= i < |m| then m[i] else 0
  }

  function Put(m: Memory, i: int, w: word): (r: Memory)
    ensures |r| == |m|
  {
    if 0 <= i < |m| then m[i := w] else m
  }

  // Word `i` of frame `f`.
  function Word(m: Memory, f: nat, i: nat): word {
    Fetch(m, 1024 * f + i)
  }

  function Store(m: Memory, f: nat, i: nat, w: word): Memory {
    Put(m, 1024 * f + i, w)
  }

  function Zeroed(m: Memory, f: nat): Memory {
    seq(|m|, k requires 0 <= k < |m| => if k / 1024 == f then 0 else m[k])
  }

  function Copied(m: Memory, to: nat, from: nat): Memory {
    seq(|m|, k requires 0 <= k < |m| => if k / 1024 == to then Word(m, from, k % 1024) else m[k])
  }

  lemma StoreMeaning(m: Memory, f: nat, i: nat, w: word)
    requires InRam(m, f) && i < 1024
    ensures |Store(m, f, i, w)| == |m|
    ensures forall g: nat, j: nat :: j < 1024 ==>
              Word(Store(m, f, i, w), g, j) == if g == f && j == i then w else Word(m, g, j)
  {
  }

  lemma ZeroedMeaning(m: Memory, f: nat)
    ensures |Zeroed(m, f)| == |m|
    ensures forall g: nat, j: nat :: j < 1024 ==>
              Word(Zeroed(m, f), g, j) == if g == f then 0 else Word(m, g, j)
  {
    forall g: nat, j: nat | j < 1024
      ensures Word(Zeroed(m, f), g, j) == if g == f then 0 else Word(m, g, j)
    {
      assert (1024 * g + j) / 1024 == g;
    }
  }

  lemma CopiedMeaning(m: Memory, to: nat, from: nat)
    requires InRam(m, to)
    ensures |Copied(m, to, from)| == |m|
    ensures forall g: nat, j: nat :: j < 1024 ==>
              Word(Copied(m, to, from), g, j) == if g == to then Word(m, from, j) else Word(m, g, j)
  {
    forall g: nat, j: nat | j < 1024
      ensures Word(Copied(m, to, from), g, j) == if g == to then Word(m, from, j) else Word(m, g, j)
    {
      assert (1024 * g + j) / 1024 == g && (1024 * g + j) % 1024 == j;
    }
  }

  // ---------- the page walk ----------

  // The frame a page maps to and its P, R/W, U/S, PWT and PCD bits; the accessed and
  // dirty bits belong to the processor.
  datatype Translation = Translation(frame: nat, flags: nat)

  predicate HasTable(m: Memory, d: nat, i: nat) {
    Word(m, d, i) % 2 == 1
  }

  function TableOf(m: Memory, d: nat, i: nat): nat {
    Word(m, d, i) / 4096
  }

  function Decode(w: word): Option<Translation> {
    if w % 2 == 1 then Some(Translation(w / 4096, w % 32)) else None
  }

  const PAGES := 0x10_0000

  function Walk(m: Memory, d: nat, p: nat): Option<Translation> {
    if HasTable(m, d, p / 1024) then Decode(Word(m, TableOf(m, d, p / 1024), p % 1024)) else None
  }

  // ---------- who owns which frame ----------

  // Frame `t` can serve as a page table beside the directories `dirs`.
  ghost predicate TableFrame(s: Mem, dirs: set<nat>, t: nat) {
    InRam(s.words, t) && t !in s.free && t !in dirs
  }

  ghost predicate TablesOwned(s: Mem, dirs: set<nat>) {
    forall d, i: nat :: d in dirs && i < 1024 && HasTable(s.words, d, i) ==>
      TableFrame(s, dirs, TableOf(s.words, d, i)) && Word(s.words, d, i) % 8 == 7
  }

  // One table frame serves one directory slot only, in whichever directories.
  ghost predicate OneSlotPerTable(m: Memory, dirs: set<nat>) {
    forall d, i: nat, e, j: nat ::
      (d in dirs && e in dirs && i < 1024 && j < 1024 && HasTable(m, d, i) && HasTable(m, e, j)
       && TableOf(m, d, i) == TableOf(m, e, j)) ==> i == j
  }

  ghost predicate FramesOwned(s: Mem, dirs: set<nat>) {
    && |s.words| <= 1024 * PAGES
    && (forall f :: f in s.free ==> InRam(s.words, f))
    && (forall d :: d in dirs ==> InRam(s.words, d) && d !in s.free)
  }

  ghost predicate Owned(s: Mem, dirs: set<nat>) {
    FramesOwned(s, dirs) && TablesOwned(s, dirs) && OneSlotPerTable(s.words, dirs)
  }

  // ---------- editing the tables ----------

  // A directory entry for table `t`: present, writable and user-accessible.
  function DirectoryEntry(t: nat): word {
    if t < 0x10_0000 then 4096 * t + 7 else 7
  }

  lemma DirectoryEntryBits(t: nat)
    requires t < PAGES
    ensures DirectoryEntry(t) / 4096 == t && DirectoryEntry(t) % 8 == 7 && DirectoryEntry(t) % 2 == 1
  {
    FrameBits(t, 7);
    assert DirectoryEntry(t) == 8 * (512 * t) + 7;
    Parity(2048 * t + 3, 1);
  }

  lemma FrameBits(frame: nat, flags: nat)
    requires flags < 4096
    ensures (4096 * frame + flags) / 4096 == frame && (4096 * frame + flags) % 4096 == flags
  {
  }

  // Make sure slot `i` of directory `d` has a page table; None when memory is out.
  ghost function Install(s: Mem, d: nat, i: nat): Option<Mem> {
    if HasTable(s.words, d, i) then Some(s)
    else if s.free == {} then None
    else Some(InstallFresh(s, d, i, Lowest(s.free)))
  }

  ghost function InstallFresh(s: Mem, d: nat, i: nat, t: nat): Mem {
    Mem(Store(Zeroed(s.words, t), d, i, DirectoryEntry(t)), s.free - {t})
  }

  ghost function SetEntry(s: Mem, d: nat, p: nat, w: word): Mem {
    s.(words := Store(s.words, TableOf(s.words, d, p / 1024), p % 1024, w))
  }

  // `vmm_map_page`: None stands for the halt when no table can be allocated.
  ghost function MapPage(s: Mem, d: nat, p: nat, w: word): Option<Mem> {
    match Install(s, d, p / 1024)
    case None => None
    case Some(s') => Some(SetEntry(s', d, p, w))
  }

  // `vmm_unmap_page`
  ghost function UnmapPage(s: Mem, d: nat, p: nat): Mem {
    if HasTable(s.words, d, p / 1024) then SetEntry(s, d, p, 0) else s
  }

  // ---------- installing a table changes no translation ----------

  lemma InstallFreshMeaning(s: Mem, dirs: set<nat>, d: nat, i: nat, t: nat)
    requires FramesOwned(s, dirs) && d in dirs && i < 1024 && t in s.free
    ensures FramesOwned(InstallFresh(s, d, i, t), dirs) && TableFrame(InstallFresh(s, d, i, t), dirs, t)
    ensures |InstallFresh(s, d, i, t).words| == |s.words|
    ensures forall g: nat, j: nat :: j < 1024 ==>
              Word(InstallFresh(s, d, i, t).words, g, j)
              == if g == d && j == i then DirectoryEntry(t) else if g == t then 0 else Word(s.words, g, j)
  {
    ZeroedMeaning(s.words, t);
    StoreMeaning(Zeroed(s.words, t), d, i, DirectoryEntry(t));
    hide Word, Store, Zeroed;
  }

  lemma InstallKeepsTables(s: Mem, dirs: set<nat>, d: nat, i: nat, t: nat)
    requires FramesOwned(s, dirs) && TablesOwned(s, dirs) && d in dirs && i < 1024 && t in s.free
    ensures TablesOwned(InstallFresh(s, d, i, t), dirs)
  {
    InstallFreshMeaning(s, dirs, d, i, t);
    DirectoryEntryBits(t);
    hide Word, InstallFresh, DirectoryEntry;
    var s' := InstallFresh(s, d, i, t);
    forall e, j: nat | e in dirs && j < 1024 && HasTable(s'.words, e, j)
      ensures TableFrame(s', dirs, TableOf(s'.words, e, j)) && Word(s'.words, e, j) % 8 == 7
    {
      if !(e == d && j == i) {
        assert HasTable(s.words, e, j);
      }
    }
  }

  lemma InstallKeepsSlots(s: Mem, dirs: set<nat>, d: nat, i: nat, t: nat)
    requires Owned(s, dirs) && d in dirs && i < 1024 && t in s.free
    ensures OneSlotPerTable(InstallFresh(s, d, i, t).words, dirs)
  {
    InstallFreshMeaning(s, dirs, d, i, t);
    DirectoryEntryBits(t);
    hide Word, InstallFresh, DirectoryEntry;
    var m' := InstallFresh(s, d, i, t).words;
    forall e, j: nat | e in dirs && j < 1024 && HasTable(m', e, j)
      ensures (e == d && j == i && TableOf(m', e, j) == t)
           || (HasTable(s.words, e, j) && TableOf(m', e, j) == TableOf(s.words, e, j) != t)
    {
      if !(e == d && j == i) {
        assert HasTable(s.words, e, j);
      }
    }
  }

  lemma InstallKeepsOwned(s: Mem, dirs: set<nat>, d: nat, i: nat)
    requires Owned(s, dirs) && d in dirs && i < 1024 && Install(s, d, i).Some?
    ensures Owned(Install(s, d, i).value, dirs)
    ensures HasTable(Install(s, d, i).value.words, d, i)
  {
    if !HasTable(s.words, d, i) {
      var t := Lowest(s.free);
      InstallFreshMeaning(s, dirs, d, i, t);
      InstallKeepsTables(s, dirs, d, i, t);
      InstallKeepsSlots(s, dirs, d, i, t);
      DirectoryEntryBits(t);
      hide Word, InstallFresh, DirectoryEntry, FramesOwned, TablesOwned, OneSlotPerTable;
    }
  }

  lemma InstallKeepsWalks(s: Mem, dirs: set<nat>, d: nat, i: nat, e: nat, p: nat)
    requires Owned(s, dirs) && d in dirs && i < 1024 && Install(s, d, i).Some?
    requires e in dirs && p < PAGES
    ensures Walk(Install(s, d, i).value.words, e, p) == Walk(s.words, e, p)
  {
    if !HasTable(s.words, d, i) {
      InstallFreshMeaning(s, dirs, d, i, Lowest(s.free));
      DirectoryEntryBits(Lowest(s.free));
      hide Word, InstallFresh, DirectoryEntry, OneSlotPerTable, FramesOwned;
      if HasTable(s.words, e, p / 1024) {
        assert TableFrame(s, dirs, TableOf(s.words, e, p / 1024));
      }
    }
  }

  // ---------- one entry of one table ----------

  lemma SetEntryKeepsOwned(s: Mem, dirs: set<nat>, d: nat, p: nat, w: word)
    requires Owned(s, dirs) && d in dirs && p < PAGES && HasTable(s.words, d, p / 1024)
    ensures Owned(SetEntry(s, d, p, w), dirs)
  {
    var t := TableOf(s.words, d, p / 1024);
    var s' := SetEntry(s, d, p, w);
    StoreMeaning(s.words, t, p % 1024, w);
    hide Word, Store;
    assert forall e, j: nat :: e in dirs && j < 1024 ==> Word(s'.words, e, j) == Word(s.words, e, j);
    assert TablesOwned(s', dirs);
    assert OneSlotPerTable(s'.words, dirs);
  }

  // Directories `d` and `e` use the same page table in slot `i`.
  predicate Shares(m: Memory, d: nat, e: nat, i: nat) {
    HasTable(m, d, i) && HasTable(m, e, i) && TableOf(m, d, i) == TableOf(m, e, i)
  }

  lemma SetEntryWalk(s: Mem, dirs: set<nat>, d: nat, p: nat, w: word, e: nat, q: nat)
    requires Owned(s, dirs) && d in dirs && p < PAGES && HasTable(s.words, d, p / 1024)
    requires e in dirs && q < PAGES
    ensures Walk(SetEntry(s, d, p, w).words, e, q)
         == if q == p && Shares(s.words, d, e, p / 1024) then Decode(w) else Walk(s.words, e, q)
  {
    var t := TableOf(s.words, d, p / 1024);
    StoreMeaning(s.words, t, p % 1024, w);
    hide Word, Store, Decode;
    if HasTable(s.words, e, q / 1024) {
      assert TableFrame(s, dirs, TableOf(s.words, e, q / 1024));
    }
  }

  // ---------- mapping and unmapping a page ----------

  lemma MapKeepsOwned(s: Mem, dirs: set<nat>, d: nat, p: nat, w: word)
    requires Owned(s, dirs) && d in dirs && p < PAGES && MapPage(s, d, p, w).Some?
    ensures Owned(MapPage(s, d, p, w).value, dirs)
  {
    hide Owned, Install, SetEntry;
    InstallKeepsOwned(s, dirs, d, p / 1024);
    SetEntryKeepsOwned(Install(s, d, p / 1024).value, dirs, d, p, w);
  }

  // Who shares a table is not changed by installing one elsewhere.
  lemma InstallShares(s: Mem, dirs: set<nat>, d: nat, i: nat, e: nat)
    requires Owned(s, dirs) && d in dirs && i < 1024 && Install(s, d, i).Some? && e in dirs
    ensures Shares(Install(s, d, i).value.words, d, e, i) <==> e == d || Shares(s.words, d, e, i)
  {
    InstallKeepsOwned(s, dirs, d, i);
    if !HasTable(s.words, d, i) {
      var t := Lowest(s.free);
      InstallFreshMeaning(s, dirs, d, i, t);
      DirectoryEntryBits(t);
      hide Word, InstallFresh, DirectoryEntry, OneSlotPerTable, FramesOwned;
      if HasTable(s.words, e, i) {
        assert TableFrame(s, dirs, TableOf(s.words, e, i));
      }
    }
  }

  // Mapping page `p` in `d` gives it exactly the new entry, there and in every directory
  // that shares the table; every other translation of every directory is kept.
  lemma MapWalk(s: Mem, dirs: set<nat>, d: nat, p: nat, w: word, e: nat, q: nat)
    requires Owned(s, dirs) && d in dirs && p < PAGES && MapPage(s, d, p, w).Some?
    requires e in dirs && q < PAGES
    ensures Walk(MapPage(s, d, p, w).value.words, e, q)
         == if q == p && (e == d || Shares(s.words, d, e, p / 1024)) then Decode(w) else Walk(s.words, e, q)
  {
    hide Owned, Install, SetEntry, Walk, Decode, Shares;
    var s' := Install(s, d, p / 1024).value;
    InstallKeepsOwned(s, dirs, d, p / 1024);
    InstallKeepsWalks(s, dirs, d, p / 1024, e, q);
    InstallShares(s, dirs, d, p / 1024, e);
    SetEntryWalk(s', dirs, d, p, w, e, q);
  }

  lemma UnmapKeepsOwned(s: Mem, dirs: set<nat>, d: nat, p: nat)
    requires Owned(s, dirs) && d in dirs && p < PAGES
    ensures Owned(UnmapPage(s, d, p), dirs)
  {
    if HasTable(s.words, d, p / 1024) {
      SetEntryKeepsOwned(s, dirs, d, p, 0);
    }
  }

  lemma UnmapWalk(s: Mem, dirs: set<nat>, d: nat, p: nat, e: nat, q: nat)
    requires Owned(s, dirs) && d in dirs && p < PAGES && e in dirs && q < PAGES
    ensures Walk(UnmapPage(s, d, p).words, e, q)
         == if q == p && (e == d || Shares(s.words, d, e, p / 1024)) then None else Walk(s.words, e, q)
  {
    if HasTable(s.words, d, p / 1024) {
      hide Owned, SetEntry;
      SetEntryWalk(s, dirs, d, p, 0, e, q);
    }
  }

  // ---------- refinement of a map from pages to frames ----------

  // The address space of a directory: its present pages.
  ghost function Space(m: Memory, d: nat): map<nat, Translation> {
    map p: nat | p < PAGES && Walk(m, d, p).Some? :: Walk(m, d, p).value
  }

  // An entry packed from a frame and its flags decodes to just those, or to nothing
  // without the present flag; flags above the low five are not part of a translation.
  lemma DecodePacked(frame: nat, flags: nat)
    requires frame < PAGES && flags < 4096
    ensures Decode(4096 * frame + flags) == if flags % 2 == 1 then Some(Translation(frame, flags % 32)) else None
  {
    FrameBits(frame, flags);
    LowFiveBits(128 * frame + flags / 32, flags % 32);
    assert 4096 * frame + flags == 32 * (128 * frame + flags / 32) + flags % 32;
    Parity(2048 * frame + flags / 2, flags % 2);
    assert 4096 * frame + flags == 2 * (2048 * frame + flags / 2) + flags % 2;
  }

  lemma LowFiveBits(k: nat, r: nat)
    requires r < 32
    ensures (32 * k + r) % 32 == r
  {
  }

  lemma Parity(k: nat, r: nat)
    requires r < 2
    ensures (2 * k + r) % 2 == r
  {
  }

  lemma MapRefinesEntry(s: Mem, dirs: set<nat>, d: nat, p: nat, w: word)
    requires Owned(s, dirs) && d in dirs && p < PAGES && MapPage(s, d, p, w).Some?
    ensures Space(MapPage(s, d, p, w).value.words, d)
         == if Decode(w).Some? then Space(s.words, d)[p := Decode(w).value] else Space(s.words, d) - {p}
  {
    hide Owned, MapPage, Walk, Decode, Shares;
    var m' := MapPage(s, d, p, w).value.words;
    forall q: nat | q < PAGES
      ensures Walk(m', d, q) == if q == p then Decode(w) else Walk(s.words, d, q)
    {
      MapWalk(s, dirs, d, p, w, d, q);
    }
  }

  // Mapping updates the abstract map at one key; without the present flag it removes the key.
  lemma MapRefines(s: Mem, dirs: set<nat>, d: nat, p: nat, frame: nat, flags: nat)
    requires Owned(s, dirs) && d in dirs && p < PAGES
    requires frame < PAGES && flags < 4096
    requires MapPage(s, d, p, 4096 * frame + flags).Some?
    ensures Space(MapPage(s, d, p, 4096 * frame + flags).value.words, d)
         == if flags % 2 == 1 then Space(s.words, d)[p := Translation(frame, flags % 32)] else Space(s.words, d) - {p}
  {
    hide Owned, MapPage, Decode, Space;
    DecodePacked(frame, flags);
    MapRefinesEntry(s, dirs, d, p, 4096 * frame + flags);
  }

  lemma UnmapRefines(s: Mem, dirs: set<nat>, d: nat, p: nat)
    requires Owned(s, dirs) && d in dirs && p < PAGES
    ensures Space(UnmapPage(s, d, p).words, d) == Space(s.words, d) - {p}
  {
    var m' := UnmapPage(s, d, p).words;
    hide Owned, UnmapPage, Walk, Shares;
    forall q: nat | q < PAGES
      ensures Walk(m', d, q) == if q == p then None else Walk(s.words, d, q)
    {
      UnmapWalk(s, dirs, d, p, d, q);
    }
  }

  // A mapping takes one frame exactly when the directory slot had no table.
  lemma MapTakes(s: Mem, d: nat, p: nat, w: word)
    ensures MapPage(s, d, p, w).None? <==> !HasTable(s.words, d, p / 1024) && s.free == {}
    ensures MapPage(s, d, p, w).Some? ==>
              MapPage(s, d, p, w).value.free
              == if HasTable(s.words, d, p / 1024) then s.free else s.free - {Lowest(s.free)}
  {
  }

  // ---------- writes outside the tables ----------

  ghost predicate SameOutside(m: Memory, m': Memory, changed: set<nat>) {
    && |m'| == |m|
    && forall g: nat, j: nat :: j < 1024 && g !in changed ==> Word(m', g, j) == Word(m, g, j)
  }

  // Frame `f` is neither a directory nor a page table.
  ghost predicate Untabled(m: Memory, dirs: set<nat>, f: nat) {
    && f !in dirs
    && forall d, i: nat :: d in dirs && i < 1024 && HasTable(m, d, i) ==> TableOf(m, d, i) != f
  }

  lemma FreeIsUntabled(s: Mem, dirs: set<nat>, f: nat)
    requires Owned(s, dirs) && f in s.free
    ensures Untabled(s.words, dirs, f)
  {
    hide Word;
    forall d, i: nat | d in dirs && i < 1024 && HasTable(s.words, d, i)
      ensures TableOf(s.words, d, i) != f
    {
      assert TableFrame(s, dirs, TableOf(s.words, d, i));
    }
  }

  lemma DataWriteKeepsOwned(s: Mem, m': Memory, dirs: set<nat>, changed: set<nat>)
    requires Owned(s, dirs) && SameOutside(s.words, m', changed)
    requires forall f :: f in changed ==> Untabled(s.words, dirs, f)
    ensures Owned(s.(words := m'), dirs)
  {
    hide Word;
    assert forall e, j: nat :: e in dirs && j < 1024 ==> Word(m', e, j) == Word(s.words, e, j);
    assert TablesOwned(s.(words := m'), dirs);
    assert OneSlotPerTable(m', dirs);
  }

  lemma DataWriteKeepsWalk(m: Memory, m': Memory, dirs: set<nat>, changed: set<nat>, d: nat, p: nat)
    requires SameOutside(m, m', changed) && d in dirs && p < PAGES
    requires forall f :: f in changed ==> Untabled(m, dirs, f)
    ensures Walk(m', d, p) == Walk(m, d, p)
  {
    hide Word, Decode;
    assert d !in changed;
    if HasTable(m, d, p / 1024) {
      assert TableOf(m, d, p / 1024) !in changed;
    }
  }

  // ---------- taking and returning frames ----------

  lemma TakeKeepsOwned(s: Mem, dirs: set<nat>, f: nat)
    requires Owned(s, dirs)
    ensures Owned(s.(free := s.free - {f}), dirs)
  {
    hide Word;
    var s' := s.(free := s.free - {f});
    forall d, i: nat | d in dirs && i < 1024 && HasTable(s'.words, d, i)
      ensures TableFrame(s', dirs, TableOf(s'.words, d, i))
    {
      assert TableFrame(s, dirs, TableOf(s.words, d, i));
    }
  }

  lemma GiveKeepsOwned(s: Mem, dirs: set<nat>, given: set<nat>)
    requires Owned(s, dirs) && forall f :: f in given ==> InRam(s.words, f) && Untabled(s.words, dirs, f)
    ensures Owned(s.(free := s.free + given), dirs)
  {
    hide Word;
    var s' := s.(free := s.free + given);
    forall d, i: nat | d in dirs && i < 1024 && HasTable(s'.words, d, i)
      ensures TableFrame(s', dirs, TableOf(s'.words, d, i))
    {
      assert TableFrame(s, dirs, TableOf(s.words, d, i));
    }
  }

  // A directory given up and freed; the tables only it used stay taken.
  lemma DropKeepsOwned(s: Mem, dirs: set<nat>, d: nat)
    requires Owned(s, dirs) && d in dirs
    ensures Owned(s.(free := s.free + {d}), dirs - {d})
  {
    hide Word;
    var s' := s.(free := s.free + {d});
    forall e, i: nat | e in dirs - {d} && i < 1024 && HasTable(s'.words, e, i)
      ensures TableFrame(s', dirs - {d}, TableOf(s'.words, e, i)) && Word(s'.words, e, i) % 8 == 7
    {
      assert TableFrame(s, dirs, TableOf(s.words, e, i));
    }
  }
}
