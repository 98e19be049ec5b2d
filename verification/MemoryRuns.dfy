/**
  Whole runs of the memory system (src/vmm.c, src/elf.c, src/switch.s): the translation
  cache agrees with the page tables, and tables are shared only as cloned (sections 4.3
  and 4.10 of the Intel SDM, Volume 3A).
 */
module MemoryRuns {
  import opened Words
  import opened Frames
  import opened Paging
  import opened AddressSpaces

  // ---------- demand paging ----------

  // The faults the handler resolves instead of stopping: a page that is not present,
  // above the first page, and not a supervisor access above 3 GB.
  predicate Resolvable(address: word, err: word) {
    And(err, 1) == 0 && address >= 0x1000 && !(And(err, 4) == 0 && address >= 0xC000_0000)
  }

  // Which faults these are, by page and by the error code's bits: a page that is not present
  // (bit 0 clear), from page 1 on, in user mode (bit 2) or below page 0xC0000.
  lemma ResolvableIff(address: word, err: word)
    ensures Resolvable(address, err) <==>
            !Bit(err, 0) && 1 <= address / 4096 && (address / 4096 < 0xC_0000 || Bit(err, 2))
  {
    hide And, Bit;
    assert Pow2(0) == 1 && Pow2(2) == 4;
    TestBit(err, 0);
    TestBit(err, 2);
  }

  // None stands for the halt when memory is out.
  ghost function DemandPage(s: Mem, d: nat, address: word): Option<Mem> {
    if s.free == {} then None
    else
      var f := Lowest(s.free);
      MapPage(s.(free := s.free - {f}), d, address / 4096, DirectoryEntry(f))
  }

  // It succeeds exactly with a frame for the page and one more for a missing table.
  lemma DemandPageIff(s: Mem, d: nat, address: word)
    ensures DemandPage(s, d, address).Some? <==>
            |s.free| >= if HasTable(s.words, d, address / 4096 / 1024) then 1 else 2
  {
    hide MapPage, HasTable;
    if s.free != {} {
      var f := Lowest(s.free);
      MapTakes(s.(free := s.free - {f}), d, address / 4096, DirectoryEntry(f));
      assert |s.free - {f}| == |s.free| - 1;
      assert s.free - {f} == {} <==> |s.free - {f}| == 0;
    }
  }

  // After a resolved fault the page is present, writable and user-accessible at both
  // levels and shows a frame that was free; one frame was used, or two with a new table.
  lemma FaultResolves(s: Mem, dirs: set<nat>, d: nat, address: word)
    requires Owned(s, dirs) && d in dirs && DemandPage(s, d, address).Some?
    ensures
      var s', p, f := DemandPage(s, d, address).value, address / 4096, Lowest(s.free);
      && Owned(s', dirs)
      && Walk(s'.words, d, p) == Some(Translation(f, 7))
      && Word(s'.words, d, p / 1024) % 8 == 7
      && f !in s'.free && s'.free <= s.free
      && |s.free| - |s'.free| == if HasTable(s.words, d, p / 1024) then 1 else 2
  {
    var f, p := Lowest(s.free), address / 4096;
    var s1 := s.(free := s.free - {f});
    TakeKeepsOwned(s, dirs, f);
    MapKeepsOwned(s1, dirs, d, p, DirectoryEntry(f));
    MapWalk(s1, dirs, d, p, DirectoryEntry(f), d, p);
    MapTakes(s1, d, p, DirectoryEntry(f));
    assert InRam(s.words, f);
    DecodePacked(f, 7);
    hide Word, MapPage;
    assert HasTable(DemandPage(s, d, address).value.words, d, p / 1024);
  }

  // ---------- the machine and its steps ----------

  // `directory` is `current_page_directory`; `tlb` caches translations of the space in CR3.
  datatype Cpu = Cpu(mem: Mem, dirs: set<nat>, cr3: nat, directory: nat, tlb: map<nat, Translation>)

  datatype Step =
    | Fill(page: nat)                                 // the processor caches a translation
    | Access(page: nat, dirty: bool)                  // the processor marks entries it used
    | Map(page: nat, entry: word)                     // vmm_map_page
    | Unmap(page: nat)                                // vmm_unmap_page
    | Fault(address: word, err: word)                 // page_fault_handler
    | LoadCr3(dir: nat)                               // switch_task and the loader's window
    | Clone                                           // the loader's new directory
    | Write(words: Memory, changed: set<nat>)         // data outside directories and tables
    | Take                                            // pmm_alloc_block
    | Give(frame: nat)                                // pmm_free_block
    | Drop(dir: nat)                                  // pmm_free_block of a failed load's directory

  ghost predicate Enabled(c: Cpu, st: Step) {
    match st
    case Fill(p) => p < PAGES && Walk(c.mem.words, c.cr3, p).Some?
    case Access(p, _) => p < PAGES && Walk(c.mem.words, c.cr3, p).Some?
    case Map(p, w) => p < PAGES && MapPage(c.mem, c.directory, p, w).Some?
    case Unmap(p) => p < PAGES
    case Fault(a, err) =>
      && Resolvable(a, err) && Walk(c.mem.words, c.cr3, a / 4096).None?
      && DemandPage(c.mem, c.directory, a).Some?
    case LoadCr3(d) => d in c.dirs
    case Clone => c.mem.free != {}
    case Write(m', changed) =>
      && SameOutside(c.mem.words, m', changed)
      && forall f :: f in changed ==> Untabled(c.mem.words, c.dirs, f)
    case Take => c.mem.free != {}
    case Give(f) => InRam(c.mem.words, f) && Untabled(c.mem.words, c.dirs, f)
    case Drop(d) => d in c.dirs && d != c.cr3
  }

  ghost function Next(c: Cpu, st: Step): Cpu
    requires Enabled(c, st)
  {
    match st
    case Fill(p) => c.(tlb := c.tlb[p := Walk(c.mem.words, c.cr3, p).value])
    case Access(p, dirty) => c.(mem := c.mem.(words := Touch(c.mem.words, c.cr3, p, dirty)))
    case Map(p, w) => c.(mem := MapPage(c.mem, c.directory, p, w).value, tlb := c.tlb - {p})
    case Unmap(p) =>
      c.(mem := UnmapPage(c.mem, c.directory, p),
         tlb := if HasTable(c.mem.words, c.directory, p / 1024) then c.tlb - {p} else c.tlb)
    case Fault(a, err) => c.(mem := DemandPage(c.mem, c.directory, a).value, tlb := c.tlb - {a / 4096})
    case LoadCr3(d) => c.(cr3 := d, directory := d, tlb := map[])
    case Clone => c.(mem := CloneDirectory(c.mem, c.directory), dirs := c.dirs + {Lowest(c.mem.free)})
    case Write(m', _) => c.(mem := c.mem.(words := m'))
    case Take => c.(mem := c.mem.(free := c.mem.free - {Lowest(c.mem.free)}))
    case Give(f) => c.(mem := c.mem.(free := c.mem.free + {f}))
    case Drop(d) => c.(mem := c.mem.(free := c.mem.free + {d}), dirs := c.dirs - {d})
  }

  // Every cached translation is the one a walk would find.
  ghost predicate TlbAgrees(c: Cpu) {
    forall p :: p in c.tlb ==> p < PAGES && Walk(c.mem.words, c.cr3, p) == Some(c.tlb[p])
  }

  ghost predicate Sound(c: Cpu) {
    Owned(c.mem, c.dirs) && c.cr3 in c.dirs && c.directory == c.cr3
  }

  // ---------- what one step does to the translations ----------

  // The page whose entry the step rewrites, if any, and what it then shows.
  function EditedPage(st: Step): Option<nat> {
    match st
    case Map(p, _) => Some(p)
    case Unmap(p) => Some(p)
    case Fault(a, _) => Some(a / 4096)
    case _ => None
  }

  ghost function NewTranslation(c: Cpu, st: Step): Option<Translation>
    requires Enabled(c, st)
  {
    match st
    case Map(_, w) => Decode(w)
    case Fault(_, _) => Some(Translation(Lowest(c.mem.free), 7))
    case _ => None
  }

  lemma StepKeepsSound(c: Cpu, st: Step)
    requires Sound(c) && Enabled(c, st)
    ensures Sound(Next(c, st))
  {
    var d := c.directory;
    match st
    case Fill(p) =>
    case Access(p, dirty) => TouchKeeps(c.mem, c.dirs, d, p, dirty);
    case Map(p, w) =>
      MapKeepsOwned(c.mem, c.dirs, d, p, w);
    case Unmap(p) =>
      UnmapKeepsOwned(c.mem, c.dirs, d, p);
    case Fault(a, err) => FaultResolves(c.mem, c.dirs, d, a);
    case LoadCr3(e) =>
    case Clone => CloneKeepsOwned(c.mem, c.dirs, d);
    case Write(m', changed) => DataWriteKeepsOwned(c.mem, m', c.dirs, changed);
    case Take => TakeKeepsOwned(c.mem, c.dirs, Lowest(c.mem.free));
    case Give(f) => GiveKeepsOwned(c.mem, c.dirs, {f});
    case Drop(e) => DropKeepsOwned(c.mem, c.dirs, e);
  }

  lemma FaultWalk(s: Mem, dirs: set<nat>, d: nat, a: word, e: nat, q: nat)
    requires Owned(s, dirs) && d in dirs && DemandPage(s, d, a).Some? && e in dirs && q < PAGES
    ensures Walk(DemandPage(s, d, a).value.words, e, q)
         == if q == a / 4096 && (e == d || Shares(s.words, d, e, q / 1024))
            then Some(Translation(Lowest(s.free), 7)) else Walk(s.words, e, q)
  {
    hide Word, MapPage, Walk, Shares;
    var f := Lowest(s.free);
    TakeKeepsOwned(s, dirs, f);
    MapWalk(s.(free := s.free - {f}), dirs, d, a / 4096, DirectoryEntry(f), e, q);
    FreshDecodes(s, dirs);
  }

  // The entry made for a fresh frame decodes to that frame, present, writable and user.
  lemma FreshDecodes(s: Mem, dirs: set<nat>)
    requires Owned(s, dirs) && s.free != {}
    ensures Decode(DirectoryEntry(Lowest(s.free))) == Some(Translation(Lowest(s.free), 7))
  {
    var f := Lowest(s.free);
    assert InRam(s.words, f);
    DecodePacked(f, 7);
  }

  // A step changes the translation of at most one page of the active directory, and of
  // another directory only through a table the two share.
  lemma StepWalk(c: Cpu, st: Step, e: nat, q: nat)
    requires Sound(c) && Enabled(c, st) && e in c.dirs && q < PAGES
    ensures Walk(Next(c, st).mem.words, e, q)
         == if EditedPage(st) == Some(q) && (e == c.directory || Shares(c.mem.words, c.directory, e, q / 1024))
            then NewTranslation(c, st) else Walk(c.mem.words, e, q)
  {
    hide Owned, MapPage, UnmapPage, DemandPage, CloneDirectory, Touch, Shares, Decode, Untabled, SameOutside;
    var s, d := c.mem, c.directory;
    match st
    case Fill(p) =>
    case Access(p, dirty) => TouchKeeps(s, c.dirs, d, p, dirty);
    case Map(p, w) => MapWalk(s, c.dirs, d, p, w, e, q);
    case Unmap(p) => UnmapWalk(s, c.dirs, d, p, e, q);
    case Fault(a, err) => FaultWalk(s, c.dirs, d, a, e, q);
    case LoadCr3(x) =>
    case Clone => CloneKeepsWalk(s, c.dirs, d, e, q);
    case Write(m', changed) => DataWriteKeepsWalk(s.words, m', c.dirs, changed, e, q);
    case Take =>
    case Give(f) =>
    case Drop(x) =>
  }

  lemma CloneKeepsWalk(s: Mem, dirs: set<nat>, d: nat, e: nat, q: nat)
    requires Owned(s, dirs) && d in dirs && s.free != {} && e in dirs && q < PAGES
    ensures Walk(CloneDirectory(s, d).words, e, q) == Walk(s.words, e, q)
  {
    var c := Lowest(s.free);
    CloneMeaning(s, dirs, d);
    FreeIsUntabled(s, dirs, c);
    DataWriteKeepsWalk(s.words, CloneDirectory(s, d).words, dirs, {c}, e, q);
  }

  // ---------- the translation cache ----------

  lemma StepKeepsTlb(c: Cpu, st: Step)
    requires Sound(c) && TlbAgrees(c) && Enabled(c, st)
    ensures TlbAgrees(Next(c, st))
  {
    hide Owned, Walk, Shares, HasTable, Decode, MapPage, UnmapPage, DemandPage, CloneDirectory, Touch;
    var c' := Next(c, st);
    forall p | p in c'.tlb
      ensures p < PAGES && Walk(c'.mem.words, c'.cr3, p) == Some(c'.tlb[p])
    {
      StepWalk(c, st, c.cr3, p);
      NoTableNoWalk(c.mem.words, c.cr3, p);
    }
  }

  lemma NoTableNoWalk(m: Memory, d: nat, p: nat)
    ensures !HasTable(m, d, p / 1024) ==> Walk(m, d, p).None?
  {
  }

  ghost predicate Legal(c: Cpu, run: seq<Step>)
    decreases |run|
  {
    run != [] ==> Enabled(c, run[0]) && Legal(Next(c, run[0]), run[1..])
  }

  ghost function Run(c: Cpu, run: seq<Step>): Cpu
    requires Legal(c, run)
    decreases |run|
  {
    if run == [] then c else Run(Next(c, run[0]), run[1..])
  }

  // In every run each cached translation equals the current page walk.
  lemma {:induction false} TlbAgreesAlways(c: Cpu, run: seq<Step>)
    requires Sound(c) && TlbAgrees(c) && Legal(c, run)
    ensures Sound(Run(c, run)) && TlbAgrees(Run(c, run))
    decreases |run|
  {
    hide Sound, TlbAgrees, Next, Enabled;
    if run != [] {
      StepKeepsSound(c, run[0]);
      StepKeepsTlb(c, run[0]);
      TlbAgreesAlways(Next(c, run[0]), run[1..]);
    }
  }

  // Leaving out the `invlpg` of a mapping would be harmless exactly when the cache
  // holds no other translation of that page.
  lemma InvlpgNeededIff(c: Cpu, p: nat, w: word)
    requires Sound(c) && TlbAgrees(c) && Enabled(c, Map(p, w))
    ensures TlbAgrees(Next(c, Map(p, w)).(tlb := c.tlb)) <==> p !in c.tlb || Decode(w) == Some(c.tlb[p])
  {
    hide Owned, Walk, Shares, Decode, MapPage;
    var c' := Next(c, Map(p, w)).(tlb := c.tlb);
    StepWalk(c, Map(p, w), c.cr3, p);
    forall q | q in c.tlb && q != p
      ensures Walk(c'.mem.words, c'.cr3, q) == Some(c'.tlb[q])
    {
      StepWalk(c, Map(p, w), c.cr3, q);
    }
  }

  // ---------- sharing between directories ----------

  lemma InstallKeepsSharing(s: Mem, dirs: set<nat>, d: nat, k: nat, e: nat, f: nat, i: nat)
    requires Owned(s, dirs) && d in dirs && k < 1024 && Install(s, d, k).Some?
    requires e in dirs && f in dirs && e != f && i < 1024
    ensures Shares(Install(s, d, k).value.words, e, f, i) == Shares(s.words, e, f, i)
  {
    if !HasTable(s.words, d, k) {
      var t := Lowest(s.free);
      InstallFreshMeaning(s, dirs, d, k, t);
      DirectoryEntryBits(t);
      hide Word, InstallFresh, DirectoryEntry, OneSlotPerTable, FramesOwned;
      assert HasTable(s.words, e, i) ==> TableFrame(s, dirs, TableOf(s.words, e, i));
      assert HasTable(s.words, f, i) ==> TableFrame(s, dirs, TableOf(s.words, f, i));
    }
  }

  lemma SetEntryKeepsSharing(s: Mem, dirs: set<nat>, d: nat, p: nat, w: word, e: nat, f: nat, i: nat)
    requires Owned(s, dirs) && d in dirs && p < PAGES && HasTable(s.words, d, p / 1024)
    requires e in dirs && f in dirs && i < 1024
    ensures Shares(SetEntry(s, d, p, w).words, e, f, i) == Shares(s.words, e, f, i)
  {
    var t := TableOf(s.words, d, p / 1024);
    assert TableFrame(s, dirs, t);
    StoreMeaning(s.words, t, p % 1024, w);
    hide Word, Store;
  }

  lemma MapKeepsSharing(s: Mem, dirs: set<nat>, d: nat, p: nat, w: word, e: nat, f: nat, i: nat)
    requires Owned(s, dirs) && d in dirs && p < PAGES && MapPage(s, d, p, w).Some?
    requires e in dirs && f in dirs && e != f && i < 1024
    ensures Shares(MapPage(s, d, p, w).value.words, e, f, i) == Shares(s.words, e, f, i)
  {
    hide Owned, Install, SetEntry, Shares;
    InstallKeepsOwned(s, dirs, d, p / 1024);
    InstallKeepsSharing(s, dirs, d, p / 1024, e, f, i);
    SetEntryKeepsSharing(Install(s, d, p / 1024).value, dirs, d, p, w, e, f, i);
  }

  lemma WriteKeepsSharing(m: Memory, m': Memory, changed: set<nat>, e: nat, f: nat, i: nat)
    requires SameOutside(m, m', changed) && e !in changed && f !in changed && i < 1024
    ensures Shares(m', e, f, i) == Shares(m, e, f, i)
  {
    hide Word;
  }

  lemma StepKeepsSharing(c: Cpu, st: Step, e: nat, f: nat, i: nat)
    requires Sound(c) && Enabled(c, st) && e in c.dirs && f in c.dirs && e != f && i < 1024
    ensures Shares(Next(c, st).mem.words, e, f, i) == Shares(c.mem.words, e, f, i)
  {
    hide Owned, MapPage, SetEntry, CloneDirectory, Touch, Shares, Decode, SameOutside;
    var s, d := c.mem, c.directory;
    match st
    case Fill(p) =>
    case Access(p, dirty) => TouchKeeps(s, c.dirs, d, p, dirty);
    case Map(p, w) => MapKeepsSharing(s, c.dirs, d, p, w, e, f, i);
    case Unmap(p) =>
      if HasTable(s.words, d, p / 1024) {
        SetEntryKeepsSharing(s, c.dirs, d, p, 0, e, f, i);
      }
    case Fault(a, err) =>
      var g := Lowest(s.free);
      TakeKeepsOwned(s, c.dirs, g);
      MapKeepsSharing(s.(free := s.free - {g}), c.dirs, d, a / 4096, DirectoryEntry(g), e, f, i);
    case LoadCr3(x) =>
    case Clone =>
      CloneMeaning(s, c.dirs, d);
      WriteKeepsSharing(s.words, CloneDirectory(s, d).words, {Lowest(s.free)}, e, f, i);
    case Write(m', changed) => WriteKeepsSharing(s.words, m', changed, e, f, i);
    case Take =>
    case Give(g) =>
    case Drop(x) =>
  }

  // The run does not free directory `e`.
  predicate Retains(run: seq<Step>, e: nat) {
    forall k :: 0 <= k < |run| ==> run[k] != Drop(e)
  }

  lemma StepRetains(c: Cpu, st: Step, e: nat)
    requires Enabled(c, st) && e in c.dirs && st != Drop(e)
    ensures e in Next(c, st).dirs
  {
  }

  lemma {:induction false} SharingFixed(c: Cpu, run: seq<Step>, e: nat, f: nat, i: nat)
    requires Sound(c) && Legal(c, run) && e in c.dirs && f in c.dirs && e != f && i < 1024
    requires Retains(run, e) && Retains(run, f)
    ensures Sound(Run(c, run)) && e in Run(c, run).dirs && f in Run(c, run).dirs
    ensures Shares(Run(c, run).mem.words, e, f, i) == Shares(c.mem.words, e, f, i)
    decreases |run|
  {
    hide Sound, Next, Enabled, Shares;
    if run != [] {
      StepKeepsSound(c, run[0]);
      StepRetains(c, run[0], e);
      StepRetains(c, run[0], f);
      StepKeepsSharing(c, run[0], e, f, i);
      SharingFixed(Next(c, run[0]), run[1..], e, f, i);
    }
  }

  lemma SharesSymmetric(m: Memory, d: nat, e: nat, i: nat)
    ensures Shares(m, d, e, i) == Shares(m, e, d, i)
  {
  }

  // After a clone and any further run that frees neither directory, a page mapped in the
  // original or in the clone changes the other if and only if its directory slot was present when the clone was made.
  lemma CloneIsolation(c0: Cpu, run: seq<Step>, p: nat, w: word, q: nat)
    requires Sound(c0) && Enabled(c0, Clone) && Legal(Next(c0, Clone), run)
    requires p < PAGES && q < PAGES && Retains(run, c0.directory) && Retains(run, Lowest(c0.mem.free))
    requires
      var c := Run(Next(c0, Clone), run);
      c.directory in {c0.directory, Lowest(c0.mem.free)} && Enabled(c, Map(p, w))
    ensures
      var c := Run(Next(c0, Clone), run);
      var other := if c.directory == c0.directory then Lowest(c0.mem.free) else c0.directory;
      Walk(Next(c, Map(p, w)).mem.words, other, q)
      == if q == p && HasTable(c0.mem.words, c0.directory, p / 1024)
         then Decode(w) else Walk(c.mem.words, other, q)
  {
    hide Owned, Walk, Shares, HasTable, Decode, MapPage, CloneDirectory;
    var d, copy := c0.directory, Lowest(c0.mem.free);
    var c1 := Next(c0, Clone);
    assert copy !in c0.dirs by { CloneMeaning(c0.mem, c0.dirs, d); }
    StepKeepsSound(c0, Clone);
    CloneTranslates(c0.mem, c0.dirs, d, p);
    SharingFixed(c1, run, d, copy, p / 1024);
    var c := Run(c1, run);
    SharesSymmetric(c.mem.words, d, copy, p / 1024);
    StepWalk(c, Map(p, w), if c.directory == d then copy else d, q);
  }
}
