/**
  Frames in use over whole runs of the memory system: a frame that holds no directory and no
  table stays so and keeps its contents, unless a step gives it away or writes to it. So the
  state a load needs lasts from boot until the load happens (src/kernel.c, src/elf.c).
 */
module MemoryUsers {
  import opened Words
  import opened Frames
  import opened Paging
  import opened AddressSpaces
  import opened MemoryRuns
  import opened IdentityMap
  import opened ElfPages
  import opened ElfImage
  import opened ElfTrace
  import opened ElfTheorems
  import opened BitmapRam

  // ---------- one frame, one step ----------

  ghost predicate InUse(s: Mem, dirs: set<nat>, g: nat) {
    g !in s.free && Untabled(s.words, dirs, g)
  }

  // The step does not write to `g`.
  predicate Leaves(st: Step, g: nat) {
    st.Write? ==> g !in st.changed
  }

  lemma TouchSpares(s: Mem, dirs: set<nat>, d: nat, p: nat, dirty: bool, g: nat)
    requires Owned(s, dirs) && d in dirs && p < PAGES && HasTable(s.words, d, p / 1024) && InUse(s, dirs, g)
    ensures Untabled(Touch(s.words, d, p, dirty), dirs, g) && FrameSame(s.words, Touch(s.words, d, p, dirty), g)
  {
    assert TableFrame(s, dirs, TableOf(s.words, d, p / 1024));
    TouchMeaning(s, dirs, d, p, dirty);
    hide Word, Store, Touch, Marked, Decode;
    var m' := Touch(s.words, d, p, dirty);
    forall e, k: nat | e in dirs && k < 1024 && HasTable(m', e, k)
      ensures TableOf(m', e, k) != g
    {
      assert SameBits(Word(s.words, e, k), Word(m', e, k));
    }
    assert FrameSame(s.words, m', g) by { TouchOthers(s.words, d, p, dirty, g); }
  }

  lemma TouchOthers(m: Memory, d: nat, p: nat, dirty: bool, g: nat)
    requires InRam(m, d) && InRam(m, TableOf(m, d, p / 1024)) && p < PAGES && g != d && g != TableOf(m, d, p / 1024)
    ensures FrameSame(m, Touch(m, d, p, dirty), g)
  {
    var i, t, j := p / 1024, TableOf(m, d, p / 1024), p % 1024;
    var m1 := Store(m, d, i, Marked(Word(m, d, i), false));
    StoreMeaning(m, d, i, Marked(Word(m, d, i), false));
    StoreMeaning(m1, t, j, Marked(Word(m, t, j), dirty));
    hide Word, Store, Marked;
  }

  lemma UnmapSpares(s: Mem, dirs: set<nat>, d: nat, p: nat, g: nat)
    requires Owned(s, dirs) && d in dirs && p < PAGES && InUse(s, dirs, g)
    ensures InUse(UnmapPage(s, d, p), dirs, g) && FrameSame(s.words, UnmapPage(s, d, p).words, g)
  {
    hide Word, SetEntry, Untabled, Owned;
    if HasTable(s.words, d, p / 1024) {
      SetEntryKeepsUntabled(s, dirs, d, p, 0, g);
      SetEntryFree(s, d, p);
    }
  }

  lemma SetEntryFree(s: Mem, d: nat, p: nat)
    ensures SetEntry(s, d, p, 0).free == s.free
  {
  }

  lemma MapSpares(s: Mem, dirs: set<nat>, d: nat, p: nat, w: word, g: nat)
    requires Owned(s, dirs) && d in dirs && p < PAGES && MapPage(s, d, p, w).Some? && InUse(s, dirs, g)
    ensures InUse(MapPage(s, d, p, w).value, dirs, g) && FrameSame(s.words, MapPage(s, d, p, w).value.words, g)
  {
    MapTakes(s, d, p, w);
    hide Word, MapPage, Untabled, Owned;
    MapKeepsUntabled(s, dirs, d, p, w, g);
  }

  lemma FaultSpares(s: Mem, dirs: set<nat>, d: nat, a: word, g: nat)
    requires Owned(s, dirs) && d in dirs && DemandPage(s, d, a).Some? && InUse(s, dirs, g)
    ensures InUse(DemandPage(s, d, a).value, dirs, g) && FrameSame(s.words, DemandPage(s, d, a).value.words, g)
  {
    hide Word, MapPage, Untabled, Owned, DirectoryEntry;
    var f := Lowest(s.free);
    TakeKeepsOwned(s, dirs, f);
    MapSpares(s.(free := s.free - {f}), dirs, d, a / 4096, DirectoryEntry(f), g);
  }

  lemma CloneSpares(s: Mem, dirs: set<nat>, d: nat, g: nat)
    requires Owned(s, dirs) && d in dirs && s.free != {} && InUse(s, dirs, g)
    ensures InUse(CloneDirectory(s, d), dirs + {Lowest(s.free)}, g) && FrameSame(s.words, CloneDirectory(s, d).words, g)
  {
    hide Word, CloneDirectory, Untabled, Owned;
    CloneKeepsUntabled(s, dirs, d, g);
    CloneMeaning(s, dirs, d);
    CloneFree(s, d);
  }

  lemma DropSpares(s: Mem, dirs: set<nat>, d: nat, g: nat)
    requires InUse(s, dirs, g) && d in dirs
    ensures InUse(s.(free := s.free + {d}), dirs - {d}, g)
  {
    hide HasTable, TableOf;
  }

  // A frame in use stays so through every step that does not give it away, and keeps its
  // contents through every step that does not write to it.
  lemma StepSpares(c: Cpu, st: Step, g: nat)
    requires Sound(c) && Enabled(c, st) && InUse(c.mem, c.dirs, g) && st != Give(g)
    ensures InUse(Next(c, st).mem, Next(c, st).dirs, g)
    ensures Leaves(st, g) ==> FrameSame(c.mem.words, Next(c, st).mem.words, g)
  {
    hide Word, Owned, Untabled, MapPage, UnmapPage, DemandPage, CloneDirectory, Touch, FrameSame, HasTable, Shares;
    var s, d := c.mem, c.directory;
    match st
    case Fill(p) => FrameItself(s.words, g);
    case Access(p, dirty) =>
      WalkHasTable(s.words, d, p);
      TouchSpares(s, c.dirs, d, p, dirty, g);
    case Map(p, w) => MapSpares(s, c.dirs, d, p, w, g);
    case Unmap(p) => UnmapSpares(s, c.dirs, d, p, g);
    case Fault(a, err) => FaultSpares(s, c.dirs, d, a, g);
    case LoadCr3(e) => FrameItself(s.words, g);
    case Clone => CloneSpares(s, c.dirs, d, g);
    case Write(m', changed) =>
      DataWriteKeepsTables(s.words, m', c.dirs, changed);
      WriteOutside(s.words, m', changed, g);
    case Take => FrameItself(s.words, g);
    case Give(f) => FrameItself(s.words, g);
    case Drop(e) =>
      DropSpares(s, c.dirs, e, g);
      FrameItself(s.words, g);
  }

  lemma {:induction false} RunSpares(c: Cpu, run: seq<Step>, g: nat)
    requires Sound(c) && Legal(c, run) && InUse(c.mem, c.dirs, g)
    requires forall i :: 0 <= i < |run| ==> run[i] != Give(g)
    ensures Sound(Run(c, run)) && InUse(Run(c, run).mem, Run(c, run).dirs, g)
    decreases |run|
  {
    hide Sound, InUse, Next, Enabled;
    if run != [] {
      StepKeepsSound(c, run[0]);
      StepSpares(c, run[0], g);
      RunSpares(Next(c, run[0]), run[1..], g);
    }
  }

  lemma FrameItself(m: Memory, g: nat)
    ensures FrameSame(m, m, g)
  {
  }

  lemma WalkHasTable(m: Memory, d: nat, p: nat)
    requires Walk(m, d, p).Some?
    ensures HasTable(m, d, p / 1024)
  {
  }

  lemma WriteOutside(m: Memory, m': Memory, changed: set<nat>, g: nat)
    requires SameOutside(m, m', changed)
    ensures g !in changed ==> FrameSame(m, m', g)
  {
    hide Word;
  }

  lemma StepKeepsSize(c: Cpu, st: Step)
    requires Sound(c) && Enabled(c, st)
    ensures |Next(c, st).mem.words| == |c.mem.words|
  {
    hide Word, Owned, Untabled, Touch, CloneDirectory, HasTable;
    var s, d := c.mem, c.directory;
    match st
    case Access(p, dirty) =>
      WalkHasTable(s.words, d, p);
      TouchMeaning(s, c.dirs, d, p, dirty);
    case Map(p, w) => MapSize(s, d, p, w);
    case Fault(a, err) => MapSize(s.(free := s.free - {Lowest(s.free)}), d, a / 4096, DirectoryEntry(Lowest(s.free)));
    case Clone => CloneMeaning(s, c.dirs, d);
    case _ =>
  }

  // ---------- the setting of a load ----------

  // The directory keeps its identity map, whichever directory is active.
  lemma StepKeepsIdentityOf(c: Cpu, st: Step, kd: nat, n: nat)
    requires Sound(c) && Enabled(c, st) && KeepsIdentity(st, n) && n <= PAGES
    requires kd in c.dirs && Identity(c.mem.words, kd, n)
    ensures Identity(Next(c, st).mem.words, kd, n)
  {
    hide Owned, Walk, Shares, Decode, MapPage, UnmapPage, DemandPage, CloneDirectory, Touch;
    var c' := Next(c, st);
    forall p: nat | p < n
      ensures Walk(c'.mem.words, kd, p).Some? && Walk(c'.mem.words, kd, p).value.frame == p
    {
      StepWalk(c, st, kd, p);
      if st.Fault? && Shares(c.mem.words, c.directory, kd, p / 1024) {
        SharedSameWalk(c.mem.words, c.directory, kd, p);
      }
    }
  }

  // The step leaves the file, the bitmap and the kernel directory alone, and maps below RAM
  // only pages onto themselves.
  ghost predicate Considerate(st: Step, kd: nat, file: File, n: nat, own: Span) {
    && KeepsIdentity(st, n) && st != Drop(kd)
    && forall g: nat :: FileFrame(file, g) || FrameOf(own, g) ==> st != Give(g) && Leaves(st, g)
  }

  lemma StepKeepsSetting(c: Cpu, st: Step, kd: nat, file: File, n: nat, own: Span)
    requires Sound(c) && Enabled(c, st) && Setting(c.mem, c.dirs, kd, file, n, own) && Considerate(st, kd, file, n, own)
    ensures Setting(Next(c, st).mem, Next(c, st).dirs, kd, file, n, own)
    ensures SameFile(c.mem.words, Next(c, st).mem.words, file)
  {
    hide Word, Walk, Owned, Untabled, Next, Enabled, KeepsIdentity, Identity, FrameSame, Bytes.Byte;
    var c' := Next(c, st);
    StepKeepsSound(c, st);
    StepRetains(c, st, kd);
    StepKeepsIdentityOf(c, st, kd, n);
    StepKeepsSize(c, st);
    forall g: nat | FileFrame(file, g) || FrameOf(own, g)
      ensures InUse(c'.mem, c'.dirs, g) && FrameSame(c.mem.words, c'.mem.words, g)
    {
      StepSpares(c, st, g);
    }
    forall k: nat | k < file.length
      ensures FileByte(c'.mem.words, file, k) == FileByte(c.mem.words, file, k)
    {
      BytesInFrame(c.mem.words, c'.mem.words, file, k);
    }
  }

  lemma BytesInFrame(m: Memory, m': Memory, file: File, k: nat)
    requires k < file.length && forall g: nat :: FileFrame(file, g) ==> FrameSame(m, m', g)
    ensures FileByte(m', file, k) == FileByte(m, file, k)
  {
    hide Word;
    assert FileFrame(file, (file.impl + k) / 4096);
  }

  // Over every run of such steps, from boot until the load, the setting holds and the file
  // keeps its bytes.
  lemma {:induction false} SettingAlways(c: Cpu, run: seq<Step>, kd: nat, file: File, n: nat, own: Span)
    requires Sound(c) && Legal(c, run) && Setting(c.mem, c.dirs, kd, file, n, own)
    requires forall i :: 0 <= i < |run| ==> Considerate(run[i], kd, file, n, own)
    ensures Setting(Run(c, run).mem, Run(c, run).dirs, kd, file, n, own)
    ensures SameFile(c.mem.words, Run(c, run).mem.words, file)
    decreases |run|
  {
    hide Sound, Setting, Considerate, Next, Enabled, FileByte;
    if run != [] {
      assert Considerate(run[0], kd, file, n, own);
      StepKeepsSound(c, run[0]);
      StepKeepsSetting(c, run[0], kd, file, n, own);
      SettingAlways(Next(c, run[0]), run[1..], kd, file, n, own);
    }
  }
}
