/**
  The flat identity map (`vmm_init`, src/vmm.c): how it is built, what it costs, which
  runs keep it, and why the kernel may edit page tables through their frame addresses.
 */
module IdentityMap {
  import opened Words
  import opened Frames
  import opened Paging
  import opened AddressSpaces
  import opened MemoryRuns

  // Every page below `n` translates to the frame of the same number.
  ghost predicate Identity(m: Memory, d: nat, n: nat) {
    forall p: nat :: p < n ==> Walk(m, d, p).Some? && Walk(m, d, p).value.frame == p
  }

  // ---------- building it ----------

  // Directory frame allocated and cleared.
  ghost function EmptySpace(s: Mem): Mem
    requires s.free != {}
  {
    var d := Lowest(s.free);
    Mem(Zeroed(s.words, d), s.free - {d})
  }

  // Pages 0 up to k - 1 mapped to themselves; None when a table cannot be allocated.
  ghost function MapUpTo(s: Mem, d: nat, k: nat): Option<Mem> {
    if k == 0 then Some(s)
    else match MapUpTo(s, d, k - 1)
      case None => None
      case Some(s') => MapPage(s', d, k - 1, DirectoryEntry(k - 1))
  }

  function Tables(pages: nat): nat { (pages + 1023) / 1024 }

  lemma EmptySpaceOwned(s: Mem)
    requires s.free != {} && FramesOwned(s, {})
    ensures Owned(EmptySpace(s), {Lowest(s.free)})
    ensures forall i: nat :: i < 1024 ==> !HasTable(EmptySpace(s).words, Lowest(s.free), i)
  {
    ZeroedMeaning(s.words, Lowest(s.free));
    hide Word, Zeroed;
  }

  // The state after k pages of the loop, from an empty directory.
  ghost predicate Built(s: Mem, s': Mem, d: nat, k: nat) {
    && Owned(s', {d})
    && s'.free <= s.free && |s'.free| + Tables(k) == |s.free|
    && (forall i: nat :: i < 1024 ==> (HasTable(s'.words, d, i) <==> i < Tables(k)))
    && (forall p: nat :: p < PAGES ==> Walk(s'.words, d, p) == if p < k then Some(Translation(p, 7)) else None)
  }

  lemma DecodeEntry(t: nat)
    requires t < PAGES
    ensures Decode(DirectoryEntry(t)) == Some(Translation(t, 7))
  {
    DecodePacked(t, 7);
  }

  lemma BuiltNext(s: Mem, s1: Mem, d: nat, k: nat)
    requires Built(s, s1, d, k) && k < PAGES
    ensures MapPage(s1, d, k, DirectoryEntry(k)).None? <==> |s.free| < Tables(k + 1)
    ensures MapPage(s1, d, k, DirectoryEntry(k)).Some? ==>
              Built(s, MapPage(s1, d, k, DirectoryEntry(k)).value, d, k + 1)
  {
    hide Word, Walk, MapPage, Owned, Decode, DirectoryEntry, Shares, HasTable, Tables;
    var w := DirectoryEntry(k);
    MapTakes(s1, d, k, w);
    TablesStep(k);
    assert HasTable(s1.words, d, k / 1024) <==> Tables(k + 1) == Tables(k);
    if MapPage(s1, d, k, w).Some? {
      var s' := MapPage(s1, d, k, w).value;
      MapKeepsOwned(s1, {d}, d, k, w);
      DecodeEntry(k);
      forall p: nat | p < PAGES
        ensures Walk(s'.words, d, p) == if p < k + 1 then Some(Translation(p, 7)) else None
      {
        MapWalk(s1, {d}, d, k, w, d, p);
      }
      forall i: nat | i < 1024
        ensures HasTable(s'.words, d, i) <==> i < Tables(k + 1)
      {
        MapPresence(s1, {d}, d, k, w, i);
      }
    }
  }

  lemma TablesStep(k: nat)
    requires k < PAGES
    ensures Tables(k + 1) == if k / 1024 < Tables(k) then Tables(k) else Tables(k) + 1
    ensures k / 1024 <= Tables(k) <= k / 1024 + 1
  {
  }

  lemma MapPresence(s: Mem, dirs: set<nat>, d: nat, p: nat, w: word, i: nat)
    requires Owned(s, dirs) && d in dirs && p < PAGES && MapPage(s, d, p, w).Some? && i < 1024
    ensures HasTable(MapPage(s, d, p, w).value.words, d, i) <==> HasTable(s.words, d, i) || i == p / 1024
  {
    var s1 := Install(s, d, p / 1024).value;
    InstallKeepsOwned(s, dirs, d, p / 1024);
    assert HasTable(s1.words, d, i) <==> HasTable(s.words, d, i) || i == p / 1024 by {
      if !HasTable(s.words, d, p / 1024) {
        InstallFreshMeaning(s, dirs, d, p / 1024, Lowest(s.free));
        hide Word, InstallFresh;
      }
    }
    hide Install, Word, Store, TablesOwned, OneSlotPerTable;
    var t := TableOf(s1.words, d, p / 1024);
    assert TableFrame(s1, dirs, t) by { TableOwned(s1, dirs, d, p / 1024); }
    StoreMeaning(s1.words, t, p % 1024, w);
  }

  lemma TableOwned(s: Mem, dirs: set<nat>, d: nat, i: nat)
    requires TablesOwned(s, dirs) && d in dirs && i < 1024 && HasTable(s.words, d, i)
    ensures TableFrame(s, dirs, TableOf(s.words, d, i))
  {
  }

  lemma {:induction false} MapUpToBuilds(s: Mem, d: nat, k: nat)
    requires Built(s, s, d, 0) && k <= PAGES
    ensures MapUpTo(s, d, k).Some? <==> Tables(k) <= |s.free|
    ensures MapUpTo(s, d, k).Some? ==> Built(s, MapUpTo(s, d, k).value, d, k)
  {
    hide Built, MapPage;
    if k > 0 {
      MapUpToBuilds(s, d, k - 1);
      TablesStep(k - 1);
      if MapUpTo(s, d, k - 1).Some? {
        BuiltNext(s, MapUpTo(s, d, k - 1).value, d, k - 1);
      }
    }
  }

  // Initialisation succeeds exactly when 1 + ceil(n / 1024) frames are free; it then takes
  // that many, maps every page below `n` to itself and nothing above.
  lemma InitBuildsIdentity(s: Mem, n: nat)
    requires s.free != {} && FramesOwned(s, {}) && n <= PAGES
    ensures
      var d := Lowest(s.free);
      var r := MapUpTo(EmptySpace(s), d, n);
      && (r.Some? <==> 1 + Tables(n) <= |s.free|)
      && (r.Some? ==>
            && Owned(r.value, {d}) && Identity(r.value.words, d, n)
            && (forall p: nat :: p < n ==> Walk(r.value.words, d, p) == Some(Translation(p, 7)))
            && (forall p: nat :: n <= p < PAGES ==> Walk(r.value.words, d, p).None?)
            && r.value.free <= s.free && |r.value.free| == |s.free| - 1 - Tables(n))
  {
    var d := Lowest(s.free);
    var s0 := EmptySpace(s);
    EmptySpaceOwned(s);
    assert |s0.free| == |s.free| - 1;
    assert Built(s0, s0, d, 0);
    MapUpToBuilds(s0, d, n);
    hide MapUpTo, EmptySpace, Word, Walk, Owned;
  }

  // ---------- keeping it ----------

  // A mapping keeps the identity below `n` exactly when it is at or above `n`, or maps
  // the page to its own frame.
  predicate SelfEntry(p: nat, w: word) {
    Decode(w).Some? && Decode(w).value.frame == p
  }

  predicate KeepsIdentity(st: Step, n: nat) {
    match st
    case Map(p, w) => p >= n || SelfEntry(p, w)
    case Unmap(p) => p >= n
    case _ => true
  }

  lemma MapKeepsIdentityIff(c: Cpu, n: nat, p: nat, w: word)
    requires Sound(c) && Identity(c.mem.words, c.directory, n) && n <= PAGES && Enabled(c, Map(p, w))
    ensures Identity(Next(c, Map(p, w)).mem.words, c.directory, n) <==> KeepsIdentity(Map(p, w), n)
  {
    hide Owned, Walk, Shares, Decode, MapPage;
    var m' := Next(c, Map(p, w)).mem.words;
    forall q: nat | q < n
      ensures Walk(m', c.directory, q) == if q == p then Decode(w) else Walk(c.mem.words, c.directory, q)
    {
      StepWalk(c, Map(p, w), c.directory, q);
    }
    assert p < n ==> Walk(m', c.directory, p) == Decode(w);
  }

  ghost predicate AllIdentity(c: Cpu, n: nat) {
    forall d :: d in c.dirs ==> Identity(c.mem.words, d, n)
  }

  lemma StepKeepsIdentity(c: Cpu, st: Step, n: nat)
    requires Sound(c) && Enabled(c, st) && KeepsIdentity(st, n) && AllIdentity(c, n) && n <= PAGES
    ensures AllIdentity(Next(c, st), n)
  {
    hide Owned, Walk, Shares, Decode, MapPage, UnmapPage, DemandPage, CloneDirectory, Touch;
    var c' := Next(c, st);
    forall d, p: nat | d in c'.dirs && p < n
      ensures Walk(c'.mem.words, d, p).Some? && Walk(c'.mem.words, d, p).value.frame == p
    {
      assert Identity(c.mem.words, c.directory, n);
      if d in c.dirs {
        assert Identity(c.mem.words, d, n);
        StepWalk(c, st, d, p);
      } else {
        CloneTranslates(c.mem, c.dirs, c.directory, p);
      }
    }
  }

  // Runs that map below RAM only onto themselves keep every directory's identity map.
  lemma {:induction false} IdentityAlways(c: Cpu, run: seq<Step>, n: nat)
    requires Sound(c) && AllIdentity(c, n) && n <= PAGES && Legal(c, run)
    requires forall i :: 0 <= i < |run| ==> KeepsIdentity(run[i], n)
    ensures Sound(Run(c, run)) && AllIdentity(Run(c, run), n)
    decreases |run|
  {
    hide Sound, AllIdentity, Next, Enabled, KeepsIdentity;
    if run != [] {
      assert KeepsIdentity(run[0], n);
      StepKeepsSound(c, run[0]);
      StepKeepsIdentity(c, run[0], n);
      IdentityAlways(Next(c, run[0]), run[1..], n);
    }
  }

  // A resolvable fault never concerns identity-mapped RAM.
  lemma FaultAboveRam(c: Cpu, n: nat, a: word, err: word)
    requires Sound(c) && AllIdentity(c, n) && Enabled(c, Fault(a, err))
    ensures a / 4096 >= n
  {
    hide Owned, Walk, DemandPage;
    assert Identity(c.mem.words, c.directory, n);
  }

  // ---------- frames above RAM are private ----------

  ghost predicate PrivateAbove(s: Mem, d: nat, n: nat) {
    && (forall p: nat :: n <= p < PAGES && Walk(s.words, d, p).Some? ==>
          Walk(s.words, d, p).value.frame !in s.free)
    && (forall p: nat, q: nat ::
          (n <= p < PAGES && n <= q < PAGES && p != q && Walk(s.words, d, p).Some? && Walk(s.words, d, q).Some?) ==>
          Walk(s.words, d, p).value.frame != Walk(s.words, d, q).value.frame)
  }

  predicate FaultOrAccess(st: Step) {
    st.Fault? || st.Fill? || st.Access?
  }

  lemma StepKeepsPrivate(c: Cpu, st: Step, n: nat)
    requires Sound(c) && Enabled(c, st) && FaultOrAccess(st) && PrivateAbove(c.mem, c.directory, n)
    ensures Next(c, st).directory == c.directory && PrivateAbove(Next(c, st).mem, c.directory, n)
  {
    hide Owned, Walk, Shares, DemandPage, Touch;
    var c' := Next(c, st);
    assert c'.mem.free <= c.mem.free && (st.Fault? ==> Lowest(c.mem.free) in c.mem.free - c'.mem.free) by {
      if st.Fault? {
        FaultResolves(c.mem, c.dirs, c.directory, st.address);
      }
    }
    forall q: nat | q < PAGES
      ensures Walk(c'.mem.words, c.directory, q)
           == if EditedPage(st) == Some(q) then Some(Translation(Lowest(c.mem.free), 7)) else Walk(c.mem.words, c.directory, q)
    {
      StepWalk(c, st, c.directory, q);
    }
  }

  // Over every run of faults and accesses no two pages above RAM show the same frame.
  lemma {:induction false} FaultsNeverShare(c: Cpu, run: seq<Step>, n: nat)
    requires Sound(c) && Legal(c, run) && PrivateAbove(c.mem, c.directory, n)
    requires forall i :: 0 <= i < |run| ==> FaultOrAccess(run[i])
    ensures PrivateAbove(Run(c, run).mem, c.directory, n)
    decreases |run|
  {
    hide Sound, PrivateAbove, Next, Enabled, FaultOrAccess;
    if run != [] {
      assert FaultOrAccess(run[0]);
      StepKeepsSound(c, run[0]);
      StepKeepsPrivate(c, run[0], n);
      FaultsNeverShare(Next(c, run[0]), run[1..], n);
    }
  }

  // ---------- frame addresses as pointers ----------

  // A store through virtual page `p`.
  function StoreAt(m: Memory, d: nat, p: nat, i: nat, w: word): Memory {
    match Walk(m, d, p)
    case Some(t) => Store(m, t.frame, i, w)
    case None => m
  }

  function ZeroAt(m: Memory, d: nat, p: nat): Memory {
    match Walk(m, d, p)
    case Some(t) => Zeroed(m, t.frame)
    case None => m
  }

  function LoadAt(m: Memory, d: nat, p: nat, i: nat): word {
    match Walk(m, d, p)
    case Some(t) => Word(m, t.frame, i)
    case None => 0
  }

  // `vmm_map_page` with every pointer taken through the page tables it edits.
  ghost function MapPageVirtually(s: Mem, d: nat, p: nat, w: word): Option<Mem> {
    var pde := LoadAt(s.words, d, d, p / 1024);
    if pde % 2 == 1 then Some(s.(words := StoreAt(s.words, d, pde / 4096, p % 1024, w)))
    else if s.free == {} then None
    else
      var t := Lowest(s.free);
      var m1 := ZeroAt(s.words, d, t);
      var m2 := StoreAt(m1, d, d, p / 1024, DirectoryEntry(t));
      Some(Mem(StoreAt(m2, d, t, p % 1024, w), s.free - {t}))
  }

  // With all of RAM identity-mapped the pointers are right: the effect is that of
  // editing physical memory.
  lemma PointersAreRight(s: Mem, dirs: set<nat>, d: nat, p: nat, w: word, n: nat)
    requires Owned(s, dirs) && d in dirs && p < PAGES
    requires |s.words| == 1024 * n && Identity(s.words, d, n)
    ensures MapPageVirtually(s, d, p, w) == MapPage(s, d, p, w)
  {
    var i := p / 1024;
    assert d < n;
    assert LoadAt(s.words, d, d, i) == Word(s.words, d, i);
    if HasTable(s.words, d, i) {
      TableOwned(s, dirs, d, i);
    } else if s.free != {} {
      var t := Lowest(s.free);
      DirectoryEntryBits(t);
      var z := Zeroed(s.words, t);
      ZeroKeepsWalk(s, dirs, d, t, d);
      InstallKeepsWalks(s, dirs, d, i, d, t);
      InstallFreshMeaning(s, dirs, d, i, t);
      hide Word, Walk, Store, Zeroed, DirectoryEntry;
      assert ZeroAt(s.words, d, t) == z;
      assert StoreAt(z, d, d, i, DirectoryEntry(t)) == Store(z, d, i, DirectoryEntry(t));
    }
  }

  lemma ZeroKeepsWalk(s: Mem, dirs: set<nat>, d: nat, t: nat, q: nat)
    requires Owned(s, dirs) && d in dirs && t in s.free && q < PAGES
    ensures Walk(Zeroed(s.words, t), d, q) == Walk(s.words, d, q)
  {
    ZeroedMeaning(s.words, t);
    FreeIsUntabled(s, dirs, t);
    hide Word, Zeroed, Untabled;
    DataWriteKeepsWalk(s.words, Zeroed(s.words, t), dirs, {t}, d, q);
  }
}
