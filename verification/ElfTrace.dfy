/**
  What a load has done to every directory at any point, be it finished or about to be
  cleaned up (src/elf.c): exactly the pages it lists show its blocks, in the new directory
  and wherever the table is shared, and data in use is kept.
 */
module ElfTrace {
  import opened Words
  import opened Frames
  import opened Paging
  import opened AddressSpaces
  import opened MemoryRuns
  import opened Bytes
  import opened ElfPages
  import opened ElfImage
  import opened Elf

  // The last place of `q` among the pages: the block mapped there is the one that stays.
  function LastPlace(pages: seq<nat>, q: nat): (k: nat)
    requires q in pages
    ensures k < |pages| && pages[k] == q && forall j :: k < j < |pages| ==> pages[j] != q
  {
    var n := |pages| - 1;
    if pages[n] == q then n else LastPlace(pages[..n], q)
  }

  function BlockOf(l: Load, q: nat): nat
    requires q in l.pages && |l.pages| == |l.blocks|
  {
    l.blocks[LastPlace(l.pages, q)]
  }

  // Directory `e` shows the load's own page at `q`.
  ghost predicate Reached(m0: Memory, c: nat, e: nat, l: Load, q: nat) {
    q in l.pages && (e == c || Shares(m0, c, e, q / 1024))
  }

  ghost predicate TracedAt(s0: Mem, c: nat, l: Load, e: nat, q: nat) {
    |l.pages| == |l.blocks| &&
    Walk(l.mem.words, e, q)
    == if Reached(s0.words, c, e, l, q) then Some(Translation(BlockOf(l, q), 7)) else Walk(s0.words, e, q)
  }

  ghost predicate Traced(s0: Mem, dirs: set<nat>, c: nat, l: Load) {
    && KeepsData(dirs, s0, l.mem)
    && (forall e, i: nat :: e in dirs && e != c && i < 1024 ==> Shares(l.mem.words, c, e, i) == Shares(s0.words, c, e, i))
    && (forall e, q: nat :: e in dirs && q < PAGES ==> TracedAt(s0, c, l, e, q))
  }

  lemma LastOfAppended(l: Load, l': Load, p: nat, f: nat, q: nat)
    requires |l.pages| == |l.blocks| && l'.pages == l.pages + [p] && l'.blocks == l.blocks + [f]
    ensures q in l'.pages <==> q in l.pages || q == p
    ensures q in l'.pages ==> BlockOf(l', q) == if q == p then f else BlockOf(l, q)
  {
    if q in l'.pages && q != p {
      assert l'.pages[..|l.pages|] == l.pages;
    }
  }

  lemma SharedSameWalk(m: Memory, c: nat, e: nat, p: nat)
    requires Shares(m, c, e, p / 1024)
    ensures Walk(m, c, p) == Walk(m, e, p)
  {
  }

  // One page more.
  lemma TracePage(s0: Mem, dirs: set<nat>, c: nat, l: Load, l': Load, p: nat)
    requires Traced(s0, dirs, c, l) && c in dirs && p < PAGES && PageEffect(dirs, c, l, l', p)
    ensures Traced(s0, dirs, c, l')
  {
    hide Word, Walk, Owned, Untabled, HasTable, Shares, FrameSame, BlockOf;
    var f := Lowest(l.mem.free);
    KeepsDataTransitive(dirs, s0, l.mem, l'.mem);
    forall e, q: nat | e in dirs && q < PAGES
      ensures TracedAt(s0, c, l', e, q)
    {
      assert TracedAt(s0, c, l, e, q);
      LastOfAppended(l, l', p, f, q);
      if Affected(l.mem.words, c, e, q, p, 1) {
        if e != c {
          SharedSameWalk(l'.mem.words, c, e, q);
        }
      }
    }
  }

  lemma {:induction false} TracePages(s0: Mem, dirs: set<nat>, c: nat, l: Load, first: nat, n: nat)
    requires Traced(s0, dirs, c, l) && Owned(l.mem, dirs) && c in dirs && first + n <= PAGES
    ensures !LoadPages(l, c, first, n).Stopped? ==>
              Traced(s0, dirs, c, LoadPages(l, c, first, n).load) && Owned(LoadPages(l, c, first, n).load.mem, dirs)
    decreases n
  {
    hide Traced, LoadPage, Owned, PageEffect;
    if n > 0 {
      TracePages(s0, dirs, c, l, first, n - 1);
      var r := LoadPages(l, c, first, n - 1);
      if r.Going? {
        NoFramesKeeps(r.load, c, first + n - 1);
        if LoadPage(r.load, c, first + n - 1).Going? {
          LoadPageEffect(r.load, dirs, c, first + n - 1);
          PageEffectOwned(dirs, c, r.load, LoadPage(r.load, c, first + n - 1).load, first + n - 1);
          TracePage(s0, dirs, c, r.load, LoadPage(r.load, c, first + n - 1).load, first + n - 1);
        }
      }
    }
  }

  lemma PageEffectOwned(dirs: set<nat>, c: nat, l: Load, l': Load, p: nat)
    requires PageEffect(dirs, c, l, l', p)
    ensures Owned(l'.mem, dirs)
  {
  }

  lemma TraceWrite(s0: Mem, dirs: set<nat>, c: nat, l: Load, m': Memory, changed: set<nat>)
    requires Traced(s0, dirs, c, l) && c in dirs && SameOutside(l.mem.words, m', changed) && changed <= s0.free
    requires forall f :: f in changed ==> Untabled(l.mem.words, dirs, f)
    ensures Traced(s0, dirs, c, l.(mem := l.mem.(words := m')))
  {
    hide Word, Walk, Untabled, HasTable, Shares, FrameSame, KeepsData;
    DataWriteKeepsTables(l.mem.words, m', dirs, changed);
    FreshWriteKeepsData(dirs, s0, l.mem, m', changed);
    forall e, q: nat | e in dirs && q < PAGES
      ensures TracedAt(s0, c, l.(mem := l.mem.(words := m')), e, q)
    {
      assert TracedAt(s0, c, l, e, q);
      DataWriteKeepsWalk(l.mem.words, m', dirs, changed, e, q);
    }
  }

  lemma TraceSegment(s0: Mem, dirs: set<nat>, c: nat, l: Load, file: File, h: Header)
    requires Traced(s0, dirs, c, l) && Account(s0, dirs, c, l) && c in dirs && WellFormed(h)
    requires !LoadSegment(l, c, file, h).Stopped?
    ensures Traced(s0, dirs, c, LoadSegment(l, c, file, h).load)
  {
    var first, count := h.First(), h.Count();
    WellFormedPages(h, file.length);
    hide Traced;
    TracePages(s0, dirs, c, l, first, count);
    if LoadPages(l, c, first, count).Going? {
      var l1 := LoadPages(l, c, first, count).load;
      LoadPagesAccounts(s0, dirs, c, l, first, count);
      LoadPagesEffect(l, dirs, c, first, count);
      var target := NewBlocks(l, l1);
      SegmentTarget(dirs, c, l, l1, first, count);
      hide Word, Walk, Owned, Untabled, LoadPages, CopyBytes, KeepsData, KeepsPages;
      CopyStaysInTarget(l1.mem.words, dirs, c, first, count, target, h.vaddr, Add32(file.impl, h.offset),
                        Tar.ReadSize(file.length, h.offset, h.filesz));
      TraceWrite(s0, dirs, c, l1, CopyData(l1.mem.words, c, file, h), target);
    }
  }

  lemma TraceHeader(s0: Mem, dirs: set<nat>, kd: nat, c: nat, l: Load, file: File, offset: word)
    requires Traced(s0, dirs, c, l) && Account(s0, dirs, c, l) && c in dirs && !LoadHeader(l, kd, c, file, offset).Stopped?
    requires Complete(file, offset) ==> var h := ReadPhdr(l.mem.words, kd, file, offset); h.kind == PT_LOAD ==> WellFormed(h)
    ensures Traced(s0, dirs, c, LoadHeader(l, kd, c, file, offset).load)
  {
    hide Traced, Account, WellFormed, LoadSegment, ReadPhdr, Complete;
    var h := ReadPhdr(l.mem.words, kd, file, offset);
    if Complete(file, offset) && h.kind == PT_LOAD && !LoadSegment(l, c, file, h).Stopped? {
      TraceSegment(s0, dirs, c, l, file, h);
    }
  }

  lemma {:induction false} TraceHeaders(s0: Mem, dirs: set<nat>, kd: nat, c: nat, l: Load, file: File, e: Ehdr, i: nat)
    requires Traced(s0, dirs, c, l) && Account(s0, dirs, c, l) && c in dirs && HeadersWellFormed(l, kd, c, file, e, i)
    ensures !LoadHeaders(l, kd, c, file, e, i).Stopped? ==> Traced(s0, dirs, c, LoadHeaders(l, kd, c, file, e, i).load)
    decreases i
  {
    hide Traced, Account, WellFormed, LoadHeader, ReadPhdr, PhdrOffset, Complete;
    if i > 0 {
      TraceHeaders(s0, dirs, kd, c, l, file, e, i - 1);
      HeadersAccount(s0, dirs, kd, c, l, file, e, i - 1);
      var r := LoadHeaders(l, kd, c, file, e, i - 1);
      if r.Going? && !LoadHeader(r.load, kd, c, file, PhdrOffset(e, i - 1)).Stopped? {
        TraceHeader(s0, dirs, kd, c, r.load, file, PhdrOffset(e, i - 1));
      }
    }
  }

  lemma StartTraced(s: Mem, dirs: set<nat>, kd: nat)
    requires Owned(s, dirs) && kd in dirs && s.free != {}
    ensures Traced(Start(s, kd).mem, dirs + {Lowest(s.free)}, Lowest(s.free), Start(s, kd))
  {
    hide Word, Walk, CloneDirectory, Untabled, Shares;
  }

  // ---------- after the load ----------

  lemma FinalTraced(s: Mem, dirs: set<nat>, kd: nat, file: File)
    requires Owned(s, dirs) && kd in dirs && s.free != {} && GoodHeaders(s, kd, file)
    ensures !Final(s, kd, file).Stopped? ==>
              Traced(Start(s, kd).mem, dirs + {Lowest(s.free)}, Lowest(s.free), Final(s, kd, file).load)
  {
    hide Account, Traced, HeadersWellFormed, LoadHeaders, ReadEhdr, Owned;
    var e, c := ReadEhdr(s.words, kd, file), Lowest(s.free);
    StartAccounts(s, dirs, kd);
    StartTraced(s, dirs, kd);
    TraceHeaders(Start(s, kd).mem, dirs + {c}, kd, c, Start(s, kd), file, e, e.phnum);
  }

  lemma StartShares(s: Mem, dirs: set<nat>, kd: nat, e: nat, i: nat)
    requires Owned(s, dirs) && kd in dirs && s.free != {} && e in dirs && i < 1024
    ensures Shares(Start(s, kd).mem.words, Lowest(s.free), e, i) <==>
            HasTable(s.words, kd, i) && (e == kd || Shares(s.words, kd, e, i))
  {
    CloneMeaning(s, dirs, kd);
    hide Word, CloneDirectory;
  }

  // The load went through to its end or to its cleanup.
  predicate Ended(r: Result) {
    r.Success? || r.Failure?
  }

  lemma EndedMeans(s: Mem, kd: nat, file: File)
    requires Ended(LoadFile(s, kd, file))
    ensures s.free != {} && !Final(s, kd, file).Stopped?
    ensures LoadFile(s, kd, file).mem.words == Final(s, kd, file).load.mem.words
  {
    hide LoadHeaders, ReadEhdr, Add32;
  }

  // Page `q` of directory `e` lies in a table of the kernel directory into which the load
  // put a page.
  ghost predicate Hit(s: Mem, kd: nat, l: Load, e: nat, q: nat) {
    q in l.pages && HasTable(s.words, kd, q / 1024) && (e == kd || Shares(s.words, kd, e, q / 1024))
  }

  // Exactly what a load, finished or failed, does to the directories that were there
  // before: a hit page shows the block the load mapped there, which was free; every other
  // page is translated as before.
  lemma DirectoriesAfter(s: Mem, dirs: set<nat>, kd: nat, file: File, e: nat, q: nat)
    requires Owned(s, dirs) && kd in dirs && GoodHeaders(s, kd, file) && Ended(LoadFile(s, kd, file))
    requires e in dirs && q < PAGES
    ensures s.free != {} && !Final(s, kd, file).Stopped?
    ensures
      var r, l := LoadFile(s, kd, file), Final(s, kd, file).load;
      && |l.pages| == |l.blocks|
      && (Hit(s, kd, l, e, q) ==> BlockOf(l, q) in s.free && Walk(r.mem.words, e, q) == Some(Translation(BlockOf(l, q), 7)))
      && (!Hit(s, kd, l, e, q) ==> Walk(r.mem.words, e, q) == Walk(s.words, e, q))
      && (q in l.pages ==> BlockOf(l, q) in s.free && Walk(r.mem.words, Lowest(s.free), q) == Some(Translation(BlockOf(l, q), 7)))
  {
    hide Word, Walk, Owned, Untabled, Final, LoadFile, GoodHeaders, CloneDirectory, HasTable, Shares, NewTables, KeepsData;
    EndedMeans(s, kd, file);
    var c, l := Lowest(s.free), Final(s, kd, file).load;
    assert c !in dirs by { CloneMeaning(s, dirs, kd); }
    StartAccounts(s, dirs, kd);
    FinalAccount(s, dirs, kd, file);
    FinalTraced(s, dirs, kd, file);
    CloneKeepsWalk(s, dirs, kd, e, q);
    StartShares(s, dirs, kd, e, q / 1024);
    assert TracedAt(Start(s, kd).mem, c, l, e, q) && TracedAt(Start(s, kd).mem, c, l, c, q);
  }

  // Whether finished or failed, a load leaves frames in use that hold no table, the archive
  // among them, as they were.
  lemma UsersUndisturbed(s: Mem, dirs: set<nat>, kd: nat, file: File, g: nat)
    requires Owned(s, dirs) && kd in dirs && GoodHeaders(s, kd, file) && Ended(LoadFile(s, kd, file))
    requires g !in s.free && Untabled(s.words, dirs, g)
    ensures FrameSame(s.words, LoadFile(s, kd, file).mem.words, g)
  {
    hide Word, Owned, Untabled, Final, LoadFile, GoodHeaders, CloneDirectory, TracedAt;
    EndedMeans(s, kd, file);
    var c, s0, l := Lowest(s.free), Start(s, kd).mem, Final(s, kd, file).load;
    FinalTraced(s, dirs, kd, file);
    CloneFree(s, kd);
    CloneKeepsUntabled(s, dirs, kd, g);
    CloneMeaning(s, dirs, kd);
    assert FrameSame(s.words, s0.words, g) && FrameSame(s0.words, l.mem.words, g);
  }

  lemma CloneKeepsUntabled(s: Mem, dirs: set<nat>, d: nat, g: nat)
    requires Owned(s, dirs) && d in dirs && s.free != {} && g !in s.free && Untabled(s.words, dirs, g)
    ensures Untabled(CloneDirectory(s, d).words, dirs + {Lowest(s.free)}, g)
  {
    CloneMeaning(s, dirs, d);
    hide Word, CloneDirectory, Owned;
    var c, m' := Lowest(s.free), CloneDirectory(s, d).words;
    forall e, i: nat | e in dirs + {c} && i < 1024 && HasTable(m', e, i)
      ensures TableOf(m', e, i) != g
    {
      assert HasTable(s.words, if e == c then d else e, i);
    }
  }

  // ---------- after a failing load ----------

  // A block of the load is free again exactly when it was among the first 64.
  lemma FreedIff(s: Mem, dirs: set<nat>, kd: nat, file: File, k: nat)
    requires Owned(s, dirs) && kd in dirs && GoodHeaders(s, kd, file) && LoadFile(s, kd, file).Failure?
    requires s.free != {} && !Final(s, kd, file).Stopped? && k < |Final(s, kd, file).load.blocks|
    ensures Final(s, kd, file).load.blocks[k] in LoadFile(s, kd, file).mem.free <==> k < 64
  {
    hide Word, Owned, Untabled, LoadHeaders, ReadEhdr, GoodHeaders, CloneDirectory, NewTables, Add32;
    StartAccounts(s, dirs, kd);
    FinalAccount(s, dirs, kd, file);
  }

  ghost predicate Dangles(s: Mem, e: nat, q: nat) {
    Walk(s.words, e, q).Some? && Walk(s.words, e, q).value.frame in s.free
  }

  // After a failing load a page of a directory shows a frame that the cleanup freed if and
  // only if the load had hit it and its block was among the first 64.
  lemma DanglesIff(s: Mem, dirs: set<nat>, kd: nat, file: File, e: nat, q: nat)
    requires Owned(s, dirs) && kd in dirs && GoodHeaders(s, kd, file) && LoadFile(s, kd, file).Failure?
    requires e in dirs && q < PAGES && !Dangles(s, e, q)
    ensures s.free != {} && !Final(s, kd, file).Stopped?
    ensures
      var l := Final(s, kd, file).load;
      Dangles(LoadFile(s, kd, file).mem, e, q) <==> Hit(s, kd, l, e, q) && LastPlace(l.pages, q) < 64
  {
    hide Word, Walk, Owned, Final, GoodHeaders, LoadFile, HasTable, Shares, NewTables;
    DirectoriesAfter(s, dirs, kd, file, e, q);
    FailureAccount(s, dirs, kd, file);
    var l := Final(s, kd, file).load;
    if Hit(s, kd, l, e, q) {
      FreedIff(s, dirs, kd, file, LastPlace(l.pages, q));
    }
  }
}
