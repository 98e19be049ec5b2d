/**
  The outcome of `elf_load` from its input alone (src/elf.c): the pages its program headers
  ask for and the number of free frames decide whether it returns 0, returns -1 or halts,
  and what a failing load leaves taken or mapped.
 */
module ElfOutcome {
  import opened Words
  import opened Frames
  import opened Paging
  import opened AddressSpaces
  import opened ElfPages
  import opened ElfImage
  import opened Elf
  import opened ElfTrace
  import opened ElfCost
  import opened ElfTheorems
  import opened BitmapRam

  // ---------- the pages the file asks for ----------

  // The first `i` program headers are whole.
  ghost predicate AllComplete(s: Mem, kd: nat, file: File, i: nat) {
    forall j: nat :: j < i ==> Complete(file, PhdrOffset(ReadEhdr(s.words, kd, file), j))
  }

  // The pages of the loadable headers among the first `i`, up to one that is cut off.
  ghost function Planned(s: Mem, kd: nat, file: File, i: nat): seq<nat> {
    if i == 0 then []
    else Planned(s, kd, file, i - 1) + HeaderPages(s, kd, file, i - 1)
  }

  ghost function HeaderPages(s: Mem, kd: nat, file: File, j: nat): seq<nat> {
    var h := Phdr(s, kd, file, j);
    if AllComplete(s, kd, file, j + 1) && h.kind == PT_LOAD then Range(h.First(), h.Count()) else []
  }

  lemma {:induction false} PlannedArePages(s: Mem, kd: nat, file: File, n: nat, i: nat)
    requires Loadable(s, kd, file, n, i)
    ensures ArePages(Planned(s, kd, file, i))
  {
    hide Phdr, WellFormed, Complete, PhdrOffset, ReadEhdr;
    if i > 0 {
      LoadablePrefix(s, kd, file, n, i - 1);
      PlannedArePages(s, kd, file, n, i - 1);
      if HeaderPages(s, kd, file, i - 1) != [] {
        assert IsSegment(s, kd, file, i - 1);
        WellFormedPages(Phdr(s, kd, file, i - 1), 0);
      }
    }
  }

  // ---------- the header loop ----------

  // How the loop over headers that ask for `all` ends.
  ghost predicate LoopEnds(s0: Mem, dirs: set<nat>, c: nat, r: Progress, all: seq<nat>, complete: bool) {
    match r
    case Going(l) => Costed(s0, dirs, c, l) && l.pages == all && complete
    case Failed(l) => Costed(s0, dirs, c, l) && ((l.pages == all && !complete) || (l.mem.free == {} && l.pages < all))
    case Stopped => exists k: nat :: Breaks(s0.words, c, all, |s0.free|, k)
  }

  lemma SegmentEnds(s0: Mem, dirs: set<nat>, c: nat, l: Load, file: File, h: Header)
    requires Costed(s0, dirs, c, l) && c in dirs && WellFormed(h)
    ensures Ending(s0, dirs, c, LoadSegment(l, c, file, h), l.pages + Range(h.First(), h.Count()))
  {
    WellFormedPages(h, file.length);
    PagesEnd(s0, dirs, c, l, h.First(), h.Count());
    var r := LoadPages(l, c, h.First(), h.Count());
    if r.Going? {
      var l' := LoadSegment(l, c, file, h).load;
      SegmentAccounts(s0, dirs, c, l, file, h);
      SegmentTables(s0, dirs, c, l, file, h);
      hide Account, LoadSegment, LoadPages, CopyData, HasTable;
      assert TablesAre(s0.words, l'.mem.words, c, l'.pages);
    }
  }

  // Copying the data changes no table.
  lemma SegmentTables(s0: Mem, dirs: set<nat>, c: nat, l: Load, file: File, h: Header)
    requires Account(s0, dirs, c, l) && c in dirs && WellFormed(h) && LoadSegment(l, c, file, h).Going?
    ensures
      var l1, l' := LoadPages(l, c, h.First(), h.Count()).load, LoadSegment(l, c, file, h).load;
      l'.pages == l1.pages && forall i: nat :: i < 1024 ==> HasTable(l'.mem.words, c, i) == HasTable(l1.mem.words, c, i)
  {
    var first, count := h.First(), h.Count();
    WellFormedPages(h, file.length);
    LoadPagesAccounts(s0, dirs, c, l, first, count);
    LoadPagesEffect(l, dirs, c, first, count);
    var l1 := LoadPages(l, c, first, count).load;
    var target := NewBlocks(l, l1);
    SegmentTarget(dirs, c, l, l1, first, count);
    hide Word, Walk, Owned, Untabled, LoadPages, Bytes.CopyBytes, KeepsData, KeepsPages, HasTable;
    Bytes.CopyStaysInTarget(l1.mem.words, dirs, c, first, count, target, h.vaddr, Add32(file.impl, h.offset),
                            Tar.ReadSize(file.length, h.offset, h.filesz));
    DataWriteKeepsTables(l1.mem.words, CopyData(l1.mem.words, c, file, h), dirs, target);
  }

  lemma HeaderEnds(s: Mem, s0: Mem, dirs: set<nat>, kd: nat, c: nat, l: Load, file: File, n: nat, j: nat)
    requires Costed(s0, dirs, c, l) && c in dirs && AllComplete(s, kd, file, j) && l.pages == Planned(s, kd, file, j)
    requires Loadable(s, kd, file, n, j + 1)
    requires
      var offset := PhdrOffset(ReadEhdr(s.words, kd, file), j);
      Complete(file, offset) ==> ReadPhdr(l.mem.words, kd, file, offset) == Phdr(s, kd, file, j)
    ensures LoopEnds(s0, dirs, c, LoadHeader(l, kd, c, file, PhdrOffset(ReadEhdr(s.words, kd, file), j)),
                     Planned(s, kd, file, j + 1), AllComplete(s, kd, file, j + 1))
  {
    hide Costed, Phdr, ReadPhdr, ReadEhdr, PhdrOffset, Complete, WellFormed, LoadSegment, Breaks;
    var h := Phdr(s, kd, file, j);
    if Complete(file, PhdrOffset(ReadEhdr(s.words, kd, file), j)) && h.kind == PT_LOAD {
      assert IsSegment(s, kd, file, j);
      SegmentEnds(s0, dirs, c, l, file, h);
    } else {
      assert l.pages + [] == l.pages;
    }
  }

  lemma StartCosted(s: Mem, dirs: set<nat>, kd: nat)
    requires Owned(s, dirs) && kd in dirs && s.free != {}
    ensures Costed(Start(s, kd).mem, dirs + {Lowest(s.free)}, Lowest(s.free), Start(s, kd))
  {
    StartAccounts(s, dirs, kd);
    hide Account, HasTable, CloneDirectory;
  }

  lemma LoopExtends(s0: Mem, dirs: set<nat>, c: nat, r: Progress, all: seq<nat>, more: seq<nat>, complete: bool, complete': bool)
    requires LoopEnds(s0, dirs, c, r, all, complete) && !r.Going? && (complete' ==> complete) && (!complete ==> more == [])
    ensures LoopEnds(s0, dirs, c, r, all + more, complete')
  {
    hide Costed, Cost;
    if r.Stopped? {
      EndingExtends(s0, dirs, c, r, all, more);
    } else if !complete {
      assert all + more == all;
    }
  }

  lemma {:induction false} HeadersEnd(s: Mem, dirs: set<nat>, kd: nat, file: File, n: nat, i: nat)
    requires Ready(s, dirs, kd, file, n) && s.free != {} && Loadable(s, kd, file, n, i)
    ensures
      var c, e := Lowest(s.free), ReadEhdr(s.words, kd, file);
      LoopEnds(Start(s, kd).mem, dirs + {c}, c, LoadHeaders(Start(s, kd), kd, c, file, e, i),
               Planned(s, kd, file, i), AllComplete(s, kd, file, i))
    decreases i
  {
    hide Ready, Costed, Breaks, LoadHeader, Loadable, ReadEhdr, PhdrOffset, Complete, ReadPhdr, Phdr, HeaderPages;
    ReadyOwned(s, dirs, kd, file, n);
    var c, e := Lowest(s.free), ReadEhdr(s.words, kd, file);
    var s0, dirs' := Start(s, kd).mem, dirs + {c};
    if i == 0 {
      StartCosted(s, dirs, kd);
    } else {
      LoadablePrefix(s, kd, file, n, i - 1);
      HeadersEnd(s, dirs, kd, file, n, i - 1);
      var r := LoadHeaders(Start(s, kd), kd, c, file, e, i - 1);
      if r.Going? {
        if Complete(file, PhdrOffset(e, i - 1)) {
          HeaderAtTurn(s, dirs, kd, file, n, i - 1);
        }
        HeaderEnds(s, s0, dirs', kd, c, r.load, file, n, i - 1);
      } else {
        CutOff(s, kd, file, i - 1);
        LoopExtends(s0, dirs', c, r, Planned(s, kd, file, i - 1), HeaderPages(s, kd, file, i - 1),
                    AllComplete(s, kd, file, i - 1), AllComplete(s, kd, file, i));
      }
    }
  }

  lemma CutOff(s: Mem, kd: nat, file: File, j: nat)
    ensures !AllComplete(s, kd, file, j) ==> HeaderPages(s, kd, file, j) == [] && !AllComplete(s, kd, file, j + 1)
  {
    hide Phdr, ReadEhdr, PhdrOffset, Complete;
  }

  // ---------- the outcome ----------

  // The header is there, is accepted, and a frame for the directory is free: the load starts.
  predicate Tried(s: Mem, kd: nat, file: File) {
    Tar.ReadSize(file.length, 0, 52) >= 52 && Accepted(ReadEhdr(s.words, kd, file)) && s.free != {}
  }

  // All pages the file asks for.
  ghost function Asked(s: Mem, kd: nat, file: File): seq<nat> {
    Planned(s, kd, file, ReadEhdr(s.words, kd, file).phnum)
  }

  ghost predicate Whole(s: Mem, kd: nat, file: File) {
    AllComplete(s, kd, file, ReadEhdr(s.words, kd, file).phnum)
  }

  // How many of them the free frames are enough for, beside the directory.
  ghost function Loaded(s: Mem, kd: nat, file: File): nat
    requires s.free != {}
  {
    Fit(s.words, kd, Asked(s, kd, file), |s.free| - 1)
  }

  // The frames these pages take.
  ghost function Spent(s: Mem, kd: nat, file: File): nat
    requires s.free != {}
  {
    Cost(s.words, kd, Asked(s, kd, file)[..Loaded(s, kd, file)])
  }

  lemma CloneCost(s: Mem, dirs: set<nat>, kd: nat, pages: seq<nat>)
    requires Owned(s, dirs) && kd in dirs && s.free != {}
    ensures Absent(Start(s, kd).mem.words, Lowest(s.free), pages) == Absent(s.words, kd, pages)
    ensures Cost(Start(s, kd).mem.words, Lowest(s.free), pages) == Cost(s.words, kd, pages)
  {
    CloneMeaning(s, dirs, kd);
    hide Word, CloneDirectory, UsesSlot;
  }

  // A loop that halts has one frame left over.
  lemma BreakFits(s: Mem, dirs: set<nat>, kd: nat, all: seq<nat>, k: nat)
    requires Owned(s, dirs) && kd in dirs && s.free != {} && ArePages(all)
    requires Breaks(Start(s, kd).mem.words, Lowest(s.free), all, |s.free| - 1, k)
    ensures k < |all| && k == Fit(s.words, kd, all, |s.free| - 1) && Cost(s.words, kd, all[..k]) < |s.free| - 1
  {
    hide Owned, Cost, CloneDirectory, Fit;
    CloneCost(s, dirs, kd, all[..k]);
    CloneCost(s, dirs, kd, all[..k + 1]);
    FitUnique(s.words, kd, all, |s.free| - 1, k);
  }

  // A loop that ends otherwise has loaded what fits, and spent the rest of its budget on it
  // if it stopped short.
  lemma EndFits(s: Mem, dirs: set<nat>, kd: nat, l: Load, all: seq<nat>)
    requires Owned(s, dirs) && kd in dirs && s.free != {} && ArePages(all) && l.pages <= all
    requires Costed(Start(s, kd).mem, dirs + {Lowest(s.free)}, Lowest(s.free), l)
    requires l.pages != all ==> l.mem.free == {}
    ensures
      var k := |l.pages|;
      && l.pages == all[..k] && k == Fit(s.words, kd, all, |s.free| - 1)
      && (k < |all| ==> Cost(s.words, kd, all[..k]) == |s.free| - 1)
  {
    hide Owned, Costed, Cost, CloneDirectory, Fit;
    var c, s0, k := Lowest(s.free), Start(s, kd).mem, |l.pages|;
    assert |s0.free| == |s.free| - 1 by { CloneFree(s, kd); }
    assert all[..k] == l.pages;
    CostLeaves(s0, dirs + {c}, c, l);
    CloneCost(s, dirs, kd, l.pages);
    if k < |all| {
      CostGrows(s.words, kd, all, k, k + 1);
    }
    FitUnique(s.words, kd, all, |s.free| - 1, k);
  }

  lemma FinalFits(s: Mem, dirs: set<nat>, kd: nat, file: File, n: nat)
    requires Ready(s, dirs, kd, file, n) && Loadable(s, kd, file, n, ReadEhdr(s.words, kd, file).phnum) && s.free != {}
    ensures
      var r, all, k := Final(s, kd, file), Asked(s, kd, file), Loaded(s, kd, file);
      && (r.Going? ==> k == |all| && Whole(s, kd, file))
      && (r.Failed? ==> (k == |all| && !Whole(s, kd, file)) || (k < |all| && Spent(s, kd, file) == |s.free| - 1))
      && (r.Stopped? ==> k < |all| && Spent(s, kd, file) < |s.free| - 1)
      && (!r.Stopped? ==> r.load.pages == all[..k])
  {
    hide Ready, Costed, LoadHeaders, ReadEhdr, Planned, AllComplete, Cost, Fit, Breaks, CloneDirectory;
    ReadyOwned(s, dirs, kd, file, n);
    var count := ReadEhdr(s.words, kd, file).phnum;
    PlannedArePages(s, kd, file, n, count);
    HeadersEnd(s, dirs, kd, file, n, count);
    var r, all := Final(s, kd, file), Asked(s, kd, file);
    if r.Stopped? {
      assert |Start(s, kd).mem.free| == |s.free| - 1 by { CloneFree(s, kd); }
      var k: nat :| Breaks(Start(s, kd).mem.words, Lowest(s.free), all, |s.free| - 1, k);
      BreakFits(s, dirs, kd, all, k);
    } else {
      EndFits(s, dirs, kd, r.load, all);
    }
  }

  // The input decides. A load that starts returns 0 exactly when all pages fit and no header
  // is cut off; it returns -1 exactly when all fit but a header is cut off, or the frames are
  // used up to the last one before a page; it halts exactly when one frame is left over and
  // the next page needs two.
  lemma OutcomeIff(s: Mem, dirs: set<nat>, kd: nat, file: File, n: nat, own: Span)
    requires Setting(s, dirs, kd, file, n, own) && Loadable(s, kd, file, n, ReadEhdr(s.words, kd, file).phnum)
    ensures LoadFile(s, kd, file).Rejected? <==> !Tried(s, kd, file)
    ensures Tried(s, kd, file) ==>
      var r, all, k := LoadFile(s, kd, file), Asked(s, kd, file), Loaded(s, kd, file);
      && (r.Success? <==> k == |all| && Whole(s, kd, file))
      && (r.Failure? <==> (k == |all| && !Whole(s, kd, file)) || (k < |all| && Spent(s, kd, file) == |s.free| - 1))
      && (r.Halted? <==> k < |all| && Spent(s, kd, file) < |s.free| - 1)
  {
    hide Ready, LoadHeaders, ReadEhdr, Asked, Whole, Loaded, Spent, Loadable, Accepted, Add32;
    if s.free != {} {
      FinalFits(s, dirs, kd, file, n);
    }
  }

  // ---------- what a failing load leaves ----------

  // The frames that stay taken: a table for each absent slot of the pages loaded, and the
  // blocks beyond the 64 tracked.
  ghost function Leak(s: Mem, kd: nat, file: File): int
    requires s.free != {}
  {
    var k := Loaded(s, kd, file);
    Spent(s, kd, file) - k + if k > 64 then k - 64 else 0
  }

  lemma FailureLeaks(s: Mem, dirs: set<nat>, kd: nat, file: File, n: nat, own: Span)
    requires Setting(s, dirs, kd, file, n, own) && Loadable(s, kd, file, n, ReadEhdr(s.words, kd, file).phnum)
    requires LoadFile(s, kd, file).Failure?
    ensures s.free != {} && LoadFile(s, kd, file).mem.free <= s.free
    ensures |s.free| - |LoadFile(s, kd, file).mem.free| == Leak(s, kd, file)
  {
    hide Ready, LoadFile, ReadEhdr, Final, Loadable, GoodHeaders, Planned, Absent, NewTables, Fit, Owned, CloneDirectory;
    EndedMeans(s, kd, file);
    LoadableIsGood(s, dirs, kd, file, n);
    ReadyOwned(s, dirs, kd, file, n);
    FinalFits(s, dirs, kd, file, n);
    FailureAccount(s, dirs, kd, file);
    FinalTables(s, dirs, kd, file, n);
  }

  lemma FinalTables(s: Mem, dirs: set<nat>, kd: nat, file: File, n: nat)
    requires Ready(s, dirs, kd, file, n) && Loadable(s, kd, file, n, ReadEhdr(s.words, kd, file).phnum)
    requires s.free != {} && !Final(s, kd, file).Stopped?
    ensures
      var l := Final(s, kd, file).load;
      && |l.blocks| == |l.pages|
      && NewTables(Start(s, kd).mem.words, l.mem.words, Lowest(s.free)) == Absent(s.words, kd, l.pages)
  {
    hide Ready, LoadHeaders, ReadEhdr, Planned, AllComplete, NewTables, Absent, Owned, Untabled, CloneDirectory, TablesAre;
    ReadyOwned(s, dirs, kd, file, n);
    HeadersEnd(s, dirs, kd, file, n, ReadEhdr(s.words, kd, file).phnum);
    var c, l := Lowest(s.free), Final(s, kd, file).load;
    CostLeaves(Start(s, kd).mem, dirs + {c}, c, l);
    CloneCost(s, dirs, kd, l.pages);
  }

  // A failing load gives back all it took exactly when the pages it got to need no new table
  // and are at most 64.
  lemma GivesBackIff(s: Mem, dirs: set<nat>, kd: nat, file: File, n: nat, own: Span)
    requires Setting(s, dirs, kd, file, n, own) && Loadable(s, kd, file, n, ReadEhdr(s.words, kd, file).phnum)
    requires LoadFile(s, kd, file).Failure?
    ensures s.free != {}
    ensures LoadFile(s, kd, file).mem.free == s.free <==> Spent(s, kd, file) == Loaded(s, kd, file) <= 64
  {
    hide Setting, LoadFile, ReadEhdr, Loadable, Planned, Fit, Absent, Asked;
    FailureLeaks(s, dirs, kd, file, n, own);
    var free' := LoadFile(s, kd, file).mem.free;
    if |free'| == |s.free| {
      assert |s.free - free'| == |s.free| - |free'|;
      assert s.free == free' + (s.free - free');
    }
  }

  // After a failing load, page `q` of an older directory shows a frame that was freed exactly
  // when `q` is among the pages loaded, lies in a table that directory shares with the kernel
  // directory, and its last block is among the first 64.
  lemma DanglesExactly(s: Mem, dirs: set<nat>, kd: nat, file: File, n: nat, own: Span, e: nat, q: nat)
    requires Setting(s, dirs, kd, file, n, own) && Loadable(s, kd, file, n, ReadEhdr(s.words, kd, file).phnum)
    requires LoadFile(s, kd, file).Failure? && e in dirs && q < PAGES && !Dangles(s, e, q)
    ensures s.free != {}
    ensures
      var pages := Asked(s, kd, file)[..Loaded(s, kd, file)];
      Dangles(LoadFile(s, kd, file).mem, e, q) <==>
        && q in pages && HasTable(s.words, kd, q / 1024) && (e == kd || Shares(s.words, kd, e, q / 1024))
        && LastPlace(pages, q) < 64
  {
    hide Ready, LoadFile, ReadEhdr, Final, Loadable, GoodHeaders, Asked, Loaded, HasTable, Shares, Dangles;
    EndedMeans(s, kd, file);
    LoadableIsGood(s, dirs, kd, file, n);
    ReadyOwned(s, dirs, kd, file, n);
    FinalFits(s, dirs, kd, file, n);
    DanglesIff(s, dirs, kd, file, e, q);
  }
}
