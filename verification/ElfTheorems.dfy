/**
  What `elf_load` guarantees (src/elf.c), from a state in which RAM is identity-mapped and
  the file lies in it: the new directory shows every loadable segment, and exactly which
  pages of the directories that were there before are affected.
 */
module ElfTheorems {
  import opened Words
  import opened Frames
  import opened Paging
  import opened AddressSpaces
  import opened MemoryRuns
  import opened IdentityMap
  import opened Bytes
  import opened ElfPages
  import opened ElfImage
  import opened Elf
  import opened ElfTrace
  import opened BitmapRam

  // What the loader relies on: `n` frames of RAM identity-mapped in the kernel directory, and
  // the file in RAM that nothing else uses.
  ghost predicate Ready(s: Mem, dirs: set<nat>, kd: nat, file: File, n: nat) {
    && Owned(s, dirs) && kd in dirs && n <= MAX_BLOCKS
    && Identity(s.words, kd, n) && FileHeld(s, dirs, file, n)
  }

  // Frame `g` holds bytes of the span.
  predicate FrameOf(own: Span, g: nat) {
    own.from < 4096 * g + 4096 && 4096 * g < own.to
  }

  // The state the loader starts from. `own` is where the allocator keeps its bitmap: frames
  // in use, and clear of the file, so that allocating does not change what is loaded.
  ghost predicate Setting(s: Mem, dirs: set<nat>, kd: nat, file: File, n: nat, own: Span) {
    && Ready(s, dirs, kd, file, n)
    && |s.words| == 1024 * n && own.from <= own.to <= 4096 * n
    && (forall g: nat :: FrameOf(own, g) ==> g !in s.free && Untabled(s.words, dirs, g))
    && Clear(Span(file.impl, file.impl + file.length), own)
  }

  // Program header `i` of the file as it lies in memory before the load.
  function Phdr(s: Mem, kd: nat, file: File, i: nat): Header {
    ReadPhdr(s.words, kd, file, PhdrOffset(ReadEhdr(s.words, kd, file), i))
  }

  predicate IsSegment(s: Mem, kd: nat, file: File, i: nat) {
    Complete(file, PhdrOffset(ReadEhdr(s.words, kd, file), i)) && Phdr(s, kd, file, i).kind == PT_LOAD
  }

  // Loadable segments are well formed and lie above RAM.
  ghost predicate Loadable(s: Mem, kd: nat, file: File, n: nat, count: nat) {
    forall i: nat :: i < count && IsSegment(s, kd, file, i) ==>
      WellFormed(Phdr(s, kd, file, i)) && Phdr(s, kd, file, i).First() >= n
  }

  predicate Disjoint(h: Header, g: Header) {
    h.First() + h.Count() <= g.First() || g.First() + g.Count() <= h.First() || h.Count() == 0 || g.Count() == 0
  }

  // No two segments share a page.
  ghost predicate PagesApart(s: Mem, kd: nat, file: File, count: nat) {
    forall i: nat, j: nat :: i < j < count && IsSegment(s, kd, file, i) && IsSegment(s, kd, file, j) ==>
      Disjoint(Phdr(s, kd, file, i), Phdr(s, kd, file, j))
  }

  // ---------- headers do not change while the load goes on ----------

  ghost predicate SameFile(m: Memory, m': Memory, file: File) {
    forall k: nat :: k < file.length ==> FileByte(m', file, k) == FileByte(m, file, k)
  }

  lemma ReadSame(m: Memory, m': Memory, d: nat, file: File, n: nat, offset: nat, size: nat)
    requires Identity(m, d, n) && Identity(m', d, n) && SameFile(m, m', file)
    requires file.impl + file.length <= 4096 * n && offset + size <= file.length
    ensures ReadBytes(m', d, file.impl + offset, size) == ReadBytes(m, d, file.impl + offset, size)
  {
    hide Identity, FileByte, ByteAt;
    var va := file.impl + offset;
    forall k | 0 <= k < size
      ensures ReadBytes(m', d, va, size)[k] == ReadBytes(m, d, va, size)[k]
    {
      FileByteAt(m, d, file, n, offset + k);
      FileByteAt(m', d, file, n, offset + k);
    }
  }

  lemma ReadPhdrSame(m: Memory, m': Memory, d: nat, file: File, n: nat, offset: word)
    requires Identity(m, d, n) && Identity(m', d, n) && SameFile(m, m', file) && n <= MAX_BLOCKS
    requires file.impl + file.length <= 4096 * n && Complete(file, offset)
    ensures ReadPhdr(m', d, file, offset) == ReadPhdr(m, d, file, offset)
  {
    hide Identity, FileByte, ByteAt, ReadBytes, SameFile;
    assert offset + 32 <= file.length && Add32(file.impl, offset) == file.impl + offset;
    ReadSame(m, m', d, file, n, offset, 32);
  }

  // ---------- the state after some headers ----------

  ghost predicate InLoad(s0: Mem, dirs: set<nat>, kd: nat, c: nat, file: File, n: nat, l: Load) {
    && Account(s0, dirs, c, l) && KeepsData(dirs, s0, l.mem) && SameFile(s0.words, l.mem.words, file)
    && SourceReady(l.mem, dirs, c, file, n) && Identity(l.mem.words, kd, n)
  }

  lemma StartInLoad(s: Mem, dirs: set<nat>, kd: nat, file: File, n: nat)
    requires Ready(s, dirs, kd, file, n) && s.free != {}
    ensures InLoad(Start(s, kd).mem, dirs + {Lowest(s.free)}, kd, Lowest(s.free), file, n, Start(s, kd))
    ensures SameFile(s.words, Start(s, kd).mem.words, file)
  {
    var c, s0 := Lowest(s.free), Start(s, kd).mem;
    var dirs' := dirs + {c};
    StartAccounts(s, dirs, kd);
    CloneMeaning(s, dirs, kd);
    hide Word, Walk, CloneDirectory, Account, Owned, Untabled;
    assert SameOutside(s.words, s0.words, {c});
    forall p: nat | p < n
      ensures Walk(s0.words, c, p) == Walk(s.words, kd, p) && Walk(s0.words, kd, p) == Walk(s.words, kd, p)
    {
      CloneTranslates(s, dirs, kd, p);
      CloneKeepsWalk(s, dirs, kd, kd, p);
    }
    forall p: nat | FileFrame(file, p)
      ensures p !in s0.free && Untabled(s0.words, dirs', p)
    {
      CloneKeepsUntabled(s, dirs, kd, p);
    }
    forall k: nat | k < file.length
      ensures FileByte(s0.words, file, k) == FileByte(s.words, file, k)
    {
      assert FileFrame(file, (file.impl + k) / 4096);
    }
  }

  // The file part of a segment does not depend on when the file is looked at.
  lemma ShownRebase(m0: Memory, m1: Memory, s: Mem, dirs: set<nat>, c: nat, file: File, h: Header)
    requires SameFile(m0, m1, file) && WellFormed(h) && Shown(m1, s, dirs, c, file, h)
    ensures Shown(m0, s, dirs, c, file, h)
  {
    hide FileByte, ByteAt, PageHeld;
    WellFormedPages(h, file.length);
    forall va: nat | 4096 * h.First() <= va < 4096 * (h.First() + h.Count())
      ensures SegmentByte(m0, s.words, c, file, h, va)
    {
      assert SegmentByte(m1, s.words, c, file, h, va);
    }
  }

  // One loadable segment more.
  lemma SegmentInLoad(s0: Mem, dirs: set<nat>, kd: nat, c: nat, file: File, n: nat, l: Load, h: Header)
    requires InLoad(s0, dirs, kd, c, file, n, l) && c in dirs && kd in dirs && n <= MAX_BLOCKS
    requires WellFormed(h) && h.First() >= n && LoadSegment(l, c, file, h).Going?
    ensures
      var l' := LoadSegment(l, c, file, h).load;
      && InLoad(s0, dirs, kd, c, file, n, l')
      && KeepsData(dirs, l.mem, l'.mem)
      && KeepsPages(dirs, c, l.mem.words, l'.mem.words, h.First(), h.Count())
      && Shown(s0.words, l'.mem, dirs, c, file, h)
  {
    hide Word, Walk, Owned, Untabled, LoadSegment, FileByte, Account, KeepsData, KeepsPages, Shown, FileHeld;
    SegmentLoads(s0, dirs, c, l, file, h, n);
    var l' := LoadSegment(l, c, file, h).load;
    ShownRebase(s0.words, l.mem.words, l'.mem, dirs, c, file, h);
    KeepsDataTransitive(dirs, s0, l.mem, l'.mem);
    SourceReadyKept(dirs, c, l.mem, l'.mem, file, n, h.First(), h.Count());
    IdentityKept(dirs, kd, c, l.mem.words, l'.mem.words, n, h.First(), h.Count());
    forall k: nat | k < file.length
      ensures FileByte(l'.mem.words, file, k) == FileByte(l.mem.words, file, k)
    {
      FileByteKept(dirs, l.mem, l'.mem, file, n, k);
    }
  }

  lemma IdentityKept(dirs: set<nat>, e: nat, c: nat, m: Memory, m': Memory, n: nat, first: nat, count: nat)
    requires KeepsPages(dirs, c, m, m', first, count) && e in dirs && first >= n && n <= PAGES
    requires Identity(m, e, n)
    ensures Identity(m', e, n)
  {
    hide Walk, Shares;
    forall p: nat | p < n
      ensures Walk(m', e, p) == Walk(m, e, p)
    {
      assert !Affected(m, c, e, p, first, count);
    }
  }

  // ---------- all headers ----------

  ghost predicate AllShown(s: Mem, kd: nat, file: File, dirs: set<nat>, c: nat, m0: Memory, l: Load, i: nat) {
    forall j: nat :: j < i && IsSegment(s, kd, file, j) ==> Shown(m0, l.mem, dirs, c, file, Phdr(s, kd, file, j))
  }

  lemma HeaderUnchanged(s: Mem, s0: Mem, dirs: set<nat>, kd: nat, c: nat, file: File, n: nat, l: Load, i: nat)
    requires InLoad(s0, dirs, kd, c, file, n, l) && n <= MAX_BLOCKS
    requires Identity(s.words, kd, n) && SameFile(s.words, l.mem.words, file)
    requires Complete(file, PhdrOffset(ReadEhdr(s.words, kd, file), i))
    ensures ReadPhdr(l.mem.words, kd, file, PhdrOffset(ReadEhdr(s.words, kd, file), i)) == Phdr(s, kd, file, i)
  {
    hide FileByte, ByteAt, Account, KeepsData, ReadPhdr, PhdrOffset, ReadEhdr, Complete, SameFile, Identity;
    ReadPhdrSame(s.words, l.mem.words, kd, file, n, PhdrOffset(ReadEhdr(s.words, kd, file), i));
  }

  lemma EarlierStayShown(s: Mem, kd: nat, file: File, dirs: set<nat>, c: nat, m0: Memory, l: Load, l': Load, n: nat, i: nat)
    requires AllShown(s, kd, file, dirs, c, m0, l, i) && c in dirs && IsSegment(s, kd, file, i)
    requires Loadable(s, kd, file, n, i + 1) && PagesApart(s, kd, file, i + 1)
    requires KeepsData(dirs, l.mem, l'.mem)
    requires KeepsPages(dirs, c, l.mem.words, l'.mem.words, Phdr(s, kd, file, i).First(), Phdr(s, kd, file, i).Count())
    ensures AllShown(s, kd, file, dirs, c, m0, l', i)
  {
    hide IsSegment, Phdr, WellFormed, KeepsData, KeepsPages, Shown;
    var h := Phdr(s, kd, file, i);
    forall j: nat | j < i && IsSegment(s, kd, file, j)
      ensures Shown(m0, l'.mem, dirs, c, file, Phdr(s, kd, file, j))
    {
      var g := Phdr(s, kd, file, j);
      WellFormedPages(g, file.length);
      ShownKept(m0, l.mem, l'.mem, dirs, c, file, g, h.First(), h.Count());
    }
  }

  // What program header `i` does to the load.
  ghost predicate HeaderEffect(s: Mem, kd: nat, file: File, dirs: set<nat>, c: nat, l: Load, l': Load, i: nat) {
    var h := Phdr(s, kd, file, i);
    if IsSegment(s, kd, file, i)
    then KeepsData(dirs, l.mem, l'.mem) && KeepsPages(dirs, c, l.mem.words, l'.mem.words, h.First(), h.Count())
    else l' == l
  }

  lemma HeaderShown(s: Mem, s0: Mem, dirs: set<nat>, kd: nat, c: nat, file: File, n: nat, l: Load, i: nat)
    requires InLoad(s0, dirs, kd, c, file, n, l) && c in dirs && kd in dirs && n <= MAX_BLOCKS
    requires Identity(s.words, kd, n) && SameFile(s.words, l.mem.words, file)
    requires Loadable(s, kd, file, n, i + 1)
    requires LoadHeader(l, kd, c, file, PhdrOffset(ReadEhdr(s.words, kd, file), i)).Going?
    ensures
      var l' := LoadHeader(l, kd, c, file, PhdrOffset(ReadEhdr(s.words, kd, file), i)).load;
      && InLoad(s0, dirs, kd, c, file, n, l')
      && HeaderEffect(s, kd, file, dirs, c, l, l', i)
      && (IsSegment(s, kd, file, i) ==> Shown(s0.words, l'.mem, dirs, c, file, Phdr(s, kd, file, i)))
      && Complete(file, PhdrOffset(ReadEhdr(s.words, kd, file), i))
  {
    hide Word, Walk, ReadPhdr, ReadEhdr, PhdrOffset, WellFormed, LoadSegment, InLoad, KeepsData, KeepsPages, Shown, Identity, SameFile, Add32;
    HeaderUnchanged(s, s0, dirs, kd, c, file, n, l, i);
    if IsSegment(s, kd, file, i) {
      SegmentInLoad(s0, dirs, kd, c, file, n, l, Phdr(s, kd, file, i));
    }
  }

  // ---------- the whole walk ----------

  // Page `q` belongs to one of the first `i` segments.
  ghost predicate InSomeSegment(s: Mem, kd: nat, file: File, i: nat, q: nat) {
    exists j: nat :: j < i && IsSegment(s, kd, file, j)
      && Phdr(s, kd, file, j).First() <= q < Phdr(s, kd, file, j).First() + Phdr(s, kd, file, j).Count()
  }

  ghost predicate AfterHeaders(s: Mem, s0: Mem, dirs: set<nat>, kd: nat, c: nat, file: File, n: nat, l: Load, i: nat) {
    && InLoad(s0, dirs, kd, c, file, n, l)
    && (PagesApart(s, kd, file, i) ==> AllShown(s, kd, file, dirs, c, s0.words, l, i))
    && (forall j: nat :: j < i ==> Complete(file, PhdrOffset(ReadEhdr(s.words, kd, file), j)))
  }

  lemma AfterNextHeader(s: Mem, s0: Mem, dirs: set<nat>, kd: nat, c: nat, file: File, n: nat, l: Load, i: nat)
    requires AfterHeaders(s, s0, dirs, kd, c, file, n, l, i) && c in dirs && kd in dirs && n <= MAX_BLOCKS
    requires Identity(s.words, kd, n) && SameFile(s.words, s0.words, file) && Loadable(s, kd, file, n, i + 1)
    requires LoadHeader(l, kd, c, file, PhdrOffset(ReadEhdr(s.words, kd, file), i)).Going?
    ensures AfterHeaders(s, s0, dirs, kd, c, file, n, LoadHeader(l, kd, c, file, PhdrOffset(ReadEhdr(s.words, kd, file), i)).load, i + 1)
  {
    hide Word, Walk, LoadHeader, IsSegment, Phdr, PhdrOffset, ReadEhdr, WellFormed, InLoad, KeepsData, KeepsPages,
         HeaderEffect, Loadable, PagesApart, AllShown, Shown, Identity, SameFile, Complete;
    var l' := LoadHeader(l, kd, c, file, PhdrOffset(ReadEhdr(s.words, kd, file), i)).load;
    SameFileInLoad(s.words, s0, dirs, kd, c, file, n, l);
    HeaderShown(s, s0, dirs, kd, c, file, n, l, i);
    if PagesApart(s, kd, file, i + 1) {
      ApartPrefix(s, kd, file, i);
      ShownNext(s, kd, file, dirs, c, s0.words, l, l', n, i);
    }
  }

  lemma SameFileInLoad(m: Memory, s0: Mem, dirs: set<nat>, kd: nat, c: nat, file: File, n: nat, l: Load)
    requires SameFile(m, s0.words, file) && InLoad(s0, dirs, kd, c, file, n, l)
    ensures SameFile(m, l.mem.words, file)
  {
    hide FileByte, Account, KeepsData, SourceReady, Identity;
  }

  lemma ApartPrefix(s: Mem, kd: nat, file: File, i: nat)
    requires PagesApart(s, kd, file, i + 1)
    ensures PagesApart(s, kd, file, i)
  {
    hide IsSegment, Phdr;
  }

  lemma ShownNext(s: Mem, kd: nat, file: File, dirs: set<nat>, c: nat, m0: Memory, l: Load, l': Load, n: nat, i: nat)
    requires AllShown(s, kd, file, dirs, c, m0, l, i) && c in dirs && HeaderEffect(s, kd, file, dirs, c, l, l', i)
    requires IsSegment(s, kd, file, i) ==> Shown(m0, l'.mem, dirs, c, file, Phdr(s, kd, file, i))
    requires Loadable(s, kd, file, n, i + 1) && PagesApart(s, kd, file, i + 1)
    ensures AllShown(s, kd, file, dirs, c, m0, l', i + 1)
  {
    hide IsSegment, Phdr, WellFormed, KeepsData, KeepsPages, Shown;
    if IsSegment(s, kd, file, i) {
      EarlierStayShown(s, kd, file, dirs, c, m0, l, l', n, i);
    }
  }

  lemma {:induction false} AfterAllHeaders(s: Mem, dirs: set<nat>, kd: nat, file: File, n: nat, i: nat)
    requires Ready(s, dirs, kd, file, n) && s.free != {} && Loadable(s, kd, file, n, i)
    requires LoadHeaders(Start(s, kd), kd, Lowest(s.free), file, ReadEhdr(s.words, kd, file), i).Going?
    ensures AfterHeaders(s, Start(s, kd).mem, dirs + {Lowest(s.free)}, kd, Lowest(s.free), file, n,
                         LoadHeaders(Start(s, kd), kd, Lowest(s.free), file, ReadEhdr(s.words, kd, file), i).load, i)
    decreases i
  {
    hide Word, Walk, LoadHeader, IsSegment, Phdr, PhdrOffset, ReadEhdr, WellFormed, InLoad, Identity, SameFile, Shares, FileHeld, Owned;
    StartInLoad(s, dirs, kd, file, n);
    if i > 0 {
      AfterAllHeaders(s, dirs, kd, file, n, i - 1);
      var l := LoadHeaders(Start(s, kd), kd, Lowest(s.free), file, ReadEhdr(s.words, kd, file), i - 1).load;
      AfterNextHeader(s, Start(s, kd).mem, dirs + {Lowest(s.free)}, kd, Lowest(s.free), file, n, l, i - 1);
    }
  }

  // ---------- the theorems ----------

  lemma SuccessMeans(s: Mem, dirs: set<nat>, kd: nat, file: File, n: nat)
    requires Ready(s, dirs, kd, file, n) && LoadFile(s, kd, file).Success?
    requires Loadable(s, kd, file, n, ReadEhdr(s.words, kd, file).phnum)
    ensures
      var r, e, c := LoadFile(s, kd, file), ReadEhdr(s.words, kd, file), Lowest(s.free);
      LoadHeaders(Start(s, kd), kd, c, file, e, e.phnum).Going? &&
      var l := LoadHeaders(Start(s, kd), kd, c, file, e, e.phnum).load;
      && r.mem == l.mem && r.pd == c && r.entry == e.entry && Accepted(e)
      && AfterHeaders(s, Start(s, kd).mem, dirs + {c}, kd, c, file, n, l, e.phnum)
      && SameFile(s.words, Start(s, kd).mem.words, file)
  {
    hide Word, Walk, LoadHeaders, ReadEhdr, Ready, AfterHeaders, Loadable, InLoad, SameFile, Add32;
    AfterAllHeaders(s, dirs, kd, file, n, ReadEhdr(s.words, kd, file).phnum);
    StartInLoad(s, dirs, kd, file, n);
  }

  // The words the loader writes: every loadable segment, its file bytes and then zeros.
  lemma ImageWords(s: Mem, dirs: set<nat>, kd: nat, file: File, n: nat, i: nat, k: nat)
    requires Ready(s, dirs, kd, file, n) && LoadFile(s, kd, file).Success?
    requires i < ReadEhdr(s.words, kd, file).phnum
    requires Loadable(s, kd, file, n, ReadEhdr(s.words, kd, file).phnum)
    requires PagesApart(s, kd, file, ReadEhdr(s.words, kd, file).phnum)
    requires Phdr(s, kd, file, i).kind == PT_LOAD && k < Phdr(s, kd, file, i).memsz
    requires Phdr(s, kd, file, i).offset + Phdr(s, kd, file, i).filesz <= file.length
    ensures
      var r, h := LoadFile(s, kd, file), Phdr(s, kd, file, i);
      ByteAt(r.mem.words, r.pd, h.vaddr + k)
      == if k < h.filesz then FileByte(s.words, file, h.offset + k) else 0
  {
    hide LoadFile, LoadHeaders, ReadEhdr, Phdr, Ready, FileByte, ByteAt, Shown, WellFormed, PagesApart, AfterHeaders,
         Loadable, SameFile;
    SuccessMeans(s, dirs, kd, file, n);
    var h, e, c := Phdr(s, kd, file, i), ReadEhdr(s.words, kd, file), Lowest(s.free);
    var l := LoadHeaders(Start(s, kd), kd, c, file, e, e.phnum).load;
    SegmentAfter(s, Start(s, kd).mem, dirs + {c}, kd, c, file, n, l, e.phnum, i);
    ShownBytes(s.words, Start(s, kd).mem.words, l.mem, dirs + {c}, c, file, h, k);
  }

  lemma SegmentAfter(s: Mem, s0: Mem, dirs: set<nat>, kd: nat, c: nat, file: File, n: nat, l: Load, count: nat, i: nat)
    requires AfterHeaders(s, s0, dirs, kd, c, file, n, l, count) && PagesApart(s, kd, file, count)
    requires Loadable(s, kd, file, n, count) && i < count && Phdr(s, kd, file, i).kind == PT_LOAD
    ensures Shown(s0.words, l.mem, dirs, c, file, Phdr(s, kd, file, i)) && WellFormed(Phdr(s, kd, file, i))
  {
    hide InLoad, PagesApart, Shown, WellFormed, Complete, ReadEhdr, Phdr, PhdrOffset;
    assert Complete(file, PhdrOffset(ReadEhdr(s.words, kd, file), i));
    assert IsSegment(s, kd, file, i);
  }

  lemma ShownBytes(m: Memory, m0: Memory, s': Mem, dirs: set<nat>, c: nat, file: File, h: Header, k: nat)
    requires SameFile(m, m0, file) && Shown(m0, s', dirs, c, file, h) && WellFormed(h)
    requires k < h.memsz && h.offset + h.filesz <= file.length
    ensures ByteAt(s'.words, c, h.vaddr + k) == if k < h.filesz then FileByte(m, file, h.offset + k) else 0
  {
    hide ByteAt, FileByte, PageHeld;
    WellFormedPages(h, file.length);
    assert SegmentByte(m0, s'.words, c, file, h, h.vaddr + k);
  }

  // ---------- the directories that were there before ----------

  // Loadable headers do not change while the load goes on, so each is well formed when its
  // turn comes.
  lemma LoadableIsGood(s: Mem, dirs: set<nat>, kd: nat, file: File, n: nat)
    requires Ready(s, dirs, kd, file, n) && Loadable(s, kd, file, n, ReadEhdr(s.words, kd, file).phnum)
    ensures GoodHeaders(s, kd, file)
  {
    hide LoadHeaders, ReadEhdr, ReadPhdr, PhdrOffset, WellFormed, Complete, Ready;
    if s.free != {} {
      var e, c := ReadEhdr(s.words, kd, file), Lowest(s.free);
      forall j: nat | j < e.phnum && LoadHeaders(Start(s, kd), kd, c, file, e, j).Going? && Complete(file, PhdrOffset(e, j))
        ensures ReadPhdr(LoadHeaders(Start(s, kd), kd, c, file, e, j).load.mem.words, kd, file, PhdrOffset(e, j)) == Phdr(s, kd, file, j)
      {
        HeaderAtTurn(s, dirs, kd, file, n, j);
      }
    }
  }

  lemma HeaderAtTurn(s: Mem, dirs: set<nat>, kd: nat, file: File, n: nat, j: nat)
    requires Ready(s, dirs, kd, file, n) && s.free != {} && Loadable(s, kd, file, n, j)
    requires LoadHeaders(Start(s, kd), kd, Lowest(s.free), file, ReadEhdr(s.words, kd, file), j).Going?
    requires Complete(file, PhdrOffset(ReadEhdr(s.words, kd, file), j))
    ensures
      var e := ReadEhdr(s.words, kd, file);
      var l := LoadHeaders(Start(s, kd), kd, Lowest(s.free), file, e, j).load;
      ReadPhdr(l.mem.words, kd, file, PhdrOffset(e, j)) == Phdr(s, kd, file, j)
  {
    hide LoadHeaders, ReadEhdr, ReadPhdr, PhdrOffset, WellFormed, Complete, InLoad, Loadable, AllShown, PagesApart, Identity, SameFile,
         Owned, FileHeld;
    AfterAllHeaders(s, dirs, kd, file, n, j);
    StartInLoad(s, dirs, kd, file, n);
    var c, s0 := Lowest(s.free), Start(s, kd).mem;
    var l := LoadHeaders(Start(s, kd), kd, c, file, ReadEhdr(s.words, kd, file), j).load;
    SameFileInLoad(s.words, s0, dirs + {c}, kd, c, file, n, l);
    HeaderUnchanged(s, s0, dirs + {c}, kd, c, file, n, l, j);
  }

  lemma {:induction false} PagesListed(l: Load, c: nat, first: nat, k: nat, q: nat)
    ensures
      var r := LoadPages(l, c, first, k);
      && (r.Going? ==> (q in r.load.pages <==> q in l.pages || first <= q < first + k))
      && (r.Failed? ==> (q in r.load.pages ==> q in l.pages || first <= q < first + k))
    decreases k
  {
    if k > 0 {
      PagesListed(l, c, first, k - 1, q);
    }
  }

  // The pages a load lists are those of its segments: all of them when it goes through, and
  // no others when it fails.
  lemma {:induction false} HeadersListed(s: Mem, dirs: set<nat>, kd: nat, file: File, n: nat, i: nat, q: nat)
    requires Ready(s, dirs, kd, file, n) && s.free != {} && Loadable(s, kd, file, n, i)
    ensures
      var r := LoadHeaders(Start(s, kd), kd, Lowest(s.free), file, ReadEhdr(s.words, kd, file), i);
      && (r.Going? ==> (q in r.load.pages <==> InSomeSegment(s, kd, file, i, q)))
      && (r.Failed? ==> (q in r.load.pages ==> InSomeSegment(s, kd, file, i, q)))
    decreases i
  {
    hide ReadEhdr, ReadPhdr, PhdrOffset, WellFormed, Complete, Ready, LoadPages, CopyData, Loadable;
    if i > 0 {
      LoadablePrefix(s, kd, file, n, i - 1);
      HeadersListed(s, dirs, kd, file, n, i - 1, q);
      var r := LoadHeaders(Start(s, kd), kd, Lowest(s.free), file, ReadEhdr(s.words, kd, file), i - 1);
      InSomeSegmentNext(s, kd, file, i - 1, q);
      if r.Going? && Complete(file, PhdrOffset(ReadEhdr(s.words, kd, file), i - 1)) {
        HeaderAtTurn(s, dirs, kd, file, n, i - 1);
        var h := Phdr(s, kd, file, i - 1);
        PagesListed(r.load, Lowest(s.free), h.First(), h.Count(), q);
      }
    }
  }

  lemma LoadablePrefix(s: Mem, kd: nat, file: File, n: nat, i: nat)
    requires Loadable(s, kd, file, n, i + 1)
    ensures Loadable(s, kd, file, n, i)
  {
    hide IsSegment, Phdr, WellFormed;
  }

  lemma InSomeSegmentNext(s: Mem, kd: nat, file: File, i: nat, q: nat)
    ensures InSomeSegment(s, kd, file, i + 1, q) <==>
            || InSomeSegment(s, kd, file, i, q)
            || (IsSegment(s, kd, file, i)
                && Phdr(s, kd, file, i).First() <= q < Phdr(s, kd, file, i).First() + Phdr(s, kd, file, i).Count())
  {
    hide IsSegment, Phdr;
  }

  // A segment page whose slot the kernel directory had present.
  ghost predicate Exposed(s: Mem, kd: nat, file: File, e: nat, q: nat) {
    && InSomeSegment(s, kd, file, ReadEhdr(s.words, kd, file).phnum, q)
    && HasTable(s.words, kd, q / 1024) && (e == kd || Shares(s.words, kd, e, q / 1024))
  }

  // After a load that returns 0, an exposed page of a directory that was there before shows a
  // frame that was free, the new program's; every other page is translated as before. After
  // a load that fails at least every page that is not exposed is.
  lemma ParentsAfter(s: Mem, dirs: set<nat>, kd: nat, file: File, n: nat, own: Span, e: nat, q: nat)
    requires Setting(s, dirs, kd, file, n, own) && Ended(LoadFile(s, kd, file)) && e in dirs && q < PAGES
    requires Loadable(s, kd, file, n, ReadEhdr(s.words, kd, file).phnum)
    ensures
      var r := LoadFile(s, kd, file);
      && (!Exposed(s, kd, file, e, q) ==> Walk(r.mem.words, e, q) == Walk(s.words, e, q))
      && (r.Success? && Exposed(s, kd, file, e, q) ==>
            && Walk(r.mem.words, e, q) == Walk(r.mem.words, r.pd, q)
            && Walk(r.mem.words, e, q).Some? && Walk(r.mem.words, e, q).value.frame in s.free)
  {
    hide Word, Walk, Owned, LoadHeaders, ReadEhdr, GoodHeaders, HasTable, Shares, InSomeSegment, Loadable, FileHeld, Identity, Add32;
    LoadableIsGood(s, dirs, kd, file, n);
    DirectoriesAfter(s, dirs, kd, file, e, q);
    HeadersListed(s, dirs, kd, file, n, ReadEhdr(s.words, kd, file).phnum, q);
  }

  // ---------- with the bitmap in RAM ----------

  ghost function FramesOf(own: Span): set<nat> {
    set g: nat | g < own.to && FrameOf(own, g)
  }

  lemma {:induction false} PutOutside(m: Memory, at: nat, data: seq<byte>, own: Span)
    requires |m| % 1024 == 0 && own.to <= 4 * |m| && own.from <= at && at + |data| <= own.to
    ensures SameOutside(m, PutBytes(m, at, data), FramesOf(own))
    decreases |data|
  {
    hide Word, SetByte;
    if data != [] {
      var n := |data| - 1;
      PutOutside(m, at, data[..n], own);
      var m1 := PutBytes(m, at, data[..n]);
      var f := (at + n) / 4096;
      InMemoryFrame(m1, at + n);
      SetByteMeaning(m1, f, (at + n) % 4096, data[n]);
      assert FrameOf(own, f) && f in FramesOf(own);
    }
  }

  // Frames in use and without tables stay so for the new directory too.
  lemma InUseAfter(s: Mem, dirs: set<nat>, kd: nat, file: File, g: nat)
    requires Owned(s, dirs) && kd in dirs && GoodHeaders(s, kd, file) && Ended(LoadFile(s, kd, file))
    requires g !in s.free && Untabled(s.words, dirs, g)
    ensures s.free != {} && Untabled(LoadFile(s, kd, file).mem.words, dirs + {Lowest(s.free)}, g)
  {
    hide Word, Owned, Untabled, Final, LoadFile, GoodHeaders, CloneDirectory, TracedAt;
    EndedMeans(s, kd, file);
    FinalTraced(s, dirs, kd, file);
    CloneFree(s, kd);
    CloneKeepsUntabled(s, dirs, kd, g);
  }

  // The frame behind a page of a segment was free, so it is none of the bitmap's.
  lemma SegmentFrame(s: Mem, dirs: set<nat>, kd: nat, file: File, n: nat, q: nat)
    requires Ready(s, dirs, kd, file, n) && LoadFile(s, kd, file).Success?
    requires Loadable(s, kd, file, n, ReadEhdr(s.words, kd, file).phnum) && q < PAGES
    requires InSomeSegment(s, kd, file, ReadEhdr(s.words, kd, file).phnum, q)
    ensures
      var r := LoadFile(s, kd, file);
      r.pd == Lowest(s.free) && Walk(r.mem.words, r.pd, q).Some? && Walk(r.mem.words, r.pd, q).value.frame in s.free
  {
    hide Word, Walk, Owned, LoadHeaders, ReadEhdr, GoodHeaders, HasTable, Shares, InSomeSegment, Loadable, FileHeld, Identity, Add32;
    LoadableIsGood(s, dirs, kd, file, n);
    DirectoriesAfter(s, dirs, kd, file, kd, q);
    HeadersListed(s, dirs, kd, file, n, ReadEhdr(s.words, kd, file).phnum, q);
  }

  // After a load that returns 0, walking the new directory shows every loadable segment: its
  // file bytes, then zeros up to its size in memory. This is RAM as it is, the bitmap
  // included, whatever that holds before and after.
  lemma ImageShown(s: Mem, dirs: set<nat>, kd: nat, file: File, n: nat, own: Span, i: nat, k: nat, before: seq<byte>, after: seq<byte>)
    requires Setting(s, dirs, kd, file, n, own) && LoadFile(s, kd, file).Success?
    requires |before| == |after| == own.to - own.from
    requires i < ReadEhdr(s.words, kd, file).phnum
    requires Loadable(s, kd, file, n, ReadEhdr(s.words, kd, file).phnum)
    requires PagesApart(s, kd, file, ReadEhdr(s.words, kd, file).phnum)
    requires Phdr(s, kd, file, i).kind == PT_LOAD && k < Phdr(s, kd, file, i).memsz
    requires Phdr(s, kd, file, i).offset + Phdr(s, kd, file, i).filesz <= file.length
    ensures
      var r, h := LoadFile(s, kd, file), Phdr(s, kd, file, i);
      ByteAt(PutBytes(r.mem.words, own.from, after), r.pd, h.vaddr + k)
      == if k < h.filesz then FileByte(PutBytes(s.words, own.from, before), file, h.offset + k) else 0
  {
    hide LoadFile, ReadEhdr, Phdr, IsSegment, Loadable, PagesApart, PutBytes, ByteAt, FileByte, Walk, Word, Ready, Owned, Untabled, InSomeSegment, GoodHeaders;
    var r, h := LoadFile(s, kd, file), Phdr(s, kd, file, i);
    ImageWords(s, dirs, kd, file, n, i, k);
    if k < h.filesz {
      FileByteSeen(s.words, file, own, before, h.offset + k);
    }
    ReadyOwned(s, dirs, kd, file, n);
    LoadableIsGood(s, dirs, kd, file, n);
    var q := (h.vaddr + k) / 4096;
    SegmentOnSuccess(s, dirs, kd, file, n, i);
    SegmentPage(s, kd, file, n, i, k);
    SegmentFrame(s, dirs, kd, file, n, q);
    forall g | g in FramesOf(own)
      ensures Untabled(r.mem.words, dirs + {r.pd}, g)
    {
      InUseAfter(s, dirs, kd, file, g);
    }
    assert |r.mem.words| == |s.words| by { LoadKeepsSize(s, dirs, kd, file); }
    ShownThrough(r.mem.words, dirs + {r.pd}, r.pd, own, after, h.vaddr + k);
  }

  // A load that returns 0 has read every program header.
  lemma SegmentOnSuccess(s: Mem, dirs: set<nat>, kd: nat, file: File, n: nat, i: nat)
    requires Ready(s, dirs, kd, file, n) && LoadFile(s, kd, file).Success?
    requires Loadable(s, kd, file, n, ReadEhdr(s.words, kd, file).phnum)
    requires i < ReadEhdr(s.words, kd, file).phnum && Phdr(s, kd, file, i).kind == PT_LOAD
    ensures IsSegment(s, kd, file, i)
  {
    hide LoadFile, LoadHeaders, ReadEhdr, Phdr, Ready, InLoad, PagesApart, AllShown, Loadable, SameFile, Complete, PhdrOffset;
    SuccessMeans(s, dirs, kd, file, n);
  }

  lemma ReadyOwned(s: Mem, dirs: set<nat>, kd: nat, file: File, n: nat)
    requires Ready(s, dirs, kd, file, n)
    ensures Owned(s, dirs) && kd in dirs && n <= MAX_BLOCKS
  {
  }

  lemma LoadKeepsSize(s: Mem, dirs: set<nat>, kd: nat, file: File)
    requires Owned(s, dirs) && kd in dirs && GoodHeaders(s, kd, file) && Ended(LoadFile(s, kd, file))
    ensures |LoadFile(s, kd, file).mem.words| == |s.words|
  {
    hide Word, Owned, Untabled, Final, LoadFile, GoodHeaders, CloneDirectory, TracedAt;
    EndedMeans(s, kd, file);
    FinalTraced(s, dirs, kd, file);
    CloneMeaning(s, dirs, kd);
  }

  lemma FileByteSeen(m: Memory, file: File, own: Span, data: seq<byte>, k: nat)
    requires |m| % 1024 == 0 && own.from <= own.to <= 4 * |m| && |data| == own.to - own.from
    requires Clear(Span(file.impl, file.impl + file.length), own) && k < file.length
    ensures FileByte(PutBytes(m, own.from, data), file, k) == FileByte(m, file, k)
  {
    hide PutBytes, Byte;
    PutMeaning(m, own.from, data, file.impl + k);
  }

  lemma SegmentPage(s: Mem, kd: nat, file: File, n: nat, i: nat, k: nat)
    requires Loadable(s, kd, file, n, ReadEhdr(s.words, kd, file).phnum) && i < ReadEhdr(s.words, kd, file).phnum
    requires IsSegment(s, kd, file, i) && k < Phdr(s, kd, file, i).memsz
    ensures
      var q := (Phdr(s, kd, file, i).vaddr + k) / 4096;
      q < PAGES && InSomeSegment(s, kd, file, ReadEhdr(s.words, kd, file).phnum, q)
  {
    hide IsSegment, Phdr, ReadEhdr;
    WellFormedPages(Phdr(s, kd, file, i), 0);
  }

  // A page outside the bitmap shows the same bytes, whatever the bitmap holds.
  lemma ShownThrough(m: Memory, dirs: set<nat>, d: nat, own: Span, data: seq<byte>, va: nat)
    requires |m| % 1024 == 0 && own.from <= own.to <= 4 * |m| && |data| == own.to - own.from && d in dirs && va / 4096 < PAGES
    requires forall g :: g in FramesOf(own) ==> Untabled(m, dirs, g)
    requires Walk(m, d, va / 4096).Some? && Walk(m, d, va / 4096).value.frame !in FramesOf(own)
    ensures ByteAt(PutBytes(m, own.from, data), d, va) == ByteAt(m, d, va)
  {
    hide Word, Walk, Untabled, PutBytes, FramesOf, Byte;
    var m' := PutBytes(m, own.from, data);
    PutOutside(m, own.from, data, own);
    DataWriteKeepsWalk(m, m', dirs, FramesOf(own), d, va / 4096);
    SameBytes(m, m', FramesOf(own), Walk(m, d, va / 4096).value.frame, va % 4096);
  }
}
