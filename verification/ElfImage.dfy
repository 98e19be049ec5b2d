/**
  Loading the segments of an executable (`elf_load`, src/elf.c): the pages of a segment,
  then its bytes copied through the new directory.
 */
module ElfImage {
  import opened Words
  import opened Paging
  import opened IdentityMap
  import opened Bytes
  import opened ElfPages
  import Tar

  // A file of the RAM disk: where its data lies, and how long it is.
  datatype File = File(impl: word, length: word)

  // The fields of an Elf32_Phdr that the loader uses.
  datatype Header = Header(kind: word, offset: word, vaddr: word, filesz: word, memsz: word) {
    function First(): nat { vaddr / 4096 }
    function End(): nat { Add32(Add32(vaddr, memsz), 4095) / 4096 }
    function Count(): nat { if End() > First() then End() - First() else 0 }
  }

  const PT_LOAD := 1

  ghost function LoadSegment(l: Load, c: nat, file: File, h: Header): Progress {
    match LoadPages(l, c, h.First(), h.Count())
    case Going(l') => Going(l'.(mem := l'.mem.(words := CopyData(l'.mem.words, c, file, h))))
    case r => r
  }

  function CopyData(m: Memory, c: nat, file: File, h: Header): Memory {
    CopyBytes(m, c, h.vaddr, Add32(file.impl, h.offset), Tar.ReadSize(file.length, h.offset, h.filesz))
  }

  // A segment that does not wrap and whose file part fits into its memory part.
  predicate WellFormed(h: Header) {
    && h.vaddr + h.memsz + 4095 < 0x1_0000_0000
    && h.filesz <= h.memsz
    && h.offset + h.filesz < 0x1_0000_0000
  }

  lemma WellFormedPages(h: Header, length: word)
    requires WellFormed(h)
    ensures h.First() + h.Count() <= PAGES
    ensures 4096 * h.First() <= h.vaddr && h.vaddr + h.memsz <= 4096 * (h.First() + h.Count())
    ensures Tar.ReadSize(length, h.offset, h.filesz) <= h.filesz
    ensures Tar.ReadSize(length, h.offset, h.filesz) > 0 ==>
              h.offset + Tar.ReadSize(length, h.offset, h.filesz) <= length
  {
  }

  // ---------- the file in memory ----------

  // Byte `k` of the file, where it lies in physical memory.
  function FileByte(m: Memory, file: File, k: nat): byte {
    Byte(m, (file.impl + k) / 4096, (file.impl + k) % 4096)
  }

  // Frame `p` holds data of the file.
  predicate FileFrame(file: File, p: nat) {
    file.impl < 4096 * p + 4096 && 4096 * p < file.impl + file.length
  }

  // The file lies in identity-mapped RAM whose frames are taken and hold no table.
  ghost predicate FileHeld(s: Mem, dirs: set<nat>, file: File, n: nat) {
    && file.impl + file.length <= 4096 * n
    && forall p: nat :: FileFrame(file, p) ==> p !in s.free && Untabled(s.words, dirs, p)
  }

  lemma FileByteKept(dirs: set<nat>, s: Mem, s': Mem, file: File, n: nat, k: nat)
    requires FileHeld(s, dirs, file, n) && KeepsData(dirs, s, s') && k < file.length
    ensures FileByte(s'.words, file, k) == FileByte(s.words, file, k)
  {
    hide Word, Untabled;
    assert FileFrame(file, (file.impl + k) / 4096);
  }

  lemma FileHeldKept(dirs: set<nat>, s: Mem, s': Mem, file: File, n: nat)
    requires FileHeld(s, dirs, file, n) && KeepsData(dirs, s, s')
    ensures FileHeld(s', dirs, file, n)
  {
    hide Word, Untabled;
  }

  // Through the identity map, a virtual address below RAM reads the file's own byte.
  lemma FileByteAt(m: Memory, d: nat, file: File, n: nat, k: nat)
    requires Identity(m, d, n) && file.impl + file.length <= 4096 * n && k < file.length
    ensures ByteAt(m, d, file.impl + k) == FileByte(m, file, k)
  {
    hide Walk;
    assert (file.impl + k) / 4096 < n;
  }

  // ---------- one segment ----------

  // Byte `va` of a segment's pages: file bytes, and zeros all around them.
  ghost predicate SegmentByte(m0: Memory, m: Memory, c: nat, file: File, h: Header, va: nat) {
    ByteAt(m, c, va)
    == if h.vaddr <= va < h.vaddr + Tar.ReadSize(file.length, h.offset, h.filesz)
       then FileByte(m0, file, h.offset + va - h.vaddr) else 0
  }

  ghost predicate PageHeld(s: Mem, dirs: set<nat>, c: nat, p: nat) {
    && Walk(s.words, c, p).Some?
    && Walk(s.words, c, p).value.frame !in s.free
    && Untabled(s.words, dirs, Walk(s.words, c, p).value.frame)
  }

  // Segment `h` of the file found in memory `m0` is in place.
  ghost predicate Shown(m0: Memory, s: Mem, dirs: set<nat>, c: nat, file: File, h: Header) {
    && (forall p: nat :: h.First() <= p < h.First() + h.Count() ==> PageHeld(s, dirs, c, p))
    && (forall va: nat :: 4096 * h.First() <= va < 4096 * (h.First() + h.Count()) ==>
          SegmentByte(m0, s.words, c, file, h, va))
  }

  // A later load of other pages leaves the segment in place.
  lemma ShownKept(m0: Memory, s: Mem, s': Mem, dirs: set<nat>, c: nat, file: File, h: Header, first: nat, n: nat)
    requires Shown(m0, s, dirs, c, file, h) && c in dirs && h.First() + h.Count() <= PAGES
    requires KeepsData(dirs, s, s') && KeepsPages(dirs, c, s.words, s'.words, first, n)
    requires h.First() + h.Count() <= first || first + n <= h.First() || n == 0 || h.Count() == 0
    ensures Shown(m0, s', dirs, c, file, h)
  {
    hide Word, Walk, Untabled, Shares, FileByte;
    forall p: nat | h.First() <= p < h.First() + h.Count()
      ensures PageHeld(s', dirs, c, p) && Walk(s'.words, c, p) == Walk(s.words, c, p)
      ensures FrameSame(s.words, s'.words, Walk(s.words, c, p).value.frame)
    {
      assert PageHeld(s, dirs, c, p);
      assert !Affected(s.words, c, c, p, first, n);
    }
    forall va: nat | 4096 * h.First() <= va < 4096 * (h.First() + h.Count())
      ensures SegmentByte(m0, s'.words, c, file, h, va)
    {
      assert SegmentByte(m0, s.words, c, file, h, va);
      assert PageHeld(s, dirs, c, va / 4096);
      assert FrameSame(s.words, s'.words, Walk(s.words, c, va / 4096).value.frame);
    }
  }

  // The frames a segment's pages were given.
  ghost function NewBlocks(l: Load, l': Load): set<nat>
    requires |l.blocks| <= |l'.blocks|
  {
    set k | |l.blocks| <= k < |l'.blocks| :: l'.blocks[k]
  }

  lemma SegmentTarget(dirs: set<nat>, c: nat, l: Load, l1: Load, first: nat, n: nat)
    requires Owned(l.mem, dirs) && PagesEffect(dirs, c, l, l1, first, n) && Distinct(l1.blocks) && first + n <= PAGES
    ensures
      var target := NewBlocks(l, l1);
      && Target(l1.mem.words, c, first, n, target) && Loose(l1.mem.words, dirs, target)
      && target <= l.mem.free
  {
    hide Word, Walk, Untabled, KeepsPages;
    var target := NewBlocks(l, l1);
    forall p: nat | first <= p < first + n
      ensures Walk(l1.mem.words, c, p).Some? && Walk(l1.mem.words, c, p).value.frame == l1.blocks[|l.blocks| + p - first]
      ensures l1.blocks[|l.blocks| + p - first] in target
    {
      assert PlacedPage(dirs, c, l, l1, first, p - first);
    }
    forall f | f in target
      ensures InRam(l1.mem.words, f) && Untabled(l1.mem.words, dirs, f) && f in l.mem.free
    {
      var k :| |l.blocks| <= k < |l1.blocks| && l1.blocks[k] == f;
      assert PlacedPage(dirs, c, l, l1, first, k - |l.blocks|);
    }
  }

  // A freshly cleared page reads as zeros.
  lemma PlacedReadsZero(dirs: set<nat>, c: nat, l: Load, l1: Load, first: nat, n: nat, va: nat)
    requires Placed(dirs, c, l, l1, first, n) && 4096 * first <= va < 4096 * (first + n)
    ensures ByteAt(l1.mem.words, c, va) == 0
  {
    hide Word, Walk, Untabled;
    assert PlacedPage(dirs, c, l, l1, first, va / 4096 - first);
    ZeroByte(va % 4096 % 4);
  }

  // What the loader may rely on while it copies: the identity map, and the file in RAM.
  ghost predicate SourceReady(s: Mem, dirs: set<nat>, c: nat, file: File, n: nat) {
    Identity(s.words, c, n) && FileHeld(s, dirs, file, n)
  }

  lemma SourceReadyKept(dirs: set<nat>, c: nat, s: Mem, s': Mem, file: File, n: nat, first: nat, count: nat)
    requires SourceReady(s, dirs, c, file, n) && c in dirs && n <= PAGES
    requires KeepsData(dirs, s, s') && KeepsPages(dirs, c, s.words, s'.words, first, count) && first >= n
    ensures SourceReady(s', dirs, c, file, n)
  {
    hide Word, Walk, Untabled, Shares;
    FileHeldKept(dirs, s, s', file, n);
    forall p: nat | p < n
      ensures Walk(s'.words, c, p) == Walk(s.words, c, p)
    {
      assert !Affected(s.words, c, c, p, first, count);
    }
  }

  lemma SegmentSource(dirs: set<nat>, c: nat, s: Mem, s1: Mem, file: File, n: nat, h: Header, target: set<nat>)
    requires WellFormed(h) && FileHeld(s, dirs, file, n) && target <= s.free
    requires Identity(s1.words, c, n) && n <= PAGES
    ensures
      var size := Tar.ReadSize(file.length, h.offset, h.filesz);
      && SourceApart(s1.words, c, Add32(file.impl, h.offset), size, target)
      && (size > 0 ==> Add32(file.impl, h.offset) == file.impl + h.offset && h.offset + size <= file.length)
  {
    hide Word, Walk, Untabled;
    WellFormedPages(h, file.length);
    var src, size := Add32(file.impl, h.offset), Tar.ReadSize(file.length, h.offset, h.filesz);
    forall va: nat | src <= va < src + size
      ensures va / 4096 < PAGES
      ensures Walk(s1.words, c, va / 4096).Some? ==> Walk(s1.words, c, va / 4096).value.frame !in target
    {
      assert va / 4096 < n;
      assert FileFrame(file, va / 4096);
    }
  }

  // Loading one segment above RAM puts exactly its image in place and disturbs nothing
  // that was in use.
  lemma SegmentLoads(s0: Mem, dirs: set<nat>, c: nat, l: Load, file: File, h: Header, n: nat)
    requires Account(s0, dirs, c, l) && c in dirs && n <= PAGES
    requires WellFormed(h) && h.First() >= n && SourceReady(l.mem, dirs, c, file, n)
    requires LoadSegment(l, c, file, h).Going?
    ensures
      var l' := LoadSegment(l, c, file, h).load;
      && Account(s0, dirs, c, l')
      && KeepsData(dirs, l.mem, l'.mem)
      && KeepsPages(dirs, c, l.mem.words, l'.mem.words, h.First(), h.Count())
      && Shown(l.mem.words, l'.mem, dirs, c, file, h)
  {
    var first, count := h.First(), h.Count();
    var size := Tar.ReadSize(file.length, h.offset, h.filesz);
    var src := Add32(file.impl, h.offset);
    WellFormedPages(h, file.length);
    LoadPagesAccounts(s0, dirs, c, l, first, count);
    LoadPagesEffect(l, dirs, c, first, count);
    var l1 := LoadPages(l, c, first, count).load;
    var target := NewBlocks(l, l1);
    SegmentTarget(dirs, c, l, l1, first, count);
    SourceReadyKept(dirs, c, l.mem, l1.mem, file, n, first, count);
    SegmentSource(dirs, c, l.mem, l1.mem, file, n, h, target);
    CopyMeaning(l1.mem.words, dirs, c, first, count, target, h.vaddr, src, size);
    var m2 := CopyData(l1.mem.words, c, file, h);
    hide Word, Walk, Owned, Untabled, Shares, LoadPages, CopyBytes, KeepsData, KeepsPages, FileHeld, Identity;
    DataWriteAccounts(s0, dirs, c, l1, m2, target);
    FreshWriteKeepsData(dirs, l.mem, l1.mem, m2, target);
    DataWriteKeepsPages(dirs, c, l.mem.words, l1.mem.words, m2, first, count, target);
    SegmentShown(dirs, c, l, l1, file, h, n, target);
  }

  lemma SegmentShown(dirs: set<nat>, c: nat, l: Load, l1: Load, file: File, h: Header, n: nat, target: set<nat>)
    requires WellFormed(h) && c in dirs && n <= PAGES
    requires PagesEffect(dirs, c, l, l1, h.First(), h.Count())
    requires Target(l1.mem.words, c, h.First(), h.Count(), target) && Loose(l1.mem.words, dirs, target)
    requires SourceReady(l.mem, dirs, c, file, n) && SourceReady(l1.mem, dirs, c, file, n)
    requires
      var size := Tar.ReadSize(file.length, h.offset, h.filesz);
      var src := Add32(file.impl, h.offset);
      && CopyDone(l1.mem.words, CopyData(l1.mem.words, c, file, h), c, h.First(), h.Count(), target, h.vaddr, src, size)
      && (size > 0 ==> src == file.impl + h.offset && h.offset + size <= file.length)
    ensures Shown(l.mem.words, l1.mem.(words := CopyData(l1.mem.words, c, file, h)), dirs, c, file, h)
  {
    hide Word, Walk, Owned, Untabled, Shares, CopyBytes, KeepsPages, Identity;
    var m1, m2 := l1.mem.words, CopyData(l1.mem.words, c, file, h);
    var size, src := Tar.ReadSize(file.length, h.offset, h.filesz), Add32(file.impl, h.offset);
    WellFormedPages(h, file.length);
    DataWriteKeepsTables(m1, m2, dirs, target);
    forall p: nat | h.First() <= p < h.First() + h.Count()
      ensures PageHeld(l1.mem.(words := m2), dirs, c, p)
    {
      assert PlacedPage(dirs, c, l, l1, h.First(), p - h.First());
      DataWriteKeepsWalk(m1, m2, dirs, target, c, p);
    }
    forall va: nat | 4096 * h.First() <= va < 4096 * (h.First() + h.Count())
      ensures SegmentByte(l.mem.words, m2, c, file, h, va)
    {
      assert CopiedByte(m1, m2, c, h.vaddr, src, size, va);
      if h.vaddr <= va < h.vaddr + size {
        FileByteAt(m1, c, file, n, h.offset + va - h.vaddr);
        FileByteKept(dirs, l.mem, l1.mem, file, n, h.offset + va - h.vaddr);
      } else {
        PlacedReadsZero(dirs, c, l, l1, h.First(), h.Count(), va);
      }
    }
  }

  // Frames stay accounted for through a whole segment, also when memory runs out.
  lemma SegmentAccounts(s0: Mem, dirs: set<nat>, c: nat, l: Load, file: File, h: Header)
    requires Account(s0, dirs, c, l) && c in dirs && WellFormed(h) && !LoadSegment(l, c, file, h).Stopped?
    ensures Account(s0, dirs, c, LoadSegment(l, c, file, h).load)
  {
    var first, count := h.First(), h.Count();
    WellFormedPages(h, file.length);
    LoadPagesAccounts(s0, dirs, c, l, first, count);
    if LoadPages(l, c, first, count).Going? {
      var l1 := LoadPages(l, c, first, count).load;
      LoadPagesEffect(l, dirs, c, first, count);
      var target := NewBlocks(l, l1);
      SegmentTarget(dirs, c, l, l1, first, count);
      hide Word, Walk, Owned, Untabled, LoadPages, CopyBytes, KeepsData, KeepsPages;
      CopyStaysInTarget(l1.mem.words, dirs, c, first, count, target, h.vaddr, Add32(file.impl, h.offset),
                        Tar.ReadSize(file.length, h.offset, h.filesz));
      DataWriteAccounts(s0, dirs, c, l1, CopyData(l1.mem.words, c, file, h), target);
    }
  }
}
