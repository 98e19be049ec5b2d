/**
  Executables as the System V ABI lays them out (chapter 4, ELF Header; chapter 5, Program
  Header; src/elf.h), and what `elf_load` makes of a file that holds one: which files it
  refuses, what it shows in memory and how it ends, in terms of the encoded fields.
 */
module ElfFormat {
  import opened Words
  import opened Frames
  import opened Paging
  import opened IdentityMap
  import opened Bytes
  import opened LittleEndian
  import opened ElfImage
  import opened Elf
  import opened ElfCost
  import opened ElfTheorems
  import opened ElfOutcome
  import opened BitmapRam

  // ---------- the format ----------

  datatype FileHeader = FileHeader(ident: seq<byte>, kind: half, machine: half, version: word, entry: word, phoff: word,
                                   shoff: word, flags: word, ehsize: half, phentsize: half, phnum: half,
                                   shentsize: half, shnum: half, shstrndx: half)

  datatype ProgramHeader = ProgramHeader(kind: word, offset: word, vaddr: word, paddr: word,
                                         filesz: word, memsz: word, flags: word, align: word)

  function EncodeHeader(e: FileHeader): seq<byte> {
    e.ident + Le16(e.kind) + Le16(e.machine) + Le32(e.version) + Le32(e.entry) + Le32(e.phoff) + Le32(e.shoff) + Le32(e.flags)
    + Le16(e.ehsize) + Le16(e.phentsize) + Le16(e.phnum) + Le16(e.shentsize) + Le16(e.shnum) + Le16(e.shstrndx)
  }

  function EncodeProgramHeader(p: ProgramHeader): (r: seq<byte>)
    ensures |r| == 32
  {
    Le32(p.kind) + Le32(p.offset) + Le32(p.vaddr) + Le32(p.paddr) + Le32(p.filesz) + Le32(p.memsz) + Le32(p.flags) + Le32(p.align)
  }

  // The file has `data` at `at`.
  ghost predicate FileHas(m: Memory, file: File, at: nat, data: seq<byte>) {
    at + |data| <= file.length && forall k :: 0 <= k < |data| ==> FileByte(m, file, at + k) == data[k]
  }

  // ---------- reading it back ----------

  lemma ReadIs(m: Memory, d: nat, file: File, n: nat, at: nat, data: seq<byte>)
    requires Identity(m, d, n) && file.impl + file.length <= 4096 * n && FileHas(m, file, at, data)
    ensures ReadBytes(m, d, file.impl + at, |data|) == data
  {
    hide Identity, FileByte, ByteAt;
    forall k | 0 <= k < |data|
      ensures ReadBytes(m, d, file.impl + at, |data|)[k] == data[k]
    {
      FileByteAt(m, d, file, n, at + k);
      assert file.impl + at + k == file.impl + (at + k);
    }
  }

  lemma HeaderParts(e: FileHeader)
    requires |e.ident| == 16
    ensures |EncodeHeader(e)| == 52
    ensures PartAt(EncodeHeader(e), 0, e.ident) && PartAt(EncodeHeader(e), 16, Le16(e.kind)) && PartAt(EncodeHeader(e), 18, Le16(e.machine))
    ensures PartAt(EncodeHeader(e), 24, Le32(e.entry)) && PartAt(EncodeHeader(e), 28, Le32(e.phoff))
    ensures PartAt(EncodeHeader(e), 42, Le16(e.phentsize)) && PartAt(EncodeHeader(e), 44, Le16(e.phnum))
  {
    hide Le16, Le32;
    var a := e.ident + Le16(e.kind) + Le16(e.machine);
    var b := a + Le32(e.version) + Le32(e.entry) + Le32(e.phoff);
    var c := b + Le32(e.shoff) + Le32(e.flags) + Le16(e.ehsize);
    assert |a| == 20 && |b| == 32 && |c| == 42;
    assert EncodeHeader(e) == c + Le16(e.phentsize) + Le16(e.phnum) + Le16(e.shentsize) + Le16(e.shnum) + Le16(e.shstrndx);
    assert EncodeHeader(e)[..20] == a && EncodeHeader(e)[..32] == b && EncodeHeader(e)[..42] == c;
    assert a[..16] == e.ident && a[16..18] == Le16(e.kind) && a[18..20] == Le16(e.machine);
    assert b[24..28] == Le32(e.entry) && b[28..32] == Le32(e.phoff);
  }

  // The loader finds in an encoded file header exactly its fields.
  lemma HeaderReadBack(m: Memory, d: nat, file: File, n: nat, e: FileHeader)
    requires Identity(m, d, n) && file.impl + file.length <= 4096 * n && |e.ident| == 16 && FileHas(m, file, 0, EncodeHeader(e))
    ensures
      var r := ReadEhdr(m, d, file);
      && r.magic == Peek32(e.ident, 0) && r.class_ == e.ident[4] && r.kind == e.kind && r.machine == e.machine
      && r.entry == e.entry && r.phoff == e.phoff && r.phentsize == e.phentsize && r.phnum == e.phnum
  {
    hide Identity, FileHas, EncodeHeader, Le16, Le32;
    HeaderParts(e);
    ReadIs(m, d, file, n, 0, EncodeHeader(e));
    hide ReadBytes;
    var b := EncodeHeader(e);
    assert forall k :: 0 <= k < 16 ==> b[k] == b[0..16][k] == e.ident[k];
    assert Peek32(b, 0) == Peek32(e.ident, 0) && Peek(b, 4) == e.ident[4];
    hide Peek32, Peek16;
    ReadHalf(b, 16, e.kind);
    ReadHalf(b, 18, e.machine);
    ReadWord(b, 24, e.entry);
    ReadWord(b, 28, e.phoff);
    ReadHalf(b, 42, e.phentsize);
    ReadHalf(b, 44, e.phnum);
  }

  lemma ProgramHeaderParts(p: ProgramHeader)
    ensures
      var b := EncodeProgramHeader(p);
      && PartAt(b, 0, Le32(p.kind)) && PartAt(b, 4, Le32(p.offset)) && PartAt(b, 8, Le32(p.vaddr))
      && PartAt(b, 16, Le32(p.filesz)) && PartAt(b, 20, Le32(p.memsz))
  {
    hide Le32;
    var a := Le32(p.kind) + Le32(p.offset) + Le32(p.vaddr) + Le32(p.paddr);
    assert |a| == 16;
    assert EncodeProgramHeader(p) == a + Le32(p.filesz) + Le32(p.memsz) + Le32(p.flags) + Le32(p.align);
    assert EncodeProgramHeader(p)[..16] == a;
    assert a[0..4] == Le32(p.kind) && a[4..8] == Le32(p.offset) && a[8..12] == Le32(p.vaddr);
  }

  lemma InFile(file: File, n: nat, at: word)
    requires file.impl + file.length <= 4096 * n && n <= MAX_BLOCKS && at + 32 <= file.length
    ensures Add32(file.impl, at) == file.impl + at && Complete(file, at)
  {
  }

  // And in an encoded program header, wherever it lies in the file.
  lemma ProgramHeaderReadBack(m: Memory, d: nat, file: File, n: nat, at: word, p: ProgramHeader)
    requires Identity(m, d, n) && file.impl + file.length <= 4096 * n && n <= MAX_BLOCKS && FileHas(m, file, at, EncodeProgramHeader(p))
    ensures Complete(file, at)
    ensures ReadPhdr(m, d, file, at) == Header(p.kind, p.offset, p.vaddr, p.filesz, p.memsz)
  {
    hide Identity, EncodeProgramHeader, Le32, Add32, Complete, FileByte, Peek32;
    InFile(file, n, at);
    ProgramHeaderParts(p);
    ReadIs(m, d, file, n, at, EncodeProgramHeader(p));
    hide ReadBytes, FileHas;
    var b := EncodeProgramHeader(p);
    ReadWord(b, 0, p.kind);
    ReadWord(b, 4, p.offset);
    ReadWord(b, 8, p.vaddr);
    ReadWord(b, 16, p.filesz);
    ReadWord(b, 20, p.memsz);
  }

  // ---------- which files are refused ----------

  // 0x7F 'E' 'L' 'F', 32-bit, an executable, for the Intel 80386.
  ghost predicate Executable(m: Memory, file: File) {
    && file.length >= 52
    && FileByte(m, file, 0) == 0x7F && FileByte(m, file, 1) == 0x45 && FileByte(m, file, 2) == 0x4C && FileByte(m, file, 3) == 0x46
    && FileByte(m, file, 4) == 1
    && FileByte(m, file, 16) == 2 && FileByte(m, file, 17) == 0
    && FileByte(m, file, 18) == 3 && FileByte(m, file, 19) == 0
  }

  lemma HeaderBytes(m: Memory, d: nat, file: File, n: nat, k: nat)
    requires Identity(m, d, n) && file.impl + file.length <= 4096 * n && k < 52 <= file.length
    ensures ReadBytes(m, d, file.impl, 52)[k] == FileByte(m, file, k)
  {
    hide Identity, FileByte, ByteAt;
    FileByteAt(m, d, file, n, k);
  }

  lemma AcceptedIff(m: Memory, d: nat, file: File, n: nat)
    requires Identity(m, d, n) && file.impl + file.length <= 4096 * n && file.length >= 52
    ensures Accepted(ReadEhdr(m, d, file)) <==> Executable(m, file)
  {
    hide Identity, FileByte, ReadBytes;
    HeaderBytes(m, d, file, n, 0);
    HeaderBytes(m, d, file, n, 1);
    HeaderBytes(m, d, file, n, 2);
    HeaderBytes(m, d, file, n, 3);
    HeaderBytes(m, d, file, n, 4);
    HeaderBytes(m, d, file, n, 16);
    HeaderBytes(m, d, file, n, 17);
    HeaderBytes(m, d, file, n, 18);
    HeaderBytes(m, d, file, n, 19);
  }

  // For every file: it is refused, with nothing changed, exactly when its bytes are not those
  // of an executable or no frame is free.
  lemma RefusedIff(s: Mem, dirs: set<nat>, kd: nat, file: File, n: nat)
    requires Ready(s, dirs, kd, file, n)
    ensures LoadFile(s, kd, file).Rejected? <==> !Executable(s.words, file) || s.free == {}
  {
    hide Identity, Owned, LoadHeaders, ReadEhdr, FileByte, Accepted;
    if file.length >= 52 {
      AcceptedIff(s.words, kd, file, n);
    }
  }

  // ---------- programs ----------

  datatype Program = Program(header: FileHeader, parts: seq<ProgramHeader>)

  // The file holds the program: its header at the start, its program headers as that says.
  ghost predicate HoldsProgram(m: Memory, file: File, p: Program) {
    && |p.header.ident| == 16 && FileHas(m, file, 0, EncodeHeader(p.header)) && |p.parts| == p.header.phnum
    && forall i :: 0 <= i < |p.parts| ==> PartHeld(m, file, p, i)
  }

  ghost predicate PartHeld(m: Memory, file: File, p: Program, i: nat)
    requires i < |p.parts|
  {
    FileHas(m, file, p.header.phoff + i * p.header.phentsize, EncodeProgramHeader(p.parts[i]))
  }

  // The first page of a segment, and the first one behind it.
  function PageFrom(h: ProgramHeader): nat { h.vaddr / 4096 }
  function PageTo(h: ProgramHeader): nat { (h.vaddr + h.memsz + 4095) / 4096 }

  predicate Segment(h: ProgramHeader) { h.kind == 1 }

  // A segment that lies above RAM, does not wrap, and whose file part fits its memory part.
  predicate GoodSegment(h: ProgramHeader, n: nat) {
    && 4096 * n <= h.vaddr && h.vaddr + h.memsz + 4095 < 0x1_0000_0000
    && h.filesz <= h.memsz && h.offset + h.filesz < 0x1_0000_0000
  }

  ghost predicate GoodProgram(p: Program, n: nat) {
    forall i :: 0 <= i < |p.parts| && Segment(p.parts[i]) ==> GoodSegment(p.parts[i], n)
  }

  // No two segments share a page.
  ghost predicate SegmentsApart(p: Program) {
    forall i, j :: 0 <= i < j < |p.parts| && Segment(p.parts[i]) && Segment(p.parts[j]) ==>
      || PageTo(p.parts[i]) <= PageFrom(p.parts[j]) || PageTo(p.parts[j]) <= PageFrom(p.parts[i])
      || PageTo(p.parts[i]) == PageFrom(p.parts[i]) || PageTo(p.parts[j]) == PageFrom(p.parts[j])
  }

  // The loader sees just these headers.
  lemma PartsRead(s: Mem, dirs: set<nat>, kd: nat, file: File, n: nat, p: Program, i: nat)
    requires Ready(s, dirs, kd, file, n) && HoldsProgram(s.words, file, p) && i < |p.parts|
    ensures ReadEhdr(s.words, kd, file).phnum == |p.parts|
    ensures Complete(file, PhdrOffset(ReadEhdr(s.words, kd, file), i))
    ensures
      var h := p.parts[i];
      Phdr(s, kd, file, i) == Header(h.kind, h.offset, h.vaddr, h.filesz, h.memsz)
  {
    hide Identity, Owned, ReadPhdr, ReadEhdr, FileByte, EncodeHeader, EncodeProgramHeader, Complete;
    var e, h := p.header, p.parts[i];
    HeaderReadBack(s.words, kd, file, n, e);
    assert PartHeld(s.words, file, p, i);
    var at := e.phoff + i * e.phentsize;
    assert at < 0x1_0000_0000;
    ProgramHeaderReadBack(s.words, kd, file, n, at, h);
  }

  lemma ProgramLoadable(s: Mem, dirs: set<nat>, kd: nat, file: File, n: nat, p: Program)
    requires Ready(s, dirs, kd, file, n) && HoldsProgram(s.words, file, p) && GoodProgram(p, n)
    ensures ReadEhdr(s.words, kd, file).phnum == |p.parts|
    ensures Loadable(s, kd, file, n, |p.parts|)
    ensures SegmentsApart(p) ==> PagesApart(s, kd, file, |p.parts|)
  {
    hide Ready, ReadEhdr, Phdr, HoldsProgram, Complete, PhdrOffset;
    assert ReadEhdr(s.words, kd, file).phnum == |p.parts| by { PartsCounted(s, dirs, kd, file, n, p); }
    forall i: nat | i < |p.parts|
      ensures
        var h := p.parts[i];
        Phdr(s, kd, file, i) == Header(h.kind, h.offset, h.vaddr, h.filesz, h.memsz)
    {
      PartsRead(s, dirs, kd, file, n, p, i);
    }
  }

  lemma PartsCounted(s: Mem, dirs: set<nat>, kd: nat, file: File, n: nat, p: Program)
    requires Ready(s, dirs, kd, file, n) && HoldsProgram(s.words, file, p)
    ensures ReadEhdr(s.words, kd, file).phnum == |p.parts| && ReadEhdr(s.words, kd, file).entry == p.header.entry
  {
    hide Identity, Owned, ReadEhdr, FileHas, EncodeHeader;
    HeaderReadBack(s.words, kd, file, n, p.header);
  }

  // After a load that returns 0, walking the new directory shows every segment of the program:
  // the bytes of the file from its offset on, then zeros up to its size in memory. The entry is
  // the program's. This is RAM as it is, the allocator's bitmap included, whatever that holds.
  lemma ImageInPlace(s: Mem, dirs: set<nat>, kd: nat, file: File, n: nat, own: Span, p: Program, i: nat, k: nat,
                     before: seq<byte>, after: seq<byte>)
    requires Setting(s, dirs, kd, file, n, own) && LoadFile(s, kd, file).Success?
    requires |before| == |after| == own.to - own.from
    requires HoldsProgram(s.words, file, p) && GoodProgram(p, n) && SegmentsApart(p)
    requires i < |p.parts| && Segment(p.parts[i]) && k < p.parts[i].memsz
    requires p.parts[i].offset + p.parts[i].filesz <= file.length
    ensures
      var r, h := LoadFile(s, kd, file), p.parts[i];
      && r.entry == p.header.entry
      && ByteAt(PutBytes(r.mem.words, own.from, after), r.pd, h.vaddr + k)
         == if k < h.filesz then FileByte(PutBytes(s.words, own.from, before), file, h.offset + k) else 0
  {
    hide Setting, LoadFile, ReadEhdr, Phdr, HoldsProgram, GoodProgram, SegmentsApart, Loadable, PagesApart, PutBytes, ByteAt, FileByte;
    SettingReady(s, dirs, kd, file, n, own);
    hide Ready;
    ProgramLoadable(s, dirs, kd, file, n, p);
    PartsRead(s, dirs, kd, file, n, p, i);
    ImageShown(s, dirs, kd, file, n, own, i, k, before, after);
    PartsCounted(s, dirs, kd, file, n, p);
    SuccessEntry(s, kd, file);
  }

  lemma SettingReady(s: Mem, dirs: set<nat>, kd: nat, file: File, n: nat, own: Span)
    requires Setting(s, dirs, kd, file, n, own)
    ensures Ready(s, dirs, kd, file, n)
  {
  }

  lemma SuccessEntry(s: Mem, kd: nat, file: File)
    requires LoadFile(s, kd, file).Success?
    ensures LoadFile(s, kd, file).entry == ReadEhdr(s.words, kd, file).entry
  {
    hide LoadHeaders, ReadEhdr;
  }

  // ---------- the outcome ----------

  // The pages of the first `i` program headers, in order.
  function PagesUpTo(p: Program, i: nat): seq<nat>
    requires i <= |p.parts|
  {
    if i == 0 then []
    else
      var h := p.parts[i - 1];
      PagesUpTo(p, i - 1) + (if Segment(h) && PageTo(h) > PageFrom(h) then Range(PageFrom(h), PageTo(h) - PageFrom(h)) else [])
  }

  lemma {:induction false} PlannedIs(s: Mem, dirs: set<nat>, kd: nat, file: File, n: nat, p: Program, i: nat)
    requires Ready(s, dirs, kd, file, n) && HoldsProgram(s.words, file, p) && GoodProgram(p, n) && i <= |p.parts|
    ensures Planned(s, kd, file, i) == PagesUpTo(p, i) && AllComplete(s, kd, file, i)
  {
    hide Ready, ReadEhdr, Phdr, HoldsProgram, Complete, PhdrOffset;
    if i > 0 {
      PlannedIs(s, dirs, kd, file, n, p, i - 1);
      PartsRead(s, dirs, kd, file, n, p, i - 1);
      var h := p.parts[i - 1];
      assert Segment(h) ==> GoodSegment(h, n);
      hide GoodProgram, Range;
      SamePages(h, n);
    }
  }

  // The loader's page arithmetic, with its 32-bit sums and masks.
  lemma SamePages(h: ProgramHeader, n: nat)
    ensures Segment(h) && GoodSegment(h, n) ==>
              var r := Header(h.kind, h.offset, h.vaddr, h.filesz, h.memsz);
              && r.First() == PageFrom(h) && r.Count() == (if PageTo(h) > PageFrom(h) then PageTo(h) - PageFrom(h) else 0)
    ensures Range(PageFrom(h), 0) == []
  {
  }

  // For a file that holds a program, its encoded headers and the number of free frames decide:
  // with the directory taken, the pages that still fit are either all (the load returns 0), or
  // they use up every frame (it returns -1), or leave one frame over (it halts).
  lemma ProgramOutcome(s: Mem, dirs: set<nat>, kd: nat, file: File, n: nat, own: Span, p: Program)
    requires Setting(s, dirs, kd, file, n, own) && HoldsProgram(s.words, file, p) && GoodProgram(p, n)
    requires Executable(s.words, file) && s.free != {}
    ensures
      var r, pages, budget := LoadFile(s, kd, file), PagesUpTo(p, |p.parts|), |s.free| - 1;
      var k := Fit(s.words, kd, pages, budget);
      && (r.Success? <==> Cost(s.words, kd, pages) <= budget)
      && (r.Failure? <==> Cost(s.words, kd, pages) > budget && Cost(s.words, kd, pages[..k]) == budget)
      && (r.Halted? <==> Cost(s.words, kd, pages) > budget && Cost(s.words, kd, pages[..k]) < budget)
  {
    hide Ready, LoadFile, ReadEhdr, HoldsProgram, GoodProgram, Loadable, Planned, AllComplete, PagesUpTo, Cost, Fit, FileByte, Executable;
    ProgramLoadable(s, dirs, kd, file, n, p);
    PlannedIs(s, dirs, kd, file, n, p, |p.parts|);
    OutcomeIff(s, dirs, kd, file, n, own);
    RefusedIff(s, dirs, kd, file, n);
    PlannedArePages(s, kd, file, n, |p.parts|);
    var pages, budget := PagesUpTo(p, |p.parts|), |s.free| - 1;
    FitUnique(s.words, kd, pages, budget, Fit(s.words, kd, pages, budget));
    FitUnique(s.words, kd, pages, budget, |pages|);
    assert pages[..|pages|] == pages;
  }
}
