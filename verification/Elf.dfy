/**
  `elf_load` as a whole (src/elf.c): header checks, the cloned directory, the walk over
  the program headers, and the cleanup of a load that fails.
 */
module Elf {
  import opened Words
  import opened Frames
  import opened Paging
  import opened AddressSpaces
  import opened Bytes
  import opened ElfPages
  import opened ElfImage

  const ELF_MAGIC := 0x464C457F
  const EHDR_SIZE := 52
  const PHDR_SIZE := 32
  const MAX_SEGMENT_BLOCKS := 64

  // The fields of an Elf32_Ehdr that the loader uses.
  datatype Ehdr = Ehdr(magic: word, class_: byte, kind: nat, machine: nat,
                       entry: word, phoff: word, phentsize: nat, phnum: nat)

  // ---------- reading headers through the active directory ----------

  function ReadBytes(m: Memory, d: nat, va: nat, n: nat): (r: seq<byte>)
    ensures |r| == n
  {
    seq<byte>(n, k requires 0 <= k < n => ByteAt(m, d, va + k))
  }

  function ReadEhdr(m: Memory, d: nat, file: File): Ehdr {
    var b := ReadBytes(m, d, file.impl, EHDR_SIZE);
    Ehdr(Peek32(b, 0), Peek(b, 4), Peek16(b, 16), Peek16(b, 18),
         Peek32(b, 24), Peek32(b, 28), Peek16(b, 42), Peek16(b, 44))
  }

  function ReadPhdr(m: Memory, d: nat, file: File, offset: word): Header {
    var b := ReadBytes(m, d, Add32(file.impl, offset), PHDR_SIZE);
    Header(Peek32(b, 0), Peek32(b, 4), Peek32(b, 8), Peek32(b, 16), Peek32(b, 20))
  }

  predicate Accepted(e: Ehdr) {
    e.magic == ELF_MAGIC && e.class_ == 1 && e.machine == 3 && e.kind == 2
  }

  // Where program header `i` lies in the file.
  function PhdrOffset(e: Ehdr, i: nat): word {
    (e.phoff + i * e.phentsize) % 0x1_0000_0000
  }

  // ---------- the loader ----------

  // The file holds a whole program header there.
  predicate Complete(file: File, offset: word) {
    Tar.ReadSize(file.length, offset, 32) >= 32
  }

  ghost function LoadHeader(l: Load, kd: nat, c: nat, file: File, offset: word): Progress {
    if !Complete(file, offset) then Failed(l)
    else
      var h := ReadPhdr(l.mem.words, kd, file, offset);
      if h.kind == PT_LOAD then LoadSegment(l, c, file, h) else Going(l)
  }

  ghost function LoadHeaders(l: Load, kd: nat, c: nat, file: File, e: Ehdr, i: nat): Progress {
    if i == 0 then Going(l)
    else match LoadHeaders(l, kd, c, file, e, i - 1)
      case Going(l') => LoadHeader(l', kd, c, file, PhdrOffset(e, i - 1))
      case r => r
  }

  ghost function FirstBlocks(blocks: seq<nat>, n: nat): set<nat> {
    set k | 0 <= k < |blocks| && k < n :: blocks[k]
  }

  // The blocks the cleanup can give back: the first 64.
  ghost function Tracked(blocks: seq<nat>): set<nat> {
    FirstBlocks(blocks, MAX_SEGMENT_BLOCKS)
  }

  lemma FirstBlocksStep(blocks: seq<nat>, n: nat)
    ensures FirstBlocks(blocks, 0) == {}
    ensures n < |blocks| ==> FirstBlocks(blocks, n + 1) == FirstBlocks(blocks, n) + {blocks[n]}
    ensures n >= |blocks| ==> FirstBlocks(blocks, n) == FirstBlocks(blocks, |blocks|)
  {
  }

  datatype Result =
    | Rejected                                         // nothing was changed
    | Success(mem: Mem, entry: word, pd: nat)
    | Failure(mem: Mem)                                // after the cleanup
    | Halted                                           // no memory for a page table

  ghost function LoadFile(s: Mem, kd: nat, file: File): Result {
    if Tar.ReadSize(file.length, 0, 52) < 52 then Rejected
    else
      var e := ReadEhdr(s.words, kd, file);
      if !Accepted(e) || s.free == {} then Rejected
      else
        var c := Lowest(s.free);
        match LoadHeaders(Start(s, kd), kd, c, file, e, e.phnum)
        case Going(l) => Success(l.mem, e.entry, c)
        case Failed(l) => Failure(l.mem.(free := l.mem.free + Tracked(l.blocks) + {c}))
        case Stopped => Halted
  }

  // The new directory is there; no segment is loaded yet.
  ghost function Start(s: Mem, kd: nat): Load
    requires s.free != {}
  {
    Load(CloneDirectory(s, kd), [], [])
  }

  // ---------- the account of a failing load ----------

  // Every loadable header, as it is read when its turn comes, is well formed.
  ghost predicate HeadersWellFormed(l: Load, kd: nat, c: nat, file: File, e: Ehdr, i: nat) {
    forall j: nat :: j < i && LoadHeaders(l, kd, c, file, e, j).Going? && Complete(file, PhdrOffset(e, j)) ==>
      var h := ReadPhdr(LoadHeaders(l, kd, c, file, e, j).load.mem.words, kd, file, PhdrOffset(e, j));
      h.kind == PT_LOAD ==> WellFormed(h)
  }

  lemma HeaderAccounts(s0: Mem, dirs: set<nat>, kd: nat, c: nat, l: Load, file: File, offset: word)
    requires Account(s0, dirs, c, l) && c in dirs && !LoadHeader(l, kd, c, file, offset).Stopped?
    requires Complete(file, offset) ==> var h := ReadPhdr(l.mem.words, kd, file, offset); h.kind == PT_LOAD ==> WellFormed(h)
    ensures Account(s0, dirs, c, LoadHeader(l, kd, c, file, offset).load)
  {
    hide Account, WellFormed, LoadSegment, ReadPhdr, Complete;
    var h := ReadPhdr(l.mem.words, kd, file, offset);
    if Complete(file, offset) && h.kind == PT_LOAD && !LoadSegment(l, c, file, h).Stopped? {
      SegmentAccounts(s0, dirs, c, l, file, h);
    }
  }

  lemma {:induction false} HeadersAccount(s0: Mem, dirs: set<nat>, kd: nat, c: nat, l: Load, file: File, e: Ehdr, i: nat)
    requires Account(s0, dirs, c, l) && c in dirs && HeadersWellFormed(l, kd, c, file, e, i)
    ensures !LoadHeaders(l, kd, c, file, e, i).Stopped? ==> Account(s0, dirs, c, LoadHeaders(l, kd, c, file, e, i).load)
    decreases i
  {
    hide Account, WellFormed, LoadHeader, ReadPhdr, PhdrOffset, Complete;
    if i > 0 {
      HeadersAccount(s0, dirs, kd, c, l, file, e, i - 1);
      var r := LoadHeaders(l, kd, c, file, e, i - 1);
      if r.Going? && !LoadHeader(r.load, kd, c, file, PhdrOffset(e, i - 1)).Stopped? {
        HeaderAccounts(s0, dirs, kd, c, r.load, file, PhdrOffset(e, i - 1));
      }
    }
  }

  lemma StartAccounts(s: Mem, dirs: set<nat>, kd: nat)
    requires Owned(s, dirs) && kd in dirs && s.free != {}
    ensures Account(Start(s, kd).mem, dirs + {Lowest(s.free)}, Lowest(s.free), Start(s, kd))
    ensures Start(s, kd).mem.free == s.free - {Lowest(s.free)}
  {
    hide Word, Copied;
    CloneKeepsOwned(s, dirs, kd);
    var m0 := Start(s, kd).mem.words;
    assert NewTables(m0, m0, Lowest(s.free)) == {};
  }

  lemma {:induction false} FirstBlocksSize(blocks: seq<nat>, n: nat)
    requires Distinct(blocks) && n <= |blocks|
    ensures |FirstBlocks(blocks, n)| == n
  {
    hide FirstBlocks;
    FirstBlocksStep(blocks, if n == 0 then 0 else n - 1);
    if n > 0 {
      FirstBlocksSize(blocks, n - 1);
      NotAmongFirst(blocks, n - 1);
    }
  }

  lemma NotAmongFirst(blocks: seq<nat>, n: nat)
    requires Distinct(blocks) && n < |blocks|
    ensures blocks[n] !in FirstBlocks(blocks, n)
  {
  }

  lemma TrackedSize(blocks: seq<nat>)
    requires Distinct(blocks)
    ensures |Tracked(blocks)| == if |blocks| < 64 then |blocks| else 64
  {
    FirstBlocksStep(blocks, 64);
    FirstBlocksSize(blocks, if |blocks| < 64 then |blocks| else 64);
  }

  // What the load allocated, once its loop has ended or failed.
  ghost function Final(s: Mem, kd: nat, file: File): Progress
    requires s.free != {}
  {
    var e := ReadEhdr(s.words, kd, file);
    LoadHeaders(Start(s, kd), kd, Lowest(s.free), file, e, e.phnum)
  }

  // Every loadable header is well formed, as it is read when its turn comes.
  ghost predicate GoodHeaders(s: Mem, kd: nat, file: File) {
    s.free != {} ==>
      var e := ReadEhdr(s.words, kd, file);
      HeadersWellFormed(Start(s, kd), kd, Lowest(s.free), file, e, e.phnum)
  }

  lemma FinalAccount(s: Mem, dirs: set<nat>, kd: nat, file: File)
    requires Owned(s, dirs) && kd in dirs && s.free != {} && GoodHeaders(s, kd, file)
    ensures !Final(s, kd, file).Stopped? ==>
              Account(Start(s, kd).mem, dirs + {Lowest(s.free)}, Lowest(s.free), Final(s, kd, file).load)
  {
    hide Account, HeadersWellFormed, LoadHeaders, ReadEhdr, Owned;
    var e, c := ReadEhdr(s.words, kd, file), Lowest(s.free);
    StartAccounts(s, dirs, kd);
    HeadersAccount(Start(s, kd).mem, dirs + {c}, kd, c, Start(s, kd), file, e, e.phnum);
  }

  // A failing load gives back its directory and its first 64 blocks and nothing that was
  // not its own; what stays taken is its new page tables and the blocks beyond the 64.
  lemma FailureAccount(s: Mem, dirs: set<nat>, kd: nat, file: File)
    requires Owned(s, dirs) && kd in dirs && LoadFile(s, kd, file).Failure? && GoodHeaders(s, kd, file)
    ensures
      var c, l := Lowest(s.free), Final(s, kd, file).load;
      var free' := LoadFile(s, kd, file).mem.free;
      && free' <= s.free
      && c in free' && (forall k :: 0 <= k < |l.blocks| && k < 64 ==> l.blocks[k] in free')
      && |s.free| - |free'| ==
         |NewTables(Start(s, kd).mem.words, l.mem.words, c)| + (if |l.blocks| > 64 then |l.blocks| - 64 else 0)
  {
    var c, l := Lowest(s.free), Final(s, kd, file).load;
    var s0 := Start(s, kd).mem;
    FinalAccount(s, dirs, kd, file);
    TrackedSize(l.blocks);
    hide Word, Owned, Untabled, LoadHeaders, HeadersWellFormed, NewTables;
    var tracked := Tracked(l.blocks);
    assert tracked !! l.mem.free && tracked <= s0.free;
    assert |l.mem.free + tracked| == |l.mem.free| + |tracked|;
    assert c !in l.mem.free + tracked;
  }

  // After the cleanup the directories that were there before still own their tables.
  lemma FailureKeepsOwned(s: Mem, dirs: set<nat>, kd: nat, file: File)
    requires Owned(s, dirs) && kd in dirs && LoadFile(s, kd, file).Failure? && GoodHeaders(s, kd, file)
    ensures Owned(LoadFile(s, kd, file).mem, dirs)
  {
    var c, l := Lowest(s.free), Final(s, kd, file).load;
    FinalAccount(s, dirs, kd, file);
    assert c !in dirs && FramesOwned(Start(s, kd).mem, dirs + {c}) by {
      CloneMeaning(s, dirs, kd);
      CloneKeepsOwned(s, dirs, kd);
    }
    hide Word, Owned, Untabled, LoadHeaders, HeadersWellFormed, NewTables, ReadEhdr;
    var tracked := Tracked(l.blocks);
    GiveKeepsOwned(l.mem, dirs + {c}, tracked);
    DropKeepsOwned(l.mem.(free := l.mem.free + tracked), dirs + {c}, c);
    assert dirs + {c} - {c} == dirs;
  }
}
