/**
  Two concrete loads (src/elf.c): in a machine of seven frames a small executable asks for two
  pages in a directory slot that has no table. With three free frames the load fails and
  leaves a frame taken; with two it halts.
 */
module ElfExamples {
  import opened Words
  import opened Paging
  import opened IdentityMap
  import opened Bytes
  import opened ElfImage
  import opened Elf
  import opened ElfCost
  import opened ElfTheorems
  import opened ElfOutcome
  import opened BitmapRam

  // ---------- the machine ----------

  // An ELF header and one program header: two pages of zeros at 4 MB.
  const ELF_WORDS: seq<word> :=
    [ELF_MAGIC, 1, 0, 0, 0x3_0002, 1, 0x40_0000, 52, 0, 0, 0x20_0034, 1, 0,
     1, 0, 0x40_0000, 0, 0, 0x2000, 0, 0]

  // Frame 1 is the directory, with frame 2 as its one table; frame 3 holds the file.
  function TinyWord(f: nat, i: nat): word {
    if f == 1 && i == 0 then 4096 * 2 + 7
    else if f == 2 && i < 7 then 4096 * i + 7
    else if f == 3 && i < |ELF_WORDS| then ELF_WORDS[i]
    else 0
  }

  function TinyRam(): (m: Memory)
    ensures |m| == 1024 * 7
  {
    seq(1024 * 7, k requires 0 <= k < 1024 * 7 => TinyWord(k / 1024, k % 1024))
  }

  const FILE := File(4096 * 3, 84)

  lemma TinyAt(f: nat, i: nat)
    requires i < 1024
    ensures Word(TinyRam(), f, i) == if f < 7 then TinyWord(f, i) else 0
  {
    hide TinyWord;
    assert (1024 * f + i) / 1024 == f && (1024 * f + i) % 1024 == i;
  }

  lemma TinyTables(i: nat)
    requires i < 1024
    ensures HasTable(TinyRam(), 1, i) <==> i == 0
    ensures TableOf(TinyRam(), 1, 0) == 2 && Word(TinyRam(), 1, 0) % 8 == 7
  {
    TinyAt(1, i);
    TinyAt(1, 0);
    hide TinyRam, Fetch;
  }

  lemma TinyIdentity()
    ensures Identity(TinyRam(), 1, 7)
  {
    hide TinyRam, Fetch, Word, Decode;
    TinyTables(0);
    hide HasTable, TableOf;
    forall p: nat | p < 7
      ensures Walk(TinyRam(), 1, p).Some? && Walk(TinyRam(), 1, p).value.frame == p
    {
      TinyAt(2, p);
      DecodePacked(p, 7);
    }
  }

  ghost predicate TinyFree(free: set<nat>) {
    forall f :: f in free ==> 4 <= f < 7
  }

  lemma TinyOwned(free: set<nat>)
    requires TinyFree(free)
    ensures Owned(Mem(TinyRam(), free), {1})
    ensures forall g: nat :: g !in {1, 2} ==> Untabled(TinyRam(), {1}, g)
  {
    hide TinyRam, Fetch, Word, HasTable, TableOf;
    forall i: nat | i < 1024
      ensures HasTable(TinyRam(), 1, i) <==> i == 0
    {
      TinyTables(i);
    }
    TinyTables(0);
  }

  // The bitmap has four bytes, at address 0.
  lemma TinySetting(free: set<nat>)
    requires TinyFree(free)
    ensures Setting(Mem(TinyRam(), free), {1}, 1, FILE, 7, Span(0, 4))
  {
    TinyOwned(free);
    TinyIdentity();
    hide TinyRam, Owned, Untabled, Identity;
    forall p: nat | FileFrame(FILE, p)
      ensures p == 3
    {
    }
    forall g: nat | FrameOf(Span(0, 4), g)
      ensures g == 0
    {
    }
  }

  // ---------- reading words ----------

  lemma TwoDigits(x: nat)
    ensures x % 256 + 256 * (x / 256 % 256) == x % 65536
  {
    var q, r := x / 65536, x % 65536;
    assert x / 256 == 256 * q + r / 256;
    assert x / 256 % 256 == r / 256;
  }

  lemma TwiceDivided(x: nat)
    ensures x / 256 / 256 == x / 65536
  {
  }

  lemma BytesAre(w: nat)
    ensures ByteOf(w, 0) == w % 256 && ByteOf(w, 1) == w / 256 % 256
    ensures ByteOf(w, 2) == w / 256 / 256 % 256 && ByteOf(w, 3) == w / 256 / 256 / 256 % 256
  {
    assert ByteOf(w, 2) == ByteOf(w / 256, 1);
    assert ByteOf(w, 3) == ByteOf(w / 256, 2) == ByteOf(w / 256 / 256, 1);
  }

  lemma JoinOfBytes(w: word)
    ensures ByteOf(w, 0) + 256 * ByteOf(w, 1) == w % 65536 && ByteOf(w, 2) + 256 * ByteOf(w, 3) == w / 65536
  {
    hide ByteOf;
    BytesAre(w);
    TwoDigits(w);
    TwiceDivided(w);
    TwoDigits(w / 65536);
    assert w / 65536 < 65536;
  }

  // Byte `x` of what is read from word `o` of the file's page on.
  lemma ByteRead(o: nat, n: nat, x: nat)
    requires x < n && 4 * o + n <= 4096
    ensures ReadBytes(TinyRam(), 1, 4096 * 3 + 4 * o, n)[x] == ByteOf(TinyWord(3, o + x / 4), x % 4)
  {
    hide TinyRam, TinyWord, Walk, Word;
    TinyIdentity();
    var va := 4096 * 3 + 4 * o + x;
    assert va / 4096 == 3 && va % 4096 == 4 * o + x;
    assert (4 * o + x) / 4 == o + x / 4 && (4 * o + x) % 4 == x % 4;
    TinyAt(3, o + x / 4);
    assert Walk(TinyRam(), 1, 3).Some? && Walk(TinyRam(), 1, 3).value.frame == 3;
    assert ByteAt(TinyRam(), 1, va) == Byte(TinyRam(), 3, 4 * o + x);
    assert Byte(TinyRam(), 3, 4 * o + x) == ByteOf(Word(TinyRam(), 3, o + x / 4), x % 4);
  }

  lemma WordRead(o: nat, n: nat, j: nat)
    requires 4 * j + 4 <= n && 4 * o + n <= 4096
    ensures
      var b, w := ReadBytes(TinyRam(), 1, 4096 * 3 + 4 * o, n), TinyWord(3, o + j);
      && Peek32(b, 4 * j) == w && Peek(b, 4 * j) == ByteOf(w, 0)
      && Peek16(b, 4 * j) == w % 65536 && Peek16(b, 4 * j + 2) == w / 65536
  {
    hide TinyRam, TinyWord, ByteOf, ReadBytes;
    ByteRead(o, n, 4 * j);
    ByteRead(o, n, 4 * j + 1);
    ByteRead(o, n, 4 * j + 2);
    ByteRead(o, n, 4 * j + 3);
    JoinOfBytes(TinyWord(3, o + j));
  }

  lemma TinyHeader()
    ensures ReadEhdr(TinyRam(), 1, FILE) == Ehdr(ELF_MAGIC, 1, 2, 3, 0x40_0000, 52, 32, 1)
  {
    hide TinyRam, ReadBytes, Peek32, Peek16, Peek;
    assert ByteOf(1, 0) == 1;
    hide ByteOf;
    WordRead(0, 52, 0);
    WordRead(0, 52, 1);
    WordRead(0, 52, 4);
    WordRead(0, 52, 6);
    WordRead(0, 52, 7);
    WordRead(0, 52, 10);
    WordRead(0, 52, 11);
  }

  lemma TinyProgramHeader()
    ensures ReadPhdr(TinyRam(), 1, FILE, 52) == Header(1, 0, 0x40_0000, 0, 0x2000)
  {
    hide TinyRam, ReadBytes, Peek32, Peek16, Peek;
    assert Add32(FILE.impl, 52) == 4096 * 3 + 4 * 13;
    WordRead(13, 32, 0);
    WordRead(13, 32, 1);
    WordRead(13, 32, 2);
    WordRead(13, 32, 4);
    WordRead(13, 32, 5);
  }

  // ---------- what the file asks for ----------

  // Two pages in slot 1, which has no table.
  lemma TinyAsked(free: set<nat>)
    ensures
      var s := Mem(TinyRam(), free);
      && Loadable(s, 1, FILE, 7, ReadEhdr(s.words, 1, FILE).phnum)
      && Asked(s, 1, FILE) == [1024, 1025] && Whole(s, 1, FILE)
      && (free != {} ==> Tried(s, 1, FILE))
  {
    hide TinyRam, ReadEhdr, ReadPhdr;
    TinyHeader();
    TinyProgramHeader();
    var s := Mem(TinyRam(), free);
    assert PhdrOffset(ReadEhdr(s.words, 1, FILE), 0) == 52;
    var h := Phdr(s, 1, FILE, 0);
    assert h.First() == 1024 && h.Count() == 2;
    assert Planned(s, 1, FILE, 0) == [];
    assert HeaderPages(s, 1, FILE, 0) == Range(1024, 2) == [1024, 1025];
    assert Planned(s, 1, FILE, 1) == [1024, 1025];
  }

  lemma TinyCost()
    ensures Cost(TinyRam(), 1, []) == 0 && Cost(TinyRam(), 1, [1024]) == 2 && Cost(TinyRam(), 1, [1024, 1025]) == 3
  {
    hide TinyRam, Cost, HasTable;
    TinyTables(1);
    CostNone(TinyRam(), 1);
    CostNext(TinyRam(), 1, [], 1024);
    CostNext(TinyRam(), 1, [1024], 1025);
    assert [] + [1024] == [1024] && [1024] + [1025] == [1024, 1025];
    assert !UsesSlot([], 1);
    UsesNext([], 1024, 1);
  }

  lemma TinyFit(budget: nat, k: nat)
    requires (budget == 2 && k == 1) || (budget == 1 && k == 0)
    ensures Fit(TinyRam(), 1, [1024, 1025], budget) == k
  {
    hide TinyRam, Cost;
    TinyCost();
    var all: seq<nat> := [1024, 1025];
    assert all[..0] == [] && all[..1] == [1024] && all[..2] == all;
    FitUnique(TinyRam(), 1, all, budget, k);
  }

  // ---------- the two loads ----------

  // Three free frames: the directory, one page and its table use them up; the second page
  // fails, and the table stays taken although the load returns -1.
  lemma LeakingLoad()
    ensures
      var s := Mem(TinyRam(), {4, 5, 6});
      && Setting(s, {1}, 1, FILE, 7, Span(0, 4))
      && LoadFile(s, 1, FILE).Failure? && |LoadFile(s, 1, FILE).mem.free| == 2
  {
    hide TinyRam, LoadFile, Asked, ReadEhdr, Cost, Setting, Loadable, Tried, Whole, Fit;
    var s := Mem(TinyRam(), {4, 5, 6});
    TinySetting({4, 5, 6});
    TinyAsked({4, 5, 6});
    TinyCost();
    TinyFit(2, 1);
    var all: seq<nat> := [1024, 1025];
    assert all[..1] == [1024];
    OutcomeIff(s, {1}, 1, FILE, 7, Span(0, 4));
    FailureLeaks(s, {1}, 1, FILE, 7, Span(0, 4));
  }

  // Two free frames: the directory and the first page's block use them up, and with no frame
  // for the table the machine halts.
  lemma HaltingLoad()
    ensures
      var s := Mem(TinyRam(), {4, 5});
      Setting(s, {1}, 1, FILE, 7, Span(0, 4)) && LoadFile(s, 1, FILE) == Halted
  {
    hide TinyRam, LoadFile, Asked, ReadEhdr, Cost, Setting, Loadable, Tried, Whole, Fit;
    var s := Mem(TinyRam(), {4, 5});
    TinySetting({4, 5});
    TinyAsked({4, 5});
    TinyCost();
    TinyFit(1, 0);
    var all: seq<nat> := [1024, 1025];
    assert all[..0] == [];
    OutcomeIff(s, {1}, 1, FILE, 7, Span(0, 4));
  }
}
