/**
  Several directories over one physical memory: the loader's clone of a directory
  (src/elf.c), and the accessed and dirty bits the processor sets in the entries it uses
  (section 4.8 of the Intel SDM, Volume 3A).
 */
module AddressSpaces {
  import opened Words
  import opened Frames
  import opened Paging

  // ---------- cloning a directory ----------

  // The loader copies the directory frame; the page tables stay shared.
  ghost function CloneDirectory(s: Mem, d: nat): Mem
    requires s.free != {}
  {
    var c := Lowest(s.free);
    Mem(Copied(s.words, c, d), s.free - {c})
  }

  lemma CloneMeaning(s: Mem, dirs: set<nat>, d: nat)
    requires Owned(s, dirs) && d in dirs && s.free != {}
    ensures
      var c, m' := Lowest(s.free), CloneDirectory(s, d).words;
      && c !in dirs && |m'| == |s.words|
      && (forall i: nat :: i < 1024 ==> Word(m', c, i) == Word(s.words, d, i))
      && SameOutside(s.words, m', {c})
  {
    CopiedMeaning(s.words, Lowest(s.free), d);
    hide Word, Copied;
  }

  lemma CloneKeepsOwned(s: Mem, dirs: set<nat>, d: nat)
    requires Owned(s, dirs) && d in dirs && s.free != {}
    ensures Owned(CloneDirectory(s, d), dirs + {Lowest(s.free)})
  {
    CloneMeaning(s, dirs, d);
    var c, s' := Lowest(s.free), CloneDirectory(s, d);
    var dirs' := dirs + {c};
    hide Word, CloneDirectory;
    assert s'.free == s.free - {c} by { CloneFree(s, d); }
    forall e, i: nat | e in dirs' && i < 1024
      ensures Word(s'.words, e, i) == Word(s.words, if e == c then d else e, i)
    {
    }
    assert TablesOwned(s', dirs') by {
      forall e, i: nat | e in dirs' && i < 1024 && HasTable(s'.words, e, i)
        ensures TableFrame(s', dirs', TableOf(s'.words, e, i)) && Word(s'.words, e, i) % 8 == 7
      {
        var o := if e == c then d else e;
        assert HasTable(s.words, o, i);
        assert TableFrame(s, dirs, TableOf(s.words, o, i));
      }
    }
    forall e, i: nat | e in dirs' && i < 1024 && HasTable(s'.words, e, i)
      ensures HasTable(s.words, if e == c then d else e, i)
           && TableOf(s.words, if e == c then d else e, i) == TableOf(s'.words, e, i)
    {
    }
    assert OneSlotPerTable(s'.words, dirs');
  }

  lemma CloneFree(s: Mem, d: nat)
    requires s.free != {}
    ensures CloneDirectory(s, d).free == s.free - {Lowest(s.free)}
  {
  }

  // The clone translates every page as its original does, and shares exactly the
  // tables that are present when it is made.
  lemma CloneTranslates(s: Mem, dirs: set<nat>, d: nat, p: nat)
    requires Owned(s, dirs) && d in dirs && s.free != {} && p < PAGES
    ensures
      var c, m' := Lowest(s.free), CloneDirectory(s, d).words;
      && Walk(m', c, p) == Walk(s.words, d, p)
      && (Shares(m', d, c, p / 1024) <==> HasTable(s.words, d, p / 1024))
  {
    CloneMeaning(s, dirs, d);
    hide Word, CloneDirectory, Decode;
    if HasTable(s.words, d, p / 1024) {
      assert TableFrame(s, dirs, TableOf(s.words, d, p / 1024));
    }
  }

  // ---------- the accessed and dirty bits ----------

  function WithBit5(w: word): word { if w % 64 < 32 then w + 32 else w }
  function WithBit6(w: word): word { if w % 128 < 64 then w + 64 else w }

  // The processor marks an entry; the bits the kernel reads stay as they are.
  lemma Bit5Keeps(w: word)
    ensures WithBit5(w) / 4096 == w / 4096 && WithBit5(w) % 32 == w % 32
  {
    var q, r := w / 64, w % 64;
    if r < 32 {
      SplitAt64(q, r);
      SplitAt64(q, r + 32);
    }
  }

  lemma Bit6Keeps(w: word)
    ensures WithBit6(w) / 4096 == w / 4096 && WithBit6(w) % 32 == w % 32
  {
    var q, r := w / 128, w % 128;
    if r < 64 {
      SplitAt128(q, r);
      SplitAt128(q, r + 64);
    }
  }

  lemma SplitAt64(q: nat, r: nat)
    requires r < 64
    ensures (64 * q + r) / 4096 == q / 64 && (64 * q + r) % 32 == if r < 32 then r else r - 32
  {
    FrameBits(q / 64, 64 * (q % 64) + r);
    if r < 32 {
      LowFiveBits(2 * q, r);
    } else {
      LowFiveBits(2 * q + 1, r - 32);
    }
  }

  lemma SplitAt128(q: nat, r: nat)
    requires r < 128
    ensures (128 * q + r) / 4096 == q / 32
    ensures (128 * q + r) % 32 == r % 32 && (r < 64 ==> r % 32 == (r + 64) % 32)
  {
    FrameBits(q / 32, 128 * (q % 32) + r);
    LowFiveBits(4 * q + r / 32, r % 32);
  }

  function Marked(w: word, dirty: bool): word {
    if dirty then WithBit6(WithBit5(w)) else WithBit5(w)
  }

  lemma MarkedMeaning(w: word, dirty: bool)
    ensures Marked(w, dirty) / 4096 == w / 4096 && Marked(w, dirty) % 32 == w % 32
    ensures Marked(w, dirty) % 8 == w % 8 && Marked(w, dirty) % 2 == w % 2
    ensures Decode(Marked(w, dirty)) == Decode(w)
  {
    hide WithBit5, WithBit6;
    Bit5Keeps(w);
    Bit6Keeps(WithBit5(w));
    LowBits(w / 32, w % 32);
    LowBits(Marked(w, dirty) / 32, Marked(w, dirty) % 32);
  }

  lemma LowBits(q: nat, r: nat)
    ensures (32 * q + r) % 8 == r % 8 && (32 * q + r) % 2 == r % 2
  {
    assert 32 * q + r == 8 * (4 * q + r / 8) + r % 8;
    assert 32 * q + r == 2 * (16 * q + r / 2) + r % 2;
  }

  // A memory access to page `p` through directory `d` marks both entries it uses.
  function Touch(m: Memory, d: nat, p: nat, dirty: bool): Memory {
    var i, t, j := p / 1024, TableOf(m, d, p / 1024), p % 1024;
    Store(Store(m, d, i, Marked(Word(m, d, i), false)), t, j, Marked(Word(m, t, j), dirty))
  }

  ghost predicate SameBits(w: word, w': word) {
    w' / 4096 == w / 4096 && w' % 8 == w % 8 && w' % 2 == w % 2 && Decode(w') == Decode(w)
  }

  lemma TouchMeaning(s: Mem, dirs: set<nat>, d: nat, p: nat, dirty: bool)
    requires Owned(s, dirs) && d in dirs && p < PAGES && HasTable(s.words, d, p / 1024)
    ensures |Touch(s.words, d, p, dirty)| == |s.words|
    ensures forall g: nat, j: nat :: j < 1024 ==> SameBits(Word(s.words, g, j), Word(Touch(s.words, d, p, dirty), g, j))
  {
    var i, t, j := p / 1024, TableOf(s.words, d, p / 1024), p % 1024;
    assert TableFrame(s, dirs, t);
    var m1 := Store(s.words, d, i, Marked(Word(s.words, d, i), false));
    StoreMeaning(s.words, d, i, Marked(Word(s.words, d, i), false));
    StoreMeaning(m1, t, j, Marked(Word(s.words, t, j), dirty));
    MarkedMeaning(Word(s.words, d, i), false);
    MarkedMeaning(Word(s.words, t, j), dirty);
    hide Word, Store, Marked, Decode;
  }

  lemma TouchKeeps(s: Mem, dirs: set<nat>, d: nat, p: nat, dirty: bool)
    requires Owned(s, dirs) && d in dirs && p < PAGES && HasTable(s.words, d, p / 1024)
    ensures Owned(s.(words := Touch(s.words, d, p, dirty)), dirs)
    ensures forall e, q: nat :: e in dirs && q < PAGES ==>
              Walk(Touch(s.words, d, p, dirty), e, q) == Walk(s.words, e, q)
    ensures forall e, f, i: nat :: e in dirs && f in dirs && i < 1024 ==>
              Shares(Touch(s.words, d, p, dirty), e, f, i) == Shares(s.words, e, f, i)
  {
    TouchMeaning(s, dirs, d, p, dirty);
    hide Word, Touch, Decode;
    var m' := Touch(s.words, d, p, dirty);
    forall e, i: nat | e in dirs && i < 1024
      ensures HasTable(m', e, i) == HasTable(s.words, e, i)
      ensures TableOf(m', e, i) == TableOf(s.words, e, i)
      ensures Word(m', e, i) % 8 == Word(s.words, e, i) % 8
    {
      assert SameBits(Word(s.words, e, i), Word(m', e, i));
    }
    assert TablesOwned(s.(words := m'), dirs);
    assert OneSlotPerTable(m', dirs);
    forall e, q: nat | e in dirs && q < PAGES
      ensures Walk(m', e, q) == Walk(s.words, e, q)
    {
      if HasTable(s.words, e, q / 1024) {
        var t := TableOf(s.words, e, q / 1024);
        assert SameBits(Word(s.words, t, q % 1024), Word(m', t, q % 1024));
      }
    }
  }
}
