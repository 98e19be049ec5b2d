/**
  The allocator's bitmap as the bytes of RAM it occupies (`pmm_init`, src/pmm.c): it starts
  where the kernel image ends, and whatever lies there is overwritten. Exactly when a module
  and the boot information survive that.
 */
module BitmapRam {
  import opened Words
  import opened Paging
  import opened Bytes
  import opened BootMap

  // ---------- bytes of RAM by address ----------

  function RamByte(m: Memory, a: nat): byte {
    Byte(m, a / 4096, a % 4096)
  }

  function PutByte(m: Memory, a: nat, b: byte): Memory {
    SetByte(m, a / 4096, a % 4096, b)
  }

  // RAM with `data` at address `at`.
  function PutBytes(m: Memory, at: nat, data: seq<byte>): Memory
    decreases |data|
  {
    if data == [] then m
    else PutByte(PutBytes(m, at, data[..|data| - 1]), at + |data| - 1, data[|data| - 1])
  }

  lemma SameAddress(a: nat, x: nat)
    ensures a / 4096 == x / 4096 && a % 4096 == x % 4096 <==> a == x
  {
  }

  // `m` is whole frames, and address `a` is inside.
  predicate InMemory(m: Memory, a: nat) {
    |m| % 1024 == 0 && a < 4 * |m|
  }

  lemma InMemoryFrame(m: Memory, a: nat)
    requires InMemory(m, a)
    ensures InRam(m, a / 4096)
  {
    var f := |m| / 1024;
    assert |m| == 1024 * f;
  }

  lemma PutByteMeaning(m: Memory, a: nat, b: byte, x: nat)
    requires InMemory(m, a)
    ensures |PutByte(m, a, b)| == |m|
    ensures RamByte(PutByte(m, a, b), x) == if x == a then b else RamByte(m, x)
  {
    InMemoryFrame(m, a);
    SetByteMeaning(m, a / 4096, a % 4096, b);
    SameAddress(a, x);
    hide SetByte, Byte;
  }

  lemma {:induction false} PutMeaning(m: Memory, at: nat, data: seq<byte>, x: nat)
    requires |m| % 1024 == 0 && at + |data| <= 4 * |m|
    ensures |PutBytes(m, at, data)| == |m|
    ensures RamByte(PutBytes(m, at, data), x) == if at <= x < at + |data| then data[x - at] else RamByte(m, x)
    decreases |data|
  {
    hide RamByte, PutByte;
    if data != [] {
      var n := |data| - 1;
      PutMeaning(m, at, data[..n], x);
      PutByteMeaning(PutBytes(m, at, data[..n]), at + n, data[n], x);
    }
  }

  // ---------- what survives ----------

  // The bytes from `from` up to `to - 1`.
  datatype Span = Span(from: nat, to: nat)

  predicate Clear(s: Span, t: Span) {
    s.to <= t.from || t.to <= s.from
  }

  predicate Within(s: Span, a: nat) {
    s.from <= a < s.to
  }

  ghost predicate Survives(m: Memory, m': Memory, s: Span) {
    forall a :: Within(s, a) ==> RamByte(m', a) == RamByte(m, a)
  }

  lemma ClearSurvives(m: Memory, at: nat, data: seq<byte>, s: Span)
    requires |m| % 1024 == 0 && at + |data| <= 4 * |m| && Clear(s, Span(at, at + |data|))
    ensures Survives(m, PutBytes(m, at, data), s)
  {
    hide RamByte, PutBytes;
    forall a | Within(s, a)
      ensures RamByte(PutBytes(m, at, data), a) == RamByte(m, a)
    {
      PutMeaning(m, at, data, a);
    }
  }

  function Ones(n: nat): (r: seq<byte>)
    ensures |r| == n && forall i :: 0 <= i < n ==> r[i] == 255
  {
    seq<byte>(n, i => 255)
  }

  // A module keeps its bytes through the memset exactly when it is clear of the bitmap, or
  // all it has there was 0xFF already.
  lemma MemsetKeepsIff(m: Memory, at: nat, n: nat, s: Span)
    requires |m| % 1024 == 0 && at + n <= 4 * |m| && n > 0 && s.from < s.to
    ensures Survives(m, PutBytes(m, at, Ones(n)), s) <==>
            Clear(s, Span(at, at + n)) || forall a :: Within(s, a) && Within(Span(at, at + n), a) ==> RamByte(m, a) == 255
  {
    hide RamByte, PutBytes;
    forall a: nat
      ensures RamByte(PutBytes(m, at, Ones(n)), a) == if Within(Span(at, at + n), a) then 255 else RamByte(m, a)
    {
      PutMeaning(m, at, Ones(n), a);
    }
  }

  // A module keeps its bytes whatever the allocator keeps in its bitmap exactly when the two
  // are clear of each other.
  lemma AlwaysSurvivesIff(m: Memory, at: nat, n: nat, s: Span)
    requires |m| % 1024 == 0 && at + n <= 4 * |m| && n > 0 && s.from < s.to
    ensures (forall data: seq<byte> :: |data| == n ==> Survives(m, PutBytes(m, at, data), s)) <==> Clear(s, Span(at, at + n))
  {
    hide RamByte, PutBytes;
    if Clear(s, Span(at, at + n)) {
      forall data: seq<byte> | |data| == n
        ensures Survives(m, PutBytes(m, at, data), s)
      {
        ClearSurvives(m, at, data, s);
      }
    } else {
      var a := if s.from < at then at else s.from;
      var data := seq<byte>(n, i => if RamByte(m, a) == 0 then 1 else 0);
      PutMeaning(m, at, data, a);
      assert Within(s, a) && RamByte(PutBytes(m, at, data), a) != RamByte(m, a);
    }
  }

  // ---------- the boot information in RAM ----------

  function Dword(m: Memory, a: nat): word {
    Join(RamByte(m, a), RamByte(m, a + 1), RamByte(m, a + 2), RamByte(m, a + 3))
  }

  lemma DwordSurvives(m: Memory, m': Memory, s: Span, a: nat)
    requires Survives(m, m', s) && s.from <= a && a + 4 <= s.to
    ensures Dword(m', a) == Dword(m, a)
  {
    hide RamByte;
    assert Within(s, a) && Within(s, a + 1) && Within(s, a + 2) && Within(s, a + 3);
  }

  // The map entry at address `p`: size, base and length in two halves, type.
  function MapIn(m: Memory): MemoryMap {
    (p: nat) => Entry(Dword(m, p), Dword(m, p + 4), Dword(m, p + 8), Dword(m, p + 12), Dword(m, p + 16), Dword(m, p + 20) == 1)
  }

  function ModsIn(m: Memory, a: nat, count: nat): (r: seq<Module>)
    ensures |r| == count
  {
    seq(count, i requires 0 <= i < count => Module(Dword(m, a + 16 * i), Dword(m, a + 16 * i + 4)))
  }

  // The Multiboot information structure at address `mbi`.
  function InfoIn(m: Memory, mbi: nat): BootInfo {
    BootInfo(Dword(m, mbi), Dword(m, mbi + 48), Dword(m, mbi + 44), ModsIn(m, Dword(m, mbi + 24), Dword(m, mbi + 20)))
  }

  // All that `pmm_init` reads from RAM is clear of `own`.
  predicate InfoClear(m: Memory, mbi: nat, own: Span) {
    var info := InfoIn(m, mbi);
    var mods := Dword(m, mbi + 24);
    && Clear(Span(mbi, mbi + 52), own)
    && Clear(Span(mods, mods + 16 * |info.mods|), own)
    && Clear(Span(info.mmapAddr, MapEnd(info) + 24), own)
  }

  lemma EntrySurvives(m: Memory, m': Memory, s: Span, p: nat)
    requires Survives(m, m', s) && s.from <= p && p + 24 <= s.to
    ensures MapIn(m')(p) == MapIn(m)(p)
  {
    hide Dword, Survives;
    DwordSurvives(m, m', s, p);
    DwordSurvives(m, m', s, p + 4);
    DwordSurvives(m, m', s, p + 8);
    DwordSurvives(m, m', s, p + 12);
    DwordSurvives(m, m', s, p + 16);
    DwordSurvives(m, m', s, p + 20);
  }

  lemma {:induction false} WalkSurvives(m: Memory, m': Memory, s: Span, p: nat, end: nat)
    requires Survives(m, m', s) && s.from <= p && end + 24 <= s.to
    ensures FreedBlocks(MapIn(m'), p, end) == FreedBlocks(MapIn(m), p, end)
    ensures HighestEnd(MapIn(m'), p, end) == HighestEnd(MapIn(m), p, end)
    decreases end - p
  {
    hide MapIn, Survives, EntryBlocks;
    if p < end {
      EntrySurvives(m, m', s, p);
      WalkSurvives(m, m', s, BootMap.Next(MapIn(m), p), end);
    }
  }

  lemma ModsSurvive(m: Memory, m': Memory, a: nat, count: nat)
    requires Survives(m, m', Span(a, a + 16 * count))
    ensures ModsIn(m', a, count) == ModsIn(m, a, count)
  {
    hide Dword, Survives;
    forall i | 0 <= i < count
      ensures ModsIn(m', a, count)[i] == ModsIn(m, a, count)[i]
    {
      DwordSurvives(m, m', Span(a, a + 16 * count), a + 16 * i);
      DwordSurvives(m, m', Span(a, a + 16 * count), a + 16 * i + 4);
    }
  }

  // What `pmm_init` reads after it has written its bitmap is what it read before.
  lemma InfoSurvives(m: Memory, mbi: nat, at: nat, data: seq<byte>)
    requires |m| % 1024 == 0 && at + |data| <= 4 * |m| && InfoClear(m, mbi, Span(at, at + |data|))
    ensures
      var m', info := PutBytes(m, at, data), InfoIn(m, mbi);
      && InfoIn(m', mbi) == info
      && FreedBlocks(MapIn(m'), info.mmapAddr, MapEnd(info)) == FreedBlocks(MapIn(m), info.mmapAddr, MapEnd(info))
      && TotalBlocks(info, MapIn(m')) == TotalBlocks(info, MapIn(m))
  {
    hide Dword, PutBytes, Survives, MapIn, FreedBlocks, HighestEnd, ModsIn;
    var m', info, mods := PutBytes(m, at, data), InfoIn(m, mbi), Dword(m, mbi + 24);
    var head := Span(mbi, mbi + 52);
    ClearSurvives(m, at, data, head);
    DwordSurvives(m, m', head, mbi);
    DwordSurvives(m, m', head, mbi + 20);
    DwordSurvives(m, m', head, mbi + 24);
    DwordSurvives(m, m', head, mbi + 44);
    DwordSurvives(m, m', head, mbi + 48);
    ClearSurvives(m, at, data, Span(mods, mods + 16 * |info.mods|));
    ModsSurvive(m, m', mods, |info.mods|);
    ClearSurvives(m, at, data, Span(info.mmapAddr, MapEnd(info) + 24));
    WalkSurvives(m, m', Span(info.mmapAddr, MapEnd(info) + 24), info.mmapAddr, MapEnd(info));
  }

  // ---------- the bitmap's bytes ----------

  function BitmapBytes(total: nat): nat { (total + 31) / 32 * 4 }

  function BitmapSpan(kernelEnd: nat, total: nat): Span {
    Span(kernelEnd, kernelEnd + BitmapBytes(total))
  }

  function BytesOf(bits: seq<word>): (r: seq<byte>)
    ensures |r| == 4 * |bits|
  {
    seq<byte>(4 * |bits|, i requires 0 <= i < 4 * |bits| => ByteOf(bits[i / 4], i % 4))
  }

  lemma {:induction false} ByteBit(w: nat, k: nat, j: nat)
    requires j < 8
    ensures Bit(ByteOf(w, k), j) == Bit(w, 8 * k + j)
  {
    if k == 0 {
      LowByteBit(w, j);
    } else {
      ByteBit(w / 256, k - 1, j);
      Shifted(w, 8 * (k - 1) + j);
    }
  }

  lemma LowByteBit(w: nat, j: nat)
    requires j < 8
    ensures Bit(w % 256, j) == Bit(w, j)
  {
    assert Pow2(8) == 256;
    LowBits(w / 256, w % 256, 8, j);
  }

  // What is added above bit `n` does not change the bits below.
  lemma {:induction false} LowBits(q: nat, r: nat, n: nat, j: nat)
    requires j < n
    ensures Bit(q * Pow2(n) + r, j) == Bit(r, j)
    decreases n
  {
    Doubled(q, n);
    hide Pow2;
    var y := q * Pow2(n - 1);
    assert (2 * y + r) / 2 == y + r / 2 && (2 * y + r) % 2 == r % 2;
    if j > 0 {
      LowBits(q, r / 2, n - 1, j - 1);
    }
  }

  lemma Shifted(w: nat, i: nat)
    ensures Bit(w / 256, i) == Bit(w, i + 8)
  {
    assert w / 2 / 2 / 2 / 2 / 2 / 2 / 2 / 2 == w / 256;
    assert Bit(w, i + 8) == Bit(w / 2, i + 7) == Bit(w / 2 / 2, i + 6) == Bit(w / 2 / 2 / 2, i + 5);
    assert Bit(w / 2 / 2 / 2, i + 5) == Bit(w / 2 / 2 / 2 / 2, i + 4) == Bit(w / 2 / 2 / 2 / 2 / 2, i + 3);
    assert Bit(w / 2 / 2 / 2 / 2 / 2, i + 3) == Bit(w / 2 / 2 / 2 / 2 / 2 / 2, i + 2) == Bit(w / 2 / 2 / 2 / 2 / 2 / 2 / 2, i + 1);
  }

  // Block `b` in RAM: bit b % 8 of byte b / 8 of the bitmap.
  lemma BitmapSeen(m: Memory, at: nat, bits: seq<word>, b: nat)
    requires |m| % 1024 == 0 && at + 4 * |bits| <= 4 * |m| && b < 32 * |bits|
    ensures Bit(RamByte(PutBytes(m, at, BytesOf(bits)), at + b / 8), b % 8) == Bit(bits[b / 32], b % 32)
  {
    hide RamByte, PutBytes, Bit, ByteOf;
    PutMeaning(m, at, BytesOf(bits), at + b / 8);
    assert b / 8 / 4 == b / 32 && 8 * (b / 8 % 4) + b % 8 == b % 32;
    ByteBit(bits[b / 32], b / 8 % 4, b % 8);
  }

  // ---------- a boot that does overlap ----------

  // 128 MB of usable RAM, the kernel from 1 MB to 2 MB, and a module right behind it; the
  // memory map may lie anywhere.
  function OverlapMap(p: nat): MemoryMap {
    (q: nat) => Entry(20, 0, 0, 0x800_0000, 0, q == p)
  }

  function OverlapInfo(p: word): BootInfo {
    BootInfo(0x48, p, 24, [Module(0x20_0000, 0x20_2000)])
  }

  // A map of one entry.
  lemma WalkOne(at: MemoryMap, p: nat, end: nat)
    requires p < end <= BootMap.Next(at, p)
    ensures HighestEnd(at, p, end) == (if at(p).usable then at(p).End() else 0) && Entries(at, p, end) == {p}
  {
    hide BootMap.Next, Entry.End;
    var q := BootMap.Next(at, p);
    assert HighestEnd(at, q, end) == 0 && Entries(at, q, end) == {};
  }

  lemma OverlapTotal(p: word)
    requires p + 24 < WORD_SIZE
    ensures TotalBlocks(OverlapInfo(p), OverlapMap(p)) == 0x8000 && MapEnd(OverlapInfo(p)) == p + 24
    ensures Entries(OverlapMap(p), p, p + 24) == {p}
  {
    hide HighestEnd, Entries;
    WalkOne(OverlapMap(p), p, p + 24);
  }

  lemma OverlapIsGood(p: word)
    requires p + 24 < WORD_SIZE
    ensures GoodBoot(OverlapInfo(p), OverlapMap(p), 0x10_0000, 0x20_0000)
  {
    hide HighestEnd, Entries, TotalBlocks;
    OverlapTotal(p);
  }

  // The boot is well formed, and the memset replaces any byte of the module's first page
  // that is not 0xFF.
  lemma OverlapDestroys(m: Memory, p: word, a: nat)
    requires p + 24 < WORD_SIZE
    requires |m| == 1024 * 0x8000 && 0x20_0000 <= a < 0x20_1000 && RamByte(m, a) != 255
    ensures GoodBoot(OverlapInfo(p), OverlapMap(p), 0x10_0000, 0x20_0000)
    ensures |m| == 1024 * TotalBlocks(OverlapInfo(p), OverlapMap(p))
    ensures !Survives(m, PutBytes(m, 0x20_0000, Ones(BitmapBytes(TotalBlocks(OverlapInfo(p), OverlapMap(p))))),
                      Span(0x20_0000, 0x20_2000))
  {
    hide RamByte, PutBytes, Survives, GoodBoot, TotalBlocks, OverlapInfo, OverlapMap, Ones;
    OverlapTotal(p);
    OverlapIsGood(p);
    var n := BitmapBytes(TotalBlocks(OverlapInfo(p), OverlapMap(p)));
    assert n == 0x1000;
    MemsetKeepsIff(m, 0x20_0000, n, Span(0x20_0000, 0x20_2000));
    assert Within(Span(0x20_0000, 0x20_2000), a) && Within(Span(0x20_0000, 0x20_0000 + n), a);
  }
}
