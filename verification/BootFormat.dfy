/**
  The boot information as section 3.3 of the Multiboot Specification 0.6.96 lays it out
  (src/multiboot.h), and what `pmm_init` makes of RAM that holds it: the tracked blocks and the
  free set in terms of the encoded records.
 */
module BootFormat {
  import opened Words
  import opened FrameRuns
  import opened BootMap
  import opened Paging
  import opened LittleEndian
  import opened BitmapRam

  // ---------- the format ----------

  // A memory map entry; `size` does not count itself, and `extra` fills it beyond 20 bytes.
  datatype Record = Record(addr: long, len: long, kind: word, extra: seq<byte>)

  datatype ModuleRecord = ModuleRecord(start: word, end: word, cmdline: word, pad: word)

  datatype Multiboot = Multiboot(flags: word, memLower: word, memUpper: word, bootDevice: word, cmdline: word,
                                 modsCount: word, modsAddr: word, syms: seq<byte>, mmapLength: word, mmapAddr: word)

  predicate ProperRecord(r: Record) { 20 + |r.extra| < WORD_SIZE }

  function RecordSize(r: Record): nat { 24 + |r.extra| }

  function EncodeRecord(r: Record): (b: seq<byte>)
    requires ProperRecord(r)
    ensures |b| == RecordSize(r)
  {
    Le32(20 + |r.extra|) + Le64(r.addr) + Le64(r.len) + Le32(r.kind) + r.extra
  }

  function EncodeModule(m: ModuleRecord): (b: seq<byte>)
    ensures |b| == 16
  {
    Le32(m.start) + Le32(m.end) + Le32(m.cmdline) + Le32(m.pad)
  }

  function EncodeInfo(i: Multiboot): (b: seq<byte>)
    requires |i.syms| == 16
    ensures |b| == 52
  {
    Le32(i.flags) + Le32(i.memLower) + Le32(i.memUpper) + Le32(i.bootDevice) + Le32(i.cmdline) + Le32(i.modsCount) + Le32(i.modsAddr)
    + i.syms + Le32(i.mmapLength) + Le32(i.mmapAddr)
  }

  // RAM has `data` at address `a`.
  ghost predicate RamHas(m: Memory, a: nat, data: seq<byte>) {
    forall k :: 0 <= k < |data| ==> RamByte(m, a + k) == data[k]
  }

  lemma PartHas(m: Memory, a: nat, data: seq<byte>, i: nat, part: seq<byte>)
    requires RamHas(m, a, data) && PartAt(data, i, part)
    ensures RamHas(m, a + i, part)
  {
    hide RamByte;
    forall k | 0 <= k < |part|
      ensures RamByte(m, a + i + k) == part[k]
    {
      assert data[i..i + |part|][k] == data[i + k];
      assert RamByte(m, a + (i + k)) == data[i + k];
    }
  }

  // ---------- reading it back ----------

  lemma DwordIs(m: Memory, a: nat, data: seq<byte>, i: nat, x: word)
    requires RamHas(m, a, data) && PartAt(data, i, Le32(x))
    ensures Dword(m, a + i) == x
  {
    hide RamByte, Le32;
    PartHas(m, a, data, i, Le32(x));
    assert RamByte(m, a + i + 0) == Le32(x)[0] && RamByte(m, a + i + 1) == Le32(x)[1];
    assert RamByte(m, a + i + 2) == Le32(x)[2] && RamByte(m, a + i + 3) == Le32(x)[3];
    JoinWord(x);
  }

  lemma RecordParts(r: Record)
    requires ProperRecord(r)
    ensures
      var b := EncodeRecord(r);
      && PartAt(b, 0, Le32(20 + |r.extra|))
      && PartAt(b, 4, Le32(Low(r.addr))) && PartAt(b, 8, Le32(High(r.addr)))
      && PartAt(b, 12, Le32(Low(r.len))) && PartAt(b, 16, Le32(High(r.len)))
      && PartAt(b, 20, Le32(r.kind))
  {
    hide Le32;
    var b, size := EncodeRecord(r), Le32(20 + |r.extra|);
    var al, ah := Le32(Low(r.addr)), Le32(High(r.addr));
    var ll, lh := Le32(Low(r.len)), Le32(High(r.len));
    assert b == size + al + ah + ll + lh + Le32(r.kind) + r.extra;
    var front := size + al + ah;
    assert front[0..4] == size && front[4..8] == al && front[8..12] == ah;
    assert b[..12] == front;
    assert b[12..16] == ll && b[16..20] == lh && b[20..24] == Le32(r.kind);
  }

  // What the code should see in a record: usable exactly for type 1.
  function EntryOf(r: Record): Entry
    requires ProperRecord(r)
  {
    Entry(20 + |r.extra|, Low(r.addr), High(r.addr), Low(r.len), High(r.len), r.kind == 1)
  }

  lemma RecordReadBack(m: Memory, p: nat, r: Record)
    requires ProperRecord(r) && RamHas(m, p, EncodeRecord(r))
    ensures MapIn(m)(p) == EntryOf(r)
  {
    hide RamHas, EncodeRecord, Dword, Low, High;
    RecordDwords(m, p, r);
  }

  lemma RecordDwords(m: Memory, p: nat, r: Record)
    requires ProperRecord(r) && RamHas(m, p, EncodeRecord(r))
    ensures Dword(m, p) == 20 + |r.extra| && Dword(m, p + 20) == r.kind
    ensures Dword(m, p + 4) == Low(r.addr) && Dword(m, p + 8) == High(r.addr)
    ensures Dword(m, p + 12) == Low(r.len) && Dword(m, p + 16) == High(r.len)
  {
    hide RamHas, EncodeRecord, Dword, Le32, Low, High, PartAt;
    RecordParts(r);
    var b := EncodeRecord(r);
    DwordIs(m, p, b, 0, 20 + |r.extra|);
    assert p + 0 == p;
    DwordIs(m, p, b, 4, Low(r.addr));
    DwordIs(m, p, b, 8, High(r.addr));
    DwordIs(m, p, b, 12, Low(r.len));
    DwordIs(m, p, b, 16, High(r.len));
    DwordIs(m, p, b, 20, r.kind);
  }

  // The two halves of a 64-bit field make up the field, and their sum is the 64-bit sum.
  lemma EntryMeans(r: Record)
    requires ProperRecord(r)
    ensures EntryOf(r).Addr() == r.addr && EntryOf(r).Len() == r.len && EntryOf(r).usable == (r.kind == 1)
    ensures EntryOf(r).End() == RecordEnd(r)
  {
    hide Low, High;
    Halves(r.addr);
    Halves(r.len);
  }

  lemma ModuleParts(r: ModuleRecord)
    ensures PartAt(EncodeModule(r), 0, Le32(r.start)) && PartAt(EncodeModule(r), 4, Le32(r.end))
  {
    hide Le32;
  }

  lemma InfoParts(i: Multiboot)
    requires |i.syms| == 16
    ensures
      var b := EncodeInfo(i);
      && PartAt(b, 0, Le32(i.flags)) && PartAt(b, 20, Le32(i.modsCount)) && PartAt(b, 24, Le32(i.modsAddr))
      && PartAt(b, 44, Le32(i.mmapLength)) && PartAt(b, 48, Le32(i.mmapAddr))
  {
    hide Le32;
    var b := EncodeInfo(i);
    var front := Le32(i.flags) + Le32(i.memLower) + Le32(i.memUpper) + Le32(i.bootDevice) + Le32(i.cmdline);
    assert |front| == 20 && front[..4] == Le32(i.flags);
    assert b == front + Le32(i.modsCount) + Le32(i.modsAddr) + i.syms + Le32(i.mmapLength) + Le32(i.mmapAddr);
    assert b[..20] == front && b[20..24] == Le32(i.modsCount) && b[24..28] == Le32(i.modsAddr);
    assert b[44..48] == Le32(i.mmapLength) && b[48..52] == Le32(i.mmapAddr);
  }

  // ---------- a whole boot ----------

  datatype BootRecords = BootRecords(info: Multiboot, records: seq<Record>, mods: seq<ModuleRecord>)

  // Where record `i` of a map at `p` lies.
  function RecordAt(records: seq<Record>, p: nat, i: nat): nat
    requires i <= |records|
    decreases i
  {
    if i == 0 then p else RecordAt(records, p, i - 1) + RecordSize(records[i - 1])
  }

  // RAM holds the boot information at `mbi`, and the modules and the map where that says.
  ghost predicate HoldsBoot(m: Memory, mbi: nat, b: BootRecords) {
    && |b.info.syms| == 16 && RamHas(m, mbi, EncodeInfo(b.info))
    && |b.mods| == b.info.modsCount
    && (forall i :: 0 <= i < |b.mods| ==> RamHas(m, b.info.modsAddr + 16 * i, EncodeModule(b.mods[i])))
    && (forall i :: 0 <= i < |b.records| ==>
          ProperRecord(b.records[i]) && RamHas(m, RecordAt(b.records, b.info.mmapAddr, i), EncodeRecord(b.records[i])))
    && RecordAt(b.records, b.info.mmapAddr, |b.records|) == b.info.mmapAddr + b.info.mmapLength < WORD_SIZE
  }

  // The information reads back as it was encoded.
  lemma InfoReadBack(m: Memory, mbi: nat, b: BootRecords)
    requires HoldsBoot(m, mbi, b)
    ensures
      var info := InfoIn(m, mbi);
      && info.flags == b.info.flags && info.mmapAddr == b.info.mmapAddr && MapEnd(info) == b.info.mmapAddr + b.info.mmapLength
      && Dword(m, mbi + 24) == b.info.modsAddr
      && |info.mods| == |b.mods| && forall i :: 0 <= i < |b.mods| ==> info.mods[i] == Module(b.mods[i].start, b.mods[i].end)
  {
    hide Dword, RamHas, EncodeInfo, EncodeModule, EncodeRecord, Le32;
    InfoParts(b.info);
    DwordIs(m, mbi, EncodeInfo(b.info), 0, b.info.flags);
    DwordIs(m, mbi, EncodeInfo(b.info), 20, b.info.modsCount);
    DwordIs(m, mbi, EncodeInfo(b.info), 24, b.info.modsAddr);
    DwordIs(m, mbi, EncodeInfo(b.info), 44, b.info.mmapLength);
    DwordIs(m, mbi, EncodeInfo(b.info), 48, b.info.mmapAddr);
    assert InfoIn(m, mbi).flags == b.info.flags by { assert mbi + 0 == mbi; }
    forall i | 0 <= i < |b.mods|
      ensures InfoIn(m, mbi).mods[i] == Module(b.mods[i].start, b.mods[i].end)
    {
      ModuleParts(b.mods[i]);
      var a := b.info.modsAddr + 16 * i;
      DwordIs(m, a, EncodeModule(b.mods[i]), 0, b.mods[i].start);
      DwordIs(m, a, EncodeModule(b.mods[i]), 4, b.mods[i].end);
      assert a + 0 == a;
    }
  }

  // ---------- the walk over the map ----------

  // The end of a record, a 64-bit sum.
  function RecordEnd(r: Record): nat {
    (r.addr + r.len) % 0x1_0000_0000_0000_0000
  }

  // The highest end of a usable record from `i` on; 0 if there is none.
  function HighestFrom(records: seq<Record>, i: nat): (r: nat)
    requires i <= |records|
    ensures forall k :: i <= k < |records| && records[k].kind == 1 ==> RecordEnd(records[k]) <= r
    ensures r == 0 || exists k :: i <= k < |records| && records[k].kind == 1 && RecordEnd(records[k]) == r
    decreases |records| - i
  {
    if i == |records| then 0
    else
      var rest := HighestFrom(records, i + 1);
      if records[i].kind == 1 && RecordEnd(records[i]) > rest then RecordEnd(records[i]) else rest
  }

  ghost predicate MapHeld(m: Memory, records: seq<Record>, p: nat, end: nat) {
    && (forall i :: 0 <= i < |records| ==>
          ProperRecord(records[i]) && RamHas(m, RecordAt(records, p, i), EncodeRecord(records[i])))
    && RecordAt(records, p, |records|) == end < WORD_SIZE
  }

  lemma {:induction false} RecordsBefore(records: seq<Record>, p: nat, i: nat)
    requires i <= |records|
    ensures RecordAt(records, p, i) <= RecordAt(records, p, |records|)
    ensures i < |records| ==> RecordAt(records, p, i) + 24 <= RecordAt(records, p, |records|)
    decreases |records| - i
  {
    if i < |records| {
      RecordsBefore(records, p, i + 1);
    }
  }

  lemma RecordNext(m: Memory, records: seq<Record>, p: nat, end: nat, i: nat)
    requires MapHeld(m, records, p, end) && i < |records|
    ensures
      var q := RecordAt(records, p, i);
      && q < end && MapIn(m)(q) == EntryOf(records[i]) && BootMap.Next(MapIn(m), q) == RecordAt(records, p, i + 1) <= end
      && EntryOf(records[i]).Addr() == records[i].addr && EntryOf(records[i]).Len() == records[i].len
      && EntryOf(records[i]).End() == RecordEnd(records[i]) && EntryOf(records[i]).usable == (records[i].kind == 1)
  {
    hide MapIn, RamHas, EncodeRecord, Low, High, Entry.Addr, Entry.Len, Entry.End, RecordEnd;
    RecordReadBack(m, RecordAt(records, p, i), records[i]);
    EntryMeans(records[i]);
    RecordsBefore(records, p, i);
    RecordsBefore(records, p, i + 1);
  }

  // Where the records from `i` on lie.
  ghost function Places(records: seq<Record>, p: nat, i: nat): set<nat>
    requires i <= |records|
    decreases |records| - i
  {
    if i == |records| then {} else {RecordAt(records, p, i)} + Places(records, p, i + 1)
  }

  lemma {:induction false} PlaceOf(records: seq<Record>, p: nat, i: nat, x: nat) returns (k: nat)
    requires i <= |records| && x in Places(records, p, i)
    ensures i <= k < |records| && x == RecordAt(records, p, k)
    decreases |records| - i
  {
    hide RecordAt;
    if x == RecordAt(records, p, i) {
      k := i;
    } else {
      k := PlaceOf(records, p, i + 1, x);
    }
  }

  lemma {:induction false} HasPlace(records: seq<Record>, p: nat, i: nat, k: nat)
    requires i <= k < |records|
    ensures RecordAt(records, p, k) in Places(records, p, i)
    decreases |records| - i
  {
    hide RecordAt;
    if i < k {
      HasPlace(records, p, i + 1, k);
    }
  }

  // The walk ends, meets exactly the records, and finds the highest end.
  lemma {:induction false} WalkMeets(m: Memory, records: seq<Record>, p: nat, end: nat, i: nat)
    requires MapHeld(m, records, p, end) && i <= |records|
    ensures
      var at, q := MapIn(m), RecordAt(records, p, i);
      && BootMap.WalkEnds(at, q, end) && HighestEnd(at, q, end) == HighestFrom(records, i)
      && Entries(at, q, end) == Places(records, p, i)
    decreases |records| - i
  {
    hide MapIn, MapHeld, EntryOf, Entry.Addr, Entry.Len, Entry.End, RecordEnd, RecordAt, BootMap.Next;
    MapEnds(m, records, p, end);
    if i < |records| {
      RecordNext(m, records, p, end, i);
      WalkMeets(m, records, p, end, i + 1);
    }
  }

  lemma MapEnds(m: Memory, records: seq<Record>, p: nat, end: nat)
    requires MapHeld(m, records, p, end)
    ensures RecordAt(records, p, |records|) == end < WORD_SIZE
  {
    hide RamHas, EncodeRecord;
  }

  // ---------- the free set ----------

  // A usable record below 4 GB on a page boundary.
  predicate GoodRecord(r: Record) {
    r.kind == 1 ==> r.addr % 4096 == 0 && r.addr + r.len < WORD_SIZE
  }

  // The number of blocks tracked: whole blocks below the highest end, capped at 4 GB.
  function Tracked(b: BootRecords): nat {
    var ram := HighestFrom(b.records, 0);
    (if ram > 0xFFFF_FFFF then 0xFFFF_FFFF else ram) / 4096
  }

  ghost predicate GoodRecords(b: BootRecords, kernelStart: word, kernelEnd: word) {
    && (forall i :: 0 <= i < |b.records| ==> GoodRecord(b.records[i]))
    && kernelEnd + BitmapBytes(Tracked(b)) < WORD_SIZE && GoodRegion(kernelStart, kernelEnd + BitmapBytes(Tracked(b)))
    && forall i :: 0 <= i < |b.mods| ==> GoodRegion(b.mods[i].start, b.mods[i].end)
  }

  // Block `x` lies wholly inside a usable record, above the first megabyte, and shares no byte
  // with the kernel, its bitmap or, if bit 3 of the flags says there are any, a module.
  ghost predicate FreeBlock(b: BootRecords, kernelStart: word, kernelEnd: word, x: nat) {
    && (exists i :: 0 <= i < |b.records| && b.records[i].kind == 1 && Inside(b.records[i].addr, b.records[i].len, x))
    && 0x10_0000 <= 4096 * x
    && !Touches(kernelStart, kernelEnd + BitmapBytes(Tracked(b)) - kernelStart, x)
    && (Bit(b.info.flags, 3) ==> forall i :: 0 <= i < |b.mods| ==> !Touches(b.mods[i].start, b.mods[i].end - b.mods[i].start, x))
  }

  lemma BootHasMap(m: Memory, mbi: nat, b: BootRecords)
    requires HoldsBoot(m, mbi, b)
    ensures MapHeld(m, b.records, b.info.mmapAddr, b.info.mmapAddr + b.info.mmapLength)
  {
    hide RamHas;
  }

  lemma RecordsGood(m: Memory, mbi: nat, b: BootRecords, kernelStart: word, kernelEnd: word)
    requires HoldsBoot(m, mbi, b) && GoodRecords(b, kernelStart, kernelEnd)
    ensures GoodBoot(InfoIn(m, mbi), MapIn(m), kernelStart, kernelEnd) && TotalBlocks(InfoIn(m, mbi), MapIn(m)) == Tracked(b)
    ensures BootMap.WalkEnds(MapIn(m), InfoIn(m, mbi).mmapAddr, MapEnd(InfoIn(m, mbi)))
  {
    hide MapIn, InfoIn, MapHeld, HoldsBoot, GoodRegion, EntryOf, GoodEntry, Entry.Addr, Entry.Len, Entry.End, RecordEnd, HighestEnd,
         HighestFrom, Entries, BootMap.WalkEnds, RecordAt, Places;
    BootHasMap(m, mbi, b);
    InfoReadBack(m, mbi, b);
    var p, end := b.info.mmapAddr, b.info.mmapAddr + b.info.mmapLength;
    WalkMeets(m, b.records, p, end, 0);
    FirstRecord(b.records, p);
    forall x | x in Entries(MapIn(m), p, end)
      ensures GoodEntry(MapIn(m)(x))
    {
      var k := PlaceOf(b.records, p, 0, x);
      RecordNext(m, b.records, p, end, k);
      RecordProper(m, b.records, p, end, k);
      GoodRecordEntry(b.records[k]);
    }
  }

  lemma FirstRecord(records: seq<Record>, p: nat)
    ensures RecordAt(records, p, 0) == p
  {
  }

  lemma RecordProper(m: Memory, records: seq<Record>, p: nat, end: nat, i: nat)
    requires MapHeld(m, records, p, end) && i < |records|
    ensures ProperRecord(records[i])
  {
    hide RamHas, EncodeRecord;
  }

  lemma GoodRecordEntry(r: Record)
    requires ProperRecord(r) && GoodRecord(r)
    ensures GoodEntry(EntryOf(r))
  {
    Halves(r.addr);
    Halves(r.len);
    hide High;
  }

  // For every RAM that holds encoded boot information: after `pmm_init` the free set is exactly
  // the free blocks of the records.
  lemma FreeFromRecords(m: Memory, mbi: nat, b: BootRecords, kernelStart: word, kernelEnd: word, x: nat)
    requires HoldsBoot(m, mbi, b) && GoodRecords(b, kernelStart, kernelEnd)
    ensures x in InitialFree(InfoIn(m, mbi), MapIn(m), kernelStart, kernelEnd) <==> FreeBlock(b, kernelStart, kernelEnd, x)
  {
    hide MapIn, InfoIn, MapHeld, HoldsBoot, InitialFree, GoodBoot, Bit, Touches, Inside, EntryOf, TotalBlocks, Tracked, GoodRecords,
         Entry.Addr, Entry.Len, Entry.End, RecordEnd, HighestEnd, HighestFrom, Entries, BootMap.WalkEnds, RecordAt, Places;
    BootHasMap(m, mbi, b);
    InfoReadBack(m, mbi, b);
    RecordsGood(m, mbi, b, kernelStart, kernelEnd);
    InitialFreeExact(InfoIn(m, mbi), MapIn(m), kernelStart, kernelEnd, x);
    UsableIff(m, b.records, b.info.mmapAddr, b.info.mmapAddr + b.info.mmapLength, x);
  }

  lemma UsableIff(m: Memory, records: seq<Record>, p: nat, end: nat, x: nat)
    requires MapHeld(m, records, p, end)
    ensures (exists q :: q in Entries(MapIn(m), p, end) && MapIn(m)(q).usable && Inside(MapIn(m)(q).Addr(), MapIn(m)(q).Len(), x))
       <==> exists i :: 0 <= i < |records| && records[i].kind == 1 && Inside(records[i].addr, records[i].len, x)
  {
    hide MapIn, MapHeld, Inside, EntryOf, Entry.Addr, Entry.Len, Entry.End, RecordEnd, HighestEnd, HighestFrom, Entries, BootMap.WalkEnds, RecordAt, Places;
    var at := MapIn(m);
    WalkMeets(m, records, p, end, 0);
    FirstRecord(records, p);
    if q :| q in Entries(at, p, end) && at(q).usable && Inside(at(q).Addr(), at(q).Len(), x) {
      var k := PlaceOf(records, p, 0, q);
      RecordNext(m, records, p, end, k);
    }
    if k :| 0 <= k < |records| && records[k].kind == 1 && Inside(records[k].addr, records[k].len, x) {
      RecordNext(m, records, p, end, k);
      HasPlace(records, p, 0, k);
    }
  }
}
