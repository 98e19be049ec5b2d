/**
  The bytes of physical memory, and reads, stores and copies of bytes through a page
  directory (the effect of `memset` and `memcpy` on virtual addresses, src/string.c).
 */
module Bytes {
  import opened Words
  import opened Paging

  // ---------- the four bytes of a word ----------

  function ByteOf(w: nat, k: nat): byte {
    if k == 0 then w % 256 else ByteOf(w / 256, k - 1)
  }

  function Join(b0: byte, b1: byte, b2: byte, b3: byte): word {
    b0 + 256 * (b1 + 256 * (b2 + 256 * b3))
  }

  function WithByte(w: word, k: nat, b: byte): word {
    Join(if k == 0 then b else ByteOf(w, 0), if k == 1 then b else ByteOf(w, 1),
         if k == 2 then b else ByteOf(w, 2), if k == 3 then b else ByteOf(w, 3))
  }

  lemma Digit(b: byte, rest: nat)
    ensures (b + 256 * rest) % 256 == b && (b + 256 * rest) / 256 == rest
  {
  }

  lemma JoinBytes(b0: byte, b1: byte, b2: byte, b3: byte)
    ensures ByteOf(Join(b0, b1, b2, b3), 0) == b0 && ByteOf(Join(b0, b1, b2, b3), 1) == b1
    ensures ByteOf(Join(b0, b1, b2, b3), 2) == b2 && ByteOf(Join(b0, b1, b2, b3), 3) == b3
  {
    var r2: nat := b2 + 256 * b3;
    var r1: nat := b1 + 256 * r2;
    var w: nat := b0 + 256 * r1;
    Digit(b0, r1);
    Digit(b1, r2);
    Digit(b2, b3);
    assert ByteOf(w, 1) == ByteOf(r1, 0);
    assert ByteOf(w, 2) == ByteOf(r1, 1) == ByteOf(r2, 0);
    assert ByteOf(w, 3) == ByteOf(r1, 2) == ByteOf(r2, 1) == ByteOf(b3, 0);
  }

  lemma WithByteMeaning(w: word, k: nat, b: byte, j: nat)
    requires k < 4 && j < 4
    ensures ByteOf(WithByte(w, k, b), j) == if j == k then b else ByteOf(w, j)
  {
    hide ByteOf, Join;
    JoinBytes(if k == 0 then b else ByteOf(w, 0), if k == 1 then b else ByteOf(w, 1),
              if k == 2 then b else ByteOf(w, 2), if k == 3 then b else ByteOf(w, 3));
  }

  // ---------- bytes of a frame ----------

  // Byte `o` (below 4096) of frame `f`.
  function Byte(m: Memory, f: nat, o: nat): byte {
    ByteOf(Word(m, f, o / 4), o % 4)
  }

  function SetByte(m: Memory, f: nat, o: nat, b: byte): Memory {
    Store(m, f, o / 4, WithByte(Word(m, f, o / 4), o % 4, b))
  }

  lemma SetByteMeaning(m: Memory, f: nat, o: nat, b: byte)
    requires InRam(m, f) && o < 4096
    ensures SameOutside(m, SetByte(m, f, o, b), {f})
    ensures forall g: nat, x: nat :: x < 4096 ==>
              Byte(SetByte(m, f, o, b), g, x) == if g == f && x == o then b else Byte(m, g, x)
  {
    var w := WithByte(Word(m, f, o / 4), o % 4, b);
    var m' := SetByte(m, f, o, b);
    StoreMeaning(m, f, o / 4, w);
    hide Word, Store, ByteOf, WithByte;
    forall g: nat, x: nat | x < 4096
      ensures Byte(m', g, x) == if g == f && x == o then b else Byte(m, g, x)
    {
      WithByteMeaning(Word(m, f, o / 4), o % 4, b, x % 4);
      SameByte(x, o);
    }
  }

  lemma SameByte(x: nat, o: nat)
    ensures x / 4 == o / 4 && x % 4 == o % 4 <==> x == o
  {
  }

  lemma {:induction false} ZeroByte(k: nat)
    ensures ByteOf(0, k) == 0
  {
    if k > 0 {
      ZeroByte(k - 1);
    }
  }

  lemma SameBytes(m: Memory, m': Memory, changed: set<nat>, g: nat, x: nat)
    requires SameOutside(m, m', changed) && g !in changed && x < 4096
    ensures Byte(m', g, x) == Byte(m, g, x)
  {
    hide Word;
  }

  // ---------- bytes at virtual addresses ----------

  function ByteAt(m: Memory, d: nat, va: nat): byte {
    match Walk(m, d, va / 4096)
    case Some(t) => Byte(m, t.frame, va % 4096)
    case None => 0
  }

  function SetByteAt(m: Memory, d: nat, va: nat, b: byte): Memory {
    match Walk(m, d, va / 4096)
    case Some(t) => SetByte(m, t.frame, va % 4096, b)
    case None => m
  }

  // `memcpy(dst, src, n)` on virtual addresses, byte by byte from the front.
  function CopyBytes(m: Memory, d: nat, dst: nat, src: nat, n: nat): Memory {
    if n == 0 then m
    else
      var m' := CopyBytes(m, d, dst, src, n - 1);
      SetByteAt(m', d, dst + n - 1, ByteAt(m', d, src + n - 1))
  }

  // The pages of the target range show frames of `target`, no two pages the same one.
  ghost predicate Target(m: Memory, d: nat, first: nat, pages: nat, target: set<nat>) {
    && first + pages <= PAGES
    && (forall p: nat :: first <= p < first + pages ==> Walk(m, d, p).Some? && Walk(m, d, p).value.frame in target)
    && (forall p: nat, q: nat :: first <= p < first + pages && first <= q < first + pages && p != q ==>
          Walk(m, d, p).value.frame != Walk(m, d, q).value.frame)
  }

  // Frames of `target` hold no directory and no table, so storing there moves no page.
  ghost predicate Loose(m: Memory, dirs: set<nat>, target: set<nat>) {
    forall f :: f in target ==> InRam(m, f) && Untabled(m, dirs, f)
  }

  // Byte `va` of the target after `n` bytes from `src` were copied to `dst`.
  ghost predicate CopiedByte(m: Memory, m': Memory, d: nat, dst: nat, src: nat, n: nat, va: nat) {
    ByteAt(m', d, va) == if dst <= va < dst + n then ByteAt(m, d, src + va - dst) else ByteAt(m, d, va)
  }

  ghost predicate CopyDone(m: Memory, m': Memory, d: nat, first: nat, pages: nat, target: set<nat>,
                           dst: nat, src: nat, n: nat) {
    && SameOutside(m, m', target)
    && forall va: nat :: 4096 * first <= va < 4096 * (first + pages) ==> CopiedByte(m, m', d, dst, src, n, va)
  }

  ghost predicate SourceApart(m: Memory, d: nat, src: nat, n: nat, target: set<nat>) {
    forall va: nat :: src <= va < src + n ==>
      va / 4096 < PAGES && (Walk(m, d, va / 4096).Some? ==> Walk(m, d, va / 4096).value.frame !in target)
  }

  // One byte more.
  lemma CopyNext(m: Memory, m1: Memory, dirs: set<nat>, d: nat, first: nat, pages: nat, target: set<nat>,
                 dst: nat, src: nat, n: nat)
    requires d in dirs && Target(m, d, first, pages, target) && Loose(m, dirs, target)
    requires 4096 * first <= dst && dst + n < 4096 * (first + pages)
    requires SourceApart(m, d, src, n + 1, target)
    requires CopyDone(m, m1, d, first, pages, target, dst, src, n)
    ensures CopyDone(m, SetByteAt(m1, d, dst + n, ByteAt(m1, d, src + n)), d, first, pages, target, dst, src, n + 1)
  {
    hide Word, Walk, Untabled, SetByte, Byte;
    var to, from, n' := dst + n, src + n, n + 1;
    var b := ByteAt(m1, d, from);
    DataWriteKeepsWalk(m, m1, dirs, target, d, to / 4096);
    DataWriteKeepsWalk(m, m1, dirs, target, d, from / 4096);
    assert b == ByteAt(m, d, from) by {
      if Walk(m, d, from / 4096).Some? {
        SameBytes(m, m1, target, Walk(m, d, from / 4096).value.frame, from % 4096);
      }
    }
    var f := Walk(m, d, to / 4096).value.frame;
    SetByteMeaning(m1, f, to % 4096, b);
    var m' := SetByteAt(m1, d, to, b);
    assert m' == SetByte(m1, f, to % 4096, b);
    assert SameOutside(m, m', target);
    forall va: nat | 4096 * first <= va < 4096 * (first + pages)
      ensures CopiedByte(m, m', d, dst, src, n', va)
    {
      DataWriteKeepsWalk(m, m1, dirs, target, d, va / 4096);
      DataWriteKeepsWalk(m, m', dirs, target, d, va / 4096);
      assert CopiedByte(m, m1, d, dst, src, n, va);
      var g := Walk(m, d, va / 4096).value.frame;
      assert g == f <==> va / 4096 == to / 4096;
      assert Byte(m', g, va % 4096) == if va == to then b else Byte(m1, g, va % 4096);
    }
  }

  lemma {:induction false} CopyMeaning(m: Memory, dirs: set<nat>, d: nat, first: nat, pages: nat, target: set<nat>,
                                       dst: nat, src: nat, n: nat)
    requires d in dirs && Target(m, d, first, pages, target) && Loose(m, dirs, target)
    requires 4096 * first <= dst && dst + n <= 4096 * (first + pages)
    requires SourceApart(m, d, src, n, target)
    ensures CopyDone(m, CopyBytes(m, d, dst, src, n), d, first, pages, target, dst, src, n)
  {
    hide Word, Target, Loose, SetByteAt, ByteAt, Walk;
    if n == 0 {
    } else {
      CopyMeaning(m, dirs, d, first, pages, target, dst, src, n - 1);
      CopyNext(m, CopyBytes(m, d, dst, src, n - 1), dirs, d, first, pages, target, dst, src, n - 1);
    }
  }

  // Whatever the source is, a copy writes only to the frames its target pages show.
  lemma {:induction false} CopyStaysInTarget(m: Memory, dirs: set<nat>, d: nat, first: nat, pages: nat, target: set<nat>,
                                             dst: nat, src: nat, n: nat)
    requires d in dirs && Target(m, d, first, pages, target) && Loose(m, dirs, target)
    requires 4096 * first <= dst && dst + n <= 4096 * (first + pages)
    ensures SameOutside(m, CopyBytes(m, d, dst, src, n), target)
  {
    hide Word, Untabled, Walk, SetByte, ByteAt;
    if n > 0 {
      CopyStaysInTarget(m, dirs, d, first, pages, target, dst, src, n - 1);
      var m1 := CopyBytes(m, d, dst, src, n - 1);
      var to := dst + n - 1;
      DataWriteKeepsWalk(m, m1, dirs, target, d, to / 4096);
      SetByteMeaning(m1, Walk(m, d, to / 4096).value.frame, to % 4096, ByteAt(m1, d, src + n - 1));
    }
  }
}
