/**
  Little-endian encodings of 16-bit, 32-bit and 64-bit numbers, and that reading the bytes back
  gives the number.
 */
module LittleEndian {
  import opened Words
  import opened Bytes

  type half = x: int | 0 <= x < 0x1_0000
  type long = x: int | 0 <= x < 0x1_0000_0000_0000_0000

  function Le16(x: half): (r: seq<byte>)
    ensures |r| == 2
  {
    [x % 256, x / 256]
  }

  function Le32(x: word): (r: seq<byte>)
    ensures |r| == 4
  {
    Le16(x % 0x1_0000) + Le16(x / 0x1_0000)
  }

  function Low(x: long): word { x % 0x1_0000_0000 }
  function High(x: long): word { x / 0x1_0000_0000 }

  function Le64(x: long): (r: seq<byte>)
    ensures |r| == 8
  {
    Le32(Low(x)) + Le32(High(x))
  }

  lemma Halves(x: long)
    ensures x == Low(x) + 0x1_0000_0000 * High(x)
  {
  }

  // `b` has `part` at `a`.
  predicate PartAt(b: seq<byte>, a: nat, part: seq<byte>) {
    a + |part| <= |b| && b[a..a + |part|] == part
  }

  lemma ReadHalf(b: seq<byte>, a: nat, x: half)
    requires PartAt(b, a, Le16(x))
    ensures Peek16(b, a) == x
  {
    assert b[a] == b[a..a + 2][0] && b[a + 1] == b[a..a + 2][1];
  }

  lemma ReadWord(b: seq<byte>, a: nat, x: word)
    requires PartAt(b, a, Le32(x))
    ensures Peek32(b, a) == x
  {
    hide Le16;
    var low, high := Le16(x % 0x1_0000), Le16(x / 0x1_0000);
    assert b[a..a + 2] == b[a..a + 4][..2] == low && b[a + 2..a + 4] == b[a..a + 4][2..] == high;
    ReadHalf(b, a, x % 0x1_0000);
    ReadHalf(b, a + 2, x / 0x1_0000);
  }

  lemma JoinWord(x: word)
    ensures Join(Le32(x)[0], Le32(x)[1], Le32(x)[2], Le32(x)[3]) == x
  {
    var l, h := x % 0x1_0000, x / 0x1_0000;
    assert Le32(x) == [l % 256, l / 256, h % 256, h / 256];
  }
}
