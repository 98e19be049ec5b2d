/**
  The USTAR RAM disk (src/tar.c): the header walk that builds the node table, and reads
  of file data ("ustar Interchange Format" of the POSIX pax utility, IEEE Std 1003.1).
 */
module Tar {
  import opened Words

  const SLASH: byte := 47
  const DOT: byte := 46
  const SPACE: byte := 32
  const ZERO: byte := 48
  const SEVEN: byte := 55
  const DIRTYPE: byte := 53
  const MAX_TAR_FILES := 128

  // ---------- reading file data ----------

  // The size `tar_read` settles on; `offset + size` is a 32-bit sum.
  function ReadSize(length: word, offset: word, size: word): (r: word) {
    if offset >= length then 0
    else if Add32(offset, size) > length then length - offset
    else size
  }

  // A read stays inside the file exactly when the sum does not wrap, or wraps to
  // something still past the end; a read from the end on copies nothing.
  lemma ReadStaysInsideIff(length: word, offset: word, size: word)
    ensures
      var count := ReadSize(length, offset, size);
      (count == 0 || offset + count <= length) <==>
      (offset >= length || offset + size < WORD_SIZE || offset + size - WORD_SIZE > length)
  {
  }

  // A node of the table: an fs_node_t of the RAM disk.
  datatype Node = Node(name: seq<byte>, length: word, impl: word, isDir: bool)

  // What `tar_read` copies.
  function Read(mem: seq<byte>, n: Node, offset: word, size: word): (r: seq<byte>)
    requires n.impl + n.length <= |mem| && offset + size < WORD_SIZE
  {
    var count := ReadSize(n.length, offset, size);
    if count == 0 then [] else mem[n.impl + offset..n.impl + offset + count]
  }

  function Sum(sizes: seq<word>): nat {
    if sizes == [] then 0 else sizes[0] + Sum(sizes[1..])
  }

  // Consecutive reads, each starting where the one before ended.
  function Reads(mem: seq<byte>, n: Node, offset: word, sizes: seq<word>): (r: seq<byte>)
    requires n.impl + n.length <= |mem| && offset + Sum(sizes) < WORD_SIZE
    decreases |sizes|
  {
    if sizes == [] then []
    else
      var first := Read(mem, n, offset, sizes[0]);
      ReadLength(mem, n, offset, sizes[0]);
      first + Reads(mem, n, offset + |first|, sizes[1..])
  }

  lemma ReadLength(mem: seq<byte>, n: Node, offset: word, size: word)
    requires n.impl + n.length <= |mem| && offset + size < WORD_SIZE
    ensures |Read(mem, n, offset, size)| == ReadSize(n.length, offset, size) <= size
  {
  }

  lemma ReadMeans(mem: seq<byte>, n: Node, offset: word, size: word)
    requires n.impl + n.length <= |mem| && offset + size < WORD_SIZE && offset <= n.length
    ensures
      var end := if offset + size < n.length then offset + size else n.length;
      && offset + ReadSize(n.length, offset, size) == end
      && Read(mem, n, offset, size) == mem[n.impl + offset..n.impl + end]
  {
  }

  // Consecutive reads concatenate to the file: whatever the sizes, the result is the
  // stretch of data they cover together, cut at the end of the file.
  lemma {:induction false} ReadsConcatenate(mem: seq<byte>, n: Node, offset: word, sizes: seq<word>)
    requires n.impl + n.length <= |mem| && offset + Sum(sizes) < WORD_SIZE && offset <= n.length
    ensures
      var end := if offset + Sum(sizes) < n.length then offset + Sum(sizes) else n.length;
      Reads(mem, n, offset, sizes) == mem[n.impl + offset..n.impl + end]
    decreases |sizes|
  {
    hide Read, ReadSize;
    if sizes != [] {
      var first := Read(mem, n, offset, sizes[0]);
      ReadLength(mem, n, offset, sizes[0]);
      ReadMeans(mem, n, offset, sizes[0]);
      ReadsConcatenate(mem, n, offset + |first|, sizes[1..]);
      Joined(mem, n.impl + offset, n.impl + offset + |first|, |Reads(mem, n, offset + |first|, sizes[1..])|);
    }
  }

  lemma Joined(mem: seq<byte>, a: nat, b: nat, n: nat)
    requires a <= b && b + n <= |mem|
    ensures mem[a..b] + mem[b..b + n] == mem[a..b + n]
  {
  }

  // ---------- octal fields ----------

  predicate IsOctal(c: byte) { ZERO <= c <= SEVEN }

  function Digit(c: byte): nat {
    if IsOctal(c) then c - ZERO else 0
  }

  // `out * 8 + digit`, a 32-bit expression.
  function Accumulate(out: word, c: byte): word {
    (out * 8 + Digit(c)) % 0x1_0000_0000
  }

  // `get_octal` from index `i` on, with what was read so far.
  function OctalFrom(s: seq<byte>, i: nat, len: nat, out: word): word
    requires len <= |s|
    decreases len - i
  {
    if i >= len || s[i] == 0 || (!IsOctal(s[i]) && s[i] == SPACE) then out
    else if IsOctal(s[i]) then OctalFrom(s, i + 1, len, Accumulate(out, s[i]))
    else OctalFrom(s, i + 1, len, out)
  }

  method GetOctal(s: seq<byte>, len: nat) returns (out: word)
    requires len <= |s|
    ensures out == OctalFrom(s, 0, len, 0)
  {
    out := 0;
    var i := 0;
    while i < len && s[i] != 0
      invariant 0 <= i <= len
      invariant OctalFrom(s, 0, len, 0) == OctalFrom(s, i, len, out)
    {
      if ZERO <= s[i] <= SEVEN {
        out := Accumulate(out, s[i]);
      } else if s[i] == SPACE || s[i] == 0 {
        break;
      }
      i := i + 1;
    }
  }

  function Pow8(n: nat): (r: nat)
    ensures r >= 1
  {
    if n == 0 then 1 else 8 * Pow8(n - 1)
  }

  // The encoder's side: `n` in `digits` octal digits, most significant first.
  function Octal(n: nat, digits: nat): (r: seq<byte>)
    ensures |r| == digits
  {
    if digits == 0 then [] else Octal(n / 8, digits - 1) + [ZERO + n % 8]
  }

  // The value of a digit string, most significant digit first.
  function Value(s: seq<byte>): nat {
    if s == [] then 0 else 8 * Value(s[..|s| - 1]) + Digit(s[|s| - 1])
  }

  lemma {:induction false} OctalValue(n: nat, digits: nat)
    requires n < Pow8(digits)
    ensures forall i :: 0 <= i < digits ==> IsOctal(Octal(n, digits)[i])
    ensures Value(Octal(n, digits)) == n
    decreases digits
  {
    if digits > 0 {
      OctalValue(n / 8, digits - 1);
      var s := Octal(n, digits);
      assert s[..digits - 1] == Octal(n / 8, digits - 1);
    }
  }

  // Reading the digits one by one builds up their value.
  lemma {:induction false} OctalPrefix(s: seq<byte>, i: nat, len: nat)
    requires i <= len <= |s| && forall k :: 0 <= k < len ==> IsOctal(s[k])
    requires Value(s[..i]) < WORD_SIZE && Value(s[..len]) < WORD_SIZE
    ensures OctalFrom(s, i, len, Value(s[..i])) == Value(s[..len])
    decreases len - i
  {
    hide Accumulate, Digit;
    if i < len {
      assert s[..i + 1][..i] == s[..i];
      ValueGrows(s[..len], i + 1);
      assert s[..len][..i + 1] == s[..i + 1];
      SmallAccumulate(Value(s[..i]), s[i]);
      OctalPrefix(s, i + 1, len);
    }
  }

  lemma SmallAccumulate(out: word, c: byte)
    requires 8 * out + Digit(c) < WORD_SIZE
    ensures Accumulate(out, c) == 8 * out + Digit(c)
  {
  }

  lemma {:induction false} ValueGrows(s: seq<byte>, i: nat)
    requires i <= |s|
    ensures Value(s[..i]) <= Value(s)
    decreases |s|
  {
    if i == |s| {
      assert s[..i] == s;
    } else {
      var t := s[..|s| - 1];
      ValueGrows(t, i);
      assert t[..i] == s[..i];
    }
  }

  // The octal field of the encoder is read back as the number it was made from.
  lemma OctalRoundTrip(s: seq<byte>, n: nat, digits: nat)
    requires n < Pow8(digits) && n < WORD_SIZE && digits <= |s| && s[..digits] == Octal(n, digits)
    ensures OctalFrom(s, 0, digits, 0) == n
  {
    OctalValue(n, digits);
    assert forall k :: 0 <= k < digits ==> s[k] == Octal(n, digits)[k];
    assert s[..0] == [];
    OctalPrefix(s, 0, digits);
  }

  // ---------- any field ----------

  // Where reading stops: at the first NUL or space.
  function StopAt(s: seq<byte>): (k: nat)
    ensures k <= |s| && (forall i :: 0 <= i < k ==> s[i] != 0 && s[i] != SPACE)
    ensures k < |s| ==> s[k] == 0 || s[k] == SPACE
  {
    if s == [] || s[0] == 0 || s[0] == SPACE then 0 else 1 + StopAt(s[1..])
  }

  // The octal digits of a field; other characters are skipped.
  function DigitsOf(s: seq<byte>): (r: seq<byte>)
    ensures forall i :: 0 <= i < |r| ==> IsOctal(r[i])
  {
    if s == [] then []
    else DigitsOf(s[..|s| - 1]) + (if IsOctal(s[|s| - 1]) then [s[|s| - 1]] else [])
  }

  lemma WrapAccumulate(v: nat, c: byte)
    ensures Accumulate(v % WORD_SIZE, c) == (8 * v + Digit(c)) % WORD_SIZE
  {
    var q, r := v / WORD_SIZE, v % WORD_SIZE;
    assert 8 * v + Digit(c) == 8 * q * WORD_SIZE + (8 * r + Digit(c));
  }

  // What the first `i` characters amount to in 32 bits.
  function ReadUpTo(s: seq<byte>, i: nat): word
    requires i <= |s|
  {
    Value(DigitsOf(s[..i])) % WORD_SIZE
  }

  lemma ReadNext(s: seq<byte>, i: nat)
    requires i < |s|
    ensures ReadUpTo(s, i + 1) == if IsOctal(s[i]) then Accumulate(ReadUpTo(s, i), s[i]) else ReadUpTo(s, i)
  {
    hide Accumulate, Digit;
    var now := DigitsOf(s[..i]);
    assert s[..i + 1][..i] == s[..i];
    if IsOctal(s[i]) {
      assert (now + [s[i]])[..|now|] == now;
      WrapAccumulate(Value(now), s[i]);
    } else {
      assert now + [] == now;
    }
  }

  lemma {:induction false} OctalSoFar(s: seq<byte>, i: nat, len: nat)
    requires len <= |s| && i <= StopAt(s[..len])
    ensures OctalFrom(s, i, len, ReadUpTo(s, i)) == ReadUpTo(s, StopAt(s[..len]))
    decreases len - i
  {
    hide Accumulate, ReadUpTo;
    var stop := StopAt(s[..len]);
    if i < stop {
      assert s[i] == s[..len][i];
      ReadNext(s, i);
      OctalSoFar(s, i + 1, len);
    } else if stop < len {
      assert s[stop] == s[..len][stop];
    }
  }

  // For every field, well formed or not: the number is that of the octal digits before the first
  // NUL or space, as far as 32 bits hold it.
  lemma OctalMeans(s: seq<byte>, len: nat)
    requires len <= |s|
    ensures OctalFrom(s, 0, len, 0) == Value(DigitsOf(s[..StopAt(s[..len])])) % WORD_SIZE
  {
    assert s[..0] == [];
    OctalSoFar(s, 0, len);
  }
}
