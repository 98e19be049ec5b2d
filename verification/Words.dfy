/**
  32-bit machine words as bounded integers. The C operators `|`, `&`, `~` and `<<`
  are defined bit by bit, and every use in the kernel is tied back to the
  arithmetic meaning of the word (frame base, flags, table index, bit number).
 */
module Words {

  const WORD_SIZE := 0x1_0000_0000

  type word = x: int | 0 <= x < 0x1_0000_0000

  type byte = x: int | 0 <= x < 256

  // 32-bit sums and differences.
  function Add32(a: word, b: word): (r: word) {
    if a + b < 0x1_0000_0000 then a + b else a + b - 0x1_0000_0000
  }

  function Sub32(a: word, b: word): (r: word) {
    if a >= b then a - b else a - b + 0x1_0000_0000
  }

  // Memory past the end of `mem` reads as zero.
  function Peek(mem: seq<byte>, a: nat): byte {
    if a < |mem| then mem[a] else 0
  }

  // Little-endian fields of packed structures.
  function Peek16(mem: seq<byte>, a: nat): (r: nat)
    ensures r < 0x1_0000
  {
    Peek(mem, a) + 0x100 * Peek(mem, a + 1)
  }

  function Peek32(mem: seq<byte>, a: nat): (r: word) {
    Peek16(mem, a) + 0x1_0000 * Peek16(mem, a + 2)
  }

  datatype Option<+T> = None | Some(value: T)

  function Pow2(n: nat): (r: nat)
    ensures r >= 1
  {
    if n == 0 then 1 else 2 * Pow2(n - 1)
  }

  // Bit number `i` of `w`, counted from the least significant one.
  predicate Bit(w: nat, i: nat) {
    if i == 0 then w % 2 == 1 else Bit(w / 2, i - 1)
  }

  function Or(a: nat, b: nat): (r: nat) {
    if a == 0 && b == 0 then 0
    else 2 * Or(a / 2, b / 2) + (if a % 2 == 1 || b % 2 == 1 then 1 else 0)
  }

  function And(a: nat, b: nat): (r: nat) {
    if a == 0 || b == 0 then 0
    else 2 * And(a / 2, b / 2) + (if a % 2 == 1 && b % 2 == 1 then 1 else 0)
  }

  // C's `~w` on a 32-bit operand.
  function Not(w: word): word {
    0xFFFF_FFFF - w
  }

  // ---------- bit-level meaning of the operators ----------

  lemma {:induction false} OrBit(a: nat, b: nat, i: nat)
    ensures Bit(Or(a, b), i) == (Bit(a, i) || Bit(b, i))
    decreases i
  {
    if i == 0 {
    } else if a == 0 && b == 0 {
      ZeroBit(i);
    } else {
      OrBit(a / 2, b / 2, i - 1);
    }
  }

  lemma {:induction false} AndBit(a: nat, b: nat, i: nat)
    ensures Bit(And(a, b), i) == (Bit(a, i) && Bit(b, i))
    decreases i
  {
    AndStep(a, b);
    ZeroBit(i);
    if a != 0 && b != 0 {
      hide And;
      if i > 0 {
        AndBit(a / 2, b / 2, i - 1);
      }
    }
  }

  lemma AndStep(a: nat, b: nat)
    ensures a == 0 || b == 0 ==> And(a, b) == 0
    ensures a != 0 && b != 0 ==>
              And(a, b) / 2 == And(a / 2, b / 2) && (And(a, b) % 2 == 1 <==> a % 2 == 1 && b % 2 == 1)
  {
  }

  lemma {:induction false} ZeroBit(i: nat)
    ensures !Bit(0, i)
  {
    if i > 0 {
      ZeroBit(i - 1);
    }
  }

  lemma {:induction false} PowBit(j: nat, i: nat)
    ensures Bit(Pow2(j), i) == (i == j)
  {
    if j == 0 {
      if i > 0 {
        ZeroBit(i - 1);
      }
    } else if i > 0 {
      assert Pow2(j) / 2 == Pow2(j - 1);
      PowBit(j - 1, i - 1);
    }
  }

  lemma {:induction false} ComplementBit(w: nat, n: nat, i: nat)
    requires i < n && w < Pow2(n)
    ensures Bit(Pow2(n) - 1 - w, i) == !Bit(w, i)
  {
    if i > 0 {
      assert (Pow2(n) - 1 - w) / 2 == Pow2(n - 1) - 1 - w / 2;
      ComplementBit(w / 2, n - 1, i - 1);
    }
  }

  lemma Pow32()
    ensures Pow2(32) == WORD_SIZE
  {
    assert Pow2(8) == 256;
    assert Pow2(16) == 65536;
    assert Pow2(24) == 0x100_0000;
  }

  lemma NotBit(w: word, i: nat)
    requires i < 32
    ensures Bit(Not(w), i) == !Bit(w, i)
  {
    Pow32();
    ComplementBit(w, 32, i);
  }

  // A number below 2^n is determined by its low n bits.
  lemma {:induction false} BitsDetermine(a: nat, b: nat, n: nat)
    requires a < Pow2(n) && b < Pow2(n)
    requires forall i: nat :: i < n ==> Bit(a, i) == Bit(b, i)
    ensures a == b
  {
    if n > 0 {
      forall i: nat | i < n - 1
        ensures Bit(a / 2, i) == Bit(b / 2, i)
      {
        assert Bit(a, i + 1) == Bit(b, i + 1);
      }
      BitsDetermine(a / 2, b / 2, n - 1);
      assert Bit(a, 0) == Bit(b, 0);
    }
  }

  lemma {:induction false} OnesBit(n: nat, i: nat)
    requires i < n
    ensures Bit(Pow2(n) - 1, i)
  {
    if i > 0 {
      assert (Pow2(n) - 1) / 2 == Pow2(n - 1) - 1;
      OnesBit(n - 1, i - 1);
    }
  }

  // The scan's "word is full" test looks at all 32 bits at once.
  lemma FullWordBits(w: word, i: nat)
    requires w == 0xFFFF_FFFF && i < 32
    ensures Bit(w, i)
  {
    Pow32();
    OnesBit(32, i);
  }

  lemma NotFullWord(w: word) returns (i: nat)
    requires w != 0xFFFF_FFFF
    ensures i < 32 && !Bit(w, i)
  {
    Pow32();
    if forall k: nat :: k < 32 ==> Bit(w, k) {
      var ones := Pow2(32) - 1;
      forall k: nat | k < 32
        ensures Bit(ones, k)
      {
        OnesBit(32, k);
      }
      BitsDetermine(w, ones, 32);
      assert false;
    }
    i :| i < 32 && !Bit(w, i);
  }

  // ---------- arithmetic meaning: size and disjoint packing ----------

  lemma {:induction false} OrBound(a: nat, b: nat, n: nat)
    requires a < Pow2(n) && b < Pow2(n)
    ensures Or(a, b) < Pow2(n)
  {
    if n > 0 {
      OrBound(a / 2, b / 2, n - 1);
    }
  }

  lemma {:induction false} AndBound(a: nat, b: nat)
    ensures And(a, b) <= a && And(a, b) <= b
    decreases a
  {
    if a != 0 && b != 0 {
      AndBound(a / 2, b / 2);
    }
  }

  // `|` with a number below 2^n acts on the low n bits only.
  lemma {:induction false} OrSplit(q: nat, r: nat, f: nat, n: nat)
    requires r < Pow2(n) && f < Pow2(n)
    ensures Or(q * Pow2(n) + r, f) == q * Pow2(n) + Or(r, f)
    decreases n
  {
    hide Or, Pow2;
    if n == 0 {
      OrSplitNone(q);
    } else {
      Doubled(q, n);
      OrSplit(q, r / 2, f / 2, n - 1);
      OrNext(q * Pow2(n - 1), r, f);
    }
  }

  lemma OrSplitNone(q: nat)
    ensures Pow2(0) == 1 && q * Pow2(0) == q && Or(q, 0) == q && Or(0, 0) == 0
  {
    OrZero(q);
  }

  lemma OrNext(y: nat, r: nat, f: nat)
    requires Or(y + r / 2, f / 2) == y + Or(r / 2, f / 2)
    ensures Or(2 * y + r, f) == 2 * y + Or(r, f)
  {
    hide Or;
    assert 2 * y + r == 2 * (y + r / 2) + r % 2 && r == 2 * (r / 2) + r % 2;
    OrStep(y + r / 2, r % 2, f);
    OrStep(r / 2, r % 2, f);
  }

  lemma Doubled(q: nat, n: nat)
    requires n > 0
    ensures Pow2(n) == 2 * Pow2(n - 1) && q * Pow2(n) == 2 * (q * Pow2(n - 1))
  {
    assert q * (2 * Pow2(n - 1)) == 2 * (q * Pow2(n - 1));
  }

  lemma OrStep(x: nat, b: nat, f: nat)
    requires b < 2
    ensures Or(2 * x + b, f) == 2 * Or(x, f / 2) + (if b == 1 || f % 2 == 1 then 1 else 0)
  {
    assert (2 * x + b) / 2 == x && (2 * x + b) % 2 == b;
  }

  lemma {:induction false} OrZero(a: nat)
    ensures Or(a, 0) == a && Or(0, a) == a
  {
    if a != 0 {
      OrZero(a / 2);
    }
  }

  // Quotient and remainder by 2^n, taken one bit at a time.
  function Shift(x: nat, n: nat): (r: nat) {
    if n == 0 then x else Shift(x / 2, n - 1)
  }

  function LowBitsOf(x: nat, n: nat): (r: nat) {
    if n == 0 then 0 else 2 * LowBitsOf(x / 2, n - 1) + x % 2
  }

  lemma {:induction false} ShiftLow(x: nat, n: nat)
    ensures x == Shift(x, n) * Pow2(n) + LowBitsOf(x, n) && LowBitsOf(x, n) < Pow2(n)
    decreases n
  {
    if n > 0 {
      ShiftLow(x / 2, n - 1);
      assert Shift(x, n) * (2 * Pow2(n - 1)) == 2 * (Shift(x, n) * Pow2(n - 1));
    }
  }

  lemma {:induction false} AndLow(x: nat, n: nat)
    ensures And(x, Pow2(n) - 1) == LowBitsOf(x, n)
    decreases n
  {
    if n == 0 {
    } else if x == 0 {
      AndLow(0, n - 1);
    } else {
      assert (Pow2(n) - 1) / 2 == Pow2(n - 1) - 1;
      AndLow(x / 2, n - 1);
    }
  }

  function Left(m: nat, n: nat): (r: nat) {
    if n == 0 then m else 2 * Left(m, n - 1)
  }

  lemma {:induction false} LeftTimes(m: nat, n: nat)
    ensures Left(m, n) == m * Pow2(n)
  {
    if n > 0 {
      LeftTimes(m, n - 1);
      assert m * (2 * Pow2(n - 1)) == 2 * (m * Pow2(n - 1));
    }
  }

  lemma {:induction false} AndHigh(x: nat, m: nat, n: nat)
    ensures And(x, Left(m, n)) == Left(And(Shift(x, n), m), n)
    decreases n
  {
    if n > 0 {
      AndEven(x, Left(m, n - 1));
      AndHigh(x / 2, m, n - 1);
    }
  }

  lemma AndEven(x: nat, k: nat)
    ensures And(x, 2 * k) == 2 * And(x / 2, k)
  {
  }

  // `x & 1`
  lemma LowBit(x: nat)
    ensures And(x, 1) == x % 2
  {
    AndLow(x, 1);
  }

  // `x & 0x3FF`
  lemma LowTen(x: nat)
    ensures And(x, 0x3FF) == x % 1024
  {
    assert Pow2(10) == 1024;
    AndLow(x, 10);
    ShiftLow(x, 10);
    Remainder1024(x, Shift(x, 10), LowBitsOf(x, 10), Pow2(10));
  }

  lemma Remainder1024(x: nat, q: nat, r: nat, m: nat)
    requires m == 1024 && x == q * m + r && r < m
    ensures r == x % 1024
  {
    assert x == q * 1024 + r;
  }

  // `x & 0xFFFFF000`
  lemma ClearLowTwelve(x: word)
    ensures And(x, 0xFFFF_F000) == x - x % 4096 == x / 4096 * 4096
  {
    assert Pow2(10) == 1024;
    assert Pow2(12) == 4096;
    assert Pow2(20) == 0x10_0000;
    var m := Pow2(20) - 1;
    LeftTimes(m, 12);
    AndHigh(x, m, 12);
    ShiftLow(x, 12);
    assert Shift(x, 12) == x / 4096;
    LeftTimes(And(Shift(x, 12), m), 12);
    AndLow(x / 4096, 20);
    ShiftLow(x / 4096, 20);
    assert Shift(x / 4096, 20) == 0;
  }

  // `base | flags` for a page-aligned base: nothing is lost.
  lemma PackFlags(frame: nat, low: nat, flags: nat)
    requires low < 4096 && flags < 4096
    ensures Or(4096 * frame + low, flags) == 4096 * frame + Or(low, flags)
    ensures Or(0, flags) == flags
  {
    assert Pow2(12) == 4096;
    OrSplit(frame, low, flags, 12);
    OrZero(flags);
  }

  // `base | PRESENT | WRITE | USER`
  lemma PackSeven(frame: nat)
    ensures Or(Or(Or(4096 * frame, 1), 2), 4) == 4096 * frame + 7
  {
    PackFlags(frame, 0, 1);
    PackFlags(frame, 1, 2);
    PackFlags(frame, 3, 4);
    assert Or(1, 2) == 3;
    assert Or(3, 4) == 7;
  }

  // `|` stays within 32 bits.
  lemma OrWord(a: word, b: word)
    ensures Or(a, b) < WORD_SIZE
  {
    Pow32();
    OrBound(a, b, 32);
  }
}
