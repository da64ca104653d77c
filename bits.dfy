/** Python's unbounded-integer bit operations on non-negative integers, written
    arithmetically: `<<`, `|`, `^`, and the flip of one bit. */
module Bits {

  /** An 8-bit unsigned value, as produced by `struct.pack('B', ...)`. */
  type Byte = x: int | 0 <= x < 256

  /** Euclidean division is determined by its quotient and remainder. */
  lemma DivMod(x: int, d: int, q: int, r: int)
    requires d > 0 && 0 <= r < d && x == q * d + r
    ensures x / d == q && x % d == r
  {
    var q', r' := x / d, x % d;
    assert (q - q') * d == r' - r;
    if q > q' {
      MulAtLeast(q - q', d);
    } else if q < q' {
      MulAtLeast(q' - q, d);
    }
  }

  lemma {:induction false} MulAtLeast(k: int, d: int)
    requires k >= 1 && d > 0
    ensures k * d >= d
  {
    if k > 1 {
      MulAtLeast(k - 1, d);
      assert k * d == (k - 1) * d + d;
    }
  }

  /** `1 << k` */
  function Pow2(k: nat): (r: nat)
    ensures r >= 1
  {
    if k == 0 then 1 else 2 * Pow2(k - 1)
  }

  lemma {:induction false} Pow2Add(a: nat, b: nat)
    ensures Pow2(a + b) == Pow2(a) * Pow2(b)
  {
    if b > 0 {
      Pow2Add(a, b - 1);
      calc {
        Pow2(a + b);
        2 * Pow2(a + b - 1);
        2 * (Pow2(a) * Pow2(b - 1));
        Pow2(a) * (2 * Pow2(b - 1));
      }
    }
  }

  /** The powers of two the frame layouts shift by. */
  lemma Pow2Small()
    ensures Pow2(4) == 0x10 && Pow2(8) == 0x100 && Pow2(10) == 0x400
  {
  }

  lemma Pow2Of24()
    ensures Pow2(20) == 0x10_0000 && Pow2(24) == 0x100_0000
  {
    Pow2Small();
    Pow2Add(10, 10);
    Pow2Add(20, 4);
  }

  lemma Pow2Of44()
    ensures Pow2(34) == 0x4_0000_0000 && Pow2(44) == 0x1000_0000_0000
  {
    Pow2Of24();
    Pow2Add(24, 10);
    Pow2Add(34, 10);
  }

  lemma Pow2Of32()
    ensures Pow2(32) == 0x1_0000_0000
  {
    Pow2Of24();
    Pow2Small();
    Pow2Add(24, 8);
  }

  /** `x << k`, one doubling per position. */
  function Shl(x: nat, k: nat): nat
  {
    if k == 0 then x else 2 * Shl(x, k - 1)
  }

  lemma Double(p: nat, c: nat)
    ensures (2 * p) * c == 2 * (p * c)
  {
  }

  /** `x << k` is `x * 2**k`. */
  lemma {:induction false} ShlIsMul(x: nat, k: nat)
    ensures Shl(x, k) == x * Pow2(k)
  {
    if k > 0 {
      ShlIsMul(x, k - 1);
      Double(Pow2(k - 1), x);
    }
  }

  lemma ShlBy4(x: nat) ensures Shl(x, 4) == x * 0x10 { ShlIsMul(x, 4); Pow2Small(); }
  lemma ShlBy8(x: nat) ensures Shl(x, 8) == x * 0x100 { ShlIsMul(x, 8); Pow2Small(); }
  lemma ShlBy10(x: nat) ensures Shl(x, 10) == x * 0x400 { ShlIsMul(x, 10); Pow2Small(); }
  lemma ShlBy20(x: nat) ensures Shl(x, 20) == x * 0x10_0000 { ShlIsMul(x, 20); Pow2Of24(); }
  lemma ShlBy24(x: nat) ensures Shl(x, 24) == x * 0x100_0000 { ShlIsMul(x, 24); Pow2Of24(); }
  lemma ShlBy34(x: nat) ensures Shl(x, 34) == x * 0x4_0000_0000 { ShlIsMul(x, 34); Pow2Of44(); }
  lemma ShlBy44(x: nat) ensures Shl(x, 44) == x * 0x1000_0000_0000 { ShlIsMul(x, 44); Pow2Of44(); }

  /** Python's `a | b` on non-negative integers, one bit at a time. */
  function Or(a: nat, b: nat): nat
  {
    if a == 0 then b
    else if b == 0 then a
    else 2 * Or(a / 2, b / 2) + (if a % 2 == 1 || b % 2 == 1 then 1 else 0)
  }

  /** Or-ing in a value that fits below bit k of `m << k` is addition. */
  lemma {:induction false} OrDisjoint(m: nat, k: nat, b: nat)
    requires b < Pow2(k)
    ensures Or(Shl(m, k), b) == Shl(m, k) + b
  {
    if k > 0 && Shl(m, k) != 0 && b != 0 {
      OrDisjoint(m, k - 1, b / 2);
    }
  }

  /** Shifting by a then by b shifts by a + b. */
  lemma {:induction false} ShlShl(x: nat, a: nat, b: nat)
    ensures Shl(Shl(x, a), b) == Shl(x, a + b)
  {
    if b > 0 {
      ShlShl(x, a, b - 1);
    }
  }

  /** `(m << k) | (b << k) == (m | b) << k` */
  lemma {:induction false} OrShl(m: nat, b: nat, k: nat)
    ensures Or(Shl(m, k), Shl(b, k)) == Shl(Or(m, b), k)
  {
    if k > 0 {
      OrShl(m, b, k - 1);
    }
  }

  /** `a | b` is never below either operand. */
  lemma {:induction false} OrBounds(a: nat, b: nat)
    ensures Or(a, b) >= a && Or(a, b) >= b
  {
    if a != 0 && b != 0 {
      OrBounds(a / 2, b / 2);
    }
  }

  /** Python's `a ^ b` on non-negative integers, one bit at a time. */
  function Xor(a: nat, b: nat): nat
  {
    if a == 0 && b == 0 then 0
    else 2 * Xor(a / 2, b / 2) + (if a % 2 == b % 2 then 0 else 1)
  }

  lemma {:induction false} XorBound(a: nat, b: nat, k: nat)
    requires a < Pow2(k) && b < Pow2(k)
    ensures Xor(a, b) < Pow2(k)
  {
    if !(a == 0 && b == 0) {
      XorBound(a / 2, b / 2, k - 1);
    }
  }

  lemma {:induction false} XorZero(a: nat)
    ensures Xor(a, 0) == a
  {
    if a != 0 {
      XorZero(a / 2);
    }
  }

  /** The bit-by-bit unfolding of `^`, also when both operands are zero. */
  lemma XorStep(a: nat, b: nat)
    ensures Xor(a, b) == 2 * Xor(a / 2, b / 2) + (if a % 2 == b % 2 then 0 else 1)
  {
  }

  lemma {:induction false} XorAssoc(a: nat, b: nat, c: nat)
    ensures Xor(Xor(a, b), c) == Xor(a, Xor(b, c))
    decreases a + b + c
  {
    if a + b + c != 0 {
      var u, v := Xor(a, b), Xor(b, c);
      XorStep(a, b);
      XorStep(b, c);
      XorStep(u, c);
      XorStep(a, v);
      assert u / 2 == Xor(a / 2, b / 2) && u % 2 == (if a % 2 == b % 2 then 0 else 1);
      assert v / 2 == Xor(b / 2, c / 2) && v % 2 == (if b % 2 == c % 2 then 0 else 1);
      XorAssoc(a / 2, b / 2, c / 2);
    }
  }

  lemma {:induction false} XorComm(a: nat, b: nat)
    ensures Xor(a, b) == Xor(b, a)
  {
    if !(a == 0 && b == 0) {
      XorComm(a / 2, b / 2);
    }
  }

  /** Xor-ing a k-bit value with k one bits flips every one of its bits,
      which is subtracting it from the all-ones value. */
  lemma {:induction false} XorAllOnes(x: nat, k: nat)
    requires x < Pow2(k)
    ensures Xor(x, Pow2(k) - 1) == Pow2(k) - 1 - x
  {
    if k > 0 {
      var m := Pow2(k) - 1;
      assert m / 2 == Pow2(k - 1) - 1 && m % 2 == 1;
      XorAllOnes(x / 2, k - 1);
    }
  }

  /** Xor-ing the same value onto two different values keeps them different. */
  lemma {:induction false} XorCancel(a: nat, a': nat, r: nat)
    requires a != a'
    ensures Xor(a, r) != Xor(a', r)
  {
    if a / 2 != a' / 2 {
      XorCancel(a / 2, a' / 2, r / 2);
    }
  }

  /** The 8-bit `^` that the XOR-fold checksum is made of. */
  function Xor8(a: Byte, b: Byte): (r: Byte)
    ensures r == Xor(a, b)
  {
    XorBound(a, b, 8);
    Xor(a, b)
  }

  /** The byte-wise ones' complement `~b & 0xFF` of a byte string. */
  function Complement(bs: seq<Byte>): (r: seq<Byte>)
    ensures |r| == |bs|
    ensures forall i :: 0 <= i < |bs| ==> r[i] == 255 - bs[i] as int
  {
    seq(|bs|, i requires 0 <= i < |bs| => 255 - bs[i])
  }

  /** Python's `sum` over a byte string. */
  function ByteSum(bs: seq<Byte>): nat
  {
    if |bs| == 0 then 0 else ByteSum(bs[..|bs| - 1]) + bs[|bs| - 1]
  }

  /** `x ^ (1 << i)`: flips bit i of x, leaving every other bit alone. */
  function FlipBit(x: nat, i: nat): nat
  {
    if i == 0 then (if x % 2 == 1 then x - 1 else x + 1)
    else x % 2 + 2 * FlipBit(x / 2, i - 1)
  }

  /** Flipping a bit moves the value by exactly 2^i, so it always changes it. */
  lemma {:induction false} FlipBitDistance(x: nat, i: nat)
    ensures FlipBit(x, i) == x + Pow2(i) || FlipBit(x, i) + Pow2(i) == x
  {
    if i > 0 {
      FlipBitDistance(x / 2, i - 1);
    }
  }

  /** One step of FlipBit on a value whose part above bit 0 is a/2 + h. */
  lemma FlipBitShift(a: nat, h: nat, i: nat)
    requires i > 0
    ensures FlipBit(a + 2 * h, i) == a % 2 + 2 * FlipBit(a / 2 + h, i - 1)
  {
    DivMod(a + 2 * h, 2, a / 2 + h, a % 2);
  }

  /** Flipping a bit above the low w bits leaves those bits alone. */
  lemma {:induction false} FlipBitHigh(a: nat, c: nat, w: nat, i: nat)
    requires a < Pow2(w)
    ensures FlipBit(a + Shl(c, w), w + i) == a + Shl(FlipBit(c, i), w)
  {
    if w > 0 {
      FlipBitShift(a, Shl(c, w - 1), w + i);
      FlipBitHigh(a / 2, c, w - 1, i);
    }
  }

  /** H has its low w bits clear. */
  ghost predicate LowBitsClear(H: nat, w: nat)
  {
    w == 0 || (H % 2 == 0 && LowBitsClear(H / 2, w - 1))
  }

  lemma {:induction false} ShlClearsLowBits(c: nat, w: nat)
    ensures LowBitsClear(Shl(c, w), w)
  {
    if w > 0 {
      var h := Shl(c, w - 1);
      DivMod(2 * h, 2, h, 0);
      ShlClearsLowBits(c, w - 1);
    }
  }

  /** Flipping a bit inside the low w bits leaves the bits above them alone. */
  lemma {:induction false} FlipBitLow(a: nat, H: nat, w: nat, i: nat)
    requires i < w && LowBitsClear(H, w)
    ensures FlipBit(a + H, i) == FlipBit(a, i) + H
  {
    if i > 0 {
      FlipBitLow(a / 2, H / 2, w - 1, i - 1);
      FlipBitShift(a, H / 2, i);
    }
  }

  /** Flipping a bit inside the low w bits keeps a w-bit value within w bits. */
  lemma {:induction false} FlipBitBelow(a: nat, w: nat, i: nat)
    requires a < Pow2(w) && i < w
    ensures FlipBit(a, i) < Pow2(w)
  {
    var p := Pow2(w - 1);
    assert a / 2 < p;
    if i > 0 {
      FlipBitBelow(a / 2, w - 1, i - 1);
    }
  }

  /** Flipping bit i of a field that sits at bit w of n, with `low` below it
      and `high` above it, flips bit w + i of n. */
  lemma FlipFieldBit(n: nat, low: nat, w: nat, field: nat, width: nat, high: nat, i: nat)
    requires low < Pow2(w) && i < width
    requires n == low + Shl(field + Shl(high, width), w)
    ensures FlipBit(n, w + i) == low + Shl(FlipBit(field, i) + Shl(high, width), w)
  {
    FlipBitHigh(low, field + Shl(high, width), w, i);
    ShlClearsLowBits(high, width);
    FlipBitLow(field, Shl(high, width), width, i);
  }
}
