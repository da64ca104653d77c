/** The BPSK bit mapping of PHY/PHY_layer_functions.py. A sample is represented
    by its real part: `cos(0)` is 1 for a 0 bit and `cos(pi)` is -1 for a 1 bit,
    and demodulation reads nothing else. */
module Bpsk {
  import opened Bits

  type Bit = x: int | 0 <= x < 2

  /** The low n bits of x, most significant first. */
  function BitsOf(x: nat, n: nat): (r: seq<Bit>)
    ensures |r| == n
  {
    if n == 0 then [] else BitsOf(x / 2, n - 1) + [x % 2]
  }

  /** The number a sequence of bits spells, most significant first. */
  function ValueOf(bits: seq<Bit>): (v: nat)
    ensures v < Pow2(|bits|)
  {
    if |bits| == 0 then 0 else 2 * ValueOf(bits[..|bits| - 1]) + bits[|bits| - 1]
  }

  /** Spelling out the low n bits and reading them back gives x, when x fits in n bits. */
  lemma {:induction false} ValueOfBitsOf(x: nat, n: nat)
    requires x < Pow2(n)
    ensures ValueOf(BitsOf(x, n)) == x
  {
    if n > 0 {
      var bits := BitsOf(x, n);
      assert bits[..n - 1] == BitsOf(x / 2, n - 1);
      ValueOfBitsOf(x / 2, n - 1);
    }
  }

  /** Bit k, counted from the most significant end, of an n-bit value. */
  lemma {:induction false} BitsOfIndex(x: nat, n: nat, k: nat)
    requires k < n
    ensures BitsOf(x, n)[k] == x / Pow2(n - 1 - k) % 2
  {
    if k == n - 1 {
      assert Pow2(n - 1 - k) == 1;
    } else {
      BitsOfIndex(x / 2, n - 1, k);
      DivDiv2(x, Pow2(n - 2 - k));
    }
  }

  lemma DivDiv2(x: nat, p: nat)
    requires p >= 1
    ensures x / 2 / p == x / (2 * p)
  {
    var q, r := x / 2 / p, x / 2 % p;
    assert x / 2 == q * p + r;
    DivMod(x, 2 * p, q, 2 * r + x % 2);
  }

  /** When x + y is all ones in n bits, the bits of y are the complements of
      the bits of x. */
  lemma {:induction false} BitsOfComplement(x: nat, y: nat, n: nat)
    requires x + y + 1 == Pow2(n)
    ensures BitsOf(y, n) == FlipBits(BitsOf(x, n))
  {
    if n > 0 {
      assert x / 2 + y / 2 + 1 == Pow2(n - 1) && y % 2 == 1 - x % 2 by {
        var p := Pow2(n - 1);
        DivMod(x + y + 1, 2, p, 0);
      }
      BitsOfComplement(x / 2, y / 2, n - 1);
      FlipBitsSnoc(BitsOf(x / 2, n - 1), x % 2);
    }
  }

  lemma FlipBitsSnoc(s: seq<Bit>, b: Bit)
    ensures FlipBits(s + [b]) == FlipBits(s) + [1 - b]
  {
    assert (s + [b])[..|s|] == s;
  }

  /** Every bit inverted. */
  function FlipBits(bits: seq<Bit>): (r: seq<Bit>)
    ensures |r| == |bits|
  {
    seq(|bits|, i requires 0 <= i < |bits| => 1 - bits[i])
  }

  /** `np.unpackbits`: every byte as eight bits, most significant first. */
  function Unpack(bs: seq<Byte>): (r: seq<Bit>)
    ensures |r| == 8 * |bs|
  {
    if |bs| == 0 then [] else BitsOf(bs[0], 8) + Unpack(bs[1..])
  }

  lemma {:induction false} UnpackIndex(bs: seq<Byte>, i: nat, k: nat)
    requires i < |bs| && k < 8
    ensures Unpack(bs)[8 * i + k] == BitsOf(bs[i], 8)[k]
  {
    if i > 0 {
      UnpackIndex(bs[1..], i - 1, k);
    }
  }

  /** `np.packbits`: eight bits at a time, most significant first, with a
      trailing partial group padded with zero bits. */
  function PackBits(bits: seq<Bit>): (r: seq<Byte>)
    ensures |r| == (|bits| + 7) / 8
    decreases |bits|
  {
    Pow2Small();
    if |bits| == 0 then []
    else if |bits| < 8 then [ValueOf(bits + Zeros(8 - |bits|))]
    else [ValueOf(bits[..8])] + PackBits(bits[8..])
  }

  function Zeros(n: nat): (r: seq<Bit>)
    ensures |r| == n && forall i :: 0 <= i < n ==> r[i] == 0
  {
    seq(n, i => 0)
  }

  /** Packing the unpacked bits of a byte string gives the byte string back. */
  lemma {:induction false} PackUnpack(bs: seq<Byte>)
    ensures PackBits(Unpack(bs)) == bs
  {
    if |bs| > 0 {
      var bits := Unpack(bs);
      assert bits[..8] == BitsOf(bs[0], 8);
      assert bits[8..] == Unpack(bs[1..]);
      Pow2Small();
      ValueOfBitsOf(bs[0], 8);
      PackUnpack(bs[1..]);
    }
  }

  /** Unpacking the complement of a byte string inverts every bit. */
  lemma {:induction false} UnpackComplement(bs: seq<Byte>)
    ensures Unpack(Complement(bs)) == FlipBits(Unpack(bs))
  {
    if |bs| > 0 {
      Pow2Small();
      BitsOfComplement(bs[0], 255 - bs[0], 8);
      assert Complement(bs)[1..] == Complement(bs[1..]);
      UnpackComplement(bs[1..]);
      FlipBitsAppend(BitsOf(bs[0], 8), Unpack(bs[1..]));
    }
  }

  lemma FlipBitsAppend(s: seq<Bit>, t: seq<Bit>)
    ensures FlipBits(s + t) == FlipBits(s) + FlipBits(t)
  {
    assert forall j | 0 <= j < |t| :: (s + t)[|s| + j] == t[j];
  }

  /** The real part of the sample for one bit: `cos(bit * 180 degrees)`. */
  function Sample(bit: Bit): (r: real)
    ensures r == 1.0 || r == -1.0
    ensures r > 0.0 <==> bit == 0
  {
    if bit == 0 then 1.0 else -1.0
  }

  /** `modulate_bpsk`: one sample per bit of the unpacked bytes. */
  function Modulate(bs: seq<Byte>): (r: seq<real>)
    ensures |r| == 8 * |bs|
  {
    var bits := Unpack(bs);
    seq(|bits|, i requires 0 <= i < |bits| => Sample(bits[i]))
  }

  /** The decision `np.where(np.real(signal) > 0, 1, 0)`. */
  function Decide(x: real): (r: Bit)
    ensures r == 1 <==> x > 0.0
  {
    if x > 0.0 then 1 else 0
  }

  /** `demodulate_bpsk`: one decision per sample, packed into bytes. */
  function Demodulate(samples: seq<real>): (r: seq<Byte>)
    ensures |r| == (|samples| + 7) / 8
  {
    PackBits(seq(|samples|, i requires 0 <= i < |samples| => Decide(samples[i])))
  }

  /** Eight samples per byte; sample 8i + k carries bit k of byte i, most
      significant first, as 1 for a 0 bit and -1 for a 1 bit. */
  lemma ModulateSample(bs: seq<Byte>, i: nat, k: nat)
    requires i < |bs| && k < 8
    ensures |Modulate(bs)| == 8 * |bs|
    ensures Modulate(bs)[8 * i + k] == if bs[i] / Pow2(7 - k) % 2 == 0 then 1.0 else -1.0
  {
    UnpackIndex(bs, i, k);
    BitsOfIndex(bs[i], 8, k);
  }

  /** Bit k of demodulated byte j is the decision on sample 8j + k, or a
      padding 0 past the last sample. */
  lemma {:induction false} DemodulateBit(samples: seq<real>, j: nat, k: nat)
    requires j < (|samples| + 7) / 8 && k < 8
    ensures BitsOf(Demodulate(samples)[j], 8)[k]
         == if 8 * j + k < |samples| then Decide(samples[8 * j + k]) else 0
  {
    var bits := seq(|samples|, i requires 0 <= i < |samples| => Decide(samples[i]));
    PackBitsBit(bits, j, k);
  }

  lemma {:induction false} PackBitsBit(bits: seq<Bit>, j: nat, k: nat)
    requires j < (|bits| + 7) / 8 && k < 8
    ensures BitsOf(PackBits(bits)[j], 8)[k] == if 8 * j + k < |bits| then bits[8 * j + k] else 0
    decreases |bits|
  {
    if j == 0 {
      PackBitsFirst(bits, k);
    } else {
      var rest := bits[8..];
      assert PackBits(bits)[j] == PackBits(rest)[j - 1];
      PackBitsBit(rest, j - 1, k);
    }
  }

  /** The first packed byte spells the first eight bits, padded with zeros. */
  lemma PackBitsFirst(bits: seq<Bit>, k: nat)
    requires 0 < |bits| && k < 8
    ensures BitsOf(PackBits(bits)[0], 8)[k] == if k < |bits| then bits[k] else 0
  {
    var group := if |bits| < 8 then bits + Zeros(8 - |bits|) else bits[..8];
    assert PackBits(bits)[0] == ValueOf(group);
    BitsOfValueOf(group);
  }

  /** Reading a sequence of bits as a number and spelling it out again gives the bits back. */
  lemma {:induction false} BitsOfValueOf(bits: seq<Bit>)
    ensures BitsOf(ValueOf(bits), |bits|) == bits
  {
    if |bits| > 0 {
      var n := |bits|;
      var v := ValueOf(bits);
      DivMod(v, 2, ValueOf(bits[..n - 1]), bits[n - 1]);
      BitsOfValueOf(bits[..n - 1]);
    }
  }

  /** Decision undoes the sample's polarity the other way round: each bit comes back inverted. */
  lemma DecideSample(bit: Bit)
    ensures Decide(Sample(bit)) == 1 - bit
  {
  }

  /** With no noise, demodulating the modulated bytes gives their byte-wise
      complement, with the same length: the two mappings use opposite polarity. */
  lemma DemodulateModulate(bs: seq<Byte>)
    ensures Demodulate(Modulate(bs)) == Complement(bs)
  {
    var s := Modulate(bs);
    var bits := seq(|s|, i requires 0 <= i < |s| => Decide(s[i]));
    UnpackComplement(bs);
    assert bits == Unpack(Complement(bs));
    PackUnpack(Complement(bs));
  }

  /** Demodulation reads only the sign of each sample: a channel that moves
      samples without pushing any across zero changes nothing downstream. */
  lemma DemodulateSignOnly(samples: seq<real>, received: seq<real>)
    requires |received| == |samples|
    requires forall i :: 0 <= i < |samples| ==> (received[i] > 0.0 <==> samples[i] > 0.0)
    ensures Demodulate(received) == Demodulate(samples)
  {
    var d := seq(|samples|, i requires 0 <= i < |samples| => Decide(samples[i]));
    var e := seq(|received|, i requires 0 <= i < |received| => Decide(received[i]));
    assert d == e;
  }
}
