/** The `struct.pack` formats the frames use, with the native byte order fixed
    to little-endian: 'B' (unsigned byte), 'h' (signed 16-bit) and 'I'
    (unsigned 32-bit). A value that does not fit its format raises. */
module Struct {
  import opened Wrappers
  import opened Bits

  const Word := 0x1_0000_0000

  /** struct.pack('B', x) */
  function PackB(x: int): (r: Result<seq<Byte>>)
    ensures r.Ok? <==> 0 <= x < 256
    ensures r.Ok? ==> |r.value| == 1 && r.value[0] == x
  {
    if 0 <= x < 256 then Ok([x]) else Err(StructError)
  }

  /** struct.pack('h', x): two's complement, low byte first. */
  function PackH(x: int): (r: Result<seq<Byte>>)
    ensures r.Ok? <==> -0x8000 <= x < 0x8000
    ensures r.Ok? ==> |r.value| == 2 && UnpackH(r.value) == x
  {
    if -0x8000 <= x < 0x8000 then
      var u := x % 0x1_0000;
      Ok([u % 256, u / 256])
    else Err(StructError)
  }

  /** struct.unpack('h', b) */
  function UnpackH(b: seq<Byte>): (x: int)
    requires |b| == 2
    ensures -0x8000 <= x < 0x8000
  {
    var u := b[0] as int + 256 * (b[1] as int);
    if u >= 0x8000 then u - 0x1_0000 else u
  }

  /** The four bytes of a 32-bit word, low byte first. */
  function LittleEndian32(x: nat): (b: seq<Byte>)
    requires x < Word
    ensures |b| == 4
  {
    [x % 256, x / 0x100 % 256, x / 0x1_0000 % 256, x / 0x100_0000]
  }

  /** struct.pack('I', x) */
  function PackI(x: int): (r: Result<seq<Byte>>)
    ensures r.Ok? <==> 0 <= x < Word
    ensures r.Ok? ==> |r.value| == 4 && UnpackI(r.value) == x
  {
    if 0 <= x < Word then LittleEndian32Unpack(x); Ok(LittleEndian32(x)) else Err(StructError)
  }

  /** struct.unpack('I', b) */
  function UnpackI(b: seq<Byte>): (x: nat)
    requires |b| == 4
    ensures x < Word
  {
    var b0, b1, b2, b3 := b[0] as int, b[1] as int, b[2] as int, b[3] as int;
    b0 + 0x100 * b1 + 0x1_0000 * b2 + 0x100_0000 * b3
  }

  /** The four bytes of a word unpack to that word. */
  lemma LittleEndian32Unpack(x: nat)
    requires x < Word
    ensures UnpackI(LittleEndian32(x)) == x
  {
    var q1, q2 := x / 0x100, x / 0x1_0000;
    DivMod(x, 0x1_0000, q1 / 0x100, q1 % 0x100 * 0x100 + x % 0x100);
    DivMod(x, 0x100_0000, q2 / 0x100, q2 % 0x100 * 0x1_0000 + q1 % 0x100 * 0x100 + x % 0x100);
  }

  /** Every four bytes are the packing of the word they unpack to. */
  lemma UnpackThenPackI(b: seq<Byte>)
    requires |b| == 4
    ensures PackI(UnpackI(b)) == Ok(b)
  {
    var x := UnpackI(b);
    var b0, b1, b2, b3 := b[0] as int, b[1] as int, b[2] as int, b[3] as int;
    DivMod(x, 0x100, b1 + 0x100 * b2 + 0x1_0000 * b3, b0);
    DivMod(x, 0x1_0000, b2 + 0x100 * b3, b0 + 0x100 * b1);
    DivMod(x, 0x100_0000, b3, b0 + 0x100 * b1 + 0x1_0000 * b2);
    DivMod(x / 0x100, 0x100, b2 + 0x100 * b3, b1);
    DivMod(x / 0x1_0000, 0x100, b3, b2);
    assert LittleEndian32(x) == b;
  }

  /** Every two bytes are the packing of the value they unpack to. */
  lemma UnpackThenPackH(b: seq<Byte>)
    requires |b| == 2
    ensures PackH(UnpackH(b)) == Ok(b)
  {
    var u := b[0] as int + 256 * (b[1] as int);
    var x := UnpackH(b);
    DivMod(x, 0x1_0000, if u >= 0x8000 then -1 else 0, u);
    DivMod(u, 256, b[1], b[0]);
    assert [u % 256, u / 256] == b;
  }
}
