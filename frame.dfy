/** The 8-byte MAC frame of MAC/Frame.py: a start-of-frame byte 0xA5, a 4-bit
    flag, 10-bit destination and source addresses, a 24-bit payload and an
    8-bit XOR-fold checksum, written as two 32-bit words. */
module FrameCodec {
  import opened Wrappers
  import opened Bits
  import opened Struct

  /** Start Frame Delimiter. */
  const Sfd := 0xA5

  /** The named flag values (FlagType); any other integer is accepted too. */
  const Ack := 0
  const Data := 1
  const Discover := 2

  datatype Frame = Frame(sfd: nat, flag: nat, destAddress: nat, srcAddress: nat, data: nat, crc: nat)

  /** Every field within the width the wire format gives it. */
  predicate WellFormed(f: Frame)
  {
    && f.sfd == Sfd
    && f.flag < 0x10
    && f.destAddress < 0x400
    && f.srcAddress < 0x400
    && f.data < 0x100_0000
    && f.crc < 0x100
  }

  /** The blob the checksum folds: `flag << 44 | dest << 34 | src << 24 | data`. */
  function CrcData(flag: nat, dest: nat, src: nat, data: nat): nat
  {
    Or(Or(Or(Shl(flag, 44), Shl(dest, 34)), Shl(src, 24)), data)
  }

  /** The XOR of all the bytes of n. */
  function XorFold(n: nat): Byte
  {
    if n == 0 then 0 else Xor8(n % 0x100, XorFold(n / 0x100))
  }

  /** `calculate_crc`: folds the blob into one byte, eight bits at a time. */
  method CalculateCrc(flag: nat, dest: nat, src: nat, data: nat) returns (crc: Byte)
    ensures crc == XorFold(CrcData(flag, dest, src, data))
  {
    var crcData := CrcData(flag, dest, src, data);
    crc := 0;
    XorZero(XorFold(crcData));
    XorComm(0, XorFold(crcData));
    while crcData != 0
      invariant Xor8(crc, XorFold(crcData)) == XorFold(CrcData(flag, dest, src, data))
      decreases crcData
    {
      XorAssoc(crc, crcData % 0x100, XorFold(crcData / 0x100));
      crc := Xor8(crc, crcData % 0x100);
      crcData := crcData / 0x100;
    }
    XorZero(crc);
  }

  /** `Frame(flag, dest_address, src_address, data)`: the fields are stored as
      given behind the start-of-frame delimiter and the checksum is computed
      once, at construction. Nothing is range-checked: the frame is in range
      exactly when the arguments are. */
  function NewFrame(flag: nat, dest: nat, src: nat, data: nat): (r: Frame)
    ensures r.sfd == Sfd && r.flag == flag && r.destAddress == dest && r.srcAddress == src && r.data == data
    ensures r.crc == XorFold(CrcData(flag, dest, src, data))
    ensures WellFormed(r) <==> flag < 0x10 && dest < 0x400 && src < 0x400 && data < 0x100_0000
  {
    Frame(Sfd, flag, dest, src, data, XorFold(CrcData(flag, dest, src, data)))
  }

  /** Each named flag fits the 4-bit field, so it never puts a frame out of range. */
  lemma FlagTypesWellFormed(flag: nat, dest: nat, src: nat, data: nat)
    requires flag == Ack || flag == Data || flag == Discover
    requires dest < 0x400 && src < 0x400 && data < 0x100_0000
    ensures WellFormed(NewFrame(flag, dest, src, data))
  {
  }

  /** The first 32-bit word: `sfd << 24 | flag << 20 | dest << 10 | src`. */
  function FirstWord(f: Frame): nat
  {
    Or(Or(Or(Shl(f.sfd, 24), Shl(f.flag, 20)), Shl(f.destAddress, 10)), f.srcAddress)
  }

  /** The second 32-bit word: `data << 8 | crc`. */
  function SecondWord(f: Frame): nat
  {
    Or(Shl(f.data, 8), f.crc)
  }

  /** `to_bytes`: `struct.pack('II', first, second)`, without any complement.
      It raises exactly when a word does not fit 32 bits, and otherwise writes
      eight bytes whose halves unpack to the two words. */
  function ToBytes(f: Frame): (r: Result<seq<Byte>>)
    ensures r.Ok? <==> FirstWord(f) < Word && SecondWord(f) < Word
    ensures r.Ok? ==> |r.value| == 8 && UnpackI(r.value[..4]) == FirstWord(f) && UnpackI(r.value[4..]) == SecondWord(f)
  {
    var first :- PackI(FirstWord(f));
    var second :- PackI(SecondWord(f));
    assert (first + second)[..4] == first && (first + second)[4..] == second;
    Ok(first + second)
  }

  /** `~w & 0xFFFFFFFF` for a 32-bit word w: every one of its 32 bits inverted. */
  function InvertWord(w: nat): (r: nat)
    requires w < Word
    ensures r < Word && r + w == Word - 1
    ensures r == Xor(w, 0xFFFF_FFFF)
  {
    Pow2Of32();
    XorAllOnes(w, 32);
    0xFFFF_FFFF - w
  }

  /** What an inverted word holds in its low byte and in the 24 bits above it. */
  lemma InvertedWordParts(b: seq<Byte>)
    requires |b| == 4
    ensures InvertWord(UnpackI(b)) % 0x100 == 0xFF - b[0] as int
    ensures InvertWord(UnpackI(b)) / 0x100 < 0x100_0000
  {
    var w := InvertWord(UnpackI(b));
    var hi := 0xFF_FFFF - (b[1] as int + 0x100 * b[2] as int + 0x1_0000 * b[3] as int);
    DivMod(w, 0x100, hi, 0xFF - b[0] as int);
  }

  /** The frame `create_frame_from_bytes` builds from its two inverted words:
      the fields are cut out of them, the constructor recomputes a checksum,
      and the one read from the wire then replaces it. */
  function FrameOfWords(first: nat, second: nat): (r: Frame)
    ensures r.sfd == Sfd && r.flag < 0x10 && r.destAddress < 0x400 && r.srcAddress < 0x400
    ensures r.data == second / 0x100 && r.crc == second % 0x100
    ensures WellFormed(r) <==> second < Word
  {
    var flag := first / 0x10_0000 % 0x10;
    var dest := first / 0x400 % 0x400;
    var src := first % 0x400;
    NewFrame(flag, dest, src, second / 0x100).(crc := second % 0x100)
  }

  /** `Frame.create_frame_from_bytes`: unpacks two words, inverts every bit of
      both, and extracts the fields. */
  function CreateFrameFromBytes(bs: seq<Byte>): (r: Result<Frame>)
    ensures r.Err? <==> |bs| != 8
    ensures r.Err? ==> r.error == InvalidFrameLength
    ensures r.Ok? ==> WellFormed(r.value) && r.value.crc == 255 - bs[4] as int
  {
    if |bs| != 8 then Err(InvalidFrameLength)
    else
      InvertedWordParts(bs[4..]);
      Ok(FrameOfWords(InvertWord(UnpackI(bs[..4])), InvertWord(UnpackI(bs[4..]))))
  }

  // ---------------------------------------------------------------------------
  // The checksum

  lemma XorFoldStep(n: nat)
    ensures XorFold(n) == Xor8(n % 0x100, XorFold(n / 0x100))
  {
    if n == 0 {
      XorZero(0);
    }
  }

  /** The blob with its fields stacked: `data + ((src + ((dest + (flag << 10)) << 10)) << 24)`. */
  function Blob(flag: nat, dest: nat, src: nat, data: nat): nat
  {
    data + Shl(src + Shl(dest + Shl(flag, 10), 10), 24)
  }

  /** With the addresses and the payload in range, the fields occupy disjoint
      bits of the blob, so or-ing them together is stacking them. */
  lemma CrcDataNested(flag: nat, dest: nat, src: nat, data: nat)
    requires dest < 0x400 && src < 0x400 && data < 0x100_0000
    ensures CrcData(flag, dest, src, data) == Blob(flag, dest, src, data)
  {
    var a := dest + Shl(flag, 10);
    var b := src + Shl(a, 10);
    Pow2Small();
    assert Or(Shl(flag, 44), Shl(dest, 34)) == Shl(a, 34) by {
      ShlShl(flag, 10, 34);
      OrShl(Shl(flag, 10), dest, 34);
      OrDisjoint(flag, 10, dest);
    }
    assert Or(Shl(a, 34), Shl(src, 24)) == Shl(b, 24) by {
      ShlShl(a, 10, 24);
      OrShl(Shl(a, 10), src, 24);
      OrDisjoint(a, 10, src);
    }
    Pow2Of24();
    OrDisjoint(b, 24, data);
  }

  /** The same blob as a plain sum of the shifted fields. */
  lemma CrcDataPacked(flag: nat, dest: nat, src: nat, data: nat)
    requires dest < 0x400 && src < 0x400 && data < 0x100_0000
    ensures CrcData(flag, dest, src, data)
         == flag * 0x1000_0000_0000 + dest * 0x4_0000_0000 + src * 0x100_0000 + data
  {
    CrcDataNested(flag, dest, src, data);
    ShlBy10(flag);
    ShlBy10(dest + Shl(flag, 10));
    ShlBy24(src + Shl(dest + Shl(flag, 10), 10));
  }

  /** The checksum of a frame with in-range fields is the XOR of the six bytes
      of the 48-bit blob; the fourth-highest byte mixes the top bits of the
      source address with the low bits of the destination address. */
  lemma CrcIsXorOfSixBytes(flag: nat, dest: nat, src: nat, data: nat)
    requires flag < 0x10 && dest < 0x400 && src < 0x400 && data < 0x100_0000
    ensures XorFold(CrcData(flag, dest, src, data))
         == Xor8(data % 0x100, Xor8(data / 0x100 % 0x100, Xor8(data / 0x1_0000,
            Xor8(src % 0x100, Xor8(src / 0x100 + dest % 0x40 * 4, dest / 0x40 + flag * 0x10)))))
  {
    var b0, b1, b2 := data % 0x100, data / 0x100 % 0x100, data / 0x1_0000;
    var b3, b4, b5 := src % 0x100, src / 0x100 + dest % 0x40 * 4, dest / 0x40 + flag * 0x10;
    var n4 := b4 + 0x100 * b5;
    var n3 := b3 + 0x100 * n4;
    var n2 := b2 + 0x100 * n3;
    var n1 := b1 + 0x100 * n2;
    var n0 := b0 + 0x100 * n1;
    assert n0 == CrcData(flag, dest, src, data) by {
      var q := data / 0x100;
      assert data == b0 + 0x100 * b1 + 0x1_0000 * b2 by {
        DivMod(data, 0x1_0000, q / 0x100, q % 0x100 * 0x100 + data % 0x100);
      }
      CrcDataPacked(flag, dest, src, data);
    }
    XorFoldSixBytes(b0, b1, b2, b3, b4, b5);
  }

  /** The XOR-fold of a six-byte value, byte by byte from the low end. */
  lemma XorFoldSixBytes(b0: Byte, b1: Byte, b2: Byte, b3: Byte, b4: Byte, b5: Byte)
    ensures XorFold(b0 + 0x100 * (b1 + 0x100 * (b2 + 0x100 * (b3 + 0x100 * (b4 + 0x100 * b5)))))
         == Xor8(b0, Xor8(b1, Xor8(b2, Xor8(b3, Xor8(b4, b5)))))
  {
    var n3 := b3 + 0x100 * (b4 + 0x100 * b5);
    assert XorFold(n3) == Xor8(b3, Xor8(b4, b5)) by {
      XorFoldThreeBytes(b3, b4, b5, 0);
      assert XorFold(0) == 0;
      XorZero(b5);
    }
    XorFoldThreeBytes(b0, b1, b2, n3);
  }

  /** Folding three bytes onto the bytes above them. */
  lemma XorFoldThreeBytes(b0: Byte, b1: Byte, b2: Byte, n: nat)
    ensures XorFold(b0 + 0x100 * (b1 + 0x100 * (b2 + 0x100 * n))) == Xor8(b0, Xor8(b1, Xor8(b2, XorFold(n))))
  {
    var n2 := b2 + 0x100 * n;
    var n1 := b1 + 0x100 * n2;
    XorFoldCons(b2, n);
    XorFoldCons(b1, n2);
    XorFoldCons(b0, n1);
  }

  /** Folding a byte onto the bytes above it. */
  lemma XorFoldCons(b: nat, n: nat)
    requires b < 0x100
    ensures XorFold(b + 0x100 * n) == Xor8(b, XorFold(n))
  {
    XorFoldStep(b + 0x100 * n);
    DivMod(b + 0x100 * n, 0x100, n, b);
  }

  /** Flipping bit j of n flips a bit of its low byte when j < 8 and a bit of
      the rest otherwise. */
  lemma FlipBitBytes(n: nat, j: nat)
    ensures j < 8 ==> FlipBit(n, j) % 0x100 == FlipBit(n % 0x100, j) && FlipBit(n, j) / 0x100 == n / 0x100
    ensures j >= 8 ==> FlipBit(n, j) % 0x100 == n % 0x100 && FlipBit(n, j) / 0x100 == FlipBit(n / 0x100, j - 8)
  {
    Pow2Small();
    var lo, hi := n % 0x100, n / 0x100;
    ShlBy8(hi);
    if j < 8 {
      ShlClearsLowBits(hi, 8);
      FlipBitLow(lo, Shl(hi, 8), 8, j);
      FlipBitBelow(lo, 8, j);
      DivMod(FlipBit(n, j), 0x100, hi, FlipBit(lo, j));
    } else {
      FlipBitHigh(lo, hi, 8, j - 8);
      ShlBy8(FlipBit(hi, j - 8));
      DivMod(FlipBit(n, j), 0x100, FlipBit(hi, j - 8), lo);
    }
  }

  /** The XOR-fold notices every single-bit change of the value it folds. */
  lemma {:induction false} XorFoldDetectsFlip(n: nat, j: nat)
    ensures XorFold(FlipBit(n, j)) != XorFold(n)
    decreases j
  {
    var m := FlipBit(n, j);
    XorFoldStep(n);
    XorFoldStep(m);
    FlipBitBytes(n, j);
    if j < 8 {
      FlipBitDistance(n % 0x100, j);
      XorCancel(FlipBit(n % 0x100, j), n % 0x100, XorFold(n / 0x100));
    } else {
      var hi, hi' := n / 0x100, FlipBit(n / 0x100, j - 8);
      XorFoldDetectsFlip(hi, j - 8);
      XorComm(n % 0x100, XorFold(hi));
      XorComm(n % 0x100, XorFold(hi'));
      XorCancel(XorFold(hi'), XorFold(hi), n % 0x100);
    }
  }

  /** Bit i of the payload is bit i of the blob. */
  lemma BlobFlipData(flag: nat, dest: nat, src: nat, data: nat, i: nat)
    requires i < 24
    ensures FlipBit(Blob(flag, dest, src, data), i) == Blob(flag, dest, src, FlipBit(data, i))
  {
    var c := src + Shl(dest + Shl(flag, 10), 10);
    ShlClearsLowBits(c, 24);
    FlipBitLow(data, Shl(c, 24), 24, i);
  }

  /** Bit i of the source address is bit 24 + i of the blob. */
  lemma BlobFlipSrc(flag: nat, dest: nat, src: nat, data: nat, i: nat)
    requires data < 0x100_0000 && i < 10
    ensures FlipBit(Blob(flag, dest, src, data), 24 + i) == Blob(flag, dest, FlipBit(src, i), data)
  {
    Pow2Of24();
    var high := dest + Shl(flag, 10);
    FlipFieldBit(Blob(flag, dest, src, data), data, 24, src, 10, high, i);
  }

  /** Bit i of the destination address is bit 34 + i of the blob. */
  lemma BlobFlipDest(flag: nat, dest: nat, src: nat, data: nat, i: nat)
    requires src < 0x400 && data < 0x100_0000 && i < 10
    ensures FlipBit(Blob(flag, dest, src, data), 24 + (10 + i)) == Blob(flag, FlipBit(dest, i), src, data)
  {
    var c := src + Shl(dest + Shl(flag, 10), 10);
    var c' := src + Shl(FlipBit(dest, i) + Shl(flag, 10), 10);
    assert FlipBit(c, 10 + i) == c' by {
      Pow2Small();
      FlipFieldBit(c, src, 10, dest, 10, flag, i);
    }
    BlobFlipAbovePayload(data, c, c', 10 + i);
  }

  /** Bit i of the flag is bit 44 + i of the blob. */
  lemma BlobFlipFlag(flag: nat, dest: nat, src: nat, data: nat, i: nat)
    requires dest < 0x400 && src < 0x400 && data < 0x100_0000
    ensures FlipBit(Blob(flag, dest, src, data), 24 + (10 + (10 + i))) == Blob(FlipBit(flag, i), dest, src, data)
  {
    var a, a' := dest + Shl(flag, 10), dest + Shl(FlipBit(flag, i), 10);
    var c, c' := src + Shl(a, 10), src + Shl(a', 10);
    assert FlipBit(a, 10 + i) == a' by {
      Pow2Small();
      FlipBitHigh(dest, flag, 10, i);
    }
    assert FlipBit(c, 10 + (10 + i)) == c' by {
      Pow2Small();
      FlipBitHigh(src, a, 10, 10 + i);
    }
    BlobFlipAbovePayload(data, c, c', 10 + (10 + i));
  }

  /** Flipping bit j of the part of the blob above the payload flips bit 24 + j of the blob. */
  lemma BlobFlipAbovePayload(data: nat, c: nat, c': nat, j: nat)
    requires data < 0x100_0000 && FlipBit(c, j) == c'
    ensures FlipBit(data + Shl(c, 24), 24 + j) == data + Shl(c', 24)
  {
    Pow2Of24();
    FlipBitHigh(data, c, 24, j);
  }

  /** Flipping any one bit of an in-range payload changes the checksum. */
  lemma DataFlipChangesCrc(flag: nat, dest: nat, src: nat, data: nat, i: nat)
    requires flag < 0x10 && dest < 0x400 && src < 0x400 && data < 0x100_0000 && i < 24
    ensures FlipBit(data, i) < 0x100_0000
    ensures XorFold(CrcData(flag, dest, src, FlipBit(data, i))) != XorFold(CrcData(flag, dest, src, data))
  {
    Pow2Of24();
    FlipBitBelow(data, 24, i);
    CrcDataNested(flag, dest, src, data);
    CrcDataNested(flag, dest, src, FlipBit(data, i));
    BlobFlipData(flag, dest, src, data, i);
    XorFoldDetectsFlip(Blob(flag, dest, src, data), i);
  }

  /** Flipping any one bit of an in-range source address changes the checksum. */
  lemma SrcFlipChangesCrc(flag: nat, dest: nat, src: nat, data: nat, i: nat)
    requires flag < 0x10 && dest < 0x400 && src < 0x400 && data < 0x100_0000 && i < 10
    ensures FlipBit(src, i) < 0x400
    ensures XorFold(CrcData(flag, dest, FlipBit(src, i), data)) != XorFold(CrcData(flag, dest, src, data))
  {
    Pow2Small();
    FlipBitBelow(src, 10, i);
    CrcDataNested(flag, dest, src, data);
    CrcDataNested(flag, dest, FlipBit(src, i), data);
    BlobFlipSrc(flag, dest, src, data, i);
    XorFoldDetectsFlip(Blob(flag, dest, src, data), 24 + i);
  }

  /** Flipping any one bit of an in-range destination address changes the checksum. */
  lemma DestFlipChangesCrc(flag: nat, dest: nat, src: nat, data: nat, i: nat)
    requires flag < 0x10 && dest < 0x400 && src < 0x400 && data < 0x100_0000 && i < 10
    ensures FlipBit(dest, i) < 0x400
    ensures XorFold(CrcData(flag, FlipBit(dest, i), src, data)) != XorFold(CrcData(flag, dest, src, data))
  {
    Pow2Small();
    FlipBitBelow(dest, 10, i);
    CrcDataNested(flag, dest, src, data);
    CrcDataNested(flag, FlipBit(dest, i), src, data);
    BlobFlipDest(flag, dest, src, data, i);
    XorFoldDetectsFlip(Blob(flag, dest, src, data), 24 + (10 + i));
  }

  /** Flipping any one bit of an in-range flag changes the checksum. */
  lemma FlagFlipChangesCrc(flag: nat, dest: nat, src: nat, data: nat, i: nat)
    requires flag < 0x10 && dest < 0x400 && src < 0x400 && data < 0x100_0000 && i < 4
    ensures FlipBit(flag, i) < 0x10
    ensures XorFold(CrcData(FlipBit(flag, i), dest, src, data)) != XorFold(CrcData(flag, dest, src, data))
  {
    Pow2Small();
    FlipBitBelow(flag, 4, i);
    CrcDataNested(flag, dest, src, data);
    CrcDataNested(FlipBit(flag, i), dest, src, data);
    BlobFlipFlag(flag, dest, src, data, i);
    XorFoldDetectsFlip(Blob(flag, dest, src, data), 24 + (10 + (10 + i)));
  }

  // ---------------------------------------------------------------------------
  // The wire format

  /** The first word of an in-range frame stacks its fields:
      `src + ((dest + ((flag + (sfd << 4)) << 10)) << 10)`. */
  lemma FirstWordNested(f: Frame)
    requires WellFormed(f)
    ensures FirstWord(f) == f.srcAddress + Shl(f.destAddress + Shl(f.flag + Shl(f.sfd, 4), 10), 10)
  {
    var a := f.flag + Shl(f.sfd, 4);
    var b := f.destAddress + Shl(a, 10);
    Pow2Small();
    assert Or(Shl(f.sfd, 24), Shl(f.flag, 20)) == Shl(a, 20) by {
      ShlShl(f.sfd, 4, 20);
      OrShl(Shl(f.sfd, 4), f.flag, 20);
      OrDisjoint(f.sfd, 4, f.flag);
    }
    assert Or(Shl(a, 20), Shl(f.destAddress, 10)) == Shl(b, 10) by {
      ShlShl(a, 10, 10);
      OrShl(Shl(a, 10), f.destAddress, 10);
      OrDisjoint(a, 10, f.destAddress);
    }
    OrDisjoint(b, 10, f.srcAddress);
  }

  /** With in-range fields, the two words are the plain sums of their shifted fields. */
  lemma WordsPacked(f: Frame)
    requires WellFormed(f)
    ensures FirstWord(f) == Sfd * 0x100_0000 + f.flag * 0x10_0000 + f.destAddress * 0x400 + f.srcAddress
    ensures SecondWord(f) == f.data * 0x100 + f.crc
  {
    FirstWordNested(f);
    var a := f.flag + Shl(f.sfd, 4);
    ShlBy4(f.sfd);
    ShlBy10(a);
    ShlBy10(f.destAddress + Shl(a, 10));
    ShlBy8(f.data);
    Pow2Small();
    OrDisjoint(f.data, 8, f.crc);
  }

  /** Both words of an in-range frame fit in 32 bits. */
  lemma WordsFit(f: Frame)
    requires WellFormed(f)
    ensures FirstWord(f) < Word && SecondWord(f) < Word
  {
    WordsPacked(f);
  }

  /** `to_bytes` is the two words, low byte first, whenever both fit. */
  lemma ToBytesWords(f: Frame)
    requires FirstWord(f) < Word && SecondWord(f) < Word
    ensures ToBytes(f) == Ok(LittleEndian32(FirstWord(f)) + LittleEndian32(SecondWord(f)))
  {
  }

  /** `to_bytes` of an in-range frame is eight bytes with the start-of-frame
      delimiter last in the first word and the checksum first in the second. */
  lemma ToBytesLayout(f: Frame)
    requires WellFormed(f)
    ensures ToBytes(f).Ok? && |ToBytes(f).value| == 8
    ensures ToBytes(f).value[3] == Sfd && ToBytes(f).value[4] == f.crc
  {
    WordsFit(f);
    ToBytesWords(f);
    WordsPacked(f);
    var rest := f.flag * 0x10_0000 + f.destAddress * 0x400 + f.srcAddress;
    DivMod(FirstWord(f), 0x100_0000, Sfd, rest);
    DivMod(SecondWord(f), 0x100, f.data, f.crc);
  }

  /** A payload of 2^24 or more does not fit the second word: `to_bytes` raises. */
  lemma ToBytesOverflow(f: Frame)
    requires f.data >= 0x100_0000
    ensures ToBytes(f) == Err(StructError)
  {
    ShlBy8(f.data);
    OrBounds(Shl(f.data, 8), f.crc);
    if FirstWord(f) < Word {
      assert PackI(FirstWord(f)).Ok?;
    }
  }

  /** The word a four-byte slice of the complemented bytes unpacks to. */
  lemma UnpackComplement(b: seq<Byte>)
    requires |b| == 4
    ensures UnpackI(Complement(b)) == InvertWord(UnpackI(b))
  {
  }

  /** Decoding complemented bytes reads the words of the original bytes. */
  lemma DecodeComplement(bs: seq<Byte>)
    requires |bs| == 8
    ensures CreateFrameFromBytes(Complement(bs)) == Ok(FrameOfWords(UnpackI(bs[..4]), UnpackI(bs[4..])))
  {
    var cs := Complement(bs);
    assert cs[..4] == Complement(bs[..4]);
    assert cs[4..] == Complement(bs[4..]);
    UnpackComplement(bs[..4]);
    UnpackComplement(bs[4..]);
  }

  /** The fields `create_frame_from_bytes` extracts from a first word. */
  lemma FirstWordFields(top: nat, flag: nat, dest: nat, src: nat)
    requires flag < 0x10 && dest < 0x400 && src < 0x400
    ensures var w := top * 0x100_0000 + flag * 0x10_0000 + dest * 0x400 + src;
            && w / 0x10_0000 % 0x10 == flag && w / 0x400 % 0x400 == dest && w % 0x400 == src
  {
    var w := top * 0x100_0000 + flag * 0x10_0000 + dest * 0x400 + src;
    DivMod(w, 0x10_0000, top * 0x10 + flag, dest * 0x400 + src);
    DivMod(top * 0x10 + flag, 0x10, top, flag);
    DivMod(w, 0x400, top * 0x4000 + flag * 0x400 + dest, src);
    DivMod(top * 0x4000 + flag * 0x400 + dest, 0x400, top * 0x10 + flag, dest);
  }

  /** The fields `create_frame_from_bytes` cuts out of the two words of an
      in-range frame are that frame's own. */
  lemma FrameOfFrameWords(f: Frame)
    requires WellFormed(f)
    ensures FrameOfWords(FirstWord(f), SecondWord(f)) == f
  {
    WordsPacked(f);
    FirstWordFields(Sfd, f.flag, f.destAddress, f.srcAddress);
    DivMod(SecondWord(f), 0x100, f.data, f.crc);
  }

  /** Every bit of the two words of an in-range frame inverted, then cut into
      fields: each field comes out inverted. */
  lemma FrameOfInvertedWords(f: Frame)
    requires WellFormed(f)
    ensures FirstWord(f) < Word && SecondWord(f) < Word
    ensures FrameOfWords(InvertWord(FirstWord(f)), InvertWord(SecondWord(f)))
         == Frame(Sfd, 0xF - f.flag, 0x3FF - f.destAddress, 0x3FF - f.srcAddress, 0xFF_FFFF - f.data, 0xFF - f.crc)
  {
    WordsPacked(f);
    var flag, dest, src := 0xF - f.flag, 0x3FF - f.destAddress, 0x3FF - f.srcAddress;
    assert InvertWord(FirstWord(f)) == (0xFF - Sfd) * 0x100_0000 + flag * 0x10_0000 + dest * 0x400 + src;
    FirstWordFields(0xFF - Sfd, flag, dest, src);
    DivMod(InvertWord(SecondWord(f)), 0x100, 0xFF_FFFF - f.data, 0xFF - f.crc);
  }

  /** The two halves of the eight bytes `to_bytes` writes. */
  lemma ToBytesHalves(f: Frame)
    requires WellFormed(f)
    ensures ToBytes(f).Ok? && |ToBytes(f).value| == 8
    ensures UnpackI(ToBytes(f).value[..4]) == FirstWord(f)
    ensures UnpackI(ToBytes(f).value[4..]) == SecondWord(f)
  {
    WordsFit(f);
  }

  /** Decoding the byte-wise complement of `to_bytes` gives the frame back,
      checksum included: the two directions are inverses only across a
      complement, which the BPSK link supplies. */
  lemma DecodeComplementOfEncode(f: Frame)
    requires WellFormed(f)
    ensures ToBytes(f).Ok?
    ensures CreateFrameFromBytes(Complement(ToBytes(f).value)) == Ok(f)
  {
    ToBytesHalves(f);
    DecodeComplement(ToBytes(f).value);
    FrameOfFrameWords(f);
  }

  /** Decoding `to_bytes` itself gives every field bit-inverted, so the two
      are not inverses on their own. */
  lemma DecodeOfEncodeInverts(f: Frame)
    requires WellFormed(f)
    ensures ToBytes(f).Ok?
    ensures CreateFrameFromBytes(ToBytes(f).value)
         == Ok(Frame(Sfd, 0xF - f.flag, 0x3FF - f.destAddress, 0x3FF - f.srcAddress, 0xFF_FFFF - f.data, 0xFF - f.crc))
  {
    ToBytesHalves(f);
    FrameOfInvertedWords(f);
  }
}
