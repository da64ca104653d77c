/** `TSFrame` of MAC/Frame.py: a frame whose 24-bit payload carries three sensor
    bytes, a person count, a signed temperature and an air-quality value. */
module SensorFrameCodec {
  import opened Wrappers
  import opened Bits
  import opened FrameCodec

  /** A frame together with the three readings the constructor was given. */
  datatype TSFrame = TSFrame(frame: Frame, nbPerson: int, temperature: int, airQuality: int)

  /** `ctypes.c_int8(x).value`: the low byte of x read as a signed byte. */
  function Int8(x: int): (r: int)
    ensures -128 <= r < 128
    ensures r % 256 == x % 256
  {
    var b := x % 256;
    if b >= 128 then b - 256 else b
  }

  /** The three sensor bytes `nb << 16 | t << 8 | a`, each below 256, are stacked. */
  lemma SensorDataPacked(nb: nat, t: nat, a: nat)
    requires nb < 0x100 && t < 0x100 && a < 0x100
    ensures Or(Or(Shl(nb, 16), Shl(t, 8)), a) == nb * 0x1_0000 + t * 0x100 + a
  {
    Pow2Small();
    var top := Shl(nb, 8) + t;
    assert Or(Shl(nb, 16), Shl(t, 8)) == Shl(top, 8) by {
      ShlShl(nb, 8, 8);
      OrShl(Shl(nb, 8), t, 8);
      OrDisjoint(nb, 8, t);
    }
    OrDisjoint(top, 8, a);
    ShlBy8(nb);
    ShlBy8(top);
  }

  /** `TSFrame(flag, dest, src, nb_person, temperature, air_quality)`: the payload
      keeps the low byte of each reading, the person count and air quality are
      stored as given, the temperature as a signed byte, and the checksum is
      computed over the packed payload. */
  function NewTSFrame(flag: nat, dest: nat, src: nat, nb: int, t: int, a: int): (r: TSFrame)
    ensures r.frame.data == (nb % 0x100) * 0x1_0000 + (t % 0x100) * 0x100 + a % 0x100
    ensures r.frame.data < 0x100_0000
    ensures r.frame == NewFrame(flag, dest, src, r.frame.data)
    ensures r.nbPerson == nb && r.airQuality == a
    ensures -128 <= r.temperature < 128 && r.temperature % 256 == t % 256
  {
    SensorDataPacked(nb % 0x100, t % 0x100, a % 0x100);
    var data := Or(Or(Shl(nb % 0x100, 16), Shl(t % 0x100, 8)), a % 0x100);
    TSFrame(NewFrame(flag, dest, src, data), nb, Int8(t), a)
  }

  /** A value is the sum of its low three bytes and what lies above them. */
  lemma LowThreeBytes(d: nat)
    ensures d % 0x100_0000 == d / 0x1_0000 % 0x100 * 0x1_0000 + d / 0x100 % 0x100 * 0x100 + d % 0x100
  {
    var q1, q2 := d / 0x100, d / 0x1_0000;
    DivMod(d, 0x1_0000, q1 / 0x100, q1 % 0x100 * 0x100 + d % 0x100);
    DivMod(d, 0x100_0000, q2 / 0x100, q2 % 0x100 * 0x1_0000 + q1 % 0x100 * 0x100 + d % 0x100);
  }

  /** `TSFrame.cast_frame_to_tsframe`: reads the three bytes back out of the
      payload and rebuilds the frame through the TSFrame constructor, which
      keeps the header fields, drops any payload bits above bit 23 and
      recomputes the checksum. */
  function CastFrameToTSFrame(f: Frame): (r: TSFrame)
    ensures 0 <= r.nbPerson < 0x100 && 0 <= r.airQuality < 0x100 && -128 <= r.temperature < 128
    ensures r.frame.flag == f.flag && r.frame.destAddress == f.destAddress && r.frame.srcAddress == f.srcAddress
    ensures r.frame.data == f.data % 0x100_0000
    ensures r.frame == NewFrame(f.flag, f.destAddress, f.srcAddress, f.data % 0x100_0000)
    ensures r.nbPerson == f.data / 0x1_0000 % 0x100 && r.airQuality == f.data % 0x100
    ensures r.temperature == Int8(f.data / 0x100 % 0x100)
  {
    var nb := f.data / 0x1_0000 % 0x100;
    var t := Int8(f.data / 0x100 % 0x100);
    var a := f.data % 0x100;
    assert nb % 0x100 * 0x1_0000 + t % 0x100 * 0x100 + a % 0x100 == f.data % 0x100_0000 by {
      assert nb % 0x100 == nb && a % 0x100 == a && t % 0x100 == f.data / 0x100 % 0x100;
      LowThreeBytes(f.data);
    }
    NewTSFrame(f.flag, f.destAddress, f.srcAddress, nb, t, a)
  }

  /** `TSFrame.create_frame_from_bytes`: decodes a plain frame and casts it;
      the checksum read from the wire does not survive the cast. */
  function CreateTSFrameFromBytes(bs: seq<Byte>): (r: Result<TSFrame>)
    ensures r.Err? <==> |bs| != 8
    ensures r.Err? ==> r.error == InvalidFrameLength
    ensures r.Ok? ==> WellFormed(r.value.frame)
    ensures r.Ok? ==> r.value.frame.crc
                      == XorFold(CrcData(r.value.frame.flag, r.value.frame.destAddress,
                                         r.value.frame.srcAddress, r.value.frame.data))
  {
    var f :- CreateFrameFromBytes(bs);
    Ok(CastFrameToTSFrame(f))
  }

  /** Casting the frame of a TSFrame built from byte-sized readings gives that
      TSFrame back; the temperature may be any integer, since only its signed
      low byte is kept either way. */
  lemma CastOfNewTSFrame(flag: nat, dest: nat, src: nat, nb: int, t: int, a: int)
    requires 0 <= nb < 0x100 && 0 <= a < 0x100
    ensures CastFrameToTSFrame(NewTSFrame(flag, dest, src, nb, t, a).frame) == NewTSFrame(flag, dest, src, nb, t, a)
  {
    var r := NewTSFrame(flag, dest, src, nb, t, a);
    var c := CastFrameToTSFrame(r.frame);
    var d := r.frame.data;
    var tb := t % 0x100;
    DivMod(nb, 0x100, 0, nb);
    DivMod(a, 0x100, 0, a);
    assert d == nb * 0x1_0000 + tb * 0x100 + a;
    assert c.frame == r.frame by {
      DivMod(d, 0x100_0000, 0, d);
    }
    assert c.nbPerson == nb && c.airQuality == a by {
      DivMod(d, 0x1_0000, nb, tb * 0x100 + a);
      DivMod(d, 0x100, nb * 0x100 + tb, a);
    }
    assert c.temperature == r.temperature by {
      DivMod(d, 0x100, nb * 0x100 + tb, a);
      DivMod(nb * 0x100 + tb, 0x100, nb, tb);
      var t' := Int8(d / 0x100 % 0x100);
      assert t' % 256 == t % 256;
      assert Int8(t') == Int8(t);
    }
  }

  /** A TSFrame with in-range header fields and byte-sized readings survives
      `to_bytes`, a byte-wise complement and `TSFrame.create_frame_from_bytes`. */
  lemma TSFrameComplementRoundTrip(flag: nat, dest: nat, src: nat, nb: int, t: int, a: int)
    requires flag < 0x10 && dest < 0x400 && src < 0x400 && 0 <= nb < 0x100 && 0 <= a < 0x100
    ensures ToBytes(NewTSFrame(flag, dest, src, nb, t, a).frame).Ok?
    ensures CreateTSFrameFromBytes(Complement(ToBytes(NewTSFrame(flag, dest, src, nb, t, a).frame).value))
         == Ok(NewTSFrame(flag, dest, src, nb, t, a))
  {
    var r := NewTSFrame(flag, dest, src, nb, t, a);
    DecodeComplementOfEncode(r.frame);
    CastOfNewTSFrame(flag, dest, src, nb, t, a);
  }
}
