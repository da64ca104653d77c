/** The path a frame takes in simulation_send_receive.py: `to_bytes`, BPSK
    modulation, a channel, BPSK demodulation and `create_frame_from_bytes`. */
module Link {
  import opened Wrappers
  import opened Bits
  import opened FrameCodec
  import opened SensorFrameCodec
  import opened Bpsk

  /** Sending bytes over a channel that keeps every sample's sign, and
      demodulating, delivers their byte-wise complement. */
  lemma ReceivedBytes(bs: seq<Byte>, received: seq<real>)
    requires |received| == |Modulate(bs)|
    requires forall i :: 0 <= i < |received| ==> (received[i] > 0.0 <==> Modulate(bs)[i] > 0.0)
    ensures Demodulate(received) == Complement(bs)
  {
    DemodulateSignOnly(Modulate(bs), received);
    DemodulateModulate(bs);
  }

  /** A well-formed frame sent through modulation, a sign-preserving channel
      and demodulation is decoded back to itself: the inversion in
      `create_frame_from_bytes` undoes the polarity of the BPSK mapping. */
  lemma FrameSurvivesLink(f: Frame, received: seq<real>)
    requires WellFormed(f)
    requires ToBytes(f).Ok? && |received| == |Modulate(ToBytes(f).value)|
    requires forall i :: 0 <= i < |received| ==> (received[i] > 0.0 <==> Modulate(ToBytes(f).value)[i] > 0.0)
    ensures CreateFrameFromBytes(Demodulate(received)) == Ok(f)
  {
    ReceivedBytes(ToBytes(f).value, received);
    DecodeComplementOfEncode(f);
  }

  /** Without noise, every well-formed frame is encoded and comes back unchanged. */
  lemma FrameSurvivesNoiselessLink(f: Frame)
    requires WellFormed(f)
    ensures ToBytes(f).Ok?
    ensures CreateFrameFromBytes(Demodulate(Modulate(ToBytes(f).value))) == Ok(f)
  {
    DecodeComplementOfEncode(f);
    DemodulateModulate(ToBytes(f).value);
  }

  /** The sensor frame of simulation_send_receive.py: in-range header fields and
      byte-sized readings arrive as the same TSFrame. */
  lemma TSFrameSurvivesNoiselessLink(flag: nat, dest: nat, src: nat, nb: int, t: int, a: int)
    requires flag < 0x10 && dest < 0x400 && src < 0x400 && 0 <= nb < 0x100 && 0 <= a < 0x100
    ensures ToBytes(NewTSFrame(flag, dest, src, nb, t, a).frame).Ok?
    ensures CreateTSFrameFromBytes(Demodulate(Modulate(ToBytes(NewTSFrame(flag, dest, src, nb, t, a).frame).value)))
         == Ok(NewTSFrame(flag, dest, src, nb, t, a))
  {
    var r := NewTSFrame(flag, dest, src, nb, t, a);
    TSFrameComplementRoundTrip(flag, dest, src, nb, t, a);
    DemodulateModulate(ToBytes(r.frame).value);
  }
}
