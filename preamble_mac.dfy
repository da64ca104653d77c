/** The preamble frame format and its scheduler, MAC_layer.py: eight bytes,
    preamble 0xAA, sensor id, sensor type code, the reading as an unsigned
    32-bit value and a byte-sum checksum. There is no frame counter. */
module PreambleMacLayer {
  import opened Wrappers
  import opened Bits
  import opened Struct
  import opened Schedule

  const Preamble := 0xAA

  /** `Frame.SENSOR_TYPES` */
  const SensorTypes: map<string, int> := map["temperature" := 1, "people_count" := 2, "co2" := 3]

  datatype PreambleFrame = PreambleFrame(preamble: int, sensorId: int, sensorType: int, data: int, checksum: int)

  /** `Frame.calculate_checksum`: the sum of the packed preamble, sensor id,
      type code and 'I' reading, modulo 256; packing raises when the sensor id
      or the reading does not fit. */
  function CalculateChecksum(f: PreambleFrame): (r: Result<Byte>)
    requires 0 <= f.preamble < 0x100 && 0 <= f.sensorType < 0x100
    ensures r.Ok? <==> 0 <= f.sensorId < 0x100 && 0 <= f.data < Word
  {
    var preamble := PackB(f.preamble).value;
    var id :- PackB(f.sensorId);
    var code := PackB(f.sensorType).value;
    var d :- PackI(f.data);
    Ok(ByteSum(preamble + id + code + d) % 0x100)
  }

  /** `Frame(sensor_id, sensor_type, data)`: an unknown type raises at the
      table lookup, a sensor id or reading that `struct.pack` refuses raises
      while the checksum is computed, and otherwise every field is as given
      and the stored checksum is the computed one. */
  function NewPreambleFrame(sensorId: int, sensorType: string, data: int): (r: Result<PreambleFrame>)
    ensures sensorType !in SensorTypes ==> r == Err(UnknownSensorType(sensorType))
    ensures sensorType in SensorTypes ==> (r.Ok? <==> 0 <= sensorId < 0x100 && 0 <= data < Word)
    ensures sensorType in SensorTypes && r.Err? ==> r.error == StructError
    ensures r.Ok? ==> r.value.preamble == Preamble && r.value.sensorId == sensorId
                      && r.value.sensorType == SensorTypes[sensorType] && r.value.data == data
                      && CalculateChecksum(r.value) == Ok(r.value.checksum)
  {
    if sensorType !in SensorTypes then Err(UnknownSensorType(sensorType))
    else
      var f := PreambleFrame(Preamble, sensorId, SensorTypes[sensorType], data, 0);
      var checksum :- CalculateChecksum(f);
      Ok(f.(checksum := checksum))
  }

  /** `Frame.to_bytes`: raises exactly when a field does not fit its format,
      and otherwise writes eight bytes, one per field in order, the reading
      taking four. */
  function ToBytes(f: PreambleFrame): (r: Result<seq<Byte>>)
    ensures r.Ok? <==> 0 <= f.preamble < 0x100 && 0 <= f.sensorId < 0x100 && 0 <= f.sensorType < 0x100
                       && 0 <= f.data < Word && 0 <= f.checksum < 0x100
    ensures r.Ok? ==> |r.value| == 8 && r.value[0] == f.preamble && r.value[1] == f.sensorId
                      && r.value[2] == f.sensorType && UnpackI(r.value[3..7]) == f.data
                      && r.value[7] == f.checksum
  {
    var preamble :- PackB(f.preamble);
    var id :- PackB(f.sensorId);
    var code :- PackB(f.sensorType);
    var d :- PackI(f.data);
    var checksum :- PackB(f.checksum);
    assert (preamble + id + code + d + checksum)[3..7] == d;
    Ok(preamble + id + code + d + checksum)
  }

  /** A frame that could be built is written as eight bytes: 0xAA, the sensor
      id, the type code, the reading (read back by `struct.unpack('I')`) and
      the checksum, which is the byte sum of the seven bytes before it
      modulo 256. */
  lemma ToBytesOfNewPreambleFrame(sensorId: int, sensorType: string, data: int)
    requires NewPreambleFrame(sensorId, sensorType, data).Ok?
    ensures var bs := ToBytes(NewPreambleFrame(sensorId, sensorType, data).value);
            bs.Ok? && |bs.value| == 8
            && bs.value[0] == Preamble && bs.value[1] == sensorId
            && bs.value[2] == SensorTypes[sensorType]
            && UnpackI(bs.value[3..7]) == data
            && bs.value[7] == NewPreambleFrame(sensorId, sensorType, data).value.checksum
            && bs.value[7] == ByteSum(bs.value[..7]) % 0x100
  {
    var f := NewPreambleFrame(sensorId, sensorType, data).value;
    var head := PackB(f.preamble).value + PackB(f.sensorId).value + PackB(f.sensorType).value + PackI(f.data).value;
    var bs := ToBytes(f).value;
    assert bs == head + [f.checksum];
    assert bs[..7] == head && bs[3..7] == PackI(f.data).value;
  }

  /** The bytes one attempt transmits, or the exception that stops the pass. */
  function FrameBytes(made: Result<PreambleFrame>): Result<seq<Byte>>
  {
    var f :- made;
    ToBytes(f)
  }

  /** The frame a sensor sends: its id, its type and its reading. */
  function Attempt(sensor: Sensor, reading: int): Result<seq<Byte>>
  {
    FrameBytes(NewPreambleFrame(sensor.sensorId, sensor.sensorType, reading))
  }

  /** The attempts of one pass, one per sensor in registration order. */
  function Attempts(sensors: seq<Sensor>, readings: seq<int>): (rs: seq<Result<seq<Byte>>>)
    requires |readings| == |sensors|
    ensures |rs| == |sensors|
  {
    var n := |sensors|;
    if n == 0 then []
    else Attempts(sensors[..n - 1], readings[..n - 1]) + [Attempt(sensors[n - 1], readings[n - 1])]
  }

  /** Attempt i of a pass is sensor i's with reading i. */
  lemma {:induction false} AttemptsAt(sensors: seq<Sensor>, readings: seq<int>, i: nat)
    requires |readings| == |sensors| && i < |sensors|
    ensures Attempts(sensors, readings)[i] == Attempt(sensors[i], readings[i])
  {
    var n := |sensors|;
    if i < n - 1 {
      AttemptsAt(sensors[..n - 1], readings[..n - 1], i);
    }
  }

  /** A sensor's reading can be framed: its type is in the table, its id fits
      'B' and the reading fits 'I'. */
  predicate Frameable(sensor: Sensor, reading: int)
  {
    sensor.sensorType in SensorTypes && 0 <= sensor.sensorId < 0x100 && 0 <= reading < Word
  }

  /** A pass runs to the end exactly when every sensor's reading can be framed. */
  lemma PassCompletes(sensors: seq<Sensor>, readings: seq<int>)
    requires |readings| == |sensors|
    ensures Failure(Attempts(sensors, readings)) == None
        <==> forall i :: 0 <= i < |sensors| ==> Frameable(sensors[i], readings[i])
  {
    var rs := Attempts(sensors, readings);
    forall i | 0 <= i < |sensors|
      ensures rs[i].Ok? <==> Frameable(sensors[i], readings[i])
    {
      AttemptsAt(sensors, readings, i);
      if NewPreambleFrame(sensors[i].sensorId, sensors[i].sensorType, readings[i]).Ok? {
        ToBytesOfNewPreambleFrame(sensors[i].sensorId, sensors[i].sensorType, readings[i]);
      }
    }
    FailureNone(rs);
  }

  /** The unsigned 'I' format refuses every negative reading, and a
      temperature sensor can report one: such a slot raises and ends the pass. */
  lemma NegativeTemperatureStopsPass(sensors: seq<Sensor>, readings: seq<int>, i: nat)
    requires |readings| == |sensors| && i < |sensors|
    requires sensors[i].sensorType == "temperature" && 0 <= sensors[i].sensorId < 0x100
    requires readings[i] < 0 && Readable(sensors[i].sensorType, readings[i])
    ensures Attempts(sensors, readings)[i] == Err(StructError)
    ensures Failure(Attempts(sensors, readings)).Some?
    ensures |Sent(Attempts(sensors, readings))| <= i
  {
    var rs := Attempts(sensors, readings);
    AttemptsAt(sensors, readings, i);
    assert "temperature" in SensorTypes;
    FailureNone(rs);
    SentBeforeFailure(rs, i);
  }

  class TdmaMac {
    var slotDuration: real
    var sensors: seq<Sensor>
    var currentSlot: int
    /** What `transmit` and `time.sleep` did, in order. */
    var log: seq<Event<seq<Byte>>>

    /** `TDMAMAC(slot_duration)` */
    constructor(slotDuration: real)
      ensures this.slotDuration == slotDuration && sensors == [] && currentSlot == 0
      ensures log == []
    {
      this.slotDuration := slotDuration;
      sensors := [];
      currentSlot := 0;
      log := [];
    }

    /** `add_sensor`: appends; the sensors already registered keep their order. */
    method AddSensor(sensor: Sensor)
      modifies this`sensors
      ensures sensors == old(sensors) + [sensor]
    {
      sensors := sensors + [sensor];
    }

    /** `transmit`: records the frame's bytes. */
    method Transmit(frame: PreambleFrame)
      requires ToBytes(frame).Ok?
      modifies this`log
      ensures log == old(log) + [Event.Transmit(ToBytes(frame).value)]
    {
      log := log + [Event.Transmit(ToBytes(frame).value)];
    }

    /** `time.sleep`: records the wait, or raises for a negative length. */
    method Sleep(seconds: real) returns (failure: Option<Error>)
      modifies this`log
      ensures failure == if seconds < 0.0 then Some(NegativeSleepLength) else None
      ensures log == old(log) + if seconds < 0.0 then [] else [Event.Sleep(seconds)]
    {
      if seconds < 0.0 {
        return Some(NegativeSleepLength);
      }
      log := log + [Event.Sleep(seconds)];
      return None;
    }

    /** The body of `start`'s `for` loop for sensor i of a pass, up to the
        wait: build its frame, which may raise, and transmit it. The ghost
        parameters only name the attempt this call makes. */
    method Serve(sensor: Sensor, reading: int,
                 ghost attempts: seq<Result<seq<Byte>>>, ghost i: nat, ghost readings: seq<int>)
      returns (outcome: Result<seq<Byte>>)
      requires |readings| == |sensors| && attempts == Attempts(sensors, readings)
      requires i < |sensors| && sensor == sensors[i] && reading == readings[i]
      modifies this`log
      ensures outcome == attempts[i]
      ensures outcome.Err? ==> log == old(log)
      ensures outcome.Ok? ==> log == old(log) + [Event.Transmit(outcome.value)]
    {
      AttemptsAt(sensors, readings, i);
      var made := NewPreambleFrame(sensor.sensorId, sensor.sensorType, reading);
      if made.Err? {
        return Err(made.error);
      }
      ToBytesOfNewPreambleFrame(sensor.sensorId, sensor.sensorType, reading);
      Transmit(made.value);
      outcome := ToBytes(made.value);
    }

    /** One pass of `start`'s `for` loop, with the readings as input: sensors
        are served in registration order until one's frame cannot be built,
        whose exception ends the pass; each frame sent is followed by a wait
        of `slot_duration / len(sensors)`. A negative slot duration makes the
        first wait raise. */
    method RunPass(readings: seq<int>) returns (failure: Option<Error>)
      requires |readings| == |sensors|
      modifies this`log
      ensures log == old(log) + PassLog(Sent(Attempts(sensors, readings)), SlotWait(slotDuration, |sensors|))
      ensures failure == PassFailure(Attempts(sensors, readings), SlotWait(slotDuration, |sensors|))
    {
      ghost var log0 := log;
      ghost var attempts := Attempts(sensors, readings);
      ghost var wait := SlotWait(slotDuration, |sensors|);
      var i := 0;
      while i < |sensors|
        invariant 0 <= i <= |sensors|
        invariant Failure(attempts[..i]) == None && |Sent(attempts[..i])| == i
        invariant wait >= 0.0 ==> log == log0 + PassEvents(Sent(attempts[..i]), wait)
        invariant wait < 0.0 ==> i == 0 && log == log0
      {
        var outcome := Serve(sensors[i], readings[i], attempts, i, readings);
        if outcome.Err? {
          FailedSlotEndsPass(attempts, wait, i);
          return Some(outcome.error);
        }
        var slept := Sleep(slotDuration / |sensors| as real);
        if slept.Some? {
          NegativeWaitEndsPass(attempts, wait);
          return slept;
        }
        SlotExtendsPass(log0, attempts, i, wait);
        i := i + 1;
      }
      assert attempts[..i] == attempts;
      CompletedPass(attempts, wait);
      return None;
    }
  }
}
