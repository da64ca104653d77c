/** The metro frame format and its scheduler, MAC/MAC_layer.py: seven bytes,
    start byte 0xA5, frame id, car/randomisation byte, the reading as a signed
    16-bit value, a byte-sum checksum and end byte 0x5A. */
module MetroMacLayer {
  import opened Wrappers
  import opened Bits
  import opened Struct
  import opened Schedule

  /** `random.randint(0, 15)`: the random nibble a frame carries. */
  type Nibble = x: int | 0 <= x < 0x10

  const Sfd := 0xA5
  const Efd := 0x5A

  /** `Frame.SENSOR_TYPE_MAP` */
  const SensorTypeMap: map<string, int> := map["temperature" := 1, "people_count" := 2, "co2" := 3]

  datatype MetroFrame = MetroFrame(
    sfd: int, frameId: int, metroId: int, carId: int, sensorId: int,
    data: int, address: int, randomization: Nibble, crc: int, efd: int)

  /** `(car_id << 4) | sensor_id`: the sensor codes are below 16, so they fill
      the four bits the shift leaves clear and `|` adds them; the car id and
      the code can both be read back. */
  function Address(carId: int, code: int): (r: int)
    ensures 0 <= code < 0x10 ==> r / 0x10 == carId && r % 0x10 == code
  {
    var r := carId * 0x10 + code;
    if 0 <= code < 0x10 then DivMod(r, 0x10, carId, code); r else r
  }

  /** `(address & 0xF0) | (randomization & 0x0F)`: bits 4 to 7 of the address
      (two's complement, as Python's `&` reads a negative one) over the low
      four bits of the randomisation. */
  function AddressByte(f: MetroFrame): (b: Byte)
    ensures b / 0x10 == f.address / 0x10 % 0x10 && b % 0x10 == f.randomization
  {
    var hi := f.address % 0x100 / 0x10;
    DivMod(f.address % 0x100, 0x10, hi, f.address % 0x10);
    DivMod(f.address / 0x10, 0x10, f.address / 0x100, hi);
    DivMod(hi * 0x10 + f.randomization % 0x10, 0x10, hi, f.randomization);
    f.address % 0x100 / 0x10 * 0x10 + f.randomization % 0x10
  }

  /** `Frame.calculate_crc`: the sum of the packed sfd, frame id, address byte
      and 'h' reading, modulo 256; packing raises when a value does not fit. */
  function CalculateCrc(f: MetroFrame): (r: Result<Byte>)
    ensures r.Ok? <==> 0 <= f.sfd < 0x100 && 0 <= f.frameId < 0x100 && -0x8000 <= f.data < 0x8000
  {
    var sfd :- PackB(f.sfd);
    var id :- PackB(f.frameId);
    var ab := PackB(AddressByte(f)).value;
    var d :- PackH(f.data);
    Ok(ByteSum(sfd + id + ab + d) % 0x100)
  }

  /** `Frame(frame_id, metro_id, car_id, sensor_type, data)` with the random
      nibble as an input: an unknown type raises at the table lookup, a frame
      id or reading that `struct.pack` refuses raises while the checksum is
      computed, and otherwise every field is as given, the address combines
      car id and type code, and the stored crc is the computed one. */
  function NewMetroFrame(frameId: int, metroId: int, carId: int, sensorType: string, data: int, randomization: Nibble)
    : (r: Result<MetroFrame>)
    ensures sensorType !in SensorTypeMap ==> r == Err(UnknownSensorType(sensorType))
    ensures sensorType in SensorTypeMap ==> (r.Ok? <==> 0 <= frameId < 0x100 && -0x8000 <= data < 0x8000)
    ensures sensorType in SensorTypeMap && r.Err? ==> r.error == StructError
    ensures r.Ok? ==> r.value.sfd == Sfd && r.value.efd == Efd && r.value.frameId == frameId
                      && r.value.metroId == metroId && r.value.carId == carId
                      && r.value.sensorId == SensorTypeMap[sensorType] && r.value.data == data
                      && r.value.address == Address(carId, SensorTypeMap[sensorType])
                      && r.value.randomization == randomization
                      && CalculateCrc(r.value) == Ok(r.value.crc)
  {
    if sensorType !in SensorTypeMap then Err(UnknownSensorType(sensorType))
    else
      var code := SensorTypeMap[sensorType];
      var f := MetroFrame(Sfd, frameId, metroId, carId, code, data, Address(carId, code), randomization, 0, Efd);
      var crc :- CalculateCrc(f);
      Ok(f.(crc := crc))
  }

  /** `Frame.to_bytes`: raises exactly when a field does not fit its format,
      and otherwise writes seven bytes, one per field in order, the reading
      taking two. */
  function ToBytes(f: MetroFrame): (r: Result<seq<Byte>>)
    ensures r.Ok? <==> 0 <= f.sfd < 0x100 && 0 <= f.frameId < 0x100 && -0x8000 <= f.data < 0x8000
                       && 0 <= f.crc < 0x100 && 0 <= f.efd < 0x100
    ensures r.Ok? ==> |r.value| == 7 && r.value[0] == f.sfd && r.value[1] == f.frameId
                      && r.value[2] == AddressByte(f) && UnpackH(r.value[3..5]) == f.data
                      && r.value[5] == f.crc && r.value[6] == f.efd
  {
    var sfd :- PackB(f.sfd);
    var id :- PackB(f.frameId);
    var ab := PackB(AddressByte(f)).value;
    var d :- PackH(f.data);
    var crc :- PackB(f.crc);
    var efd :- PackB(f.efd);
    assert (sfd + id + ab + d + crc + efd)[3..5] == d;
    Ok(sfd + id + ab + d + crc + efd)
  }

  /** The address byte keeps the car id's low four bits and the randomisation;
      the type code is dropped. */
  lemma AddressByteNibbles(carId: int, code: int, f: MetroFrame)
    requires 0 <= code < 0x10 && f.address == Address(carId, code)
    ensures AddressByte(f) / 0x10 == carId % 0x10 && AddressByte(f) % 0x10 == f.randomization
  {
    var q := carId / 0x10;
    DivMod(f.address, 0x100, q, carId % 0x10 * 0x10 + code);
    DivMod(f.address % 0x100, 0x10, carId % 0x10, code);
    DivMod(AddressByte(f), 0x10, carId % 0x10, f.randomization);
  }

  /** For a car id that is a natural, the sum is the shift-and-or the source writes. */
  lemma AddressIsShlOr(carId: nat, code: nat)
    requires code < 0x10
    ensures Or(Shl(carId, 4), code) == Address(carId, code)
  {
    Pow2Small();
    OrDisjoint(carId, 4, code);
    ShlBy4(carId);
  }

  /** A frame that could be built is written as seven bytes: 0xA5, the frame
      id, car nibble over randomisation, the reading (read back by
      `struct.unpack('h')`), the crc, which is the byte sum of the five bytes
      before it modulo 256, and 0x5A. */
  lemma ToBytesOfNewMetroFrame(frameId: int, metroId: int, carId: int, sensorType: string, data: int, randomization: Nibble)
    requires NewMetroFrame(frameId, metroId, carId, sensorType, data, randomization).Ok?
    ensures var bs := ToBytes(NewMetroFrame(frameId, metroId, carId, sensorType, data, randomization).value);
            bs.Ok? && |bs.value| == 7
            && bs.value[0] == Sfd && bs.value[1] == frameId
            && bs.value[2] == carId % 0x10 * 0x10 + randomization
            && UnpackH(bs.value[3..5]) == data
            && bs.value[5] == NewMetroFrame(frameId, metroId, carId, sensorType, data, randomization).value.crc
            && bs.value[5] == ByteSum(bs.value[..5]) % 0x100
            && bs.value[6] == Efd
  {
    var f := NewMetroFrame(frameId, metroId, carId, sensorType, data, randomization).value;
    AddressByteNibbles(carId, f.sensorId, f);
    DivMod(AddressByte(f), 0x10, carId % 0x10, randomization);
    var head := PackB(f.sfd).value + PackB(f.frameId).value + PackB(AddressByte(f)).value + PackH(f.data).value;
    var bs := ToBytes(f).value;
    assert bs == head + [f.crc] + [f.efd];
    assert bs[..5] == head && bs[3..5] == PackH(f.data).value;
  }

  /** The bytes one attempt transmits, or the exception that stops the pass. */
  function FrameBytes(made: Result<MetroFrame>): Result<seq<Byte>>
  {
    var f :- made;
    ToBytes(f)
  }

  /** The frame each sensor of a pass would send: metro id 1, the sensor's id
      as car id, its reading and random nibble, and the counter after the
      transmissions before it. */
  function Attempt(sensor: Sensor, reading: int, randomization: Nibble, frameId: int): Result<seq<Byte>>
  {
    FrameBytes(NewMetroFrame(frameId, 1, sensor.sensorId, sensor.sensorType, reading, randomization))
  }

  /** The attempts of one pass that starts with counter `frameId`, one per
      sensor in registration order. */
  function Attempts(sensors: seq<Sensor>, readings: seq<int>, randomizations: seq<Nibble>, frameId: int)
    : (rs: seq<Result<seq<Byte>>>)
    requires |readings| == |sensors| && |randomizations| == |sensors|
    ensures |rs| == |sensors|
  {
    var n := |sensors|;
    if n == 0 then []
    else Attempts(sensors[..n - 1], readings[..n - 1], randomizations[..n - 1], frameId)
         + [Attempt(sensors[n - 1], readings[n - 1], randomizations[n - 1], FrameIdAfter(frameId, n - 1))]
  }

  /** Attempt i of a pass is sensor i's, made with the counter after i transmissions. */
  lemma {:induction false} AttemptsAt(sensors: seq<Sensor>, readings: seq<int>, randomizations: seq<Nibble>, frameId: int, i: nat)
    requires |readings| == |sensors| && |randomizations| == |sensors|
    requires i < |sensors|
    ensures Attempts(sensors, readings, randomizations, frameId)[i]
         == Attempt(sensors[i], readings[i], randomizations[i], FrameIdAfter(frameId, i))
  {
    var n := |sensors|;
    if i < n - 1 {
      AttemptsAt(sensors[..n - 1], readings[..n - 1], randomizations[..n - 1], frameId, i);
    }
  }

  /** A pass runs to the end exactly when every sensor has a known type and a
      reading that fits 'h'; the frame counter never stops one, since it
      stays in [1, 100]. */
  lemma PassCompletes(sensors: seq<Sensor>, readings: seq<int>, randomizations: seq<Nibble>, frameId: int)
    requires |readings| == |sensors| && |randomizations| == |sensors| && 1 <= frameId <= 100
    ensures Failure(Attempts(sensors, readings, randomizations, frameId)) == None
        <==> forall i :: 0 <= i < |sensors| ==> sensors[i].sensorType in SensorTypeMap && -0x8000 <= readings[i] < 0x8000
  {
    var rs := Attempts(sensors, readings, randomizations, frameId);
    forall i | 0 <= i < |sensors|
      ensures rs[i].Ok? <==> sensors[i].sensorType in SensorTypeMap && -0x8000 <= readings[i] < 0x8000
    {
      FrameIdAfterClosedForm(frameId, i);
      AttemptsAt(sensors, readings, randomizations, frameId, i);
      var made := NewMetroFrame(FrameIdAfter(frameId, i), 1, sensors[i].sensorId, sensors[i].sensorType,
                                readings[i], randomizations[i]);
      if made.Ok? {
        ToBytesOfNewMetroFrame(FrameIdAfter(frameId, i), 1, sensors[i].sensorId, sensors[i].sensorType,
                               readings[i], randomizations[i]);
      }
    }
    FailureNone(rs);
  }

  /** Readings that the sensors can produce never stop a pass: every type
      they report for is in the table and every reading fits 'h'. */
  lemma ReadableReadingsComplete(sensors: seq<Sensor>, readings: seq<int>, randomizations: seq<Nibble>, frameId: int)
    requires |readings| == |sensors| && |randomizations| == |sensors| && 1 <= frameId <= 100
    requires forall i :: 0 <= i < |sensors| ==> Readable(sensors[i].sensorType, readings[i])
    ensures Failure(Attempts(sensors, readings, randomizations, frameId)) == None
    ensures |Sent(Attempts(sensors, readings, randomizations, frameId))| == |sensors|
  {
    PassCompletes(sensors, readings, randomizations, frameId);
    SentLength(Attempts(sensors, readings, randomizations, frameId));
  }

  class TdmaMac {
    var slotDuration: real
    var sensors: seq<Sensor>
    var currentSlot: int
    var frameId: int
    /** What `transmit` and `time.sleep` did, in order. */
    var log: seq<Event<seq<Byte>>>

    ghost predicate Valid()
      reads this
    {
      1 <= frameId <= 100
    }

    /** `TDMAMAC(slot_duration)` */
    constructor(slotDuration: real)
      ensures Valid()
      ensures this.slotDuration == slotDuration && sensors == [] && currentSlot == 0 && frameId == 1
      ensures log == []
    {
      this.slotDuration := slotDuration;
      sensors := [];
      currentSlot := 0;
      frameId := 1;
      log := [];
    }

    /** `add_sensor`: appends; the sensors already registered keep their order. */
    method AddSensor(sensor: Sensor)
      modifies this`sensors
      ensures sensors == old(sensors) + [sensor]
    {
      sensors := sensors + [sensor];
    }

    /** `transmit`: records the frame's bytes. */
    method Transmit(frame: MetroFrame)
      requires ToBytes(frame).Ok?
      modifies this`log
      ensures log == old(log) + [Event.Transmit(ToBytes(frame).value)]
    {
      log := log + [Event.Transmit(ToBytes(frame).value)];
    }

    /** `time.sleep`: records the wait, or raises for a negative length. */
    method Sleep(seconds: real) returns (failure: Option<Error>)
      modifies this`log
      ensures failure == if seconds < 0.0 then Some(NegativeSleepLength) else None
      ensures log == old(log) + if seconds < 0.0 then [] else [Event.Sleep(seconds)]
    {
      if seconds < 0.0 {
        return Some(NegativeSleepLength);
      }
      log := log + [Event.Sleep(seconds)];
      return None;
    }

    /** The body of `start`'s `for` loop for sensor i of a pass that started
        with counter `id0`, up to the wait: build its frame, which may raise,
        transmit it and advance the counter. The ghost parameters only name
        the attempt this call makes. */
    method Serve(sensor: Sensor, reading: int, randomization: Nibble,
                 ghost attempts: seq<Result<seq<Byte>>>, ghost i: nat,
                 ghost readings: seq<int>, ghost randomizations: seq<Nibble>, ghost id0: int)
      returns (outcome: Result<seq<Byte>>)
      requires Valid() && |readings| == |sensors| && |randomizations| == |sensors|
      requires attempts == Attempts(sensors, readings, randomizations, id0)
      requires i < |sensors| && sensor == sensors[i] && reading == readings[i] && randomization == randomizations[i]
      requires frameId == FrameIdAfter(id0, i)
      modifies this`log, this`frameId
      ensures Valid()
      ensures outcome == attempts[i]
      ensures outcome.Err? ==> log == old(log) && frameId == old(frameId)
      ensures outcome.Ok? ==> log == old(log) + [Event.Transmit(outcome.value)]
      ensures outcome.Ok? ==> frameId == FrameIdAfter(id0, i + 1)
    {
      AttemptsAt(sensors, readings, randomizations, id0, i);
      var made := NewMetroFrame(frameId, 1, sensor.sensorId, sensor.sensorType, reading, randomization);
      if made.Err? {
        return Err(made.error);
      }
      ToBytesOfNewMetroFrame(frameId, 1, sensor.sensorId, sensor.sensorType, reading, randomization);
      Transmit(made.value);
      frameId := frameId % 100 + 1;
      outcome := ToBytes(made.value);
    }

    /** One pass of `start`'s `for` loop, with the readings and random nibbles
        as input: sensors are served in registration order until one's frame
        cannot be built, whose exception ends the pass; each frame sent is
        followed by a wait of `slot_duration / len(sensors)` and advances the
        frame counter. A negative slot duration makes the first wait raise. */
    method RunPass(readings: seq<int>, randomizations: seq<Nibble>) returns (failure: Option<Error>)
      requires Valid() && |readings| == |sensors| && |randomizations| == |sensors|
      modifies this`log, this`frameId
      ensures Valid()
      ensures log == old(log) + PassLog(Sent(Attempts(sensors, readings, randomizations, old(frameId))),
                                        SlotWait(slotDuration, |sensors|))
      ensures failure == PassFailure(Attempts(sensors, readings, randomizations, old(frameId)), SlotWait(slotDuration, |sensors|))
      ensures frameId == FrameIdAfter(old(frameId), |Delivered(Sent(Attempts(sensors, readings, randomizations, old(frameId))),
                                                                 SlotWait(slotDuration, |sensors|))|)
    {
      ghost var id0, log0 := frameId, log;
      ghost var attempts := Attempts(sensors, readings, randomizations, frameId);
      ghost var wait := SlotWait(slotDuration, |sensors|);
      var i := 0;
      while i < |sensors|
        invariant 0 <= i <= |sensors| && 1 <= frameId <= 100
        invariant frameId == FrameIdAfter(id0, i)
        invariant Failure(attempts[..i]) == None && |Sent(attempts[..i])| == i
        invariant wait >= 0.0 ==> log == log0 + PassEvents(Sent(attempts[..i]), wait)
        invariant wait < 0.0 ==> i == 0 && log == log0
      {
        var outcome := Serve(sensors[i], readings[i], randomizations[i], attempts, i, readings, randomizations, id0);
        if outcome.Err? {
          FailedSlotEndsPass(attempts, wait, i);
          return Some(outcome.error);
        }
        var slept := Sleep(slotDuration / |sensors| as real);
        if slept.Some? {
          NegativeWaitEndsPass(attempts, wait);
          return slept;
        }
        SlotExtendsPass(log0, attempts, i, wait);
        i := i + 1;
      }
      assert attempts[..i] == attempts;
      CompletedPass(attempts, wait);
      return None;
    }
  }
}
