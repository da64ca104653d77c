/** The round-robin scheduler of MAC/TDMA.py. Its frame constructor is called
    with five arguments (frame id, metro id 1, sensor id, sensor type, reading)
    that the four-parameter `Frame` of MAC/Frame.py does not take: as written,
    every pass raises `TypeError` at its first sensor and transmits nothing.
    The model assumes the call succeeds: the frame is modelled by the
    arguments it is built from, and `transmit` logs them. */
module TdmaScheduler {
  import opened Wrappers
  import opened Schedule

  /** The arguments of the frame built for one slot. */
  datatype FrameRequest = FrameRequest(frameId: int, metroId: int, sensorId: int, sensorType: string, data: int)

  /** The frames one pass requests: slot i uses sensor i, reading i and the
      counter value after i earlier transmissions. */
  function Requests(sensors: seq<Sensor>, readings: seq<int>, frameId: int): (rs: seq<FrameRequest>)
    requires |readings| == |sensors|
    ensures |rs| == |sensors|
  {
    seq(|sensors|, i requires 0 <= i < |sensors| =>
      FrameRequest(FrameIdAfter(frameId, i), 1, sensors[i].sensorId, sensors[i].sensorType, readings[i]))
  }

  /** Slot i of a pass polls the i-th registered sensor with the i-th reading,
      and every frame id it uses lies in [1, 100]. */
  lemma RequestsInOrder(sensors: seq<Sensor>, readings: seq<int>, frameId: int, i: nat)
    requires |readings| == |sensors| && 1 <= frameId <= 100 && i < |sensors|
    ensures Requests(sensors, readings, frameId)[i].sensorId == sensors[i].sensorId
    ensures Requests(sensors, readings, frameId)[i].sensorType == sensors[i].sensorType
    ensures Requests(sensors, readings, frameId)[i].data == readings[i]
    ensures Requests(sensors, readings, frameId)[i].frameId == (frameId - 1 + i) % 100 + 1
    ensures 1 <= Requests(sensors, readings, frameId)[i].frameId <= 100
  {
    FrameIdAfterClosedForm(frameId, i);
  }

  class Tdma {
    var slotDuration: real
    var sensors: seq<Sensor>
    var currentSlot: int
    var frameId: int
    /** What `transmit` and `time.sleep` did, in order. */
    var log: seq<Event<FrameRequest>>

    ghost predicate Valid()
      reads this
    {
      1 <= frameId <= 100
    }

    /** `TDMA(slot_duration)` */
    constructor(slotDuration: real)
      ensures Valid()
      ensures this.slotDuration == slotDuration && sensors == [] && currentSlot == 0 && frameId == 1
      ensures log == []
    {
      this.slotDuration := slotDuration;
      sensors := [];
      currentSlot := 0;
      frameId := 1;
      log := [];
    }

    /** `add_sensor`: appends; the sensors already registered keep their order. */
    method AddSensor(sensor: Sensor)
      modifies this`sensors
      ensures sensors == old(sensors) + [sensor]
    {
      sensors := sensors + [sensor];
    }

    method Transmit(frame: FrameRequest)
      modifies this`log
      ensures log == old(log) + [Event.Transmit(frame)]
    {
      log := log + [Event.Transmit(frame)];
    }

    /** `time.sleep`: records the wait, or raises for a negative length. */
    method Sleep(seconds: real) returns (failure: Option<Error>)
      modifies this`log
      ensures failure == if seconds < 0.0 then Some(NegativeSleepLength) else None
      ensures log == old(log) + if seconds < 0.0 then [] else [Event.Sleep(seconds)]
    {
      if seconds < 0.0 {
        return Some(NegativeSleepLength);
      }
      log := log + [Event.Sleep(seconds)];
      return None;
    }

    /** One pass of `start`'s `for` loop, with the sensors' readings as input:
        one transmission per sensor in registration order, each followed by a
        wait of `slot_duration / len(sensors)`, with the frame id advanced
        after each transmission. A negative slot duration makes the first
        wait raise, after the first transmission. */
    method RunPass(readings: seq<int>) returns (failure: Option<Error>)
      requires Valid() && |readings| == |sensors|
      modifies this`log, this`frameId
      ensures Valid()
      ensures log == old(log) + PassLog(Requests(sensors, readings, old(frameId)), SlotWait(slotDuration, |sensors|))
      ensures failure == if SlotWait(slotDuration, |sensors|) < 0.0 && |sensors| > 0 then Some(NegativeSleepLength) else None
      ensures frameId == FrameIdAfter(old(frameId), |Delivered(Requests(sensors, readings, old(frameId)), SlotWait(slotDuration, |sensors|))|)
    {
      ghost var id0, log0 := frameId, log;
      ghost var requests := Requests(sensors, readings, frameId);
      ghost var wait := SlotWait(slotDuration, |sensors|);
      var i := 0;
      while i < |sensors|
        invariant 0 <= i <= |sensors| && 1 <= frameId <= 100
        invariant frameId == FrameIdAfter(id0, i)
        invariant wait >= 0.0 ==> log == log0 + PassEvents(requests[..i], wait)
        invariant wait < 0.0 ==> i == 0 && log == log0
      {
        var sensor := sensors[i];
        var data := readings[i];
        var frame := FrameRequest(frameId, 1, sensor.sensorId, sensor.sensorType, data);
        Transmit(frame);
        frameId := frameId % 100 + 1;
        var slept := Sleep(slotDuration / |sensors| as real);
        if slept.Some? {
          return slept;
        }
        PassEventsSnoc(requests[..i], frame, wait);
        assert requests[..i + 1] == requests[..i] + [frame];
        i := i + 1;
      }
      assert requests[..i] == requests;
      return None;
    }
  }
}
