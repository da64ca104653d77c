/** What the three TDMA schedulers share: the sensors they poll, the
    transmissions and waits one pass of `start` produces, the frame counter
    that wraps from 100 back to 1, and a pass that stops at the first sensor
    whose frame cannot be built. */
module Schedule {
  import opened Wrappers
  import opened Bits

  /** A registered sensor: its id and its type name. Its random readings are
      inputs of a pass. */
  datatype Sensor = Sensor(sensorId: int, sensorType: string)

  /** `Sensor.read_data`: the readings a sensor of each known type reports;
      any other type raises. */
  predicate Readable(sensorType: string, reading: int): (ok: bool)
    ensures ok ==> sensorType == "temperature" || sensorType == "people_count" || sensorType == "co2"
    ensures ok ==> -10 <= reading <= 2000
  {
    || (sensorType == "temperature" && -10 <= reading <= 40)
    || (sensorType == "people_count" && 0 <= reading <= 50)
    || (sensorType == "co2" && 300 <= reading <= 2000)
  }

  /** What a pass does, in order: `transmit(frame)` or `time.sleep(seconds)`. */
  datatype Event<F> = Transmit(frame: F) | Sleep(seconds: real)

  /** The events of a pass that transmits `frames` in order, waiting `wait`
      seconds after each one. */
  function PassEvents<F>(frames: seq<F>, wait: real): (es: seq<Event<F>>)
    ensures |es| == 2 * |frames|
  {
    if |frames| == 0 then []
    else PassEvents(frames[..|frames| - 1], wait) + [Transmit(frames[|frames| - 1]), Sleep(wait)]
  }

  /** The wait after each slot, `slot_duration / len(sensors)`; with no sensors
      there is no slot and nothing waits, so the value is never used. */
  function SlotWait(slotDuration: real, sensorCount: nat): real
  {
    if sensorCount == 0 then 0.0 else slotDuration / sensorCount as real
  }

  /** The frames a sequence of events transmits, in order. */
  function Transmitted<F>(es: seq<Event<F>>): seq<F>
  {
    if |es| == 0 then []
    else Transmitted(es[..|es| - 1]) + (if es[|es| - 1].Transmit? then [es[|es| - 1].frame] else [])
  }

  /** The seconds a sequence of events spends asleep. */
  function TotalSleep<F>(es: seq<Event<F>>): real
  {
    if |es| == 0 then 0.0
    else TotalSleep(es[..|es| - 1]) + (if es[|es| - 1].Sleep? then es[|es| - 1].seconds else 0.0)
  }

  /** One more event adds its frame or its wait. */
  lemma EventSnoc<F>(es: seq<Event<F>>, e: Event<F>)
    ensures Transmitted(es + [e]) == Transmitted(es) + (if e.Transmit? then [e.frame] else [])
    ensures TotalSleep(es + [e]) == TotalSleep(es) + (if e.Sleep? then e.seconds else 0.0)
  {
    assert (es + [e])[..|es|] == es;
  }

  /** Events alternate: event 2i transmits frame i, event 2i + 1 waits. */
  lemma {:induction false} PassEventsAt<F>(frames: seq<F>, wait: real, i: nat)
    requires i < |frames|
    ensures PassEvents(frames, wait)[2 * i] == Transmit(frames[i])
    ensures PassEvents(frames, wait)[2 * i + 1] == Sleep(wait)
  {
    var n := |frames| - 1;
    if i < n {
      assert frames[..n][i] == frames[i];
      PassEventsAt(frames[..n], wait, i);
    }
  }

  /** A pass transmits exactly its frames, in order, and sleeps once per frame. */
  lemma {:induction false} PassEventsTransmit<F>(frames: seq<F>, wait: real)
    ensures Transmitted(PassEvents(frames, wait)) == frames
    ensures TotalSleep(PassEvents(frames, wait)) == Repeated(|frames|, wait)
  {
    if |frames| > 0 {
      var n := |frames| - 1;
      var before := PassEvents(frames[..n], wait);
      var sent := before + [Transmit(frames[n])];
      PassEventsTransmit(frames[..n], wait);
      EventSnoc(before, Transmit(frames[n]));
      EventSnoc(sent, Sleep(wait));
      assert PassEvents(frames, wait) == sent + [Sleep(wait)];
      assert frames[..n] + [frames[n]] == frames;
    }
  }

  /** The waits of a full pass over at least one sensor add up to the slot duration. */
  lemma FullPassSleepsSlotDuration<F>(frames: seq<F>, slotDuration: real)
    requires |frames| > 0
    ensures TotalSleep(PassEvents(frames, SlotWait(slotDuration, |frames|))) == slotDuration
  {
    PassEventsTransmit(frames, SlotWait(slotDuration, |frames|));
    RepeatedSlotWait(slotDuration, |frames|);
  }

  /** k waits of the same length, one after another. */
  function Repeated(k: nat, wait: real): real
  {
    if k == 0 then 0.0 else Repeated(k - 1, wait) + wait
  }

  lemma {:induction false} RepeatedIsProduct(k: nat, wait: real)
    ensures Repeated(k, wait) == k as real * wait
  {
    if k > 0 {
      RepeatedIsProduct(k - 1, wait);
    }
  }

  lemma RepeatedSlotWait(slotDuration: real, sensorCount: nat)
    requires sensorCount > 0
    ensures Repeated(sensorCount, SlotWait(slotDuration, sensorCount)) == slotDuration
  {
    RepeatedIsProduct(sensorCount, SlotWait(slotDuration, sensorCount));
  }

  /** Extending a pass by one frame adds one transmission and one wait. */
  lemma PassEventsSnoc<F>(frames: seq<F>, frame: F, wait: real)
    ensures PassEvents(frames + [frame], wait) == PassEvents(frames, wait) + [Transmit(frame), Sleep(wait)]
  {
    assert (frames + [frame])[..|frames|] == frames;
  }

  /** The frames a pass gets out of `frames`: all of them, or, when the wait
      is negative, only the first, after which `time.sleep` raises. */
  function Delivered<F>(frames: seq<F>, wait: real): (ds: seq<F>)
    ensures wait >= 0.0 ==> ds == frames
    ensures wait < 0.0 ==> |ds| == if |frames| == 0 then 0 else 1
    ensures ds <= frames
  {
    if wait < 0.0 && |frames| > 1 then frames[..1] else frames
  }

  /** The events of a pass that has `frames` to send, in order, waiting `wait`
      seconds after each: with a negative wait, the first frame goes out and
      the sleep after it raises before anything is logged. */
  function PassLog<F>(frames: seq<F>, wait: real): seq<Event<F>>
  {
    if wait >= 0.0 then PassEvents(frames, wait)
    else if |frames| == 0 then []
    else [Transmit(frames[0])]
  }

  /** The exception a pass ends with: that of the first attempt that fails,
      or the `ValueError` of `time.sleep` when the wait is negative and a
      frame went out first. */
  function PassFailure<T>(attempts: seq<Result<T>>, wait: real): Option<Error>
  {
    if wait < 0.0 && |Sent(attempts)| > 0 then Some(NegativeSleepLength) else Failure(attempts)
  }

  /** A pass logs a transmission for each frame it delivers, and, unless its
      wait is negative, one wait per frame; with a negative wait it never sleeps. */
  lemma PassLogTransmits<F>(frames: seq<F>, wait: real)
    ensures Transmitted(PassLog(frames, wait)) == Delivered(frames, wait)
    ensures TotalSleep(PassLog(frames, wait)) == if wait >= 0.0 then Repeated(|frames|, wait) else 0.0
  {
    if wait >= 0.0 {
      PassEventsTransmit(frames, wait);
    } else if |frames| > 0 {
      EventSnoc([], Transmit(frames[0]));
      assert [Transmit(frames[0])] == [] + [Transmit(frames[0])];
    }
  }

  /** With a negative wait and at least one sensor, every pass raises, and at
      most one frame goes out; with a non-negative wait, a pass raises only
      where an attempt fails. */
  lemma {:induction false} NegativeWaitStopsPass<T>(attempts: seq<Result<T>>, wait: real)
    ensures wait >= 0.0 ==> PassFailure(attempts, wait) == Failure(attempts)
    ensures wait < 0.0 && |attempts| > 0 ==> PassFailure(attempts, wait).Some?
    ensures wait < 0.0 ==> |Delivered(Sent(attempts), wait)| <= 1
  {
    if wait < 0.0 && |attempts| > 0 && |Sent(attempts)| == 0 {
      assert attempts[0].Err?;
    }
  }

  /** A pass whose attempt i is the first to fail ends with its exception,
      having logged the frames before it (and, with a non-negative wait, their
      waits); a negative wait stops a pass before any second attempt. */
  lemma FailedSlotEndsPass<T>(attempts: seq<Result<T>>, wait: real, i: nat)
    requires i < |attempts| && Failure(attempts[..i]) == None && attempts[i].Err?
    requires wait < 0.0 ==> i == 0
    ensures PassFailure(attempts, wait) == Some(attempts[i].error)
    ensures Sent(attempts) == Sent(attempts[..i])
    ensures PassLog(Sent(attempts), wait) == if wait >= 0.0 then PassEvents(Sent(attempts[..i]), wait) else []
  {
    SentStep(attempts, i);
  }

  /** A slot that succeeds, after a run of successes, extends the log by its
      frame and one wait. */
  lemma SlotExtendsPass<T>(log0: seq<Event<T>>, attempts: seq<Result<T>>, i: nat, wait: real)
    requires i < |attempts| && Failure(attempts[..i]) == None && attempts[i].Ok?
    ensures Failure(attempts[..i + 1]) == None && |Sent(attempts[..i + 1])| == |Sent(attempts[..i])| + 1
    ensures log0 + PassEvents(Sent(attempts[..i]), wait) + [Transmit(attempts[i].value)] + [Sleep(wait)]
         == log0 + PassEvents(Sent(attempts[..i + 1]), wait)
  {
    SentStep(attempts, i);
    PassEventsSnoc(Sent(attempts[..i]), attempts[i].value, wait);
  }

  /** A negative wait after a pass's first frame raises: only that frame is logged. */
  lemma NegativeWaitEndsPass<T>(attempts: seq<Result<T>>, wait: real)
    requires wait < 0.0 && 0 < |attempts| && attempts[0].Ok?
    ensures PassFailure(attempts, wait) == Some(NegativeSleepLength)
    ensures PassLog(Sent(attempts), wait) == [Transmit(attempts[0].value)]
    ensures |Delivered(Sent(attempts), wait)| == 1
  {
    assert Sent(attempts)[0] == attempts[0].value;
  }

  /** A pass in which no attempt fails, and which a negative wait would have
      stopped had it held any, raises nothing and logs every frame with its wait. */
  lemma CompletedPass<T>(attempts: seq<Result<T>>, wait: real)
    requires Failure(attempts) == None && (wait < 0.0 ==> |attempts| == 0)
    ensures PassFailure(attempts, wait) == None
    ensures PassLog(Sent(attempts), wait) == PassEvents(Sent(attempts), wait)
    ensures Delivered(Sent(attempts), wait) == Sent(attempts)
  {
  }

  /** `(frame_id % 100) + 1`: always in [1, 100]; counts up by one and wraps
      from 100 back to 1. */
  function NextFrameId(id: int): (r: int)
    ensures 1 <= r <= 100
    ensures 1 <= id < 100 ==> r == id + 1
    ensures id == 100 ==> r == 1
  {
    id % 100 + 1
  }

  /** The frame counter after k transmissions. */
  function FrameIdAfter(id: int, k: nat): int
  {
    if k == 0 then id else NextFrameId(FrameIdAfter(id, k - 1))
  }

  /** A counter in [1, 100] after k transmissions is `(id - 1 + k) % 100 + 1`:
      it stays in [1, 100] and repeats every 100 transmissions. */
  lemma {:induction false} FrameIdAfterClosedForm(id: int, k: nat)
    requires 1 <= id <= 100
    ensures FrameIdAfter(id, k) == (id - 1 + k) % 100 + 1
    ensures 1 <= FrameIdAfter(id, k) <= 100
  {
    if k > 0 {
      FrameIdAfterClosedForm(id, k - 1);
      var x := id - 1 + k - 1;
      var q, m := x / 100, x % 100;
      if m == 99 {
        DivMod(x + 1, 100, q + 1, 0);
      } else {
        DivMod(x + 1, 100, q, m + 1);
      }
    }
  }

  /** The counter seen by transmission i of a pass is the one seen by
      transmission i - 1 of the pass that starts one transmission later. */
  lemma {:induction false} FrameIdAfterShift(id: int, k: nat)
    ensures FrameIdAfter(NextFrameId(id), k) == FrameIdAfter(id, k + 1)
  {
    if k > 0 {
      FrameIdAfterShift(id, k - 1);
    }
  }

  /** The frames a pass sends: those of the attempts before the first
      failed one, in order. */
  function Sent<T>(attempts: seq<Result<T>>): seq<T>
  {
    if |attempts| == 0 || attempts[0].Err? then [] else [attempts[0].value] + Sent(attempts[1..])
  }

  /** The exception a pass ends with: that of the first failed attempt, if any. */
  function Failure<T>(attempts: seq<Result<T>>): Option<Error>
  {
    if |attempts| == 0 then None
    else if attempts[0].Err? then Some(attempts[0].error)
    else Failure(attempts[1..])
  }

  /** The values of attempts that all succeeded. */
  function Values<T>(attempts: seq<Result<T>>): (vs: seq<T>)
    requires forall j :: 0 <= j < |attempts| ==> attempts[j].Ok?
    ensures |vs| == |attempts|
  {
    seq(|attempts|, j requires 0 <= j < |attempts| => attempts[j].value)
  }

  /** One more attempt after a run of successes either adds its frame or
      ends the pass with its exception. */
  lemma {:induction false} SentStep<T>(attempts: seq<Result<T>>, i: nat)
    requires i < |attempts| && Failure(attempts[..i]) == None
    ensures attempts[i].Ok? ==> Sent(attempts[..i + 1]) == Sent(attempts[..i]) + [attempts[i].value]
                                && Failure(attempts[..i + 1]) == None
    ensures attempts[i].Err? ==> Sent(attempts) == Sent(attempts[..i])
                                 && Failure(attempts) == Some(attempts[i].error)
  {
    if i > 0 {
      assert attempts[..i][0] == attempts[0];
      assert attempts[..i][1..] == attempts[1..][..i - 1];
      assert attempts[..i + 1][1..] == attempts[1..][..i];
      SentStep(attempts[1..], i - 1);
    } else {
      assert attempts[..1] == [attempts[0]];
    }
  }

  /** A pass in which every attempt succeeds sends all their frames and ends
      without an exception. */
  lemma {:induction false} SentAll<T>(attempts: seq<Result<T>>)
    requires forall j :: 0 <= j < |attempts| ==> attempts[j].Ok?
    ensures Sent(attempts) == Values(attempts) && Failure(attempts) == None
  {
    if |attempts| > 0 {
      SentAll(attempts[1..]);
    }
  }

  /** A pass whose attempt i is the first to fail sends the i frames before it
      and ends with that attempt's exception. */
  lemma {:induction false} StopsAt<T>(attempts: seq<Result<T>>, i: nat)
    requires i < |attempts| && attempts[i].Err?
    requires forall j :: 0 <= j < i ==> attempts[j].Ok?
    ensures Sent(attempts) == Values(attempts[..i]) && Failure(attempts) == Some(attempts[i].error)
  {
    if i > 0 {
      StopsAt(attempts[1..], i - 1);
      assert attempts[1..][..i - 1] == attempts[..i][1..];
    }
  }

  /** A pass that ends without an exception sends one frame per attempt. */
  lemma {:induction false} SentLength<T>(attempts: seq<Result<T>>)
    requires Failure(attempts) == None
    ensures |Sent(attempts)| == |attempts|
  {
    if |attempts| > 0 {
      SentLength(attempts[1..]);
    }
  }

  /** A pass sends no frame at or after the first failed attempt. */
  lemma {:induction false} SentBeforeFailure<T>(attempts: seq<Result<T>>, i: nat)
    requires i < |attempts| && attempts[i].Err?
    ensures |Sent(attempts)| <= i
  {
    if i > 0 && attempts[0].Ok? {
      SentBeforeFailure(attempts[1..], i - 1);
    }
  }

  /** A pass ends without an exception exactly when every attempt succeeds. */
  lemma {:induction false} FailureNone<T>(attempts: seq<Result<T>>)
    ensures Failure(attempts) == None <==> forall j :: 0 <= j < |attempts| ==> attempts[j].Ok?
  {
    if |attempts| > 0 {
      FailureNone(attempts[1..]);
      assert forall j :: 1 <= j < |attempts| ==> attempts[j] == attempts[1..][j - 1];
    }
  }
}
