# BE_WSN_Layer: frames, BPSK and TDMA in Dafny

This project models the wireless-sensor-network layers of BE_WSN_Layer and proves
properties about them:

- the current MAC frame (`MAC/Frame.py`): 8 bytes, the start byte `0xA5`, a 4-bit flag,
  10-bit destination and source addresses, a 24-bit payload and an XOR-fold checksum.
  The sensor frame `TSFrame` packs a person count, a signed temperature and an
  air-quality value into the payload;
- the BPSK bit mapping of the physical layer (`PHY/PHY_layer_functions.py`);
- the path a frame takes from `to_bytes` through modulation, a channel and
  demodulation to `create_frame_from_bytes`;
- the three round-robin TDMA schedulers (`MAC/TDMA.py`, `TDMAMAC` in `MAC/MAC_layer.py`
  and in `MAC_layer.py`), each as a class whose `RunPass` method performs one pass of
  `start`'s loop;
- the two older frame formats they send: the 7-byte metro frame of `MAC/MAC_layer.py`
  and the 8-byte preamble frame of `MAC_layer.py`.

The main results:

- Decoding is the inverse of encoding only across a byte-wise complement
  (`FrameCodec.DecodeComplementOfEncode`). Decoding the encoded bytes directly gives every
  field bit-inverted (`FrameCodec.DecodeOfEncodeInverts`).
- With no noise, demodulating the modulated bytes gives exactly that complement
  (`Bpsk.DemodulateModulate`), because the demodulator's polarity is the opposite of
  the modulator's. So a well-formed frame survives the whole link
  (`Link.FrameSurvivesNoiselessLink`), and so does a sensor frame with byte-sized
  readings (`Link.TSFrameSurvivesNoiselessLink`). It also survives any channel that
  keeps the sign of every sample (`Link.FrameSurvivesLink`).
- The checksum loop computes the XOR of the six bytes of the 48-bit blob. It notices
  every single-bit change in an in-range flag, address or payload.
- Each scheduler's pass transmits the frames of its sensors in registration order, up to
  the first sensor whose frame cannot be built. After each frame it waits
  `slot_duration / len(sensors)`. Waits are real numbers here, so a full pass waits
  `slot_duration` exactly in real arithmetic, not in floating point. The frame counter
  stays in [1, 100].
- A pass stops at the first sensor whose frame cannot be built. For the preamble frame,
  the unsigned `'I'` format makes every negative temperature reading stop the pass.
- A negative `slot_duration` makes the first wait raise `ValueError`. By then the first
  frame, if it could be built, has already gone out, so such a pass sends at most one frame.
- `MAC/TDMA.py` calls the four-parameter `Frame` of `MAC/Frame.py` with five arguments,
  so in the source its pass raises `TypeError` before transmitting anything. Its model
  assumes the call succeeds and describes the frame by the arguments it is built from.

Files:

| file | module | contents |
|---|---|---|
| `wrappers.dfy` | `Wrappers` | `Option`, `Result` and the exceptions the code raises |
| `bits.dfy` | `Bits` | bytes, shifts, bitwise or and xor on naturals, single-bit flips |
| `struct.dfy` | `Struct` | `struct.pack` and `struct.unpack` for `'B'`, `'h'` and `'I'` |
| `frame.dfy` | `FrameCodec` | `Frame` of `MAC/Frame.py` |
| `sensor_frame.dfy` | `SensorFrameCodec` | `TSFrame` of `MAC/Frame.py` |
| `bpsk.dfy` | `Bpsk` | `modulate_bpsk` and `demodulate_bpsk` |
| `link.dfy` | `Link` | the frame round trip over the link |
| `schedule.dfy` | `Schedule` | sensors, pass events, the frame counter, and passes that stop at an exception |
| `tdma.dfy` | `TdmaScheduler` | `TDMA` of `MAC/TDMA.py` |
| `metro_mac.dfy` | `MetroMacLayer` | `Frame` and `TDMAMAC` of `MAC/MAC_layer.py` |
| `preamble_mac.dfy` | `PreambleMacLayer` | `Frame` and `TDMAMAC` of `MAC_layer.py` |

Behaviour of the code that is easy to misread:

- `to_bytes` does not complement the two words. Only `create_frame_from_bytes` inverts them.
- `'II'` is packed in the host's native byte order. The model fixes it as little-endian,
  in both directions, not as big-endian.
- `np.packbits` pads a trailing partial group of bits with zeros. It does not drop them.
- Decoding returns the checksum read from the wire and does not compare it with a
  recomputed one. `TSFrame.create_frame_from_bytes` then replaces it with a recomputed one.
- `TSFrame` keeps the low byte of any temperature, read as a signed byte. It does not
  reject temperatures outside [-128, 127].

## Model

| member | source | states |
|---|---|---|
| `Struct.PackH` | MAC/MAC_layer.py:41 | `struct.pack('h', x)` succeeds exactly when x is a signed 16-bit value, and its two bytes unpack back to x |
| `Struct.PackI` | MAC/Frame.py:63-67 | `struct.pack('I', x)` succeeds exactly when 0 <= x < 2^32, and its four bytes unpack back to x |
| `Struct.UnpackThenPackI` | MAC/Frame.py:35 | every four bytes are the `'I'` packing of the word they unpack to |
| `Struct.UnpackThenPackH` | MAC/MAC_layer.py:45 | every two bytes are the `'h'` packing of the value they unpack to |
| `FrameCodec.CalculateCrc` | MAC/Frame.py:47-57 | the loop ends, and its result is the XOR-fold, one byte, of the blob holding the flag, destination, source and payload at bits 44, 34, 24 and 0 |
| `FrameCodec.CrcDataPacked` | MAC/Frame.py:52 | with in-range addresses and payload, the fields occupy disjoint bits of the blob, so or-ing them is adding them |
| `FrameCodec.CrcIsXorOfSixBytes` | MAC/Frame.py:52-57 | for in-range fields, the checksum is the XOR of the six bytes of the blob, each written out in terms of the fields |
| `FrameCodec.XorFoldDetectsFlip` | MAC/Frame.py:53-56 | flipping any one bit of a value changes its XOR-fold |
| `FrameCodec.DataFlipChangesCrc` | MAC/Frame.py:52-56 | flipping any one of the 24 payload bits keeps the payload in range and changes the checksum |
| `FrameCodec.SrcFlipChangesCrc` | MAC/Frame.py:52-56 | flipping any one of the 10 source-address bits keeps it in range and changes the checksum |
| `FrameCodec.DestFlipChangesCrc` | MAC/Frame.py:52-56 | flipping any one of the 10 destination-address bits keeps it in range and changes the checksum |
| `FrameCodec.FlagFlipChangesCrc` | MAC/Frame.py:52-56 | flipping any one of the 4 flag bits keeps it in range and changes the checksum |
| `Bits.XorAllOnes` | MAC/Frame.py:36-37 | xor with the all-ones n-bit mask turns an n-bit x into `2^n - 1 - x`: every bit flipped |
| `FrameCodec.NewFrame` | MAC/Frame.py:12-23 | the constructor stores the sfd `0xA5` and the given fields unchecked, and its crc is the one `calculate_crc` returns. The frame is in range exactly when flag, addresses and payload fit their widths |
| `FrameCodec.FlagTypesWellFormed` | MAC/Frame.py:6-23 | a frame built with any of the three `FlagType` values is in range whenever its addresses and payload are |
| `FrameCodec.ToBytes` | MAC/Frame.py:59-68 | `to_bytes` raises exactly when one of the two words does not fit 32 bits. Otherwise it writes 8 bytes whose two halves unpack to the two words |
| `FrameCodec.InvertWord` | MAC/Frame.py:36-37 | `~w & 0xFFFFFFFF` of a 32-bit word is `w ^ 0xFFFFFFFF`: every one of its 32 bits flipped. It stays within 32 bits, and its sum with w is all ones |
| `FrameCodec.FrameOfWords` | MAC/Frame.py:38-44 | the frame cut out of two words has sfd `0xA5`, a flag, addresses and crc within their widths, the second word's top 24 bits as payload and its low byte as crc. It is in range exactly when the second word fits 32 bits |
| `FrameCodec.InvertedWordParts` | MAC/Frame.py:41-42 | the checksum taken from an inverted second word is 255 minus the wire byte, and the payload above it fits in 24 bits |
| `FrameCodec.CreateFrameFromBytes` | MAC/Frame.py:26-45 | raises `ValueError("Invalid frame length")` exactly when the input is not 8 bytes long. Otherwise the frame has sfd `0xA5` and every field within its width, and its crc is the inverted fifth wire byte, not a recomputed one |
| `FrameCodec.FirstWordFields` | MAC/Frame.py:38-40 | the masks and shifts on the first word recover the flag, destination and source, whatever the top byte holds |
| `FrameCodec.WordsPacked` | MAC/Frame.py:63-67 | for an in-range frame, the two words are `0xA5 * 2^24 + flag * 2^20 + dest * 2^10 + src` and `data * 2^8 + crc` |
| `FrameCodec.ToBytesLayout` | MAC/Frame.py:59-68 | `to_bytes` of an in-range frame succeeds with 8 bytes. Byte 3 is `0xA5` and byte 4 is the crc |
| `FrameCodec.ToBytesHalves` | MAC/Frame.py:63-67 | the two 4-byte halves of `to_bytes` unpack to the two words |
| `FrameCodec.ToBytesOverflow` | MAC/Frame.py:63-67 | a payload of 2^24 or more does not fit the second word, and `to_bytes` raises |
| `FrameCodec.DecodeComplement` | MAC/Frame.py:31-37 | decoding complemented bytes reads the words of the original bytes |
| `FrameCodec.FrameOfFrameWords` | MAC/Frame.py:38-44 | the fields cut out of an in-range frame's own words are that frame's fields, crc included |
| `FrameCodec.FrameOfInvertedWords` | MAC/Frame.py:36-44 | the fields cut out of an in-range frame's inverted words are its fields bit-inverted |
| `FrameCodec.DecodeComplementOfEncode` | MAC/Frame.py:26-68 | decoding the byte-wise complement of `to_bytes(f)` gives f back, for every in-range frame |
| `FrameCodec.DecodeOfEncodeInverts` | MAC/Frame.py:26-68 | decoding `to_bytes(f)` itself gives every field bit-inverted (flag `15 - f.flag` and so on), so the two are not inverses on their own |
| `SensorFrameCodec.Int8` | MAC/Frame.py:103 | `c_int8(x).value` is a signed byte congruent to x modulo 256 |
| `SensorFrameCodec.SensorDataPacked` | MAC/Frame.py:105 | or-ing the three shifted sensor bytes stacks them: `nb * 2^16 + t * 2^8 + a` |
| `SensorFrameCodec.NewTSFrame` | MAC/Frame.py:92-106 | the payload is the low bytes of the three readings, stacked, so it is below 2^24. The frame is the one `Frame` builds from the same header and payload, so its crc is computed. The person count and air quality are stored as given, and the temperature as a signed byte congruent to the given one |
| `SensorFrameCodec.CastFrameToTSFrame` | MAC/Frame.py:109-113 | the readings are the three payload bytes: person count and air quality unsigned, temperature signed. The header is kept, bits above bit 23 are dropped, and the crc is recomputed |
| `SensorFrameCodec.CreateTSFrameFromBytes` | MAC/Frame.py:115-119 | raises exactly when the input is not 8 bytes long. Otherwise the frame is in range and its crc equals `calculate_crc()`, whatever the wire carried |
| `SensorFrameCodec.CastOfNewTSFrame` | MAC/Frame.py:92-113 | casting the frame of a TSFrame with byte-sized person count and air quality gives that TSFrame back, whatever the temperature |
| `SensorFrameCodec.TSFrameComplementRoundTrip` | MAC/Frame.py:59-119 | a TSFrame with in-range header and byte-sized readings survives `to_bytes`, a byte-wise complement and `TSFrame.create_frame_from_bytes` |
| `Bpsk.ValueOfBitsOf` | PHY/PHY_layer_functions.py:14 | spelling out the low n bits of a value and reading them back gives the value |
| `Bpsk.BitsOfValueOf` | PHY/PHY_layer_functions.py:34 | reading bits as a number and spelling it out again gives the bits back |
| `Bpsk.Unpack` | PHY/PHY_layer_functions.py:14 | `unpackbits` gives eight bits per byte |
| `Bpsk.UnpackIndex` | PHY/PHY_layer_functions.py:14 | bit `8i + k` of `unpackbits` is bit k of byte i, most significant first |
| `Bpsk.PackBitsBit` | PHY/PHY_layer_functions.py:34 | bit k of packed byte j is input bit `8j + k`, or a padding 0 past the end |
| `Bpsk.PackBits` | PHY/PHY_layer_functions.py:34 | `packbits` returns `ceil(n / 8)` bytes |
| `Bpsk.PackUnpack` | PHY/PHY_layer_functions.py:14-34 | `packbits` undoes `unpackbits` |
| `Bpsk.UnpackComplement` | PHY/PHY_layer_functions.py:14 | unpacking the complement of a byte string inverts every bit |
| `Bpsk.Sample` | PHY/PHY_layer_functions.py:15-17 | the real part of a bit's sample is 1 or -1, and it is positive exactly for a 0 bit |
| `Bpsk.Modulate` | PHY/PHY_layer_functions.py:4-18 | `modulate_bpsk` produces 8 samples per byte |
| `Bpsk.ModulateSample` | PHY/PHY_layer_functions.py:14-17 | sample `8i + k` carries bit k of byte i, most significant first: real part 1 for a 0 bit and -1 for a 1 bit |
| `Bpsk.Demodulate` | PHY/PHY_layer_functions.py:20-36 | `demodulate_bpsk` returns `ceil(n / 8)` bytes for n samples |
| `Bpsk.Decide` | PHY/PHY_layer_functions.py:31 | a sample decides 1 exactly when its real part is above 0 |
| `Bpsk.DemodulateBit` | PHY/PHY_layer_functions.py:31-34 | bit k of output byte j is 1 exactly when the real part of sample `8j + k` is above 0, and 0 past the last sample |
| `Bpsk.DemodulateModulate` | PHY/PHY_layer_functions.py:4-36 | with no noise, demodulating the modulated bytes gives their byte-wise complement |
| `Bpsk.DemodulateSignOnly` | PHY/PHY_layer_functions.py:31 | two signals whose samples have the same signs demodulate to the same bytes |
| `Link.ReceivedBytes` | simulation_send_receive.py:29-43 | bytes sent through modulation, a sign-preserving channel and demodulation arrive complemented |
| `Link.FrameSurvivesLink` | simulation_send_receive.py:29-47 | a well-formed frame sent through a sign-preserving channel is decoded back to itself |
| `Link.FrameSurvivesNoiselessLink` | simulation_send_receive.py:29-47 | without noise, every well-formed frame is encoded and decoded back to itself |
| `Link.TSFrameSurvivesNoiselessLink` | simulation_send_receive.py:22-47 | without noise, a TSFrame with in-range header and byte-sized readings arrives as the same TSFrame |
| `Schedule.Readable` | MAC/MAC_layer.py:11-19 | a reading `read_data` can return belongs to one of the three known sensor types and lies in [-10, 2000] |
| `Schedule.PassEventsAt` | MAC/TDMA.py:17-22 | in a pass, event `2i` transmits frame i and event `2i + 1` waits |
| `Schedule.PassEventsTransmit` | MAC/TDMA.py:17-22 | a pass transmits exactly its frames, in order, and sleeps once per frame |
| `Schedule.FullPassSleepsSlotDuration` | MAC/TDMA.py:22 | over at least one sensor, the waits of a full pass add up to `slot_duration` |
| `Schedule.Delivered` | MAC/MAC_layer.py:59-64 | with a non-negative wait every frame built goes out. With a negative wait only the first does, because the sleep after it raises |
| `Schedule.PassLogTransmits` | MAC/MAC_layer.py:59-64 | a pass's log transmits exactly the frames it delivers. With a non-negative wait its waits add up to one wait per frame, and with a negative wait it never sleeps |
| `Schedule.NegativeWaitStopsPass` | MAC/MAC_layer.py:59-64 | with a non-negative wait a pass raises only where a frame cannot be built. With a negative wait and at least one sensor every pass raises, and at most one frame is delivered |
| `Schedule.FailedSlotEndsPass` | MAC/MAC_layer.py:59-64 | when slot i is the first whose frame cannot be built, the pass ends with that exception and has logged only the slots before it |
| `Schedule.NegativeWaitEndsPass` | MAC/MAC_layer.py:62-64 | with a negative wait, a pass whose first frame is built logs that one transmission and ends with `ValueError` |
| `Schedule.SlotExtendsPass` | MAC/MAC_layer.py:59-64 | a successful slot after a run of successful ones adds its frame and one wait to the log |
| `Schedule.NextFrameId` | MAC/TDMA.py:21 | `(frame_id % 100) + 1` lies in [1, 100], counts up by one, and wraps from 100 to 1 |
| `Schedule.FrameIdAfterClosedForm` | MAC/TDMA.py:21 | a counter starting in [1, 100] is `(id - 1 + k) % 100 + 1` after k transmissions, so it stays in [1, 100] |
| `Schedule.SentStep` | MAC/MAC_layer.py:59-64 | after a run of successful slots, the next one either adds its frame or ends the pass with its exception |
| `Schedule.SentAll` | MAC/MAC_layer.py:59-64 | when every slot's frame can be built, the pass sends all of them and raises nothing |
| `Schedule.StopsAt` | MAC/MAC_layer.py:59-64 | when slot i is the first to fail, the pass sends the i frames before it and ends with its exception |
| `Schedule.SentLength` | MAC/MAC_layer.py:59-64 | a pass that raises nothing sends one frame per sensor |
| `Schedule.SentBeforeFailure` | MAC/MAC_layer.py:59-64 | no frame is sent at or after a failing slot |
| `Schedule.FailureNone` | MAC/MAC_layer.py:59-64 | a pass raises nothing exactly when every slot's frame can be built |
| `TdmaScheduler.RequestsInOrder` | MAC/TDMA.py:17-21 | slot i uses the i-th registered sensor, its reading and frame id `(id - 1 + i) % 100 + 1`, which lies in [1, 100] |
| `TdmaScheduler.Tdma.constructor` | MAC/TDMA.py:6-10 | a new scheduler has the given slot duration, no sensors, current slot 0 and frame id 1 |
| `TdmaScheduler.Tdma.AddSensor` | MAC/TDMA.py:12-13 | the sensor is appended, and the ones already registered keep their order |
| `TdmaScheduler.Tdma.Transmit` | MAC/TDMA.py:24-25 | `transmit` records the frame it is given |
| `TdmaScheduler.Tdma.Sleep` | MAC/TDMA.py:22 | `time.sleep` records a non-negative wait and raises `ValueError` for a negative one |
| `TdmaScheduler.Tdma.RunPass` | MAC/TDMA.py:15-22 | with a non-negative slot duration, one pass transmits one frame per sensor in registration order, each followed by a wait of `slot_duration / len(sensors)`. A negative one transmits the first frame and raises at its wait. Frame ids count up from the current one and wrap in [1, 100], and the counter ends advanced once per frame sent |
| `MetroMacLayer.Address` | MAC/MAC_layer.py:35 | for a type code below 16, the car id and the code can both be read back from the address: the car id above bit 4, the code below it |
| `MetroMacLayer.AddressIsShlOr` | MAC/MAC_layer.py:35 | for a natural car id and a code below 16, the car id shifted left by four and or-ed with the code equals the address the model computes as `car_id * 16 + code` |
| `MetroMacLayer.AddressByte` | MAC/MAC_layer.py:41 | the third byte's high nibble is bits 4 to 7 of the address and its low nibble is the random nibble |
| `MetroMacLayer.AddressByteNibbles` | MAC/MAC_layer.py:41-45 | the third byte keeps the car id's low four bits and replaces the type code with the random nibble |
| `MetroMacLayer.CalculateCrc` | MAC/MAC_layer.py:40-42 | the checksum can be computed exactly when the sfd and frame id fit `'B'` and the reading fits `'h'` |
| `MetroMacLayer.NewMetroFrame` | MAC/MAC_layer.py:28-38 | an unknown sensor type raises at the table lookup. For a known type, the frame is built exactly when the frame id fits `'B'` and the reading fits `'h'`, and raises `struct.error` otherwise. A built frame holds the given fields, the address of car id and type code, and the crc a recomputation gives |
| `MetroMacLayer.ToBytes` | MAC/MAC_layer.py:44-45 | `to_bytes` raises exactly when the sfd, frame id, crc or efd does not fit `'B'` or the reading does not fit `'h'`. Otherwise it writes 7 bytes: the sfd, the frame id, the address byte, the reading (unpacked by `'h'`), the crc and the efd |
| `MetroMacLayer.ToBytesOfNewMetroFrame` | MAC/MAC_layer.py:44-45 | a built frame is written as 7 bytes: `0xA5`, frame id, car nibble over random nibble, the reading (unpacked by `'h'`), the crc, and `0x5A`. The crc is the byte sum of the first five bytes modulo 256 |
| `MetroMacLayer.AttemptsAt` | MAC/MAC_layer.py:59-61 | slot i of a pass builds sensor i's frame, with metro id 1, the sensor id as car id, reading i, and the counter after i transmissions |
| `MetroMacLayer.PassCompletes` | MAC/MAC_layer.py:57-64 | a pass raises nothing exactly when every sensor has a known type and a reading that fits `'h'`. The counter never makes a slot fail |
| `MetroMacLayer.ReadableReadingsComplete` | MAC/MAC_layer.py:11-19 | readings a sensor can report never stop a pass, so it sends one frame per sensor |
| `MetroMacLayer.TdmaMac.constructor` | MAC/MAC_layer.py:48-52 | a new scheduler has the given slot duration, no sensors, current slot 0 and frame id 1 |
| `MetroMacLayer.TdmaMac.AddSensor` | MAC/MAC_layer.py:54-55 | the sensor is appended, and the ones already registered keep their order |
| `MetroMacLayer.TdmaMac.Transmit` | MAC/MAC_layer.py:66-67 | `transmit` records the bytes of the frame |
| `MetroMacLayer.TdmaMac.Sleep` | MAC/MAC_layer.py:64 | `time.sleep` records a non-negative wait and raises `ValueError` for a negative one |
| `MetroMacLayer.TdmaMac.Serve` | MAC/MAC_layer.py:59-63 | one slot's outcome is that slot's attempt. A failed slot changes nothing. A successful one logs the frame's bytes and advances the counter |
| `MetroMacLayer.TdmaMac.RunPass` | MAC/MAC_layer.py:57-64 | one pass logs the frames of the slots before the first failing one, each followed by a wait of `slot_duration / len(sensors)`, and ends with that slot's exception, if any. A negative slot duration ends the pass with `ValueError` after the first frame. The counter advances once per frame sent |
| `PreambleMacLayer.CalculateChecksum` | MAC_layer.py:35-37 | the checksum can be computed exactly when the sensor id fits `'B'` and the reading fits `'I'` |
| `PreambleMacLayer.NewPreambleFrame` | MAC_layer.py:28-33 | an unknown sensor type raises at the table lookup. For a known type, the frame is built exactly when the sensor id fits `'B'` and the reading fits `'I'`, and raises `struct.error` otherwise. A built frame holds preamble `0xAA`, the given id, the type code, the reading and the checksum a recomputation gives |
| `PreambleMacLayer.ToBytes` | MAC_layer.py:39-40 | `to_bytes` raises exactly when the preamble, sensor id, type code or checksum does not fit `'B'` or the reading does not fit `'I'`. Otherwise it writes 8 bytes: the preamble, the sensor id, the type code, the reading (unpacked by `'I'`) and the checksum |
| `PreambleMacLayer.ToBytesOfNewPreambleFrame` | MAC_layer.py:39-40 | a built frame is written as 8 bytes: `0xAA`, sensor id, type code, the reading (unpacked by `'I'`), and the checksum, which is the byte sum of the first seven bytes modulo 256 |
| `PreambleMacLayer.AttemptsAt` | MAC_layer.py:53-55 | slot i of a pass builds the frame of sensor i with reading i |
| `PreambleMacLayer.PassCompletes` | MAC_layer.py:51-57 | a pass raises nothing exactly when every sensor has a known type, an id that fits `'B'` and a reading that fits `'I'` |
| `PreambleMacLayer.NegativeTemperatureStopsPass` | MAC_layer.py:11-37 | a temperature sensor can report a negative reading, which `'I'` refuses. That slot raises `struct.error`, the pass ends with an exception, and no frame is sent from that slot on |
| `PreambleMacLayer.TdmaMac.constructor` | MAC_layer.py:43-46 | a new scheduler has the given slot duration, no sensors and current slot 0 |
| `PreambleMacLayer.TdmaMac.AddSensor` | MAC_layer.py:48-49 | the sensor is appended, and the ones already registered keep their order |
| `PreambleMacLayer.TdmaMac.Transmit` | MAC_layer.py:59-60 | `transmit` records the bytes of the frame |
| `PreambleMacLayer.TdmaMac.Sleep` | MAC_layer.py:57 | `time.sleep` records a non-negative wait and raises `ValueError` for a negative one |
| `PreambleMacLayer.TdmaMac.Serve` | MAC_layer.py:53-56 | one slot's outcome is that slot's attempt. A failed slot changes nothing, and a successful one logs the frame's bytes |
| `PreambleMacLayer.TdmaMac.RunPass` | MAC_layer.py:51-57 | one pass logs the frames of the slots before the first failing one, each followed by a wait of `slot_duration / len(sensors)`, and ends with that slot's exception, if any. A negative slot duration ends the pass with `ValueError` after the first frame |

## Left out

- The `Sensor` classes' `random.randint` readings and the random nibble of the metro frame are inputs of a pass, not random draws. `Schedule.Readable` states the ranges `read_data` draws from.
- In the two `TDMAMAC` schedulers (`MAC/MAC_layer.py` and `MAC_layer.py`), `read_data` raises `ValueError` for an unknown sensor type before the frame's table lookup would raise `KeyError`. The model reports the table lookup's error. The same sensor types are refused either way.
- `TdmaScheduler.Tdma.RunPass`: unknown sensor types are not refused. In the source, the sensor's `read_data` (MAC/Sensor.py, which is not part of this model) raises `ValueError` for one before its frame is built, which ends the pass. The model builds and transmits a frame request for every sensor, whatever its type.
- `start`'s `while True`, `time.sleep` and the thread that runs it: the model runs one pass, and records each sleep as an event in a log instead of waiting. A negative length raises `ValueError` as `time.sleep` does.
- Slot durations and waits are real numbers, not floating point: `slot_duration / len(sensors)` is exact, and the waits of a pass add up to `slot_duration` exactly. Integer and floating-point slot durations are not told apart.
- The default `slot_duration=300` of the scheduler constructors is not modelled: every constructor takes the slot duration as an argument.
- `transmit`'s `print` is modelled as appending to the log: the frame request for `MAC/TDMA.py`, and the frame's bytes for the other two schedulers. The `print` of the input length in `create_frame_from_bytes`, just before its length error, is not modelled: `FrameCodec.CreateFrameFromBytes` only returns the error.
- `MAC/TDMA.py` calls `Frame` with five arguments, which the four-parameter `Frame` of `MAC/Frame.py` does not take, so in the source every pass raises `TypeError` at its first sensor and nothing is ever transmitted. The model assumes the call succeeds, and describes each frame by the arguments it is built from.
- `MetroMacLayer.Address`: `|` is modelled as an addition, which `MetroMacLayer.AddressIsShlOr` justifies only for a natural car id. `Or` is defined on naturals only, so a negative car id (Python's two's-complement `<<` and `|`) is not covered by that lemma.
- `simulate_canal` (random Gaussian noise) is not modelled. `Link.FrameSurvivesLink` covers every channel that keeps the sign of each sample.
- `show_constellation_diagram`, `to_string` and `to_string_as_bits` only display values and are not modelled.
- The imaginary part of the samples is not modelled, because demodulation never reads it. Real parts are exactly 1 and -1, not floating-point cosines.
- `struct`'s native byte order is fixed to little-endian.
- `FrameCodec.NewFrame`: the `TypeError` for a flag that is neither a `FlagType` nor an `int` is not modelled. Flags are naturals, with `FlagType` as the constants `Ack`, `Data` and `Discover`.
- Frame fields are naturals. With a negative field, `calculate_crc`'s loop never ends in the source, and the model does not cover that.
- simulation_send_receive.py itself (argument parsing, the float scaling of the CO2 reading, and the call to `test_current_crc`, which `Frame` does not define) is not modelled. Only the pipeline it wires is.
