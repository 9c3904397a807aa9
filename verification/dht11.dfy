/** The DHT11 single-wire sensor driver: handshake, 40-bit frame, checksum,
    commit of the integer bytes, the three-attempt retry and the cached
    getters.

    The line's timing is abstracted: each busy-wait of the source either
    completes before its 100 microsecond limit or times out, and each data
    bit contributes the width of its high pulse as measured by the driver. */
module Dht11 {
  import opened Base
  import RgbLed

  /** A high pulse strictly longer than this many microseconds is a 1 bit. */
  const BitThresholdUs := 40
  const FrameBits := 40
  const FrameBytes := 5
  const MaxAttempts := 3
  /** The shortest spacing between two reads the driver's documentation allows. */
  const MinReadIntervalMs := 2000

  /** The driver's record: the bus pin and the last accepted reading. */
  datatype Sensor = Sensor(gpio: int, temperature: int, humidity: int)

  /** Both cached values fit in a byte, as every value the driver stores does. */
  predicate Cached(s: Sensor) {
    0 <= s.temperature < 256 && 0 <= s.humidity < 256
  }

  /** One data bit on the line: whether the line rose before the wait for
      the bit's high phase timed out, and the high pulse's measured width
      in microseconds. A line stuck high ends the measurement after the
      limit and yields a long width, not an error. */
  datatype BitSlot = BitSlot(rose: bool, width: nat)

  /** What the line does during one read cycle: the outcome of the three
      acknowledgement waits (low, high, low again) and the data bits as
      they arrive. A bit that never arrives is a timeout. */
  datatype BusTrace = BusTrace(ackLow: bool, ackHigh: bool, ackEnd: bool, slots: seq<BitSlot>)

  /** The outcome of one read attempt and the record after it. */
  datatype Attempt = Attempt(err: EspErr, sensor: Sensor)

  /** dht11_init: bind the pin, zero the readings, show the "sensor
      started" colour. The GPIO configuration itself is not modelled. */
  function Init(gpio: int, led: RgbLed.Led): (r: (Sensor, RgbLed.Led))
    requires RgbLed.Valid(led)
    ensures r.0.gpio == gpio && r.0.temperature == 0 && r.0.humidity == 0
    ensures Cached(r.0)
    ensures RgbLed.Valid(r.1) && RgbLed.Ready(r.1)
    ensures RgbLed.ColorOf(r.1) == RgbLed.StatusColor(RgbLed.Dht11Started)
    ensures r.1.blinkTasks == led.blinkTasks
  {
    (Sensor(gpio, 0, 0), RgbLed.Signal(led, RgbLed.Dht11Started))
  }

  // ---------------------------------------------------------------------
  // Bits and bytes

  /** The bit a measured high pulse stands for. */
  function Bit(width: nat): (b: int) {
    if width > BitThresholdUs then 1 else 0
  }

  /** The threshold lies between the nominal widths of a 0 and a 1 (about
      30 and 70 microseconds): a pulse up to 10 microseconds longer than a
      nominal 0 still reads as 0, one up to 29 microseconds shorter than a
      nominal 1 still reads as 1, and neither margin is any wider. */
  lemma BitMargins(width: nat)
    ensures width <= ZeroWidthUs + 10 ==> Bit(width) == 0
    ensures width >= OneWidthUs - 29 ==> Bit(width) == 1
    ensures Bit(ZeroWidthUs + 11) == 1 && Bit(OneWidthUs - 30) == 0
  {
  }

  function Pow2(n: nat): (p: nat) {
    if n == 0 then 1 else 2 * Pow2(n - 1)
  }

  predicate IsBits(bs: seq<int>) {
    forall i :: 0 <= i < |bs| ==> bs[i] == 0 || bs[i] == 1
  }

  /** Accumulates bits into a number the way the driver does: every new bit
      shifts the earlier ones one place to the left. */
  function Pack(bs: seq<int>): (v: int)
    decreases |bs|
  {
    if |bs| == 0 then 0 else 2 * Pack(bs[..|bs| - 1]) + bs[|bs| - 1]
  }

  /** The n-digit binary expansion of b, most significant digit first. */
  function ToBits(b: nat, n: nat): (r: seq<int>)
    ensures |r| == n && IsBits(r)
    decreases n
  {
    if n == 0 then [] else ToBits(b / 2, n - 1) + [b % 2]
  }

  lemma {:induction false} PackToBits(b: nat, n: nat)
    requires b < Pow2(n)
    ensures Pack(ToBits(b, n)) == b
    decreases n
  {
    if n > 0 {
      var bs := ToBits(b, n);
      assert bs[..n - 1] == ToBits(b / 2, n - 1);
      PackToBits(b / 2, n - 1);
    }
  }

  lemma {:induction false} ToBitsPack(bs: seq<int>)
    requires IsBits(bs)
    ensures 0 <= Pack(bs) < Pow2(|bs|)
    ensures ToBits(Pack(bs), |bs|) == bs
    decreases |bs|
  {
    if |bs| > 0 {
      var init := bs[..|bs| - 1];
      ToBitsPack(init);
      var p := Pack(bs);
      assert p / 2 == Pack(init) && p % 2 == bs[|bs| - 1];
      assert bs == init + [bs[|bs| - 1]];
    }
  }

  /** The bits a sequence of measured pulses stands for. */
  function BitsOf(slots: seq<BitSlot>): (r: seq<int>)
    ensures |r| == |slots| && IsBits(r)
  {
    seq(|slots|, i requires 0 <= i < |slots| => Bit(slots[i].width))
  }

  lemma BitsOfSlice(slots: seq<BitSlot>, a: nat, b: nat)
    requires a <= b <= |slots|
    ensures BitsOf(slots)[a..b] == BitsOf(slots[a..b])
  {
  }

  /** Forty bits grouped into five bytes, eight bits each, most
      significant first. */
  function Frame(bs: seq<int>): (r: seq<int>)
    requires |bs| == FrameBits
    ensures |r| == FrameBytes
  {
    seq(FrameBytes, k requires 0 <= k < FrameBytes => Pack(bs[8 * k..8 * k + 8]))
  }

  /** Every frame byte is a byte, and bit i of the stream is bit i % 8
      (counted from the most significant end) of byte i / 8. */
  lemma {:induction false} FrameLayout(bs: seq<int>)
    requires |bs| == FrameBits && IsBits(bs)
    ensures forall k :: 0 <= k < FrameBytes ==> 0 <= Frame(bs)[k] < 256
    ensures forall i :: 0 <= i < FrameBits ==> ToBits(Frame(bs)[i / 8], 8)[i % 8] == bs[i]
  {
    forall k | 0 <= k < FrameBytes
      ensures 0 <= Frame(bs)[k] < 256 && ToBits(Frame(bs)[k], 8) == bs[8 * k..8 * k + 8]
    {
      ToBitsPack(bs[8 * k..8 * k + 8]);
    }
    forall i | 0 <= i < FrameBits
      ensures ToBits(Frame(bs)[i / 8], 8)[i % 8] == bs[i]
    {
      var k := i / 8;
      assert 8 * k <= i < 8 * k + 8;
      assert ToBits(Frame(bs)[k], 8) == bs[8 * k..8 * k + 8];
    }
  }

  /** The additive checksum over the first four bytes, truncated to 8 bits. */
  function Checksum(d: seq<int>): (c: int)
    requires |d| == FrameBytes
  {
    (d[0] + d[1] + d[2] + d[3]) % 256
  }

  /** The checksum catches every frame corrupted in exactly one of its
      four data bytes: the two checksums differ. */
  lemma ChecksumDetects(d: seq<int>, e: seq<int>, k: int)
    requires IsFrame(d) && IsFrame(e) && 0 <= k < 4
    requires d[k] != e[k]
    requires forall j :: 0 <= j < 4 && j != k ==> d[j] == e[j]
    ensures Checksum(d) != Checksum(e)
  {
    var x, y := d[0] + d[1] + d[2] + d[3], e[0] + e[1] + e[2] + e[3];
    assert x - y == d[k] - e[k];
    assert 0 < x - y < 256 || -256 < x - y < 0;
    assert x == 256 * (x / 256) + x % 256 && y == 256 * (y / 256) + y % 256;
  }

  // ---------------------------------------------------------------------
  // One read attempt

  predicate Acknowledged(bus: BusTrace) {
    bus.ackLow && bus.ackHigh && bus.ackEnd
  }

  predicate AllBitsArrive(slots: seq<BitSlot>) {
    |slots| >= FrameBits && forall i :: 0 <= i < FrameBits ==> slots[i].rose
  }

  /** The data-bit loop as the driver runs it: one shift-in per bit into
      the current byte, moving to the next byte after eight bits. */
  method ReadBits(slots: seq<BitSlot>) returns (err: EspErr, data: seq<int>)
    ensures err == EspOk || err == ErrTimeout
    ensures err == EspOk <==> AllBitsArrive(slots)
    ensures err == EspOk ==> data == Frame(BitsOf(slots[..FrameBits]))
  {
    data := [0, 0, 0, 0, 0];
    var bitIdx, byteIdx := 0, 0;
    var i := 0;
    while i < FrameBits
      invariant 0 <= i <= FrameBits
      invariant i == 8 * byteIdx + bitIdx && 0 <= bitIdx < 8
      invariant |data| == FrameBytes
      invariant i <= |slots| && forall k :: 0 <= k < i ==> slots[k].rose
      invariant forall k :: 0 <= k < byteIdx ==> data[k] == Shifted(slots[8 * k..8 * k + 8])
      invariant byteIdx < FrameBytes ==> data[byteIdx] == Shifted(slots[8 * byteIdx..i])
      invariant forall k :: byteIdx < k < FrameBytes ==> data[k] == 0
    {
      if i >= |slots| || !slots[i].rose {
        return ErrTimeout, data;
      }
      // byteIdx never passes the last byte inside the loop
      assert byteIdx < FrameBytes;
      assert slots[8 * byteIdx..i + 1][..i - 8 * byteIdx] == slots[8 * byteIdx..i];
      data := data[byteIdx := data[byteIdx] * 2 + Bit(slots[i].width)];
      bitIdx := bitIdx + 1;
      if bitIdx == 8 {
        bitIdx := 0;
        byteIdx := byteIdx + 1;
      }
      i := i + 1;
    }
    err := EspOk;
    forall k | 0 <= k < FrameBytes
      ensures data[k] == Frame(BitsOf(slots[..FrameBits]))[k]
    {
      ShiftedBits(slots[8 * k..8 * k + 8]);
      BitsOfSlice(slots[..FrameBits], 8 * k, 8 * k + 8);
      assert slots[..FrameBits][8 * k..8 * k + 8] == slots[8 * k..8 * k + 8];
    }
  }

  /** The value the driver's shift register holds after the given pulses. */
  function Shifted(slots: seq<BitSlot>): (v: int)
    decreases |slots|
  {
    if |slots| == 0 then 0 else 2 * Shifted(slots[..|slots| - 1]) + Bit(slots[|slots| - 1].width)
  }

  lemma {:induction false} ShiftedBits(slots: seq<BitSlot>)
    ensures Shifted(slots) == Pack(BitsOf(slots))
    decreases |slots|
  {
    if |slots| > 0 {
      var n := |slots|;
      ShiftedBits(slots[..n - 1]);
      assert BitsOf(slots)[..n - 1] == BitsOf(slots[..n - 1]);
    }
  }

  /** Bytes 0 and 2 of a complete frame carry bits 0..7 and 16..23 of the
      stream, most significant first. */
  lemma {:induction false} IntegerBytes(slots: seq<BitSlot>)
    requires |slots| >= FrameBits
    ensures 0 <= Frame(BitsOf(slots[..FrameBits]))[0] < 256
    ensures 0 <= Frame(BitsOf(slots[..FrameBits]))[2] < 256
    ensures ToBits(Frame(BitsOf(slots[..FrameBits]))[0], 8) == BitsOf(slots[0..8])
    ensures ToBits(Frame(BitsOf(slots[..FrameBits]))[2], 8) == BitsOf(slots[16..24])
  {
    var bs := BitsOf(slots[..FrameBits]);
    ToBitsPack(bs[0..8]);
    ToBitsPack(bs[16..24]);
    BitsOfSlice(slots[..FrameBits], 0, 8);
    BitsOfSlice(slots[..FrameBits], 16, 24);
    assert slots[..FrameBits][0..8] == slots[0..8];
    assert slots[..FrameBits][16..24] == slots[16..24];
  }

  /** dht11_read_once: handshake, forty bits, checksum, then commit of the
      humidity and temperature integer bytes. Every failure returns before
      the record is touched. */
  function ReadOnce(s: Sensor, bus: BusTrace): (r: Attempt)
    ensures r.err == EspOk || r.err == ErrTimeout || r.err == ErrInvalidCrc
    ensures r.err != EspOk ==> r.sensor == s
    ensures r.sensor.gpio == s.gpio
    ensures r.err == ErrTimeout <==> !Acknowledged(bus) || !AllBitsArrive(bus.slots)
    ensures r.err == EspOk ==> Cached(r.sensor)
  {
    if !Acknowledged(bus) || !AllBitsArrive(bus.slots) then
      Attempt(ErrTimeout, s)
    else
      var data := Frame(BitsOf(bus.slots[..FrameBits]));
      // the sum is stored in a uint8_t, so masking it with 0xFF changes nothing
      if data[4] != Checksum(data) % 256 then
        Attempt(ErrInvalidCrc, s)
      else
        IntegerBytes(bus.slots);
        Attempt(EspOk, s.(humidity := data[0], temperature := data[2]))
  }

  /** A successful attempt stores as humidity the byte whose bits, most
      significant first, are the first eight pulses, and as temperature the
      byte made of pulses 16 to 23; pulses 8..15 and 24..39 only enter the
      checksum. */
  lemma ReadOnceCommitsBits(s: Sensor, bus: BusTrace)
    requires ReadOnce(s, bus).err == EspOk
    ensures ToBits(ReadOnce(s, bus).sensor.humidity, 8) == BitsOf(bus.slots[0..8])
    ensures ToBits(ReadOnce(s, bus).sensor.temperature, 8) == BitsOf(bus.slots[16..24])
  {
    var data := Frame(BitsOf(bus.slots[..FrameBits]));
    assert ReadOnce(s, bus).sensor == s.(humidity := data[0], temperature := data[2]);
    IntegerBytes(bus.slots);
  }

  // ---------------------------------------------------------------------
  // A reference encoder: the sensor's side of the protocol

  /** Nominal high-pulse widths a DHT11 sends for a 0 and a 1 bit. */
  const ZeroWidthUs := 30
  const OneWidthUs := 70

  predicate IsFrame(d: seq<int>) {
    |d| == FrameBytes && forall k :: 0 <= k < FrameBytes ==> 0 <= d[k] < 256
  }

  /** The bus trace of a sensor that acknowledges and sends the five bytes. */
  function Transmit(d: seq<int>): (r: BusTrace)
    requires IsFrame(d)
  {
    BusTrace(true, true, true,
      seq(FrameBits, i requires 0 <= i < FrameBits =>
        BitSlot(true, if ToBits(d[i / 8], 8)[i % 8] == 1 then OneWidthUs else ZeroWidthUs)))
  }

  lemma {:induction false} DecodeTransmitted(d: seq<int>)
    requires IsFrame(d)
    ensures Frame(BitsOf(Transmit(d).slots)) == d
  {
    var bs := BitsOf(Transmit(d).slots);
    forall k | 0 <= k < FrameBytes
      ensures bs[8 * k..8 * k + 8] == ToBits(d[k], 8)
    {
      TransmittedByte(d, k);
    }
    FrameOfBytes(bs, d);
  }

  /** Forty bits whose octets spell out the bytes d form the frame d. */
  lemma FrameOfBytes(bs: seq<int>, d: seq<int>)
    requires |bs| == FrameBits && IsFrame(d)
    requires forall k :: 0 <= k < FrameBytes ==> bs[8 * k..8 * k + 8] == ToBits(d[k], 8)
    ensures Frame(bs) == d
  {
    var f := Frame(bs);
    forall k | 0 <= k < FrameBytes
      ensures f[k] == d[k]
    {
      ByteFits(d[k]);
      PackToBits(d[k], 8);
      assert f[k] == Pack(bs[8 * k..8 * k + 8]);
    }
    assert |f| == |d|;
  }

  lemma ByteFits(b: int)
    requires 0 <= b < 256
    ensures b < Pow2(8)
  {
    assert Pow2(8) == 256;
  }

  /** Pulses 8k to 8k+7 of a transmission carry byte k, most significant
      bit first. */
  lemma TransmittedByte(d: seq<int>, k: int)
    requires IsFrame(d) && 0 <= k < FrameBytes
    ensures BitsOf(Transmit(d).slots)[8 * k..8 * k + 8] == ToBits(d[k], 8)
  {
    var slots := Transmit(d).slots;
    var bits := ToBits(d[k], 8);
    forall j | 0 <= j < 8
      ensures BitsOf(slots)[8 * k + j] == bits[j]
    {
      OctetPosition(k, j);
      assert slots[8 * k + j].width == if bits[j] == 1 then OneWidthUs else ZeroWidthUs;
    }
  }

  lemma OctetPosition(k: int, j: int)
    requires 0 <= k && 0 <= j < 8
    ensures (8 * k + j) / 8 == k && (8 * k + j) % 8 == j
  {
  }

  /** A well-formed transmission is accepted exactly when its checksum byte
      is the sum of the other four modulo 256, and then humidity and
      temperature are bytes 0 and 2; otherwise it is a checksum error. */
  lemma ReadTransmitted(s: Sensor, d: seq<int>)
    requires IsFrame(d)
    ensures d[4] == (d[0] + d[1] + d[2] + d[3]) % 256 ==>
              ReadOnce(s, Transmit(d)) == Attempt(EspOk, s.(humidity := d[0], temperature := d[2]))
    ensures d[4] != (d[0] + d[1] + d[2] + d[3]) % 256 ==>
              ReadOnce(s, Transmit(d)) == Attempt(ErrInvalidCrc, s)
  {
    var bus := Transmit(d);
    assert Acknowledged(bus) && AllBitsArrive(bus.slots);
    assert bus.slots[..FrameBits] == bus.slots;
    DecodeTransmitted(d);
    ReadFrame(s, bus, d);
  }

  /** An attempt whose handshake and forty bits all arrive and spell out
      the bytes d succeeds exactly when d's checksum holds. */
  lemma ReadFrame(s: Sensor, bus: BusTrace, d: seq<int>)
    requires Acknowledged(bus) && AllBitsArrive(bus.slots) && IsFrame(d)
    requires Frame(BitsOf(bus.slots[..FrameBits])) == d
    ensures d[4] == (d[0] + d[1] + d[2] + d[3]) % 256 ==>
              ReadOnce(s, bus) == Attempt(EspOk, s.(humidity := d[0], temperature := d[2]))
    ensures d[4] != (d[0] + d[1] + d[2] + d[3]) % 256 ==>
              ReadOnce(s, bus) == Attempt(ErrInvalidCrc, s)
  {
    var sum := Checksum(d);
    assert 0 <= sum < 256 && sum % 256 == sum;
  }

  // ---------------------------------------------------------------------
  // dht11_read: up to three attempts

  datatype Tries = Tries(err: EspErr, sensor: Sensor, attempts: nat)

  /** The retry loop over the outcomes the attempts have: attempts i, i+1,
      ... are made in turn until one succeeds; `last` is the error to report
      when no attempt is left. Only the first `attempts` outcomes are
      looked at. */
  function RetryFrom(s: Sensor, outs: seq<Attempt>, i: nat, last: EspErr): (r: Tries)
    requires i <= |outs| && last != EspOk
    requires forall j :: 0 <= j < |outs| && outs[j].err != EspOk ==> outs[j].sensor == s
    ensures i <= r.attempts <= |outs|
    ensures r.err == EspOk <==> exists j :: i <= j < |outs| && outs[j].err == EspOk
    ensures r.err == EspOk ==>
              && i < r.attempts
              && outs[r.attempts - 1] == Attempt(EspOk, r.sensor)
              && forall j :: i <= j < r.attempts - 1 ==> outs[j].err != EspOk
    ensures r.err != EspOk ==>
              && r.attempts == |outs|
              && r.sensor == s
              && r.err == (if i == |outs| then last else outs[|outs| - 1].err)
    decreases |outs| - i
  {
    if i == |outs| then Tries(last, s, i)
    else
      var a := outs[i];
      if a.err == EspOk then Tries(EspOk, a.sensor, i + 1)
      else RetryFrom(a.sensor, outs, i + 1, a.err)
  }

  /** The pause after every failed attempt. */
  const RetryDelayMs := 100

  /** The retry loop as dht11_read runs it: attempt i reads the line with
      the record the earlier attempts left, and the loop stops at the first
      success; `last` is the error to report when no attempt is left. */
  function Retry(s: Sensor, buses: seq<BusTrace>, i: nat, last: EspErr): (r: Tries)
    requires i <= |buses|
    decreases |buses| - i
  {
    if i == |buses| then Tries(last, s, i)
    else
      var a := ReadOnce(s, buses[i]);
      if a.err == EspOk then Tries(EspOk, a.sensor, i + 1)
      else Retry(a.sensor, buses, i + 1, a.err)
  }

  /** Running the attempts one after the other, each on the record the
      previous one left, comes to the same as looking at the outcomes every
      attempt would have on the record the read started with: a failed
      attempt leaves the record as it was. */
  lemma {:induction false} RetryInOrder(s: Sensor, buses: seq<BusTrace>, i: nat, last: EspErr)
    requires i <= |buses| && last != EspOk
    ensures Retry(s, buses, i, last) == RetryFrom(s, Outcomes(s, buses), i, last)
    decreases |buses| - i
  {
    if i < |buses| {
      var a := ReadOnce(s, buses[i]);
      if a.err != EspOk {
        RetryInOrder(s, buses, i + 1, a.err);
      }
    }
  }

  /** What dht11_read returns and leaves behind; `waitedMs` is the time it
      spends in its retry pauses. */
  datatype Reading = Reading(err: EspErr, sensor: Sensor, led: RgbLed.Led, attempts: nat, waitedMs: nat)

  /** The outcome each attempt would have if it started from the record `s`. */
  function Outcomes(s: Sensor, buses: seq<BusTrace>): (outs: seq<Attempt>)
    ensures |outs| == |buses|
    ensures forall j :: 0 <= j < |buses| ==> outs[j] == ReadOnce(s, buses[j])
  {
    seq(|buses|, j requires 0 <= j < |buses| => ReadOnce(s, buses[j]))
  }

  /** dht11_read. `buses` holds what the line does on each of the three
      possible attempts; attempts after the first success never happen.
      Success shows the "read" colour, total failure raises the error
      indicator and returns the last attempt's error, never ESP_FAIL. */
  function Read(s: Sensor, led: RgbLed.Led, buses: seq<BusTrace>): (r: Reading)
    requires |buses| == MaxAttempts && RgbLed.Valid(led)
    ensures 1 <= r.attempts <= MaxAttempts
    ensures r.sensor.gpio == s.gpio && RgbLed.Valid(r.led)
    ensures r.err == EspOk <==> exists j :: 0 <= j < MaxAttempts && Outcomes(s, buses)[j].err == EspOk
    ensures r.err == EspOk ==>
              && Outcomes(s, buses)[r.attempts - 1] == Attempt(EspOk, r.sensor)
              && (forall j :: 0 <= j < r.attempts - 1 ==> Outcomes(s, buses)[j].err != EspOk)
              && RgbLed.Ready(r.led)
              && RgbLed.ColorOf(r.led) == RgbLed.StatusColor(RgbLed.Dht11Read)
              && r.led.blinkTasks == led.blinkTasks
    ensures r.err != EspOk ==>
              && r.attempts == MaxAttempts
              && r.err == Outcomes(s, buses)[MaxAttempts - 1].err
              && r.sensor == s
              && r.led.blinkTasks == led.blinkTasks + 1
    ensures r.err == EspOk ==> Cached(r.sensor)
    ensures r.err != EspFail
    ensures r.err == EspOk ==> r.waitedMs == RetryDelayMs * (r.attempts - 1)
    ensures r.err != EspOk ==> r.waitedMs == RetryDelayMs * MaxAttempts
  {
    var t := Retry(s, buses, 0, EspFail);
    RetryInOrder(s, buses, 0, EspFail);
    if t.err == EspOk then
      Reading(EspOk, t.sensor, RgbLed.Signal(led, RgbLed.Dht11Read), t.attempts, RetryDelayMs * (t.attempts - 1))
    else
      Reading(t.err, t.sensor, RgbLed.Error(led), t.attempts, RetryDelayMs * t.attempts)
  }

  /** After dht11_read the getters report the last accepted reading: on
      success the bytes of the successful attempt's pulses 0..7 and 16..23,
      on failure whatever they reported before. */
  lemma GettersReadBack(s: Sensor, led: RgbLed.Led, buses: seq<BusTrace>, fahrenheit: bool)
    requires |buses| == MaxAttempts && RgbLed.Valid(led)
    ensures var r := Read(s, led, buses);
      && (r.err == EspOk ==>
            && ToBits(GetHumidity(r.sensor), 8) == BitsOf(buses[r.attempts - 1].slots[0..8])
            && ToBits(GetTemperature(r.sensor, false), 8) == BitsOf(buses[r.attempts - 1].slots[16..24]))
      && (r.err != EspOk ==>
            && GetHumidity(r.sensor) == GetHumidity(s)
            && GetTemperature(r.sensor, fahrenheit) == GetTemperature(s, fahrenheit))
  {
    var r := Read(s, led, buses);
    if r.err == EspOk {
      ReadOnceCommitsBits(s, buses[r.attempts - 1]);
    }
  }

  // ---------------------------------------------------------------------
  // Getters

  /** dht11_celsius_to_fahrenheit, in exact arithmetic. */
  function CelsiusToFahrenheit(c: int): (f: real)
    ensures (f - 32.0) * 5.0 / 9.0 == c as real
    ensures c >= 0 ==> f >= 32.0
  {
    (c as real) * 9.0 / 5.0 + 32.0
  }

  /** C's conversion of a floating value to int: truncation toward zero. */
  function Trunc(x: real): (r: int)
    ensures x >= 0.0 ==> r as real <= x < r as real + 1.0
    ensures x < 0.0 ==> r as real - 1.0 < x <= r as real
  {
    if x >= 0.0 then x.Floor else -((-x).Floor)
  }

  /** dht11_get_temperature: the cached Celsius value, or its Fahrenheit
      conversion truncated to an int. */
  function GetTemperature(s: Sensor, fahrenheit: bool): (r: int)
    ensures !fahrenheit ==> r == s.temperature
    ensures fahrenheit && 0 <= s.temperature < 256 ==> r == 32 + 9 * s.temperature / 5
    ensures fahrenheit && 0 <= s.temperature < 256 ==> 32 <= r <= 491
  {
    if fahrenheit then
      var c := s.temperature;
      if 0 <= c < 256 then
        FahrenheitOfByte(c);
        Trunc(CelsiusToFahrenheit(c))
      else
        Trunc(CelsiusToFahrenheit(c))
    else s.temperature
  }

  lemma FahrenheitOfByte(c: int)
    requires 0 <= c < 256
    ensures Trunc(CelsiusToFahrenheit(c)) == 32 + 9 * c / 5
    ensures 32 <= 32 + 9 * c / 5 <= 491
  {
    assert 0 <= 9 * c <= 2295;
    var q, m := 9 * c / 5, 9 * c % 5;
    assert 9 * c == 5 * q + m && 0 <= m < 5;
    assert CelsiusToFahrenheit(c) == (q + 32) as real + (m as real) / 5.0;
  }

  /** dht11_get_humidity: the cached value. */
  function GetHumidity(s: Sensor): (h: int) {
    s.humidity
  }

  lemma FahrenheitExamples(g: int, h: int)
    ensures GetTemperature(Sensor(g, 0, h), true) == 32
    ensures GetTemperature(Sensor(g, 25, h), true) == 77
    ensures GetTemperature(Sensor(g, 100, h), true) == 212
  {
  }
}
