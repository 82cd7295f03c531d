/** One wake of the sensor node from deep sleep: the time spent asleep, the
    dispatch on the wake cause (a button on the EXT1 pins starts
    provisioning), then either waiting for provisioning to finish or
    sampling the sensor and publishing, and finally recording the time the
    node goes back to sleep. Waking from deep sleep reboots the chip: only
    the keep-alive counter, the sleep entry time and the MQTT transaction
    code live in RTC memory, and the Wi-Fi credentials in NVS; every other
    global starts from zero. */
module DeepSleep {

  import opened Util
  import opened Sht3xCommands
  import Sht3xFrame
  import Sht3xDriver
  import Sht3xWarning
  import Mqtt
  import WifiProv

  const UsPerSecond: nat := 1000000
  /** The GPIO of the wake button. */
  const WakeupPin: nat := 2
  const SensorBus: nat := 0
  /** The sensor's address with its ADDR pin low. */
  const SensorAddress: nat := 0x44

  // ----- Keep-alive counter -----

  type uint8 = x: int | 0 <= x < 256

  /** `send_keep_alive` on the RTC counter: the 8-bit counter is incremented
      (wrapping), and when it reaches 2 it is cleared and a keep-alive is
      due. The result is the new counter and whether a keep-alive is sent. */
  function KeepAliveStep(counter: uint8): (r: (uint8, bool))
    ensures r.0 < 2
    ensures counter < 2 ==> r.0 == 1 - counter && (r.1 <==> counter == 1)
  {
    var next := (counter + 1) % 256;
    if next >= 2 then (0, true) else (next, false)
  }

  /** `send_keep_alive` with its publication: from a counter of 0 the
      counter becomes 1 and nothing is sent; from 1 it returns to 0 and one
      keep-alive is published. */
  function SendKeepAlive(counter: uint8, pub: Mqtt.Publisher): (r: (uint8, Mqtt.Publisher))
    ensures r.0 < 2
    ensures counter < 2 ==>
              r.0 == 1 - counter
              && r.1 == (if counter == 1 then Mqtt.Publish(pub, Mqtt.KeepAlive) else pub)
  {
    var (next, due) := KeepAliveStep(counter);
    (next, if due then Mqtt.Publish(pub, Mqtt.KeepAlive) else pub)
  }

  /** The counter after `n` calls and the number of keep-alives sent. */
  function KeepAliveRun(counter: uint8, n: nat): (r: (uint8, nat))
    ensures r.0 < 2 || (n == 0 && r.0 == counter)
    decreases n
  {
    if n == 0 then (counter, 0)
    else
      var (next, due) := KeepAliveStep(counter);
      var rest := KeepAliveRun(next, n - 1);
      (rest.0, rest.1 + (if due then 1 else 0))
  }

  /** A keep-alive goes out on every second call: from a counter of 0 or 1,
      `n` calls leave the counter at `(counter + n) mod 2` and send
      `(counter + n) div 2` keep-alives. From the zeroed RTC counter that is
      `n div 2`. */
  lemma {:induction false} EveryOtherWake(counter: uint8, n: nat)
    requires counter < 2
    ensures KeepAliveRun(counter, n) == ((counter + n) % 2, (counter + n) / 2)
    decreases n
  {
    if n > 0 {
      EveryOtherWake(KeepAliveStep(counter).0, n - 1);
    }
  }

  // ----- Sampling and publishing -----

  /** The bus replies one `send_data` sees: allocation and initialisation of
      the sensor, then the measurement started at `start` and fetched at
      `fetch` (both in the driver's microsecond clock). */
  datatype SensorReplies = SensorReplies(
    allocOk: bool, junk: Repeat, init: Sht3xDriver.InitReplies,
    start: Sht3xDriver.uint32, fetch: Sht3xDriver.uint32, measure: Sht3xDriver.MeasureReplies)

  predicate RepliesFit(rs: SensorReplies) {
    |rs.init.resetStatusRead.bytes| == 3 && |rs.init.statusRead.bytes| == 3
    && |rs.measure.read.bytes| == Sht3xFrame.FrameSize
  }

  function Init(rs: SensorReplies): Option<Sht3xDriver.Device>
    requires RepliesFit(rs)
  {
    Sht3xDriver.InitSensor(SensorBus, SensorAddress, rs.allocOk, rs.junk, rs.init)
  }

  /** What `send_data` leaves behind: the sensor status flag (1 when the
      sensor could not be initialised), the last reading, the warning code
      computed if the warning check ran, and the publisher. */
  datatype DataResult = DataResult(
    status: bool, reading: Sht3xFrame.Reading, checked: Option<nat>, pub: Mqtt.Publisher)

  /** The two telemetry messages of a reading, temperature first. */
  function Telemetry(m: Sht3xFrame.Reading): (ps: seq<Mqtt.Payload>)
    ensures |ps| == 2 && ps[0].Quantity? && ps[1].Quantity?
    ensures ps[0].value == m.temperature && ps[1].value == m.humidity
  {
    [Mqtt.Quantity("bee_temp", m.temperature), Mqtt.Quantity("bee_humi", m.humidity)]
  }

  /** `send_data`. `status` and `reading` are the values the globals held
      before the call. */
  function SendData(status: bool, reading: Sht3xFrame.Reading, pub: Mqtt.Publisher, rs: SensorReplies): (r: DataResult)
    requires RepliesFit(rs)
    ensures Init(rs).None? ==>
              r.status && r.reading == reading && r.pub == pub
              && r.checked == Some(Sht3xWarning.CheckWarning(reading.temperature, reading.humidity))
    ensures Init(rs).Some? ==>
              var m := Sht3xDriver.Measure(Init(rs).value, rs.start, rs.fetch, rs.measure).reading;
              (m.Some? ==> !r.status && r.reading == m.value
                           && r.pub == Mqtt.PublishAll(pub, Telemetry(m.value))
                           && r.checked == Some(Sht3xWarning.CheckWarning(m.value.temperature, m.value.humidity)))
              && (m.None? ==> r == DataResult(status, reading, None, pub))
  {
    match Init(rs)
    case None =>
      DataResult(true, reading, Some(Sht3xWarning.CheckWarning(reading.temperature, reading.humidity)), pub)
    case Some(d) =>
      var m := Sht3xDriver.Measure(d, rs.start, rs.fetch, rs.measure);
      match m.reading
      case None => DataResult(status, reading, None, pub)
      case Some(v) =>
        DataResult(false, v, Some(Sht3xWarning.CheckWarning(v.temperature, v.humidity)),
                   Mqtt.PublishAll(pub, Telemetry(v)))
  }

  /** Telemetry goes out exactly when the sensor was initialised and its
      frame arrived on time with both checksums right; what goes out is the
      frame's reading, in range, under the next two transaction codes. */
  lemma TelemetryOnlyFromValidFrames(status: bool, reading: Sht3xFrame.Reading, pub: Mqtt.Publisher, rs: SensorReplies)
    requires RepliesFit(rs)
    ensures var r := SendData(status, reading, pub, rs);
            (r.pub != pub <==>
               Init(rs).Some? && rs.measure.start == Sht3xDriver.BusOk
               && Sht3xDriver.Elapsed(rs.start, rs.fetch) >= MeasDurationUs(High)
               && rs.measure.read.status == Sht3xDriver.BusOk
               && Sht3xFrame.FrameValid(Sht3xFrame.ParseFrame(rs.measure.read.bytes)))
    ensures var r := SendData(status, reading, pub, rs);
            r.pub != pub ==>
              r.reading == Sht3xFrame.ComputeValues(rs.measure.read.bytes)
              && -45.0 <= r.reading.temperature <= 130.0 && 0.0 <= r.reading.humidity <= 100.0
              && r.pub.sent == pub.sent + Mqtt.Stamped(pub, Telemetry(r.reading))
              && r.pub.transCode == (pub.transCode + 2) % 256
  {
    var r := SendData(status, reading, pub, rs);
    if Init(rs).Some? {
      var m := Sht3xDriver.Measure(Init(rs).value, rs.start, rs.fetch, rs.measure).reading;
      if m.Some? {
        Mqtt.TransCodesCount(pub, Telemetry(m.value));
        assert |r.pub.sent| == |pub.sent| + 2;
      }
    }
  }

  /** A failed measurement leaves everything as it was: no telemetry, no
      warning check, and the status flag is not touched. */
  lemma MeasureFailureIsSilent(status: bool, reading: Sht3xFrame.Reading, pub: Mqtt.Publisher, rs: SensorReplies)
    requires RepliesFit(rs)
    requires Init(rs).Some? && rs.measure.start != Sht3xDriver.BusOk
    ensures SendData(status, reading, pub, rs) == DataResult(status, reading, None, pub)
  {
  }

  // ----- Wake cause -----

  /** `__builtin_ffsll(mask) - 1`: the index of the lowest set bit. */
  function LowestSetBit(mask: nat): (k: nat)
    requires mask > 0
    ensures BitSet(mask, k)
    ensures forall j | 0 <= j < k :: !BitSet(mask, j)
    ensures Pow2(k) <= mask
    decreases mask
  {
    if mask % 2 == 1 then
      assert Pow2(0) == 1;
      0
    else
      var k := LowestSetBit(mask / 2);
      HalfBit(mask, k);
      EvenLowBits(mask, k);
      1 + k
  }

  /** Bit `j + 1` of `n` is bit `j` of `n / 2`. */
  lemma HalfBit(n: nat, j: nat)
    ensures BitSet(n, j + 1) == BitSet(n / 2, j)
  {
    HalveTwice(n, Pow2(j));
  }

  /** An even number has bit 0 clear, and its bits above are those of its
      half. */
  lemma EvenLowBits(n: nat, k: nat)
    requires n % 2 == 0
    requires forall j | 0 <= j < k :: !BitSet(n / 2, j)
    ensures forall j | 0 <= j < k + 1 :: !BitSet(n, j)
  {
    forall j | 0 <= j < k + 1
      ensures !BitSet(n, j)
    {
      if j == 0 {
        assert Pow2(0) == 1;
      } else {
        HalfBit(n, j - 1);
      }
    }
  }

  /** Halving and then dividing by `p` is dividing by `2 * p`. */
  lemma HalveTwice(m: nat, p: nat)
    requires p > 0
    ensures (m / 2) / p == m / (2 * p)
  {
    var q, r := m / 2, m % 2;
    var q2, r2 := q / p, q % p;
    assert m == 2 * q + r;
    assert q == p * q2 + r2;
    assert m == (2 * p) * q2 + (2 * r2 + r);
    DivUnique(m, 2 * p, q2, 2 * r2 + r);
  }

  lemma DivUnique(m: nat, d: nat, q: nat, r: nat)
    requires d > 0 && r < d && m == d * q + r
    ensures m / d == q
  {
    var q', r' := m / d, m % d;
    assert d * q' + r' == d * q + r;
    assert d * (q - q') == r' - r;
    MulAwayFromZero(d, q - q');
  }

  /** A nonzero multiple of `d` is at least `d` away from zero. */
  lemma MulAwayFromZero(d: int, x: int)
    requires d >= 0
    ensures x >= 1 ==> d * x >= d
    ensures x <= -1 ==> d * x <= -d
  {
    if x >= 1 {
      assert d * x == d + d * (x - 1);
    }
    if x <= -1 {
      assert d * x == -d + d * (x + 1);
    }
  }

  /** A mask with only the button's bit set names the button's pin. */
  lemma {:induction false} SinglePinReported(k: nat)
    ensures LowestSetBit(Pow2(k)) == k
    decreases k
  {
    if k > 0 {
      SinglePinReported(k - 1);
      assert Pow2(k) % 2 == 0 && Pow2(k) / 2 == Pow2(k - 1);
    }
  }

  datatype WakeCause = TimerWake | Ext1Wake(mask: nat) | OtherWake

  /** The wake-cause switch: an EXT1 wake with some pin high reports the
      lowest such pin and starts provisioning; anything else starts
      nothing. */
  function OnWake(cause: WakeCause, prov: WifiProv.ProvState, mac: seq<bv8>): (r: (Option<nat>, WifiProv.ProvState))
    requires |mac| == 6
    ensures r.0.Some? <==> cause.Ext1Wake? && cause.mask != 0
    ensures r.0.Some? ==> BitSet(cause.mask, r.0.value)
                          && (forall j | 0 <= j < r.0.value :: !BitSet(cause.mask, j))
                          && r.1 == WifiProv.StartProvisioning(prov, mac)
    ensures r.0.None? ==> r.1 == prov
  {
    match cause
    case Ext1Wake(mask) =>
      if mask != 0 then (Some(LowestSetBit(mask)), WifiProv.StartProvisioning(prov, mac))
      else (None, prov)
    case _ => (None, prov)
  }

  // ----- Sleep duration -----

  /** A `struct timeval`. */
  datatype TimeVal = TimeVal(sec: int, usec: nat)

  predicate Normal(t: TimeVal) {
    t.usec < UsPerSecond
  }

  /** C's `/` on `int`, which truncates toward zero: the remainder left
      over has the sign of the dividend and is smaller than the divisor. */
  function TruncDiv(a: int, b: nat): (q: int)
    requires b > 0
    ensures a >= 0 ==> 0 <= a - q * b < b
    ensures a < 0 ==> -(b as int) < a - q * b <= 0
  {
    if a >= 0 then a / b else -((-a) / b)
  }

  /** The logged sleep time in milliseconds: whole seconds times 1000 plus
      the microsecond difference divided by 1000, truncated. */
  function SleepTimeMs(enter: TimeVal, now: TimeVal): int
  {
    (now.sec - enter.sec) * 1000 + TruncDiv(now.usec - enter.usec, 1000)
  }

  function ElapsedUs(enter: TimeVal, now: TimeVal): int {
    (now.sec - enter.sec) * UsPerSecond + (now.usec - enter.usec)
  }

  /** The logged time is the true time to within one millisecond: it never
      errs by 1000 microseconds or more. */
  lemma SleepTimeAccurate(enter: TimeVal, now: TimeVal)
    requires Normal(enter) && Normal(now)
    ensures -1000 < SleepTimeMs(enter, now) * 1000 - ElapsedUs(enter, now) < 1000
  {
    var d := now.usec - enter.usec;
    var q := TruncDiv(d, 1000);
    assert SleepTimeMs(enter, now) * 1000 - ElapsedUs(enter, now) == q * 1000 - d;
    if d >= 0 {
      assert d == 1000 * (d / 1000) + d % 1000;
    } else {
      assert -d == 1000 * ((-d) / 1000) + (-d) % 1000;
    }
  }

  // ----- The wake cycle -----

  /** The node's state at the end of a wake: the RTC keep-alive counter and
      sleep entry time, the sensor status flag and last reading, the
      publisher (whose transaction code is in RTC memory; its `sent` is the
      record of every message published so far) and the provisioning
      state (whose `stored` credentials are in NVS). */
  datatype Node = Node(
    counter: uint8, sleepEnter: TimeVal, status: bool, reading: Sht3xFrame.Reading,
    pub: Mqtt.Publisher, prov: WifiProv.ProvState)

  /** The reading the zero-initialised globals `fTemp` and `fHumi` hold. */
  const ZeroReading: Sht3xFrame.Reading := Sht3xFrame.Reading(0.0, 0.0)

  /** The reboot that ends deep sleep: what is in RTC memory or NVS
      survives, while the sensor status, the last reading, the provisioning
      latch and the task handles are ordinary globals and start over. */
  function Reboot(n: Node): (m: Node)
    ensures m.counter == n.counter && m.sleepEnter == n.sleepEnter && m.pub == n.pub
    ensures m.prov.stored == n.prov.stored
    ensures !m.prov.latched && m.prov.timeoutTask.None? && m.prov.failTask.None?
    ensures !m.status && m.reading == ZeroReading
    ensures WifiProv.Valid(n.prov) ==> WifiProv.Valid(m.prov)
  {
    n.(status := false, reading := ZeroReading, prov := WifiProv.Boot.(stored := n.prov.stored))
  }

  /** Everything a wake depends on: its cause, the clock on waking, the MAC
      address, the sensor's replies, the provisioning inputs that arrive
      while the task waits for the latch, and the clock on going to sleep. */
  datatype WakeInputs = WakeInputs(
    cause: WakeCause, now: TimeVal, mac: seq<bv8>, sensor: SensorReplies,
    provInputs: seq<WifiProv.Input>, sleepAt: TimeVal)

  predicate InputsFit(w: WakeInputs) {
    |w.mac| == 6 && RepliesFit(w.sensor)
    && forall k | 0 <= k < |w.provInputs| :: WifiProv.WellFormed(w.provInputs[k])
  }

  /** The result of one wake: the node afterwards, the pin reported, the
      sleep time logged, and whether the node went back to sleep (it does
      not while provisioning is still latched). */
  datatype Cycle = Cycle(node: Node, pin: Option<nat>, sleptMs: int, sleeps: bool)

  /** `deep_sleep_task`, run after the reboot that ends deep sleep. */
  function Wake(n: Node, w: WakeInputs): (c: Cycle)
    requires InputsFit(w)
    ensures c.sleptMs == SleepTimeMs(n.sleepEnter, w.now)
    ensures c.sleeps ==> c.node.sleepEnter == w.sleepAt
    ensures !c.sleeps ==> c.node.sleepEnter == n.sleepEnter
    ensures c.sleeps ==> !c.node.prov.latched
    ensures c.node.prov.stored != n.prov.stored ==> w.cause.Ext1Wake? && w.cause.mask != 0
  {
    var b := Reboot(n);
    var ms := SleepTimeMs(b.sleepEnter, w.now);
    var (pin, prov) := OnWake(w.cause, b.prov, w.mac);
    if prov.latched then
      var after := WifiProv.Run(prov, w.provInputs);
      var waited := b.(prov := after);
      if after.latched then Cycle(waited, pin, ms, false)
      else Cycle(waited.(sleepEnter := w.sleepAt), pin, ms, true)
    else
      var d := SendData(b.status, b.reading, b.pub, w.sensor);
      var (counter, pub) := SendKeepAlive(b.counter, d.pub);
      Cycle(Node(counter, w.sleepAt, d.status, d.reading, pub, prov), pin, ms, true)
  }

  /** After the reboot the latch is clear, so a wake is latched exactly when
      it is a button wake: only that starts provisioning. */
  lemma LatchedExactlyOnButton(n: Node, w: WakeInputs)
    requires InputsFit(w)
    ensures OnWake(w.cause, Reboot(n).prov, w.mac).1.latched <==> w.cause.Ext1Wake? && w.cause.mask != 0
  {
  }

  /** A latched wake samples nothing and publishes nothing, and the
      keep-alive counter does not move; the status and reading are those
      the reboot left. */
  lemma LatchBlocksSampling(n: Node, w: WakeInputs)
    requires InputsFit(w)
    requires OnWake(w.cause, Reboot(n).prov, w.mac).1.latched
    ensures Wake(n, w).node.pub == n.pub
    ensures Wake(n, w).node.counter == n.counter
    ensures Wake(n, w).node.reading == ZeroReading && !Wake(n, w).node.status
  {
  }

  /** A button wake always blocks sampling, and reports the lowest pin of
      its mask. */
  lemma ButtonWakeBlocksSampling(n: Node, w: WakeInputs)
    requires InputsFit(w)
    requires w.cause.Ext1Wake? && w.cause.mask != 0
    ensures Wake(n, w).node.pub == n.pub && Wake(n, w).node.counter == n.counter
    ensures Wake(n, w).pin == Some(LowestSetBit(w.cause.mask))
  {
    LatchedExactlyOnButton(n, w);
    LatchBlocksSampling(n, w);
  }

  /** The registered EXT1 mask selects only the button's GPIO: a wake by
      that mask reports the button's pin and starts provisioning under the
      device's service name. */
  lemma ButtonPinWake(n: Node, w: WakeInputs)
    requires InputsFit(w)
    requires w.cause == Ext1Wake(Pow2(WakeupPin))
    ensures Wake(n, w).pin == Some(WakeupPin)
    ensures var p := OnWake(w.cause, Reboot(n).prov, w.mac).1;
            p.latched && p.service == Some(WifiProv.ServiceName(w.mac))
  {
    SinglePinReported(WakeupPin);
  }

  /** Any other wake samples first and then counts towards the keep-alive:
      the telemetry, if any, precedes the keep-alive. The sampling starts
      from the zeroed globals. */
  lemma SampleThenKeepAlive(n: Node, w: WakeInputs)
    requires InputsFit(w)
    requires !(w.cause.Ext1Wake? && w.cause.mask != 0)
    ensures var d := SendData(false, ZeroReading, n.pub, w.sensor);
            Wake(n, w).node.pub == SendKeepAlive(n.counter, d.pub).1
            && Wake(n, w).node.counter == KeepAliveStep(n.counter).0
            && Wake(n, w).sleeps
  {
    LatchedExactlyOnButton(n, w);
  }
}
