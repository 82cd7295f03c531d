/** The SHT3x driver's device record and the operations that drive its
    flags: sending a command, reading bytes, starting a measurement, asking
    whether it is still running, fetching the raw frame, reading the status
    register, the soft reset, sensor initialisation and a complete
    single-shot measurement.

    The I2C bus is an oracle: every transfer the driver issues is answered
    by a reply passed in as a parameter (`BusOk`, `BusBusy` for `-EBUSY`,
    `BusError` for any other error code, and the bytes of a read). The
    microsecond clock is a parameter too. The driver's numeric error codes
    are not part of this model; the error code is the set of conditions the
    driver OR-s into it, with the empty set for `SHT3x_OK`. */
module Sht3xDriver {

  import opened Util
  import opened Sht3xCommands
  import opened Sht3xFrame

  datatype ErrorFlag =
    | I2cBusy | I2cSendCmdFailed | I2cReadFailed
    | SendMeasCmdFailed | SendFetchCmdFailed | ReadRawDataFailed
    | TemperatureCrcWrong | HumidityCrcWrong
    | SendStatusCmdFailed | SendResetCmdFailed
    | MeasNotStarted | MeasStillRunning

  type ErrorCode = set<ErrorFlag>

  datatype BusStatus = BusOk | BusBusy | BusError

  /** The answer to a read transfer: its status and the bytes received. */
  datatype ReadReply = ReadReply(status: BusStatus, bytes: seq<bv8>)

  /** The system clock in microseconds is an unsigned 32-bit counter. */
  type uint32 = x: int | 0 <= x < 0x1_0000_0000

  const ClockModulus: nat := 0x1_0000_0000

  datatype Device = Device(
    bus: nat,
    addr: nat,
    mode: Mode,
    repeatability: Repeat,
    measStartTime: uint32,
    measStarted: bool,
    measFirst: bool,
    errorCode: ErrorCode)

  /** The driver only ever marks a measurement as the first one of a run
      while that run is started. Every operation below keeps this. */
  predicate FlagsConsistent(d: Device) {
    d.measFirst ==> d.measStarted
  }

  /** The device apart from its error code. */
  predicate SameSettings(d: Device, e: Device) {
    d.(errorCode := {}) == e.(errorCode := {})
  }

  /** Microseconds between two clock readings, with the wrap-around of
      unsigned 32-bit subtraction. */
  function Elapsed(start: uint32, now: uint32): (e: uint32)
    ensures start <= now ==> e == now - start
    ensures now < start ==> e == now + ClockModulus - start
  {
    (now - start) % ClockModulus
  }

  /** However the clock wrapped, `k` microseconds after `start` the elapsed
      time is `k`. */
  lemma ElapsedAfter(start: uint32, k: uint32)
    ensures Elapsed(start, (start + k) % ClockModulus) == k
  {
    if start + k >= ClockModulus {
      assert (start + k) % ClockModulus == start + k - ClockModulus;
    }
  }

  /** The flag a failed transfer adds at the bus level: busy, or the
      operation's own failure. */
  function BusFlag(s: BusStatus, otherwise: ErrorFlag): (f: ErrorFlag)
    requires s != BusOk
    ensures f == I2cBusy <==> s == BusBusy || otherwise == I2cBusy
  {
    if s == BusBusy then I2cBusy else otherwise
  }

  /** A device after an operation, the operation's boolean result, and the
      command words it wrote to the bus, in order; each goes out as its
      `CommandBytes`, most significant byte first. */
  datatype Step = Step(dev: Device, ok: bool, written: seq<uint16>)

  /** `sht3x_send_command`: one two-byte write of the command, most
      significant byte first; on failure the bus-level flag is added to the
      error code and nothing else changes. */
  function SendCommand(d: Device, cmd: uint16, reply: BusStatus): (r: Step)
    ensures r.written == [cmd]
    ensures r.ok <==> reply == BusOk
    ensures SameSettings(d, r.dev)
    ensures d.errorCode <= r.dev.errorCode
    ensures r.dev.errorCode - d.errorCode <= {I2cBusy, I2cSendCmdFailed}
    ensures !r.ok ==> (I2cBusy in r.dev.errorCode <==> reply == BusBusy || I2cBusy in d.errorCode)
  {
    if reply == BusOk then Step(d, true, [cmd])
    else Step(d.(errorCode := d.errorCode + {BusFlag(reply, I2cSendCmdFailed)}), false, [cmd])
  }

  /** `sht3x_read_data`, as far as the device record is concerned. */
  function ReadData(d: Device, reply: ReadReply): (r: Step)
    ensures r.written == []
    ensures r.ok <==> reply.status == BusOk
    ensures SameSettings(d, r.dev)
    ensures d.errorCode <= r.dev.errorCode
    ensures r.dev.errorCode - d.errorCode <= {I2cBusy, I2cReadFailed}
  {
    if reply.status == BusOk then Step(d, true, [])
    else Step(d.(errorCode := d.errorCode + {BusFlag(reply.status, I2cReadFailed)}), false, [])
  }

  /** A started first measurement whose duration has not yet passed. */
  predicate StillRunning(d: Device, now: uint32) {
    d.measStarted && d.measFirst
    && Elapsed(d.measStartTime, now) < MeasDurationUs(d.repeatability)
  }

  /** `sht3x_is_measuring`: clears the error code and reports whether the
      measurement is still running. */
  function IsMeasuring(d: Device, now: uint32): (r: Step)
    ensures r.ok <==> StillRunning(d, now)
    ensures r.dev == d.(errorCode := {}) && r.written == []
  {
    var d' := d.(errorCode := {});
    if !d'.measStarted || !d'.measFirst then Step(d', false, [])
    else Step(d', Elapsed(d'.measStartTime, now) < MeasDurationUs(d'.repeatability), [])
  }

  /** `sht3x_start_measurement`: records mode and repeatability before the
      command goes out (so they change even when it fails), sends the
      command table's entry as the driver declares it, and on success marks
      the run started and first, stamped with the current time. */
  function StartMeasurement(d: Device, m: Mode, rep: Repeat, now: uint32, reply: BusStatus): (r: Step)
    ensures r.written == [MeasureCmdAsWritten(m, rep)]
    ensures r.ok <==> reply == BusOk
    ensures r.dev.mode == m && r.dev.repeatability == rep
    ensures r.dev.bus == d.bus && r.dev.addr == d.addr
    ensures r.ok ==> r.dev.measStarted && r.dev.measFirst && r.dev.measStartTime == now
    ensures r.ok ==> r.dev.errorCode == {}
    ensures !r.ok ==> r.dev.measStarted == d.measStarted && r.dev.measFirst == d.measFirst
                      && r.dev.measStartTime == d.measStartTime
    ensures !r.ok ==> SendMeasCmdFailed in r.dev.errorCode
    ensures FlagsConsistent(d) ==> FlagsConsistent(r.dev)
  {
    var d1 := d.(errorCode := {}, mode := m, repeatability := rep);
    var s := SendCommand(d1, MeasureCmdAsWritten(m, rep), reply);
    if !s.ok then Step(s.dev.(errorCode := s.dev.errorCode + {SendMeasCmdFailed}), false, s.written)
    else Step(s.dev.(measStartTime := now, measStarted := true, measFirst := true), true, s.written)
  }

  /** The start command on the bus is the intended one for every mode but
      periodic 4 per second at high repeatability, which puts 0x22 0x34 on
      the bus: not the byte pair of any measurement command. The firmware's
      own measurement (single shot, high) is unaffected. */
  lemma StartSendsTypo(d: Device, m: Mode, rep: Repeat, now: uint32, reply: BusStatus)
    ensures (m, rep) != (Periodic4, High) ==>
              StartMeasurement(d, m, rep, now, reply).written == [MeasureCmd(m, rep)]
    ensures (m, rep) == (Periodic4, High) ==>
              CommandBytes(StartMeasurement(d, m, rep, now, reply).written[0]) == [0x22, 0x34]
              && forall m': Mode, r': Repeat :: CommandBytes(MeasureCmd(m', r')) != [0x22, 0x34]
  {
    TypoIsTheOnlyDifference(m, rep);
    TableTypo(Periodic4, High);
    assert CommandBytes(0x2234) == [0x22, 0x34];
    forall m': Mode, r': Repeat ensures CommandBytes(MeasureCmd(m', r')) != [0x22, 0x34] {
      CommandBytesInjective(MeasureCmd(m', r'), 0x2234);
    }
  }

  /** The result of `sht3x_get_raw_data`: the device, the boolean result,
      and whether the driver went as far as reading the frame from the bus. */
  datatype RawResult = RawResult(dev: Device, ok: bool, readIssued: bool)

  /** Whether `sht3x_get_raw_data` gets past its start and running checks and
      the fetch command of the periodic modes. */
  predicate ReachesRead(d: Device, now: uint32, fetch: BusStatus) {
    d.measStarted && !StillRunning(d, now) && (d.mode == SingleShot || fetch == BusOk)
  }

  /** `sht3x_get_raw_data`. `fetch` answers the fetch command, which is only
      sent in a periodic mode; `read` answers the six-byte read. */
  function GetRawData(d: Device, now: uint32, fetch: BusStatus, read: ReadReply): (r: RawResult)
    requires |read.bytes| == FrameSize
    // accepted exactly when the frame was read and both checksums match
    ensures r.ok <==> ReachesRead(d, now, fetch) && read.status == BusOk
                      && FrameValid(ParseFrame(read.bytes))
    ensures r.readIssued <==> ReachesRead(d, now, fetch)
    // not started: the running check clears the error code again
    ensures !d.measStarted ==> r.dev == d.(errorCode := {})
    ensures StillRunning(d, now) ==> r.dev == d.(errorCode := {MeasStillRunning})
    ensures d.measStarted && !StillRunning(d, now) && d.mode != SingleShot && fetch != BusOk ==>
              r.dev == d.(errorCode := {BusFlag(fetch, I2cSendCmdFailed), SendFetchCmdFailed})
    ensures r.readIssued && read.status != BusOk ==>
              r.dev == d.(errorCode := {BusFlag(read.status, I2cReadFailed), ReadRawDataFailed})
    // after a successful read the first-measurement flag is down, and in
    // single-shot mode the run is over, whatever the checksums say
    ensures r.readIssued && read.status == BusOk ==>
              !r.dev.measFirst && (r.dev.measStarted <==> d.mode != SingleShot)
    ensures r.readIssued && read.status == BusOk ==>
              (r.dev.errorCode == {TemperatureCrcWrong} <==> !ValueValid(ParseFrame(read.bytes).temperature))
    ensures r.readIssued && read.status == BusOk ==>
              (r.dev.errorCode == {HumidityCrcWrong} <==>
                 ValueValid(ParseFrame(read.bytes).temperature) && !ValueValid(ParseFrame(read.bytes).humidity))
    ensures r.ok ==> r.dev.errorCode == {}
    ensures r.dev.mode == d.mode && r.dev.repeatability == d.repeatability
    ensures r.dev.measStartTime == d.measStartTime
    ensures FlagsConsistent(d) ==> FlagsConsistent(r.dev)
  {
    var d0 := d.(errorCode := {});
    if !d0.measStarted then
      var m := IsMeasuring(d0.(errorCode := {MeasNotStarted}), now);
      RawResult(m.dev, m.ok, false)
    else
      var m := IsMeasuring(d0, now);
      if m.ok then RawResult(m.dev.(errorCode := {MeasStillRunning}), false, false)
      else
        var d1 := m.dev;
        var f := if d1.mode != SingleShot then SendCommand(d1, FetchDataCmd, fetch) else Step(d1, true, []);
        if !f.ok then RawResult(f.dev.(errorCode := f.dev.errorCode + {SendFetchCmdFailed}), false, false)
        else
          var rd := ReadData(f.dev, read);
          if !rd.ok then RawResult(rd.dev.(errorCode := rd.dev.errorCode + {ReadRawDataFailed}), false, true)
          else
            var d2 := rd.dev.(measFirst := false);
            var d3 := if d2.mode == SingleShot then d2.(measStarted := false) else d2;
            match CheckFrame(read.bytes)
            case WrongCrcTemperature => RawResult(d3.(errorCode := d3.errorCode + {TemperatureCrcWrong}), false, true)
            case WrongCrcHumidity => RawResult(d3.(errorCode := d3.errorCode + {HumidityCrcWrong}), false, true)
            case CrcOk => RawResult(d3, true, true)
  }

  /** In single-shot mode a frame is fetched once per start: a second fetch
      fails without touching the bus, and leaves the error code clear. */
  lemma SingleShotFetchesOnce(d: Device, now: uint32, now': uint32, fetch: BusStatus, read: ReadReply,
                              fetch': BusStatus, read': ReadReply)
    requires |read.bytes| == FrameSize && |read'.bytes| == FrameSize
    requires d.mode == SingleShot
    requires GetRawData(d, now, fetch, read).ok
    ensures var again := GetRawData(GetRawData(d, now, fetch, read).dev, now', fetch', read');
            !again.ok && !again.readIssued && again.dev.errorCode == {}
  {
  }

  /** The result of `sht3x_get_status`: the device and the status word. */
  datatype StatusResult = StatusResult(dev: Device, status: Option<uint16>)

  /** `sht3x_get_status`: the status command, then a three-byte read whose
      first two bytes are the status word, most significant first. The
      status word's checksum is not checked, and no read is issued when
      the command fails. */
  function GetStatus(d: Device, send: BusStatus, read: ReadReply): (r: StatusResult)
    requires |read.bytes| == 3
    ensures r.status.Some? <==> send == BusOk && read.status == BusOk
    ensures r.status.Some? ==> CommandBytes(r.status.value) == read.bytes[..2]
    ensures r.status.Some? ==> r.dev.errorCode == {}
    ensures send != BusOk ==>
              r.dev.errorCode == {BusFlag(send, I2cSendCmdFailed), SendStatusCmdFailed}
    ensures send == BusOk && read.status != BusOk ==>
              r.dev.errorCode == {BusFlag(read.status, I2cReadFailed), SendStatusCmdFailed}
    ensures SameSettings(d, r.dev)
  {
    var d0 := d.(errorCode := {});
    var s := SendCommand(d0, StatusCmd, send);
    if !s.ok then StatusResult(s.dev.(errorCode := s.dev.errorCode + {SendStatusCmdFailed}), None)
    else
      var rd := ReadData(s.dev, read);
      if !rd.ok then StatusResult(rd.dev.(errorCode := rd.dev.errorCode + {SendStatusCmdFailed}), None)
      else StatusResult(rd.dev, Some(StatusWord(read.bytes)))
  }

  /** The status word: the first two bytes read, most significant first. */
  function StatusWord(bytes: seq<bv8>): (w: uint16)
    requires |bytes| >= 2
    ensures CommandBytes(w) == bytes[..2]
  {
    BigEndianRoundTrip(bytes[0], bytes[1]);
    BigEndian(bytes[0], bytes[1])
  }

  /** `sht3x_reset`: the reset command, then a status read to confirm. The
      status read is only issued when the reset command went out. */
  function Reset(d: Device, resetReply: BusStatus, statusSend: BusStatus, statusRead: ReadReply): (r: Step)
    requires |statusRead.bytes| == 3
    ensures r.ok <==> resetReply == BusOk && statusSend == BusOk && statusRead.status == BusOk
    ensures r.written == [ResetCmd] + (if resetReply == BusOk then [StatusCmd] else [])
    ensures resetReply != BusOk ==>
              r.dev.errorCode == {BusFlag(resetReply, I2cSendCmdFailed), SendResetCmdFailed}
    ensures resetReply == BusOk ==> r.dev == GetStatus(d, statusSend, statusRead).dev
    ensures SameSettings(d, r.dev)
  {
    var d0 := d.(errorCode := {});
    var s := SendCommand(d0, ResetCmd, resetReply);
    if !s.ok then Step(s.dev.(errorCode := s.dev.errorCode + {SendResetCmdFailed}), false, s.written)
    else
      var st := GetStatus(s.dev, statusSend, statusRead);
      Step(st.dev, st.status.Some?, s.written + [StatusCmd])
  }

  /** The bus replies seen while a sensor is initialised: the reset command
      and its status check, then the status check of initialisation itself. */
  datatype InitReplies = InitReplies(
    reset: BusStatus, resetStatusSend: BusStatus, resetStatusRead: ReadReply,
    statusSend: BusStatus, statusRead: ReadReply)

  /** `sht3x_init_sensor`: allocation can fail; the reset's result is
      ignored; only the final status check decides. The repeatability field
      is never written here, so it keeps whatever the allocation held,
      which is `junk`. */
  function InitSensor(bus: nat, addr: nat, allocOk: bool, junk: Repeat, replies: InitReplies): (r: Option<Device>)
    requires |replies.resetStatusRead.bytes| == 3 && |replies.statusRead.bytes| == 3
    ensures r.Some? <==> allocOk && replies.statusSend == BusOk && replies.statusRead.status == BusOk
    ensures r.Some? ==> r.value.bus == bus && r.value.addr == addr && r.value.mode == SingleShot
    ensures r.Some? ==> !r.value.measStarted && !r.value.measFirst && r.value.measStartTime == 0
    ensures r.Some? ==> r.value.errorCode == {}
    ensures r.Some? ==> FlagsConsistent(r.value)
  {
    if !allocOk then None
    else
      var d := Device(bus, addr, SingleShot, junk, 0, false, false, {});
      var rs := Reset(d, replies.reset, replies.resetStatusSend, replies.resetStatusRead);
      var st := GetStatus(rs.dev, replies.statusSend, replies.statusRead);
      if st.status.None? then None else Some(st.dev)
  }

  /** The bus replies seen during one `sht3x_measure`: the start command
      and the six-byte read (single-shot mode sends no fetch command). */
  datatype MeasureReplies = MeasureReplies(start: BusStatus, read: ReadReply)

  datatype MeasureResult = MeasureResult(dev: Device, reading: Option<Reading>)

  /** `sht3x_measure`: a single-shot, high-repeatability start at time
      `now`, a wait, then the frame fetch at time `later` and the
      conversion. */
  function Measure(d: Device, now: uint32, later: uint32, replies: MeasureReplies): (r: MeasureResult)
    requires |replies.read.bytes| == FrameSize
    ensures r.reading.Some? <==>
              replies.start == BusOk && Elapsed(now, later) >= MeasDurationUs(High)
              && replies.read.status == BusOk && FrameValid(ParseFrame(replies.read.bytes))
    ensures r.reading.Some? ==> r.reading.value == ComputeValues(replies.read.bytes)
    ensures (replies.start == BusOk && Elapsed(now, later) >= MeasDurationUs(High)
             && replies.read.status == BusOk) ==> !r.dev.measStarted && !r.dev.measFirst
    ensures r.dev.mode == SingleShot && r.dev.repeatability == High
    ensures FlagsConsistent(d) ==> FlagsConsistent(r.dev)
  {
    var s := StartMeasurement(d, SingleShot, High, now, replies.start);
    if !s.ok then MeasureResult(s.dev, None)
    else
      var g := GetRawData(s.dev, later, BusOk, replies.read);
      if !g.ok then MeasureResult(g.dev, None)
      else MeasureResult(g.dev, Some(ComputeValues(replies.read.bytes)))
  }

  /** The wait of `sht3x_measure` is long enough: if at least the tick
      table's number of tick periods passed between start and fetch, the
      measurement is no longer running when the frame is fetched. */
  lemma DelayOutlastsMeasurement(now: uint32, later: uint32, period: nat)
    requires period > 0
    requires Elapsed(now, later) >= MeasDurationTicks(High, period) * period * 1000
    ensures Elapsed(now, later) >= MeasDurationUs(High)
  {
    var t := MeasDurationTicks(High, period);
    assert t * period >= 15 + period;
    assert t * period * 1000 >= 16000;
  }
}
