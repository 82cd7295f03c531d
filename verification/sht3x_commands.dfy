/** The command words of the SHT3x driver: the measurement command table
    indexed by mode and repeatability, the fixed commands, their big-endian
    serialisation on the bus, the `MPS_*` byte pairs of the driver header,
    and the measurement durations with their conversion to RTOS ticks. */
module Sht3xCommands {

  import opened Util

  /** An unsigned 16-bit command word. */
  type uint16 = x: int | 0 <= x < 0x1_0000

  /** Measurement mode: one single shot, or periodic at 0.5, 1, 2, 4 or 10
      measurements per second. */
  datatype Mode = SingleShot | Periodic05 | Periodic1 | Periodic2 | Periodic4 | Periodic10

  datatype Repeat = High | Medium | Low

  /** The row of the command table; single shot is row 0, which is why the
      driver can test the mode against zero to mean "periodic". */
  function ModeIndex(m: Mode): (i: nat)
    ensures i < 6
    ensures i == 0 <==> m == SingleShot
  {
    match m
    case SingleShot => 0
    case Periodic05 => 1
    case Periodic1 => 2
    case Periodic2 => 3
    case Periodic4 => 4
    case Periodic10 => 5
  }

  function RepeatIndex(r: Repeat): (i: nat)
    ensures i < 3
  {
    match r
    case High => 0
    case Medium => 1
    case Low => 2
  }

  const StatusCmd: uint16 := 0xF32D
  const ClearStatusCmd: uint16 := 0x3041
  const ResetCmd: uint16 := 0x30A2
  const FetchDataCmd: uint16 := 0xE000
  const HeaterOffCmd: uint16 := 0x3066

  /** The measurement command table exactly as the driver declares it. */
  const MeasureTableAsWritten: seq<seq<uint16>> := [
    [0x2400, 0x240b, 0x2416],
    [0x2032, 0x2024, 0x202f],
    [0x2130, 0x2126, 0x212d],
    [0x2236, 0x2220, 0x222b],
    [0x2234, 0x2322, 0x2329],
    [0x2737, 0x2721, 0x272a]]

  function MeasureCmdAsWritten(m: Mode, r: Repeat): uint16 {
    MeasureTableAsWritten[ModeIndex(m)][RepeatIndex(r)]
  }

  /** The table with the 4-measurements-per-second, high-repeatability entry
      corrected to 0x2334, the value of the header's byte pair and of the
      SHT3x datasheet. */
  const MeasureTable: seq<seq<uint16>> := [
    [0x2400, 0x240b, 0x2416],
    [0x2032, 0x2024, 0x202f],
    [0x2130, 0x2126, 0x212d],
    [0x2236, 0x2220, 0x222b],
    [0x2334, 0x2322, 0x2329],
    [0x2737, 0x2721, 0x272a]]

  function MeasureCmd(m: Mode, r: Repeat): uint16 {
    MeasureTable[ModeIndex(m)][RepeatIndex(r)]
  }

  /** The typo is the only difference between the two tables: every other
      entry, single shot included, is the intended command. */
  lemma TypoIsTheOnlyDifference(m: Mode, r: Repeat)
    ensures MeasureCmdAsWritten(m, r) == MeasureCmd(m, r) <==> (m, r) != (Periodic4, High)
  {
  }

  // ----- Big-endian serialisation -----

  /** The two bytes the driver writes for a command: most significant
      first (`cmd >> 8`, then `cmd & 0xff`). */
  function CommandBytes(cmd: uint16): (r: seq<bv8>)
    ensures |r| == 2
    ensures (r[0] as int) * 256 + (r[1] as int) == cmd
  {
    [ToByte(cmd / 256), ToByte(cmd % 256)]
  }

  /** Reading a byte pair as a big-endian 16-bit word. */
  function BigEndian(hi: bv8, lo: bv8): (w: uint16)
    ensures w / 256 == hi as int && w % 256 == lo as int
  {
    (hi as int) * 256 + (lo as int)
  }

  lemma CommandBytesRoundTrip(cmd: uint16)
    ensures BigEndian(CommandBytes(cmd)[0], CommandBytes(cmd)[1]) == cmd
  {
  }

  /** Two command words go out as the same bytes only if they are equal. */
  lemma CommandBytesInjective(c: uint16, c': uint16)
    ensures CommandBytes(c) == CommandBytes(c') <==> c == c'
  {
    CommandBytesRoundTrip(c);
    CommandBytesRoundTrip(c');
  }

  lemma BigEndianRoundTrip(hi: bv8, lo: bv8)
    ensures CommandBytes(BigEndian(hi, lo)) == [hi, lo]
  {
    var w := BigEndian(hi, lo);
    SameByte(ToByte(w / 256), hi);
    SameByte(ToByte(w % 256), lo);
  }

  // ----- The byte pairs of the driver header -----

  /** The `MPS_<rate>_REPEATABILITY_<level>` pair of the header for a periodic
      mode. */
  function MpsPair(m: Mode, r: Repeat): (bv8, bv8)
    requires m != SingleShot
  {
    match (m, r)
    case (Periodic05, High) => (0x20, 0x32)
    case (Periodic05, Medium) => (0x20, 0x24)
    case (Periodic05, Low) => (0x20, 0x2F)
    case (Periodic1, High) => (0x21, 0x30)
    case (Periodic1, Medium) => (0x21, 0x26)
    case (Periodic1, Low) => (0x21, 0x2D)
    case (Periodic2, High) => (0x22, 0x36)
    case (Periodic2, Medium) => (0x22, 0x20)
    case (Periodic2, Low) => (0x22, 0x2B)
    case (Periodic4, High) => (0x23, 0x34)
    case (Periodic4, Medium) => (0x23, 0x22)
    case (Periodic4, Low) => (0x23, 0x29)
    case (Periodic10, High) => (0x27, 0x37)
    case (Periodic10, Medium) => (0x27, 0x21)
    case (Periodic10, Low) => (0x27, 0x2A)
  }

  function MpsWord(m: Mode, r: Repeat): uint16
    requires m != SingleShot
  {
    BigEndian(MpsPair(m, r).0, MpsPair(m, r).1)
  }

  /** Every header pair, read big-endian, is the corrected table's entry. */
  lemma HeaderAgreesWithTable(m: Mode, r: Repeat)
    requires m != SingleShot
    ensures MpsWord(m, r) == MeasureCmd(m, r)
  {
  }

  /** The table as written agrees with the header in every periodic entry
      but one: for 4 measurements per second at high repeatability it holds
      0x2234 where the header has 0x2334. 0x2234 is no measurement command at
      all, so a periodic-4-high start would be refused by the sensor. */
  lemma TableTypo(m: Mode, r: Repeat)
    requires m != SingleShot
    ensures (m, r) != (Periodic4, High) ==> MeasureCmdAsWritten(m, r) == MpsWord(m, r)
    ensures (m, r) == (Periodic4, High) ==>
              MeasureCmdAsWritten(m, r) == 0x2234 && MpsWord(m, r) == 0x2334
    ensures forall m': Mode, r': Repeat :: MeasureCmd(m', r') != 0x2234
  {
    assert forall m': Mode, r': Repeat :: MeasureCmd(m', r') != 0x2234 by {
      forall m': Mode, r': Repeat ensures MeasureCmd(m', r') != 0x2234 {
        var row := MeasureTable[ModeIndex(m')];
        assert row[RepeatIndex(r')] in row;
      }
    }
  }

  // ----- Measurement durations -----

  /** Measurement duration in milliseconds for each repeatability. */
  function MeasDurationMs(r: Repeat): nat {
    match r
    case High => 15
    case Medium => 6
    case Low => 4
  }

  /** The same durations in microseconds, as stored in a 16-bit table. */
  function MeasDurationUs(r: Repeat): (us: nat)
    ensures us == MeasDurationMs(r) * 1000
    ensures us < 0x1_0000
  {
    match r
    case High => 15000
    case Medium => 6000
    case Low => 4000
  }

  /** Milliseconds to RTOS ticks, rounding up and adding one and a half
      tick periods, for a tick period of `period` milliseconds. */
  function TimeToTicks(ms: nat, period: nat): nat
    requires period > 0
  {
    1 + (ms + (period - 1) + period / 2) / period
  }

  /** Quotient and remainder of a division by a positive tick period. */
  lemma DivBounds(n: nat, p: nat)
    requires p > 0
    ensures (n / p) * p <= n < (n / p) * p + p
  {
  }

  lemma MulCancel(a: nat, b: nat, p: nat)
    requires p > 0 && a * p < b * p
    ensures a < b
  {
  }

  /** The tick count always waits strictly longer than the duration: at least
      one full tick period more. */
  lemma TicksCoverDuration(ms: nat, period: nat)
    requires period > 0
    ensures TimeToTicks(ms, period) * period >= ms + period
  {
    var n := ms + (period - 1) + period / 2;
    DivBounds(n, period);
    assert (1 + n / period) * period == period + (n / period) * period;
  }

  /** It never waits more than three tick periods beyond the duration. */
  lemma TicksBounded(ms: nat, period: nat)
    requires period > 0
    ensures TimeToTicks(ms, period) * period < ms + 3 * period
  {
    var n := ms + (period - 1) + period / 2;
    DivBounds(n, period);
    assert (1 + n / period) * period == period + (n / period) * period;
  }

  /** The measurement-duration tick table, one entry per repeatability: it
      fits the driver's 8-bit table for every tick period of at least 1 ms,
      and each entry waits out its duration. */
  function MeasDurationTicks(r: Repeat, period: nat): (t: nat)
    requires period > 0
    ensures t < 256
    ensures t * period >= MeasDurationMs(r) + period
  {
    TicksCoverDuration(MeasDurationMs(r), period);
    TicksBounded(MeasDurationMs(r), period);
    var t := TimeToTicks(MeasDurationMs(r), period);
    MulCancel(t, 18, period);
    t
  }
}
