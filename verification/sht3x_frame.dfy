/** The six-byte measurement frame the SHT3x returns: a temperature word
    and its checksum, then a humidity word and its checksum, each word sent
    most significant byte first. Also the conversion of the raw words to
    degrees Celsius and percent relative humidity, over the reals. */
module Sht3xFrame {

  import Crc8
  import opened Sht3xCommands

  /** One word of the frame with the checksum that follows it. */
  datatype SensorValue = SensorValue(msb: bv8, lsb: bv8, crc: bv8)

  /** A full frame: temperature first, humidity second. */
  datatype Measurements = Measurements(temperature: SensorValue, humidity: SensorValue)

  /** A reading in degrees Celsius and percent relative humidity. */
  datatype Reading = Reading(temperature: real, humidity: real)

  const FrameSize: nat := 6

  function ValueBytes(v: SensorValue): (r: seq<bv8>)
    ensures |r| == 3
  {
    [v.msb, v.lsb, v.crc]
  }

  /** The bytes of a frame in the order they arrive on the bus. */
  function FrameBytes(m: Measurements): (r: seq<bv8>)
    ensures |r| == FrameSize
  {
    ValueBytes(m.temperature) + ValueBytes(m.humidity)
  }

  /** Reads a received buffer as a frame: bytes 0..2 are the temperature
      value and bytes 3..5 the humidity value. */
  function ParseFrame(raw: seq<bv8>): (m: Measurements)
    requires |raw| == FrameSize
  {
    Measurements(SensorValue(raw[0], raw[1], raw[2]), SensorValue(raw[3], raw[4], raw[5]))
  }

  lemma ParseFrameBytes(m: Measurements)
    ensures ParseFrame(FrameBytes(m)) == m
  {
  }

  lemma FrameBytesOfParse(raw: seq<bv8>)
    requires |raw| == FrameSize
    ensures FrameBytes(ParseFrame(raw)) == raw
  {
  }

  /** A value whose checksum matches its word. */
  predicate ValueValid(v: SensorValue) {
    Crc8.Crc([v.msb, v.lsb]) == v.crc
  }

  predicate FrameValid(m: Measurements) {
    ValueValid(m.temperature) && ValueValid(m.humidity)
  }

  /** What the sensor sends for a word: the word with its checksum. */
  function Seal(w: uint16): (v: SensorValue)
    ensures ValueValid(v)
    ensures RawWord(v) == w
  {
    var b := CommandBytes(w);
    SensorValue(b[0], b[1], Crc8.Crc([b[0], b[1]]))
  }

  /** A value the sensor sent, with any one bit flipped in transit, fails the
      check: the checksum detects every single-bit error in a value. */
  lemma SingleBitErrorRejected(v: SensorValue, byte: nat, j: nat)
    requires ValueValid(v)
    requires byte < 3 && j < 8
    ensures !ValueValid(Flip(v, byte, j))
  {
    if byte == 0 {
      MsbFlipRejected(v, j);
    } else if byte == 1 {
      LsbFlipRejected(v, j);
    } else {
      CrcFlipRejected(v, j);
    }
  }

  lemma MsbFlipRejected(v: SensorValue, j: nat)
    requires ValueValid(v) && j < 8
    ensures !ValueValid(Flip(v, 0, j))
  {
    Crc8.FlipInMsbDetected(v.msb, v.lsb, v.crc, j);
  }

  lemma LsbFlipRejected(v: SensorValue, j: nat)
    requires ValueValid(v) && j < 8
    ensures !ValueValid(Flip(v, 1, j))
  {
    Crc8.FlipInLsbDetected(v.msb, v.lsb, v.crc, j);
  }

  lemma CrcFlipRejected(v: SensorValue, j: nat)
    requires ValueValid(v) && j < 8
    ensures !ValueValid(Flip(v, 2, j))
  {
    Crc8.FlipInCrcDetected(v.msb, v.lsb, v.crc, j);
  }

  /** `v` with bit `j` of its byte number `byte` inverted. */
  function Flip(v: SensorValue, byte: nat, j: nat): SensorValue
    requires byte < 3 && j < 8
  {
    if byte == 0 then v.(msb := v.msb ^ Crc8.SingleBit(j))
    else if byte == 1 then v.(lsb := v.lsb ^ Crc8.SingleBit(j))
    else v.(crc := v.crc ^ Crc8.SingleBit(j))
  }

  /** The outcome of the driver's two checksum comparisons. */
  datatype CrcCheck = CrcOk | WrongCrcTemperature | WrongCrcHumidity

  /** The checks exactly as the driver orders them: the checksum of bytes
      0..1 against byte 2 first, and only if that matches, the checksum of
      bytes 3..4 against byte 5. */
  function CheckFrame(raw: seq<bv8>): (r: CrcCheck)
    requires |raw| == FrameSize
    ensures r == CrcOk <==> FrameValid(ParseFrame(raw))
    ensures r == WrongCrcTemperature <==> !ValueValid(ParseFrame(raw).temperature)
    ensures r == WrongCrcHumidity <==>
              ValueValid(ParseFrame(raw).temperature) && !ValueValid(ParseFrame(raw).humidity)
  {
    assert raw[0..2] == [raw[0], raw[1]] && raw[3..5] == [raw[3], raw[4]];
    if Crc8.Crc(raw[0..2]) != raw[2] then WrongCrcTemperature
    else if Crc8.Crc(raw[3..5]) != raw[5] then WrongCrcHumidity
    else CrcOk
  }

  /** A frame built from what the sensor sends for two words always passes. */
  lemma SealedFrameAccepted(t: uint16, h: uint16)
    ensures CheckFrame(FrameBytes(Measurements(Seal(t), Seal(h)))) == CrcOk
  {
    ParseFrameBytes(Measurements(Seal(t), Seal(h)));
  }

  /** The 16-bit word of a value, most significant byte first. */
  function RawWord(v: SensorValue): (w: uint16)
    ensures w / 256 == v.msb as int && w % 256 == v.lsb as int
  {
    BigEndian(v.msb, v.lsb)
  }

  const FullScale: real := 65535.0

  /** Degrees Celsius for a raw temperature word: -45 + 175 * w / 65535. */
  function Temperature(w: uint16): (t: real)
    ensures -45.0 <= t <= 130.0
  {
    ScaleBounds(w, 175.0);
    Scale(w, 175.0) - 45.0
  }

  /** Percent relative humidity for a raw humidity word: 100 * w / 65535. */
  function Humidity(w: uint16): (h: real)
    ensures 0.0 <= h <= 100.0
  {
    ScaleBounds(w, 100.0);
    Scale(w, 100.0)
  }

  /** `w` as a fraction of full scale, times `span`. */
  function Scale(w: uint16, span: real): real {
    (w as real) * span / FullScale
  }

  lemma ScaleBounds(w: uint16, span: real)
    requires span > 0.0
    ensures 0.0 <= Scale(w, span) <= span
  {
    var x := w as real;
    assert 0.0 <= x <= FullScale;
    assert x * span <= FullScale * span;
  }

  lemma ScaleStrictlyMonotone(w1: uint16, w2: uint16, span: real)
    requires span > 0.0
    requires w1 < w2
    ensures Scale(w1, span) < Scale(w2, span)
  {
    var x1, x2 := w1 as real, w2 as real;
    assert x1 < x2;
    assert x1 * span < x2 * span;
  }

  /** Both conversions are strictly increasing, so distinct raw words give
      distinct readings and their order is kept. */
  lemma ConversionsStrictlyMonotone(w1: uint16, w2: uint16)
    requires w1 < w2
    ensures Temperature(w1) < Temperature(w2)
    ensures Humidity(w1) < Humidity(w2)
  {
    ScaleStrictlyMonotone(w1, w2, 175.0);
    ScaleStrictlyMonotone(w1, w2, 100.0);
  }

  /** The ends of both ranges are reached by the ends of the raw scale. */
  lemma ConversionEndpoints()
    ensures Temperature(0) == -45.0 && Temperature(65535) == 130.0
    ensures Humidity(0) == 0.0 && Humidity(65535) == 100.0
  {
  }

  /** The driver's `sht3x_compute_values`: the reading a six-byte buffer
      encodes, computed from bytes 0, 1 and 3, 4 (the checksums are not
      consulted here). */
  function ComputeValues(raw: seq<bv8>): (r: Reading)
    requires |raw| == FrameSize
    ensures r.temperature == Temperature(RawWord(ParseFrame(raw).temperature))
    ensures r.humidity == Humidity(RawWord(ParseFrame(raw).humidity))
    ensures -45.0 <= r.temperature <= 130.0 && 0.0 <= r.humidity <= 100.0
  {
    var t := ((raw[0] as int as real) * 256.0 + (raw[1] as int as real)) * 175.0 / FullScale - 45.0;
    var h := ((raw[3] as int as real) * 256.0 + (raw[4] as int as real)) * 100.0 / FullScale;
    Reading(t, h)
  }
}
