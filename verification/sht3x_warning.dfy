/** The warning code computed from a reading: `NO_WARNING` (255) when every
    threshold is respected, otherwise a byte whose bit 3 flags a high
    temperature, bit 2 a low temperature, bit 1 a high humidity and bit 0 a
    low humidity. The comparisons are strict: a reading exactly on a
    threshold raises nothing. */
module Sht3xWarning {

  import opened Util

  const HighTempThreshold: real := 30.0
  const HighHumiThreshold: real := 80.0
  const LowTempThreshold: real := 25.0
  const LowHumiThreshold: real := 60.0
  const NoWarning: nat := 255

  datatype Warning = HighTemp | LowTemp | HighHumi | LowHumi

  /** The bit each warning occupies. */
  function BitOf(w: Warning): (k: nat)
    ensures k < 4
  {
    match w
    case HighTemp => 3
    case LowTemp => 2
    case HighHumi => 1
    case LowHumi => 0
  }

  lemma BitsDistinct(a: Warning, b: Warning)
    ensures BitOf(a) == BitOf(b) <==> a == b
  {
  }

  /** Whether a reading crosses the threshold of one warning. */
  predicate Crosses(w: Warning, t: real, h: real) {
    match w
    case HighTemp => t > HighTempThreshold
    case LowTemp => t < LowTempThreshold
    case HighHumi => h > HighHumiThreshold
    case LowHumi => h < LowHumiThreshold
  }

  /** The warnings a reading raises. */
  function Raised(t: real, h: real): set<Warning> {
    set w: Warning | Crosses(w, t, h)
  }

  /** The warnings a code announces; `NO_WARNING` announces none. */
  function Decode(code: nat): set<Warning> {
    if code == NoWarning then {} else set w: Warning | BitSet(code, BitOf(w))
  }

  function Flag(b: bool, k: nat): nat {
    if b then Pow2(k) else 0
  }

  /** `check_warning`. */
  function CheckWarning(t: real, h: real): (code: nat)
    ensures code == NoWarning <==> Raised(t, h) == {}
    ensures code != NoWarning ==> 1 <= code <= 15
    ensures Decode(code) == Raised(t, h)
  {
    var bits := Flag(t > HighTempThreshold, 3) + Flag(t < LowTempThreshold, 2)
                + Flag(h > HighHumiThreshold, 1) + Flag(h < LowHumiThreshold, 0);
    NibbleBits(t > HighTempThreshold, t < LowTempThreshold, h > HighHumiThreshold, h < LowHumiThreshold);
    RaisedByCondition(t, h);
    if bits == 0 then NoWarning else bits
  }

  /** The bits of a sum of four flags are the flags. */
  lemma NibbleBits(b3: bool, b2: bool, b1: bool, b0: bool)
    ensures var n := Flag(b3, 3) + Flag(b2, 2) + Flag(b1, 1) + Flag(b0, 0);
            n < 16
            && (n == 0 <==> !b3 && !b2 && !b1 && !b0)
            && (BitSet(n, 3) <==> b3) && (BitSet(n, 2) <==> b2)
            && (BitSet(n, 1) <==> b1) && (BitSet(n, 0) <==> b0)
  {
    assert Pow2(0) == 1 && Pow2(1) == 2 && Pow2(2) == 4 && Pow2(3) == 8;
  }

  lemma RaisedByCondition(t: real, h: real)
    ensures HighTemp in Raised(t, h) <==> t > HighTempThreshold
    ensures LowTemp in Raised(t, h) <==> t < LowTempThreshold
    ensures HighHumi in Raised(t, h) <==> h > HighHumiThreshold
    ensures LowHumi in Raised(t, h) <==> h < LowHumiThreshold
  {
  }

  /** Because each high threshold lies above its low one, no code flags the
      same quantity as both too high and too low. */
  lemma NeverHighAndLow(t: real, h: real)
    ensures !(HighTemp in Decode(CheckWarning(t, h)) && LowTemp in Decode(CheckWarning(t, h)))
    ensures !(HighHumi in Decode(CheckWarning(t, h)) && LowHumi in Decode(CheckWarning(t, h)))
  {
    RaisedByCondition(t, h);
  }

  /** Bits 4 to 7 never carry a warning. */
  lemma HighNibbleClear(t: real, h: real, k: nat)
    requires 4 <= k < 8
    requires CheckWarning(t, h) != NoWarning
    ensures !BitSet(CheckWarning(t, h), k)
  {
    var code := CheckWarning(t, h);
    PowMonotone(4, k);
    assert Pow2(4) == 16;
    SmallQuotient(code, Pow2(k));
  }
}
