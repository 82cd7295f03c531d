/** The checksum the SHT3x attaches to every 16-bit word it sends: CRC-8
    with polynomial x^8 + x^5 + x^4 + 1 (0x31), initial value 0xFF, bits
    processed most-significant first, no reflection and no final xor
    (section 4.12 of the Sensirion SHT3x-DIS datasheet; catalogued as
    CRC-8/NRSC-5). */
module Crc8 {

  const Polynomial: bv8 := 0x31
  const Init: bv8 := 0xFF

  /** One clock of the shift register: shift left and, when the bit shifted
      out was 1, xor the polynomial in. */
  function ShiftBit(crc: bv8): bv8 {
    if crc & 0x80 != 0 then (crc << 1) ^ Polynomial else crc << 1
  }

  function ShiftBits(crc: bv8, n: nat): bv8
    decreases n
  {
    if n == 0 then crc else ShiftBits(ShiftBit(crc), n - 1)
  }

  /** Folding one data byte into the register, as the inner loop does. */
  function ProcessByte(crc: bv8, b: bv8): bv8 {
    ShiftBits(crc ^ b, 8)
  }

  /** The register after `data`, starting from `start`. */
  function Register(start: bv8, data: seq<bv8>): bv8
    decreases |data|
  {
    if |data| == 0 then start
    else ProcessByte(Register(start, data[..|data| - 1]), data[|data| - 1])
  }

  function Crc(data: seq<bv8>): bv8 {
    Register(Init, data)
  }

  /** The driver's `crc8` routine, loop for loop: the outer loop walks the
      bytes, the inner loop clocks the register eight times. */
  method ComputeCrc(data: seq<bv8>) returns (crc: bv8)
    ensures crc == Crc(data)
    ensures crc == BitSerial(Init, Bits(data))
  {
    crc := Init;
    var i := 0;
    while i < |data|
      invariant 0 <= i <= |data|
      invariant crc == Register(Init, data[..i])
    {
      crc := crc ^ data[i];
      ghost var start := crc;
      var j := 0;
      while j < 8
        invariant 0 <= j <= 8
        invariant ShiftBits(crc, 8 - j) == ShiftBits(start, 8)
      {
        var top := crc & 0x80 != 0;
        crc := crc << 1;
        crc := if top then crc ^ Polynomial else crc;
        j := j + 1;
      }
      assert data[..i + 1][..i] == data[..i];
      i := i + 1;
    }
    assert data[..i] == data;
    CrcIsBitSerial(data);
  }

  // ----- Independent reference: the bit-serial divider -----

  /** The first `n` bits of a byte, most significant first: read the top
      bit, shift the byte left, repeat. */
  function TopBits(b: bv8, n: nat): (r: seq<bool>)
    ensures |r| == n
    decreases n
  {
    if n == 0 then [] else [b & 0x80 != 0] + TopBits(b << 1, n - 1)
  }

  /** The message as a bit stream, most significant bit of each byte first. */
  function ByteBits(b: bv8): (r: seq<bool>)
    ensures |r| == 8
  {
    TopBits(b, 8)
  }

  function Bits(data: seq<bv8>): (r: seq<bool>)
    ensures |r| == 8 * |data|
  {
    if |data| == 0 then [] else Bits(data[..|data| - 1]) + ByteBits(data[|data| - 1])
  }

  /** The textbook linear-feedback divider: the feedback is the register's
      top bit xor the incoming message bit. */
  function FeedBit(crc: bv8, bit: bool): bv8 {
    if (crc & 0x80 != 0) != bit then (crc << 1) ^ Polynomial else crc << 1
  }

  function BitSerial(start: bv8, bits: seq<bool>): bv8
    decreases |bits|
  {
    if |bits| == 0 then start else BitSerial(FeedBit(start, bits[0]), bits[1..])
  }

  lemma {:induction false} BitSerialAppend(start: bv8, a: seq<bool>, b: seq<bool>)
    ensures BitSerial(start, a + b) == BitSerial(BitSerial(start, a), b)
    decreases |a|
  {
    if |a| == 0 {
      assert a + b == b;
    } else {
      assert (a + b)[0] == a[0];
      assert (a + b)[1..] == a[1..] + b;
      BitSerialAppend(FeedBit(start, a[0]), a[1..], b);
    }
  }

  /** `b` shifted left `n` places, one place at a time. */
  function Shl(b: bv8, n: nat): bv8
    decreases n
  {
    if n == 0 then b else Shl(b << 1, n - 1)
  }

  /** One clock of `d ^ s` is feeding the top bit of `s` to `d`, with the
      rest of `s` moved up one place. */
  lemma ClockXor(d: bv8, s: bv8)
    ensures ShiftBit(d ^ s) == FeedBit(d, s & 0x80 != 0) ^ (s << 1)
  {
    assert (d ^ s) << 1 == (d << 1) ^ (s << 1);
    assert ((d ^ s) & 0x80 != 0) == ((d & 0x80 != 0) != (s & 0x80 != 0));
    assert ((d << 1) ^ (s << 1)) ^ Polynomial == ((d << 1) ^ Polynomial) ^ (s << 1);
  }

  /** One clock of the register is one feed of the divider, one bit of the
      data consumed and the rest of the data moved up one place. */
  lemma ClockStep(d: bv8, s: bv8, n: nat) returns (d': bv8, s': bv8)
    requires n > 0
    ensures ShiftBits(d ^ s, n) == ShiftBits(d' ^ s', n - 1)
    ensures BitSerial(d, TopBits(s, n)) == BitSerial(d', TopBits(s', n - 1))
    ensures Shl(s, n) == Shl(s', n - 1)
  {
    d', s' := FeedBit(d, s & 0x80 != 0), s << 1;
    ClockXor(d, s);
    var t := TopBits(s, n);
    assert t[0] == (s & 0x80 != 0);
    assert t[1..] == TopBits(s', n - 1);
  }

  /** Clocking the register `n` times with data bits `s` still xored into it
      is feeding the top `n` bits of `s` to the bit-serial divider; what is
      left of `s` has moved up `n` places. */
  lemma ClocksAreFeeds(d: bv8, s: bv8, n: nat)
    ensures ShiftBits(d ^ s, n) == BitSerial(d, TopBits(s, n)) ^ Shl(s, n)
  {
    var i, di, si := n, d, s;
    while i > 0
      invariant ShiftBits(d ^ s, n) == ShiftBits(di ^ si, i)
      invariant BitSerial(d, TopBits(s, n)) == BitSerial(di, TopBits(si, i))
      invariant Shl(s, n) == Shl(si, i)
    {
      di, si := ClockStep(di, si, i);
      i := i - 1;
    }
    assert TopBits(si, 0) == [] && Shl(si, 0) == si;
  }

  /** Eight shifts clear a byte. */
  lemma ShlByte(b: bv8)
    ensures Shl(b, 8) == 0
  {
    var b1 := b << 1;
    var b2 := b1 << 1;
    var b3 := b2 << 1;
    var b4 := b3 << 1;
    var b5 := b4 << 1;
    var b6 := b5 << 1;
    var b7 := b6 << 1;
    assert Shl(b, 8) == Shl(b7 << 1, 0);
    assert b7 << 1 == 0;
  }

  /** Xoring a whole byte in and clocking eight times is the same as feeding
      its eight bits one at a time. */
  lemma ByteStepIsBitSerial(crc: bv8, b: bv8)
    ensures ProcessByte(crc, b) == BitSerial(crc, ByteBits(b))
  {
    ShlByte(b);
    FeedsOnceShiftedOut(crc, b, 8);
  }

  lemma FeedsOnceShiftedOut(d: bv8, s: bv8, n: nat)
    requires Shl(s, n) == 0
    ensures ShiftBits(d ^ s, n) == BitSerial(d, TopBits(s, n))
  {
    ClocksAreFeeds(d, s, n);
    XorZero(BitSerial(d, TopBits(s, n)));
  }

  lemma {:induction false} CrcIsBitSerial(data: seq<bv8>)
    ensures Crc(data) == BitSerial(Init, Bits(data))
  {
    RegisterIsBitSerial(Init, data);
  }

  lemma {:induction false} RegisterIsBitSerial(start: bv8, data: seq<bv8>)
    ensures Register(start, data) == BitSerial(start, Bits(data))
    decreases |data|
  {
    if |data| > 0 {
      var init, last := data[..|data| - 1], data[|data| - 1];
      RegisterIsBitSerial(start, init);
      BitSerialAppend(start, Bits(init), ByteBits(last));
      ByteStepIsBitSerial(Register(start, init), last);
    }
  }

  // ----- Properties of the checksum -----

  /** Eight clocks of the register written out one by one. */
  lemma Unroll8(c: bv8)
    ensures ShiftBits(c, 8) == ShiftBit(ShiftBit(ShiftBit(ShiftBit(ShiftBit(ShiftBit(ShiftBit(ShiftBit(c))))))))
  {
    var c1 := ShiftBit(c);
    var c2 := ShiftBit(c1);
    var c3 := ShiftBit(c2);
    var c4 := ShiftBit(c3);
    var c5 := ShiftBit(c4);
    var c6 := ShiftBit(c5);
    var c7 := ShiftBit(c6);
    assert ShiftBits(c, 8) == ShiftBits(c1, 7);
    assert ShiftBits(c1, 7) == ShiftBits(c2, 6);
    assert ShiftBits(c2, 6) == ShiftBits(c3, 5);
    assert ShiftBits(c3, 5) == ShiftBits(c4, 4);
    assert ShiftBits(c4, 4) == ShiftBits(c5, 3);
    assert ShiftBits(c5, 3) == ShiftBits(c6, 2);
    assert ShiftBits(c6, 2) == ShiftBits(c7, 1);
    assert ShiftBits(c7, 1) == ShiftBit(c7);
  }

  lemma {:induction false} ShiftBitsOfZero(n: nat)
    ensures ShiftBits(0, n) == 0
  {
    if n > 0 {
      assert ShiftBit(0) == 0;
      ShiftBitsOfZero(n - 1);
    }
  }

  /** Appending the checksum of a message to the message leaves a zero
      register: the receiver's check is a division with zero remainder. */
  lemma ResidueIsZero(data: seq<bv8>)
    ensures Crc(data + [Crc(data)]) == 0
  {
    var d := data + [Crc(data)];
    assert d[..|d| - 1] == data;
    ShiftBitsOfZero(8);
  }

  lemma ShiftBitLinear(a: bv8, b: bv8)
    ensures ShiftBit(a ^ b) == ShiftBit(a) ^ ShiftBit(b)
  {
    assert (a ^ b) << 1 == (a << 1) ^ (b << 1);
    assert ((a ^ b) & 0x80 != 0) == ((a & 0x80 != 0) != (b & 0x80 != 0));
    var x, y := a << 1, b << 1;
    assert (x ^ Polynomial) ^ (y ^ Polynomial) == x ^ y;
    assert (x ^ Polynomial) ^ y == (x ^ y) ^ Polynomial;
    assert x ^ (y ^ Polynomial) == (x ^ y) ^ Polynomial;
  }

  /** Register steps are linear over xor, so an error pattern changes the
      checksum by a value that depends on the pattern alone. */
  lemma {:induction false} ShiftBitsLinear(a: bv8, b: bv8, n: nat)
    ensures ShiftBits(a ^ b, n) == ShiftBits(a, n) ^ ShiftBits(b, n)
    decreases n
  {
    if n > 0 {
      ShiftBitLinear(a, b);
      ShiftBitsLinear(ShiftBit(a), ShiftBit(b), n - 1);
    }
  }

  /** The value of the checksum of one two-byte word. */
  lemma WordCrc(msb: bv8, lsb: bv8)
    ensures Crc([msb, lsb]) == ProcessByte(ProcessByte(Init, msb), lsb)
  {
    assert [msb, lsb][..1] == [msb];
    assert [msb][..0] == [];
    assert Register(Init, [msb]) == ProcessByte(Register(Init, []), msb);
    assert Register(Init, [msb, lsb]) == ProcessByte(Register(Init, [msb]), lsb);
  }

  lemma ProcessByteLinear(c1: bv8, b1: bv8, c2: bv8, b2: bv8)
    ensures ProcessByte(c1 ^ c2, b1 ^ b2) == ProcessByte(c1, b1) ^ ProcessByte(c2, b2)
  {
    var x, y := c1 ^ b1, c2 ^ b2;
    assert (c1 ^ c2) ^ (b1 ^ b2) == x ^ y by {
      XorSwap(c1, c2, b1, b2);
    }
    ShiftBitsLinear(x, y, 8);
  }

  lemma XorZero(a: bv8)
    ensures a ^ 0 == a
  {
  }

  lemma XorNonZero(a: bv8, e: bv8)
    requires e != 0
    ensures a ^ e != a
  {
  }

  lemma XorSwap(a: bv8, b: bv8, c: bv8, d: bv8)
    ensures (a ^ b) ^ (c ^ d) == (a ^ c) ^ (b ^ d)
  {
  }

  /** The change an error pattern `e1`, `e2` makes to the checksum of a
      word: the checksum of the pattern alone, started from a zero register. */
  function Syndrome(e1: bv8, e2: bv8): bv8 {
    ProcessByte(ProcessByte(0, e1), e2)
  }

  lemma WordCrcOfError(msb: bv8, lsb: bv8, e1: bv8, e2: bv8)
    ensures Crc([msb ^ e1, lsb ^ e2]) == Crc([msb, lsb]) ^ Syndrome(e1, e2)
  {
    WordCrc(msb, lsb);
    WordCrc(msb ^ e1, lsb ^ e2);
    RegisterOfError(msb, lsb, e1, e2);
  }

  lemma RegisterOfError(msb: bv8, lsb: bv8, e1: bv8, e2: bv8)
    ensures ProcessByte(ProcessByte(Init, msb ^ e1), lsb ^ e2)
         == ProcessByte(ProcessByte(Init, msb), lsb) ^ Syndrome(e1, e2)
  {
    FirstByteOfError(msb, e1);
    ProcessByteLinear(ProcessByte(Init, msb), lsb, ProcessByte(0, e1), e2);
  }

  lemma FirstByteOfError(msb: bv8, e1: bv8)
    ensures ProcessByte(Init, msb ^ e1) == ProcessByte(Init, msb) ^ ProcessByte(0, e1)
  {
    ProcessByteLinear(Init, msb, 0, e1);
    XorZero(Init);
  }

  /** A byte with exactly bit `j` set. */
  function SingleBit(j: nat): (e: bv8)
    requires j < 8
    ensures e != 0
  {
    [0x01, 0x02, 0x04, 0x08, 0x10, 0x20, 0x40, 0x80][j]
  }

  /** Every single-bit error in a received word or in its checksum byte is
      caught by the check: the corrupted triple never passes. The three
      lemmas cover a flip in the high byte, the low byte and the checksum. */
  lemma FlipInMsbDetected(msb: bv8, lsb: bv8, crc: bv8, j: nat)
    requires j < 8
    requires Crc([msb, lsb]) == crc
    ensures Crc([msb ^ SingleBit(j), lsb]) != crc
  {
    var e := SingleBit(j);
    SyndromesNonZero(j);
    XorZero(lsb);
    ErrorPatternDetected(msb, lsb, e, 0);
  }

  lemma FlipInLsbDetected(msb: bv8, lsb: bv8, crc: bv8, j: nat)
    requires j < 8
    requires Crc([msb, lsb]) == crc
    ensures Crc([msb, lsb ^ SingleBit(j)]) != crc
  {
    var e := SingleBit(j);
    SyndromesNonZero(j);
    XorZero(msb);
    ErrorPatternDetected(msb, lsb, 0, e);
  }

  lemma FlipInCrcDetected(msb: bv8, lsb: bv8, crc: bv8, j: nat)
    requires j < 8
    requires Crc([msb, lsb]) == crc
    ensures Crc([msb, lsb]) != crc ^ SingleBit(j)
  {
    XorNonZero(crc, SingleBit(j));
  }

  /** An error pattern in the word with a non-zero syndrome is caught. */
  lemma ErrorPatternDetected(msb: bv8, lsb: bv8, e1: bv8, e2: bv8)
    requires Syndrome(e1, e2) != 0
    ensures Crc([msb ^ e1, lsb ^ e2]) != Crc([msb, lsb])
  {
    WordCrcOfError(msb, lsb, e1, e2);
    XorNonZero(Crc([msb, lsb]), Syndrome(e1, e2));
  }

  lemma SyndromesNonZero(j: nat)
    requires j < 8
    ensures Syndrome(SingleBit(j), 0) != 0
    ensures Syndrome(0, SingleBit(j)) != 0
  {
    if j < 4 {
      LowSyndromesNonZero(j);
    } else {
      HighSyndromesNonZero(j);
    }
  }

  /** Folding one byte, checked by stepping the register eight times. */
  lemma ByteAfter(c: bv8, b: bv8, r: bv8)
    requires ShiftBit(ShiftBit(ShiftBit(ShiftBit(ShiftBit(ShiftBit(ShiftBit(ShiftBit(c ^ b)))))))) == r
    ensures ProcessByte(c, b) == r
  {
    Unroll8(c ^ b);
  }

  /** The syndromes of a one-byte error pattern `e`, in the word's high
      byte and in its low byte, from the register after `e` and after `e`
      followed by a zero byte. */
  lemma BitSyndromes(e: bv8, p: bv8, q: bv8)
    requires ShiftBit(ShiftBit(ShiftBit(ShiftBit(ShiftBit(ShiftBit(ShiftBit(ShiftBit(e)))))))) == p
    requires ShiftBit(ShiftBit(ShiftBit(ShiftBit(ShiftBit(ShiftBit(ShiftBit(ShiftBit(p)))))))) == q
    ensures Syndrome(e, 0) == q && Syndrome(0, e) == p
  {
    assert 0 ^ e == e && p ^ 0 == p;
    ByteAfter(0, e, p);
    ByteAfter(p, 0, q);
    ByteAfter(0, 0, 0);
  }

  lemma LowSyndromesNonZero(j: nat)
    requires j < 4
    ensures Syndrome(SingleBit(j), 0) != 0
    ensures Syndrome(0, SingleBit(j)) != 0
  {
    if j == 0 {
      assert SingleBit(0) == 0x01;
      BitSyndromes(0x01, 0x31, 0xF4);
    } else if j == 1 {
      assert SingleBit(1) == 0x02;
      BitSyndromes(0x02, 0x62, 0xD9);
    } else if j == 2 {
      assert SingleBit(2) == 0x04;
      BitSyndromes(0x04, 0xC4, 0x83);
    } else {
      assert SingleBit(3) == 0x08;
      BitSyndromes(0x08, 0xB9, 0x37);
    }
  }

  lemma HighSyndromesNonZero(j: nat)
    requires 4 <= j < 8
    ensures Syndrome(SingleBit(j), 0) != 0
    ensures Syndrome(0, SingleBit(j)) != 0
  {
    if j == 4 {
      assert SingleBit(4) == 0x10;
      BitSyndromes(0x10, 0x43, 0x6E);
    } else if j == 5 {
      assert SingleBit(5) == 0x20;
      BitSyndromes(0x20, 0x86, 0xDC);
    } else if j == 6 {
      assert SingleBit(6) == 0x40;
      BitSyndromes(0x40, 0x3D, 0x89);
    } else {
      assert SingleBit(7) == 0x80;
      BitSyndromes(0x80, 0x7A, 0x23);
    }
  }

  /** The checksum of no data is the initial value, and the worked example
      of the datasheet: 0xBEEF has checksum 0x92. */
  lemma KnownValues()
    ensures Crc([]) == 0xFF
    ensures Crc([0xBE, 0xEF]) == 0x92
  {
    WordCrc(0xBE, 0xEF);
    Unroll8(0xFF ^ 0xBE);
    assert ProcessByte(Init, 0xBE) == 0x0C;
    Unroll8(0x0C ^ 0xEF);
    assert ProcessByte(0x0C, 0xEF) == 0x92;
  }
}
