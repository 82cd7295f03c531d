/** Small helpers shared by the firmware modules: an Option type, the
    truncation performed by `snprintf` into a fixed-size buffer, and the
    upper-case `%02X` hexadecimal formatting of bytes together with its
    inverse. */
module Util {

  datatype Option<+T> = None | Some(value: T)

  /** The text `snprintf(buf, size, "%s", s)` leaves in `buf`: at most
      `size - 1` characters, because one byte is kept for the terminating NUL. */
  function Bounded(s: string, size: nat): (r: string)
    requires size > 0
    ensures |r| <= size - 1
    ensures r <= s
    ensures |s| < size <==> r == s
  {
    if |s| < size then s else s[..size - 1]
  }

  /** The upper-case hexadecimal digit of a nibble. */
  function HexDigit(n: nat): (c: char)
    requires n < 16
    ensures IsUpperHex(c)
  {
    if n < 10 then ('0' as int + n) as char else ('A' as int + n - 10) as char
  }

  predicate IsUpperHex(c: char) {
    ('0' <= c <= '9') || ('A' <= c <= 'F')
  }

  /** The numeric value of one upper-case hexadecimal digit. */
  function HexValue(c: char): (r: Option<nat>)
    ensures r.Some? <==> IsUpperHex(c)
    ensures r.Some? ==> r.value < 16 && HexDigit(r.value) == c
  {
    if '0' <= c <= '9' then Some(c as int - '0' as int)
    else if 'A' <= c <= 'F' then Some(c as int - 'A' as int + 10)
    else None
  }

  /** `%02X` of one byte: the high nibble first, upper-case digits. */
  function HexByte(b: bv8): (r: string)
    ensures |r| == 2 && IsUpperHex(r[0]) && IsUpperHex(r[1])
    ensures HexValue(r[0]) == Some((b as int) / 16)
    ensures HexValue(r[1]) == Some((b as int) % 16)
  {
    [HexDigit((b as int) / 16), HexDigit((b as int) % 16)]
  }

  /** The concatenation of `%02X` for every byte, in order. */
  function HexString(bs: seq<bv8>): (r: string)
    ensures |r| == 2 * |bs|
    ensures forall i | 0 <= i < |r| :: IsUpperHex(r[i])
  {
    if |bs| == 0 then [] else HexByte(bs[0]) + HexString(bs[1..])
  }

  /** The byte holding a number below 16. */
  function NibbleByte(k: nat): (b: bv8)
    requires k < 16
    ensures b as int == k
  {
    match k
    case 0 => 0 case 1 => 1 case 2 => 2 case 3 => 3
    case 4 => 4 case 5 => 5 case 6 => 6 case 7 => 7
    case 8 => 8 case 9 => 9 case 10 => 10 case 11 => 11
    case 12 => 12 case 13 => 13 case 14 => 14 case _ => 15
  }

  /** The byte whose `%02X` digits have the values `hi` and `lo`. */
  function PackNibbles(hi: nat, lo: nat): (b: bv8)
    requires hi < 16 && lo < 16
    ensures b as int == hi * 16 + lo
  {
    NibbleByte(hi) * 16 + NibbleByte(lo)
  }

  /** The byte holding a number below 256. */
  function ToByte(n: nat): (b: bv8)
    requires n < 256
    ensures b as int == n
  {
    PackNibbles(n / 16, n % 16)
  }

  /** Reads back an even-length upper-case hexadecimal string, two digits
      per byte, high nibble first. */
  function ParseHex(s: string): (r: Option<seq<bv8>>)
    ensures r.Some? ==> 2 * |r.value| == |s|
    decreases |s|
  {
    if |s| == 0 then Some([])
    else if |s| == 1 || !IsUpperHex(s[0]) || !IsUpperHex(s[1]) then None
    else
      var rest := ParseHex(s[2..]);
      if rest.None? then None
      else Some([PackNibbles(HexValue(s[0]).value, HexValue(s[1]).value)] + rest.value)
  }

  lemma {:induction false} ParseHexString(bs: seq<bv8>)
    ensures ParseHex(HexString(bs)) == Some(bs)
  {
    if |bs| > 0 {
      var s := HexString(bs);
      assert s == HexByte(bs[0]) + HexString(bs[1..]);
      assert s[2..] == HexString(bs[1..]);
      ParseHexString(bs[1..]);
      var hi, lo := (bs[0] as int) / 16, (bs[0] as int) % 16;
      SameByte(PackNibbles(hi, lo), bs[0]);
      assert [bs[0]] + bs[1..] == bs;
    }
  }

  /** Two nibbles packed high-first give back the nibbles `%02X` prints. */
  lemma NibblesOfByte(hi: nat, lo: nat)
    requires hi < 16 && lo < 16
    ensures HexByte(PackNibbles(hi, lo)) == [HexDigit(hi), HexDigit(lo)]
  {
    var b := PackNibbles(hi, lo);
    assert (b as int) / 16 == hi && (b as int) % 16 == lo;
  }

  lemma SameByte(a: bv8, b: bv8)
    requires a as int == b as int
    ensures a == b
  {
  }

  lemma {:induction false} HexStringOfParse(s: string)
    requires ParseHex(s).Some?
    ensures HexString(ParseHex(s).value) == s
    decreases |s|
  {
    if |s| > 0 {
      var hi, lo := HexValue(s[0]).value, HexValue(s[1]).value;
      var b := PackNibbles(hi, lo);
      HexStringOfParse(s[2..]);
      var bs := ParseHex(s).value;
      assert bs == [b] + ParseHex(s[2..]).value;
      assert bs[1..] == ParseHex(s[2..]).value;
      NibblesOfByte(hi, lo);
      assert HexByte(b) == s[..2];
      assert s == s[..2] + s[2..];
    }
  }

  // ----- Powers of two and bits -----

  function Pow2(k: nat): (p: nat)
    ensures p >= 1
  {
    if k == 0 then 1 else 2 * Pow2(k - 1)
  }

  /** Whether bit `k` of `n` is set. */
  predicate BitSet(n: nat, k: nat) {
    (n / Pow2(k)) % 2 == 1
  }

  lemma SmallQuotient(n: nat, p: nat)
    requires n < p
    ensures n / p == 0
  {
  }

  lemma {:induction false} PowMonotone(j: nat, k: nat)
    requires j <= k
    ensures Pow2(j) <= Pow2(k)
    decreases k
  {
    if j < k {
      PowMonotone(j, k - 1);
    }
  }
}
