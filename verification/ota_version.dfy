/** Choosing the firmware image to download. The update server lists its
    files one per line; a file named `SHT3x_Powersave_v<major>.<minor>...`
    has version `major * 100 + minor`, any other line has version -1. The
    chosen file is the first line with the greatest version above -1, and
    its download URL is the server URL followed by the file name, cut to
    the 255 characters of the URL buffer. */
module OtaVersion {

  import opened Util

  // ----- Decimal numerals -----

  predicate IsDigit(c: char) {
    '0' <= c <= '9'
  }

  predicate AllDigits(s: string) {
    forall i | 0 <= i < |s| :: IsDigit(s[i])
  }

  /** Whitespace as the C library's `isspace` defines it. */
  predicate IsSpace(c: char) {
    c == ' ' || c == '\t' || c == '\n' || c == '\U{B}' || c == '\U{C}' || c == '\r'
  }

  function DigitValue(c: char): (d: nat)
    requires IsDigit(c)
    ensures d < 10
  {
    c as int - '0' as int
  }

  function DigitChar(d: nat): (c: char)
    requires d < 10
    ensures IsDigit(c) && DigitValue(c) == d
  {
    ('0' as int + d) as char
  }

  /** The value of a string of digits, most significant first. */
  function DigitsValue(s: string): nat
    requires AllDigits(s)
    decreases |s|
  {
    if |s| == 0 then 0 else 10 * DigitsValue(s[..|s| - 1]) + DigitValue(s[|s| - 1])
  }

  /** `%d` printing of a natural number: no sign, no leading zero. */
  function Decimal(n: nat): (s: string)
    ensures |s| >= 1 && AllDigits(s)
    ensures |s| > 1 ==> s[0] != '0'
    decreases n
  {
    if n < 10 then [DigitChar(n)] else Decimal(n / 10) + [DigitChar(n % 10)]
  }

  lemma {:induction false} DecimalValue(n: nat)
    ensures DigitsValue(Decimal(n)) == n
    decreases n
  {
    if n >= 10 {
      DecimalValue(n / 10);
      var s := Decimal(n);
      assert s[..|s| - 1] == Decimal(n / 10);
    }
  }

  // ----- Scanning `%d` -----

  /** The length of the longest prefix of `s` whose characters satisfy
      the digit test or, with `spaces`, the whitespace test. */
  function Run(s: string, spaces: bool): (k: nat)
    ensures k <= |s|
    ensures forall i | 0 <= i < k :: if spaces then IsSpace(s[i]) else IsDigit(s[i])
    ensures k < |s| ==> !(if spaces then IsSpace(s[k]) else IsDigit(s[k]))
    decreases |s|
  {
    if |s| > 0 && (if spaces then IsSpace(s[0]) else IsDigit(s[0])) then 1 + Run(s[1..], spaces) else 0
  }

  /** A converted `%d`: its value and how many characters it consumed. */
  datatype Scan = Scan(value: int, used: nat)

  /** What `%d` reads from the front of `s`: leading whitespace, an optional
      sign, then the longest run of digits, which must not be empty. The
      value is unbounded (no overflow). */
  function ScanInt(s: string): (r: Option<Scan>)
    ensures r.Some? ==> 0 < r.value.used <= |s|
  {
    var w := Run(s, true);
    ScanSigned(s[w..], w)
  }

  /** The optional sign, after `used` characters of whitespace. */
  function ScanSigned(t: string, used: nat): (r: Option<Scan>)
    ensures r.Some? ==> used < r.value.used <= used + |t|
  {
    if |t| > 0 && (t[0] == '-' || t[0] == '+') then ScanDigits(t[1..], used + 1, t[0] == '-')
    else ScanDigits(t, used, false)
  }

  /** The digits, after `used` characters of whitespace and sign. */
  function ScanDigits(u: string, used: nat, negative: bool): (r: Option<Scan>)
    ensures r.Some? ==> used < r.value.used <= used + |u|
  {
    var k := Run(u, false);
    if k == 0 then None
    else
      var magnitude: int := DigitsValue(u[..k]);
      Some(Scan(if negative then 0 - magnitude else magnitude, used + k))
  }

  lemma {:induction false} RunOfDigits(d: string, rest: string)
    requires AllDigits(d)
    requires |rest| == 0 || !IsDigit(rest[0])
    ensures Run(d + rest, false) == |d|
    decreases |d|
  {
    if |d| > 0 {
      assert (d + rest)[1..] == d[1..] + rest;
      RunOfDigits(d[1..], rest);
    } else {
      assert d + rest == rest;
    }
  }

  /** With no whitespace or sign in front, `%d` reads the run of digits
      the string starts with. */
  lemma ScanAtDigit(s: string)
    requires |s| > 0 && IsDigit(s[0])
    ensures ScanInt(s) == Some(Scan(DigitsValue(s[..Run(s, false)]), Run(s, false)))
  {
    assert !IsSpace(s[0]);
    assert Run(s, true) == 0;
    assert s[0..] == s;
    assert ScanSigned(s, 0) == ScanDigits(s, 0, false);
  }

  /** `%d` reads back what `%d` printed, and stops where the numeral ends. */
  lemma ScanDecimal(n: nat, rest: string)
    requires |rest| == 0 || !IsDigit(rest[0])
    ensures ScanInt(Decimal(n) + rest) == Some(Scan(n, |Decimal(n)|))
  {
    var d := Decimal(n);
    var s := d + rest;
    assert s[0] == d[0];
    ScanAtDigit(s);
    RunOfDigits(d, rest);
    assert s[..|d|] == d;
    DecimalValue(n);
  }

  // ----- `extract_version` -----

  const Prefix: string := "SHT3x_Powersave_v"

  datatype Version = Version(major: int, minor: int)

  /** `sscanf(line, "SHT3x_Powersave_v%d.%d", ...)` when it converts both
      numbers: the literal prefix, a `%d`, a literal `.`, a `%d`. */
  function ParseVersion(line: string): (r: Option<Version>)
    ensures r.Some? ==> Prefix <= line
  {
    if Prefix <= line then ParseNumbers(line[|Prefix|..]) else None
  }

  /** The part of the conversion after the literal prefix. */
  function ParseNumbers(a: string): Option<Version> {
    match ScanInt(a)
    case None => None
    case Some(major) =>
      var b := a[major.used..];
      if |b| == 0 || b[0] != '.' then None
      else
        match ScanInt(b[1..])
        case None => None
        case Some(minor) => Some(Version(major.value, minor.value))
  }

  /** `extract_version`: `major * 100 + minor`, or -1 when the line is not a
      firmware file name. */
  function ExtractVersion(line: string): (v: int)
    ensures !(Prefix <= line) ==> v == -1
    ensures Prefix <= line ==>
              var a := line[|Prefix|..];
              match ScanInt(a)
              case None => v == -1
              case Some(major) =>
                var b := a[major.used..];
                if |b| == 0 || b[0] != '.' then v == -1
                else
                  match ScanInt(b[1..])
                  case None => v == -1
                  case Some(minor) => v == major.value * 100 + minor.value
  {
    match ParseVersion(line)
    case None => -1
    case Some(ver) => ver.major * 100 + ver.minor
  }

  /** The file name of a release: prefix, major, dot, minor, and a suffix
      such as `.bin`. */
  function FileName(major: nat, minor: nat, suffix: string): (s: string)
    ensures Prefix <= s
  {
    Prefix + Decimal(major) + "." + Decimal(minor) + suffix
  }

  /** Every release file name parses back to its own numbers, whatever
      suffix follows the minor number, as long as it does not continue the
      numeral. */
  lemma ParseFileName(major: nat, minor: nat, suffix: string)
    requires |suffix| == 0 || !IsDigit(suffix[0])
    ensures ParseVersion(FileName(major, minor, suffix)) == Some(Version(major, minor))
    ensures ExtractVersion(FileName(major, minor, suffix)) == major * 100 + minor
  {
    ParseVersionOfFileName(major, minor, suffix);
    ExtractOfParse(FileName(major, minor, suffix), Version(major, minor));
  }

  lemma ParseVersionOfFileName(major: nat, minor: nat, suffix: string)
    requires |suffix| == 0 || !IsDigit(suffix[0])
    ensures ParseVersion(FileName(major, minor, suffix)) == Some(Version(major, minor))
  {
    var a := Decimal(major) + "." + Decimal(minor) + suffix;
    FileNameSplit(major, minor, suffix);
    PrefixThen(a);
    ParseNumbersOf(major, minor, suffix);
  }

  lemma FileNameSplit(major: nat, minor: nat, suffix: string)
    ensures FileName(major, minor, suffix) == Prefix + (Decimal(major) + "." + Decimal(minor) + suffix)
  {
  }

  lemma ExtractOfParse(line: string, v: Version)
    requires ParseVersion(line) == Some(v)
    ensures ExtractVersion(line) == v.major * 100 + v.minor
  {
  }

  lemma PrefixThen(a: string)
    ensures ParseVersion(Prefix + a) == ParseNumbers(a)
  {
    assert Prefix <= Prefix + a;
    assert (Prefix + a)[|Prefix|..] == a;
  }

  lemma ParseNumbersOf(major: nat, minor: nat, suffix: string)
    requires |suffix| == 0 || !IsDigit(suffix[0])
    ensures ParseNumbers(Decimal(major) + "." + Decimal(minor) + suffix) == Some(Version(major, minor))
  {
    var rest := Decimal(minor) + suffix;
    DotThen(Decimal(major), Decimal(minor), suffix);
    ScanDecimal(major, "." + rest);
    ScanDecimal(minor, suffix);
    ParseNumbersOfScans(Decimal(major) + ("." + rest), major, |Decimal(major)|, rest, minor);
  }

  lemma DotThen(x: string, y: string, z: string)
    ensures x + "." + y + z == x + ("." + (y + z))
    ensures (x + ("." + (y + z)))[|x|..] == "." + (y + z)
    ensures ("." + (y + z))[0] == '.'
  {
  }

  /** The two conversions and the literal dot between them. */
  lemma ParseNumbersOfScans(a: string, major: int, len: nat, rest: string, minor: int)
    requires ScanInt(a) == Some(Scan(major, len))
    requires a[len..] == "." + rest
    requires ScanInt(rest).Some? && ScanInt(rest).value.value == minor
    ensures ParseNumbers(a) == Some(Version(major, minor))
  {
    assert a[len..][1..] == rest;
  }

  /** `%d` as written by hand: whitespace, an optional sign, and digits,
      possibly with leading zeros. */
  predicate IsNumeral(ws: string, sign: string, d: string) {
    (forall i | 0 <= i < |ws| :: IsSpace(ws[i]))
    && (sign == "" || sign == "+" || sign == "-")
    && |d| > 0 && AllDigits(d)
  }

  function NumeralValue(sign: string, d: string): int
    requires AllDigits(d)
  {
    if sign == "-" then 0 - DigitsValue(d) else DigitsValue(d)
  }

  lemma {:induction false} RunOfSpaces(ws: string, t: string)
    requires forall i | 0 <= i < |ws| :: IsSpace(ws[i])
    requires |t| == 0 || !IsSpace(t[0])
    ensures Run(ws + t, true) == |ws|
    decreases |ws|
  {
    if |ws| > 0 {
      assert (ws + t)[1..] == ws[1..] + t;
      RunOfSpaces(ws[1..], t);
    } else {
      assert ws + t == t;
    }
  }

  lemma ScanDigitsOf(d: string, rest: string, used: nat, negative: bool)
    requires |d| > 0 && AllDigits(d)
    requires |rest| == 0 || !IsDigit(rest[0])
    ensures ScanDigits(d + rest, used, negative)
              == Some(Scan(if negative then 0 - DigitsValue(d) else DigitsValue(d), used + |d|))
  {
    RunOfDigits(d, rest);
    assert (d + rest)[..|d|] == d;
    ScanDigitRun(d + rest, used, negative, d);
  }

  lemma ScanDigitRun(u: string, used: nat, negative: bool, d: string)
    requires |d| > 0 && AllDigits(d)
    requires Run(u, false) == |d| && u[..|d|] == d
    ensures ScanDigits(u, used, negative)
              == Some(Scan(if negative then 0 - DigitsValue(d) else DigitsValue(d), used + |d|))
  {
  }

  lemma ScanSignedOf(sign: string, d: string, rest: string, used: nat)
    requires sign == "" || sign == "+" || sign == "-"
    requires |d| > 0 && IsDigit(d[0])
    ensures ScanSigned(sign + d + rest, used) == ScanDigits(d + rest, used + |sign|, sign == "-")
  {
    if sign == "" {
      assert sign + d + rest == d + rest;
    } else {
      assert (sign + d + rest)[0] == sign[0];
      assert (sign + d + rest)[1..] == d + rest;
    }
  }

  /** `%d` reads any numeral it accepts, not only the ones `%d` prints:
      leading whitespace and a sign are consumed and leading zeros do not
      count. */
  lemma ScanNumeral(ws: string, sign: string, d: string, rest: string)
    requires IsNumeral(ws, sign, d)
    requires |rest| == 0 || !IsDigit(rest[0])
    ensures ScanInt(ws + sign + d + rest) == Some(Scan(NumeralValue(sign, d), |ws| + |sign| + |d|))
  {
    var t := sign + d + rest;
    SignedNumeralStart(ws, sign, d, rest);
    RunOfSpaces(ws, t);
    ScanAfterSpaces(ws + t, |ws|, t);
    ScanSignedOf(sign, d, rest, |ws|);
    ScanDigitsOf(d, rest, |ws| + |sign|, sign == "-");
  }

  lemma SignedNumeralStart(ws: string, sign: string, d: string, rest: string)
    requires sign == "" || sign == "+" || sign == "-"
    requires |d| > 0 && IsDigit(d[0])
    ensures ws + sign + d + rest == ws + (sign + d + rest)
    ensures (ws + (sign + d + rest))[|ws|..] == sign + d + rest
    ensures !IsSpace((sign + d + rest)[0])
  {
    assert (sign + d + rest)[0] == if sign == "" then d[0] else sign[0];
  }

  lemma ScanAfterSpaces(s: string, w: nat, t: string)
    requires w <= |s| && Run(s, true) == w && s[w..] == t
    ensures ScanInt(s) == ScanSigned(t, w)
  {
  }

  /** `%d` converts nothing from a string that starts with neither
      whitespace, a sign nor a digit. */
  lemma NoNumeral(s: string)
    requires |s| > 0 && !IsSpace(s[0]) && !IsDigit(s[0]) && s[0] != '-' && s[0] != '+'
    ensures ScanInt(s).None?
  {
    assert Run(s, true) == 0;
    assert s[0..] == s;
    assert Run(s, false) == 0;
  }

  /** Every name the conversion accepts, written with any whitespace, signs
      and leading zeros, gets `major * 100 + minor` of the numerals' values. */
  lemma ParseAnyFileName(ws1: string, sign1: string, d1: string,
                         ws2: string, sign2: string, d2: string, suffix: string)
    requires IsNumeral(ws1, sign1, d1) && IsNumeral(ws2, sign2, d2)
    requires |suffix| == 0 || !IsDigit(suffix[0])
    ensures ExtractVersion(Prefix + (ws1 + sign1 + d1) + "." + (ws2 + sign2 + d2) + suffix)
              == NumeralValue(sign1, d1) * 100 + NumeralValue(sign2, d2)
  {
    var name := Prefix + (ws1 + sign1 + d1) + "." + (ws2 + sign2 + d2) + suffix;
    var v := Version(NumeralValue(sign1, d1), NumeralValue(sign2, d2));
    ParseVersionOfAnyName(ws1, sign1, d1, ws2, sign2, d2, suffix);
    ExtractOfParse(name, v);
  }

  lemma ParseVersionOfAnyName(ws1: string, sign1: string, d1: string,
                              ws2: string, sign2: string, d2: string, suffix: string)
    requires IsNumeral(ws1, sign1, d1) && IsNumeral(ws2, sign2, d2)
    requires |suffix| == 0 || !IsDigit(suffix[0])
    ensures ParseVersion(Prefix + (ws1 + sign1 + d1) + "." + (ws2 + sign2 + d2) + suffix)
              == Some(Version(NumeralValue(sign1, d1), NumeralValue(sign2, d2)))
  {
    var n, m := ws1 + sign1 + d1, ws2 + sign2 + d2;
    NameSplit(n, m, suffix);
    PrefixThen(n + ("." + (m + suffix)));
    NumbersOfAnyName(ws1, sign1, d1, ws2, sign2, d2, suffix);
  }

  lemma NumbersOfAnyName(ws1: string, sign1: string, d1: string,
                         ws2: string, sign2: string, d2: string, suffix: string)
    requires IsNumeral(ws1, sign1, d1) && IsNumeral(ws2, sign2, d2)
    requires |suffix| == 0 || !IsDigit(suffix[0])
    ensures ParseNumbers((ws1 + sign1 + d1) + ("." + ((ws2 + sign2 + d2) + suffix)))
              == Some(Version(NumeralValue(sign1, d1), NumeralValue(sign2, d2)))
  {
    var n, m := ws1 + sign1 + d1, ws2 + sign2 + d2;
    var a := n + ("." + (m + suffix));
    ScanNumeral(ws1, sign1, d1, "." + (m + suffix));
    ScanNumeral(ws2, sign2, d2, suffix);
    NameSplit(n, m, suffix);
    ParseNumbersOfScans(a, NumeralValue(sign1, d1), |n|, m + suffix, NumeralValue(sign2, d2));
  }

  /** A name whose major number is not followed by a dot and a numeral
      is no release, whatever follows. */
  lemma MissingMinor(ws: string, sign: string, d: string, rest: string)
    requires IsNumeral(ws, sign, d)
    requires ScanInt(rest).None?
    ensures ExtractVersion(Prefix + (ws + sign + d) + "." + rest) == -1
  {
    var n := ws + sign + d;
    DotSplit(n, rest);
    PrefixThen(n + ("." + rest));
    ScanNumeral(ws, sign, d, "." + rest);
    NoMinorScan(n + ("." + rest), |n|, rest);
  }

  lemma DotSplit(n: string, rest: string)
    ensures Prefix + n + "." + rest == Prefix + (n + ("." + rest))
    ensures (n + ("." + rest))[|n|..] == "." + rest
  {
  }

  /** Where the major numeral `n` of a name ends. */
  lemma NameSplit(n: string, m: string, suffix: string)
    ensures Prefix + n + "." + m + suffix == Prefix + (n + ("." + (m + suffix)))
    ensures (n + ("." + (m + suffix)))[|n|..] == "." + (m + suffix)
  {
  }

  lemma TailSplit(n: string, rest: string)
    ensures Prefix + n + rest == Prefix + (n + rest)
    ensures (n + rest)[|n|..] == rest
  {
  }

  lemma NoMinorScan(a: string, len: nat, rest: string)
    requires ScanInt(a).Some? && ScanInt(a).value.used == len
    requires a[len..] == "." + rest && ScanInt(rest).None?
    ensures ParseNumbers(a).None?
  {
    assert a[len..][1..] == rest;
  }

  /** A major number with no dot after it is no release either. */
  lemma MissingDot(ws: string, sign: string, d: string, rest: string)
    requires IsNumeral(ws, sign, d)
    requires |rest| == 0 || (rest[0] != '.' && !IsDigit(rest[0]))
    ensures ExtractVersion(Prefix + (ws + sign + d) + rest) == -1
  {
    var a := ws + sign + d + rest;
    TailSplit(ws + sign + d, rest);
    PrefixThen(a);
    ScanNumeral(ws, sign, d, rest);
  }

  /** For instance, a name with no minor number is no release. */
  lemma MissingMinorRejected()
    ensures ExtractVersion("SHT3x_Powersave_v1.bin") == -1
  {
    MissingMinorSpelled();
    NoNumeral("bin");
    MissingMinor("", "", "1", "bin");
  }

  lemma MissingMinorSpelled()
    ensures Prefix + ("" + "" + "1") + "." + "bin" == "SHT3x_Powersave_v1.bin"
    ensures IsNumeral("", "", "1")
  {
  }

  /** A name with no major number is no release. */
  lemma MissingMajorRejected()
    ensures ExtractVersion("SHT3x_Powersave_vX") == -1
  {
    assert "SHT3x_Powersave_vX" == Prefix + "X";
    PrefixThen("X");
    NoNumeral("X");
  }

  /** A name the conversion accepts can still have version -1, and is then
      ignored like a line that is no file name. */
  lemma NegativeMinorIgnored()
    ensures ExtractVersion("SHT3x_Powersave_v0.-1.bin") == -1
  {
    NegativeMinorSpelled();
    ParseAnyFileName("", "", "0", "", "-", "1", ".bin");
  }

  lemma NegativeMinorSpelled()
    ensures Prefix + ("" + "" + "0") + "." + ("" + "-" + "1") + ".bin" == "SHT3x_Powersave_v0.-1.bin"
    ensures IsNumeral("", "", "0") && IsNumeral("", "-", "1")
    ensures NumeralValue("", "0") * 100 + NumeralValue("-", "1") == -1
  {
  }

  /** Within the intended range (minor below 100) the version number orders
      releases by major, then minor, and two releases share a number only
      if they are the same release. */
  lemma VersionOrder(major1: nat, minor1: nat, major2: nat, minor2: nat)
    requires minor1 < 100 && minor2 < 100
    ensures major1 * 100 + minor1 < major2 * 100 + minor2 <==>
              major1 < major2 || (major1 == major2 && minor1 < minor2)
    ensures major1 * 100 + minor1 == major2 * 100 + minor2 <==>
              major1 == major2 && minor1 == minor2
  {
    if major1 < major2 {
      assert major1 * 100 + 100 <= major2 * 100;
    } else if major1 > major2 {
      assert major2 * 100 + 100 <= major1 * 100;
    }
  }

  /** Outside that range numbers collide: v1.100 and v2.0 get the same
      version, so neither is preferred over the other. */
  lemma MinorOverflowCollides()
    ensures ExtractVersion(FileName(1, 100, ".bin")) == ExtractVersion(FileName(2, 0, ".bin"))
  {
    ParseFileName(1, 100, ".bin");
    ParseFileName(2, 0, ".bin");
  }

  // ----- Splitting the listing (`strtok` on newlines) -----

  /** All newline-separated pieces, empty ones included. */
  function Pieces(s: string): (r: seq<string>)
    ensures |r| >= 1
    ensures forall i | 0 <= i < |r| :: '\n' !in r[i]
    decreases |s|
  {
    if |s| == 0 then [[]]
    else
      var rest := Pieces(s[1..]);
      if s[0] == '\n' then [[]] + rest else [[s[0]] + rest[0]] + rest[1..]
  }

  function NonEmpty(ps: seq<string>): (r: seq<string>)
    ensures forall i | 0 <= i < |r| :: |r[i]| > 0
    ensures (forall i | 0 <= i < |ps| :: '\n' !in ps[i]) ==> forall i | 0 <= i < |r| :: '\n' !in r[i]
    decreases |ps|
  {
    if |ps| == 0 then []
    else if |ps[0]| == 0 then NonEmpty(ps[1..])
    else [ps[0]] + NonEmpty(ps[1..])
  }

  /** The tokens successive `strtok(..., "\n")` calls return: the non-empty
      runs of characters between newlines, in order. */
  function Tokens(s: string): (r: seq<string>)
    ensures forall i | 0 <= i < |r| :: |r[i]| > 0 && '\n' !in r[i]
  {
    NonEmpty(Pieces(s))
  }

  /** The listing a server would send: the lines joined by newlines. */
  function JoinLines(lines: seq<string>): string
    decreases |lines|
  {
    if |lines| == 0 then [] else if |lines| == 1 then lines[0] else lines[0] + "\n" + JoinLines(lines[1..])
  }

  lemma {:induction false} PiecesOfLine(line: string, rest: string)
    requires '\n' !in line
    ensures Pieces(line + "\n" + rest) == [line] + Pieces(rest)
    ensures Pieces(line) == [line]
    decreases |line|
  {
    if |line| == 0 {
      assert line + "\n" + rest == "\n" + rest;
      assert ("\n" + rest)[1..] == rest;
    } else {
      assert (line + "\n" + rest)[1..] == line[1..] + "\n" + rest;
      PiecesOfLine(line[1..], rest);
      assert [line[0]] + line[1..] == line;
    }
  }

  /** Splitting a listing of non-empty lines gives back the lines. */
  lemma {:induction false} TokensOfJoin(lines: seq<string>)
    requires forall i | 0 <= i < |lines| :: |lines[i]| > 0 && '\n' !in lines[i]
    ensures Tokens(JoinLines(lines)) == lines
    decreases |lines|
  {
    if |lines| == 1 {
      PiecesOfLine(lines[0], "");
    } else if |lines| > 1 {
      var rest := JoinLines(lines[1..]);
      assert JoinLines(lines) == lines[0] + "\n" + rest;
      PiecesOfLine(lines[0], rest);
      var ps := Pieces(rest);
      assert ([lines[0]] + ps)[1..] == ps;
      assert NonEmpty([lines[0]] + ps) == [lines[0]] + NonEmpty(ps);
      TokensOfJoin(lines[1..]);
      assert lines == [lines[0]] + lines[1..];
    }
  }

  /** A newline before or after a listing adds no token. */
  lemma SurroundingNewlinesSkipped(s: string)
    ensures Tokens("\n" + s) == Tokens(s)
    ensures Tokens(s + "\n") == Tokens(s)
  {
    assert ("\n" + s)[1..] == s;
    assert Pieces("\n" + s) == [[]] + Pieces(s);
    TrailingNewline(s);
    NonEmptyAppendBlank(Pieces(s));
  }

  lemma {:induction false} NonEmptyAppendBlank(ps: seq<string>)
    ensures NonEmpty(ps + [[]]) == NonEmpty(ps)
    decreases |ps|
  {
    if |ps| > 0 {
      assert (ps + [[]])[1..] == ps[1..] + [[]];
      NonEmptyAppendBlank(ps[1..]);
    }
  }

  lemma {:induction false} TrailingNewline(s: string)
    ensures Pieces(s + "\n") == Pieces(s) + [[]]
    decreases |s|
  {
    if |s| == 0 {
      assert Pieces("\n") == [[]] + Pieces([]);
    } else {
      assert (s + "\n")[1..] == s[1..] + "\n";
      TrailingNewline(s[1..]);
    }
  }

  // ----- `find_latest_version` -----

  /** `k` is the first position holding the greatest version, and that
      version is above -1. */
  predicate FirstGreatest(vs: seq<int>, k: nat) {
    k < |vs| && vs[k] > -1
    && (forall j | 0 <= j < |vs| :: vs[j] <= vs[k])
    && (forall j | 0 <= j < k :: vs[j] < vs[k])
  }

  lemma FirstGreatestUnique(vs: seq<int>, k1: nat, k2: nat)
    requires FirstGreatest(vs, k1) && FirstGreatest(vs, k2)
    ensures k1 == k2
  {
  }

  /** The version of every token, in order. */
  function VersionsOf(tokens: seq<string>): (vs: seq<int>)
    ensures |vs| == |tokens|
    decreases |tokens|
  {
    if |tokens| == 0 then []
    else VersionsOf(tokens[..|tokens| - 1]) + [ExtractVersion(tokens[|tokens| - 1])]
  }

  lemma {:induction false} VersionAt(tokens: seq<string>, i: nat)
    requires i < |tokens|
    ensures VersionsOf(tokens)[i] == ExtractVersion(tokens[i])
    decreases |tokens|
  {
    if i < |tokens| - 1 {
      VersionAt(tokens[..|tokens| - 1], i);
    }
  }

  /** `find_latest_version` over the listing: the position among the
      tokens of the chosen line, or nothing when no line is a firmware file
      with a version above -1. */
  method FindLatestVersion(response: string) returns (latest: Option<nat>)
    ensures latest.None? <==> forall i | 0 <= i < |VersionsOf(Tokens(response))| :: VersionsOf(Tokens(response))[i] <= -1
    ensures latest.Some? ==> FirstGreatest(VersionsOf(Tokens(response)), latest.value)
  {
    var vs := VersionsOf(Tokens(response));
    latest := LatestOf(vs);
    assert vs == VersionsOf(Tokens(response));
  }

  /** The scan of `find_latest_version` over the versions of the tokens:
      the best so far starts at -1 and a later token replaces it only with
      a strictly greater version. */
  method LatestOf(vs: seq<int>) returns (latest: Option<nat>)
    ensures latest.None? <==> forall i | 0 <= i < |vs| :: vs[i] <= -1
    ensures latest.Some? ==> FirstGreatest(vs, latest.value)
  {
    latest := None;
    var latestNumber := -1;
    var i := 0;
    while i < |vs|
      invariant 0 <= i <= |vs|
      invariant latest.None? ==> latestNumber == -1
      invariant latest.Some? ==> latest.value < i && latestNumber == vs[latest.value] > -1
      invariant forall j | 0 <= j < i :: vs[j] <= latestNumber
      invariant latest.Some? ==> forall j | 0 <= j < latest.value :: vs[j] < latestNumber
    {
      if vs[i] > latestNumber {
        latestNumber := vs[i];
        latest := Some(i);
      }
      i := i + 1;
    }
  }

  /** The size of the URL buffer. */
  const UrlSize: nat := 256

  /** The download URL: the server URL followed by the chosen file name, as
      far as it fits the buffer. */
  function DownloadUrl(server: string, file: string): (url: string)
    ensures |url| <= UrlSize - 1
    ensures url <= server + file
    ensures |server| + |file| < UrlSize <==> url == server + file
    ensures |server| < UrlSize ==> server <= url
  {
    Bounded(server + file, UrlSize)
  }

  /** What the OTA task does with the answer to its listing request. */
  datatype OtaPlan = HttpGetFailed | EmptyResponse | NoOtaFiles | Download(url: string)

  /** `start_ota_task` up to the download: the listing request must succeed
      with a positive content length, then the latest firmware file is
      chosen and its URL built. */
  method PlanOta(server: string, requestOk: bool, contentLength: int, response: string)
    returns (plan: OtaPlan)
    ensures plan == HttpGetFailed <==> !requestOk
    ensures plan == EmptyResponse <==> requestOk && contentLength <= 0
    ensures plan == NoOtaFiles <==>
              requestOk && contentLength > 0
              && forall i | 0 <= i < |VersionsOf(Tokens(response))| :: VersionsOf(Tokens(response))[i] <= -1
    ensures plan.Download? ==>
              exists k | 0 <= k < |Tokens(response)| ::
                FirstGreatest(VersionsOf(Tokens(response)), k)
                && plan.url == DownloadUrl(server, Tokens(response)[k])
    ensures plan.Download? <==>
              requestOk && contentLength > 0
              && exists i | 0 <= i < |VersionsOf(Tokens(response))| :: VersionsOf(Tokens(response))[i] > -1
  {
    if !requestOk {
      return HttpGetFailed;
    }
    if contentLength <= 0 {
      return EmptyResponse;
    }
    var latest := FindLatestVersion(response);
    if latest.None? {
      return NoOtaFiles;
    }
    var tokens := Tokens(response);
    plan := Download(DownloadUrl(server, tokens[latest.value]));
  }
}
