/** The TinyGPS parser: NMEA 0183 terms read into fields, published sentence by
    sentence through the framing of `NmeaFraming`. */
module TinyGps {
  import opened Arith
  import opened NmeaFraming

  const U32: nat := 0x1_0000_0000

  /** 32-bit wrap-around. */
  function Wrap(x: nat): (w: nat)
    ensures w < U32
  {
    if x < U32 then x else Wrap(x - U32)
  }

  // -------------------------------------------------------------- characters

  /** Characters are bytes. */
  function Code(c: char): (n: nat)
    ensures n < 256
  {
    c as int % 256
  }

  /** The bit of weight `w` of an exclusive or, in place. */
  function XorBit(a: nat, b: nat, w: nat): (x: nat)
    requires w > 0
    ensures x == 0 || x == w
  {
    if a / w % 2 == b / w % 2 then 0 else w
  }

  /** Bitwise exclusive or of two bytes. */
  function XorBytes(a: nat, b: nat): (x: nat)
    ensures x < 256
  {
    XorBit(a, b, 128) + XorBit(a, b, 64) + XorBit(a, b, 32) + XorBit(a, b, 16)
    + XorBit(a, b, 8) + XorBit(a, b, 4) + XorBit(a, b, 2) + XorBit(a, b, 1)
  }

  function Xor(parity: nat, c: char): (x: nat)
    ensures x < 256
  {
    XorBytes(parity, Code(c))
  }

  predicate IsDigit(c: char) { '0' <= c <= '9' }

  function Digit(c: char): (d: nat)
    requires IsDigit(c)
    ensures d < 10
  {
    c as int - '0' as int
  }

  function FromHex(a: char): (v: int) {
    if 'A' <= a <= 'F' then a as int - 'A' as int + 10
    else if 'a' <= a <= 'f' then a as int - 'a' as int + 10
    else a as int - '0' as int
  }

  // ------------------------------------------------------- numbers in a term

  predicate AllDigits(s: string) { forall i :: 0 <= i < |s| ==> IsDigit(s[i]) }

  /** How many digits a text starts with. */
  function DigitRun(s: string): (n: nat)
    ensures n <= |s| && AllDigits(s[..n]) && (n < |s| ==> !IsDigit(s[n]))
  {
    if |s| == 0 || !IsDigit(s[0]) then 0
    else
      var n := 1 + DigitRun(s[1..]);
      assert forall i :: 1 <= i < n ==> s[i] == s[1..][..n - 1][i - 1];
      n
  }

  /** The number a digit string stands for. */
  function Number(s: string): (v: nat)
    requires AllDigits(s)
  {
    if |s| == 0 then 0 else 10 * Number(s[..|s| - 1]) + Digit(s[|s| - 1])
  }

  /** `gpsatol` in a 32-bit long. */
  function Atol(s: string): (v: nat)
    ensures v < U32
  {
    Wrap(Number(s[..DigitRun(s)]))
  }

  /** Hundredths after the point: at most two digits count. */
  function Hundredths(s: string): (v: nat) {
    if |s| >= 2 && s[0] == '.' && IsDigit(s[1]) then
      10 * Digit(s[1]) + if |s| >= 3 && IsDigit(s[2]) then Digit(s[2]) else 0
    else 0
  }

  function Negated(v: nat): (w: nat)
    ensures w < U32
  {
    Wrap(U32 - Wrap(v))
  }

  /** An unsigned number in hundredths. */
  function ParseUnsigned(p: string): (v: nat)
    ensures v < U32
  {
    Wrap(100 * Atol(p) + Hundredths(p[DigitRun(p)..]))
  }

  /** `gps_parse_decimal`: a number in hundredths. */
  function ParseDecimal(s: string): (v: nat)
    ensures v < U32
  {
    if |s| > 0 && s[0] == '-' then Negated(ParseUnsigned(s[1..])) else ParseUnsigned(s)
  }

  /** The digits after the point of a term, if any. */
  function Fraction(s: string): (f: string)
    ensures AllDigits(f)
  {
    var rest := s[DigitRun(s)..];
    if |rest| > 0 && rest[0] == '.' then rest[1..][..DigitRun(rest[1..])] else []
  }

  /** Ten-thousandths from fraction digits, `mult` for the first. */
  function Scaled(f: string, mult: nat): (v: nat)
    requires AllDigits(f)
  {
    if |f| == 0 then 0 else mult * Digit(f[0]) + Scaled(f[1..], mult / 10)
  }

  /** Degrees from dddmm and ten-thousandths of a minute, in 32-bit arithmetic. */
  function DegreesFrom(left: nat, fraction: nat): (v: nat)
    ensures v < U32
  {
    Wrap(left / 100 * 100000 + Wrap(left % 100 * 10000 + fraction) / 6)
  }

  /** `gps_parse_degrees`: hundred-thousandths of a degree from dddmm.mmmm. */
  function ParseDegrees(s: string): (v: nat)
    ensures v < U32
  {
    DegreesFrom(Atol(s), Scaled(Fraction(s), 1000))
  }

  predicate IsSpace(c: char) { c == ' ' || '\t' <= c <= '\r' }

  function SkipSpace(s: string): (t: string) { if |s| > 0 && IsSpace(s[0]) then SkipSpace(s[1..]) else s }

  /** The number a text starts with. */
  function Leading(s: string): (v: nat) { Number(s[..DigitRun(s)]) }

  /** The low byte of a number. */
  function LowByte(n: int): (b: nat)
    ensures b < 256
  {
    if 0 <= n < 256 then n else n % 256
  }

  /** `(unsigned char)atoi`. */
  function SmallAtoi(s: string): (v: nat)
    ensures v < 256
  {
    var t := SkipSpace(s);
    if |t| > 0 && t[0] == '-' then LowByte(0 - Leading(t[1..]))
    else if |t| > 0 && t[0] == '+' then LowByte(Leading(t[1..]))
    else LowByte(Leading(t))
  }

  /** The four conversions the parser calls on a term.  What it does with sentences
      is proved for any such functions; `GpsReport` states it for the program's own. */
  datatype Numbers = Numbers(decimal: string -> nat, degrees: string -> nat, long: string -> nat, small: string -> nat)

  function TheNumbers(): (nums: Numbers) {
    Numbers(s => ParseDecimal(s), s => ParseDegrees(s), s => Atol(s), s => SmallAtoi(s))
  }

  // ------------------------------------------------------------------ fields

  datatype Kind = Gga | Rmc | Other

  datatype Fields = Fields(time: nat, date: nat, latitude: nat, longitude: nat, altitude: nat,
                           speed: nat, course: nat, hdop: nat, satellites: nat)

  /** What the parser has gathered from a sentence so far. */
  datatype Gathered = Gathered(kind: Kind, fields: Fields, good: bool)

  /** `gpsstrcmp` returns zero exactly on prefixes of its second argument. */
  predicate Matches(s: string, name: string) { s <= name }

  function KindOf(s: string): (k: Kind) {
    if Matches(s, "GPRMC") then Rmc else if Matches(s, "GPGGA") then Gga else Other
  }

  /** `COMBINE`: sentence type shifted up, or-ed with the term number. */
  function Combine(k: Kind, n: nat): (key: nat)
    requires k != Other
  {
    if k == Gga then n else if n / 32 % 2 == 1 then n else n + 32
  }

  /** The field a term goes to. */
  function SetField(nums: Numbers, f: Fields, key: nat, s: string): (f': Fields)
    requires |s| > 0
  {
    if key == 1 || key == 33 then f.(time := nums.decimal(s))
    else if key == 2 || key == 35 then f.(latitude := nums.degrees(s))
    else if key == 3 || key == 36 then f.(latitude := Hemisphere(f.latitude, s, 'S'))
    else if key == 4 || key == 37 then f.(longitude := nums.degrees(s))
    else if key == 5 || key == 38 then f.(longitude := Hemisphere(f.longitude, s, 'W'))
    else if key == 39 then f.(speed := nums.decimal(s))
    else if key == 40 then f.(course := nums.decimal(s))
    else if key == 41 then f.(date := nums.long(s))
    else if key == 7 then f.(satellites := nums.small(s))
    else if key == 8 then f.(hdop := nums.decimal(s))
    else if key == 9 then f.(altitude := nums.decimal(s))
    else f
  }

  function Hemisphere(v: nat, s: string, negative: char): (w: nat) {
    if |s| > 0 && s[0] == negative then Negated(v) else v
  }

  predicate SetGood(good: bool, key: nat, s: string)
    requires |s| > 0
  {
    if key == 34 then s[0] == 'A' else if key == 6 then s[0] > '0' else good
  }

  /** The effect of completing term number `n`. */
  function Absorb(nums: Numbers, a: Gathered, n: nat, t: string): (b: Gathered) {
    if n == 0 then a.(kind := KindOf(t))
    else if a.kind != Other && |t| > 0 then
      var key := Combine(a.kind, n);
      Gathered(a.kind, SetField(nums, a.fields, key, t), SetGood(a.good, key, t))
    else a
  }

  /** What a validated sentence makes public. */
  function Publish(g: Gathered, old_: Fields): (f: Fields) {
    var n := g.fields;
    match g.kind
    case Rmc => old_.(time := n.time, date := n.date, latitude := n.latitude, longitude := n.longitude,
                      speed := n.speed, course := n.course)
    case Gga => old_.(altitude := n.altitude, time := n.time, latitude := n.latitude, longitude := n.longitude,
                      satellites := n.satellites, hdop := n.hdop)
    case Other => old_
  }

  /** The byte two characters spell. */
  function Spelled(a: char, b: char): (v: nat)
    ensures v < 256
  {
    (16 * FromHex(a) + FromHex(b)) % 256
  }

  function TheOps(nums: Numbers): (ops: Ops<Gathered, Fields>) {
    Ops((g: Gathered) => Gathered(Other, g.fields, false),
        (g: Gathered, n: nat, s: string) => Absorb(nums, g, n, s),
        (g: Gathered) => g.good,
        (g: Gathered, f: Fields) => Publish(g, f),
        (a: char, b: char) => Spelled(a, b),
        (x: nat, c: char) => Xor(x, c))
  }

  type GpsParser = Parser<Gathered, Fields>

  const NO_FIELDS := Fields(0, 0, 0, 0, 0, 0, 0, 0, 0)

  /** The parser as the program starts: all globals zero, which names a GPGGA. */
  function PowerUp(): (p: GpsParser)
    ensures Valid(p)
  {
    Parser(0, false, seq(TERM, _ => NUL), 0, 0, Gathered(Gga, NO_FIELDS, false), NO_FIELDS)
  }

  lemma StartsWell(nums: Numbers)
    ensures AtStart(TheOps(nums), PowerUp()) && ResetLowers(TheOps(nums))
  {
  }

  /** Publication safety of the GPS parser, over every character stream from
      power-up. */
  lemma GpsPublicationSafety(nums: Numbers, cs: string, c: char)
    ensures SafeStep(TheOps(nums), PowerUp(), cs, c)
  {
    StartsWell(nums);
    PublicationSafety(TheOps(nums), PowerUp(), cs, c);
  }

  // ---------------------------------------------------------- GPRMC and GPGGA

  /** Term `k`; one that is missing counts as empty. */
  function Term(terms: seq<string>, k: nat): (t: string) { if k < |terms| then terms[k] else [] }

  /** What a term makes of a field: its conversion, or what was there before if the
      term is empty. */
  function Read(convert: string -> nat, t: string, kept: nat): (v: nat) { if |t| > 0 then convert(t) else kept }

  /** The fields a GPRMC sentence publishes; `kept` are those pending before it. */
  function RmcFields(nums: Numbers, f: Fields, kept: Fields, terms: seq<string>): (g: Fields) {
    f.(time := Read(nums.decimal, Term(terms, 1), kept.time),
       latitude := Hemisphere(Read(nums.degrees, Term(terms, 3), kept.latitude), Term(terms, 4), 'S'),
       longitude := Hemisphere(Read(nums.degrees, Term(terms, 5), kept.longitude), Term(terms, 6), 'W'),
       speed := Read(nums.decimal, Term(terms, 7), kept.speed),
       course := Read(nums.decimal, Term(terms, 8), kept.course),
       date := Read(nums.long, Term(terms, 9), kept.date))
  }

  /** The fields a GPGGA sentence publishes. */
  function GgaFields(nums: Numbers, f: Fields, kept: Fields, terms: seq<string>): (g: Fields) {
    f.(time := Read(nums.decimal, Term(terms, 1), kept.time),
       latitude := Hemisphere(Read(nums.degrees, Term(terms, 2), kept.latitude), Term(terms, 3), 'S'),
       longitude := Hemisphere(Read(nums.degrees, Term(terms, 4), kept.longitude), Term(terms, 5), 'W'),
       satellites := Read(nums.small, Term(terms, 7), kept.satellites),
       hdop := Read(nums.decimal, Term(terms, 8), kept.hdop),
       altitude := Read(nums.decimal, Term(terms, 9), kept.altitude))
  }

  /** A name read as GPGGA: a prefix of it that is not one of GPRMC, which comes first. */
  predicate GgaName(t: string) { t <= "GPGGA" && !(t <= "GPRMC") }

  /** GPRMC: status 'A'. */
  predicate RmcGood(terms: seq<string>) { |Term(terms, 2)| > 0 && Term(terms, 2)[0] == 'A' }

  /** GPGGA: fix quality above '0'. */
  predicate GgaGood(terms: seq<string>) { |Term(terms, 6)| > 0 && Term(terms, 6)[0] > '0' }

  lemma AbsorbStep(nums: Numbers, g: Gathered, terms: seq<string>, k: nat)
    requires k < |terms|
    ensures AbsorbAll(TheOps(nums), g, terms, k + 1) == Absorb(nums, AbsorbAll(TheOps(nums), g, terms, k), k, terms[k])
  {
  }

  /** What the terms up to `k` gather, as many as there are. */
  function Absorbed(nums: Numbers, g: Gathered, terms: seq<string>, k: nat): (h: Gathered) {
    AbsorbAll(TheOps(nums), g, terms, if k < |terms| then k else |terms|)
  }

  lemma AbsorbedStep(nums: Numbers, g: Gathered, terms: seq<string>, k: nat)
    requires 0 < |terms|
    ensures Absorbed(nums, g, terms, k + 1) == Absorb(nums, Absorbed(nums, g, terms, k), k, Term(terms, k))
  {
    if k < |terms| {
      AbsorbStep(nums, g, terms, k);
    }
  }

  /** Terms past the ninth of a sentence of at most 32 terms change nothing. */
  lemma {:induction false} LateTermsIgnored(nums: Numbers, g: Gathered, terms: seq<string>, k: nat)
    requires 10 <= k <= 32 && 0 < |terms|
    ensures Absorbed(nums, g, terms, k) == Absorbed(nums, g, terms, 10)
  {
    if k == 10 {
    } else {
      LateTermsIgnored(nums, g, terms, k - 1);
      AbsorbedStep(nums, g, terms, k - 1);
      LateTerm(nums, Absorbed(nums, g, terms, 10), k - 1, Term(terms, k - 1));
    }
  }

  lemma LateTerm(nums: Numbers, g: Gathered, n: nat, t: string)
    requires 10 <= n < 32
    ensures Absorb(nums, g, n, t) == g
  {
  }

  /** What a sentence gathers is settled by its first ten terms. */
  lemma FirstTen(nums: Numbers, g: Gathered, terms: seq<string>)
    requires 0 < |terms| <= 32
    ensures AbsorbAll(TheOps(nums), g, terms, |terms|) == Absorbed(nums, g, terms, 10)
  {
    if |terms| > 10 {
      LateTermsIgnored(nums, g, terms, |terms|);
    }
  }

  lemma RmcThreeTerms(nums: Numbers, g: Gathered, terms: seq<string>)
    requires 0 < |terms| && terms[0] <= "GPRMC" && !g.good
    ensures Absorbed(nums, g, terms, 3)
         == Gathered(Rmc, g.fields.(time := Read(nums.decimal, Term(terms, 1), g.fields.time)), RmcGood(terms))
  {
    AbsorbedStep(nums, g, terms, 0);
    AbsorbedStep(nums, g, terms, 1);
    AbsorbedStep(nums, g, terms, 2);
  }

  lemma RmcFiveTerms(nums: Numbers, g: Gathered, terms: seq<string>)
    requires 0 < |terms| && terms[0] <= "GPRMC" && !g.good
    ensures var h := Absorbed(nums, g, terms, 3);
      Absorbed(nums, g, terms, 5)
      == h.(fields := h.fields.(latitude := Hemisphere(Read(nums.degrees, Term(terms, 3), h.fields.latitude),
                                                       Term(terms, 4), 'S')))
  {
    RmcThreeTerms(nums, g, terms);
    AbsorbedStep(nums, g, terms, 3);
    AbsorbedStep(nums, g, terms, 4);
  }

  lemma RmcSevenTerms(nums: Numbers, g: Gathered, terms: seq<string>)
    requires 0 < |terms| && terms[0] <= "GPRMC" && !g.good
    ensures var h := Absorbed(nums, g, terms, 5);
      Absorbed(nums, g, terms, 7)
      == h.(fields := h.fields.(longitude := Hemisphere(Read(nums.degrees, Term(terms, 5), h.fields.longitude),
                                                        Term(terms, 6), 'W')))
  {
    RmcThreeTerms(nums, g, terms);
    RmcFiveTerms(nums, g, terms);
    AbsorbedStep(nums, g, terms, 5);
    AbsorbedStep(nums, g, terms, 6);
  }

  lemma RmcNineTerms(nums: Numbers, g: Gathered, terms: seq<string>)
    requires 0 < |terms| && Absorbed(nums, g, terms, 7).kind == Rmc
    ensures var h := Absorbed(nums, g, terms, 7);
      Absorbed(nums, g, terms, 9)
      == h.(fields := h.fields.(speed := Read(nums.decimal, Term(terms, 7), h.fields.speed),
                                course := Read(nums.decimal, Term(terms, 8), h.fields.course)))
  {
    AbsorbedStep(nums, g, terms, 7);
    AbsorbedStep(nums, g, terms, 8);
  }

  lemma RmcTenTerms(nums: Numbers, g: Gathered, terms: seq<string>)
    requires 0 < |terms| && Absorbed(nums, g, terms, 9).kind == Rmc
    ensures var h := Absorbed(nums, g, terms, 9);
      Absorbed(nums, g, terms, 10) == h.(fields := h.fields.(date := Read(nums.long, Term(terms, 9), h.fields.date)))
  {
    AbsorbedStep(nums, g, terms, 9);
  }

  lemma RmcFirstTerms(nums: Numbers, g: Gathered, terms: seq<string>)
    requires 0 < |terms| && terms[0] <= "GPRMC" && !g.good
    ensures Absorbed(nums, g, terms, 10) == Gathered(Rmc, RmcFields(nums, g.fields, g.fields, terms), RmcGood(terms))
  {
    RmcThreeTerms(nums, g, terms);
    RmcFiveTerms(nums, g, terms);
    RmcSevenTerms(nums, g, terms);
    RmcNineTerms(nums, g, terms);
    RmcTenTerms(nums, g, terms);
  }

  lemma GgaTwoTerms(nums: Numbers, g: Gathered, terms: seq<string>)
    requires 0 < |terms| && GgaName(terms[0]) && !g.good
    ensures Absorbed(nums, g, terms, 2)
         == Gathered(Gga, g.fields.(time := Read(nums.decimal, Term(terms, 1), g.fields.time)), false)
  {
    AbsorbedStep(nums, g, terms, 0);
    AbsorbedStep(nums, g, terms, 1);
  }

  lemma GgaFourTerms(nums: Numbers, g: Gathered, terms: seq<string>)
    requires 0 < |terms| && Absorbed(nums, g, terms, 2).kind == Gga
    ensures var h := Absorbed(nums, g, terms, 2);
      Absorbed(nums, g, terms, 4)
      == h.(fields := h.fields.(latitude := Hemisphere(Read(nums.degrees, Term(terms, 2), h.fields.latitude),
                                                       Term(terms, 3), 'S')))
  {
    AbsorbedStep(nums, g, terms, 2);
    AbsorbedStep(nums, g, terms, 3);
  }

  lemma GgaSixTerms(nums: Numbers, g: Gathered, terms: seq<string>)
    requires 0 < |terms| && Absorbed(nums, g, terms, 4).kind == Gga
    ensures var h := Absorbed(nums, g, terms, 4);
      Absorbed(nums, g, terms, 6)
      == h.(fields := h.fields.(longitude := Hemisphere(Read(nums.degrees, Term(terms, 4), h.fields.longitude),
                                                        Term(terms, 5), 'W')))
  {
    AbsorbedStep(nums, g, terms, 4);
    AbsorbedStep(nums, g, terms, 5);
  }

  lemma GgaEightTerms(nums: Numbers, g: Gathered, terms: seq<string>)
    requires 0 < |terms| && Absorbed(nums, g, terms, 6).kind == Gga && !Absorbed(nums, g, terms, 6).good
    ensures var h := Absorbed(nums, g, terms, 6);
      Absorbed(nums, g, terms, 8)
      == Gathered(Gga, h.fields.(satellites := Read(nums.small, Term(terms, 7), h.fields.satellites)), GgaGood(terms))
  {
    AbsorbedStep(nums, g, terms, 6);
    AbsorbedStep(nums, g, terms, 7);
  }

  lemma GgaTenTerms(nums: Numbers, g: Gathered, terms: seq<string>)
    requires 0 < |terms| && Absorbed(nums, g, terms, 8).kind == Gga
    ensures var h := Absorbed(nums, g, terms, 8);
      Absorbed(nums, g, terms, 10)
      == h.(fields := h.fields.(hdop := Read(nums.decimal, Term(terms, 8), h.fields.hdop),
                                altitude := Read(nums.decimal, Term(terms, 9), h.fields.altitude)))
  {
    AbsorbedStep(nums, g, terms, 8);
    AbsorbedStep(nums, g, terms, 9);
  }

  lemma GgaFirstTerms(nums: Numbers, g: Gathered, terms: seq<string>)
    requires 0 < |terms| && GgaName(terms[0]) && !g.good
    ensures Absorbed(nums, g, terms, 10) == Gathered(Gga, GgaFields(nums, g.fields, g.fields, terms), GgaGood(terms))
  {
    GgaTwoTerms(nums, g, terms);
    GgaFourTerms(nums, g, terms);
    GgaSixTerms(nums, g, terms);
    GgaEightTerms(nums, g, terms);
    GgaTenTerms(nums, g, terms);
  }

  function HexChar(d: nat): (c: char)
    requires d < 16
  {
    if d < 10 then '0' + d as char else 'A' + (d - 10) as char
  }

  lemma HexSpells(x: nat)
    requires x < 256
    ensures Spelled(HexChar(x / 16), HexChar(x % 16)) == x && PlainChar(HexChar(x / 16)) && PlainChar(HexChar(x % 16))
  {
    assert FromHex(HexChar(x / 16)) == x / 16 && FromHex(HexChar(x % 16)) == x % 16;
  }

  function LowerHexChar(d: nat): (c: char)
    requires d < 16
  {
    if d < 10 then '0' + d as char else 'a' + (d - 10) as char
  }

  /** Digits of either case spell the same byte. */
  lemma LowerHexSpells(x: nat)
    requires x < 256
    ensures Spelled(LowerHexChar(x / 16), LowerHexChar(x % 16)) == x
    ensures PlainChar(LowerHexChar(x / 16)) && PlainChar(LowerHexChar(x % 16))
  {
    assert FromHex(LowerHexChar(x / 16)) == x / 16 && FromHex(LowerHexChar(x % 16)) == x % 16;
  }

  predicate Binary(b: nat) { b < 2 }

  lemma DigitOf(x: nat, w: nat, high: nat, b: nat, low: nat)
    requires w > 0 && low < w && Binary(b) && x == (2 * high + b) * w + low
    ensures x / w % 2 == b
  {
    DivModUnique(x, w, 2 * high + b, low);
    DivModUnique(2 * high + b, 2, high, b);
  }

  /** Binary digits are recovered from their sum. */
  lemma DigitsOfByte(b7: nat, b6: nat, b5: nat, b4: nat, b3: nat, b2: nat, b1: nat, b0: nat)
    requires Binary(b7) && Binary(b6) && Binary(b5) && Binary(b4)
    requires Binary(b3) && Binary(b2) && Binary(b1) && Binary(b0)
    ensures var x := 128 * b7 + 64 * b6 + 32 * b5 + 16 * b4 + 8 * b3 + 4 * b2 + 2 * b1 + b0;
      && x / 128 % 2 == b7 && x / 64 % 2 == b6 && x / 32 % 2 == b5 && x / 16 % 2 == b4
      && x / 8 % 2 == b3 && x / 4 % 2 == b2 && x / 2 % 2 == b1 && x / 1 % 2 == b0
  {
    var x := 128 * b7 + 64 * b6 + 32 * b5 + 16 * b4 + 8 * b3 + 4 * b2 + 2 * b1 + b0;
    var (h5, h4, h3) := (2 * b7 + b6, 4 * b7 + 2 * b6 + b5, 8 * b7 + 4 * b6 + 2 * b5 + b4);
    var (h2, h1) := (2 * h3 + b3, 4 * h3 + 2 * b3 + b2);
    DigitOf(x, 128, 0, b7, x - 128 * b7);
    DigitOf(x, 64, b7, b6, x - 64 * h5);
    DigitOf(x, 32, h5, b5, x - 32 * h4);
    DigitOf(x, 16, h4, b4, x - 16 * h3);
    DigitOf(x, 8, h3, b3, x - 8 * h2);
    DigitOf(x, 4, h2, b2, x - 4 * h1);
    DigitOf(x, 2, h1, b1, b0);
    DigitOf(x, 1, 2 * h1 + b1, b0, 0);
  }

  function XorDigit(a: nat, b: nat, w: nat): (x: nat)
    requires w > 0
  {
    (a / w + b / w) % 2
  }

  lemma XorBitIs(a: nat, b: nat, w: nat)
    requires w > 0
    ensures XorBit(a, b, w) == w * XorDigit(a, b, w) && Binary(XorDigit(a, b, w))
  {
    var (x, y) := (a / w, b / w);
    assert (x + y) % 2 == if x % 2 == y % 2 then 0 else 1;
  }

  lemma XorBytesAre(a: nat, b: nat)
    ensures XorBytes(a, b)
         == 128 * XorDigit(a, b, 128) + 64 * XorDigit(a, b, 64) + 32 * XorDigit(a, b, 32) + 16 * XorDigit(a, b, 16)
            + 8 * XorDigit(a, b, 8) + 4 * XorDigit(a, b, 4) + 2 * XorDigit(a, b, 2) + XorDigit(a, b, 1)
    ensures Binary(XorDigit(a, b, 128)) && Binary(XorDigit(a, b, 64)) && Binary(XorDigit(a, b, 32)) && Binary(XorDigit(a, b, 16))
    ensures Binary(XorDigit(a, b, 8)) && Binary(XorDigit(a, b, 4)) && Binary(XorDigit(a, b, 2)) && Binary(XorDigit(a, b, 1))
  {
    XorBitIs(a, b, 128);
    XorBitIs(a, b, 64);
    XorBitIs(a, b, 32);
    XorBitIs(a, b, 16);
    XorBitIs(a, b, 8);
    XorBitIs(a, b, 4);
    XorBitIs(a, b, 2);
    XorBitIs(a, b, 1);
  }

  /** Each binary digit of an exclusive or is the sum of the two digits without carry. */
  lemma XorIsBitwise(a: nat, b: nat)
    ensures var x := XorBytes(a, b);
      && x / 128 % 2 == XorDigit(a, b, 128) && x / 64 % 2 == XorDigit(a, b, 64)
      && x / 32 % 2 == XorDigit(a, b, 32) && x / 16 % 2 == XorDigit(a, b, 16)
      && x / 8 % 2 == XorDigit(a, b, 8) && x / 4 % 2 == XorDigit(a, b, 4)
      && x / 2 % 2 == XorDigit(a, b, 2) && x / 1 % 2 == XorDigit(a, b, 1)
  {
    XorBytesAre(a, b);
    DigitsOfByte(XorDigit(a, b, 128), XorDigit(a, b, 64), XorDigit(a, b, 32), XorDigit(a, b, 16),
                 XorDigit(a, b, 8), XorDigit(a, b, 4), XorDigit(a, b, 2), XorDigit(a, b, 1));
  }

  lemma XorAllSmall(nums: Numbers, s: string)
    ensures XorAll(TheOps(nums), 0, s) < 256
  {
  }

  /** The checksum of a sentence, and the sentence printed with it. */
  function Checksum(nums: Numbers, terms: seq<string>): (x: nat)
    requires |terms| > 0
    ensures x < 256
  {
    XorAllSmall(nums, Body(terms));
    XorAll(TheOps(nums), 0, Body(terms))
  }

  function Printed(nums: Numbers, terms: seq<string>): (s: string)
    requires |terms| > 0
  {
    var x := Checksum(nums, terms);
    Sentence(terms, HexChar(x / 16), HexChar(x % 16))
  }

  /** A printed sentence that ends up valid is reported at its line end, from any
      parser state, and not before; what it gathered is published. */
  lemma PrintedIsReported(nums: Numbers, p: GpsParser, terms: seq<string>, end: char)
    requires Valid(p) && PlainTerms(terms) && 0 < |terms| < 256 && (end == '\r' || end == '\n')
    ensures var (ops, g) := (TheOps(nums), Outcome(TheOps(nums), p, terms));
      var q := Run(ops, p, Printed(nums, terms));
      && (Returns(ops, q, end) <==> g.good)
      && Encode(ops, q, end).published == (if g.good then Publish(g, p.published) else p.published)
    ensures forall k :: 0 <= k < |Printed(nums, terms)| ==>
      !Returns(TheOps(nums), Run(TheOps(nums), p, Printed(nums, terms)[..k]), Printed(nums, terms)[k])
  {
    var (ops, x) := (TheOps(nums), Checksum(nums, terms));
    var (h1, h2) := (HexChar(x / 16), HexChar(x % 16));
    HexSpells(x);
    SentenceResult(ops, p, terms, h1, h2, end);
    forall k | 0 <= k < |Printed(nums, terms)|
      ensures !Returns(ops, Run(ops, p, Printed(nums, terms)[..k]), Printed(nums, terms)[k])
    {
      NoEarlyReport(ops, p, terms, h1, h2, k);
    }
  }

  /** The same for a sentence printed with lower-case digits. */
  lemma LowerCaseIsReported(nums: Numbers, p: GpsParser, terms: seq<string>, end: char)
    requires Valid(p) && PlainTerms(terms) && 0 < |terms| < 256 && (end == '\r' || end == '\n')
    ensures var (x, g) := (Checksum(nums, terms), Outcome(TheOps(nums), p, terms));
      var q := Run(TheOps(nums), p, Sentence(terms, LowerHexChar(x / 16), LowerHexChar(x % 16)));
      && (Returns(TheOps(nums), q, end) <==> g.good)
      && Encode(TheOps(nums), q, end).published == if g.good then Publish(g, p.published) else p.published
  {
    var x := Checksum(nums, terms);
    LowerHexSpells(x);
    SentenceResult(TheOps(nums), p, terms, LowerHexChar(x / 16), LowerHexChar(x % 16), end);
  }

  /** What a GPRMC sentence gathers, and what it would publish. */
  lemma RmcOutcome(nums: Numbers, p: GpsParser, terms: seq<string>)
    requires 0 < |terms| <= 32 && terms[0] <= "GPRMC"
    ensures var g := Outcome(TheOps(nums), p, terms);
      && g == Gathered(Rmc, RmcFields(nums, p.gathered.fields, p.gathered.fields, terms), RmcGood(terms))
      && Publish(g, p.published) == RmcFields(nums, p.published, p.gathered.fields, terms)
  {
    var g := Gathered(Other, p.gathered.fields, false);
    FirstTen(nums, g, terms);
    RmcFirstTerms(nums, g, terms);
  }

  lemma GgaOutcome(nums: Numbers, p: GpsParser, terms: seq<string>)
    requires 0 < |terms| <= 32 && GgaName(terms[0])
    ensures var g := Outcome(TheOps(nums), p, terms);
      && g == Gathered(Gga, GgaFields(nums, p.gathered.fields, p.gathered.fields, terms), GgaGood(terms))
      && Publish(g, p.published) == GgaFields(nums, p.published, p.gathered.fields, terms)
  {
    var g := Gathered(Other, p.gathered.fields, false);
    FirstTen(nums, g, terms);
    GgaFirstTerms(nums, g, terms);
  }

  /** What is public after a printed sentence and its line end. */
  function After(nums: Numbers, p: GpsParser, terms: seq<string>, end: char): (f: Fields)
    requires Valid(p) && |terms| > 0
  {
    Encode(TheOps(nums), Run(TheOps(nums), p, Printed(nums, terms)), end).published
  }

  /** Round trip, GPRMC: from any parser state, a printed sentence of at most 32 terms
      with status 'A' is reported and publishes the fields it prints, and for each
      empty or missing term the value pending before it; with any other status it is
      not reported and publishes nothing. */
  lemma RmcRoundTrip(nums: Numbers, p: GpsParser, terms: seq<string>, end: char)
    requires Valid(p) && PlainTerms(terms) && 0 < |terms| <= 32 && terms[0] <= "GPRMC"
    requires end == '\r' || end == '\n'
    ensures Returns(TheOps(nums), Run(TheOps(nums), p, Printed(nums, terms)), end) <==> RmcGood(terms)
    ensures After(nums, p, terms, end)
         == if RmcGood(terms) then RmcFields(nums, p.published, p.gathered.fields, terms) else p.published
  {
    PrintedIsReported(nums, p, terms, end);
    RmcOutcome(nums, p, terms);
  }

  /** Round trip, GPGGA, valid when the fix quality is above '0'. */
  lemma GgaRoundTrip(nums: Numbers, p: GpsParser, terms: seq<string>, end: char)
    requires Valid(p) && PlainTerms(terms) && 0 < |terms| <= 32 && GgaName(terms[0])
    requires end == '\r' || end == '\n'
    ensures Returns(TheOps(nums), Run(TheOps(nums), p, Printed(nums, terms)), end) <==> GgaGood(terms)
    ensures After(nums, p, terms, end)
         == if GgaGood(terms) then GgaFields(nums, p.published, p.gathered.fields, terms) else p.published
  {
    PrintedIsReported(nums, p, terms, end);
    GgaOutcome(nums, p, terms);
  }

  /** A sentence of any other type: its name is a prefix of neither known name. */
  predicate OtherName(t: string) { !(t <= "GPRMC") && !(t <= "GPGGA") }

  lemma {:induction false} OtherTermsIgnored(nums: Numbers, g: Gathered, terms: seq<string>, k: nat)
    requires 0 < k <= |terms| && OtherName(terms[0])
    ensures AbsorbAll(TheOps(nums), g, terms, k) == Gathered(Other, g.fields, g.good)
  {
    if k == 1 {
      AbsorbStep(nums, g, terms, 0);
      assert AbsorbAll(TheOps(nums), g, terms, 0) == g;
    } else {
      OtherTermsIgnored(nums, g, terms, k - 1);
      AbsorbStep(nums, g, terms, k - 1);
    }
  }

  /** A sentence of another type, such as GPGSV, is never reported, whatever its digits
      say, and leaves what is public and what is pending as it was. */
  lemma OtherSentencesIgnored(nums: Numbers, p: GpsParser, terms: seq<string>, h1: char, h2: char, end: char)
    requires Valid(p) && PlainTerms(terms) && 0 < |terms| < 256 && OtherName(terms[0])
    requires PlainChar(h1) && PlainChar(h2) && (end == '\r' || end == '\n')
    ensures forall k :: 0 <= k < |Sentence(terms, h1, h2)| ==>
      !Returns(TheOps(nums), Run(TheOps(nums), p, Sentence(terms, h1, h2)[..k]), Sentence(terms, h1, h2)[k])
    ensures !Returns(TheOps(nums), Run(TheOps(nums), p, Sentence(terms, h1, h2)), end)
    ensures Past(nums, p, terms, h1, h2, end).published == p.published
    ensures Past(nums, p, terms, h1, h2, end).gathered.fields == p.gathered.fields
  {
    OtherTermsIgnored(nums, Gathered(Other, p.gathered.fields, false), terms, |terms|);
    SentenceResult(TheOps(nums), p, terms, h1, h2, end);
    SentenceLeaves(TheOps(nums), p, terms, h1, h2, end);
    forall k | 0 <= k < |Sentence(terms, h1, h2)|
      ensures !Returns(TheOps(nums), Run(TheOps(nums), p, Sentence(terms, h1, h2)[..k]), Sentence(terms, h1, h2)[k])
    {
      NoEarlyReport(TheOps(nums), p, terms, h1, h2, k);
    }
  }

  // ------------------------------------------------ when a sentence stands alone

  /** What a sentence makes public does not depend on what was gathered before it. */
  ghost predicate StandsAlone(nums: Numbers, terms: seq<string>, end: char)
    requires |terms| > 0
  {
    forall p: GpsParser, q: GpsParser ::
      Valid(p) && Valid(q) && p.published == q.published ==> After(nums, p, terms, end) == After(nums, q, terms, end)
  }

  /** The terms that print a value are there. */
  predicate RmcFilled(terms: seq<string>) {
    && |Term(terms, 1)| > 0 && |Term(terms, 3)| > 0 && |Term(terms, 5)| > 0
    && |Term(terms, 7)| > 0 && |Term(terms, 8)| > 0 && |Term(terms, 9)| > 0
  }

  predicate GgaFilled(terms: seq<string>) {
    && |Term(terms, 1)| > 0 && |Term(terms, 2)| > 0 && |Term(terms, 4)| > 0
    && |Term(terms, 7)| > 0 && |Term(terms, 8)| > 0 && |Term(terms, 9)| > 0
  }

  /** Two sets of pending fields that differ everywhere. */
  const ONE_FIELDS := Fields(1, 1, 1, 1, 1, 1, 1, 1, 1)

  lemma HemisphereTells(s: string, negative: char)
    ensures Hemisphere(0, s, negative) != Hemisphere(1, s, negative)
  {
    assert Wrap(U32) == Wrap(0) == 0;
  }

  lemma RmcKeptMatters(nums: Numbers, f: Fields, kept: Fields, other: Fields, terms: seq<string>)
    ensures RmcFilled(terms) ==> RmcFields(nums, f, kept, terms) == RmcFields(nums, f, other, terms)
    ensures !RmcFilled(terms) ==> RmcFields(nums, f, NO_FIELDS, terms) != RmcFields(nums, f, ONE_FIELDS, terms)
  {
    HemisphereTells(Term(terms, 4), 'S');
    HemisphereTells(Term(terms, 6), 'W');
  }

  lemma GgaKeptMatters(nums: Numbers, f: Fields, kept: Fields, other: Fields, terms: seq<string>)
    ensures GgaFilled(terms) ==> GgaFields(nums, f, kept, terms) == GgaFields(nums, f, other, terms)
    ensures !GgaFilled(terms) ==> GgaFields(nums, f, NO_FIELDS, terms) != GgaFields(nums, f, ONE_FIELDS, terms)
  {
    HemisphereTells(Term(terms, 3), 'S');
    HemisphereTells(Term(terms, 5), 'W');
  }

  /** A parser with given fields pending. */
  function Pending(kept: Fields): (p: GpsParser)
    ensures Valid(p)
  {
    PowerUp().(gathered := Gathered(Other, kept, false))
  }

  /** A GPRMC sentence stands alone if and only if it publishes nothing or each term
      that prints a value is there. */
  lemma RmcStandsAlone(nums: Numbers, terms: seq<string>, end: char)
    requires PlainTerms(terms) && 0 < |terms| <= 32 && terms[0] <= "GPRMC" && (end == '\r' || end == '\n')
    ensures StandsAlone(nums, terms, end) <==> !RmcGood(terms) || RmcFilled(terms)
  {
    if !RmcGood(terms) || RmcFilled(terms) {
      forall p: GpsParser, q: GpsParser | Valid(p) && Valid(q) && p.published == q.published
        ensures After(nums, p, terms, end) == After(nums, q, terms, end)
      {
        RmcRoundTrip(nums, p, terms, end);
        RmcRoundTrip(nums, q, terms, end);
        RmcKeptMatters(nums, p.published, p.gathered.fields, q.gathered.fields, terms);
      }
    } else {
      RmcRoundTrip(nums, Pending(NO_FIELDS), terms, end);
      RmcRoundTrip(nums, Pending(ONE_FIELDS), terms, end);
      RmcKeptMatters(nums, NO_FIELDS, NO_FIELDS, ONE_FIELDS, terms);
      assert After(nums, Pending(NO_FIELDS), terms, end) != After(nums, Pending(ONE_FIELDS), terms, end);
    }
  }

  /** ... and so does a GPGGA sentence. */
  lemma GgaStandsAlone(nums: Numbers, terms: seq<string>, end: char)
    requires PlainTerms(terms) && 0 < |terms| <= 32 && GgaName(terms[0]) && (end == '\r' || end == '\n')
    ensures StandsAlone(nums, terms, end) <==> !GgaGood(terms) || GgaFilled(terms)
  {
    if !GgaGood(terms) || GgaFilled(terms) {
      forall p: GpsParser, q: GpsParser | Valid(p) && Valid(q) && p.published == q.published
        ensures After(nums, p, terms, end) == After(nums, q, terms, end)
      {
        GgaRoundTrip(nums, p, terms, end);
        GgaRoundTrip(nums, q, terms, end);
        GgaKeptMatters(nums, p.published, p.gathered.fields, q.gathered.fields, terms);
      }
    } else {
      GgaRoundTrip(nums, Pending(NO_FIELDS), terms, end);
      GgaRoundTrip(nums, Pending(ONE_FIELDS), terms, end);
      GgaKeptMatters(nums, NO_FIELDS, NO_FIELDS, ONE_FIELDS, terms);
      assert After(nums, Pending(NO_FIELDS), terms, end) != After(nums, Pending(ONE_FIELDS), terms, end);
    }
  }

  /** An empty latitude before a hemisphere 'S' turns the sign of the old one. */
  lemma EmptyLatitudeFlips(nums: Numbers, p: GpsParser, terms: seq<string>, end: char)
    requires Valid(p) && PlainTerms(terms) && 0 < |terms| <= 32 && terms[0] <= "GPRMC" && RmcGood(terms)
    requires end == '\r' || end == '\n'
    requires Term(terms, 3) == [] && |Term(terms, 4)| > 0 && Term(terms, 4)[0] == 'S'
    ensures After(nums, p, terms, end).latitude == Negated(p.gathered.fields.latitude)
  {
    RmcRoundTrip(nums, p, terms, end);
  }

  /** The state after a GPRMC sentence with given checksum digits and its line end. */
  function Past(nums: Numbers, p: GpsParser, terms: seq<string>, h1: char, h2: char, end: char): (q: GpsParser)
    requires Valid(p) && |terms| > 0
    ensures Valid(q)
  {
    Encode(TheOps(nums), Run(TheOps(nums), p, Sentence(terms, h1, h2)), end)
  }

  /** A sentence with wrong checksum digits is not reported and publishes nothing, but
      its time is published by the next valid sentence whose time is empty. */
  lemma UnverifiedTime(nums: Numbers, p: GpsParser, bad: seq<string>, h1: char, h2: char, next: seq<string>, end: char)
    requires Valid(p) && PlainTerms(bad) && 0 < |bad| <= 32 && bad[0] <= "GPRMC" && |Term(bad, 1)| > 0
    requires PlainChar(h1) && PlainChar(h2) && Spelled(h1, h2) != Checksum(nums, bad) && (end == '\r' || end == '\n')
    requires PlainTerms(next) && 0 < |next| <= 32 && next[0] <= "GPRMC" && RmcGood(next) && Term(next, 1) == []
    ensures !Returns(TheOps(nums), Run(TheOps(nums), p, Sentence(bad, h1, h2)), end)
    ensures Past(nums, p, bad, h1, h2, end).published == p.published
    ensures After(nums, Past(nums, p, bad, h1, h2, end), next, end).time == nums.decimal(bad[1])
  {
    SentenceResult(TheOps(nums), p, bad, h1, h2, end);
    SentenceLeaves(TheOps(nums), p, bad, h1, h2, end);
    RmcOutcome(nums, p, bad);
    RmcRoundTrip(nums, Past(nums, p, bad, h1, h2, end), next, end);
  }

  // --------------------------------------------------------- the combined key

  /** A number in parts: bits 6 and up, bit 5, bits 4 to 0. */
  lemma KeyParts(x: nat, q: nat, t: nat, r: nat)
    requires x == 64 * q + 32 * t + r && t < 2 && r < 32
    ensures x % 32 == r && x / 64 == q && x / 32 == 2 * q + t && x / 32 % 2 == t
  {
    DivModUnique(x, 32, 2 * q + t, r);
    DivModUnique(x, 64, q, 32 * t + r);
    DivModUnique(2 * q + t, 2, q, t);
  }

  /** The combined key is the term number with bit 5 set for a GPRMC: every other bit is
      that of the number. */
  lemma CombineIsOr(k: Kind, q: nat, t: nat, r: nat)
    requires k != Other && t < 2 && r < 32
    ensures Combine(k, 64 * q + 32 * t + r) == 64 * q + 32 * (if k == Rmc then 1 else t) + r
  {
    KeyParts(64 * q + 32 * t + r, q, t, r);
  }

  /** Below 32 terms the combined key tells sentence type and term number apart. */
  lemma CombineInjective(k: Kind, n: nat, k': Kind, n': nat)
    requires k != Other && k' != Other && n < 32 && n' < 32 && Combine(k, n) == Combine(k', n')
    ensures k == k' && n == n'
  {
  }

  /** A status term, under either of its numbers, decides validity whatever it was. */
  lemma StatusDecides(nums: Numbers, g: Gathered, n: nat, t: string)
    requires |t| > 0 && ((g.kind == Rmc && (n == 2 || n == 34)) || (g.kind == Gga && n == 34))
    ensures Absorb(nums, g, n, t).good <==> t[0] == 'A'
  {
    assert 34 / 32 % 2 == 1;
  }

  /** ... and so does the fix quality of a GPGGA. */
  lemma QualityDecides(nums: Numbers, g: Gathered, t: string)
    requires |t| > 0 && g.kind == Gga
    ensures Absorb(nums, g, 6, t).good <==> t[0] > '0'
  {
  }

  /** From term 32 on it does not: the terms of either sentence are taken for those
      of a GPRMC again. */
  lemma CombineAliases(n: nat)
    requires n < 32
    ensures Combine(Rmc, n + 32) == Combine(Rmc, n) && Combine(Gga, n + 32) == Combine(Rmc, n)
  {
    assert (n + 32) / 32 == 1 && n / 32 == 0;
  }

  // ------------------------------------------------------------- printed numbers

  function DigitChar(d: nat): (c: char)
    requires d < 10
    ensures IsDigit(c) && Digit(c) == d
  {
    '0' + d as char
  }

  /** The last `width` decimal digits of a number, zeros in front. */
  function Padded(n: nat, width: nat): (s: string)
    ensures |s| == width && AllDigits(s)
  {
    if width == 0 then [] else Padded(n / 10, width - 1) + [DigitChar(n % 10)]
  }

  /** A number of hundredths as it is printed: units, point, two digits. */
  function PrintDecimal(v: nat, width: nat): (s: string)
    ensures |s| == width + 3
  {
    Padded(v / 100, width) + ['.', DigitChar(v / 10 % 10), DigitChar(v % 10)]
  }

  lemma TenthBelow(n: nat, p: nat)
    requires n < 10 * p
    ensures n / 10 < p && 10 * (n / 10) + n % 10 == n
  {
  }

  lemma PaddedSnoc(v: nat, d: nat, s: string)
    requires AllDigits(s) && d < 10 && Number(s) == v
    ensures AllDigits(s + [DigitChar(d)]) && Number(s + [DigitChar(d)]) == 10 * v + d
  {
    var t := s + [DigitChar(d)];
    assert t[..|t| - 1] == s;
  }

  lemma {:induction false} NumberOfPadded(n: nat, width: nat)
    requires n < Pow10(width)
    ensures Number(Padded(n, width)) == n
  {
    if width == 0 {
    } else {
      TenthBelow(n, Pow10(width - 1));
      NumberOfPadded(n / 10, width - 1);
      PaddedSnoc(n / 10, n % 10, Padded(n / 10, width - 1));
      assert Padded(n, width) == Padded(n / 10, width - 1) + [DigitChar(n % 10)];
    }
  }

  lemma DigitRunIs(s: string, n: nat)
    requires n <= |s| && AllDigits(s[..n]) && (n < |s| ==> !IsDigit(s[n]))
    ensures DigitRun(s) == n
  {
    var r := DigitRun(s);
    assert forall i :: 0 <= i < n ==> IsDigit(s[i]) by {
      assert forall i :: 0 <= i < n ==> s[..n][i] == s[i];
    }
    assert forall i :: 0 <= i < r ==> IsDigit(s[i]) by {
      assert forall i :: 0 <= i < r ==> s[..r][i] == s[i];
    }
  }

  lemma DigitsThenRest(d: string, rest: string)
    requires AllDigits(d) && |rest| > 0 && !IsDigit(rest[0])
    ensures DigitRun(d + rest) == |d| && (d + rest)[..|d|] == d && (d + rest)[|d|..] == rest
  {
    var s := d + rest;
    assert s[..|d|] == d && s[|d|..] == rest;
    DigitRunIs(s, |d|);
  }

  /** Reading an unsigned decimal: units, then what follows them. */
  lemma ParseUnsignedOf(p: string, d: string, rest: string)
    requires DigitRun(p) == |d| && p[..|d|] == d && p[|d|..] == rest
    ensures AllDigits(d) && ParseUnsigned(p) == Wrap(100 * Wrap(Number(d)) + Hundredths(rest))
  {
  }

  lemma HundredthsOf(v: nat)
    ensures Hundredths(['.', DigitChar(v / 10 % 10), DigitChar(v % 10)]) == v % 100
  {
    var a := v / 10;
    DivModUnique(v, 100, a / 10, 10 * (a % 10) + v % 10);
  }

  /** Numbers printed with two decimals read back exactly, whatever zeros lead. */
  lemma DecimalRoundTrip(v: nat, width: nat)
    requires v < U32 && v / 100 < Pow10(width)
    ensures ParseDecimal(PrintDecimal(v, width)) == ParseUnsigned(PrintDecimal(v, width)) == v
  {
    var (d, rest) := (Padded(v / 100, width), ['.', DigitChar(v / 10 % 10), DigitChar(v % 10)]);
    DigitsThenRest(d, rest);
    ParseUnsignedOf(d + rest, d, rest);
    assert (d + rest)[0] == if width > 0 then d[0] else '.';
    NumberOfPadded(v / 100, width);
    HundredthsOf(v);
  }

  lemma DigitRunOfPadded(n: nat, width: nat)
    ensures DigitRun(Padded(n, width)) == width && Padded(n, width)[..width] == Padded(n, width)
  {
    assert Padded(n, width)[..width] == Padded(n, width);
    DigitRunIs(Padded(n, width), width);
  }

  /** Whole numbers read back exactly, whatever zeros lead. */
  lemma LongRoundTrip(v: nat, width: nat)
    requires v < U32 && v < Pow10(width)
    ensures Atol(Padded(v, width)) == v
  {
    DigitRunOfPadded(v, width);
    NumberOfPadded(v, width);
  }

  lemma NoSpaceNoSign(s: string)
    requires |s| > 0 ==> IsDigit(s[0])
    ensures SkipSpace(s) == s && (|s| > 0 ==> s[0] != '-' && s[0] != '+')
  {
  }

  lemma SmallUnsigned(s: string)
    requires SkipSpace(s) == s && (|s| > 0 ==> s[0] != '-' && s[0] != '+')
    ensures SmallAtoi(s) == LowByte(Leading(s))
  {
  }

  lemma LeadingOfPadded(v: nat, width: nat)
    requires v < Pow10(width)
    ensures Leading(Padded(v, width)) == v
  {
    DigitRunOfPadded(v, width);
    NumberOfPadded(v, width);
  }

  /** A sign negates in a byte. */
  lemma SmallSigned(s: string)
    requires |s| > 0 ==> IsDigit(s[0])
    ensures SmallAtoi(['-'] + s) == LowByte(0 - Leading(s)) && SmallAtoi(['+'] + s) == LowByte(Leading(s))
  {
    assert (['-'] + s)[1..] == s && (['+'] + s)[1..] == s;
  }

  /** Space in front, of any of the six kinds, does not matter. */
  lemma SmallSpaced(s: string, c: char)
    requires c in [' ', '\t', '\n', 11 as char, 12 as char, '\r']
    ensures SmallAtoi([c] + s) == SmallAtoi(s)
  {
    assert ([c] + s)[1..] == s;
  }

  lemma LowByteIs(n: int)
    ensures (LowByte(n) - n) % 256 == 0
  {
    DivModUnique(LowByte(n) - n, 256, if 0 <= n < 256 then 0 else -(n / 256), 0);
  }

  /** ... and so do small ones. */
  lemma SmallRoundTrip(v: nat, width: nat)
    requires v < 256 && v < Pow10(width)
    ensures SmallAtoi(Padded(v, width)) == v
  {
    NoSpaceNoSign(Padded(v, width));
    SmallUnsigned(Padded(v, width));
    LeadingOfPadded(v, width);
  }

  // ---------------------------------------------------------- degree conversion

  function Pow10(n: nat): (p: nat)
    ensures p >= 1
  {
    if n == 0 then 1 else 10 * Pow10(n - 1)
  }

  lemma {:induction false} NumberBound(s: string)
    requires AllDigits(s)
    ensures Number(s) < Pow10(|s|)
  {
    if |s| == 0 {
    } else {
      NumberBound(s[..|s| - 1]);
    }
  }

  /** Splitting a digit string splits its number. */
  lemma {:induction false} NumberSplit(s: string, t: string)
    requires AllDigits(s) && AllDigits(t)
    ensures AllDigits(s + t) && Number(s + t) == Number(s) * Pow10(|t|) + Number(t)
  {
    assert AllDigits(s + t);
    if |t| == 0 {
      assert s + t == s;
    } else {
      var (init, c) := (t[..|t| - 1], t[|t| - 1]);
      NumberSplit(s, init);
      assert (s + t)[..|s + t| - 1] == s + init;
      TimesTen(Number(s), Pow10(|init|));
    }
  }

  lemma TimesTen(a: nat, b: nat)
    ensures a * (10 * b) == 10 * (a * b)
  {
  }

  lemma {:induction false} ScaledZero(f: string)
    requires AllDigits(f)
    ensures Scaled(f, 0) == 0
  {
    if |f| == 0 {
    } else {
      ScaledZero(f[1..]);
    }
  }

  function ZeroDigits(n: nat): (s: string)
    ensures |s| == n && AllDigits(s)
  {
    seq(n, _ => '0')
  }

  /** The first four digits, padded with zeros, are all that is scaled. */
  function FirstFour(f: string): (s: string)
    requires AllDigits(f)
    ensures AllDigits(s) && |s| == 4
  {
    if |f| >= 4 then f[..4] else f + ZeroDigits(4 - |f|)
  }

  lemma NumberOfFour(s: string)
    requires AllDigits(s) && |s| == 4
    ensures Number(s) == 1000 * Digit(s[0]) + 100 * Digit(s[1]) + 10 * Digit(s[2]) + Digit(s[3])
  {
    var (s3, s2, s1) := (s[..3], s[..2], s[..1]);
    assert s3[..2] == s2 && s2[..1] == s1 && s1[..0] == [];
    assert Number(s1) == Digit(s[0]);
    assert Number(s2) == 10 * Number(s1) + Digit(s[1]);
    assert Number(s3) == 10 * Number(s2) + Digit(s[2]);
  }

  /** Digit `i` of a fraction, zero past its end. */
  function DigitAt(f: string, i: nat): (d: nat)
    requires AllDigits(f)
    ensures d < 10
  {
    if i < |f| then Digit(f[i]) else 0
  }

  function Tail(f: string): (t: string)
    requires AllDigits(f)
    ensures AllDigits(t)
  {
    if |f| == 0 then f else f[1..]
  }

  lemma TailAt(f: string, i: nat)
    requires AllDigits(f)
    ensures DigitAt(Tail(f), i) == DigitAt(f, i + 1)
  {
  }

  lemma ScaledUnfolds(f: string, mult: nat)
    requires AllDigits(f)
    ensures Scaled(f, mult) == mult * DigitAt(f, 0) + Scaled(Tail(f), mult / 10)
  {
  }

  /** The last two weights, after which nothing counts. */
  lemma ScaledTens(f: string)
    requires AllDigits(f)
    ensures Scaled(f, 10) == 10 * DigitAt(f, 0) + DigitAt(f, 1)
  {
    var f1 := Tail(f);
    ScaledUnfolds(f, 10);
    ScaledUnfolds(f1, 1);
    ScaledZero(Tail(f1));
    TailAt(f, 0);
  }

  /** The weights run 1000, 100, 10, 1 and then zero. */
  lemma ScaledByWeight(f: string)
    requires AllDigits(f)
    ensures Scaled(f, 1000) == 1000 * DigitAt(f, 0) + 100 * DigitAt(f, 1) + 10 * DigitAt(f, 2) + DigitAt(f, 3)
  {
    var f1 := Tail(f);
    var f2 := Tail(f1);
    ScaledUnfolds(f, 1000);
    ScaledUnfolds(f1, 100);
    ScaledTens(f2);
    TailAt(f, 0);
    TailAt(f, 1);
    TailAt(f, 2);
    TailAt(f1, 0);
    TailAt(f1, 1);
  }

  lemma ScaledIsFirstFour(f: string)
    requires AllDigits(f)
    ensures Scaled(f, 1000) == Number(FirstFour(f))
  {
    ScaledByWeight(f);
    NumberOfFour(FirstFour(f));
    FirstFourAt(f, 0);
    FirstFourAt(f, 1);
    FirstFourAt(f, 2);
    FirstFourAt(f, 3);
  }

  lemma FirstFourAt(f: string, i: nat)
    requires AllDigits(f) && i < 4
    ensures Digit(FirstFour(f)[i]) == DigitAt(f, i)
  {
  }

  lemma {:induction false} Pow10Adds(a: nat, b: nat)
    ensures Pow10(a + b) == Pow10(a) * Pow10(b)
  {
    if a == 0 {
    } else {
      Pow10Adds(a - 1, b);
      assert Pow10(a + b) == 10 * Pow10(a - 1 + b);
    }
  }

  lemma FourDigits()
    ensures Pow10(4) == 10000
  {
    assert Pow10(2) == 100;
  }

  lemma LongFraction(f: string)
    requires AllDigits(f) && |f| >= 4
    ensures Number(f[..4]) == Number(f) * 10000 / Pow10(|f|)
  {
    var (s, t) := (f[..4], f[4..]);
    assert f == s + t;
    NumberSplit(s, t);
    NumberBound(t);
    DivModUnique(Number(f), Pow10(|t|), Number(s), Number(t));
    Pow10Adds(|t|, 4);
    FourDigits();
    DivCancel(Number(f), Pow10(|t|), 10000);
  }

  lemma {:induction false} NumberOfZeros(n: nat)
    ensures Number(ZeroDigits(n)) == 0
  {
    if n == 0 {
    } else {
      NumberOfZeros(n - 1);
      assert ZeroDigits(n)[..n - 1] == ZeroDigits(n - 1);
    }
  }

  lemma PaddedNumber(f: string)
    requires AllDigits(f) && |f| < 4
    ensures Number(FirstFour(f)) == Number(f) * Pow10(4 - |f|)
  {
    var z := ZeroDigits(4 - |f|);
    assert FirstFour(f) == f + z;
    NumberSplit(f, z);
    NumberOfZeros(4 - |f|);
  }

  lemma ShortFraction(f: string)
    requires AllDigits(f) && |f| < 4
    ensures Number(FirstFour(f)) == Number(f) * 10000 / Pow10(|f|)
  {
    PaddedNumber(f);
    Pow10Adds(4 - |f|, |f|);
    FourDigits();
    PaddingArithmetic(Number(f), Pow10(4 - |f|), Pow10(|f|));
  }

  lemma PaddingArithmetic(n: nat, p: nat, q: nat)
    requires p * q == 10000
    ensures q > 0 && n * p == n * 10000 / q
  {
    MulAssociative(n, p, q);
    DivModUnique(n * 10000, q, n * p, 0);
  }

  /** Scaling by digits is an exact floor of the fraction. */
  lemma ScaledIsFloor(f: string)
    requires AllDigits(f)
    ensures Scaled(f, 1000) == Number(f) * 10000 / Pow10(|f|)
  {
    ScaledIsFirstFour(f);
    if |f| >= 4 {
      LongFraction(f);
    } else {
      ShortFraction(f);
    }
  }

  /** Hundred-thousandths of a degree in `left` = dddmm and fraction digits `f` of a
      minute: the floor of 10^5 * (ddd + mm.f / 60). */
  function ExactDegrees(left: nat, f: string): (v: nat)
    requires AllDigits(f)
  {
    var q := Pow10(|f|);
    left / 100 * 100000 + Floor(Mixed(left % 100, Number(f), q) * 100000, 60 * q)
  }

  /** Minutes `m` and `n` of `q` parts of a minute, in those parts. */
  function Mixed(m: nat, n: nat, q: nat): (x: nat) { m * q + n }

  function Floor(a: nat, b: nat): (f: nat)
    requires b > 0
  {
    a / b
  }

  lemma MinutesAreFloor(m: nat, n: nat, q: nat)
    requires q > 0
    ensures (m * 10000 + n * 10000 / q) / 6 == (m * q + n) * 100000 / (60 * q)
  {
    var x := (m * q + n) * 10000;
    assert x == m * 10000 * q + n * 10000;
    DivModUnique(x, q, m * 10000 + n * 10000 / q, n * 10000 % q);
    DivDiv(x, q, 6);
    DivCancel(x, q * 6, 10);
    assert x * 10 == (m * q + n) * 100000;
    assert q * 6 * 10 == 60 * q;
  }

  /** Degree conversion is an exact floor, for any number of fraction digits: what
      the digits past the fourth could add is never lost.  Only 32-bit wrap-around
      of the whole remains. */
  lemma DegreesAreFloor(s: string)
    requires Number(s[..DigitRun(s)]) < U32
    ensures ParseDegrees(s) == Wrap(ExactDegrees(Number(s[..DigitRun(s)]), Fraction(s)))
  {
    DegreesOfParts(Number(s[..DigitRun(s)]), Fraction(s));
  }

  lemma DegreesOfParts(left: nat, f: string)
    requires AllDigits(f)
    ensures DegreesFrom(left, Scaled(f, 1000)) == Wrap(ExactDegrees(left, f))
  {
    ScaledSmall(f);
    ScaledIsFloor(f);
    DegreesFromFloor(left, Number(f), Pow10(|f|), Scaled(f, 1000));
  }

  lemma DegreesFromFloor(left: nat, n: nat, q: nat, t: nat)
    requires q > 0 && t == n * 10000 / q && t < 10000
    ensures DegreesFrom(left, t) == Wrap(left / 100 * 100000 + Floor(Mixed(left % 100, n, q) * 100000, 60 * q))
  {
    MinutesAreFloor(left % 100, n, q);
  }

  lemma TwoDigits(f: string)
    requires AllDigits(f) && |f| >= 2
    ensures Hundredths(['.'] + f) == Number(f[..2])
  {
    var g := f[..2];
    assert g[..1][..0] == [] && g[..1] == [f[0]];
    assert Number(g[..1]) == Digit(f[0]);
  }

  /** A fraction in hundredths, rounded down. */
  function HundredthsFloor(f: string): (v: nat)
    requires AllDigits(f)
  {
    Floor(Number(f) * 100, Pow10(|f|))
  }

  lemma ShortHundredths(f: string)
    requires AllDigits(f) && |f| < 2
    ensures Hundredths(['.'] + f) == HundredthsFloor(f)
  {
    if |f| == 1 {
      assert f[..0] == [] && Number(f) == Digit(f[0]) && Pow10(1) == 10;
    }
  }

  lemma HundredthsArithmetic(a: nat, b: nat, p: nat)
    requires b < p
    ensures (a * p + b) * 100 / (100 * p) == a
  {
    MulDistributes(a * p, b, 100);
    DivModUnique((a * p + b) * 100, 100 * p, a, b * 100);
  }

  lemma LongHundredths(a: string, b: string)
    requires AllDigits(a) && AllDigits(b) && |a| == 2
    ensures AllDigits(a + b) && HundredthsFloor(a + b) == Number(a)
  {
    NumberSplit(a, b);
    NumberBound(b);
    Pow10Adds(2, |b|);
    assert Pow10(2) == 100;
    HundredthsArithmetic(Number(a), Number(b), Pow10(|b|));
  }

  /** The two digits read are the floor of the whole fraction. */
  lemma HundredthsAreFloor(f: string)
    requires AllDigits(f)
    ensures Hundredths(['.'] + f) == HundredthsFloor(f)
  {
    if |f| < 2 {
      ShortHundredths(f);
    } else {
      TwoDigits(f);
      LongHundredths(f[..2], f[2..]);
      assert f[..2] + f[2..] == f;
    }
  }

  lemma UnsignedOf(units: string, f: string, h: nat)
    requires AllDigits(units) && h == Hundredths(['.'] + f)
    ensures ParseDecimal(units + (['.'] + f)) == Wrap(100 * Number(units) + h)
  {
    var rest := ['.'] + f;
    DigitsThenRest(units, rest);
    ParseUnsignedOf(units + rest, units, rest);
    WrapAbsorbs(100, Number(units), h);
    assert (units + rest)[0] == if |units| > 0 then units[0] else '.';
  }

  /** Decimal conversion is an exact floor too, for any number of digits before and after
      the point, up to 32-bit wrap-around of the whole; `h` is the fraction in hundredths,
      rounded down. */
  lemma DecimalIsFloor(units: string, f: string, h: nat)
    requires AllDigits(units) && AllDigits(f) && h == HundredthsFloor(f)
    ensures ParseDecimal(units + (['.'] + f)) == Wrap(100 * Number(units) + h)
  {
    HundredthsAreFloor(f);
    UnsignedOf(units, f, h);
  }

  /** Without a point it is the whole number. */
  lemma WholeDecimal(units: string)
    requires AllDigits(units)
    ensures ParseDecimal(units) == Wrap(100 * Number(units))
  {
    WholeUnsigned(units);
    WrapAbsorbs(100, Number(units), 0);
    assert |units| > 0 ==> IsDigit(units[0]);
  }

  lemma WholeUnsigned(units: string)
    requires AllDigits(units)
    ensures ParseUnsigned(units) == Wrap(100 * Wrap(Number(units)) + 0)
  {
    assert units[..|units|] == units && units[|units|..] == [];
    DigitRunIs(units, |units|);
    ParseUnsignedOf(units, units, []);
  }

  lemma ScaledSmall(f: string)
    requires AllDigits(f)
    ensures Scaled(f, 1000) < 10000
  {
    ScaledIsFirstFour(f);
    NumberBound(FirstFour(f));
    FourDigits();
  }

  // ------------------------------------------------------- the program's loops

  lemma {:induction false} WrapIsMod(x: nat)
    ensures Wrap(x) == x % U32
  {
    if x < U32 {
    } else {
      WrapIsMod(x - U32);
      ModAddMultiple(x - U32, 1, U32);
    }
  }

  /** Wrapping early or late is the same. */
  lemma WrapAbsorbs(k: nat, x: nat, d: nat)
    ensures Wrap(k * Wrap(x) + d) == Wrap(k * x + d)
  {
    WrapIsMod(x);
    WrapIsMod(k * Wrap(x) + d);
    WrapIsMod(k * x + d);
    ModScaleAbsorbs(k, x, d, U32);
  }

  /** `gpsatol`. */
  method ScanLong(s: string) returns (v: nat)
    ensures v == Atol(s)
  {
    v := 0;
    var i := 0;
    while i < |s| && IsDigit(s[i])
      invariant i <= |s| && AllDigits(s[..i])
      invariant v == Wrap(Number(s[..i]))
    {
      assert s[..i + 1][..i] == s[..i];
      WrapAbsorbs(10, Number(s[..i]), Digit(s[i]));
      v := Wrap(10 * v + Digit(s[i]));
      i := i + 1;
    }
    DigitRunIs(s, i);
  }

  /** `gps_parse_decimal`. */
  method ScanDecimal(s: string) returns (v: nat)
    ensures v == ParseDecimal(s)
  {
    var isneg := |s| > 0 && s[0] == '-';
    var p := if isneg then s[1..] else s;
    var units := ScanLong(p);
    var i := 0;
    while i < |p| && IsDigit(p[i])
      invariant i <= |p| && AllDigits(p[..i])
    {
      assert p[..i + 1] == p[..i] + [p[i]];
      i := i + 1;
    }
    DigitRunIs(p, i);
    var hundredths := 0;
    if i + 1 < |p| && p[i] == '.' && IsDigit(p[i + 1]) {
      hundredths := 10 * Digit(p[i + 1]);
      if i + 2 < |p| && IsDigit(p[i + 2]) {
        hundredths := hundredths + Digit(p[i + 2]);
      }
    }
    assert hundredths == Hundredths(p[i..]);
    v := Wrap(100 * units + hundredths);
    if isneg {
      v := Negated(v);
    }
  }

  lemma ScaledSnoc(f: string, c: char, mult: nat)
    requires AllDigits(f) && IsDigit(c)
    ensures AllDigits(f + [c]) && Scaled(f + [c], mult) == Scaled(f, mult) + Shrunk(mult, |f|) * Digit(c)
    decreases |f|
  {
    if |f| == 0 {
      assert (f + [c])[1..] == [];
    } else {
      ScaledSnoc(f[1..], c, mult / 10);
      assert (f + [c])[1..] == f[1..] + [c];
    }
  }

  /** The multiplier after `n` divisions by ten. */
  function Shrunk(mult: nat, n: nat): (m: nat)
    decreases n
  {
    if n == 0 then mult else Shrunk(mult / 10, n - 1)
  }

  lemma {:induction false} ShrunkNext(mult: nat, n: nat)
    ensures Shrunk(mult, n + 1) == Shrunk(mult, n) / 10
    decreases n
  {
    if n == 0 {
    } else {
      ShrunkNext(mult / 10, n - 1);
    }
  }

  /** The fraction loop of `gps_parse_degrees`, over what follows the point. */
  method ScanFraction(r: string) returns (t: nat)
    ensures t == Scaled(r[..DigitRun(r)], 1000)
  {
    t := 0;
    var mult, i := 1000, 0;
    while i < |r| && IsDigit(r[i])
      invariant i <= |r| && AllDigits(r[..i])
      invariant mult == Shrunk(1000, i) && t == Scaled(r[..i], 1000)
    {
      ScaledSnoc(r[..i], r[i], 1000);
      assert r[..i + 1] == r[..i] + [r[i]];
      ShrunkNext(1000, i);
      t := t + mult * Digit(r[i]);
      mult := mult / 10;
      i := i + 1;
    }
    DigitRunIs(r, i);
  }

  /** `gps_parse_degrees`. */
  method ScanDegrees(s: string) returns (v: nat)
    ensures v == ParseDegrees(s)
  {
    var left := ScanLong(s);
    var i := 0;
    while i < |s| && IsDigit(s[i])
      invariant i <= |s| && AllDigits(s[..i])
    {
      assert s[..i + 1] == s[..i] + [s[i]];
      i := i + 1;
    }
    DigitRunIs(s, i);
    var t := 0;
    if i < |s| && s[i] == '.' {
      assert s[i..][1..] == s[i + 1..];
      t := ScanFraction(s[i + 1..]);
    }
    v := DegreesFrom(left, t);
  }

  /** `gpsstrcmp`: the first character of `s` that is not matched, or NUL. */
  method CompareName(s: string, name: string) returns (c: char)
    requires NUL !in s
    ensures c == NUL <==> Matches(s, name)
  {
    var i := 0;
    while i < |s| && i < |name| && s[i] == name[i]
      invariant i <= |s| && i <= |name| && s[..i] == name[..i]
    {
      i := i + 1;
    }
    c := if i < |s| then s[i] else NUL;
    PrefixDecided(s, name, i);
  }

  lemma PrefixDecided(s: string, name: string, i: nat)
    requires i <= |s| && i <= |name| && s[..i] == name[..i] && NUL !in s
    requires i < |s| && i < |name| ==> s[i] != name[i]
    ensures Matches(s, name) <==> i == |s|
    ensures i < |s| ==> s[i] != NUL
  {
    if Matches(s, name) {
      assert forall j :: 0 <= j < |s| ==> s[j] == name[j];
    }
    if i == |s| {
      assert s == s[..i];
    }
  }

  /** The parser's globals, updated in place. */
  class GpsReader {
    var parity: nat
    var isChecksum: bool
    const term: array<char>
    var termNumber: nat
    var termOffset: nat
    var kind: Kind
    var pending: Fields
    var good: bool
    var published: Fields

    ghost function View(): (p: GpsParser)
      reads this, term
    {
      Parser(parity, isChecksum, term[..], termNumber, termOffset, Gathered(kind, pending, good), published)
    }

    constructor ()
      ensures fresh(term) && View() == PowerUp()
    {
      parity, isChecksum, termNumber, termOffset := 0, false, 0, 0;
      kind, pending, good, published := Gga, NO_FIELDS, false, NO_FIELDS;
      term := new char[TERM](_ => NUL);
      new;
      assert term[..] == seq(TERM, _ => NUL);
    }

    /** The switch on sentence type and term number. */
    method StoreTerm(s: string)
      requires kind != Other && |s| > 0
      modifies `pending, `good
      ensures pending == SetField(TheNumbers(), old(pending), Combine(kind, termNumber), s)
      ensures good == SetGood(old(good), Combine(kind, termNumber), s)
    {
      var key := Combine(kind, termNumber);
      if key == 1 || key == 33 {
        var v := ScanDecimal(s);
        pending := pending.(time := v);
      } else if key == 34 {
        good := s[0] == 'A';
      } else if key == 2 || key == 35 {
        var v := ScanDegrees(s);
        pending := pending.(latitude := v);
      } else if key == 3 || key == 36 {
        if s[0] == 'S' {
          pending := pending.(latitude := Negated(pending.latitude));
        }
      } else if key == 4 || key == 37 {
        var v := ScanDegrees(s);
        pending := pending.(longitude := v);
      } else if key == 5 || key == 38 {
        if s[0] == 'W' {
          pending := pending.(longitude := Negated(pending.longitude));
        }
      } else if key == 39 {
        var v := ScanDecimal(s);
        pending := pending.(speed := v);
      } else if key == 40 {
        var v := ScanDecimal(s);
        pending := pending.(course := v);
      } else if key == 41 {
        var v := ScanLong(s);
        pending := pending.(date := v);
      } else if key == 6 {
        good := s[0] > '0';
      } else if key == 7 {
        pending := pending.(satellites := SmallAtoi(s));
      } else if key == 8 {
        var v := ScanDecimal(s);
        pending := pending.(hdop := v);
      } else if key == 9 {
        var v := ScanDecimal(s);
        pending := pending.(altitude := v);
      }
    }

    method NameTerm(s: string)
      requires NUL !in s
      modifies `kind
      ensures kind == KindOf(s)
    {
      var rmc := CompareName(s, "GPRMC");
      var gga := CompareName(s, "GPGGA");
      kind := if rmc == NUL then Rmc else if gga == NUL then Gga else Other;
    }

    /** `gps_term_complete`. */
    method CompleteTerm() returns (valid: bool)
      requires Valid(View())
      modifies `kind, `pending, `good, `published
      ensures View() == TermComplete(TheOps(TheNumbers()), old(View()))
      ensures valid == Validates(TheOps(TheNumbers()), old(View()))
    {
      valid := false;
      if isChecksum {
        if Spelled(term[0], term[1]) == parity && good {
          published := Publish(Gathered(kind, pending, good), published);
          valid := true;
        }
        return;
      }
      var s := Text(term[..]);
      if termNumber == 0 {
        NameTerm(s);
      } else if kind != Other && |s| > 0 {
        StoreTerm(s);
      }
    }

    /** A comma, asterisk or line end closes the term. */
    method CloseTerm(c: char) returns (valid: bool)
      requires Valid(View()) && IsTerminator(c)
      modifies this, term
      ensures Valid(View()) && View() == Encode(TheOps(TheNumbers()), old(View()), c)
      ensures valid == Returns(TheOps(TheNumbers()), old(View()), c)
    {
      if c == ',' {
        parity := Xor(parity, c);
      }
      term[termOffset] := NUL;
      assert View() == AtTerminator(TheOps(TheNumbers()), old(View()), c);
      valid := CompleteTerm();
      termNumber, termOffset, isChecksum := Bump(termNumber), 0, c == '*';
    }

    /** Any other character joins the term while there is room. */
    method Extend(c: char)
      requires Valid(View()) && !IsTerminator(c) && c != '$'
      modifies `parity, `termOffset, term
      ensures Valid(View()) && View() == Encode(TheOps(TheNumbers()), old(View()), c)
    {
      if termOffset < TERM - 1 {
        term[termOffset] := c;
        termOffset := termOffset + 1;
      }
      if !isChecksum {
        parity := Xor(parity, c);
      }
    }

    /** `gps_encode`. */
    method OnCharacter(c: char) returns (valid: bool)
      requires Valid(View())
      modifies this, term
      ensures Valid(View()) && View() == Encode(TheOps(TheNumbers()), old(View()), c)
      ensures valid == Returns(TheOps(TheNumbers()), old(View()), c)
    {
      valid := false;
      if c == ',' || c == '\r' || c == '\n' || c == '*' {
        valid := CloseTerm(c);
      } else if c == '$' {
        termNumber, termOffset, parity, kind, isChecksum, good := 0, 0, 0, Other, false, false;
      } else {
        Extend(c);
      }
    }
  }
}
