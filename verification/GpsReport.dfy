/** Position reports as values: printed as NMEA 0183 sentences with fixed-width
    numerals and read back by the parser. */
module GpsReport {
  import opened Arith
  import opened NmeaFraming
  import opened TinyGps

  /** The parser with its own conversions. */
  function Gps(): (ops: Ops<Gathered, Fields>) { TheOps(TheNumbers()) }

  // --------------------------------------------------------------- positions

  /** Degrees, whole minutes and ten-thousandths of a minute. */
  datatype Position = Position(degrees: nat, minutes: nat, tenThousandths: nat)

  predicate OnEarth(p: Position, limit: nat) { p.degrees <= limit && p.minutes < 60 && p.tenThousandths < 10000 }

  /** The angle in ten-thousandths of a minute. */
  function Angle(p: Position): (a: nat) { (60 * p.degrees + p.minutes) * 10000 + p.tenThousandths }

  /** The angle in hundred-thousandths of a degree, rounded down. */
  function Rounded(p: Position): (v: nat) { Angle(p) * 100000 / 600000 }

  /** Degrees and minutes run together, as they are printed. */
  function Whole(p: Position): (n: nat) { 100 * p.degrees + p.minutes }

  /** dddmm.mmmm, `width` digits before the point and `places` after it. */
  function PrintNumeral(left: nat, width: nat, t: nat, places: nat): (s: string)
    ensures |s| == width + 1 + places
  {
    Padded(left, width) + (['.'] + Padded(t, places))
  }

  lemma PositionFraction(units: string, f: string)
    requires AllDigits(units) && AllDigits(f)
    ensures var s := units + (['.'] + f); DigitRun(s) == |units| && s[..|units|] == units && Fraction(s) == f
  {
    var rest := ['.'] + f;
    DigitsThenRest(units, rest);
    assert rest[1..] == f && f[..|f|] == f;
    DigitRunIs(f, |f|);
  }

  lemma AngleInDegrees(d: nat, m: nat, t: nat)
    ensures ((60 * d + m) * 10000 + t) * 100000 / 600000 == d * 100000 + (m * 10000 + t) / 6
  {
    var x := m * 10000 + t;
    DivModUnique((60 * d * 10000 + x) * 100000, 600000, d * 100000 + x / 6, x % 6 * 100000);
  }

  lemma RoundedIsSmall(p: Position)
    requires OnEarth(p, 180)
    ensures Rounded(p) < 0x8000_0000
  {
    AngleInDegrees(p.degrees, p.minutes, p.tenThousandths);
  }

  lemma WrapSmall(x: nat)
    requires x < U32
    ensures Wrap(x) == x
  {
  }

  /** The program's arithmetic on degrees and minutes is the exact floor. */
  lemma DegreesFromParts(p: Position)
    requires OnEarth(p, 180)
    ensures DegreesFrom(Whole(p), p.tenThousandths) == Rounded(p)
  {
    DivModUnique(Whole(p), 100, p.degrees, p.minutes);
    AngleInDegrees(p.degrees, p.minutes, p.tenThousandths);
    WrapSmall(p.minutes * 10000 + p.tenThousandths);
    WrapSmall(p.degrees * 100000 + (p.minutes * 10000 + p.tenThousandths) / 6);
  }

  lemma FourDigitFraction(f: string)
    requires AllDigits(f) && |f| == 4
    ensures Scaled(f, 1000) == Number(f)
  {
    ScaledIsFirstFour(f);
    assert FirstFour(f) == f;
  }

  lemma DegreesReadAs(d: string, f: string, left: nat, t: nat, v: nat)
    requires AllDigits(d) && Number(d) == left < U32 && AllDigits(f) && |f| == 4 && Number(f) == t
    requires DegreesFrom(left, t) == v
    ensures ParseDegrees(d + (['.'] + f)) == v
  {
    PositionFraction(d, f);
    FourDigitFraction(f);
    WrapSmall(left);
  }

  lemma FourPlaces(t: nat, places: nat)
    requires t < 10000 && places == 4
    ensures t < Pow10(places)
  {
    FourDigits();
  }

  /** A position printed to four places reads back as `DegreesFrom` of its parts. */
  lemma PaddedReadAs(left: nat, width: nat, t: nat, places: nat, v: nat)
    requires left < U32 && left < Pow10(width) && places == 4 && t < 10000 && DegreesFrom(left, t) == v
    ensures ParseDegrees(PrintNumeral(left, width, t, places)) == v
  {
    FourPlaces(t, places);
    NumberOfPadded(left, width);
    NumberOfPadded(t, places);
    DegreesReadAs(Padded(left, width), Padded(t, places), left, t, v);
  }

  /** A number as a 32-bit two's-complement word. */
  function Word32(v: int): (w: nat)
    ensures -0x8000_0000 <= v < 0x8000_0000 ==> w == if v < 0 then v + 0x1_0000_0000 else v
  {
    v % 0x1_0000_0000
  }

  /** The signed value of a magnitude. */
  function Signed(v: nat, negative: bool): (s: int) { if negative then 0 - v else v }

  lemma NegatedIsSigned(v: nat)
    requires v < 0x8000_0000
    ensures Negated(v) == Word32(Signed(v, true))
  {
  }

  // ------------------------------------------------------------------- GPRMC

  /** Time and date as hhmmss.ss and ddmmyy read as numbers, speed in hundredths of
      a knot and course in hundredths of a degree. */
  datatype RmcReport = RmcReport(time: nat, valid: bool, latitude: Position, south: bool,
                                 longitude: Position, west: bool, speed: nat, course: nat, date: nat)

  predicate RmcInRange(r: RmcReport) {
    && r.time < 100_000_000 && OnEarth(r.latitude, 90) && OnEarth(r.longitude, 180)
    && r.speed < 100_000 && r.course < 100_000 && r.date < 1_000_000
  }

  function RmcTerms(r: RmcReport): (terms: seq<string>)
    ensures |terms| == 10
  {
    ["GPRMC", PrintDecimal(r.time, 6), if r.valid then "A" else "V",
     PrintNumeral(Whole(r.latitude), 4, r.latitude.tenThousandths, 4), if r.south then "S" else "N",
     PrintNumeral(Whole(r.longitude), 5, r.longitude.tenThousandths, 4), if r.west then "W" else "E",
     PrintDecimal(r.speed, 3), PrintDecimal(r.course, 3), Padded(r.date, 6)]
  }

  function RmcPublished(f: Fields, r: RmcReport): (g: Fields)
    requires RmcInRange(r)
  {
    f.(time := r.time, date := r.date, speed := r.speed, course := r.course,
       latitude := Word32(Signed(Rounded(r.latitude), r.south)),
       longitude := Word32(Signed(Rounded(r.longitude), r.west)))
  }

  /** Digits and points are plain characters. */
  lemma PlainNumeral(s: string)
    requires |s| <= 14 && forall i :: 0 <= i < |s| ==> IsDigit(s[i]) || s[i] == '.' || s[i] == '-'
    ensures PlainText(s)
  {
  }

  lemma PowersOfTen()
    ensures Pow10(2) == 100 && Pow10(3) == 1000 && Pow10(4) == 10000 && Pow10(5) == 100000 && Pow10(6) == 1000000
  {
  }

  lemma NumberPlain(v: nat, width: nat)
    requires 0 < width <= 9
    ensures PlainText(Padded(v, width)) && PlainText(PrintDecimal(v, width))
  {
    PlainNumeral(Padded(v, width));
    PlainNumeral(PrintDecimal(v, width));
  }

  lemma PositionPlain(left: nat, width: nat, t: nat, places: nat)
    requires 0 < width <= 9 && places <= 4
    ensures PlainText(PrintNumeral(left, width, t, places))
  {
    PlainNumeral(PrintNumeral(left, width, t, places));
  }

  lemma TenPlain(t: seq<string>)
    requires |t| == 10 && PlainText(t[0]) && PlainText(t[1]) && PlainText(t[2]) && PlainText(t[3]) && PlainText(t[4])
    requires PlainText(t[5]) && PlainText(t[6]) && PlainText(t[7]) && PlainText(t[8]) && PlainText(t[9])
    ensures PlainTerms(t)
  {
  }

  lemma LettersPlain()
    ensures PlainText("GPRMC") && PlainText("GPGGA") && PlainText("A") && PlainText("V")
    ensures PlainText("S") && PlainText("N") && PlainText("W") && PlainText("E")
  {
  }

  lemma RmcTermsPlain(r: RmcReport)
    ensures PlainTerms(RmcTerms(r)) && RmcFilled(RmcTerms(r))
  {
    NumberPlain(r.time, 6);
    NumberPlain(r.date, 6);
    NumberPlain(r.speed, 3);
    NumberPlain(r.course, 3);
    PositionPlain(Whole(r.latitude), 4, r.latitude.tenThousandths, 4);
    PositionPlain(Whole(r.longitude), 5, r.longitude.tenThousandths, 4);
    LettersPlain();
    TenPlain(RmcTerms(r));
  }

  lemma HemisphereIs(v: nat, negative: bool, letter: string, other: string)
    requires v < 0x8000_0000 && |letter| > 0 && |other| > 0 && letter[0] != other[0]
    ensures Hemisphere(v, if negative then letter else other, letter[0]) == Word32(Signed(v, negative))
  {
    NegatedIsSigned(v);
  }

  lemma NumeralPlace(left: nat, width: nat, t: nat, places: nat, v: nat, negative: bool, letter: string, other: string)
    requires left < U32 && left < Pow10(width) && places == 4 && t < 10000
    requires DegreesFrom(left, t) == v < 0x8000_0000 && |letter| > 0 && |other| > 0 && letter[0] != other[0]
    ensures Hemisphere(ParseDegrees(PrintNumeral(left, width, t, places)), if negative then letter else other, letter[0])
         == Word32(Signed(v, negative))
  {
    PaddedReadAs(left, width, t, places, v);
    HemisphereIs(v, negative, letter, other);
  }

  /** A printed position and its hemisphere read back as one signed number, the exact
      floor of the angle. */
  lemma PlaceRead(p: Position, left: nat, width: nat, places: nat, negative: bool, letter: string, other: string)
    requires OnEarth(p, 180) && left == Whole(p) < Pow10(width) && places == 4
    requires |letter| > 0 && |other| > 0 && letter[0] != other[0]
    ensures Hemisphere(ParseDegrees(PrintNumeral(left, width, p.tenThousandths, places)),
                       if negative then letter else other, letter[0])
         == Word32(Signed(Rounded(p), negative))
  {
    DegreesFromParts(p);
    RoundedIsSmall(p);
    NumeralPlace(left, width, p.tenThousandths, places, Rounded(p), negative, letter, other);
  }

  /** Conversions that read a report's numerals back. */
  ghost predicate RmcReads(nums: Numbers, r: RmcReport)
    requires RmcInRange(r)
  {
    && nums.decimal(PrintDecimal(r.time, 6)) == r.time
    && nums.decimal(PrintDecimal(r.speed, 3)) == r.speed
    && nums.decimal(PrintDecimal(r.course, 3)) == r.course
    && nums.long(Padded(r.date, 6)) == r.date
    && PlaceIs(nums, r.latitude, 4, if r.south then "S" else "N", 'S', r.south)
    && PlaceIs(nums, r.longitude, 5, if r.west then "W" else "E", 'W', r.west)
  }

  /** A printed position and its hemisphere are read as the signed floor. */
  ghost predicate PlaceIs(nums: Numbers, p: Position, width: nat, letter: string, negative: char, sign: bool)
    requires |letter| > 0
  {
    Hemisphere(nums.degrees(PrintNumeral(Whole(p), width, p.tenThousandths, 4)), letter, negative)
    == Word32(Signed(Rounded(p), sign))
  }

  lemma RmcFieldsFrom(nums: Numbers, f: Fields, kept: Fields, r: RmcReport, late: seq<string>)
    requires RmcInRange(r) && RmcReads(nums, r) && RmcFilled(RmcTerms(r))
    ensures RmcFields(nums, f, kept, RmcTerms(r) + late) == RmcPublished(f, r)
  {
  }

  lemma PlaceIsRead(p: Position, width: nat, sign: bool, letter: string, other: string)
    requires OnEarth(p, 180) && Whole(p) < Pow10(width) && |letter| > 0 && |other| > 0 && letter[0] != other[0]
    ensures PlaceIs(TheNumbers(), p, width, if sign then letter else other, letter[0], sign)
  {
    PlaceRead(p, Whole(p), width, 4, sign, letter, other);
  }

  lemma RmcIsRead(r: RmcReport)
    requires RmcInRange(r)
    ensures RmcReads(TheNumbers(), r)
  {
    PowersOfTen();
    DecimalRoundTrip(r.time, 6);
    DecimalRoundTrip(r.speed, 3);
    DecimalRoundTrip(r.course, 3);
    LongRoundTrip(r.date, 6);
    PlaceIsRead(r.latitude, 4, r.south, "S", "N");
    PlaceIsRead(r.longitude, 5, r.west, "W", "E");
  }

  lemma RmcFieldsRead(f: Fields, kept: Fields, r: RmcReport, late: seq<string>)
    requires RmcInRange(r)
    ensures RmcFields(TheNumbers(), f, kept, RmcTerms(r) + late) == RmcPublished(f, r)
  {
    RmcTermsPlain(r);
    RmcIsRead(r);
    RmcFieldsFrom(TheNumbers(), f, kept, r, late);
  }

  /** A printed report as a sentence: plain, named, and valid as it says. */
  lemma RmcSentence(r: RmcReport, late: seq<string>)
    requires PlainTerms(late) && |late| <= 22
    ensures var terms := RmcTerms(r) + late;
      PlainTerms(terms) && 0 < |terms| <= 32 && terms[0] == "GPRMC" && (RmcGood(terms) <==> r.valid)
  {
    RmcTermsPlain(r);
  }

  /** Round trip by value: from any parser state, a GPRMC sentence printed for a
      report, with any further terms, is reported at its line end if and only if the
      report is valid, and then publishes the report's values and nothing else. */
  lemma RmcReported(p: GpsParser, r: RmcReport, late: seq<string>, end: char)
    requires Valid(p) && RmcInRange(r) && PlainTerms(late) && |late| <= 22 && (end == '\r' || end == '\n')
    ensures var s := Printed(TheNumbers(), RmcTerms(r) + late);
      && (Returns(Gps(), Run(Gps(), p, s), end) <==> r.valid)
      && Encode(Gps(), Run(Gps(), p, s), end).published == (if r.valid then RmcPublished(p.published, r) else p.published)
  {
    RmcSentence(r, late);
    RmcFieldsRead(p.published, p.gathered.fields, r, late);
    RmcRoundTrip(TheNumbers(), p, RmcTerms(r) + late, end);
  }

  // ------------------------------------------------------------------- GPGGA

  /** Altitude in centimetres, dilution of precision in hundredths. */
  datatype GgaReport = GgaReport(time: nat, latitude: Position, south: bool, longitude: Position, west: bool,
                                 quality: nat, satellites: nat, hdop: nat, altitude: int)

  predicate GgaInRange(r: GgaReport) {
    && r.time < 100_000_000 && OnEarth(r.latitude, 90) && OnEarth(r.longitude, 180)
    && r.quality < 10 && r.satellites < 100 && r.hdop < 10_000 && -10_000_000 < r.altitude < 10_000_000
  }

  function Magnitude(v: int): (m: nat) { if v < 0 then -v else v }

  function PrintSigned(v: int, width: nat): (s: string) {
    if v < 0 then ['-'] + PrintDecimal(Magnitude(v), width) else PrintDecimal(Magnitude(v), width)
  }

  lemma NegativeRoundTrip(v: nat, width: nat)
    requires v < 0x8000_0000 && v / 100 < Pow10(width)
    ensures ParseDecimal(['-'] + PrintDecimal(v, width)) == Word32(Signed(v, true))
  {
    DecimalRoundTrip(v, width);
    assert (['-'] + PrintDecimal(v, width))[1..] == PrintDecimal(v, width);
    NegatedIsSigned(v);
  }

  lemma SignedRoundTrip(v: int, width: nat)
    requires -0x8000_0000 < v < 0x8000_0000 && Magnitude(v) / 100 < Pow10(width)
    ensures ParseDecimal(PrintSigned(v, width)) == Word32(v)
  {
    if v < 0 {
      NegativeRoundTrip(Magnitude(v), width);
    } else {
      DecimalRoundTrip(Magnitude(v), width);
    }
  }

  function GgaTerms(r: GgaReport): (terms: seq<string>)
    requires GgaInRange(r)
    ensures |terms| == 10
  {
    ["GPGGA", PrintDecimal(r.time, 6),
     PrintNumeral(Whole(r.latitude), 4, r.latitude.tenThousandths, 4), if r.south then "S" else "N",
     PrintNumeral(Whole(r.longitude), 5, r.longitude.tenThousandths, 4), if r.west then "W" else "E",
     [DigitChar(r.quality)], Padded(r.satellites, 2), PrintDecimal(r.hdop, 2), PrintSigned(r.altitude, 5)]
  }

  function GgaPublished(f: Fields, r: GgaReport): (g: Fields)
    requires GgaInRange(r)
  {
    f.(time := r.time, satellites := r.satellites, hdop := r.hdop, altitude := Word32(r.altitude),
       latitude := Word32(Signed(Rounded(r.latitude), r.south)),
       longitude := Word32(Signed(Rounded(r.longitude), r.west)))
  }

  lemma SignedPlain(v: int, width: nat)
    requires 0 < width <= 9
    ensures PlainText(PrintSigned(v, width)) && |PrintSigned(v, width)| > 0
  {
    PlainNumeral(PrintSigned(v, width));
  }

  lemma GgaTermsFilled(r: GgaReport)
    requires GgaInRange(r)
    ensures GgaFilled(GgaTerms(r))
  {
    SignedPlain(r.altitude, 5);
  }

  lemma GgaTermsPlain(r: GgaReport)
    requires GgaInRange(r)
    ensures PlainTerms(GgaTerms(r)) && GgaFilled(GgaTerms(r))
  {
    NumberPlain(r.time, 6);
    NumberPlain(r.satellites, 2);
    NumberPlain(r.hdop, 2);
    PositionPlain(Whole(r.latitude), 4, r.latitude.tenThousandths, 4);
    PositionPlain(Whole(r.longitude), 5, r.longitude.tenThousandths, 4);
    PlainNumeral([DigitChar(r.quality)]);
    SignedPlain(r.altitude, 5);
    LettersPlain();
    GgaTermsFilled(r);
    TenPlain(GgaTerms(r));
  }

  ghost predicate GgaReads(nums: Numbers, r: GgaReport)
    requires GgaInRange(r)
  {
    && nums.decimal(PrintDecimal(r.time, 6)) == r.time
    && nums.decimal(PrintDecimal(r.hdop, 2)) == r.hdop
    && nums.decimal(PrintSigned(r.altitude, 5)) == Word32(r.altitude)
    && nums.small(Padded(r.satellites, 2)) == r.satellites
    && PlaceIs(nums, r.latitude, 4, if r.south then "S" else "N", 'S', r.south)
    && PlaceIs(nums, r.longitude, 5, if r.west then "W" else "E", 'W', r.west)
  }

  lemma GgaFieldsFrom(nums: Numbers, f: Fields, kept: Fields, r: GgaReport, late: seq<string>)
    requires GgaInRange(r) && GgaReads(nums, r) && GgaFilled(GgaTerms(r))
    ensures GgaFields(nums, f, kept, GgaTerms(r) + late) == GgaPublished(f, r)
  {
  }

  lemma GgaIsRead(r: GgaReport)
    requires GgaInRange(r)
    ensures GgaReads(TheNumbers(), r)
  {
    PowersOfTen();
    DecimalRoundTrip(r.time, 6);
    DecimalRoundTrip(r.hdop, 2);
    SignedRoundTrip(r.altitude, 5);
    SmallRoundTrip(r.satellites, 2);
    PlaceIsRead(r.latitude, 4, r.south, "S", "N");
    PlaceIsRead(r.longitude, 5, r.west, "W", "E");
  }

  lemma GgaFieldsRead(f: Fields, kept: Fields, r: GgaReport, late: seq<string>)
    requires GgaInRange(r)
    ensures GgaFields(TheNumbers(), f, kept, GgaTerms(r) + late) == GgaPublished(f, r)
  {
    GgaTermsPlain(r);
    GgaIsRead(r);
    GgaFieldsFrom(TheNumbers(), f, kept, r, late);
  }

  lemma PlainJoined(a: seq<string>, b: seq<string>)
    requires PlainTerms(a) && PlainTerms(b)
    ensures PlainTerms(a + b)
  {
  }

  lemma GgaTermsSay(r: GgaReport, late: seq<string>)
    requires GgaInRange(r)
    ensures var terms := GgaTerms(r) + late; GgaName(terms[0]) && (GgaGood(terms) <==> r.quality > 0)
  {
    var terms := GgaTerms(r) + late;
    assert terms[0] == GgaTerms(r)[0];
    assert terms[6] == GgaTerms(r)[6];
    GgaIsNamed(terms[0]);
  }

  lemma GgaIsNamed(t: string)
    requires t == "GPGGA"
    ensures GgaName(t)
  {
    assert t[2] != "GPRMC"[2];
  }

  /** A printed report as a sentence: plain, named, and valid as it says. */
  lemma GgaSentence(r: GgaReport, late: seq<string>)
    requires GgaInRange(r) && PlainTerms(late) && |late| <= 22
    ensures var terms := GgaTerms(r) + late;
      PlainTerms(terms) && 0 < |terms| <= 32 && GgaName(terms[0]) && (GgaGood(terms) <==> r.quality > 0)
  {
    GgaTermsPlain(r);
    PlainJoined(GgaTerms(r), late);
    GgaTermsSay(r, late);
  }

  /** The same for GPGGA, valid when the fix quality is not zero; altitudes may be
      negative. */
  lemma GgaReported(p: GpsParser, r: GgaReport, late: seq<string>, end: char)
    requires Valid(p) && GgaInRange(r) && PlainTerms(late) && |late| <= 22 && (end == '\r' || end == '\n')
    ensures var s := Printed(TheNumbers(), GgaTerms(r) + late);
      && (Returns(Gps(), Run(Gps(), p, s), end) <==> r.quality > 0)
      && Encode(Gps(), Run(Gps(), p, s), end).published
         == (if r.quality > 0 then GgaPublished(p.published, r) else p.published)
  {
    GgaSentence(r, late);
    GgaFieldsRead(p.published, p.gathered.fields, r, late);
    GgaRoundTrip(TheNumbers(), p, GgaTerms(r) + late, end);
  }

  // --------------------------------------------- a value that was never verified

  /** One digit is a hundred hundredths. */
  lemma OneIsHundred(t: string)
    requires t == "1"
    ensures ParseDecimal(t) == 100
  {
    assert t[..1] == t && t[1..] == [];
    DigitRunIs(t, 1);
    ParseUnsignedOf(t, t, []);
    assert Number(t) == 1;
  }

  /** From any state, the time of a sentence whose two digits are wrong becomes public
      with the next valid sentence, which brings no time of its own. */
  lemma UnverifiedTimeExample(p: GpsParser, h1: char, h2: char)
    requires Valid(p) && PlainChar(h1) && PlainChar(h2) && Spelled(h1, h2) != Checksum(TheNumbers(), ["GPRMC", "1", "A"])
    ensures var q := Past(TheNumbers(), p, ["GPRMC", "1", "A"], h1, h2, '\r');
      && !Returns(Gps(), Run(Gps(), p, Sentence(["GPRMC", "1", "A"], h1, h2)), '\r') && q.published == p.published
      && After(TheNumbers(), q, ["GPRMC", "", "A"], '\r').time == 100
  {
    var (bad, next) := (["GPRMC", "1", "A"], ["GPRMC", "", "A"]);
    LettersPlain();
    PlainNumeral("1");
    PlainNumeral("");
    assert PlainTerms(bad) && PlainTerms(next);
    assert Term(bad, 1) == "1" && Term(next, 1) == [] && Term(next, 2) == "A";
    OneIsHundred("1");
    UnverifiedTime(TheNumbers(), p, bad, h1, h2, next, '\r');
  }

  // ------------------------------------------------- a report without digits

  /** The exclusive ors the example goes through. */
  ghost predicate NameXors(ops: Ops<Gathered, Fields>) {
    ops.xor(0, 'G') == 71 && ops.xor(71, 'P') == 23 && ops.xor(23, 'R') == 69
    && ops.xor(69, 'M') == 8 && ops.xor(8, 'C') == 75
  }

  ghost predicate RestXors(ops: Ops<Gathered, Fields>) {
    ops.xor(75, ',') == 103 && ops.xor(103, 'A') == 38 && ops.xor(38, ',') == 10
    && ops.xor(10, 'A') == 75 && ops.xor(75, 'A') == 10
  }

  lemma XorFact(x: nat, c: char, code: nat, y: nat)
    requires c as int == code < 256 && XorBytes(x, code) == y
    ensures Gps().xor(x, c) == y
  {
    assert Code(c) == code;
  }

  lemma XorFromZero()
    ensures XorBytes(0, 71) == 71
  {
  }

  lemma XorG()
    ensures Gps().xor(0, 'G') == 71
  {
    XorFromZero();
    XorFact(0, 'G', 71, 71);
  }

  lemma XorP()
    ensures Gps().xor(71, 'P') == 23
  {
    XorFact(71, 'P', 80, 23);
  }

  lemma XorR()
    ensures Gps().xor(23, 'R') == 69
  {
    XorFact(23, 'R', 82, 69);
  }

  lemma XorM()
    ensures Gps().xor(69, 'M') == 8
  {
    XorFact(69, 'M', 77, 8);
  }

  lemma XorC()
    ensures Gps().xor(8, 'C') == 75
  {
    XorFact(8, 'C', 67, 75);
  }

  lemma XorComma()
    ensures Gps().xor(75, ',') == 103
  {
    XorFact(75, ',', 44, 103);
  }

  lemma XorA()
    ensures Gps().xor(103, 'A') == 38
  {
    XorFact(103, 'A', 65, 38);
  }

  lemma XorSecondComma()
    ensures Gps().xor(38, ',') == 10
  {
    XorFact(38, ',', 44, 10);
  }

  lemma XorSecondA()
    ensures Gps().xor(10, 'A') == 75
  {
    XorFact(10, 'A', 65, 75);
  }

  lemma XorThirdA()
    ensures Gps().xor(75, 'A') == 10
  {
    XorFact(75, 'A', 65, 10);
  }

  lemma GpsXors()
    ensures NameXors(Gps()) && RestXors(Gps())
  {
    XorG();
    XorP();
    XorR();
    XorM();
    XorC();
    XorComma();
    XorA();
    XorSecondComma();
    XorSecondA();
    XorThirdA();
  }

  lemma ParityOfName(ops: Ops<Gathered, Fields>)
    requires NameXors(ops)
    ensures XorAll(ops, 0, "GPRMC") == 75
  {
    XorAllSnoc(ops, 0, "", 'G');
    assert "" + ['G'] == "G";
    XorAllSnoc(ops, 0, "G", 'P');
    assert "G" + ['P'] == "GP";
    XorAllSnoc(ops, 0, "GP", 'R');
    assert "GP" + ['R'] == "GPR";
    XorAllSnoc(ops, 0, "GPR", 'M');
    assert "GPR" + ['M'] == "GPRM";
    XorAllSnoc(ops, 0, "GPRM", 'C');
    assert "GPRM" + ['C'] == "GPRMC";
  }

  lemma ParityOfExample(ops: Ops<Gathered, Fields>)
    requires NameXors(ops) && RestXors(ops)
    ensures XorAll(ops, 0, "GPRMC,A,AA") == 10
  {
    ParityOfName(ops);
    XorAllSnoc(ops, 0, "GPRMC", ',');
    assert "GPRMC" + [','] == "GPRMC,";
    XorAllSnoc(ops, 0, "GPRMC,", 'A');
    assert "GPRMC," + ['A'] == "GPRMC,A";
    XorAllSnoc(ops, 0, "GPRMC,A", ',');
    assert "GPRMC,A" + [','] == "GPRMC,A,";
    XorAllSnoc(ops, 0, "GPRMC,A,", 'A');
    assert "GPRMC,A," + ['A'] == "GPRMC,A,A";
    XorAllSnoc(ops, 0, "GPRMC,A,A", 'A');
    assert "GPRMC,A,A" + ['A'] == "GPRMC,A,AA";
  }

  lemma ExampleBody(terms: seq<string>)
    requires terms == ["GPRMC", "A", "AA"]
    ensures Body(terms) == "GPRMC,A,AA" && Starred(terms) == "$GPRMC,A,AA*"
  {
    assert Commas(terms, 1) == "GPRMC,";
    assert Commas(terms, 2) == "GPRMC,A,";
    StarredIs(terms);
  }

  lemma ExampleIsGood(nums: Numbers, g: Gathered, terms: seq<string>)
    requires terms == ["GPRMC", "A", "AA"]
    ensures AbsorbAll(TheOps(nums), g, terms, |terms|).good
  {
    AbsorbStep(nums, g, terms, 0);
    AbsorbStep(nums, g, terms, 1);
    AbsorbStep(nums, g, terms, 2);
  }

  lemma LeftOverSpells()
    ensures Gps().spelled(NUL, 'A') == 10
  {
    assert FromHex(NUL) == -48 && FromHex('A') == 10;
  }

  lemma NoDigitsInExample(ops: Ops<Gathered, Fields>, p: GpsParser, terms: seq<string>, end: char)
    requires Valid(p) && terms == ["GPRMC", "A", "AA"] && (end == '\r' || end == '\n')
    requires ops.good(Outcome(ops, p, terms)) && XorAll(ops, 0, Body(terms)) == 10 && ops.spelled(NUL, 'A') == 10
    ensures Returns(ops, Run(ops, p, Starred(terms)), end)
  {
    NoDigits(ops, p, terms, end);
  }

  /** A sentence without a single checksum digit is reported, from any parser state:
      the test reads NUL and the second letter of the term before the asterisk. */
  lemma ReportedWithoutDigits(p: GpsParser)
    requires Valid(p)
    ensures Returns(Gps(), Run(Gps(), p, "$GPRMC,A,AA*"), '\r')
  {
    var terms := ["GPRMC", "A", "AA"];
    ExampleBody(terms);
    ExampleIsGood(TheNumbers(), Gathered(Other, p.gathered.fields, false), terms);
    GpsXors();
    ParityOfExample(Gps());
    LeftOverSpells();
    NoDigitsInExample(Gps(), p, terms, '\r');
  }
}
