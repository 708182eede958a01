/** The 32-bit words the trigger core sends and how the acquisition program reads
    them back. */
module WordCodec {
  import opened Arith

  /** What the FPGA means a word to say. */
  datatype Message =
    | AdcPair(a: int, b: int)
    | TriggerStatus(firedB: bool, firedA: bool, clock: nat)
    | PulseCount(count: nat)
    | Marker
    | PpsClock(clock: nat)
    | Meta(kind: Kind, value: nat)

  datatype Kind = Temperature | Pressure | Time | Latitude | Longitude | Altitude | Date | Satellites | RateA | RateB

  /** What the program makes of a word. */
  datatype Reading =
    | Samples(ch1: int, ch2: int)
    | TriggerSeen(mask: nat, clock: nat)
    | CounterSeen(count: nat)
    | PpsSeen(clock: nat)
    | TemperatureDue
    | PressureDue
    | TimeSeen(hour: nat, minute: nat, second: nat)
    | LatitudeSeen(value: int)
    | LongitudeSeen(value: int)
    | AltitudeSeen(value: int)
    | GpsIgnored
    | Rate1(count: nat)
    | Rate2(count: nat)
    | UnknownWord(tag: nat)

  /** Field widths of the FPGA's signals. */
  predicate Representable(m: Message) {
    match m
    case AdcPair(a, b) => -8192 <= a < 8192 && -8192 <= b < 8192
    case TriggerStatus(_, _, clock) => clock < 0x800_0000
    case PulseCount(count) => count < 0x4000_0000
    case Marker => true
    case PpsClock(clock) => clock < 0x800_0000
    case Meta(_, value) => value < 0x100_0000
  }

  /** The low fourteen bits of a sample. */
  function Low14(v: int): (u: nat) { v % 0x4000 }

  /** Tag bits 31..27 and sub-tag bits 26..24 of a metadata word. */
  function Tags(k: Kind): (t: (nat, nat)) {
    match k
    case Temperature => (0x19, 0)
    case Pressure => (0x1A, 0)
    case Time => (0x1B, 0)
    case Latitude => (0x1C, 0)
    case Longitude => (0x1C, 1)
    case Altitude => (0x1C, 2)
    case Date => (0x1C, 3)
    case Satellites => (0x1C, 4)
    case RateA => (0x1D, 0)
    case RateB => (0x1E, 0)
  }

  /** The FPGA's encoding. */
  function Encode(m: Message): (w: nat)
    requires Representable(m)
    ensures w < 0x1_0000_0000
  {
    match m
    case AdcPair(a, b) => Low14(b) * 0x1_0000 + Low14(a)
    case TriggerStatus(fb, fa, clock) =>
      0x4000_0000 + (if fb then 0x1000_0000 else 0) + (if fa then 0x800_0000 else 0) + clock
    case PulseCount(count) => 0x8000_0000 + count
    case Marker => 0xFFFF_FFFF
    case PpsClock(clock) => 0x18 * 0x800_0000 + clock
    case Meta(k, value) => Tags(k).0 * 0x800_0000 + Tags(k).1 * 0x100_0000 + value
  }

  /** A 16-bit half as the program prints it: bit 13 copied up, kept to 16 bits. */
  function SignExtend(ch: int): (v: int) {
    var bit := ch / 0x2000;
    var sum := (bit * 0x4000 + bit * 0x8000 + ch) % 0x1_0000;
    if sum < 0x8000 then sum else sum - 0x1_0000
  }

  /** A half word as `int16_t`. */
  function Int16(half: nat): (v: int) { if half < 0x8000 then half else half - 0x1_0000 }

  /** A 24-bit field shifted up and down again as `int32_t`. */
  function Signed24(v: nat): (s: int) { if v < 0x80_0000 then v else v - 0x100_0000 }

  /** The program's decision tree. */
  function Decode(w: nat): (r: Reading)
    requires w < 0x1_0000_0000
  {
    if w / 0x4000_0000 == 0 then Samples(SignExtend(Int16(w % 0x1_0000)), SignExtend(Int16(w / 0x1_0000)))
    else if w / 0x4000_0000 == 1 then TriggerSeen(w / 0x800_0000 % 8, w % 0x800_0000)
    else if w / 0x4000_0000 == 2 then CounterSeen(w % 0x4000_0000)
    else
      var (tag, field) := (w / 0x800_0000, w % 0x100_0000);
      if tag == 0x18 then PpsSeen(w % 0x800_0000)
      else if tag == 0x19 then TemperatureDue
      else if tag == 0x1A then PressureDue
      else if tag == 0x1B then TimeSeen(w / 0x1_0000 % 0x100, w / 0x100 % 0x100, w % 0x100)
      else if tag == 0x1C then
        var sub := w / 0x100_0000 % 8;
        if sub == 0 then LatitudeSeen(Signed24(field))
        else if sub == 1 then LongitudeSeen(Signed24(field))
        else if sub == 2 then AltitudeSeen(Signed24(field))
        else GpsIgnored
      else if tag == 0x1D then Rate1(field)
      else if tag == 0x1E then Rate2(field)
      else UnknownWord(tag)
  }

  /** What each message should come back as.  Temperature and pressure words only
      prompt a sensor reading, date and satellite words are skipped, and the
      all-ones marker is not known to the program. */
  function Meaning(m: Message): (r: Reading)
    requires Representable(m)
  {
    match m
    case AdcPair(a, b) => Samples(a, b)
    case TriggerStatus(fb, fa, clock) => TriggerSeen((if fb then 2 else 0) + (if fa then 1 else 0), clock)
    case PulseCount(count) => CounterSeen(count)
    case Marker => UnknownWord(0x1F)
    case PpsClock(clock) => PpsSeen(clock)
    case Meta(k, v) =>
      match k
      case Temperature => TemperatureDue
      case Pressure => PressureDue
      case Time => TimeSeen(v / 0x1_0000, v / 0x100 % 0x100, v % 0x100)
      case Latitude => LatitudeSeen(Signed24(v))
      case Longitude => LongitudeSeen(Signed24(v))
      case Altitude => AltitudeSeen(Signed24(v))
      case Date => GpsIgnored
      case Satellites => GpsIgnored
      case RateA => Rate1(v)
      case RateB => Rate2(v)
  }

  /** A sample survives: fourteen bits out, sign copied back in. */
  lemma SampleSurvives(v: int)
    requires -8192 <= v < 8192
    ensures Low14(v) < 0x4000 && SignExtend(Int16(Low14(v))) == v
  {
    if v < 0 {
      assert Low14(v) == v + 0x4000;
    } else {
      assert Low14(v) == v;
    }
  }

  lemma AdcRoundTrip(a: int, b: int)
    requires -8192 <= a < 8192 && -8192 <= b < 8192
    ensures Decode(Encode(AdcPair(a, b))) == Samples(a, b)
  {
    SampleSurvives(a);
    SampleSurvives(b);
    DivModUnique(Low14(b) * 0x1_0000 + Low14(a), 0x1_0000, Low14(b), Low14(a));
  }

  /** The fields of a metadata word. */
  lemma MetaFields(tag: nat, sub: nat, v: nat)
    requires 0x18 < tag < 0x1F && sub < 8 && v < 0x100_0000
    ensures var w := tag * 0x800_0000 + sub * 0x100_0000 + v;
      && w / 0x4000_0000 == 3 && w / 0x800_0000 == tag && w / 0x100_0000 % 8 == sub && w % 0x100_0000 == v
  {
    var w := tag * 0x800_0000 + sub * 0x100_0000 + v;
    assert w / 0x100_0000 == tag * 8 + sub;
  }

  lemma TimeFields(v: nat)
    requires v < 0x100_0000
    ensures var w := 0x1B * 0x800_0000 + v;
      && w / 0x1_0000 % 0x100 == v / 0x1_0000 && w / 0x100 % 0x100 == v / 0x100 % 0x100 && w % 0x100 == v % 0x100
  {
    var w := 0x1B * 0x800_0000 + v;
    DivModUnique(w, 0x1_0000, 0xD800 + v / 0x1_0000, v % 0x1_0000);
    DivModUnique(w, 0x100, 0xD8_0000 + v / 0x100, v % 0x100);
  }

  lemma MetaRoundTrip(k: Kind, v: nat)
    requires v < 0x100_0000
    ensures Decode(Encode(Meta(k, v))) == Meaning(Meta(k, v))
  {
    MetaFields(Tags(k).0, Tags(k).1, v);
    if k == Time {
      TimeFields(v);
    }
  }

  /** For every message the program picks the class the FPGA encoded and recovers
      its payload. */
  lemma DecodeInvertsEncode(m: Message)
    requires Representable(m)
    ensures Decode(Encode(m)) == Meaning(m)
  {
    match m {
      case AdcPair(a, b) => AdcRoundTrip(a, b);
      case Meta(k, v) => MetaRoundTrip(k, v);
      case _ =>
    }
  }

  lemma MetaDisjoint(k: Kind, v: nat, k': Kind, v': nat)
    requires v < 0x100_0000 && v' < 0x100_0000 && Encode(Meta(k, v)) == Encode(Meta(k', v'))
    ensures k == k' && v == v'
  {
    MetaFields(Tags(k).0, Tags(k).1, v);
    MetaFields(Tags(k').0, Tags(k').1, v');
  }

  /** The other words: metadata with a GPS sub-tag from three on, date and satellites
      among them, is skipped, and the last tag is unknown. */
  lemma OtherWords(w: nat)
    requires 0xE300_0000 <= w < 0x1_0000_0000
    ensures w < 0xE800_0000 ==> Decode(w) == GpsIgnored
    ensures w >= 0xF800_0000 ==> Decode(w) == UnknownWord(0x1F)
  {
    if w < 0xE800_0000 {
      var sub := (w - 0xE000_0000) / 0x100_0000;
      DivModUnique(w, 0x100_0000, 0xE0 + sub, w % 0x100_0000);
    }
  }

  /** The encodings of different messages never collide. */
  lemma EncodingsDisjoint(m: Message, m': Message)
    requires Representable(m) && Representable(m') && Encode(m) == Encode(m')
    ensures m == m'
  {
    if m.Meta? && m'.Meta? {
      MetaDisjoint(m.kind, m.value, m'.kind, m'.value);
    } else {
      DecodeInvertsEncode(m);
      DecodeInvertsEncode(m');
      assert Meaning(m) == Meaning(m');
    }
  }

  /** The number a metadata word starts from. */
  function MetaBase(k: Kind): (w: nat) {
    match k
    case Temperature => 0xC800_0000
    case Pressure => 0xD000_0000
    case Time => 0xD800_0000
    case Latitude => 0xE000_0000
    case Longitude => 0xE100_0000
    case Altitude => 0xE200_0000
    case Date => 0xE300_0000
    case Satellites => 0xE400_0000
    case RateA => 0xE800_0000
    case RateB => 0xF000_0000
  }

  /** The layout of each word: channel A in the low half, channel B in the high one,
      each with the fourteen bits of its sample; the tags; the fields. */
  lemma Layout(m: Message)
    requires Representable(m)
    ensures m.AdcPair? ==> var w := Encode(m);
      && w % 0x1_0000 < 0x4000 && w / 0x1_0000 < 0x4000
      && (w % 0x1_0000 - m.a) % 0x4000 == 0 && (w / 0x1_0000 - m.b) % 0x4000 == 0
    ensures m.TriggerStatus? ==>
      Encode(m) == (if m.firedB then if m.firedA then 0x5800_0000 else 0x5000_0000
                    else if m.firedA then 0x4800_0000 else 0x4000_0000) + m.clock
    ensures m.PulseCount? ==> Encode(m) == 0x8000_0000 + m.count
    ensures m.PpsClock? ==> Encode(m) == 0xC000_0000 + m.clock
    ensures m.Meta? ==> Encode(m) == MetaBase(m.kind) + m.value
  {
    if m.AdcPair? {
      PairLayout(Encode(m), m.a, m.b);
    }
  }

  lemma PairLayout(w: nat, a: int, b: int)
    requires w == Low14(b) * 0x1_0000 + Low14(a)
    ensures w % 0x1_0000 < 0x4000 && w / 0x1_0000 < 0x4000
    ensures (w % 0x1_0000 - a) % 0x4000 == 0 && (w / 0x1_0000 - b) % 0x4000 == 0
  {
    Low14Keeps(a);
    Low14Keeps(b);
    DivModUnique(w, 0x1_0000, Low14(b), Low14(a));
  }

  lemma Low14Keeps(v: int)
    ensures Low14(v) < 0x4000 && (Low14(v) - v) % 0x4000 == 0
  {
    DivModUnique(Low14(v) - v, 0x4000, -(v / 0x4000), 0);
  }

  // ------------------------------------------------------ lost-pulse counting

  /** The program's pulse bookkeeping: last counter, the one before, pulses lost. */
  datatype Pulses = Pulses(current: nat, previous: nat, lost: nat)

  function Count(p: Pulses, counter: nat): (p': Pulses) {
    var gap := counter - p.current - 1;
    Pulses(counter, p.current, if gap > 0 && p.current != 0 then p.lost + gap else p.lost)
  }

  function CountAll(p: Pulses, counters: seq<nat>): (p': Pulses) {
    if |counters| == 0 then p else Count(CountAll(p, counters[..|counters| - 1]), counters[|counters| - 1])
  }

  ghost predicate StrictlyIncreasing(s: seq<nat>) { forall i :: 0 < i < |s| ==> s[i - 1] < s[i] }

  /** Never fewer than the law demands, and more as soon as a counter does not
      exceed the one before. */
  lemma {:induction false} LostAtLeast(p: Pulses, counters: seq<nat>)
    requires |counters| > 0 && forall i :: 0 <= i < |counters| ==> counters[i] > 0
    requires p.current == 0
    ensures var (q, n) := (CountAll(p, counters), |counters|);
      && q.current == counters[n - 1]
      && (n - 1) + q.lost + counters[0] >= counters[n - 1] + p.lost
      && ((n - 1) + q.lost + counters[0] == counters[n - 1] + p.lost <==> StrictlyIncreasing(counters))
  {
    var n := |counters|;
    var init := counters[..n - 1];
    if n == 1 {
      assert CountAll(p, init) == p;
    } else {
      LostAtLeast(p, init);
      assert StrictlyIncreasing(counters) <==> StrictlyIncreasing(init) && counters[n - 2] < counters[n - 1] by {
        if StrictlyIncreasing(init) && counters[n - 2] < counters[n - 1] {
          forall i | 0 < i < n ensures counters[i - 1] < counters[i] {
            assert i < n - 1 ==> init[i - 1] < init[i];
          }
        }
        if StrictlyIncreasing(counters) {
          forall i | 0 < i < n - 1 ensures init[i - 1] < init[i] {
            assert counters[i - 1] < counters[i];
          }
        }
      }
    }
  }

  /** Conservation: from the first non-zero counter on, counters received after it
      plus pulses counted as lost equal last minus first, if and only if the
      counters strictly increase. */
  lemma LostPulsesConserved(p: Pulses, counters: seq<nat>)
    requires |counters| > 0 && forall i :: 0 <= i < |counters| ==> counters[i] > 0
    requires p.current == 0
    ensures var (received, lost) := (|counters| - 1, CountAll(p, counters).lost - p.lost);
      received + lost + counters[0] == counters[|counters| - 1] <==> StrictlyIncreasing(counters)
  {
    LostAtLeast(p, counters);
  }

  predicate Beyond(a: nat, x: nat) { a < x }

  /** How many pulse numbers lie strictly between two counters. */
  ghost function Between(a: nat, b: nat): (n: nat) { |set x: nat | x < b && Beyond(a, x)| }

  lemma {:induction false} BetweenIs(a: nat, b: nat)
    ensures Between(a, b) == if a < b then b - a - 1 else 0
    decreases b
  {
    var s := set x: nat | x < b && Beyond(a, x);
    if b <= a + 1 {
      assert s == {};
    } else {
      BetweenIs(a, b - 1);
      var t := set x: nat | x < b - 1 && Beyond(a, x);
      assert s == t + {b - 1} && b - 1 !in t;
    }
  }

  /** All pulse numbers skipped from one counter to the next. */
  ghost function Skipped(counters: seq<nat>): (n: nat) {
    if |counters| <= 1 then 0
    else Skipped(counters[..|counters| - 1]) + Between(counters[|counters| - 2], counters[|counters| - 1])
  }

  /** What the program counts as lost is exactly the pulse numbers skipped; a counter
      that does not increase adds nothing. */
  lemma {:induction false} LostAreSkipped(p: Pulses, counters: seq<nat>)
    requires |counters| > 0 && p.current == 0 && forall i :: 0 <= i < |counters| ==> counters[i] > 0
    ensures CountAll(p, counters).lost == p.lost + Skipped(counters)
    ensures CountAll(p, counters).current == counters[|counters| - 1]
  {
    var n := |counters|;
    if n == 1 {
      assert CountAll(p, counters[..0]) == p;
    } else {
      LostAreSkipped(p, counters[..n - 1]);
      BetweenIs(counters[n - 2], counters[n - 1]);
    }
  }

  /** The program remembers the last two counters it has read. */
  lemma {:induction false} LastTwoAreKept(p: Pulses, counters: seq<nat>)
    requires |counters| > 0
    ensures var (q, n) := (CountAll(p, counters), |counters|);
      && q.current == counters[n - 1]
      && q.previous == if n == 1 then p.current else counters[n - 2]
  {
    if |counters| > 1 {
      LastTwoAreKept(p, counters[..|counters| - 1]);
    }
  }

  lemma {:induction false} CountAllAppend(p: Pulses, a: seq<nat>, b: seq<nat>)
    ensures CountAll(p, a + b) == CountAll(CountAll(p, a), b)
  {
    if |b| == 0 {
      assert a + b == a;
    } else {
      CountAllAppend(p, a, b[..|b| - 1]);
      assert (a + b)[..|a + b| - 1] == a + b[..|b| - 1];
    }
  }

  /** Leading zero counters lose nothing and start nothing. */
  lemma {:induction false} ZerosLoseNothing(p: Pulses, zeros: seq<nat>)
    requires p.current == 0 && forall k :: 0 <= k < |zeros| ==> zeros[k] == 0
    ensures CountAll(p, zeros).current == 0 && CountAll(p, zeros).lost == p.lost
  {
    if |zeros| == 0 {
    } else {
      ZerosLoseNothing(p, zeros[..|zeros| - 1]);
    }
  }

  lemma IncreasingTail(counters: seq<nat>, first: nat)
    requires StrictlyIncreasing(counters) && first < |counters| && counters[first] > 0
    ensures StrictlyIncreasing(counters[first..]) && forall k :: 0 <= k < |counters[first..]| ==> counters[first..][k] > 0
  {
    var cs := counters[first..];
    forall k | 0 < k < |cs| ensures cs[k - 1] < cs[k] {
      assert counters[first + k - 1] < counters[first + k];
    }
    forall k | 0 <= k < |cs| ensures cs[k] > 0 {
      assert k > 0 ==> cs[k - 1] < cs[k];
    }
  }

  /** Conservation over a whole list of counters: from the first non-zero one on,
      those received plus those counted as lost are last minus first. */
  lemma {:induction false} ConservedFromFirst(p: Pulses, counters: seq<nat>, first: nat)
    requires p.current == 0 && StrictlyIncreasing(counters) && first < |counters|
    requires counters[first] > 0 && forall k :: 0 <= k < first ==> counters[k] == 0
    ensures (|counters| - 1 - first) + (CountAll(p, counters).lost - p.lost) + counters[first]
         == counters[|counters| - 1]
  {
    var (zeros, cs) := (counters[..first], counters[first..]);
    ZerosLoseNothing(p, zeros);
    IncreasingTail(counters, first);
    LostPulsesConserved(CountAll(p, zeros), cs);
    CountAllAppend(p, zeros, cs);
    assert zeros + cs == counters;
  }

  // ------------------------------------------------------- the reading loop

  ghost predicate Words(ws: seq<nat>) { forall k :: 0 <= k < |ws| ==> ws[k] < 0x1_0000_0000 }

  function Readings(ws: seq<nat>): (rs: seq<Reading>)
    requires Words(ws)
  {
    seq(|ws|, k requires 0 <= k < |ws| => Decode(ws[k]))
  }

  /** The counter values among the words, oldest first. */
  function CountersIn(ws: seq<nat>): (cs: seq<nat>)
    requires Words(ws)
  {
    if |ws| == 0 then []
    else
      var r := Decode(ws[|ws| - 1]);
      CountersIn(ws[..|ws| - 1]) + if r.CounterSeen? then [r.count] else []
  }

  function Tally(r: Reading, mask: nat): (n: nat) { if r.TriggerSeen? && r.mask == mask then 1 else 0 }

  function CountReading(p: Pulses, r: Reading): (p': Pulses) { if r.CounterSeen? then Count(p, r.count) else p }

  /** How often a trigger mask occurs among the words. */
  function TriggersIn(ws: seq<nat>, mask: nat): (n: nat)
    requires Words(ws)
  {
    if |ws| == 0 then 0 else TriggersIn(ws[..|ws| - 1], mask) + Tally(Decode(ws[|ws| - 1]), mask)
  }

  /** The words that report a trigger with a given mask. */
  predicate HasMask(w: nat, mask: nat) {
    0x4000_0000 + mask * 0x800_0000 <= w < 0x4000_0000 + (mask + 1) * 0x800_0000 && mask < 8
  }

  lemma TallyIs(w: nat, mask: nat)
    requires w < 0x1_0000_0000
    ensures Tally(Decode(w), mask) == if HasMask(w, mask) then 1 else 0
  {
    var m := w / 0x800_0000;
    assert m * 0x800_0000 <= w < (m + 1) * 0x800_0000;
  }

  /** The places in the buffer where the words with a mask stand. */
  ghost function Places(ws: seq<nat>, mask: nat): (s: set<nat>) { set k: nat | k < |ws| && HasMask(ws[k], mask) }

  lemma PlacesExtend(init: seq<nat>, w: nat, mask: nat)
    ensures |Places(init + [w], mask)| == |Places(init, mask)| + if HasMask(w, mask) then 1 else 0
  {
    var (s, t) := (Places(init + [w], mask), Places(init, mask));
    assert |init| !in t;
    if HasMask(w, mask) {
      assert s == t + {|init|};
    } else {
      assert s == t;
    }
  }

  /** A mask's tally is the number of places in the buffer where its words stand. */
  lemma {:induction false} TriggersAreWords(ws: seq<nat>, mask: nat)
    requires Words(ws)
    ensures TriggersIn(ws, mask) == |Places(ws, mask)|
  {
    if |ws| == 0 {
    } else {
      var (init, w) := (ws[..|ws| - 1], ws[|ws| - 1]);
      TriggersAreWords(init, mask);
      TallyIs(w, mask);
      PlacesExtend(init, w, mask);
      assert init + [w] == ws;
    }
  }

  lemma ReadingsPrefix(ws: seq<nat>, i: nat)
    requires Words(ws) && i < |ws|
    ensures Readings(ws[..i + 1]) == Readings(ws[..i]) + [Decode(ws[i])]
    ensures forall m :: TriggersIn(ws[..i + 1], m) == TriggersIn(ws[..i], m) + Tally(Decode(ws[i]), m)
  {
    assert ws[..i + 1][..i] == ws[..i];
  }

  lemma CountersPrefix(p: Pulses, ws: seq<nat>, i: nat)
    requires Words(ws) && i < |ws|
    ensures CountAll(p, CountersIn(ws[..i + 1])) == CountReading(CountAll(p, CountersIn(ws[..i])), Decode(ws[i]))
  {
    assert ws[..i + 1][..i] == ws[..i];
    var (cs, r) := (CountersIn(ws[..i]), Decode(ws[i]));
    if r.CounterSeen? {
      assert (cs + [r.count])[..|cs|] == cs;
    } else {
      assert cs + [] == cs;
    }
  }

  /** The globals that the word loop of `read_buffer` updates. */
  class LagoReader {
    var pulses: Pulses
    var log: seq<Reading>
    const r: array<nat>

    constructor ()
      ensures pulses == Pulses(0, 0, 0) && log == [] && fresh(r) && r.Length == 8
      ensures forall m :: 0 <= m < 8 ==> r[m] == 0
    {
      pulses, log := Pulses(0, 0, 0), [];
      r := new nat[8](_ => 0);
    }

    /** One word of the loop. */
    method ReadWord(w: nat)
      requires w < 0x1_0000_0000 && r.Length == 8
      modifies this, r
      ensures log == old(log) + [Decode(w)]
      ensures pulses == CountReading(old(pulses), Decode(w))
      ensures forall m :: 0 <= m < 8 ==> r[m] == old(r[m]) + Tally(Decode(w), m)
    {
      var reading := Decode(w);
      log := log + [reading];
      match reading {
        case CounterSeen(count) =>
          var gap := count - pulses.current - 1;
          var lost := pulses.lost + if gap > 0 && pulses.current != 0 then gap else 0;
          pulses := Pulses(count, pulses.current, lost);
        case TriggerSeen(mask, _) =>
          r[mask] := r[mask] + 1;
        case _ =>
      }
    }

    /** Every word is logged by its class, every counter enters the lost-pulse sum
        and every trigger its mask's tally. */
    method ReadWords(ws: seq<nat>)
      requires Words(ws) && r.Length == 8
      modifies this, r
      ensures log == old(log) + Readings(ws)
      ensures pulses == CountAll(old(pulses), CountersIn(ws))
      ensures forall m :: 0 <= m < 8 ==> r[m] == old(r[m]) + TriggersIn(ws, m)
    {
      for i := 0 to |ws|
        invariant log == old(log) + Readings(ws[..i])
        invariant pulses == CountAll(old(pulses), CountersIn(ws[..i]))
        invariant forall m :: 0 <= m < 8 ==> r[m] == old(r[m]) + TriggersIn(ws[..i], m)
      {
        ReadingsPrefix(ws, i);
        CountersPrefix(old(pulses), ws, i);
        ReadWord(ws[i]);
      }
      assert ws[..|ws|] == ws;
    }
  }
}
