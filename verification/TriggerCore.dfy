/** The LAGO trigger core: two channels, the status and counter words, and the
    state machine that frames them on the output stream. */
module TriggerCore {
  import TC = TriggerChannel
  import opened WordCodec

  datatype Phase = Idle | AttTr | SendStatus | SendCount | AttSub | AttPps

  datatype Config = Config(a: TC.Config, b: TC.Config)

  ghost predicate Good(g: Config) { TC.Good(g.a) && TC.Good(g.b) }

  /** The 24-bit metadata inputs sampled on each pulse per second. */
  datatype Metadata = Metadata(temp: nat, pressure: nat, time: nat, latitude: nat, longitude: nat,
                               altitude: nat, date: nat, satellites: nat)

  /** One cycle's inputs.  `subtr` and `subWords` stand for the sub-trigger logic,
      about which nothing is assumed. */
  datatype Input = Input(tvalid: bool, rawA: nat, rawB: nat, ready: bool, pps: bool, clock: nat,
                         meta: Metadata, subtr: bool, subWords: seq<nat>)

  /** Status and counter words, rates, and the words waiting to be sent. */
  datatype Regs = Regs(trStatus: nat, cntStatus: nat, trigCnt: nat, rateA: nat, rateB: nat,
                       ppsWords: seq<nat>, subWords: seq<nat>)

  /** The framing state machine with its output and handshake registers. */
  datatype Fsm = Fsm(phase: Phase, wr: nat, data: nat, tvalid: bool, tready: bool)

  datatype Core = Core(a: TC.Channel, b: TC.Channel, regs: Regs, fsm: Fsm)

  const FRAME: nat := 20
  const PULSES: nat := 0x4000_0000
  const COUNT_TAG: nat := 0x8000_0000

  ghost predicate FitsInput(i: Input) {
    && i.clock < 0x800_0000 && |i.subWords| == 3
    && i.meta.temp < 0x100_0000 && i.meta.pressure < 0x100_0000 && i.meta.time < 0x100_0000
    && i.meta.latitude < 0x100_0000 && i.meta.longitude < 0x100_0000 && i.meta.altitude < 0x100_0000
    && i.meta.date < 0x100_0000 && i.meta.satellites < 0x100_0000
  }

  ghost predicate SizedFsm(m: Fsm) {
    && m.wr <= FRAME
    && (m.phase == AttTr ==> m.wr < FRAME) && (m.phase == AttSub ==> m.wr < 3) && (m.phase == AttPps ==> m.wr < 12)
  }

  /** Register widths and array sizes. */
  ghost predicate Sized(s: Core) {
    && TC.InRange(s.a) && TC.InRange(s.b)
    && s.regs.trigCnt < PULSES && s.regs.rateA < 0x100_0000 && s.regs.rateB < 0x100_0000
    && |s.regs.ppsWords| == 12 && |s.regs.subWords| == 3
    && SizedFsm(s.fsm)
  }

  /** `tr_s`. */
  predicate Fires(g: Config, s: Core) { TC.Tick(g.a, s.a) || TC.Tick(g.b, s.b) }

  function AdcWord(s: Core): (w: nat)
    requires Sized(s)
  {
    Encode(AdcPair(s.a.shift[0], s.b.shift[0]))
  }

  /** The twelve metadata words, in the order they are sent. */
  function PpsMessage(r: Regs, i: Input, k: nat): (m: Message)
    requires r.rateA < 0x100_0000 && r.rateB < 0x100_0000 && FitsInput(i) && k < 12
    ensures Representable(m)
  {
    match k
    case 0 => Meta(RateB, r.rateB)
    case 1 => Meta(RateA, r.rateA)
    case 2 => Meta(Satellites, i.meta.satellites)
    case 3 => Meta(Date, i.meta.date)
    case 4 => Meta(Altitude, i.meta.altitude)
    case 5 => Meta(Longitude, i.meta.longitude)
    case 6 => Meta(Latitude, i.meta.latitude)
    case 7 => Meta(Time, i.meta.time)
    case 8 => Meta(Pressure, i.meta.pressure)
    case 9 => Meta(Temperature, i.meta.temp)
    case 10 => PpsClock(i.clock)
    case 11 => Marker
  }

  function PpsWords(r: Regs, i: Input): (ws: seq<nat>)
    requires r.rateA < 0x100_0000 && r.rateB < 0x100_0000 && FitsInput(i)
    ensures |ws| == 12
  {
    seq(12, k requires 0 <= k < 12 => Encode(PpsMessage(r, i, k)))
  }

  function RateNext(rate: nat, tick: bool, pps: bool): (r: nat) {
    if tick then (rate + 1) % 0x100_0000 else if pps then 0 else rate
  }

  function RegsStep(g: Config, s: Core, i: Input): (r: Regs)
    requires Sized(s) && FitsInput(i)
    ensures r.trigCnt < PULSES && r.rateA < 0x100_0000 && r.rateB < 0x100_0000
    ensures |r.ppsWords| == 12 && |r.subWords| == 3
  {
    var (fires, r) := (Fires(g, s), s.regs);
    Regs(if fires then Encode(TriggerStatus(s.b.fired, s.a.fired, i.clock)) else r.trStatus,
         if fires then Encode(PulseCount(r.trigCnt)) else r.cntStatus,
         if fires then (r.trigCnt + 1) % PULSES else r.trigCnt,
         RateNext(r.rateA, TC.Tick(g.a, s.a), i.pps),
         RateNext(r.rateB, TC.Tick(g.b, s.b), i.pps),
         if i.pps then PpsWords(r, i) else r.ppsWords,
         if i.subtr then i.subWords else r.subWords)
  }

  function FsmStep(g: Config, s: Core, i: Input): (m: Fsm)
    requires Sized(s) && FitsInput(i)
    ensures SizedFsm(m)
  {
    var m := s.fsm;
    if m.phase == Idle then
      Fsm(if !i.ready then Idle
          else if i.pps then AttPps
          else if Fires(g, s) then AttTr
          else if i.subtr then AttSub else Idle, 0, m.data, false, true)
    else if !i.ready then Fsm(m.phase, 0, m.data, true, false)
    else
      match m.phase
      case AttTr => Fsm(if m.wr == FRAME - 1 then SendStatus else AttTr, m.wr + 1, AdcWord(s), true, false)
      case SendStatus => Fsm(SendCount, 0, s.regs.trStatus, true, false)
      case SendCount => Fsm(Idle, 0, s.regs.cntStatus, true, false)
      case AttSub => Fsm(if m.wr == 2 then Idle else AttSub, m.wr + 1, s.regs.subWords[m.wr], true, false)
      case AttPps => Fsm(if m.wr == 11 then Idle else AttPps, m.wr + 1, s.regs.ppsWords[m.wr], true, false)
  }

  /** One rising edge. */
  function Step(g: Config, s: Core, i: Input): (s': Core)
    requires Sized(s) && FitsInput(i)
    ensures Sized(s')
  {
    var take := s.fsm.tready && i.tvalid;
    StepInRange(g.a, s.a, TC.Input(take, i.rawA));
    StepInRange(g.b, s.b, TC.Input(take, i.rawB));
    Core(TC.Step(g.a, s.a, TC.Input(take, i.rawA)), TC.Step(g.b, s.b, TC.Input(take, i.rawB)),
         RegsStep(g, s, i), FsmStep(g, s, i))
  }

  lemma StepInRange(g: TC.Config, c: TC.Channel, i: TC.Input)
    requires TC.InRange(c)
    ensures TC.InRange(TC.Step(g, c, i))
  {
  }

  ghost predicate Fits(ins: seq<Input>) { forall k :: 0 <= k < |ins| ==> FitsInput(ins[k]) }

  function Run(g: Config, s: Core, ins: seq<Input>): (s': Core)
    requires Sized(s) && Fits(ins)
    ensures Sized(s')
  {
    if |ins| == 0 then s else Step(g, Run(g, s, ins[..|ins| - 1]), ins[|ins| - 1])
  }

  /** What the sink takes in one cycle. */
  function Handed(s: Core, i: Input): (ws: seq<nat>) {
    if s.fsm.tvalid && i.ready then [s.fsm.data] else []
  }

  /** The words the sink takes over a run. */
  function Transferred(g: Config, s: Core, ins: seq<Input>): (ws: seq<nat>)
    requires Sized(s) && Fits(ins)
  {
    if |ins| == 0 then []
    else
      var (before, i) := (ins[..|ins| - 1], ins[|ins| - 1]);
      Transferred(g, s, before) + Handed(Run(g, s, before), i)
  }

  ghost predicate Ready(ins: seq<Input>) { forall k :: 0 <= k < |ins| ==> ins[k].ready }

  function Reset(): (s: Core)
    ensures Sized(s)
  {
    Core(TC.Reset(), TC.Reset(), Regs(0, 0, 0, 0, 0, seq(12, _ => 0), [0, 0, 0]), Fsm(Idle, 0, 0, false, false))
  }

  lemma RunPrefix(g: Config, s: Core, ins: seq<Input>, k: nat)
    requires Sized(s) && Fits(ins) && k < |ins|
    ensures Run(g, s, ins[..k + 1]) == Step(g, Run(g, s, ins[..k]), ins[k])
  {
    assert ins[..k + 1][..k] == ins[..k];
  }

  /** The word on offer, if any. */
  function Pending(m: Fsm): (ws: seq<nat>) { if m.tvalid then [m.data] else [] }

  lemma TransferredPrefix(g: Config, s: Core, ins: seq<Input>, k: nat)
    requires Sized(s) && Fits(ins) && k < |ins|
    ensures Transferred(g, s, ins[..k + 1]) == Transferred(g, s, ins[..k]) + Handed(Run(g, s, ins[..k]), ins[k])
  {
    assert ins[..k + 1][..k] == ins[..k];
  }

  // --------------------------------------------------------- moving samples

  /** The twenty samples in the shift register and the one about to enter it. */
  function Window(c: TC.Channel): (w: seq<int>) { c.shift + [c.adc] }

  /** `y` is `x` after `k` shifts. */
  ghost predicate Moved(x: seq<int>, y: seq<int>, k: nat) {
    |x| == |y| && forall j {:trigger y[j]} :: 0 <= j && j + k < |x| ==> y[j] == x[j + k]
  }

  lemma MovedOnce(x: seq<int>, y: seq<int>, k: nat, v: int)
    requires Moved(x, y, k) && |y| > 0
    ensures Moved(x, y[1..] + [v], k + 1)
  {
    var z := y[1..] + [v];
    forall j | 0 <= j && j + k + 1 < |x| ensures z[j] == x[j + k + 1] {
      assert z[j] == y[j + 1];
    }
  }

  /** A sample moves down one place per cycle. */
  lemma {:induction false} SamplesMove(g: Config, s: Core, ins: seq<Input>, k: nat)
    requires Sized(s) && Fits(ins) && k <= |ins|
    ensures Moved(s.a.shift, Run(g, s, ins[..k]).a.shift, k)
    ensures Moved(s.b.shift, Run(g, s, ins[..k]).b.shift, k)
    decreases k
  {
    if k == 0 {
    } else {
      SamplesMove(g, s, ins, k - 1);
      RunPrefix(g, s, ins, k - 1);
      var p := Run(g, s, ins[..k - 1]);
      MovedOnce(s.a.shift, p.a.shift, k - 1, p.a.adc);
      MovedOnce(s.b.shift, p.b.shift, k - 1, p.b.adc);
    }
  }

  /** A frame starts when an idle core sees a tick, no pulse per second, and a ready
      sink; it carries the window one sample on. */
  lemma FrameStarts(g: Config, s: Core, i: Input)
    requires Sized(s) && FitsInput(i) && s.fsm.phase == Idle
    ensures var s' := Step(g, s, i);
      && (s'.fsm.phase == AttTr <==> i.ready && !i.pps && Fires(g, s))
      && s'.fsm.wr == 0 && !s'.fsm.tvalid
      && s'.a.shift == Window(s.a)[1..] && s'.b.shift == Window(s.b)[1..]
  {
  }

  // ------------------------------------------------- channels inside the core

  datatype Side = A | B

  function ChannelOf(s: Core, side: Side): (c: TC.Channel) { if side == A then s.a else s.b }

  function ConfigOf(g: Config, side: Side): (c: TC.Config) { if side == A then g.a else g.b }

  /** What one channel of the core is fed over a run. */
  function ChannelInputs(g: Config, ins: seq<Input>, side: Side): (cs: seq<TC.Input>)
    requires Fits(ins)
    ensures |cs| == |ins|
  {
    if |ins| == 0 then []
    else
      var (before, i) := (ins[..|ins| - 1], ins[|ins| - 1]);
      ChannelInputs(g, before, side)
      + [TC.Input(Run(g, Reset(), before).fsm.tready && i.tvalid, if side == A then i.rawA else i.rawB)]
  }

  /** A channel of the core behaves as the channel on its own. */
  lemma {:induction false} ChannelAlone(g: Config, ins: seq<Input>, side: Side)
    requires Fits(ins)
    ensures ChannelOf(Run(g, Reset(), ins), side) == TC.Run(ConfigOf(g, side), ChannelInputs(g, ins, side))
  {
    if |ins| == 0 {
    } else {
      var before := ins[..|ins| - 1];
      ChannelAlone(g, before, side);
      var cs := ChannelInputs(g, ins, side);
      assert cs[..|cs| - 1] == ChannelInputs(g, before, side);
    }
  }

  lemma OnePlaceOn(g: Config, s: Core, i: Input, side: Side)
    requires Sized(s) && FitsInput(i)
    ensures var f := ChannelOf(Step(g, s, i), side).shift;
      |f| == TC.DEPTH && forall k {:trigger f[k]} :: 0 <= k < 9 ==> f[k] == ChannelOf(s, side).shift[k + 1]
  {
  }

  /** The window a tick sees, one place on from the crossing that caused it. */
  lemma WindowShowsCrossing(c: TC.Config, cs: seq<TC.Input>)
    requires TC.Good(c) && TC.Tick(c, TC.Run(c, cs))
    ensures var f := TC.Run(c, cs).shift;
      && (forall k :: 1 <= k < 9 ==> f[k] < c.level)
      && f[9] >= c.level && (f[9] < 0 <==> c.level < 0)
  {
    TC.TickIsPulse(c, cs, TC.Input(false, 0));
    var before := TC.Run(c, cs[..|cs| - 1]);
    TC.RunInRange(c, cs[..|cs| - 1]);
    TC.CrossingMeaning(c, before);
    assert forall k :: 1 <= k < 10 ==> TC.Run(c, cs).shift[k] == before.shift[k + 1];
  }

  // ------------------------------------------------------------ pulse counters

  /** How many cycles of a run fire. */
  function Pulsed(g: Config, ins: seq<Input>): (n: nat)
    requires Fits(ins)
  {
    if |ins| == 0 then 0
    else
      var before := ins[..|ins| - 1];
      Pulsed(g, before) + if Fires(g, Run(g, Reset(), before)) then 1 else 0
  }

  /** The counter words put on the stream, oldest first. */
  function CounterWords(g: Config, ins: seq<Input>): (ws: seq<nat>)
    requires Fits(ins)
  {
    if |ins| == 0 then []
    else
      var (before, i) := (ins[..|ins| - 1], ins[|ins| - 1]);
      var s := Run(g, Reset(), before);
      CounterWords(g, before) + if s.fsm.phase == SendCount && i.ready then [s.regs.cntStatus] else []
  }

  /** What the program reads in a counter word. */
  function Counters(ws: seq<nat>): (cs: seq<nat>)
    requires forall k :: 0 <= k < |ws| ==> COUNT_TAG <= ws[k] < COUNT_TAG + PULSES
  {
    seq(|ws|, k requires 0 <= k < |ws| => ws[k] - COUNT_TAG)
  }

  /** The last counter sent, or -1. */
  function LastOf(ws: seq<nat>): (n: int) { if |ws| == 0 then -1 else ws[|ws| - 1] - COUNT_TAG }

  /** Proper counter words, strictly increasing. */
  ghost predicate GoodCounters(ws: seq<nat>) {
    && (forall k :: 0 <= k < |ws| ==> COUNT_TAG <= ws[k] < COUNT_TAG + PULSES)
    && (forall k :: 0 < k < |ws| ==> ws[k - 1] < ws[k])
  }

  /** A counter word goes out, or nothing does. */
  lemma SendCounter(ws: seq<nat>, w: nat, sends: bool)
    requires GoodCounters(ws) && (sends ==> COUNT_TAG <= w < COUNT_TAG + PULSES && LastOf(ws) < w - COUNT_TAG)
    ensures var ws' := ws + if sends then [w] else [];
      GoodCounters(ws') && LastOf(ws') == if sends then w - COUNT_TAG else LastOf(ws)
  {
    if sends {
      AppendCounter(ws, w);
    } else {
      assert ws + [] == ws;
    }
  }

  lemma AppendCounter(ws: seq<nat>, w: nat)
    requires GoodCounters(ws) && COUNT_TAG <= w < COUNT_TAG + PULSES && LastOf(ws) < w - COUNT_TAG
    ensures GoodCounters(ws + [w]) && LastOf(ws + [w]) == w - COUNT_TAG
  {
  }

  predicate InFrame(p: Phase) { p == AttTr || p == SendStatus || p == SendCount }

  /** Every pulse so far is counted; the counter register holds the latest; a frame
      under way will send a number not yet sent. */
  ghost predicate CounterInv(s: Core, pulses: nat, last: int) {
    && s.regs.trigCnt == pulses
    && (pulses > 0 ==> s.regs.cntStatus == COUNT_TAG + pulses - 1)
    && (if InFrame(s.fsm.phase) then last < pulses - 1 else last < pulses)
    && last >= -1
  }

  lemma CounterStep(g: Config, s: Core, i: Input, pulses: nat, last: int)
    requires Sized(s) && FitsInput(i) && CounterInv(s, pulses, last)
    requires Fires(g, s) ==> pulses + 1 < PULSES
    ensures CounterInv(Step(g, s, i), pulses + (if Fires(g, s) then 1 else 0),
                       if s.fsm.phase == SendCount && i.ready then pulses - 1 else last)
  {
  }

  lemma {:induction false} RunCounters(g: Config, ins: seq<Input>)
    requires Fits(ins) && Pulsed(g, ins) < PULSES
    ensures GoodCounters(CounterWords(g, ins))
    ensures CounterInv(Run(g, Reset(), ins), Pulsed(g, ins), LastOf(CounterWords(g, ins)))
  {
    if |ins| == 0 {
    } else {
      var (before, i) := (ins[..|ins| - 1], ins[|ins| - 1]);
      RunCounters(g, before);
      var (s, ws) := (Run(g, Reset(), before), CounterWords(g, before));
      CounterStep(g, s, i, Pulsed(g, before), LastOf(ws));
      SendCounter(ws, s.regs.cntStatus, s.fsm.phase == SendCount && i.ready);
    }
  }

  /** Until the 30-bit counter wraps, the counters sent strictly increase, whatever
      the sink and the other traffic do. */
  lemma CountersIncrease(g: Config, ins: seq<Input>)
    requires Fits(ins) && Pulsed(g, ins) < PULSES
    ensures forall k :: 0 <= k < |CounterWords(g, ins)| ==> COUNT_TAG <= CounterWords(g, ins)[k] < COUNT_TAG + PULSES
    ensures StrictlyIncreasing(Counters(CounterWords(g, ins)))
  {
    RunCounters(g, ins);
  }

  /** The counter word a frame sends is the number of the latest pulse, counting
      from zero. */
  lemma CounterIsLatestPulse(g: Config, ins: seq<Input>)
    requires Fits(ins) && Pulsed(g, ins) < PULSES && Run(g, Reset(), ins).fsm.phase == SendCount
    ensures Pulsed(g, ins) >= 1
    ensures Run(g, Reset(), ins).regs.cntStatus == COUNT_TAG + (Pulsed(g, ins) - 1)
  {
    RunCounters(g, ins);
  }

  // ------------------------------------------------------- the entity itself

  /** A state whose parts are the next parts is the next state. */
  lemma Assembled(g: Config, s: Core, i: Input, s': Core)
    requires Sized(s) && FitsInput(i)
    requires var take := s.fsm.tready && i.tvalid;
      && s'.a == TC.Step(g.a, s.a, TC.Input(take, i.rawA)) && s'.b == TC.Step(g.b, s.b, TC.Input(take, i.rawB))
      && s'.regs == RegsStep(g, s, i) && s'.fsm == FsmStep(g, s, i)
    ensures s' == Step(g, s, i) && Sized(s')
  {
  }

  /** The core with its registers updated in place around two channels. */
  class TriggerEntity {
    const g: Config
    const a: TC.ChannelCore
    const b: TC.ChannelCore
    var regs: Regs
    var phase: Phase
    var wr: nat
    var data: nat
    var tvalid: bool
    var tready: bool

    ghost function View(): (s: Core)
      reads this, a, a.shift, b, b.shift
    {
      Core(a.View(), b.View(), regs, Fsm(phase, wr, data, tvalid, tready))
    }

    /** The two channels are distinct objects with their own shift registers. */
    ghost predicate Wired() {
      && a != b && a.shift != b.shift && a.g == g.a && b.g == g.b
      && a.shift.Length == TC.DEPTH && b.shift.Length == TC.DEPTH
    }

    ghost predicate Wf()
      reads this, a, a.shift, b, b.shift
    {
      Wired() && Sized(View())
    }

    constructor (g: Config)
      ensures this.g == g && Wf() && View() == Reset()
      ensures fresh(a) && fresh(a.shift) && fresh(b) && fresh(b.shift)
    {
      this.g := g;
      a := new TC.ChannelCore(g.a);
      b := new TC.ChannelCore(g.b);
      regs := Regs(0, 0, 0, 0, 0, seq(12, _ => 0), [0, 0, 0]);
      phase, wr, data, tvalid, tready := Idle, 0, 0, false, false;
    }

    /** Next-state logic of the framing state machine. */
    method NextFsm(i: Input) returns (m: Fsm)
      requires Wf() && FitsInput(i)
      ensures m == FsmStep(g, View(), i)
    {
      if phase == Idle {
        m := Fsm(Idle, 0, data, false, true);
        if i.ready {
          if i.pps {
            m := m.(phase := AttPps);
          } else if a.count == g.a.scaler || b.count == g.b.scaler {
            m := m.(phase := AttTr);
          } else if i.subtr {
            m := m.(phase := AttSub);
          }
        }
        return;
      }
      m := Fsm(phase, 0, data, true, false);
      if !i.ready {
        return;
      }
      match phase {
        case AttTr =>
          m := m.(data := Encode(AdcPair(a.shift[0], b.shift[0])), wr := wr + 1);
          if wr == FRAME - 1 {
            m := m.(phase := SendStatus);
          }
        case SendStatus =>
          m := m.(data := regs.trStatus, phase := SendCount);
        case SendCount =>
          m := m.(data := regs.cntStatus, phase := Idle);
        case AttSub =>
          m := m.(data := regs.subWords[wr], wr := wr + 1);
          if wr == 2 {
            m := m.(phase := Idle);
          }
        case AttPps =>
          m := m.(data := regs.ppsWords[wr], wr := wr + 1);
          if wr == 11 {
            m := m.(phase := Idle);
          }
      }
    }

    /** Next-state logic of the status, counter and metadata registers. */
    method NextRegs(i: Input) returns (r: Regs)
      requires Wf() && FitsInput(i)
      ensures r == RegsStep(g, View(), i)
    {
      var tickA, tickB := a.count == g.a.scaler, b.count == g.b.scaler;
      var words := if i.pps then PpsWords(regs, i) else regs.ppsWords;
      r := regs.(rateA := RateNext(regs.rateA, tickA, i.pps), rateB := RateNext(regs.rateB, tickB, i.pps),
                 ppsWords := words);
      if tickA || tickB {
        r := r.(trStatus := Encode(TriggerStatus(b.fired, a.fired, i.clock)),
                cntStatus := Encode(PulseCount(regs.trigCnt)), trigCnt := (regs.trigCnt + 1) % PULSES);
      }
      if i.subtr {
        r := r.(subWords := i.subWords);
      }
    }

    /** Both channels on one edge. */
    method ClockChannels(ia: TC.Input, ib: TC.Input)
      requires Wired()
      modifies a, a.shift, b, b.shift
      ensures a.View() == TC.Step(g.a, old(a.View()), ia)
      ensures b.View() == TC.Step(g.b, old(b.View()), ib)
    {
      a.Clock(ia);
      b.Clock(ib);
    }

    method Latch(r: Regs, m: Fsm)
      modifies this
      ensures regs == r && Fsm(phase, wr, data, tvalid, tready) == m
    {
      regs := r;
      phase, wr, data, tvalid, tready := m.phase, m.wr, m.data, m.tvalid, m.tready;
    }

    /** All registers take their next values together. */
    method Tick(i: Input)
      requires Wf() && FitsInput(i)
      modifies this, a, a.shift, b, b.shift
      ensures Wf() && View() == Step(g, old(View()), i)
    {
      ghost var s := View();
      var m := NextFsm(i);
      var r := NextRegs(i);
      var take := tready && i.tvalid;
      ClockChannels(TC.Input(take, i.rawA), TC.Input(take, i.rawB));
      Latch(r, m);
      Assembled(g, s, i, View());
    }
  }
}
