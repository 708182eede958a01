/** What the trigger core's frames say about what came in: samples, crossings, rates and
    metadata. */
module TriggerHistory {
  import opened Arith
  import TC = TriggerChannel
  import opened WordCodec
  import opened TriggerCore
  import opened TriggerFrame

  // ---------------------------------------------------- samples from the input

  /** Samples are accepted in the cycle after an idle one. */
  predicate Accepting(g: Config, before: seq<Input>)
    requires Fits(before)
  {
    |before| > 0 && Run(g, Reset(), before[..|before| - 1]).fsm.phase == Idle
  }

  lemma ReadyAfterIdle(g: Config, before: seq<Input>)
    requires Fits(before)
    ensures Run(g, Reset(), before).fsm.tready <==> Accepting(g, before)
  {
    if |before| > 0 {
      ReadyStep(g, Run(g, Reset(), before[..|before| - 1]), before[|before| - 1]);
    }
  }

  lemma ReadyStep(g: Config, s: Core, i: Input)
    requires Sized(s) && FitsInput(i)
    ensures Step(g, s, i).fsm.tready <==> s.fsm.phase == Idle
  {
  }

  /** `a` and `b` are the pair of samples accepted last, zero before the first. */
  ghost predicate LastPair(g: Config, ins: seq<Input>, a: int, b: int)
    requires Fits(ins)
  {
    if |ins| == 0 then a == 0 && b == 0
    else
      var (before, i) := (ins[..|ins| - 1], ins[|ins| - 1]);
      if Accepting(g, before) && i.tvalid then TC.IsSample(a, i.rawA) && TC.IsSample(b, i.rawB)
      else LastPair(g, before, a, b)
  }

  /** There is only one such pair. */
  lemma {:induction false} LastPairIsUnique(g: Config, ins: seq<Input>, a: int, b: int, a': int, b': int)
    requires Fits(ins) && LastPair(g, ins, a, b) && LastPair(g, ins, a', b')
    ensures a == a' && b == b'
  {
    if |ins| == 0 {
    } else {
      var (before, i) := (ins[..|ins| - 1], ins[|ins| - 1]);
      if Accepting(g, before) && i.tvalid {
        TC.SampleIsUnique(a, a', i.rawA);
        TC.SampleIsUnique(b, b', i.rawB);
      } else {
        LastPairIsUnique(g, before, a, b, a', b');
      }
    }
  }

  /** The input registers on one edge. */
  lemma AdcStep(g: Config, s: Core, i: Input)
    requires Sized(s) && FitsInput(i)
    ensures var s' := Step(g, s, i);
      if s.fsm.tready && i.tvalid then TC.IsSample(s'.a.adc, i.rawA) && TC.IsSample(s'.b.adc, i.rawB)
      else s'.a.adc == s.a.adc && s'.b.adc == s.b.adc
  {
    TC.ExtendKeepsBits(i.rawA);
    TC.ExtendKeepsBits(i.rawB);
  }

  lemma {:induction false} AdcHolds(g: Config, ins: seq<Input>)
    requires Fits(ins)
    ensures LastPair(g, ins, Run(g, Reset(), ins).a.adc, Run(g, Reset(), ins).b.adc)
  {
    if |ins| == 0 {
    } else {
      var before := ins[..|ins| - 1];
      AdcHolds(g, before);
      ReadyAfterIdle(g, before);
      AdcStep(g, Run(g, Reset(), before), ins[|ins| - 1]);
    }
  }

  /** The pair accepted last as of `d` cycles ago. */
  ghost predicate PairAgo(g: Config, ins: seq<Input>, d: nat, a: int, b: int)
    requires Fits(ins)
  {
    if d <= |ins| then LastPair(g, ins[..|ins| - d], a, b) else a == 0 && b == 0
  }

  /** The shift registers on one edge. */
  lemma ShiftStep(g: Config, s: Core, i: Input, j: nat)
    requires Sized(s) && FitsInput(i) && j < TC.DEPTH
    ensures var s' := Step(g, s, i);
      && s'.a.shift[j] == (if j + 1 < TC.DEPTH then s.a.shift[j + 1] else s.a.adc)
      && s'.b.shift[j] == (if j + 1 < TC.DEPTH then s.b.shift[j + 1] else s.b.adc)
  {
  }

  /** Position `j` of the shift registers is twenty less `j` cycles old, in every run. */
  lemma {:induction false} ShiftHolds(g: Config, ins: seq<Input>, j: nat)
    requires Fits(ins) && j < TC.DEPTH
    ensures PairAgo(g, ins, TC.DEPTH - j, Run(g, Reset(), ins).a.shift[j], Run(g, Reset(), ins).b.shift[j])
    decreases |ins|
  {
    if |ins| == 0 {
    } else {
      var before := ins[..|ins| - 1];
      ShiftStep(g, Run(g, Reset(), before), ins[|ins| - 1], j);
      if j + 1 < TC.DEPTH {
        ShiftHolds(g, before, j + 1);
        SameAgo(ins, before, TC.DEPTH - j);
      } else {
        AdcHolds(g, before);
        assert ins[..|ins| - 1] == before;
      }
    }
  }

  lemma SameAgo(ins: seq<Input>, before: seq<Input>, d: nat)
    requires |ins| > 0 && before == ins[..|ins| - 1] && d > 0
    ensures d <= |ins| ==> ins[..|ins| - d] == before[..|before| - (d - 1)]
  {
  }

  /** End to end, from reset: word `k` of an attended frame decodes to the pair of
      samples accepted last as of twenty less `k` cycles before the frame began. */
  lemma FrameIsHistory(g: Config, pre: seq<Input>, i: Input, ins: seq<Input>, k: nat)
    requires Fits(pre) && FitsInput(i) && Fits(ins) && k < FRAME
    requires var s := Run(g, Reset(), pre); s.fsm.phase == Idle && i.ready && !i.pps && Fires(g, s)
    requires var s := Step(g, Run(g, Reset(), pre), i); Frame(g, s, ins) && Attended(g, s, ins)
    ensures var ws := Transferred(g, Step(g, Run(g, Reset(), pre), i), ins);
      k < |ws| && ws[k] < 0x1_0000_0000 && Decode(ws[k]).Samples?
      && PairAgo(g, pre + [i], FRAME - k, Decode(ws[k]).ch1, Decode(ws[k]).ch2)
  {
    FrameBegins(g, pre, i);
    RunAfter(g, pre, i);
    ShiftHolds(g, pre + [i], k);
    FrameDecodes(g, Step(g, Run(g, Reset(), pre), i), ins, k);
  }

  lemma RunAfter(g: Config, pre: seq<Input>, i: Input)
    requires Fits(pre) && FitsInput(i)
    ensures Fits(pre + [i]) && Run(g, Reset(), pre + [i]) == Step(g, Run(g, Reset(), pre), i)
  {
    assert (pre + [i])[..|pre|] == pre;
  }

  // -------------------------------------------------------- whose crossing it was

  /** The channel saw a crossing in the last cycle of a run. */
  predicate JustCrossed(g: Config, ins: seq<Input>, side: Side)
    requires Fits(ins)
  {
    |ins| > 0 && TC.Crossing(ConfigOf(g, side), ChannelOf(Run(g, Reset(), ins[..|ins| - 1]), side))
  }

  lemma FiredIsCrossed(g: Config, ins: seq<Input>, side: Side)
    requires Fits(ins)
    ensures ChannelOf(Run(g, Reset(), ins), side).fired <==> JustCrossed(g, ins, side)
  {
  }

  /** The status word the program reads names the channels that crossed in the cycle
      before the frame was started, and the clock of that start. */
  lemma StatusNamesCrossing(g: Config, pre: seq<Input>, i: Input, ins: seq<Input>)
    requires Fits(pre) && FitsInput(i) && Fits(ins)
    requires var s := Run(g, Reset(), pre); s.fsm.phase == Idle && i.ready && !i.pps && Fires(g, s)
    requires FiredIn(g, Step(g, Run(g, Reset(), pre), i), ins) == 0
    ensures var w := LoadedStatus(g, Step(g, Run(g, Reset(), pre), i), ins);
      && w < 0x1_0000_0000
      && Decode(w) == TriggerSeen((if JustCrossed(g, pre, B) then 2 else 0) + (if JustCrossed(g, pre, A) then 1 else 0),
                                  i.clock)
  {
    var s := Run(g, Reset(), pre);
    FiredIsCrossed(g, pre, A);
    FiredIsCrossed(g, pre, B);
    StatusOfFrame(g, s, i, ins);
    DecodeInvertsEncode(TriggerStatus(s.b.fired, s.a.fired, i.clock));
  }

  // --------------------------------------------------------------------- rates

  function RateOf(r: Regs, side: Side): (n: nat) { if side == A then r.rateA else r.rateB }

  predicate TickOf(g: Config, s: Core, side: Side) { TC.Tick(ConfigOf(g, side), ChannelOf(s, side)) }

  /** A pulse per second clears a rate unless its channel ticks in that very cycle. */
  predicate Clears(g: Config, s: Core, i: Input, side: Side) { i.pps && !TickOf(g, s, side) }

  /** How many ticks a run has on one side. */
  function TicksIn(g: Config, s: Core, ins: seq<Input>, side: Side): (n: nat)
    requires Sized(s) && Fits(ins)
  {
    if |ins| == 0 then 0
    else
      var before := ins[..|ins| - 1];
      TicksIn(g, s, before, side) + if TickOf(g, Run(g, s, before), side) then 1 else 0
  }

  ghost predicate NeverClears(g: Config, s: Core, ins: seq<Input>, side: Side)
    requires Sized(s) && Fits(ins)
  {
    |ins| != 0 ==>
      && NeverClears(g, s, ins[..|ins| - 1], side)
      && !Clears(g, Run(g, s, ins[..|ins| - 1]), ins[|ins| - 1], side)
  }

  const RATES: nat := 0x100_0000

  lemma RateStep(g: Config, s: Core, i: Input, side: Side)
    requires Sized(s) && FitsInput(i)
    ensures RateOf(Step(g, s, i).regs, side)
         == if TickOf(g, s, side) then Next(RateOf(s.regs, side), RATES)
            else if i.pps then 0 else RateOf(s.regs, side)
  {
    NextIsMod(s.regs.rateA, RATES);
    NextIsMod(s.regs.rateB, RATES);
  }

  lemma NextIsMod(x: nat, m: nat)
    requires x < m
    ensures (x + 1) % m == Next(x, m)
  {
    DivModUnique(x + 1, m, if x + 1 == m then 1 else 0, Next(x, m));
  }

  /** The last cycle of a run that does not clear. */
  lemma RateEdge(g: Config, s: Core, ins: seq<Input>, side: Side)
    requires Sized(s) && Fits(ins) && |ins| > 0 && NeverClears(g, s, ins, side)
    ensures var p := Run(g, s, ins[..|ins| - 1]);
      RateOf(Run(g, s, ins).regs, side)
      == if TickOf(g, p, side) then Next(RateOf(p.regs, side), RATES) else RateOf(p.regs, side)
  {
    RateStep(g, Run(g, s, ins[..|ins| - 1]), ins[|ins| - 1], side);
  }

  lemma RateCount(c: nat, n: nat, tick: bool, before: nat, now: nat)
    requires before == After(c, n, RATES) && now == if tick then Next(before, RATES) else before
    ensures now == After(c, if tick then n + 1 else n, RATES)
  {
  }

  /** The rate and tick count of a run, as numbers. */
  ghost predicate RateIs(g: Config, s: Core, ins: seq<Input>, side: Side, rate: nat, n: nat)
    requires Sized(s) && Fits(ins)
  {
    rate == RateOf(Run(g, s, ins).regs, side) && n == TicksIn(g, s, ins, side)
  }

  lemma {:induction false} RateRuns(g: Config, s: Core, ins: seq<Input>, side: Side) returns (rate: nat, n: nat)
    requires Sized(s) && Fits(ins) && NeverClears(g, s, ins, side)
    ensures RateIs(g, s, ins, side, rate, n) && rate == After(RateOf(s.regs, side), n, RATES)
  {
    if |ins| == 0 {
      rate, n := RateOf(s.regs, side), 0;
    } else {
      var before, m := RateRuns(g, s, ins[..|ins| - 1], side);
      rate, n := RateEdges(g, s, ins, side, before, m);
      RateCount(RateOf(s.regs, side), m, TickOf(g, Run(g, s, ins[..|ins| - 1]), side), before, rate);
    }
  }

  lemma RateEdges(g: Config, s: Core, ins: seq<Input>, side: Side, before: nat, m: nat) returns (rate: nat, n: nat)
    requires Sized(s) && Fits(ins) && |ins| > 0 && NeverClears(g, s, ins, side)
    requires RateIs(g, s, ins[..|ins| - 1], side, before, m)
    ensures RateIs(g, s, ins, side, rate, n)
    ensures var tick := TickOf(g, Run(g, s, ins[..|ins| - 1]), side);
      rate == (if tick then Next(before, RATES) else before) && n == if tick then m + 1 else m
  {
    RateEdge(g, s, ins, side);
    rate, n := RateOf(Run(g, s, ins).regs, side), TicksIn(g, s, ins, side);
  }

  /** A rate register counts the ticks since the last pulse per second that cleared it,
      round a 24-bit counter. */
  lemma RateSincePulse(g: Config, s: Core, i: Input, ins: seq<Input>, side: Side)
    requires Sized(s) && FitsInput(i) && Fits(ins) && Clears(g, s, i, side) && NeverClears(g, Step(g, s, i), ins, side)
    ensures RateOf(Run(g, Step(g, s, i), ins).regs, side) == After(0, TicksIn(g, Step(g, s, i), ins, side), 0x100_0000)
  {
    RateStep(g, s, i, side);
    var rate, n := RateRuns(g, Step(g, s, i), ins, side);
  }

  // ---------------------------------------------- metadata and sub-trigger frames

  /** The words of a list frame and their number. */
  function ListOf(r: Regs, phase: Phase): (ws: seq<nat>) { if phase == AttPps then r.ppsWords else r.subWords }

  predicate IsList(phase: Phase) { phase == AttPps || phase == AttSub }

  /** The registers behind a list frame keep still. */
  ghost predicate Undisturbed(ins: seq<Input>, phase: Phase) {
    forall k :: 0 <= k < |ins| ==> if phase == AttPps then !ins[k].pps else !ins[k].subtr
  }

  lemma ListStep(g: Config, p: Core, i: Input, phase: Phase)
    requires Sized(p) && FitsInput(i) && i.ready && IsList(phase) && p.fsm.phase == phase
    ensures var (ws, m) := (ListOf(p.regs, phase), Step(g, p, i).fsm);
      p.fsm.wr < |ws|
      && m == Fsm(if p.fsm.wr + 1 == |ws| then Idle else phase, p.fsm.wr + 1, ws[p.fsm.wr], true, false)
    ensures (if phase == AttPps then !i.pps else !i.subtr) ==> ListOf(Step(g, p, i).regs, phase) == ListOf(p.regs, phase)
  {
  }

  /** What has been offered `k` cycles into a list frame. */
  ghost predicate Listed(m: Fsm, ws: seq<nat>, offered: seq<nat>, phase: Phase, k: nat) {
    && k <= |ws| && offered == ws[..k] && m.tvalid == (k > 0)
    && if k < |ws| then m.phase == phase && m.wr == k else m.phase == Idle
  }

  lemma ListedStep(m: Fsm, m': Fsm, ws: seq<nat>, offered: seq<nat>, phase: Phase, k: nat)
    requires Listed(m, ws, offered, phase, k) && k < |ws|
    requires m' == Fsm(if k + 1 == |ws| then Idle else phase, k + 1, ws[k], true, false)
    ensures Listed(m', ws, offered + [m'.data], phase, k + 1)
  {
  }

  lemma {:induction false} ListRuns(g: Config, s: Core, ins: seq<Input>, phase: Phase)
    requires Sized(s) && Fits(ins) && Ready(ins) && Undisturbed(ins, phase) && IsList(phase)
    requires s.fsm.phase == phase && s.fsm.wr == 0 && !s.fsm.tvalid && |ins| <= |ListOf(s.regs, phase)|
    ensures ListOf(Run(g, s, ins).regs, phase) == ListOf(s.regs, phase)
    ensures Listed(Run(g, s, ins).fsm, ListOf(s.regs, phase), Offered(g, s, ins), phase, |ins|)
  {
    if |ins| == 0 {
    } else {
      var (before, i) := (ins[..|ins| - 1], ins[|ins| - 1]);
      ListRuns(g, s, before, phase);
      ListStep(g, Run(g, s, before), i, phase);
      OfferedStep(g, s, ins);
      ListedStep(Run(g, s, before).fsm, Run(g, s, ins).fsm, ListOf(s.regs, phase), Offered(g, s, before), phase, |before|);
    }
  }

  /** To a ready sink a list frame is exactly its words. */
  lemma ListFrame(g: Config, s: Core, ins: seq<Input>, phase: Phase)
    requires Sized(s) && Fits(ins) && Ready(ins) && Undisturbed(ins, phase) && IsList(phase)
    requires s.fsm.phase == phase && s.fsm.wr == 0 && !s.fsm.tvalid && |ins| == |ListOf(s.regs, phase)| + 1
    ensures Transferred(g, s, ins) == ListOf(s.regs, phase)
  {
    var (front, ws) := (ins[..|ins| - 1], ListOf(s.regs, phase));
    ListRuns(g, s, front, phase);
    assert ws[..|ws|] == ws;
  }

  /** What an idle core goes on to: metadata first, then a trigger, then a sub-trigger. */
  lemma IdleChooses(g: Config, s: Core, i: Input)
    requires Sized(s) && FitsInput(i) && s.fsm.phase == Idle
    ensures var m := Step(g, s, i).fsm;
      && (m.phase == AttPps <==> i.ready && i.pps)
      && (m.phase == AttTr <==> i.ready && !i.pps && Fires(g, s))
      && (m.phase == AttSub <==> i.ready && !i.pps && !Fires(g, s) && i.subtr)
      && m.wr == 0 && !m.tvalid
  {
  }

  /** The twelve words of a metadata frame. */
  function MetadataWords(i: Input, rateA: nat, rateB: nat): (ws: seq<nat>) {
    [0xF000_0000 + rateB, 0xE800_0000 + rateA, 0xE400_0000 + i.meta.satellites, 0xE300_0000 + i.meta.date,
     0xE200_0000 + i.meta.altitude, 0xE100_0000 + i.meta.longitude, 0xE000_0000 + i.meta.latitude,
     0xD800_0000 + i.meta.time, 0xD000_0000 + i.meta.pressure, 0xC800_0000 + i.meta.temp,
     0xC000_0000 + i.clock, 0xFFFF_FFFF]
  }

  lemma PpsWordsAre(r: Regs, i: Input)
    requires r.rateA < 0x100_0000 && r.rateB < 0x100_0000 && FitsInput(i)
    ensures PpsWords(r, i) == MetadataWords(i, r.rateA, r.rateB)
  {
  }

  /** A pulse per second seen by an idle core: a ready sink gets the two rates, the
      metadata and the clock of that very cycle, each under its tag, and the marker. */
  lemma MetadataFrame(g: Config, s: Core, i: Input, ins: seq<Input>)
    requires Sized(s) && FitsInput(i) && s.fsm.phase == Idle && i.ready && i.pps
    requires Fits(ins) && Ready(ins) && |ins| == 13 && Undisturbed(ins, AttPps)
    ensures Transferred(g, Step(g, s, i), ins) == MetadataWords(i, s.regs.rateA, s.regs.rateB)
  {
    IdleChooses(g, s, i);
    PpsWordsAre(s.regs, i);
    LatchedList(g, s, i, AttPps);
    ListFrame(g, Step(g, s, i), ins, AttPps);
  }

  lemma LatchedList(g: Config, s: Core, i: Input, phase: Phase)
    requires Sized(s) && FitsInput(i)
    ensures phase == AttPps && i.pps ==> ListOf(Step(g, s, i).regs, phase) == PpsWords(s.regs, i)
    ensures phase == AttSub && i.subtr ==> ListOf(Step(g, s, i).regs, phase) == i.subWords
  {
  }

  /** A sub-trigger seen by an otherwise idle core: a ready sink gets its three words. */
  lemma SubTriggerFrame(g: Config, s: Core, i: Input, ins: seq<Input>)
    requires Sized(s) && FitsInput(i) && s.fsm.phase == Idle && i.ready && !i.pps && !Fires(g, s) && i.subtr
    requires Fits(ins) && Ready(ins) && |ins| == 4 && Undisturbed(ins, AttSub)
    ensures Transferred(g, Step(g, s, i), ins) == i.subWords
  {
    IdleChooses(g, s, i);
    LatchedList(g, s, i, AttSub);
    ListFrame(g, Step(g, s, i), ins, AttSub);
  }
}
