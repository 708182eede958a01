/** Trigger frames as the sink receives them, stalls included. */
module TriggerFrame {
  import opened Arith
  import TC = TriggerChannel
  import opened WordCodec
  import opened TriggerCore

  // ------------------------------------------------------------- definitions

  /** The core as a frame starts: no sample loaded, nothing on offer. */
  predicate Begun(m: Fsm) { m.phase == AttTr && m.wr == 0 && !m.tvalid }

  /** The run has not come to idle before its end. */
  predicate Busy(g: Config, s: Core, ins: seq<Input>)
    requires Sized(s) && Fits(ins)
  {
    |ins| != 0 ==> Busy(g, s, ins[..|ins| - 1]) && Run(g, s, ins[..|ins| - 1]).fsm.phase != Idle
  }

  /** The cycles of one frame up to idle, and the cycle its last word is on offer. */
  predicate Frame(g: Config, s: Core, ins: seq<Input>)
    requires Sized(s) && Fits(ins)
  {
    |ins| != 0 && Busy(g, s, ins[..|ins| - 1]) && Run(g, s, ins[..|ins| - 1]).fsm.phase == Idle
  }

  /** The sink is ready in every cycle that loads a sample. */
  predicate Steady(g: Config, s: Core, ins: seq<Input>)
    requires Sized(s) && Fits(ins)
  {
    |ins| != 0 ==>
      && Steady(g, s, ins[..|ins| - 1])
      && (Run(g, s, ins[..|ins| - 1]).fsm.phase == AttTr ==> ins[|ins| - 1].ready)
  }

  /** ... and in the cycle the counter is on offer. */
  predicate Attended(g: Config, s: Core, ins: seq<Input>)
    requires Sized(s) && Fits(ins) && |ins| > 0
  {
    Steady(g, s, ins[..|ins| - 1]) && ins[|ins| - 1].ready
  }

  /** The status word loaded last. */
  function LoadedStatus(g: Config, s: Core, ins: seq<Input>): (w: nat)
    requires Sized(s) && Fits(ins)
  {
    if |ins| == 0 then s.regs.trStatus
    else
      var p := Run(g, s, ins[..|ins| - 1]);
      if p.fsm.phase == SendStatus && ins[|ins| - 1].ready then p.regs.trStatus
      else LoadedStatus(g, s, ins[..|ins| - 1])
  }

  /** The counter word loaded last. */
  function LoadedCounter(g: Config, s: Core, ins: seq<Input>): (w: nat)
    requires Sized(s) && Fits(ins)
  {
    if |ins| == 0 then s.regs.cntStatus
    else
      var p := Run(g, s, ins[..|ins| - 1]);
      if p.fsm.phase == SendCount && ins[|ins| - 1].ready then p.regs.cntStatus
      else LoadedCounter(g, s, ins[..|ins| - 1])
  }

  /** Sample word `k` of a frame that starts from `s`. */
  function FrameWord(s: Core, k: nat): (w: nat)
    requires Sized(s)
  {
    if k < FRAME then Encode(AdcPair(s.a.shift[k], s.b.shift[k])) else 0
  }

  /** The first `k` sample words of a frame that starts from `s`. */
  function FrameSamples(s: Core, k: nat): (ws: seq<nat>)
    requires Sized(s) && k <= FRAME
    ensures |ws| == k
  {
    seq(k, j requires 0 <= j < k => FrameWord(s, j))
  }

  /** What a frame should be: twenty samples, the status word, the counter word. */
  function WholeFrame(g: Config, s: Core, ins: seq<Input>): (ws: seq<nat>)
    requires Sized(s) && Fits(ins) && |ins| > 0
    ensures |ws| == FRAME + 2
  {
    FrameSamples(s, FRAME)
    + [LoadedStatus(g, s, ins[..|ins| - 1])] + [LoadedCounter(g, s, ins[..|ins| - 1])]
  }

  /** Handed over or on offer. */
  function Offered(g: Config, s: Core, ins: seq<Input>): (ws: seq<nat>)
    requires Sized(s) && Fits(ins)
  {
    Transferred(g, s, ins) + Pending(Run(g, s, ins).fsm)
  }

  // ------------------------------------------------------------ one more cycle

  lemma FrameSamplesAppend(s: Core, k: nat)
    requires Sized(s) && k < FRAME
    ensures FrameSamples(s, k + 1) == FrameSamples(s, k) + [FrameWord(s, k)]
  {
  }

  /** In a busy cycle the core offers a new word if the sink is ready, and the word
      left in its output register if nothing was on offer. */
  lemma OfferedStep(g: Config, s: Core, ins: seq<Input>)
    requires Sized(s) && Fits(ins) && |ins| > 0 && Run(g, s, ins[..|ins| - 1]).fsm.phase != Idle
    ensures var (before, p) := (Offered(g, s, ins[..|ins| - 1]), Run(g, s, ins[..|ins| - 1]));
      && Run(g, s, ins).fsm.tvalid
      && Offered(g, s, ins)
         == if ins[|ins| - 1].ready || !p.fsm.tvalid then before + [Run(g, s, ins).fsm.data] else before
  {
    var (before, i) := (ins[..|ins| - 1], ins[|ins| - 1]);
    BusyStep(g, Run(g, s, before), i);
    OfferEdge(Transferred(g, s, before), Run(g, s, before), Run(g, s, ins).fsm, i);
  }

  lemma BusyStep(g: Config, p: Core, i: Input)
    requires Sized(p) && FitsInput(i) && p.fsm.phase != Idle
    ensures var m := Step(g, p, i).fsm; m.tvalid && (!i.ready ==> m.data == p.fsm.data)
  {
  }

  lemma OfferEdge(got: seq<nat>, p: Core, m: Fsm, i: Input)
    requires m.tvalid && (!i.ready ==> m.data == p.fsm.data)
    ensures got + Handed(p, i) + Pending(m)
         == if i.ready || !p.fsm.tvalid then got + Pending(p.fsm) + [m.data] else got + Pending(p.fsm)
  {
    assert got + [] == got;
  }

  /** The state machine in a busy cycle. */
  lemma StalledStep(g: Config, p: Core, i: Input)
    requires Sized(p) && FitsInput(i) && p.fsm.phase != Idle && !i.ready
    ensures Step(g, p, i).fsm == Fsm(p.fsm.phase, 0, p.fsm.data, true, false)
  {
  }

  lemma SampleStep(g: Config, p: Core, i: Input)
    requires Sized(p) && FitsInput(i) && i.ready && p.fsm.phase == AttTr
    ensures Step(g, p, i).fsm
         == Fsm(if p.fsm.wr == FRAME - 1 then SendStatus else AttTr, p.fsm.wr + 1, AdcWord(p), true, false)
  {
  }

  lemma TrailerStep(g: Config, p: Core, i: Input)
    requires Sized(p) && FitsInput(i) && i.ready
    ensures p.fsm.phase == SendStatus ==> Step(g, p, i).fsm == Fsm(SendCount, 0, p.regs.trStatus, true, false)
    ensures p.fsm.phase == SendCount ==> Step(g, p, i).fsm == Fsm(Idle, 0, p.regs.cntStatus, true, false)
  {
  }

  // ------------------------------------------------------ the shape of a frame

  /** The words offered in the sample state: the samples, or too many. */
  ghost predicate Headed(s: Core, ws: seq<nat>, steady: bool)
    requires Sized(s)
  {
    if steady then ws == FrameSamples(s, FRAME) else |ws| > FRAME
  }

  /** What has been offered `k` cycles into a frame. */
  ghost predicate Shaped(s: Core, m: Fsm, ws: seq<nat>, k: nat, steady: bool, status: nat, counter: nat)
    requires Sized(s)
  {
    match m.phase
    case AttTr =>
      if steady then m.wr == k < FRAME && ws == FrameSamples(s, k) && m.tvalid == (k > 0)
      else m.tvalid && |ws| > m.wr
    case SendStatus => m.tvalid && Headed(s, ws, steady)
    case SendCount => m.tvalid && |ws| > 0 && ws[|ws| - 1] == status && Headed(s, ws[..|ws| - 1], steady)
    case Idle =>
      && m.tvalid && |ws| > 1 && ws[|ws| - 1] == counter == m.data && ws[|ws| - 2] == status
      && Headed(s, ws[..|ws| - 2], steady)
    case _ => false
  }

  /** A sample cycle. */
  lemma SampleShape(g: Config, s: Core, p: Core, i: Input, ws: seq<nat>, k: nat, steady: bool, status: nat, counter: nat)
    requires Sized(s) && Sized(p) && FitsInput(i) && p.fsm.phase == AttTr
    requires Shaped(s, p.fsm, ws, k, steady, status, counter)
    requires steady ==> AdcWord(p) == FrameWord(s, k)
    ensures var m := Step(g, p, i).fsm;
      Shaped(s, m, if i.ready || !p.fsm.tvalid then ws + [m.data] else ws, k + 1, steady && i.ready, status, counter)
  {
    if i.ready {
      SampleStep(g, p, i);
      if steady {
        FrameSamplesAppend(s, k);
      }
    } else {
      StalledStep(g, p, i);
    }
  }

  /** A trailer cycle; stalls do nothing here. */
  lemma TrailerShape(g: Config, s: Core, p: Core, i: Input, ws: seq<nat>, k: nat, steady: bool, status: nat, counter: nat)
    requires Sized(s) && Sized(p) && FitsInput(i) && (p.fsm.phase == SendStatus || p.fsm.phase == SendCount)
    requires Shaped(s, p.fsm, ws, k, steady, status, counter)
    ensures var m := Step(g, p, i).fsm;
      Shaped(s, m, if i.ready then ws + [m.data] else ws, k + 1, steady,
             if i.ready && p.fsm.phase == SendStatus then p.regs.trStatus else status,
             if i.ready && p.fsm.phase == SendCount then p.regs.cntStatus else counter)
  {
    if i.ready {
      TrailerStep(g, p, i);
      var w := Step(g, p, i).fsm.data;
      assert (ws + [w])[..|ws|] == ws;
      if p.fsm.phase == SendCount {
        assert (ws + [w])[..|ws| - 1] == ws[..|ws| - 1];
      }
    } else {
      StalledStep(g, p, i);
    }
  }

  lemma SampleInPlace(g: Config, s: Core, ins: seq<Input>)
    requires Sized(s) && Fits(ins) && |ins| < FRAME
    ensures AdcWord(Run(g, s, ins)) == FrameWord(s, |ins|)
  {
    assert ins[..|ins|] == ins;
    SamplesMove(g, s, ins, |ins|);
  }

  /** What has been offered over a run, as `Shaped` sees it. */
  ghost predicate RunShaped(g: Config, s: Core, ins: seq<Input>)
    requires Sized(s) && Fits(ins)
  {
    Shaped(s, Run(g, s, ins).fsm, Offered(g, s, ins), |ins|, Steady(g, s, ins),
           LoadedStatus(g, s, ins), LoadedCounter(g, s, ins))
  }

  lemma SampleCycle(g: Config, s: Core, ins: seq<Input>, before: seq<Input>)
    requires Sized(s) && Fits(ins) && |ins| > 0 && before == ins[..|ins| - 1]
    requires RunShaped(g, s, before) && Run(g, s, before).fsm.phase == AttTr
    requires Steady(g, s, before) ==> AdcWord(Run(g, s, before)) == FrameWord(s, |before|)
    ensures RunShaped(g, s, ins)
  {
    OfferedStep(g, s, ins);
    SampleShape(g, s, Run(g, s, before), ins[|before|], Offered(g, s, before), |before|, Steady(g, s, before),
                LoadedStatus(g, s, before), LoadedCounter(g, s, before));
  }

  lemma StatusCycle(g: Config, s: Core, ins: seq<Input>, before: seq<Input>)
    requires Sized(s) && Fits(ins) && |ins| > 0 && before == ins[..|ins| - 1]
    requires RunShaped(g, s, before) && Run(g, s, before).fsm.phase == SendStatus
    ensures RunShaped(g, s, ins)
  {
    OfferedStep(g, s, ins);
    TrailerShape(g, s, Run(g, s, before), ins[|before|], Offered(g, s, before), |before|, Steady(g, s, before),
                 LoadedStatus(g, s, before), LoadedCounter(g, s, before));
  }

  lemma CounterCycle(g: Config, s: Core, ins: seq<Input>, before: seq<Input>)
    requires Sized(s) && Fits(ins) && |ins| > 0 && before == ins[..|ins| - 1]
    requires RunShaped(g, s, before) && Run(g, s, before).fsm.phase == SendCount
    ensures RunShaped(g, s, ins)
  {
    OfferedStep(g, s, ins);
    TrailerShape(g, s, Run(g, s, before), ins[|before|], Offered(g, s, before), |before|, Steady(g, s, before),
                 LoadedStatus(g, s, before), LoadedCounter(g, s, before));
  }

  /** Through every cycle of a frame, whatever the sink does. */
  lemma {:induction false} FrameShape(g: Config, s: Core, ins: seq<Input>)
    requires Sized(s) && Fits(ins) && Begun(s.fsm) && Busy(g, s, ins)
    ensures RunShaped(g, s, ins)
  {
    if |ins| == 0 {
      assert Offered(g, s, ins) == FrameSamples(s, 0);
    } else {
      var before := ins[..|ins| - 1];
      FrameShape(g, s, before);
      if Run(g, s, before).fsm.phase == AttTr {
        if Steady(g, s, before) {
          SampleInPlace(g, s, before);
        }
        SampleCycle(g, s, ins, before);
      } else if Run(g, s, before).fsm.phase == SendStatus {
        StatusCycle(g, s, ins, before);
      } else {
        CounterCycle(g, s, ins, before);
      }
    }
  }

  // -------------------------------------------------------------- status and counter

  /** Status words and counter words carry different tags. */
  predicate Tagged(r: Regs) { r.trStatus < COUNT_TAG <= r.cntStatus }

  lemma TagsStep(g: Config, s: Core, i: Input)
    requires Sized(s) && FitsInput(i) && s.regs.trStatus < COUNT_TAG
    ensures Step(g, s, i).regs.trStatus < COUNT_TAG
    ensures Fires(g, s) || Tagged(s.regs) ==> Tagged(Step(g, s, i).regs)
  {
  }

  lemma {:induction false} TagsHold(g: Config, s: Core, ins: seq<Input>)
    requires Sized(s) && Fits(ins) && Tagged(s.regs)
    ensures Tagged(Run(g, s, ins).regs)
    ensures LoadedStatus(g, s, ins) < COUNT_TAG <= LoadedCounter(g, s, ins)
  {
    if |ins| == 0 {
    } else {
      TagsHold(g, s, ins[..|ins| - 1]);
      TagsStep(g, Run(g, s, ins[..|ins| - 1]), ins[|ins| - 1]);
    }
  }

  /** In every run from reset the registers are tagged while a frame goes out. */
  lemma {:induction false} FramesAreTagged(g: Config, ins: seq<Input>)
    requires Fits(ins)
    ensures Run(g, Reset(), ins).regs.trStatus < COUNT_TAG
    ensures InFrame(Run(g, Reset(), ins).fsm.phase) ==> Tagged(Run(g, Reset(), ins).regs)
  {
    if |ins| == 0 {
    } else {
      FramesAreTagged(g, ins[..|ins| - 1]);
      TagsStep(g, Run(g, Reset(), ins[..|ins| - 1]), ins[|ins| - 1]);
    }
  }

  // ------------------------------------------------------------- main theorems

  /** What the sink has when the frame is over: everything offered, less the counter
      if it was not ready for it. */
  lemma FrameHanded(g: Config, s: Core, ins: seq<Input>)
    requires Sized(s) && Fits(ins) && Begun(s.fsm) && Frame(g, s, ins)
    ensures var ws := Offered(g, s, ins[..|ins| - 1]);
      |ws| > 1 && Transferred(g, s, ins) == if ins[|ins| - 1].ready then ws else ws[..|ws| - 1]
  {
    var front := ins[..|ins| - 1];
    FrameShape(g, s, front);
    var (t, w) := (Transferred(g, s, front), Run(g, s, front).fsm.data);
    assert (t + [w])[..|t|] == t && t + [] == t;
  }

  lemma WholeIff(samples: seq<nat>, ws: seq<nat>, status: nat, counter: nat, steady: bool, ready: bool)
    requires |ws| > 1 && ws[|ws| - 1] == counter && ws[|ws| - 2] == status && status != counter
    requires if steady then ws[..|ws| - 2] == samples else |ws| - 2 > |samples|
    ensures (if ready then ws else ws[..|ws| - 1]) == samples + [status] + [counter] <==> steady && ready
  {
    var (got, whole) := (if ready then ws else ws[..|ws| - 1], samples + [status] + [counter]);
    assert whole[|whole| - 1] == counter;
    if steady && ready {
      assert ws == ws[..|ws| - 2] + [ws[|ws| - 2]] + [ws[|ws| - 1]];
    } else if !ready {
      assert got[|got| - 1] == status;
    }
  }

  /** A frame, whatever the sink does: it gets exactly the twenty samples, the status
      word and the counter word if and only if it is ready in the cycles that load a
      sample and in the cycle the counter is on offer. */
  lemma FrameContents(g: Config, s: Core, ins: seq<Input>)
    requires Sized(s) && Fits(ins) && Begun(s.fsm) && Tagged(s.regs) && Frame(g, s, ins)
    ensures Transferred(g, s, ins) == WholeFrame(g, s, ins) <==> Attended(g, s, ins)
  {
    var front := ins[..|ins| - 1];
    FrameShape(g, s, front);
    FrameHanded(g, s, ins);
    TagsHold(g, s, front);
    WholeIff(FrameSamples(s, FRAME), Offered(g, s, front), LoadedStatus(g, s, front), LoadedCounter(g, s, front),
             Steady(g, s, front), ins[|ins| - 1].ready);
  }

  /** A stall among the samples starts their count again: such a frame offers more
      than its twenty-two words. */
  lemma DisturbedFrame(g: Config, s: Core, ins: seq<Input>)
    requires Sized(s) && Fits(ins) && Begun(s.fsm) && Frame(g, s, ins) && !Steady(g, s, ins[..|ins| - 1])
    ensures |Offered(g, s, ins[..|ins| - 1])| > FRAME + 2
  {
    FrameShape(g, s, ins[..|ins| - 1]);
  }

  /** A stall while the counter is on offer drops it. */
  lemma DroppedCounter(g: Config, s: Core, i: Input, stall: Input, back: Input)
    requires Sized(s) && FitsInput(i) && FitsInput(stall) && FitsInput(back)
    requires s.fsm.phase == SendCount && i.ready && !stall.ready
    ensures Transferred(g, Step(g, s, i), [stall, back]) == []
  {
    var (s1, ins) := (Step(g, s, i), [stall, back]);
    TrailerStep(g, s, i);
    TransferredPrefix(g, s1, ins, 0);
    TransferredPrefix(g, s1, ins, 1);
    RunPrefix(g, s1, ins, 0);
    assert ins[..0] == [] && ins[..2] == ins;
  }

  /** A stall in the first cycle of a frame offers the word left in the output
      register, whatever it was, again. */
  lemma StallResendsOldWord(g: Config, s: Core, i: Input, stall: Input, back: Input)
    requires Sized(s) && FitsInput(i) && FitsInput(stall) && FitsInput(back)
    requires s.fsm.phase == Idle && i.ready && !i.pps && Fires(g, s) && !stall.ready && back.ready
    ensures Transferred(g, Step(g, s, i), [stall, back]) == [s.fsm.data]
  {
    var (s1, ins) := (Step(g, s, i), [stall, back]);
    StalledStep(g, s1, stall);
    TransferredPrefix(g, s1, ins, 0);
    TransferredPrefix(g, s1, ins, 1);
    RunPrefix(g, s1, ins, 0);
    assert ins[..0] == [] && ins[..2] == ins;
  }

  /** The state of a frame `k` cycles in when the sink stays ready. */
  predicate OnTime(m: Fsm, k: nat) {
    if k < FRAME then m.phase == AttTr && m.wr == k
    else if k == FRAME then m.phase == SendStatus
    else if k == FRAME + 1 then m.phase == SendCount else m.phase == Idle
  }

  lemma OnTimeStep(g: Config, p: Core, i: Input, k: nat)
    requires Sized(p) && FitsInput(i) && i.ready && k < FRAME + 2 && OnTime(p.fsm, k)
    ensures OnTime(Step(g, p, i).fsm, k + 1)
  {
    if k < FRAME {
      SampleStep(g, p, i);
    } else {
      TrailerStep(g, p, i);
    }
  }

  lemma {:induction false} ReadyRuns(g: Config, s: Core, ins: seq<Input>)
    requires Sized(s) && Fits(ins) && Ready(ins) && |ins| <= FRAME + 2 && Begun(s.fsm)
    ensures Busy(g, s, ins) && Steady(g, s, ins) && OnTime(Run(g, s, ins).fsm, |ins|)
  {
    if |ins| == 0 {
    } else {
      ReadyRuns(g, s, ins[..|ins| - 1]);
      OnTimeStep(g, Run(g, s, ins[..|ins| - 1]), ins[|ins| - 1], |ins| - 1);
    }
  }

  /** To a sink that stays ready a frame takes twenty-three cycles and is whole. */
  lemma ReadyFrame(g: Config, s: Core, ins: seq<Input>)
    requires Sized(s) && Fits(ins) && Ready(ins) && |ins| == FRAME + 3 && Begun(s.fsm) && Tagged(s.regs)
    ensures Frame(g, s, ins) && Transferred(g, s, ins) == WholeFrame(g, s, ins)
  {
    ReadyRuns(g, s, ins[..|ins| - 1]);
    FrameContents(g, s, ins);
  }

  // -------------------------------------------------------- frames as they are read

  /** The decoder gets the samples back: read by the acquisition program, an attended
      frame is twenty sample pairs, oldest first. */
  lemma FrameDecodes(g: Config, s: Core, ins: seq<Input>, k: nat)
    requires Sized(s) && Fits(ins) && Begun(s.fsm) && Tagged(s.regs) && Frame(g, s, ins) && Attended(g, s, ins)
    requires k < FRAME
    ensures |Transferred(g, s, ins)| == FRAME + 2 && Transferred(g, s, ins)[k] < 0x1_0000_0000
    ensures Decode(Transferred(g, s, ins)[k]) == Samples(s.a.shift[k], s.b.shift[k])
  {
    FrameContents(g, s, ins);
    assert WholeFrame(g, s, ins)[k] == FrameSamples(s, FRAME)[k];
    AdcRoundTrip(s.a.shift[k], s.b.shift[k]);
  }

  /** What a sample word shows of one channel. */
  function Shown(r: Reading, side: Side): (v: int)
    requires r.Samples?
  {
    if side == A then r.ch1 else r.ch2
  }

  /** Sample `k` against the trigger level: below it before the crossing, then at or
      above it on the level's side of zero. */
  predicate Crosses(v: int, k: nat, level: int) {
    if k < 8 then v < level else v >= level && (v < 0 <==> level < 0)
  }

  lemma WindowShifted(g: Config, pre: seq<Input>, i: Input, side: Side, k: nat)
    requires Good(g) && Fits(pre) && FitsInput(i) && k <= 8
    requires TC.Tick(ConfigOf(g, side), ChannelOf(Run(g, Reset(), pre), side))
    ensures Crosses(ChannelOf(Step(g, Run(g, Reset(), pre), i), side).shift[k], k, ConfigOf(g, side).level)
  {
    ChannelAlone(g, pre, side);
    WindowShowsCrossing(ConfigOf(g, side), ChannelInputs(g, pre, side));
    OnePlaceOn(g, Run(g, Reset(), pre), i, side);
    assert ChannelOf(Step(g, Run(g, Reset(), pre), i), side).shift[k] == ChannelOf(Run(g, Reset(), pre), side).shift[k + 1];
  }

  /** A frame started from reset begins with nothing on offer and its words tagged. */
  lemma FrameBegins(g: Config, pre: seq<Input>, i: Input)
    requires Fits(pre) && FitsInput(i)
    requires var s := Run(g, Reset(), pre); s.fsm.phase == Idle && i.ready && !i.pps && Fires(g, s)
    ensures var s := Step(g, Run(g, Reset(), pre), i); Begun(s.fsm) && Tagged(s.regs)
  {
    FrameStarts(g, Run(g, Reset(), pre), i);
    FramesAreTagged(g, pre);
    TagsStep(g, Run(g, Reset(), pre), i);
  }

  /** Word `k` of a frame shows its side of the crossing. */
  ghost predicate ShowsCrossing(ws: seq<nat>, k: nat, side: Side, level: int) {
    && k < |ws| && ws[k] < 0x1_0000_0000 && Decode(ws[k]).Samples?
    && Crosses(Shown(Decode(ws[k]), side), k, level)
  }

  lemma FrameShowsFrom(g: Config, s: Core, ins: seq<Input>, side: Side, k: nat, level: int)
    requires Sized(s) && Fits(ins) && Begun(s.fsm) && Tagged(s.regs) && Frame(g, s, ins) && Attended(g, s, ins)
    requires k <= 8
    requires Crosses(ChannelOf(s, side).shift[k], k, level)
    ensures ShowsCrossing(Transferred(g, s, ins), k, side, level)
  {
    FrameDecodes(g, s, ins, k);
  }

  /** In every run, the words the program reads of a frame fired by a channel show its
      crossing: words 0 to 7 are below the level and word 8 is at or above it, on the
      level's side of zero. */
  lemma FrameShowsCrossing(g: Config, pre: seq<Input>, i: Input, ins: seq<Input>, side: Side, k: nat)
    requires Good(g) && Fits(pre) && FitsInput(i) && Fits(ins) && k <= 8
    requires var s := Run(g, Reset(), pre);
      s.fsm.phase == Idle && i.ready && !i.pps && TC.Tick(ConfigOf(g, side), ChannelOf(s, side))
    requires var s := Step(g, Run(g, Reset(), pre), i); Frame(g, s, ins) && Attended(g, s, ins)
    ensures ShowsCrossing(Transferred(g, Step(g, Run(g, Reset(), pre), i), ins), k, side, ConfigOf(g, side).level)
  {
    FrameBegins(g, pre, i);
    WindowShifted(g, pre, i, side, k);
    FrameShowsFrom(g, Step(g, Run(g, Reset(), pre), i), ins, side, k, ConfigOf(g, side).level);
  }

  // --------------------------------------------------------- whose counter it is

  /** How many cycles of a run fire. */
  function FiredIn(g: Config, s: Core, ins: seq<Input>): (n: nat)
    requires Sized(s) && Fits(ins)
  {
    if |ins| == 0 then 0
    else FiredIn(g, s, ins[..|ins| - 1]) + if Fires(g, Run(g, s, ins[..|ins| - 1])) then 1 else 0
  }

  /** The latest pulse has number `c`. */
  predicate Latest(r: Regs, c: nat) { r.trigCnt == Next(c, PULSES) && r.cntStatus == COUNT_TAG + c && c < PULSES }

  /** The number of the `n`-th pulse after pulse `c`, round a counter of `m`. */
  function After(c: nat, n: nat, m: nat): (d: nat) { if n == 0 then c else Next(After(c, n - 1, m), m) }

  lemma LatestStep(g: Config, s: Core, i: Input, c: nat)
    requires Sized(s) && FitsInput(i) && Latest(s.regs, c)
    ensures Latest(Step(g, s, i).regs, if Fires(g, s) then Next(c, PULSES) else c)
  {
    DivModUnique(s.regs.trigCnt + 1, PULSES, if s.regs.trigCnt + 1 == PULSES then 1 else 0, Next(s.regs.trigCnt, PULSES));
  }

  lemma {:induction false} LatestRuns(g: Config, s: Core, ins: seq<Input>, c: nat)
    requires Sized(s) && Fits(ins) && Latest(s.regs, c)
    ensures Latest(Run(g, s, ins).regs, After(c, FiredIn(g, s, ins), PULSES))
  {
    if |ins| == 0 {
    } else {
      LatestRuns(g, s, ins[..|ins| - 1], c);
      LatestStep(g, Run(g, s, ins[..|ins| - 1]), ins[|ins| - 1], After(c, FiredIn(g, s, ins[..|ins| - 1]), PULSES));
    }
  }

  /** A frame's counter was loaded in its last busy cycle. */
  lemma CounterLoadedLast(g: Config, s: Core, ins: seq<Input>)
    requires Sized(s) && Fits(ins) && |ins| > 0 && Busy(g, s, ins) && Run(g, s, ins).fsm.phase == Idle
    requires Begun(s.fsm)
    ensures LoadedCounter(g, s, ins) == Run(g, s, ins[..|ins| - 1]).regs.cntStatus
  {
    FrameShape(g, s, ins[..|ins| - 1]);
  }

  lemma {:induction false} AfterIsMod(c: nat, n: nat, m: nat)
    requires m > 0 && c < m
    ensures After(c, n, m) == (c + n) % m
  {
    if n == 0 {
      DivModUnique(c, m, 0, c);
    } else {
      AfterIsMod(c, n - 1, m);
      ModSuccessor(c + n - 1, m);
    }
  }

  lemma SameRemainder(c: nat, n: nat, m: nat)
    requires m > 0 && c < m
    ensures (c + n) % m == c <==> n % m == 0
  {
    var r := n % m;
    ModAbsorbs(n, c, m);
    if c + r < m {
      DivModUnique(c + r, m, 0, c + r);
    } else {
      DivModUnique(c + r, m, 1, c + r - m);
    }
  }

  /** Pulse numbers repeat exactly after whole turns of the counter. */
  lemma AfterRepeats(c: nat, n: nat, m: nat)
    requires m > 0 && c < m
    ensures After(c, n, m) == c <==> n % m == 0
  {
    AfterIsMod(c, n, m);
    SameRemainder(c, n, m);
  }

  lemma PulseIsLatest(g: Config, s: Core, i: Input)
    requires Sized(s) && FitsInput(i) && Fires(g, s)
    ensures Latest(Step(g, s, i).regs, s.regs.trigCnt)
  {
    DivModUnique(s.regs.trigCnt + 1, PULSES, if s.regs.trigCnt + 1 == PULSES then 1 else 0, Next(s.regs.trigCnt, PULSES));
  }

  /** The counter word of a frame is that of the pulse that started it if and only if
      no tick falls before it is loaded, counting round the 30-bit counter. */
  lemma CounterOfFrame(g: Config, s: Core, i: Input, ins: seq<Input>)
    requires Sized(s) && FitsInput(i) && s.fsm.phase == Idle && i.ready && !i.pps && Fires(g, s)
    requires Fits(ins) && |ins| > 1 && Frame(g, Step(g, s, i), ins)
    ensures LoadedCounter(g, Step(g, s, i), ins[..|ins| - 1]) == Encode(PulseCount(s.regs.trigCnt))
       <==> FiredIn(g, Step(g, s, i), ins[..|ins| - 2]) % PULSES == 0
  {
    FrameStarts(g, s, i);
    PulseIsLatest(g, s, i);
    CounterOfBegun(g, Step(g, s, i), ins, s.regs.trigCnt);
  }

  lemma CounterOfBegun(g: Config, s: Core, ins: seq<Input>, c: nat)
    requires Sized(s) && Fits(ins) && Begun(s.fsm) && |ins| > 1 && Frame(g, s, ins)
    requires Latest(s.regs, c)
    ensures LoadedCounter(g, s, ins[..|ins| - 1]) == COUNT_TAG + c <==> FiredIn(g, s, ins[..|ins| - 2]) % PULSES == 0
  {
    var front := ins[..|ins| - 1];
    CounterLoadedLast(g, s, front);
    assert front[..|front| - 1] == ins[..|ins| - 2];
    LatestRuns(g, s, ins[..|ins| - 2], c);
    AfterRepeats(c, FiredIn(g, s, ins[..|ins| - 2]), PULSES);
  }

  /** The status word is that of the starting pulse as long as no tick falls before it
      is loaded; a later tick may or may not repeat it. */
  lemma StatusOfFrame(g: Config, s: Core, i: Input, ins: seq<Input>)
    requires Sized(s) && FitsInput(i) && s.fsm.phase == Idle && i.ready && !i.pps && Fires(g, s)
    requires Fits(ins) && FiredIn(g, Step(g, s, i), ins) == 0
    ensures LoadedStatus(g, Step(g, s, i), ins) == Encode(TriggerStatus(s.b.fired, s.a.fired, i.clock))
  {
    StatusKept(g, Step(g, s, i), ins);
  }

  lemma {:induction false} StatusKept(g: Config, s: Core, ins: seq<Input>)
    requires Sized(s) && Fits(ins) && FiredIn(g, s, ins) == 0
    ensures Run(g, s, ins).regs.trStatus == s.regs.trStatus
    ensures LoadedStatus(g, s, ins) == s.regs.trStatus
  {
    if |ins| == 0 {
    } else {
      StatusKept(g, s, ins[..|ins| - 1]);
    }
  }
}
