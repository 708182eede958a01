/** From the trigger core to the acquisition program: the counters the program reads
    out of the stream, over whole runs and whatever the sink does. */
module CounterDelivery {
  import opened TriggerCore
  import opened TriggerFrame
  import opened WordCodec

  /** A word the program does not take for a counter. */
  predicate Plain(w: nat) { w < 0x1_0000_0000 && w / 0x4000_0000 != 2 }

  /** A word it does take for one. */
  predicate IsCounter(w: nat) { COUNT_TAG <= w < COUNT_TAG + PULSES }

  lemma PlainIsNoCounter(w: nat)
    requires Plain(w)
    ensures !Decode(w).CounterSeen?
  {
  }

  lemma CounterIsRead(w: nat)
    requires IsCounter(w)
    ensures w < 0x1_0000_0000 && Decode(w) == CounterSeen(w - COUNT_TAG)
  {
    DecodeInvertsEncode(PulseCount(w - COUNT_TAG));
  }

  lemma EncodePlain(m: Message)
    requires Representable(m) && !m.PulseCount?
    ensures Plain(Encode(m))
  {
    if m.Meta? {
      MetaFields(Tags(m.kind).0, Tags(m.kind).1, m.value);
    }
  }

  /** Sub-trigger words carry the tags of samples and triggers. */
  ghost predicate SubTagged(i: Input) { |i.subWords| == 3 && forall j :: 0 <= j < 3 ==> i.subWords[j] < 0x8000_0000 }

  ghost predicate AllSubTagged(ins: seq<Input>) { forall k :: 0 <= k < |ins| ==> SubTagged(ins[k]) }

  ghost predicate AllPlain(ws: seq<nat>) { forall k :: 0 <= k < |ws| ==> Plain(ws[k]) }

  ghost predicate PlainRegs(r: Regs) { Plain(r.trStatus) && AllPlain(r.ppsWords) && AllPlain(r.subWords) }

  lemma PpsWordsPlain(r: Regs, i: Input)
    requires r.rateA < 0x100_0000 && r.rateB < 0x100_0000 && FitsInput(i)
    ensures AllPlain(PpsWords(r, i))
  {
    forall k | 0 <= k < 12 ensures Plain(PpsWords(r, i)[k]) {
      EncodePlain(PpsMessage(r, i, k));
    }
  }

  lemma RegsStayPlain(g: Config, s: Core, i: Input)
    requires Sized(s) && FitsInput(i) && SubTagged(i) && PlainRegs(s.regs)
    ensures PlainRegs(Step(g, s, i).regs)
  {
    EncodePlain(TriggerStatus(s.b.fired, s.a.fired, i.clock));
    PpsWordsPlain(s.regs, i);
  }

  // -------------------------------------------------- counters among the words

  /** The counter a word brings, if it is one. */
  function CounterOf(w: nat): (cs: seq<nat>) { if IsCounter(w) then [w - COUNT_TAG] else [] }

  lemma CountersInSnoc(ws: seq<nat>, w: nat)
    requires Words(ws) && (IsCounter(w) || Plain(w))
    ensures Words(ws + [w]) && CountersIn(ws + [w]) == CountersIn(ws) + CounterOf(w)
  {
    assert (ws + [w])[..|ws|] == ws;
    if IsCounter(w) {
      CounterIsRead(w);
    } else {
      PlainIsNoCounter(w);
      assert CountersIn(ws) + [] == CountersIn(ws);
    }
  }

  lemma CountersSnoc(ws: seq<nat>, w: nat)
    requires GoodCounters(ws + [w])
    ensures GoodCounters(ws) && Counters(ws + [w]) == Counters(ws) + [w - COUNT_TAG]
  {
    assert forall k :: 0 <= k < |ws| ==> ws[k] == (ws + [w])[k];
  }

  // ------------------------------------------------------- the output register

  /** The output register: a plain word, or the counter put out last. */
  ghost predicate DataFits(data: nat, sent: seq<nat>) {
    Plain(data) || (IsCounter(data) && |sent| > 0 && sent[|sent| - 1] == data)
  }

  /** A ready busy cycle loads a counter exactly in the counter state. */
  lemma LoadedWord(g: Config, s: Core, i: Input)
    requires Sized(s) && FitsInput(i) && i.ready && PlainRegs(s.regs) && s.fsm.phase != Idle
    ensures s.fsm.phase == SendCount ==> Step(g, s, i).fsm.data == s.regs.cntStatus
    ensures s.fsm.phase != SendCount ==> Plain(Step(g, s, i).fsm.data)
  {
    EncodePlain(AdcPair(s.a.shift[0], s.b.shift[0]));
  }

  /** Otherwise the register keeps its word. */
  lemma KeptWord(g: Config, s: Core, i: Input)
    requires Sized(s) && FitsInput(i) && (!i.ready || s.fsm.phase == Idle)
    ensures Step(g, s, i).fsm.data == s.fsm.data
    ensures Step(g, s, i).fsm.tvalid == (s.fsm.phase != Idle)
    ensures !i.ready ==> Step(g, s, i).fsm.phase == s.fsm.phase
  {
  }

  lemma DataStep(g: Config, s: Core, i: Input, sent: seq<nat>)
    requires Sized(s) && FitsInput(i) && PlainRegs(s.regs) && DataFits(s.fsm.data, sent)
    requires s.fsm.phase == SendCount ==> IsCounter(s.regs.cntStatus)
    ensures DataFits(Step(g, s, i).fsm.data,
                     sent + if s.fsm.phase == SendCount && i.ready then [s.regs.cntStatus] else [])
  {
    if i.ready && s.fsm.phase != Idle {
      LoadedWord(g, s, i);
    } else {
      KeptWord(g, s, i);
    }
    assert sent + [] == sent;
  }

  lemma CounterStateLoads(s: Core, pulses: nat, last: int)
    requires CounterInv(s, pulses, last) && pulses < PULSES && s.fsm.phase == SendCount
    ensures IsCounter(s.regs.cntStatus)
  {
  }

  /** What holds of every run, whatever the sink does. */
  lemma {:induction false} RunData(g: Config, ins: seq<Input>)
    requires Fits(ins) && AllSubTagged(ins) && Pulsed(g, ins) < PULSES
    ensures PlainRegs(Run(g, Reset(), ins).regs) && GoodCounters(CounterWords(g, ins))
    ensures DataFits(Run(g, Reset(), ins).fsm.data, CounterWords(g, ins))
  {
    RunCounters(g, ins);
    if |ins| == 0 {
    } else {
      var (before, i) := (ins[..|ins| - 1], ins[|ins| - 1]);
      RunData(g, before);
      RunCounters(g, before);
      var s := Run(g, Reset(), before);
      RegsStayPlain(g, s, i);
      if s.fsm.phase == SendCount {
        CounterStateLoads(s, Pulsed(g, before), LastOf(CounterWords(g, before)));
      }
      DataStep(g, s, i, CounterWords(g, before));
    }
  }

  /** The counter on offer, if any. */
  function OnOffer(m: Fsm): (cs: seq<nat>) { if m.tvalid then CounterOf(m.data) else [] }

  /** What the sink has been handed, and is offered, over a run from reset. */
  function Got(g: Config, ins: seq<Input>): (ws: seq<nat>)
    requires Fits(ins)
  {
    Transferred(g, Reset(), ins)
  }

  function All(g: Config, ins: seq<Input>): (ws: seq<nat>)
    requires Fits(ins)
  {
    Got(g, ins) + Pending(Run(g, Reset(), ins).fsm)
  }

  lemma {:induction false} GotWords(g: Config, ins: seq<Input>)
    requires Fits(ins) && AllSubTagged(ins) && Pulsed(g, ins) < PULSES
    ensures Words(Got(g, ins))
    ensures Words(All(g, ins))
    ensures CountersIn(All(g, ins)) == CountersIn(Got(g, ins)) + OnOffer(Run(g, Reset(), ins).fsm)
  {
    RunData(g, ins);
    if |ins| == 0 {
    } else {
      GotWords(g, ins[..|ins| - 1]);
      GotGrows(g, ins);
    }
    OfferCounts(Got(g, ins), Run(g, Reset(), ins).fsm, CounterWords(g, ins));
  }

  lemma OfferCounts(ws: seq<nat>, m: Fsm, sent: seq<nat>)
    requires Words(ws) && DataFits(m.data, sent)
    ensures Words(ws + Pending(m))
    ensures CountersIn(ws + Pending(m)) == CountersIn(ws) + OnOffer(m)
  {
    if m.tvalid {
      CountersInSnoc(ws, m.data);
    } else {
      assert ws + [] == ws && CountersIn(ws) + [] == CountersIn(ws);
    }
  }

  /** A ready sink takes what is on offer; a stalling one takes nothing. */
  lemma GotGrows(g: Config, ins: seq<Input>)
    requires Fits(ins) && |ins| > 0
    ensures Got(g, ins) == if ins[|ins| - 1].ready then All(g, ins[..|ins| - 1]) else Got(g, ins[..|ins| - 1])
  {
    assert Got(g, ins[..|ins| - 1]) + [] == Got(g, ins[..|ins| - 1]);
  }

  // ----------------------------------------------- when the counters keep in step

  /** A stall that harms counters: on one on offer while idle, which is dropped, or in
      the first cycle of a frame with one left over, which is offered again. */
  predicate BadStall(m: Fsm, i: Input) {
    !i.ready && IsCounter(m.data) && if m.phase == Idle then m.tvalid else !m.tvalid
  }

  /** No such stall in a whole run. */
  predicate Attentive(g: Config, ins: seq<Input>)
    requires Fits(ins)
  {
    |ins| != 0 ==>
      Attentive(g, ins[..|ins| - 1]) && !BadStall(Run(g, Reset(), ins[..|ins| - 1]).fsm, ins[|ins| - 1])
  }

  /** The counters handed over or on offer are those put out. */
  ghost predicate InStep(g: Config, ins: seq<Input>)
    requires Fits(ins)
  {
    GoodCounters(CounterWords(g, ins)) && Words(All(g, ins)) && CountersIn(All(g, ins)) == Counters(CounterWords(g, ins))
  }

  /** How the state machine's output moves on one edge. */
  predicate Moves(m: Fsm, m': Fsm, ready: bool) {
    && m'.tvalid == (m.phase != Idle)
    && (!ready ==> m'.phase == m.phase && m'.data == m.data)
    && (m.phase == Idle ==> m'.data == m.data)
    && (ready && m.phase != Idle ==> if m.phase == SendCount then IsCounter(m'.data) else !IsCounter(m'.data))
  }

  lemma BusyOffers(g: Config, s: Core, i: Input)
    requires Sized(s) && FitsInput(i) && s.fsm.phase != Idle
    ensures Step(g, s, i).fsm.tvalid
  {
  }

  lemma EdgeMoves(g: Config, s: Core, i: Input)
    requires Sized(s) && FitsInput(i) && PlainRegs(s.regs)
    requires s.fsm.phase == SendCount ==> IsCounter(s.regs.cntStatus)
    ensures Moves(s.fsm, Step(g, s, i).fsm, i.ready)
  {
    if i.ready && s.fsm.phase != Idle {
      LoadedWord(g, s, i);
      BusyOffers(g, s, i);
    } else {
      KeptWord(g, s, i);
    }
  }

  lemma RunMoves(g: Config, ins: seq<Input>, before: seq<Input>)
    requires Fits(ins) && AllSubTagged(ins) && Pulsed(g, ins) < PULSES && |ins| > 0 && before == ins[..|ins| - 1]
    ensures Moves(Run(g, Reset(), before).fsm, Run(g, Reset(), ins).fsm, ins[|before|].ready)
    ensures CounterWords(g, ins) == CounterWords(g, before)
              + if Run(g, Reset(), before).fsm.phase == SendCount && ins[|before|].ready
                then [Run(g, Reset(), ins).fsm.data] else []
  {
    RunData(g, before);
    RunCounters(g, before);
    var s := Run(g, Reset(), before);
    if s.fsm.phase == SendCount {
      CounterStateLoads(s, Pulsed(g, before), LastOf(CounterWords(g, before)));
      if ins[|before|].ready {
        LoadedWord(g, s, ins[|before|]);
      }
    }
    EdgeMoves(g, s, ins[|before|]);
  }

  /** Counters handed over after an edge, and with those on offer. */
  lemma RunCounts(g: Config, ins: seq<Input>, before: seq<Input>)
    requires Fits(ins) && AllSubTagged(ins) && Pulsed(g, ins) < PULSES && |ins| > 0 && before == ins[..|ins| - 1]
    ensures Words(Got(g, before)) && Words(Got(g, ins)) && Words(All(g, before)) && Words(All(g, ins))
    ensures CountersIn(All(g, before)) == CountersIn(Got(g, before)) + OnOffer(Run(g, Reset(), before).fsm)
    ensures CountersIn(Got(g, ins)) == if ins[|before|].ready then CountersIn(All(g, before)) else CountersIn(Got(g, before))
    ensures CountersIn(All(g, ins)) == CountersIn(Got(g, ins)) + OnOffer(Run(g, Reset(), ins).fsm)
  {
    GotWords(g, before);
    GotWords(g, ins);
    GotCounts(g, ins, before);
  }

  lemma GotCounts(g: Config, ins: seq<Input>, before: seq<Input>)
    requires Fits(ins) && |ins| > 0 && before == ins[..|ins| - 1] && Words(All(g, before)) && Words(Got(g, before))
    ensures Words(Got(g, ins))
    ensures CountersIn(Got(g, ins)) == if ins[|before|].ready then CountersIn(All(g, before)) else CountersIn(Got(g, before))
  {
    GotGrows(g, ins);
  }

  /** One edge on the counters alone: `got` handed over before it. */
  function AfterEdge(got: seq<nat>, m: Fsm, m': Fsm, ready: bool): (cs: seq<nat>) {
    (if ready then got + OnOffer(m) else got) + OnOffer(m')
  }

  /** An edge without a bad stall adds the counter loaded, if any. */
  lemma GoodEdge(got: seq<nat>, m: Fsm, m': Fsm, i: Input)
    requires Moves(m, m', i.ready) && !BadStall(m, i)
    ensures AfterEdge(got, m, m', i.ready)
         == got + OnOffer(m) + if m.phase == SendCount && i.ready then CounterOf(m'.data) else []
  {
    assert got + [] == got && got + OnOffer(m) + [] == got + OnOffer(m);
  }

  /** A bad stall loses a counter or repeats one. */
  lemma BadEdge(got: seq<nat>, m: Fsm, m': Fsm, i: Input)
    requires Moves(m, m', i.ready) && BadStall(m, i)
    ensures |AfterEdge(got, m, m', i.ready)| != |got + OnOffer(m)|
  {
  }

  /** `CountersIn(All(...))` after an edge, from what came before it. */
  lemma RunEdge(g: Config, ins: seq<Input>, before: seq<Input>)
    requires Fits(ins) && AllSubTagged(ins) && Pulsed(g, ins) < PULSES && |ins| > 0 && before == ins[..|ins| - 1]
    ensures Words(Got(g, before)) && Words(All(g, before)) && Words(All(g, ins))
    ensures var (m, got) := (Run(g, Reset(), before).fsm, CountersIn(Got(g, before)));
      && CountersIn(All(g, before)) == got + OnOffer(m)
      && CountersIn(All(g, ins)) == AfterEdge(got, m, Run(g, Reset(), ins).fsm, ins[|before|].ready)
  {
    RunCounts(g, ins, before);
  }

  lemma StepOfSent(got: seq<nat>, m: Fsm, m': Fsm, i: Input, sent: seq<nat>, sent': seq<nat>)
    requires Moves(m, m', i.ready) && GoodCounters(sent')
    requires sent' == sent + if m.phase == SendCount && i.ready then [m'.data] else []
    requires GoodCounters(sent) && got + OnOffer(m) == Counters(sent)
    ensures AfterEdge(got, m, m', i.ready) == Counters(sent') <==> !BadStall(m, i)
  {
    if BadStall(m, i) {
      BadEdge(got, m, m', i);
      assert sent' == sent;
    } else {
      GoodEdge(got, m, m', i);
      SentEdge(sent, sent', m'.data, m.phase == SendCount && i.ready);
    }
  }

  lemma RunSent(g: Config, ins: seq<Input>, before: seq<Input>)
    requires Fits(ins) && AllSubTagged(ins) && Pulsed(g, ins) < PULSES && |ins| > 0 && before == ins[..|ins| - 1]
    ensures Moves(Run(g, Reset(), before).fsm, Run(g, Reset(), ins).fsm, ins[|before|].ready)
    ensures GoodCounters(CounterWords(g, before)) && GoodCounters(CounterWords(g, ins))
    ensures CounterWords(g, ins) == CounterWords(g, before)
              + if Run(g, Reset(), before).fsm.phase == SendCount && ins[|before|].ready
                then [Run(g, Reset(), ins).fsm.data] else []
  {
    RunData(g, before);
    RunData(g, ins);
    RunMoves(g, ins, before);
  }

  /** How one edge moves the counters handed over, on offer and put out. */
  ghost predicate EdgeFacts(got: seq<nat>, all: seq<nat>, all': seq<nat>, m: Fsm, m': Fsm, i: Input,
                            sent: seq<nat>, sent': seq<nat>) {
    && Moves(m, m', i.ready) && GoodCounters(sent) && GoodCounters(sent')
    && sent' == sent + (if m.phase == SendCount && i.ready then [m'.data] else [])
    && all == got + OnOffer(m) && all' == AfterEdge(got, m, m', i.ready)
  }

  lemma RunFacts(g: Config, ins: seq<Input>, before: seq<Input>)
    requires Fits(ins) && AllSubTagged(ins) && Pulsed(g, ins) < PULSES && |ins| > 0 && before == ins[..|ins| - 1]
    ensures Words(Got(g, before)) && Words(All(g, before)) && Words(All(g, ins))
    ensures EdgeFacts(CountersIn(Got(g, before)), CountersIn(All(g, before)), CountersIn(All(g, ins)),
                      Run(g, Reset(), before).fsm, Run(g, Reset(), ins).fsm, ins[|before|],
                      CounterWords(g, before), CounterWords(g, ins))
  {
    RunSent(g, ins, before);
    RunEdge(g, ins, before);
  }

  lemma FactsInStep(got: seq<nat>, all: seq<nat>, all': seq<nat>, m: Fsm, m': Fsm, i: Input,
                    sent: seq<nat>, sent': seq<nat>)
    requires EdgeFacts(got, all, all', m, m', i, sent, sent') && all == Counters(sent)
    ensures all' == Counters(sent') <==> !BadStall(m, i)
  {
    StepOfSent(got, m, m', i, sent, sent');
  }

  lemma InStepEdge(g: Config, ins: seq<Input>, before: seq<Input>)
    requires Fits(ins) && AllSubTagged(ins) && Pulsed(g, ins) < PULSES && |ins| > 0 && before == ins[..|ins| - 1]
    requires InStep(g, before)
    ensures InStep(g, ins) <==> !BadStall(Run(g, Reset(), before).fsm, ins[|before|])
  {
    RunFacts(g, ins, before);
    FactsInStep(CountersIn(Got(g, before)), CountersIn(All(g, before)), CountersIn(All(g, ins)),
                Run(g, Reset(), before).fsm, Run(g, Reset(), ins).fsm, ins[|before|],
                CounterWords(g, before), CounterWords(g, ins));
  }

  lemma SentEdge(sent: seq<nat>, sent': seq<nat>, w: nat, sends: bool)
    requires GoodCounters(sent') && sent' == sent + if sends then [w] else []
    ensures GoodCounters(sent) && Counters(sent') == Counters(sent) + if sends then CounterOf(w) else []
  {
    if sends {
      CountersSnoc(sent, w);
      assert sent'[|sent|] == w;
    } else {
      assert sent' == sent && Counters(sent) + [] == Counters(sent);
    }
  }

  /** `InStep` at every point of a run. */
  ghost predicate AlwaysInStep(g: Config, ins: seq<Input>)
    requires Fits(ins)
  {
    InStep(g, ins) && (|ins| != 0 ==> AlwaysInStep(g, ins[..|ins| - 1]))
  }

  lemma StartsInStep(g: Config)
    ensures InStep(g, [])
  {
    assert All(g, []) == [];
  }

  /** Whatever the sink does otherwise: at every point of a run the counters the
      program has read or is offered are those put out, in order, if and only if no
      stall falls on a counter on offer while idle, or on the first cycle of a frame
      with a counter left over. */
  lemma {:induction false} CountersArrive(g: Config, ins: seq<Input>)
    requires Fits(ins) && AllSubTagged(ins) && Pulsed(g, ins) < PULSES
    ensures AlwaysInStep(g, ins) <==> Attentive(g, ins)
  {
    if |ins| == 0 {
      StartsInStep(g);
      assert ins == [];
    } else {
      var before := ins[..|ins| - 1];
      CountersArrive(g, before);
      if InStep(g, before) {
        InStepEdge(g, ins, before);
      }
    }
  }

  // ------------------------------------------------------ when they keep increasing

  /** A stall that repeats: the first cycle of a frame with a counter left over that
      the sink already has. */
  ghost predicate Repeats(got: seq<nat>, m: Fsm, i: Input) {
    !i.ready && m.phase != Idle && !m.tvalid && IsCounter(m.data) && m.data - COUNT_TAG in got
  }

  /** No such stall in a whole run.  Counters may be dropped. */
  ghost predicate NeverRepeats(g: Config, ins: seq<Input>)
    requires Fits(ins)
  {
    |ins| != 0 ==>
      var before := ins[..|ins| - 1];
      && NeverRepeats(g, before)
      && (Words(Got(g, before)) ==> !Repeats(CountersIn(Got(g, before)), Run(g, Reset(), before).fsm, ins[|ins| - 1]))
  }

  /** Nothing handed over is beyond the counter put out last, and a counter on offer
      is new. */
  ghost predicate Fresh(got: seq<nat>, m: Fsm, last: int) {
    && StrictlyIncreasing(got) && (forall k :: 0 <= k < |got| ==> got[k] <= last)
    && (IsCounter(m.data) ==> m.data - COUNT_TAG == last)
    && (m.tvalid && IsCounter(m.data) ==> m.data - COUNT_TAG !in got)
  }

  /** The sink has a counter twice, or is about to. */
  ghost predicate Stale(got: seq<nat>, m: Fsm) {
    || !StrictlyIncreasing(got)
    || (m.phase != Idle && m.tvalid && IsCounter(m.data) && m.data - COUNT_TAG in got)
  }

  lemma {:induction false} IncreasingAll(s: seq<nat>, i: nat, j: nat)
    requires StrictlyIncreasing(s) && i < j < |s|
    ensures s[i] < s[j]
    decreases j
  {
    if j == i + 1 {
    } else {
      IncreasingAll(s, i, j - 1);
    }
  }

  lemma IncreasingSnoc(s: seq<nat>, x: nat)
    ensures StrictlyIncreasing(s + [x]) ==> StrictlyIncreasing(s) && x !in s
    ensures StrictlyIncreasing(s) && (forall k :: 0 <= k < |s| ==> s[k] < x) ==> StrictlyIncreasing(s + [x])
  {
    var t := s + [x];
    if StrictlyIncreasing(t) {
      forall k | 0 < k < |s| ensures s[k - 1] < s[k] {
        assert t[k - 1] < t[k];
      }
      forall k | 0 <= k < |s| ensures s[k] < x {
        IncreasingAll(t, k, |s|);
      }
    }
  }

  /** The counters handed over after an edge. */
  function HandedAfter(got: seq<nat>, m: Fsm, ready: bool): (cs: seq<nat>) { if ready then got + OnOffer(m) else got }

  lemma FreshOffer(got: seq<nat>, m: Fsm, last: int)
    requires Fresh(got, m, last)
    ensures StrictlyIncreasing(got + OnOffer(m)) && forall k :: 0 <= k < |got + OnOffer(m)| ==> (got + OnOffer(m))[k] <= last
  {
    if m.tvalid && IsCounter(m.data) {
      forall k | 0 <= k < |got| ensures got[k] < m.data - COUNT_TAG {
        assert got[k] in got;
      }
      IncreasingSnoc(got, m.data - COUNT_TAG);
    } else {
      assert got + [] == got;
    }
  }

  lemma FreshEdge(got: seq<nat>, m: Fsm, m': Fsm, i: Input, last: int, last': int)
    requires Fresh(got, m, last) && Moves(m, m', i.ready) && !Repeats(got, m, i)
    requires if m.phase == SendCount && i.ready then m'.data - COUNT_TAG == last' > last else last' == last
    ensures Fresh(HandedAfter(got, m, i.ready), m', last')
  {
    FreshOffer(got, m, last);
  }

  lemma StaleOffer(got: seq<nat>, m: Fsm)
    requires Stale(got, m)
    ensures !StrictlyIncreasing(got + OnOffer(m))
  {
    if m.tvalid && IsCounter(m.data) {
      IncreasingSnoc(got, m.data - COUNT_TAG);
    } else {
      assert got + [] == got;
    }
  }

  lemma StaleEdge(got: seq<nat>, m: Fsm, m': Fsm, i: Input)
    requires Moves(m, m', i.ready) && (Stale(got, m) || Repeats(got, m, i))
    ensures Stale(HandedAfter(got, m, i.ready), m')
  {
    if i.ready {
      StaleOffer(got, m);
    }
  }

  lemma LastEdge(sent: seq<nat>, sent': seq<nat>, w: nat, sends: bool)
    requires GoodCounters(sent') && sent' == sent + if sends then [w] else []
    ensures LastOf(sent') == if sends then w - COUNT_TAG else LastOf(sent)
    ensures sends ==> w - COUNT_TAG > LastOf(sent)
  {
    if sends {
      assert sent'[|sent|] == w;
      assert |sent| > 0 ==> sent'[|sent| - 1] == sent[|sent| - 1];
    } else {
      assert sent' == sent;
    }
  }

  /** What one edge makes of the counters handed over. */
  ghost predicate EdgeKeeps(got: seq<nat>, m: Fsm, m': Fsm, i: Input, last: int, last': int) {
    var got' := HandedAfter(got, m, i.ready);
    if Stale(got, m) || Repeats(got, m, i) then Stale(got', m') else Fresh(got, m, last) ==> Fresh(got', m', last')
  }

  lemma EdgeFreshness(got: seq<nat>, m: Fsm, m': Fsm, i: Input, sent: seq<nat>, sent': seq<nat>)
    requires Moves(m, m', i.ready) && GoodCounters(sent')
    requires sent' == sent + if m.phase == SendCount && i.ready then [m'.data] else []
    ensures EdgeKeeps(got, m, m', i, LastOf(sent), LastOf(sent'))
  {
    LastEdge(sent, sent', m'.data, m.phase == SendCount && i.ready);
    if Stale(got, m) || Repeats(got, m, i) {
      StaleEdge(got, m, m', i);
    } else if Fresh(got, m, LastOf(sent)) {
      FreshEdge(got, m, m', i, LastOf(sent), LastOf(sent'));
    }
  }

  lemma FreshnessEdge(g: Config, ins: seq<Input>, before: seq<Input>)
    requires Fits(ins) && AllSubTagged(ins) && Pulsed(g, ins) < PULSES && |ins| > 0 && before == ins[..|ins| - 1]
    ensures Words(Got(g, before)) && Words(Got(g, ins))
    ensures var (got, m, i) := (CountersIn(Got(g, before)), Run(g, Reset(), before).fsm, ins[|before|]);
      && CountersIn(Got(g, ins)) == HandedAfter(got, m, i.ready)
      && EdgeKeeps(got, m, Run(g, Reset(), ins).fsm, i, LastOf(CounterWords(g, before)), LastOf(CounterWords(g, ins)))
  {
    RunCounts(g, ins, before);
    RunMoves(g, ins, before);
    RunData(g, ins);
    EdgeFreshness(CountersIn(Got(g, before)), Run(g, Reset(), before).fsm, Run(g, Reset(), ins).fsm, ins[|before|],
                  CounterWords(g, before), CounterWords(g, ins));
  }

  lemma StartsFresh(g: Config)
    ensures Fresh(CountersIn(Got(g, [])), Run(g, Reset(), []).fsm, LastOf(CounterWords(g, [])))
  {
  }

  lemma {:induction false} RunFreshness(g: Config, ins: seq<Input>)
    requires Fits(ins) && AllSubTagged(ins) && Pulsed(g, ins) < PULSES
    ensures Words(Got(g, ins))
    ensures NeverRepeats(g, ins) ==> Fresh(CountersIn(Got(g, ins)), Run(g, Reset(), ins).fsm, LastOf(CounterWords(g, ins)))
    ensures !NeverRepeats(g, ins) ==> Stale(CountersIn(Got(g, ins)), Run(g, Reset(), ins).fsm)
  {
    if |ins| == 0 {
      StartsFresh(g);
      assert ins == [];
    } else {
      RunFreshness(g, ins[..|ins| - 1]);
      FreshnessEdge(g, ins, ins[..|ins| - 1]);
    }
  }

  /** Whatever the sink does otherwise: the counters the program has read or is offered
      strictly increase, until the 30-bit counter wraps, if and only if no frame was
      stalled in its first cycle with a counter left over that the sink already has. */
  lemma ReadCountersIncrease(g: Config, ins: seq<Input>)
    requires Fits(ins) && AllSubTagged(ins) && Pulsed(g, ins) < PULSES
    ensures Words(All(g, ins))
    ensures StrictlyIncreasing(CountersIn(All(g, ins))) <==> NeverRepeats(g, ins)
  {
    RunFreshness(g, ins);
    GotWords(g, ins);
    var (got, m) := (CountersIn(Got(g, ins)), Run(g, Reset(), ins).fsm);
    if NeverRepeats(g, ins) {
      FreshOffer(got, m, LastOf(CounterWords(g, ins)));
    } else {
      StaleOffer(got, m);
    }
  }

  lemma GotIncreases(g: Config, ins: seq<Input>)
    requires Fits(ins) && AllSubTagged(ins) && Pulsed(g, ins) < PULSES && NeverRepeats(g, ins)
    ensures Words(Got(g, ins)) && StrictlyIncreasing(CountersIn(Got(g, ins)))
  {
    RunFreshness(g, ins);
  }

  /** Conservation from core to program, dropped counters included: over every run in
      which no counter is repeated, the counters the program reads after the first
      non-zero one, plus the pulses it counts as lost, are exactly last counter minus
      first. */
  lemma PulsesAreConserved(g: Config, ins: seq<Input>, first: nat)
    requires Fits(ins) && AllSubTagged(ins) && Pulsed(g, ins) < PULSES && NeverRepeats(g, ins)
    requires Words(Got(g, ins))
    requires var cs := CountersIn(Got(g, ins)); first < |cs| && cs[first] > 0 && forall k :: 0 <= k < first ==> cs[k] == 0
    ensures var cs := CountersIn(Got(g, ins));
      (|cs| - 1 - first) + CountAll(Pulses(0, 0, 0), cs).lost + cs[first] == cs[|cs| - 1]
  {
    GotIncreases(g, ins);
    ConservedFromFirst(Pulses(0, 0, 0), CountersIn(Got(g, ins)), first);
  }

  /** A sink that is always ready meets both conditions. */
  lemma {:induction false} ReadyIsEnough(g: Config, ins: seq<Input>)
    requires Fits(ins) && Ready(ins)
    ensures Attentive(g, ins) && NeverRepeats(g, ins)
  {
    if |ins| == 0 {
    } else {
      ReadyIsEnough(g, ins[..|ins| - 1]);
    }
  }
}
