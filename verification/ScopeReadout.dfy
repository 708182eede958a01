/** The averaging scope and its reader together: two clocks, the scope holding its
    result until the reader's restart, detected as an edge, comes back to it. */
module ScopeReadout {
  import opened Arith
  import AS = AveragingScope
  import BR = BramReader

  /** The edge detector between the reader's restart and the scope. */
  datatype Detector = Zero | Edge | One

  datatype Joint = Joint(scope: AS.Scope, detector: Detector, reader: BR.Reader)

  /** One rising edge of the scope's clock, of the reader's, or of both at once. */
  datatype Tick =
    | ScopeTick(i: AS.Input)
    | ReaderTick(send: bool, tready: bool)
    | BothTick(i: AS.Input, send: bool, tready: bool)

  predicate HasScope(e: Tick) { !e.ReaderTick? }

  predicate HasReader(e: Tick) { !e.ScopeTick? }

  ghost predicate FitsTick(g: AS.Config, e: Tick) { HasScope(e) ==> |e.i.tdata| == g.ratio }

  /** The number of words read out; the scope uses every sample of its addresses. */
  function WordCount(g: AS.Config): (n: nat) { g.words * g.ratio }

  ghost predicate Good(g: AS.Config) { AS.Good(g) && 2 <= WordCount(g) }

  ghost predicate Sized(g: AS.Config, j: Joint) {
    AS.Good(g) && AS.Sized(g, j.scope) && j.reader.addr < |j.scope.narrow|
  }

  function NextDetector(d: Detector, signal: bool): (d': Detector) {
    if !signal then Zero else if d == Zero then Edge else One
  }

  /** The scope's restart is the detector's output, whatever else its input says. */
  function ScopeInput(j: Joint, i: AS.Input): (i': AS.Input) { i.(restart := j.detector == Edge) }

  function ReaderInput(j: Joint, send: bool, tready: bool): (i: BR.Input) {
    BR.Input(j.scope.phase.Finish? && send, tready)
  }

  function Step(g: AS.Config, j: Joint, e: Tick): (j': Joint)
    requires Sized(g, j) && FitsTick(g, e)
    ensures Sized(g, j')
  {
    var scope := if HasScope(e) then AS.Step(g, j.scope, ScopeInput(j, e.i)) else j.scope;
    var detector := if HasScope(e) then NextDetector(j.detector, j.reader.phase.Finish?) else j.detector;
    var reader := if HasReader(e) then BR.Step(j.scope.narrow, WordCount(g), j.reader, ReaderInput(j, e.send, e.tready))
                  else j.reader;
    Joint(scope, detector, reader)
  }

  ghost predicate Fits(g: AS.Config, es: seq<Tick>) { forall k :: 0 <= k < |es| ==> FitsTick(g, es[k]) }

  function Run(g: AS.Config, j: Joint, es: seq<Tick>): (j': Joint)
    requires Sized(g, j) && Fits(g, es)
    ensures Sized(g, j')
  {
    if |es| == 0 then j else Step(g, Run(g, j, es[..|es| - 1]), es[|es| - 1])
  }

  /** The words the scope has measured since it last left idle. */
  function Measured(g: AS.Config, j: Joint, h: AS.History, es: seq<Tick>): (h': AS.History)
    requires Sized(g, j) && Fits(g, es)
  {
    if |es| == 0 then h
    else
      var (before, e) := (es[..|es| - 1], es[|es| - 1]);
      var p := Run(g, j, before);
      if HasScope(e) then AS.Record(g, p.scope, Measured(g, j, h, before), ScopeInput(p, e.i))
      else Measured(g, j, h, before)
  }

  /** The words handed to the sink over a run. */
  function Handed(g: AS.Config, j: Joint, es: seq<Tick>): (p: seq<BR.Transfer>)
    requires Sized(g, j) && Fits(g, es)
  {
    if |es| == 0 then []
    else
      var (before, e) := (es[..|es| - 1], es[|es| - 1]);
      var s := Run(g, j, before);
      Handed(g, j, before) + if HasReader(e) then BR.Sent(s.reader, ReaderInput(s, e.send, e.tready)) else []
  }

  ghost predicate PowerUp(g: AS.Config, j: Joint) {
    AS.PowerUp(g, j.scope) && j.detector == Zero && j.reader == BR.RESET
  }

  // --------------------------------------------------------- the scope's side

  ghost predicate ScopeInv(g: AS.Config, j: Joint, h: AS.History) {
    Sized(g, j) && AS.Inv(g, j.scope, h) && AS.Copied(j.scope)
  }

  lemma {:induction false} RunScope(g: AS.Config, j: Joint, h: AS.History, es: seq<Tick>)
    requires ScopeInv(g, j, h) && Fits(g, es)
    ensures ScopeInv(g, Run(g, j, es), Measured(g, j, h, es))
  {
    if |es| == 0 {
    } else {
      var (before, e) := (es[..|es| - 1], es[|es| - 1]);
      RunScope(g, j, h, before);
      if HasScope(e) {
        var p := Run(g, j, before);
        AS.StepInv(g, p.scope, Measured(g, j, h, before), ScopeInput(p, e.i));
        AS.CopyStep(g, p.scope, ScopeInput(p, e.i));
      }
    }
  }

  // ----------------------------------------------------------------- readouts

  /** The reader has just left idle with a result to read. */
  ghost predicate Started(j: Joint) { j.reader == BR.Reader(BR.EnBram, 0, 0) && j.scope.phase.Finish? }

  /** The reader has not come back to idle over a run. */
  ghost predicate Reading(g: AS.Config, j: Joint, es: seq<Tick>)
    requires Sized(g, j) && Fits(g, es)
  {
    !Run(g, j, es).reader.phase.Idle? && (|es| != 0 ==> Reading(g, j, es[..|es| - 1]))
  }

  /** While the reader is at work the scope stands still and no restart is on its way;
      what was handed over fits the memory the readout started with. */
  ghost predicate ReadoutInv(g: AS.Config, start: Joint, j: Joint, p: seq<BR.Transfer>)
    requires Sized(g, start) && Good(g)
  {
    && WordCount(g) <= |start.scope.narrow|
    && BR.Inv(start.scope.narrow, WordCount(g), j.reader, p)
    && (j.reader.phase != BR.Finish ==> j.scope == start.scope && j.detector != Edge)
  }

  /** A finished scope that is not restarted does nothing. */
  lemma FinishedHolds(g: AS.Config, s: AS.Scope, i: AS.Input)
    requires AS.Good(g) && AS.Sized(g, s) && |i.tdata| == g.ratio && s.phase.Finish?
    ensures AS.Step(g, s, i).phase.Finish? <==> !i.restart
    ensures !i.restart ==> AS.Step(g, s, i) == s
  {
  }

  lemma ReadoutStep(g: AS.Config, start: Joint, j: Joint, p: seq<BR.Transfer>, e: Tick)
    requires Sized(g, start) && Sized(g, j) && Good(g) && FitsTick(g, e) && start.scope.phase.Finish?
    requires ReadoutInv(g, start, j, p) && !j.reader.phase.Idle? && !Step(g, j, e).reader.phase.Idle?
    ensures ReadoutInv(g, start, Step(g, j, e),
                       p + if HasReader(e) then BR.Sent(j.reader, ReaderInput(j, e.send, e.tready)) else [])
  {
    if HasReader(e) {
      if j.reader.phase != BR.Finish {
        BR.StepInv(start.scope.narrow, WordCount(g), j.reader, p, ReaderInput(j, e.send, e.tready));
      }
    } else {
      assert p + [] == p;
    }
    if HasScope(e) && j.reader.phase != BR.Finish {
      FinishedHolds(g, j.scope, ScopeInput(j, e.i));
    }
  }

  lemma {:induction false} RunReadout(g: AS.Config, j: Joint, es: seq<Tick>)
    requires Sized(g, j) && Good(g) && Fits(g, es) && Started(j) && j.detector != Edge
    requires WordCount(g) <= |j.scope.narrow| && Reading(g, j, es)
    ensures ReadoutInv(g, j, Run(g, j, es), Handed(g, j, es))
  {
    if |es| == 0 {
    } else {
      var before := es[..|es| - 1];
      RunReadout(g, j, before);
      ReadoutStep(g, j, Run(g, j, before), Handed(g, j, before), es[|es| - 1]);
    }
  }

  lemma CountFits(g: AS.Config, s: AS.Scope)
    requires AS.Good(g) && AS.Sized(g, s)
    ensures WordCount(g) <= |s.narrow|
  {
    MulMonotone(g.words, g.depth, g.ratio);
  }

  // ------------------------------------------------------------- main theorems

  /** The scope stands still until the reader is done, whatever the clocks and the
      sink do. */
  ghost predicate HeldThroughout(g: AS.Config, j: Joint)
    requires Sized(g, j)
  {
    forall es: seq<Tick> ::
      Fits(g, es) && Reading(g, j, es) && Run(g, j, es).reader.phase != BR.Finish ==> Run(g, j, es).scope == j.scope
  }

  lemma RestartRaces(g: AS.Config, j: Joint, e: Tick)
    requires Sized(g, j) && Good(g) && FitsTick(g, e) && e.ScopeTick? && Started(j) && j.detector == Edge
    ensures Fits(g, [e]) && Reading(g, j, [e]) && Run(g, j, [e]).reader.phase == BR.EnBram
    ensures Run(g, j, [e]).scope.phase.WrZeros?
  {
    assert [e][..0] == [] && Run(g, j, []) == j;
    assert Reading(g, j, []);
    FinishedHolds(g, j.scope, ScopeInput(j, e.i));
  }

  /** A readout finds the scope standing still for its whole length if and only if no
      restart was on its way when it started. */
  lemma HeldIff(g: AS.Config, j: Joint)
    requires Sized(g, j) && Good(g) && Started(j)
    ensures HeldThroughout(g, j) <==> j.detector != Edge
  {
    if j.detector == Edge {
      var e := ScopeTick(AS.Input(false, false, false, AS.Zeros(g.ratio), false));
      RestartRaces(g, j, e);
    } else {
      CountFits(g, j.scope);
      forall es: seq<Tick> | Fits(g, es) && Reading(g, j, es) && Run(g, j, es).reader.phase != BR.Finish
        ensures Run(g, j, es).scope == j.scope
      {
        RunReadout(g, j, es);
      }
    }
  }

  /** A readout starts when the idle reader is asked for one while the scope holds a
      result, unless the scope restarts on that very edge. */
  lemma ReadoutStarts(g: AS.Config, j: Joint, e: Tick)
    requires Sized(g, j) && FitsTick(g, e) && j.reader.phase.Idle? && HasReader(e)
    ensures Step(g, j, e).reader.phase == BR.EnBram <==> j.scope.phase.Finish? && e.send
    ensures j.scope.phase.Finish? && e.send ==>
      (Started(Step(g, j, e)) <==> e.ReaderTick? || j.detector != Edge)
  {
    if HasScope(e) && j.scope.phase.Finish? {
      FinishedHolds(g, j.scope, ScopeInput(j, e.i));
    }
  }

  /** The same said at the request: of an idle reader asked on edge `e` while the scope
      holds a result, the scope holds it after `e` and stands still for the whole
      readout if and only if no restart was on its way. */
  lemma RequestIff(g: AS.Config, j: Joint, e: Tick)
    requires Sized(g, j) && Good(g) && FitsTick(g, e) && j.reader.phase.Idle? && HasReader(e)
    requires j.scope.phase.Finish? && e.send
    ensures Step(g, j, e).scope.phase.Finish? && HeldThroughout(g, Step(g, j, e)) <==> j.detector != Edge
  {
    ReadoutStarts(g, j, e);
    var k := Step(g, j, e);
    if k.scope.phase.Finish? {
      HeldIff(g, k);
    }
  }

  /** The race can happen: a reader that finishes on an edge the scope sees, and is
      asked again on the very next edge of its own clock, starts with the restart on
      its way. */
  lemma RaceHappens(g: AS.Config, j: Joint, e: Tick, f: Tick)
    requires Sized(g, j) && FitsTick(g, e) && FitsTick(g, f) && e.BothTick? && f.ReaderTick? && f.send
    requires j.reader.phase == BR.Finish && j.scope.phase.Finish? && j.detector == Zero
    ensures Started(Step(g, Step(g, j, e), f)) && Step(g, Step(g, j, e), f).detector == Edge
  {
    FinishedHolds(g, j.scope, ScopeInput(j, e.i));
  }

  /** What has been handed over is a prefix of the packet, and word `l` of address `a`,
      once handed over, is the sum of its samples modulo 2^16 over all rounds. */
  ghost predicate CarriesSums(g: AS.Config, s: AS.Scope, h: AS.History, p: seq<BR.Transfer>, a: nat, l: nat) {
    && 1 <= WordCount(g) <= |s.narrow| && p <= BR.Expected(s.narrow, WordCount(g))
    && AS.WellShaped(g, h) && |h.rounds| == AS.Rounds(g) && a < g.words && l < g.ratio
    && (a * g.ratio + l < |p| ==> p[a * g.ratio + l].data == AS.ColumnSum(h.rounds, a, l) % AS.LANE)
  }

  lemma PacketFromInv(g: AS.Config, start: Joint, j: Joint, h: AS.History, p: seq<BR.Transfer>, a: nat, l: nat)
    requires Good(g) && ScopeInv(g, start, h) && start.scope.phase.Finish? && a < g.words && l < g.ratio
    requires ReadoutInv(g, start, j, p) && !j.reader.phase.Idle?
    ensures CarriesSums(g, start.scope, h, p, a, l)
  {
    BR.InvIsPrefix(start.scope.narrow, WordCount(g), j.reader, p);
    WordIsSum(g, start.scope, h, a, l);
    SlotInPacket(g, a, l);
    PrefixWord(start.scope.narrow, WordCount(g), p, a * g.ratio + l);
  }

  lemma PrefixWord(mem: seq<nat>, n: nat, p: seq<BR.Transfer>, k: nat)
    requires 1 <= n <= |mem| && p <= BR.Expected(mem, n) && k < n
    ensures k < |p| ==> p[k].data == mem[k]
  {
    assert k < |p| ==> p[k] == BR.Expected(mem, n)[k];
  }

  lemma SlotInPacket(g: AS.Config, a: nat, l: nat)
    requires a < g.words && l < g.ratio
    ensures a * g.ratio + l < WordCount(g)
  {
    AS.SlotsFit(a, g.words, g.ratio);
  }

  /** End to end, both cores stepping on their own clocks: from power-up, what a
      readout has handed over, however the sink stalls, is a prefix of the packet and
      carries the sample sums in address and lane order. */
  lemma PacketCarriesSums(g: AS.Config, j0: Joint, pre: seq<Tick>, es: seq<Tick>, a: nat, l: nat)
    requires Good(g) && PowerUp(g, j0) && Sized(g, j0) && Fits(g, pre) && Fits(g, es) && a < g.words && l < g.ratio
    requires Started(Run(g, j0, pre)) && Run(g, j0, pre).detector != Edge && Reading(g, Run(g, j0, pre), es)
    ensures CarriesSums(g, Run(g, j0, pre).scope, Measured(g, j0, AS.History([], []), pre),
                        Handed(g, Run(g, j0, pre), es), a, l)
  {
    AS.PowerUpInv(g, j0.scope);
    RunScope(g, j0, AS.History([], []), pre);
    ReadoutFrom(g, Run(g, j0, pre), Measured(g, j0, AS.History([], []), pre), es, a, l);
  }

  lemma ReadoutFrom(g: AS.Config, j: Joint, h: AS.History, es: seq<Tick>, a: nat, l: nat)
    requires Good(g) && ScopeInv(g, j, h) && Fits(g, es) && a < g.words && l < g.ratio
    requires Started(j) && j.detector != Edge && Reading(g, j, es)
    ensures CarriesSums(g, j.scope, h, Handed(g, j, es), a, l)
  {
    CountFits(g, j.scope);
    RunReadout(g, j, es);
    PacketFromInv(g, j, Run(g, j, es), h, Handed(g, j, es), a, l);
  }

  /** A finished scope's narrow RAM holds the sums. */
  lemma WordIsSum(g: AS.Config, s: AS.Scope, h: AS.History, a: nat, l: nat)
    requires AS.Inv(g, s, h) && AS.Copied(s) && s.phase.Finish? && a < g.words && l < g.ratio
    ensures AS.WellShaped(g, h) && |h.rounds| == AS.Rounds(g)
    ensures a * g.ratio + l < |s.narrow| && s.narrow[a * g.ratio + l] == AS.ColumnSum(h.rounds, a, l) % AS.LANE
  {
    AS.FlattenAt(s.ram, g.ratio, a, l);
    assert s.ram[a][l] == AS.PartialSum(g, h, a, l) % AS.LANE;
  }

  /** How many edges of its clock the reader found the sink ready on. */
  function ReadyTicks(es: seq<Tick>): (r: nat) {
    if |es| == 0 then 0
    else ReadyTicks(es[..|es| - 1]) + if HasReader(es[|es| - 1]) && es[|es| - 1].tready then 1 else 0
  }

  lemma ServedTick(g: AS.Config, start: Joint, j: Joint, p: seq<BR.Transfer>, e: Tick, k: nat)
    requires Sized(g, start) && Sized(g, j) && Good(g) && FitsTick(g, e) && WordCount(g) <= |start.scope.narrow|
    requires k < WordCount(g) && j.scope == start.scope && BR.Served(start.scope.narrow, WordCount(g), j.reader, p, k)
    ensures BR.Served(start.scope.narrow, WordCount(g), Step(g, j, e).reader,
                      p + (if HasReader(e) then BR.Sent(j.reader, ReaderInput(j, e.send, e.tready)) else []),
                      if HasReader(e) && e.tready then k + 1 else k)
  {
    if HasReader(e) {
      BR.ServedStep(start.scope.narrow, WordCount(g), j.reader, p, k, ReaderInput(j, e.send, e.tready));
    } else {
      assert p + [] == p;
    }
  }

  /** Both clocks and all stalls together: a readout without a restart on its way goes
      on until the sink has been ready on n reader edges, offering each word until it is
      taken, and then comes to `tlast`. */
  lemma {:induction false} ReadoutServed(g: AS.Config, j: Joint, es: seq<Tick>)
    requires Sized(g, j) && Good(g) && Fits(g, es) && Started(j) && j.detector != Edge
    requires WordCount(g) <= |j.scope.narrow| && ReadyTicks(es) <= WordCount(g)
    requires |es| != 0 ==> ReadyTicks(es[..|es| - 1]) < WordCount(g)
    ensures Reading(g, j, es)
    ensures BR.Served(j.scope.narrow, WordCount(g), Run(g, j, es).reader, Handed(g, j, es), ReadyTicks(es))
  {
    if |es| == 0 {
    } else {
      var before := es[..|es| - 1];
      ReadoutServed(g, j, before);
      RunReadout(g, j, before);
      ServedTick(g, j, Run(g, j, before), Handed(g, j, before), es[|es| - 1], ReadyTicks(before));
    }
  }

  /** What the detector shows after a sequence of scope edges. */
  function Detect(signals: seq<bool>): (d: Detector) {
    if |signals| == 0 then Zero else NextDetector(Detect(signals[..|signals| - 1]), signals[|signals| - 1])
  }

  /** It gives one restart for each rise of the reader's signal, however long that
      lasts: exactly on the edge after a high one that follows a low one, or none. */
  lemma OneRestartPerRise(signals: seq<bool>)
    ensures Detect(signals) == Edge <==>
      |signals| > 0 && signals[|signals| - 1] && (|signals| > 1 ==> !signals[|signals| - 2])
  {
    if |signals| > 1 {
      var before := signals[..|signals| - 1];
      assert before[|before| - 1] == signals[|signals| - 2];
      DetectorFollows(before);
    }
  }

  lemma DetectorFollows(signals: seq<bool>)
    requires |signals| > 0
    ensures Detect(signals) == Zero <==> !signals[|signals| - 1]
  {
  }

  /** A finished readout is whole, or lacks only the last word when the sink was not
      ready in the `tlast` cycle. */
  lemma FinishedReadout(g: AS.Config, j: Joint, es: seq<Tick>)
    requires Sized(g, j) && Good(g) && Fits(g, es) && Started(j) && j.detector != Edge && Reading(g, j, es)
    requires Run(g, j, es).reader.phase == BR.Finish
    ensures WordCount(g) <= |j.scope.narrow|
    ensures var (p, n) := (Handed(g, j, es), WordCount(g));
      p == BR.Expected(j.scope.narrow, n) || p == BR.Words(j.scope.narrow, n - 1)
  {
    CountFits(g, j.scope);
    RunReadout(g, j, es);
  }

  /** The scope clears for the next measurement after a readout if and only if one of
      its clock edges sees the reader finished: `e` is the first edge of either clock
      after the packet, `f` a later scope edge. */
  lemma RestartSeen(g: AS.Config, j: Joint, e: Tick, f: Tick)
    requires Sized(g, j) && FitsTick(g, e) && FitsTick(g, f) && f.ScopeTick?
    requires j.reader.phase == BR.Finish && j.scope.phase.Finish? && j.detector == Zero
    ensures Step(g, Step(g, j, e), f).scope.phase.WrZeros? <==> HasScope(e)
  {
    if HasScope(e) {
      FinishedHolds(g, j.scope, ScopeInput(j, e.i));
    }
    var k := Step(g, j, e);
    FinishedHolds(g, k.scope, ScopeInput(k, f.i));
  }
}
