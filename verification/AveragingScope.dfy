/** The averaging scope: a pipelined read-modify-write over a RAM of wide words,
    copied lane by lane into a narrow RAM for readout. */
module AveragingScope {
  import opened Arith

  /** A wide word: one 16-bit lane per sample, lowest lane first. */
  type Word = seq<nat>

  const LANE: nat := 0x1_0000

  /** `depth` wide words of `ratio` lanes; `words` of them are used per trigger
      (nsamples / RATIO); `naverages` is the 16-bit register. */
  datatype Config = Config(depth: nat, ratio: nat, words: nat, naverages: nat)

  ghost predicate Good(g: Config) {
    1 <= g.words <= g.depth && g.depth >= 2 && g.ratio >= 1 && g.naverages < LANE
  }

  /** The register is compared after subtracting one in 16 bits, so zero asks for
      the most averages, not for none. */
  function Rounds(g: Config): (k: nat)
    ensures k >= 1
  {
    if g.naverages == 0 then LANE else g.naverages
  }

  datatype Phase = Idle | WaitTrig | EnTdpb | AvgScope | Finish | WrZeros

  /** FSM, addresses, round counter, wide RAM with its read register, narrow RAM. */
  datatype Scope = Scope(phase: Phase, addra: nat, addrb: nat, avg: nat,
                         ram: seq<Word>, dob: Word, narrow: seq<nat>)

  datatype Input = Input(start: bool, trig: bool, tvalid: bool, tdata: Word, restart: bool)

  /** The upper twelve bits of a lane, as a signed sample. */
  function Sample(lane: nat): (v: int) {
    var x := lane / 16 % 4096;
    if x < 2048 then x else x - 4096
  }

  lemma SampleRange(lane: nat)
    ensures -2048 <= Sample(lane) < 2048
  {
  }

  function Zeros(ratio: nat): (w: Word) { seq(ratio, _ => 0) }

  /** Lane-wise sum in 16 bits. */
  function Accumulate(dob: Word, tdata: Word): (w: Word)
    requires |dob| == |tdata|
    ensures |w| == |dob|
    ensures forall l {:trigger w[l]} :: 0 <= l < |dob| ==> w[l] == (dob[l] + Sample(tdata[l])) % LANE
  {
    seq(|dob|, l requires 0 <= l < |dob| => (dob[l] + Sample(tdata[l])) % LANE)
  }

  /** The narrow RAM after a wide word is written over its slots. */
  function Overwrite(narrow: seq<nat>, at: nat, w: Word): (n: seq<nat>)
    requires at + |w| <= |narrow|
    ensures |n| == |narrow|
  {
    narrow[..at] + w + narrow[at + |w|..]
  }

  ghost predicate Sized(g: Config, s: Scope) {
    && |s.ram| == g.depth && |s.narrow| == g.depth * g.ratio
    && |s.dob| == g.ratio && (forall a :: 0 <= a < |s.ram| ==> |s.ram[a]| == g.ratio)
    && s.addra < g.depth && s.addrb < g.depth
  }

  lemma SlotsFit(a: nat, depth: nat, ratio: nat)
    requires a < depth
    ensures a * ratio + ratio <= depth * ratio
  {
    MulMonotone(a + 1, depth, ratio);
    MulDistributes(a, 1, ratio);
  }

  /** Both RAMs on an edge that writes `w` at `addra`. */
  function WriteWord(g: Config, s: Scope, w: Word): (s': Scope)
    requires Sized(g, s) && |w| == g.ratio
    ensures Sized(g, s')
  {
    SlotsFit(s.addra, g.depth, g.ratio);
    s.(ram := s.ram[s.addra := w], narrow := Overwrite(s.narrow, s.addra * g.ratio, w))
  }

  /** One rising edge. */
  function Step(g: Config, s: Scope, i: Input): (s': Scope)
    requires Good(g) && Sized(g, s) && |i.tdata| == g.ratio
    ensures Sized(g, s')
  {
    match s.phase
    case Idle =>
      s.(dob := Zeros(g.ratio), addra := 0, addrb := 0, avg := 0, phase := if i.start then WaitTrig else Idle)
    case WaitTrig => if i.trig then s.(phase := EnTdpb) else s
    case EnTdpb =>
      if i.tvalid then s.(dob := s.ram[s.addrb], addrb := Next(s.addrb, g.depth), phase := AvgScope) else s
    case AvgScope =>
      if !i.tvalid then s
      else
        var s1 := WriteWord(g, s, Accumulate(s.dob, i.tdata)).(dob := s.ram[s.addrb]);
        if s.addra == g.words - 1 then
          s1.(addra := 0, addrb := 0, avg := (s.avg + 1) % LANE,
              phase := if s.avg == Rounds(g) - 1 then Finish else WaitTrig)
        else
          s1.(addra := Next(s.addra, g.depth), addrb := Next(s.addrb, g.depth))
    case Finish => if i.restart then s.(phase := WrZeros) else s
    case WrZeros =>
      WriteWord(g, s, Zeros(g.ratio)).(addra := Next(s.addra, g.depth),
                                       phase := if s.addra == g.words - 1 then Idle else WrZeros)
  }

  ghost predicate Fits(g: Config, ins: seq<Input>) { forall k :: 0 <= k < |ins| ==> |ins[k].tdata| == g.ratio }

  function Run(g: Config, s: Scope, ins: seq<Input>): (s': Scope)
    requires Good(g) && Sized(g, s) && Fits(g, ins)
    ensures Sized(g, s')
    decreases |ins|
  {
    if |ins| == 0 then s else Run(g, Step(g, s, ins[0]), ins[1..])
  }

  // --------------------------------------------------------- what was measured

  /** The words taken since the scope last left idle: a list of complete rounds,
      one per trigger, and the round under way. */
  datatype History = History(rounds: seq<seq<Word>>, current: seq<Word>)

  function Record(g: Config, s: Scope, h: History, i: Input): (h': History) {
    if s.phase == Idle then History([], [])
    else if s.phase == AvgScope && i.tvalid then
      if |h.current| + 1 == g.words then History(h.rounds + [h.current + [i.tdata]], [])
      else h.(current := h.current + [i.tdata])
    else h
  }

  function RecordRun(g: Config, s: Scope, h: History, ins: seq<Input>): (h': History)
    requires Good(g) && Sized(g, s) && Fits(g, ins)
    decreases |ins|
  {
    if |ins| == 0 then h else RecordRun(g, Step(g, s, ins[0]), Record(g, s, h, ins[0]), ins[1..])
  }

  ghost predicate WellShaped(g: Config, h: History) {
    && (forall k :: 0 <= k < |h.rounds| ==> |h.rounds[k]| == g.words)
    && (forall k, a :: 0 <= k < |h.rounds| && 0 <= a < |h.rounds[k]| ==> |h.rounds[k][a]| == g.ratio)
    && |h.current| <= g.words
    && (forall a :: 0 <= a < |h.current| ==> |h.current[a]| == g.ratio)
  }

  /** The sum over complete rounds of the samples for address `a`, lane `l`. */
  ghost function ColumnSum(rounds: seq<seq<Word>>, a: nat, l: nat): (v: int)
    requires forall k :: 0 <= k < |rounds| ==> a < |rounds[k]| && l < |rounds[k][a]|
  {
    if |rounds| == 0 then 0
    else ColumnSum(rounds[..|rounds| - 1], a, l) + Sample(rounds[|rounds| - 1][a][l])
  }

  /** ... and of the round under way, as far as it has come. */
  ghost function PartialSum(g: Config, h: History, a: nat, l: nat): (v: int)
    requires WellShaped(g, h) && a < g.words && l < g.ratio
  {
    ColumnSum(h.rounds, a, l) + if a < |h.current| then Sample(h.current[a][l]) else 0
  }

  ghost predicate HoldsSums(g: Config, ram: seq<Word>, h: History)
    requires WellShaped(g, h) && g.words <= |ram| && forall a :: 0 <= a < |ram| ==> |ram[a]| == g.ratio
  {
    forall a, l :: 0 <= a < g.words && 0 <= l < g.ratio ==> ram[a][l] == PartialSum(g, h, a, l) % LANE
  }

  ghost predicate ZeroFrom(g: Config, ram: seq<Word>, from: nat) {
    forall a :: from <= a < |ram| ==> ram[a] == Zeros(g.ratio)
  }

  ghost predicate ZeroBelow(g: Config, ram: seq<Word>, to: nat) {
    forall a :: 0 <= a < to && a < |ram| ==> ram[a] == Zeros(g.ratio)
  }

  /** While measuring, the read port runs one word ahead of the write port and its
      register holds the word about to be rewritten. */
  ghost predicate Pipeline(g: Config, s: Scope)
    requires Sized(g, s)
  {
    s.addra < g.words && s.addrb == Next(s.addra, g.depth) && s.dob == s.ram[s.addra]
  }

  ghost predicate Inv(g: Config, s: Scope, h: History) {
    && Good(g) && Sized(g, s)
    && ZeroFrom(g, s.ram, g.words)
    && match s.phase
       case Idle => ZeroBelow(g, s.ram, g.words)
       case WaitTrig => Measuring(g, s, h) && s.addra == s.addrb == 0 && h.current == []
       case EnTdpb => Measuring(g, s, h) && s.addra == s.addrb == 0 && h.current == []
       case AvgScope => Measuring(g, s, h) && Pipeline(g, s) && |h.current| == s.addra
       case Finish =>
         && WellShaped(g, h) && s.addra == 0 && h.current == [] && |h.rounds| == Rounds(g)
         && HoldsSums(g, s.ram, h)
       case WrZeros => s.addra < g.words && ZeroBelow(g, s.ram, s.addra)
  }

  ghost predicate Measuring(g: Config, s: Scope, h: History)
    requires Good(g) && Sized(g, s)
  {
    WellShaped(g, h) && s.avg < Rounds(g) && |h.rounds| == s.avg && HoldsSums(g, s.ram, h)
  }

  lemma ColumnSumAppend(rounds: seq<seq<Word>>, round: seq<Word>, a: nat, l: nat)
    requires forall k :: 0 <= k < |rounds| ==> a < |rounds[k]| && l < |rounds[k][a]|
    requires a < |round| && l < |round[a]|
    ensures ColumnSum(rounds + [round], a, l) == ColumnSum(rounds, a, l) + Sample(round[a][l])
  {
    assert (rounds + [round])[..|rounds|] == rounds;
  }

  /** Writing back a read word plus its sample keeps the sums up to date. */
  lemma ExtendRound(g: Config, ram: seq<Word>, h: History, tdata: Word)
    requires WellShaped(g, h) && |h.current| < g.words <= |ram| && |tdata| == g.ratio
    requires forall a :: 0 <= a < |ram| ==> |ram[a]| == g.ratio
    requires HoldsSums(g, ram, h)
    ensures var (ram', h') := (ram[|h.current| := Accumulate(ram[|h.current|], tdata)],
                               h.(current := h.current + [tdata]));
      WellShaped(g, h') && HoldsSums(g, ram', h')
  {
    var n := |h.current|;
    var (ram', h') := (ram[n := Accumulate(ram[n], tdata)], h.(current := h.current + [tdata]));
    forall a, l | 0 <= a < g.words && 0 <= l < g.ratio ensures ram'[a][l] == PartialSum(g, h', a, l) % LANE {
      if a == n {
        assert ram[n][l] == PartialSum(g, h, n, l) % LANE;
        ModAbsorbs(PartialSum(g, h, n, l), Sample(tdata[l]), LANE);
      } else {
        assert ram'[a][l] == ram[a][l] == PartialSum(g, h, a, l) % LANE;
      }
    }
  }

  /** A full round becomes one more term of every column sum. */
  lemma CloseRound(g: Config, ram: seq<Word>, h: History)
    requires WellShaped(g, h) && |h.current| == g.words <= |ram|
    requires forall a :: 0 <= a < |ram| ==> |ram[a]| == g.ratio
    requires HoldsSums(g, ram, h)
    ensures var h' := History(h.rounds + [h.current], []);
      WellShaped(g, h') && HoldsSums(g, ram, h')
  {
    var h' := History(h.rounds + [h.current], []);
    assert WellShaped(g, h');
    forall a, l | 0 <= a < g.words && 0 <= l < g.ratio ensures ram[a][l] == PartialSum(g, h', a, l) % LANE {
      ColumnSumAppend(h.rounds, h.current, a, l);
      assert ram[a][l] == PartialSum(g, h, a, l) % LANE;
    }
  }

  lemma MeasureStep(g: Config, s: Scope, h: History, i: Input)
    requires Inv(g, s, h) && |i.tdata| == g.ratio && s.phase == AvgScope && i.tvalid
    ensures Inv(g, Step(g, s, i), Record(g, s, h, i))
  {
    ExtendRound(g, s.ram, h, i.tdata);
    if s.addra == g.words - 1 {
      CloseRound(g, Step(g, s, i).ram, h.(current := h.current + [i.tdata]));
    }
  }

  lemma StartStep(g: Config, s: Scope, h: History, i: Input)
    requires Inv(g, s, h) && |i.tdata| == g.ratio && s.phase == Idle
    ensures Inv(g, Step(g, s, i), Record(g, s, h, i))
  {
  }

  lemma StepInv(g: Config, s: Scope, h: History, i: Input)
    requires Inv(g, s, h) && |i.tdata| == g.ratio
    ensures Inv(g, Step(g, s, i), Record(g, s, h, i))
  {
    if s.phase == AvgScope && i.tvalid {
      MeasureStep(g, s, h, i);
    } else if s.phase == Idle {
      StartStep(g, s, h, i);
    }
  }

  lemma {:induction false} RunInv(g: Config, s: Scope, h: History, ins: seq<Input>)
    requires Inv(g, s, h) && Fits(g, ins)
    ensures Inv(g, Run(g, s, ins), RecordRun(g, s, h, ins))
    decreases |ins|
  {
    if |ins| == 0 {
    } else {
      StepInv(g, s, h, ins[0]);
      RunInv(g, Step(g, s, ins[0]), Record(g, s, h, ins[0]), ins[1..]);
    }
  }

  // --------------------------------------------------------- the narrow copy

  /** The lanes of all wide words, one after the other. */
  ghost function Flatten(ram: seq<Word>): (n: seq<nat>) {
    if |ram| == 0 then [] else Flatten(ram[..|ram| - 1]) + ram[|ram| - 1]
  }

  ghost predicate AllWide(ram: seq<Word>, ratio: nat) { forall a :: 0 <= a < |ram| ==> |ram[a]| == ratio }

  lemma {:induction false} FlattenLength(ram: seq<Word>, ratio: nat)
    requires AllWide(ram, ratio)
    ensures |Flatten(ram)| == |ram| * ratio
  {
    if |ram| == 0 {
    } else {
      FlattenLength(ram[..|ram| - 1], ratio);
      MulDistributes(|ram|, 1, ratio);
    }
  }

  lemma {:induction false} FlattenAt(ram: seq<Word>, ratio: nat, a: nat, l: nat)
    requires AllWide(ram, ratio) && a < |ram| && l < ratio
    ensures a * ratio + l < |Flatten(ram)| && Flatten(ram)[a * ratio + l] == ram[a][l]
  {
    var init := ram[..|ram| - 1];
    FlattenLength(init, ratio);
    if a == |ram| - 1 {
    } else {
      FlattenAt(init, ratio, a, l);
    }
  }

  lemma OverwriteTail(x: seq<nat>, y: seq<nat>, at: nat, w: Word)
    requires at + |w| <= |x|
    ensures Overwrite(x + y, at, w) == Overwrite(x, at, w) + y
  {
  }

  lemma OverwriteLast(x: seq<nat>, y: seq<nat>, w: Word)
    requires |y| == |w|
    ensures Overwrite(x + y, |x|, w) == x + w
  {
  }

  /** At the slots after all earlier words. */
  lemma {:induction false} FlattenReplace(ram: seq<Word>, a: nat, at: nat, w: Word)
    requires a < |ram| && |w| == |ram[a]| && at == |Flatten(ram[..a])|
    ensures at + |w| <= |Flatten(ram)| && Flatten(ram[a := w]) == Overwrite(Flatten(ram), at, w)
  {
    var n := |ram| - 1;
    if a < n {
      assert ram[..n][..a] == ram[..a];
      FlattenReplace(ram[..n], a, at, w);
      assert ram[a := w][..n] == ram[..n][a := w];
      OverwriteTail(Flatten(ram[..n]), ram[n], at, w);
    } else {
      assert ram[a := w][..n] == ram[..n];
      OverwriteLast(Flatten(ram[..n]), ram[n], w);
    }
  }

  lemma FlattenUpdate(ram: seq<Word>, ratio: nat, a: nat, w: Word)
    requires AllWide(ram, ratio) && a < |ram| && |w| == ratio
    ensures a * ratio + ratio <= |Flatten(ram)|
    ensures Flatten(ram[a := w]) == Overwrite(Flatten(ram), a * ratio, w)
  {
    FlattenLength(ram[..a], ratio);
    FlattenReplace(ram, a, a * ratio, w);
  }

  ghost predicate Copied(s: Scope) { s.narrow == Flatten(s.ram) }

  lemma CopyStep(g: Config, s: Scope, i: Input)
    requires Good(g) && Sized(g, s) && |i.tdata| == g.ratio && Copied(s)
    ensures Copied(Step(g, s, i))
  {
    if s.phase == AvgScope && i.tvalid {
      FlattenUpdate(s.ram, g.ratio, s.addra, Accumulate(s.dob, i.tdata));
    } else if s.phase == WrZeros {
      FlattenUpdate(s.ram, g.ratio, s.addra, Zeros(g.ratio));
    }
  }

  lemma {:induction false} RunCopied(g: Config, s: Scope, ins: seq<Input>)
    requires Good(g) && Sized(g, s) && Fits(g, ins) && Copied(s)
    ensures Copied(Run(g, s, ins))
    decreases |ins|
  {
    if |ins| == 0 {
    } else {
      CopyStep(g, s, ins[0]);
      RunCopied(g, Step(g, s, ins[0]), ins[1..]);
    }
  }

  /** The configured initial contents: idle, both RAMs all zero. */
  ghost predicate PowerUp(g: Config, s: Scope) {
    && Good(g) && Sized(g, s) && s.phase == Idle
    && ZeroFrom(g, s.ram, 0) && s.narrow == seq(g.depth * g.ratio, _ => 0)
  }

  lemma {:induction false} FlattenZeros(ram: seq<Word>, ratio: nat)
    requires forall a :: 0 <= a < |ram| ==> ram[a] == Zeros(ratio)
    ensures Flatten(ram) == seq(|ram| * ratio, _ => 0)
  {
    FlattenLength(ram, ratio);
    if |ram| == 0 {
    } else {
      FlattenZeros(ram[..|ram| - 1], ratio);
    }
  }

  lemma PowerUpInv(g: Config, s: Scope)
    requires PowerUp(g, s)
    ensures Inv(g, s, History([], [])) && Copied(s)
  {
    FlattenZeros(s.ram, g.ratio);
  }

  // ------------------------------------------------------------ main theorems

  /** In every reachable state the narrow RAM is the wide RAM, lane by lane. */
  lemma NarrowIsCopy(g: Config, s: Scope, ins: seq<Input>, a: nat, l: nat)
    requires PowerUp(g, s) && Fits(g, ins) && a < g.depth && l < g.ratio
    ensures var s' := Run(g, s, ins);
      a * g.ratio + l < |s'.narrow| && s'.narrow[a * g.ratio + l] == s'.ram[a][l]
  {
    PowerUpInv(g, s);
    RunCopied(g, s, ins);
    FlattenAt(Run(g, s, ins).ram, g.ratio, a, l);
  }

  /** When a measurement finishes, for every pattern of valid words and triggers,
      exactly the requested number of rounds has been taken and each lane of each
      address, in both RAMs, holds the sum of its samples modulo 2^16. */
  lemma AveragesAreSums(g: Config, s: Scope, ins: seq<Input>, a: nat, l: nat)
    requires PowerUp(g, s) && Fits(g, ins) && a < g.words && l < g.ratio
    requires Run(g, s, ins).phase == Finish
    ensures var (s', h) := (Run(g, s, ins), RecordRun(g, s, History([], []), ins));
      && WellShaped(g, h) && |h.rounds| == Rounds(g)
      && s'.ram[a][l] == ColumnSum(h.rounds, a, l) % LANE
      && a * g.ratio + l < |s'.narrow| && s'.narrow[a * g.ratio + l] == s'.ram[a][l]
  {
    PowerUpInv(g, s);
    RunInv(g, s, History([], []), ins);
    NarrowIsCopy(g, s, ins, a, l);
    var h := RecordRun(g, s, History([], []), ins);
    assert Run(g, s, ins).ram[a][l] == PartialSum(g, h, a, l) % LANE;
  }

  /** Whenever the scope is idle both RAMs are clear. */
  lemma IdleMeansClear(g: Config, s: Scope, ins: seq<Input>)
    requires PowerUp(g, s) && Fits(g, ins) && Run(g, s, ins).phase == Idle
    ensures ZeroFrom(g, Run(g, s, ins).ram, 0)
    ensures Run(g, s, ins).narrow == seq(g.depth * g.ratio, _ => 0)
  {
    PowerUpInv(g, s);
    RunInv(g, s, History([], []), ins);
    RunCopied(g, s, ins);
    FlattenZeros(Run(g, s, ins).ram, g.ratio);
  }

  /** A 16-bit lane read as a signed number. */
  function Signed(lane: int): (v: int) { if lane < 0x8000 then lane else lane - LANE }

  ghost predicate HasCell(rounds: seq<seq<Word>>, a: nat, l: nat) {
    forall k :: 0 <= k < |rounds| ==> a < |rounds[k]| && l < |rounds[k][a]|
  }

  lemma {:induction false} ColumnSumRange(rounds: seq<seq<Word>>, a: nat, l: nat)
    requires HasCell(rounds, a, l)
    ensures -2048 * |rounds| <= ColumnSum(rounds, a, l) <= 2047 * |rounds|
  {
    if |rounds| == 0 {
    } else {
      ColumnSumRange(rounds[..|rounds| - 1], a, l);
      SampleRange(rounds[|rounds| - 1][a][l]);
    }
  }

  /** Any measurement of `k` rounds reads back exactly. */
  ghost predicate NeverWraps(k: nat) {
    forall rounds: seq<seq<Word>>, a: nat, l: nat | |rounds| == k && HasCell(rounds, a, l) ::
      Signed(ColumnSum(rounds, a, l) % LANE) == ColumnSum(rounds, a, l)
  }

  function LowestRounds(k: nat): (rounds: seq<seq<Word>>) { seq(k, _ => [[0x8000]]) }

  lemma {:induction false} LowestSum(k: nat)
    ensures HasCell(LowestRounds(k), 0, 0) && ColumnSum(LowestRounds(k), 0, 0) == -2048 * k
  {
    if k == 0 {
    } else {
      LowestSum(k - 1);
      assert LowestRounds(k)[..k - 1] == LowestRounds(k - 1);
      assert Sample(0x8000) == -2048;
    }
  }

  /** Sixteen rounds is exactly what sixteen bits can hold of twelve-bit samples. */
  lemma ExactUpToSixteen(k: nat)
    ensures NeverWraps(k) <==> k <= 16
  {
    if k <= 16 {
      forall rounds: seq<seq<Word>>, a: nat, l: nat | |rounds| == k && HasCell(rounds, a, l)
        ensures Signed(ColumnSum(rounds, a, l) % LANE) == ColumnSum(rounds, a, l)
      {
        ColumnSumRange(rounds, a, l);
      }
    } else {
      LowestSum(k);
      var rounds := LowestRounds(k);
      assert Signed(ColumnSum(rounds, 0, 0) % LANE) >= -0x8000 > ColumnSum(rounds, 0, 0);
    }
  }

  // ---------------------------------------------------------------- progress

  /** Start, trigger and data all present in every cycle. */
  ghost predicate Driving(ins: seq<Input>) {
    forall k :: 0 <= k < |ins| ==> ins[k].start && ins[k].trig && ins[k].tvalid
  }

  lemma {:induction false} RunAppend(g: Config, s: Scope, x: seq<Input>, y: seq<Input>)
    requires Good(g) && Sized(g, s) && Fits(g, x) && Fits(g, y)
    ensures Fits(g, x + y) && Run(g, s, x + y) == Run(g, Run(g, s, x), y)
    decreases |x|
  {
    if |x| == 0 {
      assert x + y == y;
    } else {
      RunAppend(g, Step(g, s, x[0]), x[1..], y);
      assert (x + y)[1..] == x[1..] + y;
    }
  }

  /** The state a round ends in. */
  ghost predicate RoundDone(g: Config, s: Scope, avg: nat)
    requires Good(g) && Sized(g, s)
  {
    if avg == Rounds(g) - 1 then s.phase == Finish else s.phase == WaitTrig && s.avg == avg + 1
  }

  lemma {:induction false} RoundRuns(g: Config, s: Scope, ins: seq<Input>)
    requires Good(g) && Sized(g, s) && Fits(g, ins) && Driving(ins)
    requires s.phase == AvgScope && s.addra < g.words && s.avg < Rounds(g) && |ins| == g.words - s.addra
    ensures RoundDone(g, Run(g, s, ins), s.avg)
    ensures Run(g, s, ins).addra == 0
    decreases |ins|
  {
    var s1 := Step(g, s, ins[0]);
    if s.addra == g.words - 1 {
      assert ins[1..] == [];
    } else {
      RoundRuns(g, s1, ins[1..]);
    }
  }

  lemma TriggerRuns(g: Config, s: Scope, ins: seq<Input>)
    requires Good(g) && Sized(g, s) && Fits(g, ins) && Driving(ins)
    requires s.phase == WaitTrig && s.addra == 0 && s.avg < Rounds(g) && |ins| == g.words + 2
    ensures RoundDone(g, Run(g, s, ins), s.avg) && Run(g, s, ins).addra == 0
  {
    var s1 := Step(g, s, ins[0]);
    var s2 := Step(g, s1, ins[1..][0]);
    assert ins[1..][1..] == ins[2..];
    RoundRuns(g, s2, ins[2..]);
  }

  lemma {:induction false} RoundsRun(g: Config, s: Scope, ins: seq<Input>, k: nat)
    requires Good(g) && Sized(g, s) && Fits(g, ins) && Driving(ins)
    requires s.phase == WaitTrig && s.addra == 0 && k >= 1 && s.avg + k == Rounds(g)
    requires |ins| == k * (g.words + 2)
    ensures Run(g, s, ins).phase == Finish
    decreases k
  {
    var n := g.words + 2;
    MulDistributes(k, 1, n);
    MulMonotone(1, k, n);
    var (x, y) := (ins[..n], ins[n..]);
    assert ins == x + y;
    TriggerRuns(g, s, x);
    RunAppend(g, s, x, y);
    if k == 1 {
      assert y == [];
    } else {
      RoundsRun(g, Run(g, s, x), y, k - 1);
    }
  }

  /** With triggers and data always at hand a measurement takes two cycles per
      trigger, one per word, and one to start. */
  lemma MeasurementCompletes(g: Config, s: Scope, ins: seq<Input>)
    requires PowerUp(g, s) && Fits(g, ins) && Driving(ins)
    requires |ins| == 1 + Rounds(g) * (g.words + 2)
    ensures Run(g, s, ins).phase == Finish
  {
    RoundsRun(g, Step(g, s, ins[0]), ins[1..], Rounds(g));
  }

  lemma {:induction false} ZeroingRuns(g: Config, s: Scope, ins: seq<Input>)
    requires Good(g) && Sized(g, s) && Fits(g, ins)
    requires s.phase == WrZeros && s.addra < g.words && |ins| == g.words - s.addra
    ensures Run(g, s, ins).phase == Idle
    decreases |ins|
  {
    if s.addra < g.words - 1 {
      ZeroingRuns(g, Step(g, s, ins[0]), ins[1..]);
    } else {
      assert ins[1..] == [];
    }
  }

  // ------------------------------------------------------- the entity itself

  // ---------------------------------------------------- triggers and progress

  /** How many triggers have started a round since the scope last left idle. */
  function Trigger(s: Scope, n: nat, i: Input): (n': nat) {
    if s.phase == Idle then 0 else if s.phase == WaitTrig && i.trig then n + 1 else n
  }

  function Triggers(g: Config, s: Scope, n: nat, ins: seq<Input>): (n': nat)
    requires Good(g) && Sized(g, s) && Fits(g, ins)
    decreases |ins|
  {
    if |ins| == 0 then n else Triggers(g, Step(g, s, ins[0]), Trigger(s, n, ins[0]), ins[1..])
  }

  /** Every round, the one under way included, has had its trigger. */
  ghost predicate RoundsTriggered(s: Scope, h: History, n: nat) {
    match s.phase
    case WaitTrig => |h.rounds| == n
    case EnTdpb => |h.rounds| + 1 == n
    case AvgScope => |h.rounds| + 1 == n
    case Finish => |h.rounds| == n
    case _ => true
  }

  lemma TriggerStep(g: Config, s: Scope, h: History, n: nat, i: Input)
    requires Inv(g, s, h) && |i.tdata| == g.ratio && RoundsTriggered(s, h, n)
    ensures RoundsTriggered(Step(g, s, i), Record(g, s, h, i), Trigger(s, n, i))
  {
  }

  lemma {:induction false} RunTriggered(g: Config, s: Scope, h: History, n: nat, ins: seq<Input>)
    requires Inv(g, s, h) && Fits(g, ins) && RoundsTriggered(s, h, n)
    ensures RoundsTriggered(Run(g, s, ins), RecordRun(g, s, h, ins), Triggers(g, s, n, ins))
    decreases |ins|
  {
    if |ins| == 0 {
    } else {
      StepInv(g, s, h, ins[0]);
      TriggerStep(g, s, h, n, ins[0]);
      RunTriggered(g, Step(g, s, ins[0]), Record(g, s, h, ins[0]), Trigger(s, n, ins[0]), ins[1..]);
    }
  }

  /** Over every run a round is measured for each trigger seen while waiting for one,
      and for nothing else. */
  lemma RoundsAreTriggered(g: Config, s: Scope, ins: seq<Input>)
    requires PowerUp(g, s) && Fits(g, ins)
    ensures RoundsTriggered(Run(g, s, ins), RecordRun(g, s, History([], []), ins), Triggers(g, s, 0, ins))
  {
    PowerUpInv(g, s);
    RunTriggered(g, s, History([], []), 0, ins);
  }

  /** Without a trigger nothing is measured: the scope waits and both RAMs stay clear. */
  lemma {:induction false} UntriggeredWaits(g: Config, s: Scope, ins: seq<Input>)
    requires Good(g) && Sized(g, s) && Fits(g, ins) && (forall k :: 0 <= k < |ins| ==> !ins[k].trig)
    requires s.phase == Idle || s.phase == WaitTrig
    ensures var s' := Run(g, s, ins);
      (s'.phase == Idle || s'.phase == WaitTrig) && s'.ram == s.ram && s'.narrow == s.narrow
    ensures s.phase == WaitTrig ==> Run(g, s, ins).phase == WaitTrig
    decreases |ins|
  {
    if |ins| == 0 {
    } else {
      UntriggeredWaits(g, Step(g, s, ins[0]), ins[1..]);
    }
  }

  /** Without a start it stays idle. */
  lemma {:induction false} UnstartedStaysIdle(g: Config, s: Scope, ins: seq<Input>)
    requires Good(g) && Sized(g, s) && Fits(g, ins) && (forall k :: 0 <= k < |ins| ==> !ins[k].start)
    requires s.phase == Idle
    ensures Run(g, s, ins).phase == Idle && Run(g, s, ins).ram == s.ram
    decreases |ins|
  {
    if |ins| == 0 {
    } else {
      UnstartedStaysIdle(g, Step(g, s, ins[0]), ins[1..]);
    }
  }

  /** What each measuring state waits for: a trigger, then data. */
  predicate Useful(s: Scope, i: Input) {
    match s.phase
    case WaitTrig => i.trig
    case EnTdpb => i.tvalid
    case AvgScope => i.tvalid
    case _ => false
  }

  /** How many useful cycles a run had. */
  function UsefulCycles(g: Config, s: Scope, ins: seq<Input>): (n: nat)
    requires Good(g) && Sized(g, s) && Fits(g, ins)
    decreases |ins|
  {
    if |ins| == 0 then 0
    else (if Useful(s, ins[0]) then 1 else 0) + UsefulCycles(g, Step(g, s, ins[0]), ins[1..])
  }

  /** How far a measurement is, in useful cycles. */
  function Progress(g: Config, s: Scope): (n: int) {
    var round := s.avg * (g.words + 2);
    match s.phase
    case EnTdpb => round + 1
    case AvgScope => round + 2 + s.addra
    case Finish => Rounds(g) * (g.words + 2)
    case _ => round
  }

  ghost predicate UnderWay(g: Config, s: Scope) {
    match s.phase
    case WaitTrig => s.avg < Rounds(g) && s.addra == 0
    case EnTdpb => s.avg < Rounds(g) && s.addra == 0
    case AvgScope => s.avg < Rounds(g) && s.addra < g.words
    case Finish => true
    case _ => false
  }

  /** A useful cycle takes a measurement exactly one further; any other, however long
      it lasts, changes nothing. */
  lemma ProgressStep(g: Config, s: Scope, i: Input)
    requires Good(g) && Sized(g, s) && |i.tdata| == g.ratio && UnderWay(g, s) && !(s.phase == Finish && i.restart)
    ensures UnderWay(g, Step(g, s, i))
    ensures Progress(g, Step(g, s, i)) == Progress(g, s) + if Useful(s, i) then 1 else 0
    ensures !Useful(s, i) ==> Step(g, s, i) == s
  {
    MulDistributes(s.avg, 1, g.words + 2);
    if s.avg + 1 < LANE {
      SmallMod(s.avg + 1, LANE);
    }
  }

  lemma SmallMod(x: nat, m: nat)
    requires x < m
    ensures x % m == x
  {
    DivModUnique(x, m, 0, x);
  }

  /** No restart over a run. */
  ghost predicate Unrestarted(ins: seq<Input>) { forall k :: 0 <= k < |ins| ==> !ins[k].restart }

  lemma {:induction false} RunProgress(g: Config, s: Scope, ins: seq<Input>)
    requires Good(g) && Sized(g, s) && Fits(g, ins) && UnderWay(g, s) && Unrestarted(ins)
    ensures UnderWay(g, Run(g, s, ins))
    ensures Progress(g, Run(g, s, ins)) == Progress(g, s) + UsefulCycles(g, s, ins)
    decreases |ins|
  {
    if |ins| == 0 {
    } else {
      ProgressStep(g, s, ins[0]);
      RunProgress(g, Step(g, s, ins[0]), ins[1..]);
    }
  }

  lemma ProgressIsPartial(g: Config, s: Scope)
    requires Good(g) && UnderWay(g, s)
    ensures s.phase == Finish <==> Progress(g, s) >= Rounds(g) * (g.words + 2)
  {
    if s.phase != Finish {
      MulMonotone(s.avg + 1, Rounds(g), g.words + 2);
      MulDistributes(s.avg, 1, g.words + 2);
    }
  }

  /** For every pattern of triggers and valid words: a measurement is finished if and
      only if it has had all its useful cycles, one trigger, one word ahead and one
      cycle per word for each round. */
  lemma FinishedWhenServed(g: Config, s: Scope, ins: seq<Input>)
    requires Good(g) && Sized(g, s) && Fits(g, ins) && Unrestarted(ins)
    requires s.phase == WaitTrig && s.addra == 0 && s.avg == 0
    ensures Run(g, s, ins).phase == Finish <==> UsefulCycles(g, s, ins) >= Rounds(g) * (g.words + 2)
  {
    RunProgress(g, s, ins);
    ProgressIsPartial(g, Run(g, s, ins));
  }

  /** A sample is the upper twelve bits of its lane, read as a signed number: sixteen
      times the sample is the signed lane less its low four bits. */
  lemma SampleIsUpperBits(lane: nat)
    requires lane < LANE
    ensures 16 * Sample(lane) == Signed(lane) - lane % 16
  {
    var x := lane / 16;
    assert x < 4096;
    SmallMod(x, 4096);
  }

  /** The scope with both RAMs updated in place. */
  class ScopeCore {
    const g: Config
    var phase: Phase
    var addra: nat
    var addrb: nat
    var avg: nat
    const ram: array<Word>
    var dob: Word
    const narrow: array<nat>

    ghost function View(): (s: Scope)
      reads this, ram, narrow
    {
      Scope(phase, addra, addrb, avg, ram[..], dob, narrow[..])
    }

    ghost predicate Wf()
      reads this, ram, narrow
    {
      Good(g) && Sized(g, View())
    }

    constructor (g: Config, ram: array<Word>, narrow: array<nat>)
      requires Good(g) && ram.Length == g.depth && narrow.Length == g.depth * g.ratio
      requires forall a :: 0 <= a < ram.Length ==> ram[a] == Zeros(g.ratio)
      requires forall n :: 0 <= n < narrow.Length ==> narrow[n] == 0
      ensures Wf() && PowerUp(g, View())
      ensures this.g == g && this.ram == ram && this.narrow == narrow
    {
      this.g, this.ram, this.narrow := g, ram, narrow;
      phase, addra, addrb, avg, dob := Idle, 0, 0, 0, Zeros(g.ratio);
    }

    /** The lane loop of the measuring state. */
    method AddLanes(tdata: Word) returns (dia: Word)
      requires Wf() && |tdata| == g.ratio
      ensures dia == Accumulate(dob, tdata)
    {
      dia := [];
      for l := 0 to g.ratio
        invariant |dia| == l
        invariant forall j :: 0 <= j < l ==> dia[j] == Accumulate(dob, tdata)[j]
      {
        dia := dia + [(dob[l] + Sample(tdata[l])) % LANE];
      }
    }

    /** The write ports of both RAMs; the narrow one loops over its slots. */
    method WriteBoth(dia: Word)
      requires Wf() && |dia| == g.ratio
      modifies ram, narrow
      ensures ram[..] == old(ram[..])[addra := dia]
      ensures addra * g.ratio + g.ratio <= narrow.Length
      ensures narrow[..] == Overwrite(old(narrow[..]), addra * g.ratio, dia)
    {
      ram[addra] := dia;
      SlotsFit(addra, g.depth, g.ratio);
      var at := addra * g.ratio;
      for l := 0 to g.ratio
        invariant ram[..] == old(ram[..])[addra := dia]
        invariant narrow[..at] == old(narrow[..at]) && narrow[at + l..] == old(narrow[at + l..])
        invariant forall j :: 0 <= j < l ==> narrow[at + j] == dia[j]
      {
        narrow[at + l] := dia[l];
      }
      assert narrow[at..at + g.ratio] == dia;
      assert narrow[..] == narrow[..at] + narrow[at..at + g.ratio] + narrow[at + g.ratio..];
    }

    /** One sample word in the measuring state. */
    method Measure(i: Input)
      requires Wf() && |i.tdata| == g.ratio && phase == AvgScope && i.tvalid
      modifies this, ram, narrow
      ensures Wf() && View() == Step(g, old(View()), i)
    {
      var ahead := ram[addrb];
      var dia := AddLanes(i.tdata);
      WriteBoth(dia);
      dob := ahead;
      if addra == g.words - 1 {
        phase := if avg == Rounds(g) - 1 then Finish else WaitTrig;
        addra, addrb, avg := 0, 0, (avg + 1) % LANE;
      } else {
        addra, addrb := Next(addra, g.depth), Next(addrb, g.depth);
      }
    }

    method Tick(i: Input)
      requires Wf() && |i.tdata| == g.ratio
      modifies this, ram, narrow
      ensures Wf() && View() == Step(g, old(View()), i)
    {
      match phase {
        case Idle =>
          dob, addra, addrb, avg := Zeros(g.ratio), 0, 0, 0;
          if i.start {
            phase := WaitTrig;
          }
        case WaitTrig =>
          if i.trig {
            phase := EnTdpb;
          }
        case EnTdpb =>
          if i.tvalid {
            dob, addrb, phase := ram[addrb], Next(addrb, g.depth), AvgScope;
          }
        case AvgScope =>
          if i.tvalid {
            Measure(i);
          }
        case Finish =>
          if i.restart {
            phase := WrZeros;
          }
        case WrZeros =>
          WriteBoth(Zeros(g.ratio));
          phase := if addra == g.words - 1 then Idle else WrZeros;
          addra := Next(addra, g.depth);
      }
    }
  }
}
