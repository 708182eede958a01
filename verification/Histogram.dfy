/** The histogram core: a clear pass over a block RAM, then one
    read-increment-write pass per accepted sample. */
module Histogram {
  import opened Arith

  datatype Phase = Idle | WriteZeros | ReadAddr | Delay1 | IncData | Delay2

  /** The core's registers and a block RAM of read latency two: `stage` is the
      RAM's inner register and `rddata` its output register. */
  datatype State = State(phase: Phase, addr: nat, data: nat, tready: bool, wren: bool,
                         mem: seq<nat>, stage: nat, rddata: nat)

  /** What the core sees in one cycle.  `onWrite` is whatever the RAM puts on its
      read port in a cycle that writes; nothing may depend on it. */
  datatype Input = Input(valid: bool, tdata: nat, onWrite: nat)

  /** Widths: 2^aw bins of dw bits. */
  datatype Widths = Widths(aw: nat, dw: nat) {
    function Bins(): (n: nat)
      ensures n >= 1
    {
      Pow2(aw)
    }

    /** The all-ones count. */
    function Top(): (n: nat) { Pow2(dw) - 1 }

    /** The low address bits of the stream word. */
    function Bin(tdata: nat): (b: nat)
      ensures b < Bins()
    {
      tdata % Bins()
    }
  }

  ghost predicate Sized(w: Widths, s: State) { |s.mem| == w.Bins() && s.addr < w.Bins() }

  /** After reset; the RAM holds anything. */
  ghost predicate Reset(w: Widths, s: State) {
    Sized(w, s) && s.phase == Idle && s.addr == 0 && s.data == 0 && !s.tready && !s.wren
  }

  function PortAddress(w: Widths, s: State, i: Input): (a: nat)
    requires Sized(w, s)
    ensures a < w.Bins()
  {
    if s.wren then s.addr else w.Bin(i.tdata)
  }

  /** One rising clock edge of the core and its RAM. */
  function Step(w: Widths, s: State, i: Input): (s': State)
    requires Sized(w, s)
    ensures Sized(w, s')
  {
    var a := PortAddress(w, s, i);
    var ram := s.(mem := if s.wren then s.mem[a := s.data] else s.mem,
                  stage := if s.wren then i.onWrite else s.mem[a],
                  rddata := s.stage);
    match s.phase
    case Idle => ram.(addr := 0, data := 0, wren := true, phase := WriteZeros)
    case WriteZeros =>
      if s.addr == w.Bins() - 1
      then ram.(addr := 0, tready := true, wren := false, phase := ReadAddr)
      else ram.(addr := s.addr + 1)
    case ReadAddr =>
      if i.valid then ram.(addr := w.Bin(i.tdata), tready := false, phase := Delay1) else ram
    case Delay1 => ram.(phase := IncData)
    case IncData =>
      ram.(data := if s.rddata == w.Top() then 0 else s.rddata + 1,
           wren := s.rddata != w.Top(), phase := Delay2)
    case Delay2 => ram.(tready := true, wren := false, phase := ReadAddr)
  }

  function Run(w: Widths, s: State, ins: seq<Input>): (s': State)
    requires Sized(w, s)
    ensures Sized(w, s')
  {
    if |ins| == 0 then s else Step(w, Run(w, s, ins[..|ins| - 1]), ins[|ins| - 1])
  }

  /** The bins of the samples taken by the stream handshake, oldest first. */
  function Samples(w: Widths, s: State, ins: seq<Input>): (bins: seq<nat>)
    requires Sized(w, s)
  {
    if |ins| == 0 then []
    else
      var (before, i) := (ins[..|ins| - 1], ins[|ins| - 1]);
      Samples(w, s, before) + if Run(w, s, before).tready && i.valid then [w.Bin(i.tdata)] else []
  }

  /** The reference: a saturating count of how often a bin was sampled. */
  ghost function Expected(w: Widths, samples: seq<nat>, bin: nat): (n: nat) {
    var count := multiset(samples)[bin];
    if count < w.Top() then count else w.Top()
  }

  ghost predicate Agrees(w: Widths, mem: seq<nat>, samples: seq<nat>) {
    forall b :: 0 <= b < |mem| ==> mem[b] == Expected(w, samples, b)
  }

  /** While a sample is in flight the RAM agrees with the samples before it. */
  ghost predicate InFlight(w: Widths, s: State, samples: seq<nat>) {
    && !s.tready && |samples| > 0 && samples[|samples| - 1] == s.addr
    && Agrees(w, s.mem, samples[..|samples| - 1])
  }

  ghost predicate Inv(w: Widths, s: State, samples: seq<nat>) {
    && Sized(w, s)
    && match s.phase
       case Idle => !s.tready && !s.wren && samples == []
       case WriteZeros =>
         !s.tready && s.wren && s.data == 0 && samples == [] && forall b :: 0 <= b < s.addr ==> s.mem[b] == 0
       case ReadAddr => s.tready && !s.wren && Agrees(w, s.mem, samples)
       case Delay1 => InFlight(w, s, samples) && !s.wren && s.stage == s.mem[s.addr]
       case IncData => InFlight(w, s, samples) && !s.wren && s.rddata == s.mem[s.addr]
       case Delay2 =>
         && InFlight(w, s, samples) && s.wren == (s.mem[s.addr] != w.Top())
         && (s.wren ==> s.data == s.mem[s.addr] + 1)
  }

  /** One more sample raises its own bin, up to the top, and no other. */
  lemma ExpectedAppend(w: Widths, samples: seq<nat>, last: nat, bin: nat)
    ensures var before := Expected(w, samples, bin);
      Expected(w, samples + [last], bin) == if bin == last && before < w.Top() then before + 1 else before
  {
    assert multiset(samples + [last]) == multiset(samples) + multiset{last};
  }

  /** The write that ends a pass brings the sampled bin up to date. */
  lemma WriteBack(w: Widths, s: State, init: seq<nat>, i: Input)
    requires Sized(w, s) && s.phase == Delay2 && Agrees(w, s.mem, init)
    requires s.wren == (s.mem[s.addr] != w.Top()) && (s.wren ==> s.data == s.mem[s.addr] + 1)
    ensures Agrees(w, Step(w, s, i).mem, init + [s.addr])
  {
    var mem' := Step(w, s, i).mem;
    forall b | 0 <= b < |mem'| ensures mem'[b] == Expected(w, init + [s.addr], b) {
      ExpectedAppend(w, init, s.addr, b);
    }
  }

  lemma TakeSample(w: Widths, s: State, samples: seq<nat>, i: Input)
    requires Inv(w, s, samples) && s.phase == ReadAddr && i.valid
    ensures Inv(w, Step(w, s, i), samples + [w.Bin(i.tdata)])
  {
    assert (samples + [w.Bin(i.tdata)])[..|samples|] == samples;
  }

  lemma FinishSample(w: Widths, s: State, samples: seq<nat>, i: Input)
    requires Inv(w, s, samples) && s.phase == Delay2
    ensures Inv(w, Step(w, s, i), samples)
  {
    var init := samples[..|samples| - 1];
    assert samples == init + [s.addr];
    WriteBack(w, s, init, i);
  }

  lemma StepInv(w: Widths, s: State, samples: seq<nat>, i: Input)
    requires Inv(w, s, samples)
    ensures Inv(w, Step(w, s, i), samples + if s.tready && i.valid then [w.Bin(i.tdata)] else [])
  {
    if s.phase == ReadAddr && i.valid {
      TakeSample(w, s, samples, i);
    } else {
      assert samples + [] == samples;
      if s.phase == Delay2 {
        FinishSample(w, s, samples, i);
      }
    }
  }

  lemma {:induction false} RunInv(w: Widths, s: State, ins: seq<Input>)
    requires Reset(w, s)
    ensures Inv(w, Run(w, s, ins), Samples(w, s, ins))
  {
    if |ins| == 0 {
    } else {
      var before := ins[..|ins| - 1];
      RunInv(w, s, before);
      StepInv(w, Run(w, s, before), Samples(w, s, before), ins[|ins| - 1]);
    }
  }

  /** For every input pattern, whenever the core is ready for a sample each bin
      holds the smaller of its sample count and the all-ones value. */
  lemma HistogramAgrees(w: Widths, s: State, ins: seq<Input>, bin: nat)
    requires Reset(w, s) && bin < w.Bins() && Run(w, s, ins).tready
    ensures Run(w, s, ins).mem[bin] == Expected(w, Samples(w, s, ins), bin)
  {
    RunInv(w, s, ins);
  }

  /** The stream words taken, oldest first. */
  function Taken(w: Widths, s: State, ins: seq<Input>): (words: seq<nat>)
    requires Sized(w, s)
  {
    if |ins| == 0 then []
    else
      var (before, i) := (ins[..|ins| - 1], ins[|ins| - 1]);
      Taken(w, s, before) + if Run(w, s, before).tready && i.valid then [i.tdata] else []
  }

  /** How many words have `bin` in their low address bits. */
  function WordsFor(words: seq<nat>, bins: nat, bin: nat): (n: nat)
    requires bins > 0
  {
    if |words| == 0 then 0
    else WordsFor(words[..|words| - 1], bins, bin) + if words[|words| - 1] % bins == bin then 1 else 0
  }

  lemma {:induction false} WordsAreSamples(w: Widths, s: State, ins: seq<Input>, bin: nat)
    requires Sized(w, s)
    ensures multiset(Samples(w, s, ins))[bin] == WordsFor(Taken(w, s, ins), Pow2(w.aw), bin)
  {
    if |ins| == 0 {
    } else {
      var (before, i) := (ins[..|ins| - 1], ins[|ins| - 1]);
      WordsAreSamples(w, s, before, bin);
      var (x, y) := (Samples(w, s, before), Taken(w, s, before));
      if Run(w, s, before).tready && i.valid {
        assert (y + [i.tdata])[..|y|] == y;
      } else {
        assert x + [] == x && y + [] == y;
      }
    }
  }

  /** Said of the stream: each bin holds the number of words taken whose low address
      bits name it, or the all-ones count if there were more. */
  lemma CountsWords(w: Widths, s: State, ins: seq<Input>, bin: nat)
    requires Reset(w, s) && bin < Pow2(w.aw) && Run(w, s, ins).tready
    ensures var n := WordsFor(Taken(w, s, ins), Pow2(w.aw), bin);
      Run(w, s, ins).mem[bin] == if n < Pow2(w.dw) - 1 then n else Pow2(w.dw) - 1
  {
    HistogramAgrees(w, s, ins, bin);
    WordsAreSamples(w, s, ins, bin);
  }

  lemma RunAppend(w: Widths, s: State, ins: seq<Input>, i: Input)
    requires Sized(w, s)
    ensures Run(w, s, ins + [i]) == Step(w, Run(w, s, ins), i)
  {
    assert (ins + [i])[..|ins|] == ins;
  }

  /** The clear pass takes one cycle per bin plus one, whatever the inputs. */
  lemma {:induction false} ClearPass(w: Widths, s: State, ins: seq<Input>)
    requires Reset(w, s) && |ins| <= w.Bins() + 1
    ensures Run(w, s, ins).phase == if |ins| == 0 then Idle else if |ins| <= w.Bins() then WriteZeros else ReadAddr
    ensures 0 < |ins| <= w.Bins() ==> Run(w, s, ins).addr == |ins| - 1
    ensures Samples(w, s, ins) == []
  {
    if |ins| == 0 {
    } else {
      ClearPass(w, s, ins[..|ins| - 1]);
      RunInv(w, s, ins[..|ins| - 1]);
    }
  }

  /** After a sample is taken the core is ready again exactly four edges later. */
  lemma FourCyclesPerSample(w: Widths, s: State, i: Input, i1: Input, i2: Input, i3: Input)
    requires Sized(w, s) && s.phase == ReadAddr && s.tready && i.valid
    ensures var s1 := Step(w, s, i);
      var s2 := Step(w, s1, i1);
      var s3 := Step(w, s2, i2);
      var s4 := Step(w, s3, i3);
      !s1.tready && !s2.tready && !s3.tready && s4.tready && s4.phase == ReadAddr
  {
  }

  /** The core with its RAM updated in place. */
  class Core {
    const w: Widths
    var phase: Phase
    var addr: nat
    var data: nat
    var tready: bool
    var wren: bool
    const mem: array<nat>
    var stage: nat
    var rddata: nat

    ghost function View(): (s: State)
      reads this, mem
    {
      State(phase, addr, data, tready, wren, mem[..], stage, rddata)
    }

    constructor (w: Widths, mem: array<nat>)
      requires mem.Length == w.Bins()
      ensures this.w == w && this.mem == mem && Reset(w, View())
    {
      this.w, this.mem := w, mem;
      phase, addr, data, tready, wren, stage, rddata := Idle, 0, 0, false, false, 0, 0;
    }

    /** The RAM's side of a clock edge. */
    method RamEdge(address: nat, onWrite: nat)
      requires address < mem.Length
      modifies mem, `stage, `rddata
      ensures mem[..] == if wren then old(mem[..])[address := data] else old(mem[..])
      ensures stage == (if wren then onWrite else old(mem[address])) && rddata == old(stage)
    {
      rddata := stage;
      if wren {
        mem[address], stage := data, onWrite;
      } else {
        stage := mem[address];
      }
    }

    method Tick(i: Input)
      requires Sized(w, View())
      modifies this, mem
      ensures View() == Step(w, old(View()), i)
    {
      var count := rddata;
      RamEdge(if wren then addr else w.Bin(i.tdata), i.onWrite);
      match phase {
        case Idle =>
          addr, data, wren, phase := 0, 0, true, WriteZeros;
        case WriteZeros =>
          if addr == w.Bins() - 1 {
            addr, tready, wren, phase := 0, true, false, ReadAddr;
          } else {
            addr := addr + 1;
          }
        case ReadAddr =>
          if i.valid {
            addr, tready, phase := w.Bin(i.tdata), false, Delay1;
          }
        case Delay1 =>
          phase := IncData;
        case IncData =>
          data := if count == w.Top() then 0 else count + 1;
          wren, phase := count != w.Top(), Delay2;
        case Delay2 =>
          tready, wren, phase := true, false, ReadAddr;
      }
    }
  }
}
