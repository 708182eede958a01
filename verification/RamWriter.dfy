/** The AXI RAM writer: a FIFO drained in bursts of sixteen 64-bit beats into a
    ring of 2^ADDR_WIDTH words.  Handshakes follow section A3.2.1 of ARM IHI 0022
    and bursts its section A3.4.1. */
module RamWriter {
  import opened Arith

  const ADDRESS_SPACE: nat := 0x1_0000_0000

  /** `words` is the ring size 2^ADDR_WIDTH, `ids` is 2^AXI_ID_WIDTH and `base` is
      the configured byte address of the ring. */
  datatype Config = Config(words: nat, ids: nat, base: nat)

  ghost predicate Good(g: Config) { g.words > 0 && g.words % 16 == 0 && g.ids > 0 }

  lemma SixteenTimes(x: nat)
    ensures (x * 16) % 16 == 0
  {
    DivModUnique(x * 16, 16, x, 0);
  }

  /** Every ring of at least sixteen words is a whole number of bursts. */
  lemma RingsAreGood(addrWidth: nat, idWidth: nat, base: nat)
    requires addrWidth >= 4
    ensures Good(Config(Pow2(addrWidth), Pow2(idWidth), base))
  {
    assert Pow2(4) == 16;
    Pow2Adds(addrWidth - 4, 4);
    SixteenTimes(Pow2(addrWidth - 4));
  }

  /** The writer's registers and the contents of its FIFO. */
  datatype Writer<T> = Writer(awvalid: bool, wvalid: bool, addr: nat, wid: nat, fifo: seq<T>)

  datatype Input<T> = Input(tvalid: bool, tdata: T, full: bool, almostEmpty: bool, awready: bool, wready: bool)

  /** One beat as the memory sees it. */
  datatype Beat<T> = Beat(address: nat, id: nat, data: T, last: bool)

  /** One accepted burst address. */
  datatype Burst = Burst(address: nat, id: nat)

  /** The memory side: it latches each burst address it takes and steps by eight
      bytes per beat. */
  datatype Slave<T> = Slave(base: nat, index: nat, bursts: seq<Burst>, beats: seq<Beat<T>>)

  /** The writer, the memory side, and every stream word taken so far. */
  datatype System<T> = System(core: Writer<T>, slave: Slave<T>, taken: seq<T>)

  function AwAddr<T>(g: Config, w: Writer<T>): (a: nat) { (g.base + 8 * w.addr) % ADDRESS_SPACE }

  predicate WLast<T>(w: Writer<T>) { w.addr % 16 == 15 }

  predicate ReadEnable<T>(w: Writer<T>, i: Input<T>) { i.wready && w.wvalid }

  /** One clock edge of the writer. */
  function Step<T>(g: Config, w: Writer<T>, i: Input<T>): (w': Writer<T>) {
    var start := !i.almostEmpty && !w.awvalid && !w.wvalid;
    var popped := if ReadEnable(w, i) && |w.fifo| > 0 then w.fifo[1..] else w.fifo;
    Writer(
      if start || (i.wready && WLast(w) && !i.almostEmpty) then true
      else if i.awready && w.awvalid then false else w.awvalid,
      if start then true
      else if i.wready && WLast(w) && i.almostEmpty then false else w.wvalid,
      if ReadEnable(w, i) then Next(w.addr, g.words) else w.addr,
      if i.wready && WLast(w) then Next(w.wid, g.ids) else w.wid,
      if !i.full && i.tvalid then popped + [i.tdata] else popped)
  }

  /** The same edge seen by the memory. */
  function SlaveStep<T>(g: Config, w: Writer<T>, m: Slave<T>, i: Input<T>): (m': Slave<T>) {
    var takesAddress := w.awvalid && i.awready;
    var a := if takesAddress then m.(base := AwAddr(g, w), bursts := m.bursts + [Burst(AwAddr(g, w), w.wid)])
             else m;
    if ReadEnable(w, i) && |w.fifo| > 0
    then a.(index := Next(m.index, 16),
            beats := m.beats + [Beat((a.base + 8 * m.index) % ADDRESS_SPACE, w.wid, w.fifo[0], WLast(w))])
    else a
  }

  function SystemStep<T>(g: Config, s: System<T>, i: Input<T>): (s': System<T>) {
    System(Step(g, s.core, i), SlaveStep(g, s.core, s.slave, i),
           if !i.full && i.tvalid then s.taken + [i.tdata] else s.taken)
  }

  function Run<T>(g: Config, s: System<T>, ins: seq<Input<T>>): (s': System<T>) {
    if |ins| == 0 then s else SystemStep(g, Run(g, s, ins[..|ins| - 1]), ins[|ins| - 1])
  }

  /** What the surroundings promise: a low ALMOSTEMPTY means at least seventeen
      words are queued, and no data beat is taken while an address is pending
      unless the address is taken in the same cycle. */
  predicate Promised<T>(w: Writer<T>, i: Input<T>) {
    && (!i.almostEmpty ==> |w.fifo| >= 17)
    && (w.awvalid && w.wvalid && i.wready ==> i.awready)
  }

  ghost predicate PromisedRun<T>(g: Config, s: System<T>, ins: seq<Input<T>>) {
    |ins| != 0 ==>
      var before := ins[..|ins| - 1];
      PromisedRun(g, s, before) && Promised(Run(g, s, before).core, ins[|ins| - 1])
  }

  function Reset<T>(): (s: System<T>) {
    System(Writer(false, false, 0, 0, []), Slave(0, 0, [], []), [])
  }

  /** Where stream word `k` belongs. */
  function Target(g: Config, k: nat): (a: nat)
    requires g.words > 0
  {
    (g.base + 8 * (k % g.words)) % ADDRESS_SPACE
  }

  // --------------------------------------------------------------- invariant

  /** Control: an address is offered only at a burst boundary with data behind it,
      the idle writer sits at a boundary, and a burst under way has its remaining
      beats queued. */
  ghost predicate ControlInv<T>(g: Config, w: Writer<T>) {
    && w.addr < g.words && w.wid < g.ids
    && (w.awvalid ==> w.wvalid && w.addr % 16 == 0)
    && (!w.wvalid ==> w.addr % 16 == 0)
    && (w.wvalid ==> |w.fifo| >= 16 - w.addr % 16)
  }

  /** Data: everything taken is either a beat, in order, or still queued. */
  ghost predicate QueueInv<T>(beats: nat, fifo: seq<T>, taken: seq<T>) {
    beats <= |taken| && fifo == taken[beats..]
  }

  ghost predicate BeatsInv<T>(g: Config, beats: seq<Beat<T>>, taken: seq<T>)
    requires Good(g)
  {
    |beats| <= |taken| && forall k :: 0 <= k < |beats| ==> beats[k] == ExpectedBeat(g, taken, k)
  }

  ghost function ExpectedBeat<T>(g: Config, taken: seq<T>, k: nat): (b: Beat<T>)
    requires Good(g) && k < |taken|
  {
    Beat(Target(g, k), (k / 16) % g.ids, taken[k], k % 16 == 15)
  }

  /** Bursts: one address per sixteen beats, the current one ahead of its beats. */
  ghost predicate CountersInv<T>(g: Config, w: Writer<T>, m: Slave<T>)
    requires Good(g)
  {
    var n := |m.beats|;
    && w.addr == n % g.words
    && w.wid == (n / 16) % g.ids
    && m.index == n % 16
    && |m.bursts| == n / 16 + (if w.wvalid && !w.awvalid then 1 else 0)
  }

  ghost predicate BurstListInv(g: Config, bursts: seq<Burst>)
    requires Good(g)
  {
    forall b :: 0 <= b < |bursts| ==> bursts[b] == Burst(Target(g, 16 * b), b % g.ids)
  }

  /** The beat a burst starts with. */
  function BurstStart(n: nat): (k: nat) { n - n % 16 }

  ghost predicate BaseInv<T>(g: Config, w: Writer<T>, m: Slave<T>)
    requires Good(g)
  {
    w.wvalid && !w.awvalid ==> m.base == Target(g, BurstStart(|m.beats|))
  }

  ghost predicate Inv<T>(g: Config, s: System<T>)
    requires Good(g)
  {
    && ControlInv(g, s.core)
    && QueueInv(|s.slave.beats|, s.core.fifo, s.taken)
    && BeatsInv(g, s.slave.beats, s.taken)
    && CountersInv(g, s.core, s.slave)
    && BurstListInv(g, s.slave.bursts)
    && BaseInv(g, s.core, s.slave)
  }

  lemma SixteenDivides(x: int, m: int)
    requires m > 0 && m % 16 == 0
    ensures (x % m) % 16 == x % 16
  {
    ModOfModMultiple(x, m / 16, 16);
    assert m / 16 * 16 == m;
  }

  /** A burst does not cross the end of the ring. */
  lemma RingInBurst(k: nat, i: nat, m: nat)
    requires m > 0 && m % 16 == 0 && k % 16 == 0 && i < 16
    ensures (k + i) % m == k % m + i
  {
    SixteenDivides(k, m);
    DivModUnique(k + i, m, k / m, k % m + i);
  }

  /** Inside a burst the target moves by eight bytes per word. */
  lemma TargetInBurst(g: Config, k: nat, i: nat)
    requires Good(g) && k % 16 == 0 && i < 16
    ensures Target(g, k + i) == (Target(g, k) + 8 * i) % ADDRESS_SPACE
  {
    RingInBurst(k, i, g.words);
    ModAbsorbs(g.base + 8 * (k % g.words), 8 * i, ADDRESS_SPACE);
  }

  lemma NextModSixteen(x: nat, m: nat)
    requires x < m && m % 16 == 0
    ensures Next(x, m) < m && Next(x, m) % 16 == if x % 16 == 15 then 0 else x % 16 + 1
  {
    ModSuccessor(x, 16);
  }

  lemma ControlStep<T>(g: Config, w: Writer<T>, i: Input<T>)
    requires Good(g) && ControlInv(g, w) && Promised(w, i)
    ensures ControlInv(g, Step(g, w, i))
    ensures ReadEnable(w, i) ==> |w.fifo| > 0
  {
    NextModSixteen(w.addr, g.words);
  }

  lemma QueueStep<T>(g: Config, s: System<T>, i: Input<T>)
    requires QueueInv(|s.slave.beats|, s.core.fifo, s.taken)
    ensures var s' := SystemStep(g, s, i); QueueInv(|s'.slave.beats|, s'.core.fifo, s'.taken)
  {
  }

  lemma BeatsStep<T>(g: Config, s: System<T>, i: Input<T>)
    requires Good(g) && Inv(g, s) && Promised(s.core, i)
    ensures var s' := SystemStep(g, s, i); BeatsInv(g, s'.slave.beats, s'.taken)
  {
    var (m, s') := (s.slave, SystemStep(g, s, i));
    var n := |m.beats|;
    ControlStep(g, s.core, i);
    if ReadEnable(s.core, i) {
      NewBeat(g, s, i);
      forall k | 0 <= k < n + 1 ensures s'.slave.beats[k] == ExpectedBeat(g, s'.taken, k) {
        assert k < n ==> s'.slave.beats[k] == m.beats[k];
      }
    }
  }

  /** The beat taken on this edge is the one its word calls for. */
  lemma NewBeat<T>(g: Config, s: System<T>, i: Input<T>)
    requires Good(g) && Inv(g, s) && Promised(s.core, i) && ReadEnable(s.core, i) && |s.core.fifo| > 0
    ensures var (m, m') := (s.slave, SlaveStep(g, s.core, s.slave, i));
      m'.beats == m.beats + [ExpectedBeat(g, s.taken, |m.beats|)]
  {
    NewBeatAddress(g, s, i);
    SixteenDivides(|s.slave.beats|, g.words);
  }

  /** The address a beat is counted from: the one taken now or the one latched. */
  function BaseNow<T>(g: Config, w: Writer<T>, m: Slave<T>, i: Input<T>): (a: nat) {
    if w.awvalid && i.awready then AwAddr(g, w) else m.base
  }

  lemma BaseIsBurstStart<T>(g: Config, s: System<T>, i: Input<T>)
    requires Good(g) && s.core.wvalid && (s.core.awvalid ==> i.awready)
    requires ControlInv(g, s.core) && CountersInv(g, s.core, s.slave) && BaseInv(g, s.core, s.slave)
    ensures BaseNow(g, s.core, s.slave, i) == Target(g, BurstStart(|s.slave.beats|))
  {
    SixteenDivides(|s.slave.beats|, g.words);
  }

  lemma TargetFromStart(g: Config, n: nat)
    requires Good(g)
    ensures (Target(g, BurstStart(n)) + 8 * (n % 16)) % ADDRESS_SPACE == Target(g, n)
  {
    TargetInBurst(g, BurstStart(n), n % 16);
  }

  /** The beat taken on this edge goes where its word belongs. */
  lemma NewBeatAddress<T>(g: Config, s: System<T>, i: Input<T>)
    requires Good(g) && Promised(s.core, i) && ReadEnable(s.core, i)
    requires ControlInv(g, s.core) && CountersInv(g, s.core, s.slave) && BaseInv(g, s.core, s.slave)
    ensures (BaseNow(g, s.core, s.slave, i) + 8 * s.slave.index) % ADDRESS_SPACE == Target(g, |s.slave.beats|)
  {
    BaseIsBurstStart(g, s, i);
    TargetFromStart(g, |s.slave.beats|);
  }

  lemma CounterStep(n: nat, m: nat)
    requires m > 0
    ensures Next(n % m, m) == (n + 1) % m
  {
    ModSuccessor(n, m);
  }

  lemma CountersStep<T>(g: Config, s: System<T>, i: Input<T>)
    requires Good(g) && Inv(g, s) && Promised(s.core, i)
    ensures var s' := SystemStep(g, s, i); CountersInv(g, s'.core, s'.slave)
  {
    var n := |s.slave.beats|;
    ControlStep(g, s.core, i);
    SixteenDivides(n, g.words);
    CounterStep(n, g.words);
    CounterStep(n / 16, g.ids);
    CounterStep(n, 16);
  }

  lemma BurstListStep<T>(g: Config, s: System<T>, i: Input<T>)
    requires Good(g) && Inv(g, s)
    ensures BurstListInv(g, SlaveStep(g, s.core, s.slave, i).bursts)
  {
    var (w, m, m') := (s.core, s.slave, SlaveStep(g, s.core, s.slave, i));
    var n := |m.beats|;
    if w.awvalid && i.awready {
      SixteenDivides(n, g.words);
      assert n == 16 * |m.bursts|;
      assert m'.bursts == m.bursts + [Burst(Target(g, 16 * |m.bursts|), |m.bursts| % g.ids)];
    } else {
      assert m'.bursts == m.bursts;
    }
  }

  lemma StartNext(n: nat)
    requires n % 16 != 15
    ensures BurstStart(n + 1) == BurstStart(n)
  {
  }

  lemma BaseStep<T>(g: Config, s: System<T>, i: Input<T>)
    requires Good(g) && Promised(s.core, i)
    requires ControlInv(g, s.core) && CountersInv(g, s.core, s.slave) && BaseInv(g, s.core, s.slave)
    ensures var s' := SystemStep(g, s, i); BaseInv(g, s'.core, s'.slave)
  {
    var n := |s.slave.beats|;
    SixteenDivides(n, g.words);
    if Step(g, s.core, i).wvalid && !Step(g, s.core, i).awvalid {
      BaseIsBurstStart(g, s, i);
      if n % 16 != 15 {
        StartNext(n);
      }
    }
  }

  lemma ResetInv<T>(g: Config)
    requires Good(g)
    ensures Inv<T>(g, Reset())
  {
    DivModUnique(0, g.words, 0, 0);
    DivModUnique(0, g.ids, 0, 0);
  }

  lemma StepKeepsInv<T>(g: Config, s: System<T>, i: Input<T>)
    requires Good(g) && Inv(g, s) && Promised(s.core, i)
    ensures Inv(g, SystemStep(g, s, i))
  {
    ControlStep(g, s.core, i);
    QueueStep(g, s, i);
    BeatsStep(g, s, i);
    CountersStep(g, s, i);
    BurstListStep(g, s, i);
    BaseStep(g, s, i);
  }

  lemma {:induction false} RunInv<T>(g: Config, ins: seq<Input<T>>)
    requires Good(g) && PromisedRun(g, Reset(), ins)
    ensures Inv(g, Run(g, Reset(), ins))
  {
    if |ins| == 0 {
      ResetInv<T>(g);
    } else {
      RunInv(g, ins[..|ins| - 1]);
      StepKeepsInv(g, Run(g, Reset(), ins[..|ins| - 1]), ins[|ins| - 1]);
    }
  }

  // ------------------------------------------------------------ main theorems

  /** Beat `k` carries stream word `k` to its ring position, and the words not yet
      written are exactly those still queued. */
  lemma WordsLandInOrder<T>(g: Config, ins: seq<Input<T>>)
    requires Good(g) && PromisedRun(g, Reset(), ins)
    ensures var s := Run(g, Reset(), ins);
      && |s.slave.beats| <= |s.taken|
      && s.taken[|s.slave.beats|..] == s.core.fifo
      && forall k :: 0 <= k < |s.slave.beats| ==> s.slave.beats[k] == ExpectedBeat(g, s.taken, k)
  {
    RunInv(g, ins);
  }

  /** Every burst has sixteen beats: burst `b` starts at the place of word `16 * b`,
      under the ID its beats carry, and no beat runs ahead of its burst's address
      or behind the next one. */
  lemma BurstsOfSixteen<T>(g: Config, ins: seq<Input<T>>)
    requires Good(g) && PromisedRun(g, Reset(), ins)
    ensures var m := Run(g, Reset(), ins).slave;
      && 16 * (|m.bursts| - 1) <= |m.beats| <= 16 * |m.bursts|
      && (forall b :: 0 <= b < |m.bursts| ==> m.bursts[b] == Burst(Target(g, 16 * b), b % g.ids))
      && (forall k :: 0 <= k < |m.beats| ==> (m.beats[k].last <==> k % 16 == 15))
      && (forall k :: 0 <= k < |m.beats| ==> m.beats[k].id == m.bursts[k / 16].id)
  {
    RunInv(g, ins);
    var s := Run(g, Reset(), ins);
    forall k | 0 <= k < |s.slave.beats| ensures s.slave.beats[k] == ExpectedBeat(g, s.taken, k) {}
    assert s.slave.beats != [] && |s.slave.beats| % 16 != 0 ==> s.core.wvalid && !s.core.awvalid by {
      SixteenDivides(|s.slave.beats|, g.words);
    }
  }

  /** The writer never pops an empty FIFO. */
  lemma NeverReadsEmpty<T>(g: Config, ins: seq<Input<T>>, i: Input<T>)
    requires Good(g) && PromisedRun(g, Reset(), ins) && Promised(Run(g, Reset(), ins).core, i)
    ensures ReadEnable(Run(g, Reset(), ins).core, i) ==> |Run(g, Reset(), ins).core.fifo| > 0
  {
    RunInv(g, ins);
  }

  lemma AddressMoves(g: Config, a: nat)
    ensures (g.base + 8 * (a + 1)) % ADDRESS_SPACE != (g.base + 8 * a) % ADDRESS_SPACE
  {
    CongruentAndClose(g.base + 8 * a, g.base + 8 * (a + 1), ADDRESS_SPACE);
  }

  lemma PendingStep<T>(g: Config, w: Writer<T>, i: Input<T>)
    requires Good(g) && ControlInv(g, w) && w.awvalid && !i.awready
    ensures var w' := Step(g, w, i);
      w'.awvalid && w'.wid == w.wid && w'.addr == if i.wready then w.addr + 1 else w.addr
  {
  }

  /** A pending address stays valid, and it and its ID stay put exactly when the
      memory takes no data beat before it. */
  lemma PendingAddressIsStable<T>(g: Config, ins: seq<Input<T>>, i: Input<T>)
    requires Good(g) && PromisedRun(g, Reset(), ins)
    requires var w := Run(g, Reset(), ins).core; w.awvalid && !i.awready
    ensures var w := Run(g, Reset(), ins).core;
      var w' := Step(g, w, i);
      && w'.awvalid && w'.wid == w.wid
      && (AwAddr(g, w') == AwAddr(g, w) <==> !i.wready)
  {
    RunInv(g, ins);
    var w := Run(g, Reset(), ins).core;
    PendingStep(g, w, i);
    AddressMoves(g, w.addr);
  }

  /** A data beat that is not taken is offered again unchanged. */
  lemma PendingDataIsStable<T>(g: Config, ins: seq<Input<T>>, i: Input<T>)
    requires Good(g) && PromisedRun(g, Reset(), ins)
    requires Run(g, Reset(), ins).core.wvalid && !i.wready
    ensures var w := Run(g, Reset(), ins).core;
      var w' := Step(g, w, i);
      w'.wvalid && |w.fifo| > 0 && |w'.fifo| > 0 && w'.fifo[0] == w.fifo[0] && WLast(w') == WLast(w) && w'.wid == w.wid
  {
    RunInv(g, ins);
  }

  lemma AlignedSum(base: nat, r: nat)
    requires base % 128 == 0 && r % 16 == 0
    ensures (base + 8 * r) % ADDRESS_SPACE % 128 == 0
  {
    DivModUnique(base + 8 * r, 128, base / 128 + r / 16, 0);
    ModOfModMultiple(base + 8 * r, 0x200_0000, 128);
  }

  lemma AlignedTarget(g: Config, b: nat)
    requires Good(g) && g.base % 128 == 0
    ensures Target(g, 16 * b) % 128 == 0
  {
    SixteenDivides(16 * b, g.words);
    DivModUnique(16 * b, 16, b, 0);
    AlignedSum(g.base, (16 * b) % g.words);
  }

  lemma AlignedStaysInPage(a: nat)
    requires a % 128 == 0
    ensures a / 4096 == (a + 127) / 4096
  {
    var q := a / 128;
    assert a / 4096 == q / 32 && (a + 127) / 4096 == q / 32;
  }

  /** With the ring on a 128-byte boundary no burst crosses a 4 KB page. */
  lemma BurstsStayInPage<T>(g: Config, ins: seq<Input<T>>, b: nat)
    requires Good(g) && g.base % 128 == 0 && PromisedRun(g, Reset(), ins)
    requires b < |Run(g, Reset(), ins).slave.bursts|
    ensures var a := Run(g, Reset(), ins).slave.bursts[b].address; a / 4096 == (a + 127) / 4096
  {
    RunInv(g, ins);
    AlignedTarget(g, b);
    AlignedStaysInPage(Target(g, 16 * b));
  }

  /** Memory after a list of beats; later beats overwrite earlier ones. */
  function MemoryAfter<T>(beats: seq<Beat<T>>): (mem: map<nat, T>) {
    if |beats| == 0 then map[]
    else MemoryAfter(beats[..|beats| - 1])[beats[|beats| - 1].address := beats[|beats| - 1].data]
  }

  lemma TargetsApart(g: Config, j: nat, k: nat)
    requires Good(g) && 8 * g.words <= ADDRESS_SPACE && j < k < j + g.words
    ensures Target(g, j) != Target(g, k)
  {
    var (a, b) := (j % g.words, k % g.words);
    CongruentAndClose(j, k, g.words);
    if a < b {
      CongruentAndClose(g.base + 8 * a, g.base + 8 * b, ADDRESS_SPACE);
    } else {
      CongruentAndClose(g.base + 8 * b, g.base + 8 * a, ADDRESS_SPACE);
    }
  }

  lemma {:induction false} RingKeepsLatest<T>(g: Config, beats: seq<Beat<T>>, taken: seq<T>, k: nat)
    requires Good(g) && 8 * g.words <= ADDRESS_SPACE && BeatsInv(g, beats, taken)
    requires k < |beats| <= k + g.words
    ensures Target(g, k) in MemoryAfter(beats) && MemoryAfter(beats)[Target(g, k)] == taken[k]
  {
    var n := |beats| - 1;
    assert beats[n] == ExpectedBeat(g, taken, n);
    if k == n {
    } else {
      forall j | 0 <= j < n ensures beats[..n][j] == ExpectedBeat(g, taken, j) {}
      RingKeepsLatest(g, beats[..n], taken, k);
      TargetsApart(g, k, n);
    }
  }

  /** After any run each of the last 2^ADDR_WIDTH words written is in memory at
      its ring position. */
  lemma RingContents<T>(g: Config, ins: seq<Input<T>>, k: nat)
    requires Good(g) && 8 * g.words <= ADDRESS_SPACE && PromisedRun(g, Reset(), ins)
    requires k < |Run(g, Reset(), ins).slave.beats| <= k + g.words
    ensures var s := Run(g, Reset(), ins);
      && Target(g, k) in MemoryAfter(s.slave.beats)
      && k < |s.taken| && MemoryAfter(s.slave.beats)[Target(g, k)] == s.taken[k]
  {
    RunInv(g, ins);
    var s := Run(g, Reset(), ins);
    RingKeepsLatest(g, s.slave.beats, s.taken, k);
  }

  // ------------------------------------------------------------------ progress

  /** The surroundings keep their promises and ALMOSTEMPTY is exact. */
  predicate Willing<T>(w: Writer<T>, i: Input<T>) {
    Promised(w, i) && (i.almostEmpty <==> |w.fifo| < 17)
  }

  ghost predicate WillingRun<T>(g: Config, s: System<T>, ins: seq<Input<T>>) {
    |ins| != 0 ==>
      var before := ins[..|ins| - 1];
      WillingRun(g, s, before) && Willing(Run(g, s, before).core, ins[|ins| - 1])
  }

  /** In how many cycles the memory was ready for a beat. */
  function ReadyCycles<T>(ins: seq<Input<T>>): (r: nat) {
    if |ins| == 0 then 0 else ReadyCycles(ins[..|ins| - 1]) + if ins[|ins| - 1].wready then 1 else 0
  }

  /** Of the first `n` words taken, how many are not yet in memory. */
  function Unwritten<T>(s: System<T>, n: nat): (u: int) { n - |s.slave.beats| }

  /** `k` cycles on, `r` of them ready: all but sixteen words are written, or a beat has
      been taken in each ready cycle but perhaps the first. */
  ghost predicate Catching<T>(s: System<T>, n: nat, u0: int, k: nat, r: nat) {
    || Unwritten(s, n) <= 16
    || (Unwritten(s, n) + r <= u0 + (if k > 0 then 1 else 0) && (k > 0 ==> s.core.wvalid))
  }

  lemma CatchingStep<T>(g: Config, s: System<T>, n: nat, u0: int, k: nat, r: nat, i: Input<T>)
    requires Good(g) && ControlInv(g, s.core) && QueueInv(|s.slave.beats|, s.core.fifo, s.taken)
    requires Willing(s.core, i) && n <= |s.taken| && Catching(s, n, u0, k, r)
    ensures Catching(SystemStep(g, s, i), n, u0, k + 1, if i.wready then r + 1 else r)
    ensures n <= |SystemStep(g, s, i).taken|
  {
    assert |s.core.fifo| == |s.taken| - |s.slave.beats|;
    BeatsEdge(g, s.core, s.slave, i);
  }

  lemma BeatsEdge<T>(g: Config, w: Writer<T>, m: Slave<T>, i: Input<T>)
    ensures |SlaveStep(g, w, m, i).beats| == |m.beats| + if ReadEnable(w, i) && |w.fifo| > 0 then 1 else 0
  {
  }

  lemma {:induction false} CatchingRuns<T>(g: Config, s: System<T>, ins: seq<Input<T>>)
    requires Good(g) && Inv(g, s) && WillingRun(g, s, ins)
    ensures Inv(g, Run(g, s, ins)) && |s.taken| <= |Run(g, s, ins).taken|
    ensures Catching(Run(g, s, ins), |s.taken|, Unwritten(s, |s.taken|), |ins|, ReadyCycles(ins))
  {
    if |ins| == 0 {
    } else {
      var (before, i) := (ins[..|ins| - 1], ins[|ins| - 1]);
      CatchingRuns(g, s, before);
      CatchingStep(g, Run(g, s, before), |s.taken|, Unwritten(s, |s.taken|), |before|, ReadyCycles(before), i);
      StepKeepsInv(g, Run(g, s, before), i);
    }
  }

  /** Progress: from any reachable state, whatever arrives meanwhile and however the
      memory stalls, one ready cycle per queued word is enough for all but sixteen of
      the words taken so far to be written. */
  lemma CatchesUp<T>(g: Config, pre: seq<Input<T>>, ins: seq<Input<T>>)
    requires Good(g) && PromisedRun(g, Reset(), pre) && WillingRun(g, Run(g, Reset(), pre), ins)
    requires ReadyCycles(ins) + 15 >= |Run(g, Reset(), pre).core.fifo|
    ensures var s := Run(g, Reset(), pre); |s.taken| - |Run(g, s, ins).slave.beats| <= 16
  {
    RunInv(g, pre);
    CatchingRuns(g, Run(g, Reset(), pre), ins);
  }

  /** An address is offered without waiting for the memory (section A3.2.1 of
      ARM IHI 0022): an idle writer offers one, with its data, exactly when enough words
      are queued, whatever the memory's ready lines say. */
  lemma OffersWithoutWaiting<T>(g: Config, w: Writer<T>, i: Input<T>)
    requires !w.awvalid && !w.wvalid
    ensures Step(g, w, i).awvalid <==> !i.almostEmpty
    ensures Step(g, w, i).wvalid <==> !i.almostEmpty
  {
  }

  /** The words the stream handed over: those valid while the FIFO was not full. */
  function Accepted<T>(ins: seq<Input<T>>): (words: seq<T>) {
    if |ins| == 0 then []
    else
      var i := ins[|ins| - 1];
      Accepted(ins[..|ins| - 1]) + if i.tvalid && !i.full then [i.tdata] else []
  }

  /** What `taken` records is exactly those. */
  lemma {:induction false} TakenAreAccepted<T>(g: Config, ins: seq<Input<T>>)
    ensures Run(g, Reset(), ins).taken == Accepted(ins)
  {
    if |ins| == 0 {
    } else {
      TakenAreAccepted(g, ins[..|ins| - 1]);
      assert Accepted(ins[..|ins| - 1]) + [] == Accepted(ins[..|ins| - 1]);
    }
  }

  /** The writer's registers updated in place. */
  class AxisRamWriter<T> {
    const g: Config
    var awvalid: bool
    var wvalid: bool
    var addr: nat
    var wid: nat
    var fifo: seq<T>

    ghost function View(): (w: Writer<T>)
      reads this
    {
      Writer(awvalid, wvalid, addr, wid, fifo)
    }

    constructor (g: Config)
      ensures this.g == g && View() == Reset<T>().core
    {
      this.g := g;
      awvalid, wvalid, addr, wid, fifo := false, false, 0, 0, [];
    }

    method Tick(i: Input<T>)
      modifies this
      ensures View() == Step(g, old(View()), i)
    {
      var start := !i.almostEmpty && !awvalid && !wvalid;
      var lastTaken := i.wready && addr % 16 == 15;
      var rden := i.wready && wvalid;
      if start || (lastTaken && !i.almostEmpty) {
        awvalid := true;
      } else if i.awready && awvalid {
        awvalid := false;
      }
      if start {
        wvalid := true;
      } else if lastTaken && i.almostEmpty {
        wvalid := false;
      }
      if rden {
        addr := Next(addr, g.words);
        if |fifo| > 0 {
          fifo := fifo[1..];
        }
      }
      if lastTaken {
        wid := Next(wid, g.ids);
      }
      if !i.full && i.tvalid {
        fifo := fifo + [i.tdata];
      }
    }
  }
}
