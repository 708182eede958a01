/** The RAM writer and the server together: the server polls the writer's address
    register and sends what it finds in the memory the writer fills. */
module Acquisition {
  import opened Arith
  import RW = RamWriter
  import PP = PingPong

  /** What the processor can see at a clock edge, counted from reset: the writer's
      address register, and the word in a ring slot. */
  datatype Seen<!T> = Seen(position: nat -> nat, word: (nat, nat) -> T)

  /** One pass of the server's loop, in clock edges since reset: when each word of a
      block is read, and when the pass ends. */
  datatype Pass = Pass(times: seq<nat>, end: nat)

  /** The server as it runs against the hardware; `now` is the clock edge of its
      next poll. */
  datatype Live<T> = Live(limit: nat, now: nat, sent: seq<T>)

  predicate Within(pass: Pass, from: nat, to: nat) {
    |pass.times| == PP.BLOCK && from <= pass.end <= to
    && forall j :: 0 <= j < PP.BLOCK ==> from <= pass.times[j] <= pass.end
  }

  /** When the last of `passes` ends. */
  function EndOf(passes: seq<Pass>): (t: nat) { if |passes| == 0 then 0 else passes[|passes| - 1].end }

  /** Passes follow one another in time. */
  predicate Scheduled(passes: seq<Pass>, to: nat) {
    |passes| != 0 ==>
      Scheduled(passes[..|passes| - 1], to) && Within(passes[|passes| - 1], EndOf(passes[..|passes| - 1]), to)
  }

  function LiveBlock<T>(seen: Seen<T>, offset: nat, pass: Pass): (b: seq<T>)
    requires |pass.times| == PP.BLOCK
    ensures |b| == PP.BLOCK
    ensures forall j {:trigger b[j]} :: 0 <= j < PP.BLOCK ==> b[j] == seen.word(pass.times[j], offset + j)
  {
    seq(PP.BLOCK, j requires 0 <= j < PP.BLOCK => seen.word(pass.times[j], offset + j))
  }

  function LiveStep<T>(seen: Seen<T>, d: Live<T>, pass: Pass): (d': Live<T>)
    requires |pass.times| == PP.BLOCK
  {
    if PP.Ready(d.limit, seen.position(d.now)) then
      var offset := if d.limit > 0 then 0 else PP.BLOCK;
      Live(if d.limit > 0 then 0 else PP.BLOCK, pass.end, d.sent + LiveBlock(seen, offset, pass))
    else
      d.(now := pass.end)
  }

  /** The server against what it can see, from reset. */
  function LiveRun<T>(seen: Seen<T>, passes: seq<Pass>, to: nat): (d: Live<T>)
    requires Scheduled(passes, to)
    ensures d.now == EndOf(passes)
  {
    if |passes| == 0 then Live(PP.BLOCK, 0, [])
    else LiveStep(seen, LiveRun(seen, passes[..|passes| - 1], to), passes[|passes| - 1])
  }

  // -------------------------------------------------- against an abstract ring

  /** Up to time `to`, a ring of which `landed(t)` stream words have arrived by `t`. */
  ghost predicate IsRing<T>(seen: Seen<T>, landed: nat -> nat, stream: nat -> T, initial: nat -> T, to: nat) {
    && (forall t: nat :: t <= to ==> seen.position(t) == landed(t) % PP.RING)
    && (forall t: nat, slot: nat {:trigger seen.word(t, slot)} ::
          t <= to && slot < PP.RING ==> seen.word(t, slot) == PP.RingWord(stream, initial, landed(t), slot))
  }

  ghost predicate Rising(landed: nat -> nat, to: nat) {
    forall t: nat, u: nat :: t <= u <= to ==> landed(t) <= landed(u)
  }

  /** How the ring fills during a pass, as the polling loop counts it. */
  function Fills(landed: nat -> nat, from: nat, pass: Pass): (it: PP.Iteration)
    requires |pass.times| == PP.BLOCK && landed(from) <= landed(pass.end)
    requires forall j :: 0 <= j < PP.BLOCK ==> landed(from) <= landed(pass.times[j]) <= landed(pass.end)
    ensures PP.WellFormed(it) && it.advance == landed(pass.end) - landed(from)
    ensures forall j {:trigger it.progress[j]} :: 0 <= j < PP.BLOCK ==>
      landed(from) + it.progress[j] == landed(pass.times[j])
  {
    PP.Iteration(landed(pass.end) - landed(from),
                 seq(PP.BLOCK, j requires 0 <= j < PP.BLOCK => landed(pass.times[j]) - landed(from)))
  }

  lemma EndInTime(passes: seq<Pass>, to: nat)
    requires Scheduled(passes, to)
    ensures EndOf(passes) <= to
  {
  }

  lemma PassRises(landed: nat -> nat, from: nat, pass: Pass, to: nat)
    requires Rising(landed, to) && Within(pass, from, to)
    ensures landed(from) <= landed(pass.end)
    ensures forall j :: 0 <= j < PP.BLOCK ==> landed(from) <= landed(pass.times[j]) <= landed(pass.end)
  {
  }

  function Iterations(landed: nat -> nat, passes: seq<Pass>, to: nat): (its: seq<PP.Iteration>)
    requires Scheduled(passes, to) && Rising(landed, to)
    ensures |its| == |passes| && PP.AllWellFormed(its)
  {
    if |passes| == 0 then []
    else
      var (before, pass) := (passes[..|passes| - 1], passes[|passes| - 1]);
      PassRises(landed, EndOf(before), pass, to);
      Iterations(landed, before, to) + [Fills(landed, EndOf(before), pass)]
  }

  /** No pass lets more than `pace` words land. */
  ghost predicate LivePace(landed: nat -> nat, passes: seq<Pass>, pace: nat) {
    |passes| != 0 ==>
      && LivePace(landed, passes[..|passes| - 1], pace)
      && landed(EndOf(passes)) <= landed(EndOf(passes[..|passes| - 1])) + pace
  }

  lemma {:induction false} PaceCarries(landed: nat -> nat, passes: seq<Pass>, to: nat, pace: nat)
    requires Scheduled(passes, to) && Rising(landed, to) && LivePace(landed, passes, pace)
    ensures PP.Paced(Iterations(landed, passes, to), pace)
  {
    if |passes| == 0 {
    } else {
      PaceCarries(landed, passes[..|passes| - 1], to, pace);
    }
  }

  lemma WordAgrees<T>(seen: Seen<T>, landed: nat -> nat, stream: nat -> T, initial: nat -> T, to: nat,
                      from: nat, offset: nat, pass: Pass, j: nat)
    requires IsRing(seen, landed, stream, initial, to) && Rising(landed, to) && Within(pass, from, to)
    requires offset + PP.BLOCK <= PP.RING && j < PP.BLOCK
    requires landed(from) <= landed(pass.end)
    requires forall j :: 0 <= j < PP.BLOCK ==> landed(from) <= landed(pass.times[j]) <= landed(pass.end)
    ensures LiveBlock(seen, offset, pass)[j]
         == PP.Block(stream, initial, landed(from), offset, Fills(landed, from, pass))[j]
  {
    assert landed(from) + Fills(landed, from, pass).progress[j] == landed(pass.times[j]);
  }

  lemma BlockAgrees<T>(seen: Seen<T>, landed: nat -> nat, stream: nat -> T, initial: nat -> T, to: nat,
                       from: nat, offset: nat, pass: Pass)
    requires IsRing(seen, landed, stream, initial, to) && Rising(landed, to) && Within(pass, from, to)
    requires offset + PP.BLOCK <= PP.RING && landed(from) <= landed(pass.end)
    requires forall j :: 0 <= j < PP.BLOCK ==> landed(from) <= landed(pass.times[j]) <= landed(pass.end)
    ensures LiveBlock(seen, offset, pass) == PP.Block(stream, initial, landed(from), offset, Fills(landed, from, pass))
  {
    forall j | 0 <= j < PP.BLOCK
      ensures LiveBlock(seen, offset, pass)[j]
           == PP.Block(stream, initial, landed(from), offset, Fills(landed, from, pass))[j] {
      WordAgrees(seen, landed, stream, initial, to, from, offset, pass, j);
    }
  }

  /** The server against a ring behaves as the polling loop does. */
  lemma {:induction false} Refines<T>(seen: Seen<T>, landed: nat -> nat, stream: nat -> T, initial: nat -> T,
                                      passes: seq<Pass>, to: nat)
    requires IsRing(seen, landed, stream, initial, to) && Rising(landed, to) && Scheduled(passes, to) && landed(0) == 0
    ensures var d := LiveRun(seen, passes, to);
      PP.Run(stream, initial, Iterations(landed, passes, to)) == PP.Server(d.limit, landed(EndOf(passes)), d.sent)
  {
    if |passes| == 0 {
    } else {
      var (before, pass) := (passes[..|passes| - 1], passes[|passes| - 1]);
      Refines(seen, landed, stream, initial, before, to);
      EndInTime(before, to);
      PassRises(landed, EndOf(before), pass, to);
      BlockAgrees(seen, landed, stream, initial, to, EndOf(before), 0, pass);
      BlockAgrees(seen, landed, stream, initial, to, EndOf(before), PP.BLOCK, pass);
      var its := Iterations(landed, passes, to);
      assert its[..|its| - 1] == Iterations(landed, before, to);
    }
  }

  // ------------------------------------------------------------- the hardware

  /** The hardware after the first `t` clock edges. */
  function At<T>(g: RW.Config, ins: seq<RW.Input<T>>, t: nat): (s: RW.System<T>)
    requires t <= |ins|
  {
    RW.Run(g, RW.Reset(), ins[..t])
  }

  /** What the processor reads from ring slot `slot`. */
  function Fetch<T>(g: RW.Config, initial: nat -> T, beats: seq<RW.Beat<T>>, slot: nat): (word: T)
    requires g.words > 0
  {
    var (mem, a) := (RW.MemoryAfter(beats), RW.Target(g, slot));
    if a in mem then mem[a] else initial(slot)
  }

  /** The hardware as the processor sees it. */
  function Hardware<T>(g: RW.Config, ins: seq<RW.Input<T>>, initial: nat -> T): (seen: Seen<T>)
    requires g.words > 0
  {
    Seen((t: nat) => if t <= |ins| then At(g, ins, t).core.addr else 0,
         (t: nat, slot: nat) => if t <= |ins| then Fetch(g, initial, At(g, ins, t).slave.beats, slot) else initial(slot))
  }

  /** How many words have landed in memory by each edge. */
  function Landed<T>(g: RW.Config, ins: seq<RW.Input<T>>): (landed: nat -> nat) {
    (t: nat) => if t <= |ins| then |At(g, ins, t).slave.beats| else 0
  }

  // ---------------------------------------------------------------- the ring

  /** The writer the server is built with: a 64K-word ring. */
  ghost predicate Ring(g: RW.Config) { RW.Good(g) && g.words == PP.RING }

  /** A stream that begins with `taken`. */
  ghost predicate Begins<T>(stream: nat -> T, taken: seq<T>) { forall k :: 0 <= k < |taken| ==> stream(k) == taken[k] }

  lemma {:induction false} NotYetWritten<T>(g: RW.Config, beats: seq<RW.Beat<T>>, taken: seq<T>, slot: nat)
    requires Ring(g) && RW.BeatsInv(g, beats, taken) && |beats| <= slot < PP.RING
    ensures RW.Target(g, slot) !in RW.MemoryAfter(beats)
  {
    if |beats| == 0 {
    } else {
      var n := |beats| - 1;
      assert beats[n] == RW.ExpectedBeat(g, taken, n);
      forall j | 0 <= j < n ensures beats[..n][j] == RW.ExpectedBeat(g, taken, j) {}
      NotYetWritten(g, beats[..n], taken, slot);
      RW.TargetsApart(g, n, slot);
    }
  }

  /** The newest word for a slot. */
  lemma NewestForSlot(n: nat, slot: nat) returns (k: nat)
    requires slot < PP.RING && slot < n
    ensures k == slot + PP.RING * ((n - 1 - slot) / PP.RING)
    ensures k < n <= k + PP.RING && k % PP.RING == slot
  {
    k := slot + PP.RING * ((n - 1 - slot) / PP.RING);
    DivModUnique(k, PP.RING, (n - 1 - slot) / PP.RING, slot);
  }

  lemma SameTarget(g: RW.Config, k: nat, slot: nat)
    requires Ring(g) && slot < PP.RING && k % PP.RING == slot
    ensures RW.Target(g, k) == RW.Target(g, slot)
  {
    DivModUnique(slot, PP.RING, 0, slot);
  }

  /** The memory the writer fills is the server's ring. */
  lemma FetchIsRingWord<T>(g: RW.Config, stream: nat -> T, initial: nat -> T, s: RW.System<T>, slot: nat)
    requires Ring(g) && RW.Inv(g, s) && Begins(stream, s.taken) && slot < PP.RING
    ensures Fetch(g, initial, s.slave.beats, slot) == PP.RingWord(stream, initial, |s.slave.beats|, slot)
  {
    var beats := s.slave.beats;
    if |beats| <= slot {
      NotYetWritten(g, beats, s.taken, slot);
    } else {
      var k := NewestForSlot(|beats|, slot);
      SameTarget(g, k, slot);
      RW.RingKeepsLatest(g, beats, s.taken, k);
    }
  }

  lemma {:induction false} PromiseOnPrefix<T>(g: RW.Config, ins: seq<RW.Input<T>>, t: nat)
    requires t <= |ins| && RW.PromisedRun(g, RW.Reset(), ins)
    ensures RW.PromisedRun(g, RW.Reset(), ins[..t])
  {
    if t == |ins| {
      assert ins[..t] == ins;
    } else {
      PromiseOnPrefix(g, ins[..|ins| - 1], t);
      assert ins[..|ins| - 1][..t] == ins[..t];
    }
  }

  /** Words only ever arrive, and beats only ever land. */
  ghost predicate Extends<T>(s: RW.System<T>, s': RW.System<T>) {
    Longer(s.taken, s'.taken) && |s.slave.beats| <= |s'.slave.beats|
  }

  ghost predicate Longer<T>(x: seq<T>, y: seq<T>) {
    |x| <= |y| && forall k {:trigger y[k]} :: 0 <= k < |x| ==> x[k] == y[k]
  }

  lemma EdgeExtends<T>(g: RW.Config, s: RW.System<T>, i: RW.Input<T>)
    ensures Extends(s, RW.SystemStep(g, s, i))
  {
  }

  lemma NextExtends<T>(g: RW.Config, ins: seq<RW.Input<T>>, t: nat)
    requires t < |ins|
    ensures Extends(At(g, ins, t), At(g, ins, t + 1))
  {
    assert ins[..t + 1][..t] == ins[..t];
    EdgeExtends(g, At(g, ins, t), ins[t]);
  }

  lemma ExtendsTransitive<T>(x: RW.System<T>, y: RW.System<T>, z: RW.System<T>)
    requires Extends(x, y) && Extends(y, z)
    ensures Extends(x, z)
  {
  }

  /** A history of states, each extending the one before. */
  ghost predicate Growing<T>(f: nat -> RW.System<T>, n: nat) {
    forall j: nat, k: nat :: j < n && k == j + 1 ==> Extends(f(j), f(k))
  }

  lemma {:induction false} LaterExtends<T>(f: nat -> RW.System<T>, t: nat, u: nat, n: nat)
    requires t <= u <= n && Growing(f, n)
    ensures Extends(f(t), f(u))
    decreases u
  {
    if t == u {
    } else {
      LaterExtends(f, t, u - 1, n);
      assert Extends(f(u - 1), f(u));
      ExtendsTransitive(f(t), f(u - 1), f(u));
    }
  }

  lemma HistoryGrows<T>(g: RW.Config, ins: seq<RW.Input<T>>, f: nat -> RW.System<T>)
    requires forall t: nat :: t <= |ins| ==> f(t) == At(g, ins, t)
    ensures Growing(f, |ins|)
  {
    forall j: nat, k: nat | j < |ins| && k == j + 1 ensures Extends(f(j), f(k)) {
      NextExtends(g, ins, j);
      assert f(j) == At(g, ins, j) && f(k) == At(g, ins, k);
    }
  }

  lemma Grows<T>(g: RW.Config, ins: seq<RW.Input<T>>, t: nat, u: nat)
    requires t <= u <= |ins|
    ensures Extends(At(g, ins, t), At(g, ins, u))
  {
    var f := (k: nat) => if k <= |ins| then At(g, ins, k) else RW.Reset();
    HistoryGrows(g, ins, f);
    LaterExtends(f, t, u, |ins|);
  }

  /** Everything the writer took in the whole run, continued in any way. */
  ghost predicate Streams<T>(g: RW.Config, ins: seq<RW.Input<T>>, stream: nat -> T) {
    Begins(stream, At(g, ins, |ins|).taken)
  }

  lemma BeginsEarlier<T>(stream: nat -> T, x: seq<T>, y: seq<T>)
    requires Longer(x, y) && Begins(stream, y)
    ensures Begins(stream, x)
  {
  }

  lemma HardwareAt<T>(g: RW.Config, ins: seq<RW.Input<T>>, stream: nat -> T, t: nat)
    requires Ring(g) && RW.PromisedRun(g, RW.Reset(), ins) && Streams(g, ins, stream) && t <= |ins|
    ensures RW.Inv(g, At(g, ins, t)) && Begins(stream, At(g, ins, t).taken)
  {
    PromiseOnPrefix(g, ins, t);
    RW.RunInv(g, ins[..t]);
    Grows(g, ins, t, |ins|);
    BeginsEarlier(stream, At(g, ins, t).taken, At(g, ins, |ins|).taken);
  }

  lemma MemoryAt<T>(g: RW.Config, ins: seq<RW.Input<T>>, stream: nat -> T, initial: nat -> T, t: nat, slot: nat)
    requires Ring(g) && RW.PromisedRun(g, RW.Reset(), ins) && Streams(g, ins, stream)
    requires t <= |ins| && slot < PP.RING
    ensures Hardware(g, ins, initial).word(t, slot) == PP.RingWord(stream, initial, Landed(g, ins)(t), slot)
  {
    HardwareAt(g, ins, stream, t);
    FetchIsRingWord(g, stream, initial, At(g, ins, t), slot);
  }

  /** The address register the server polls. */
  lemma PositionAt<T>(g: RW.Config, ins: seq<RW.Input<T>>, initial: nat -> T, t: nat)
    requires Ring(g) && RW.PromisedRun(g, RW.Reset(), ins) && t <= |ins|
    ensures Hardware(g, ins, initial).position(t) == Landed(g, ins)(t) % PP.RING
  {
    PromiseOnPrefix(g, ins, t);
    RW.RunInv(g, ins[..t]);
  }

  /** The writer's memory and address register are the server's ring. */
  lemma HardwareIsRing<T>(g: RW.Config, ins: seq<RW.Input<T>>, stream: nat -> T, initial: nat -> T)
    requires Ring(g) && RW.PromisedRun(g, RW.Reset(), ins) && Streams(g, ins, stream)
    ensures IsRing(Hardware(g, ins, initial), Landed(g, ins), stream, initial, |ins|)
  {
    var (seen, landed) := (Hardware(g, ins, initial), Landed(g, ins));
    forall t: nat | t <= |ins| ensures seen.position(t) == landed(t) % PP.RING {
      PositionAt(g, ins, initial, t);
    }
    forall t: nat, slot: nat | t <= |ins| && slot < PP.RING
      ensures seen.word(t, slot) == PP.RingWord(stream, initial, landed(t), slot)
    {
      MemoryAt(g, ins, stream, initial, t, slot);
    }
  }

  lemma HardwareRises<T>(g: RW.Config, ins: seq<RW.Input<T>>)
    ensures Rising(Landed(g, ins), |ins|) && Landed(g, ins)(0) == 0
  {
    assert ins[..0] == [];
    forall t: nat, u: nat | t <= u <= |ins| ensures Landed(g, ins)(t) <= Landed(g, ins)(u) {
      Grows(g, ins, t, u);
    }
  }

  /** A stream that begins with what was taken. */
  function StreamOf<T>(taken: seq<T>, initial: nat -> T): (stream: nat -> T)
    ensures Begins(stream, taken)
  {
    (k: nat) => if k < |taken| then taken[k] else initial(k)
  }

  lemma TakenCovers<T>(g: RW.Config, ins: seq<RW.Input<T>>, stream: nat -> T, t: nat)
    requires Ring(g) && RW.PromisedRun(g, RW.Reset(), ins) && Streams(g, ins, stream) && t <= |ins|
    ensures Landed(g, ins)(t) <= |At(g, ins, |ins|).taken|
  {
    HardwareAt(g, ins, stream, t);
    Grows(g, ins, t, |ins|);
  }

  lemma PrefixOfTaken<T>(sent: seq<T>, taken: seq<T>, initial: nat -> T)
    requires PP.IsPrefix(StreamOf(taken, initial), sent) && |sent| <= |taken|
    ensures sent <= taken
  {
  }

  /** End to end: over every hardware run that keeps the bus and FIFO promises, and
      every timing of the server's polls and reads in which at most 16K words land
      per pass, all that is sent is the stream the writer took, from its first
      word, in whole blocks, never more than a block and a pass behind the memory. */
  lemma ServerDelivers<T>(g: RW.Config, ins: seq<RW.Input<T>>, initial: nat -> T, passes: seq<Pass>)
    requires Ring(g) && RW.PromisedRun(g, RW.Reset(), ins) && Scheduled(passes, |ins|)
    requires LivePace(Landed(g, ins), passes, PP.PACE)
    ensures var (sent, landed) := (LiveRun(Hardware(g, ins, initial), passes, |ins|).sent, Landed(g, ins)(EndOf(passes)));
      sent <= At(g, ins, |ins|).taken && |sent| % PP.BLOCK == 0 && |sent| <= landed <= |sent| + PP.BLOCK + PP.PACE
  {
    var (seen, landed, taken) := (Hardware(g, ins, initial), Landed(g, ins), At(g, ins, |ins|).taken);
    var stream := StreamOf(taken, initial);
    HardwareIsRing(g, ins, stream, initial);
    HardwareRises(g, ins);
    RingDelivers(seen, landed, stream, initial, passes, |ins|);
    EndInTime(passes, |ins|);
    TakenCovers(g, ins, stream, EndOf(passes));
    PrefixOfTaken(LiveRun(seen, passes, |ins|).sent, taken, initial);
  }

  lemma RingDelivers<T>(seen: Seen<T>, landed: nat -> nat, stream: nat -> T, initial: nat -> T,
                        passes: seq<Pass>, to: nat)
    requires IsRing(seen, landed, stream, initial, to) && Rising(landed, to) && landed(0) == 0
    requires Scheduled(passes, to) && LivePace(landed, passes, PP.PACE)
    ensures var sent := LiveRun(seen, passes, to).sent;
      && PP.IsPrefix(stream, sent) && |sent| % PP.BLOCK == 0
      && |sent| <= landed(EndOf(passes)) <= |sent| + PP.BLOCK + PP.PACE
  {
    Refines(seen, landed, stream, initial, passes, to);
    PaceCarries(landed, passes, to, PP.PACE);
    PP.Delivery(stream, initial, Iterations(landed, passes, to));
  }
}
