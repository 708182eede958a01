/** The TCP server's polling loop over the RAM writer's ring: two halves of 32K
    words, one sent while the other fills. */
module PingPong {
  import opened Arith

  const BLOCK: nat := 32 * 1024
  const RING: nat := 64 * 1024

  /** How far the writer may move during one server iteration. */
  const PACE: nat := 16 * 1024

  /** One pass of the loop: the writer moves `advance` words in all, `progress[j]`
      of them before word `j` of a block is read. */
  datatype Iteration = Iteration(advance: nat, progress: seq<nat>)

  /** `written` words have landed in the ring; `sent` is all data sent so far. */
  datatype Server<T> = Server(limit: nat, written: nat, sent: seq<T>)

  /** What a ring slot holds once `written` stream words have landed: the latest
      word for that slot, or the memory's old contents. */
  function RingWord<T>(stream: nat -> T, initial: nat -> T, written: nat, slot: nat): (word: T)
    requires slot < RING
  {
    if written <= slot then initial(slot) else stream(slot + RING * ((written - 1 - slot) / RING))
  }

  /** The poll's condition on `limit` and the writer's position. */
  predicate Ready(limit: nat, position: nat) {
    (limit > 0 && position > limit) || (limit == 0 && position < BLOCK)
  }

  predicate WellFormed(it: Iteration) {
    |it.progress| == BLOCK && forall j :: 0 <= j < BLOCK ==> it.progress[j] <= it.advance
  }

  function Block<T>(stream: nat -> T, initial: nat -> T, written: nat, offset: nat, it: Iteration): (b: seq<T>)
    requires WellFormed(it) && offset + BLOCK <= RING
    ensures |b| == BLOCK
  {
    seq(BLOCK, j requires 0 <= j < BLOCK => RingWord(stream, initial, written + it.progress[j], offset + j))
  }

  function Step<T>(stream: nat -> T, initial: nat -> T, s: Server<T>, it: Iteration): (s': Server<T>)
    requires WellFormed(it)
  {
    var position := s.written % RING;
    if Ready(s.limit, position) then
      var offset := if s.limit > 0 then 0 else BLOCK;
      Server(if s.limit > 0 then 0 else BLOCK, s.written + it.advance,
             s.sent + Block(stream, initial, s.written, offset, it))
    else
      s.(written := s.written + it.advance)
  }

  predicate AllWellFormed(its: seq<Iteration>) { forall i :: 0 <= i < |its| ==> WellFormed(its[i]) }

  /** No iteration lets the writer move more than `pace` words. */
  predicate Paced(its: seq<Iteration>, pace: nat) { forall i :: 0 <= i < |its| ==> its[i].advance <= pace }

  function Run<T>(stream: nat -> T, initial: nat -> T, its: seq<Iteration>): (s: Server<T>)
    requires AllWellFormed(its)
  {
    if |its| == 0 then Server(BLOCK, 0, [])
    else Step(stream, initial, Run(stream, initial, its[..|its| - 1]), its[|its| - 1])
  }

  lemma RunPrefix<T>(stream: nat -> T, initial: nat -> T, its: seq<Iteration>, i: nat)
    requires AllWellFormed(its) && i < |its|
    ensures Run(stream, initial, its[..i + 1]) == Step(stream, initial, Run(stream, initial, its[..i]), its[i])
  {
    assert its[..i + 1][..i] == its[..i];
  }

  /** What has been sent is the stream from its start: nothing lost, repeated,
      reordered or torn. */
  ghost predicate IsPrefix<T>(stream: nat -> T, sent: seq<T>) {
    forall k :: 0 <= k < |sent| ==> sent[k] == stream(k)
  }

  /** `blocks` have been sent; the writer is past all of them and at most `pace`
      words beyond the next. */
  ghost predicate Inv<T>(stream: nat -> T, s: Server<T>, blocks: nat) {
    && |s.sent| == blocks * BLOCK
    && s.limit == (if blocks % 2 == 0 then BLOCK else 0)
    && blocks * BLOCK <= s.written <= (blocks + 1) * BLOCK + PACE
    && IsPrefix(stream, s.sent)
  }

  /** The writer's position in the ring, seen from the half being filled. */
  lemma PositionInRing(written: nat, blocks: nat)
    requires blocks * BLOCK <= written <= (blocks + 1) * BLOCK + PACE
    ensures blocks % 2 == 0 ==> written % RING == written - blocks * BLOCK
    ensures blocks % 2 == 1 ==>
      written % RING == if written < (blocks + 1) * BLOCK then written - (blocks - 1) * BLOCK
                        else written - (blocks + 1) * BLOCK
  {
    if blocks % 2 == 0 {
      DivModUnique(written, RING, blocks / 2, written - blocks * BLOCK);
    } else if written < (blocks + 1) * BLOCK {
      DivModUnique(written, RING, blocks / 2, written - (blocks - 1) * BLOCK);
    } else {
      DivModUnique(written, RING, blocks / 2 + 1, written - (blocks + 1) * BLOCK);
    }
  }

  /** The poll fires exactly when the next block is complete; in the first half
      it waits for one word more. */
  lemma ReadyIsExact<T>(stream: nat -> T, s: Server<T>, blocks: nat)
    requires Inv(stream, s, blocks)
    ensures Ready(s.limit, s.written % RING)
       <==> s.written >= (blocks + 1) * BLOCK + (if blocks % 2 == 0 then 1 else 0)
  {
    PositionInRing(s.written, blocks);
  }

  /** A slot still holds word `k` while the writer is past it by at most one ring. */
  lemma WordStillThere<T>(stream: nat -> T, initial: nat -> T, written: nat, k: nat)
    requires k < written <= k + RING
    ensures RingWord(stream, initial, written, k % RING) == stream(k)
  {
    var slot := k % RING;
    DivModUnique(written - 1 - slot, RING, k / RING, written - 1 - k);
  }

  lemma BlockIsNext<T>(stream: nat -> T, initial: nat -> T, s: Server<T>, blocks: nat, it: Iteration, j: nat)
    requires Inv(stream, s, blocks) && WellFormed(it) && it.advance <= PACE && j < BLOCK
    requires s.written >= (blocks + 1) * BLOCK
    ensures var offset := if s.limit > 0 then 0 else BLOCK;
      Block(stream, initial, s.written, offset, it)[j] == stream(blocks * BLOCK + j)
  {
    var k := blocks * BLOCK + j;
    DivModUnique(k, RING, blocks / 2, (if blocks % 2 == 0 then 0 else BLOCK) + j);
    WordStillThere(stream, initial, s.written + it.progress[j], k);
  }

  lemma StepInv<T>(stream: nat -> T, initial: nat -> T, s: Server<T>, blocks: nat, it: Iteration)
    requires Inv(stream, s, blocks) && WellFormed(it) && it.advance <= PACE
    ensures Inv(stream, Step(stream, initial, s, it),
                if Ready(s.limit, s.written % RING) then blocks + 1 else blocks)
  {
    ReadyIsExact(stream, s, blocks);
    if Ready(s.limit, s.written % RING) {
      var s' := Step(stream, initial, s, it);
      forall k | 0 <= k < |s'.sent| ensures s'.sent[k] == stream(k) {
        if k >= |s.sent| {
          BlockIsNext(stream, initial, s, blocks, it, k - |s.sent|);
        }
      }
    }
  }

  lemma {:induction false} RunInv<T>(stream: nat -> T, initial: nat -> T, its: seq<Iteration>) returns (blocks: nat)
    requires AllWellFormed(its) && Paced(its, PACE)
    ensures Inv(stream, Run(stream, initial, its), blocks)
  {
    if |its| == 0 {
      blocks := 0;
    } else {
      var before := its[..|its| - 1];
      var b := RunInv(stream, initial, before);
      var s := Run(stream, initial, before);
      StepInv(stream, initial, s, b, its[|its| - 1]);
      blocks := if Ready(s.limit, s.written % RING) then b + 1 else b;
    }
  }

  /** With the writer paced, everything ever sent is the stream from its start, in
      whole blocks, and the server is never more than a block and a half behind. */
  lemma Delivery<T>(stream: nat -> T, initial: nat -> T, its: seq<Iteration>)
    requires AllWellFormed(its) && Paced(its, PACE)
    ensures var s := Run(stream, initial, its);
      && IsPrefix(stream, s.sent)
      && |s.sent| % BLOCK == 0
      && |s.sent| <= s.written <= |s.sent| + BLOCK + PACE
  {
    var blocks := RunInv(stream, initial, its);
    DivModUnique(|Run(stream, initial, its).sent|, BLOCK, blocks, 0);
  }

  // ------------------------------------------------ the pace is the exact limit

  function Even(advance: nat): (it: Iteration)
    ensures WellFormed(it) && it.advance == advance
  {
    Iteration(advance, seq(BLOCK, _ => advance))
  }

  /** Fill the first half, overshoot, then keep writing while the block is read. */
  function Overrun(): (its: seq<Iteration>)
    ensures AllWellFormed(its) && Paced(its, PACE + 1)
  {
    [Even(PACE), Even(PACE), Even(PACE + 1), Even(PACE + 1)]
  }

  /** After three polls the first half is full and nothing has been sent. */
  lemma OverrunFills(stream: nat -> nat, initial: nat -> nat)
    ensures Run(stream, initial, Overrun()[..3]) == Server(BLOCK, 3 * PACE + 1, [])
  {
    var its := Overrun();
    RunPrefix(stream, initial, its, 0);
    RunPrefix(stream, initial, its, 1);
    RunPrefix(stream, initial, its, 2);
  }

  /** The fourth poll then sends a first half whose slot 0 has been overwritten. */
  lemma TornStep(stream: nat -> nat, initial: nat -> nat, s: Server<nat>)
    requires s == Server(BLOCK, 3 * PACE + 1, [])
    ensures var sent := Step(stream, initial, s, Even(PACE + 1)).sent; |sent| > 0 && sent[0] == stream(RING)
  {
    DivModUnique(s.written, RING, 0, s.written);
    var block := Block(stream, initial, s.written, 0, Even(PACE + 1));
    assert block[0] == RingWord(stream, initial, 4 * PACE + 2, 0);
  }

  /** One word more per iteration and a block is overwritten while it is sent. */
  lemma OverrunTears()
    ensures !IsPrefix(k => k, Run(k => k, _ => 0, Overrun()).sent)
  {
    var (stream, initial) := ((k: nat) => k, (_: nat) => 0);
    var its := Overrun();
    OverrunFills(stream, initial);
    RunPrefix(stream, initial, its, 3);
    assert its[..4] == its;
    TornStep(stream, initial, Run(stream, initial, its[..3]));
  }

  ghost predicate DeliversAt(pace: nat) {
    forall its | AllWellFormed(its) && Paced(its, pace) ::
      IsPrefix(k => k, Run(k => k, _ => 0, its).sent)
  }

  /** The server delivers the stream for every schedule at a given pace if and
      only if the pace is at most a quarter of the ring. */
  lemma PaceIsExact(pace: nat)
    ensures DeliversAt(pace) <==> pace <= PACE
  {
    if pace <= PACE {
      forall its | AllWellFormed(its) && Paced(its, pace)
        ensures IsPrefix(k => k, Run(k => k, _ => 0, its).sent)
      {
        assert Paced(its, PACE);
        var blocks := RunInv((k: nat) => k, (_: nat) => 0, its);
      }
    } else {
      assert Paced(Overrun(), pace);
      OverrunTears();
    }
  }

  /** The loop itself. */
  method Serve<T>(stream: nat -> T, initial: nat -> T, its: seq<Iteration>) returns (sent: seq<T>)
    requires AllWellFormed(its)
    ensures sent == Run(stream, initial, its).sent
    ensures Paced(its, PACE) ==> IsPrefix(stream, sent)
  {
    sent := [];
    var limit: nat, written: nat := BLOCK, 0;
    for i := 0 to |its|
      invariant Server(limit, written, sent) == Run(stream, initial, its[..i])
    {
      RunPrefix(stream, initial, its, i);
      var position := written % RING;
      if (limit > 0 && position > limit) || (limit == 0 && position < BLOCK) {
        var offset := if limit > 0 then 0 else BLOCK;
        limit := if limit > 0 then 0 else BLOCK;
        sent := sent + Block(stream, initial, written, offset, its[i]);
      }
      written := written + its[i].advance;
    }
    assert its[..|its|] == its;
    if Paced(its, PACE) {
      Delivery(stream, initial, its);
    }
  }
}
