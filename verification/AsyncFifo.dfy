/** The dual-clock FIFO: Gray pointers, their two-stage delayed copies and the
    shared RAM.  Clock edges of the two domains may interleave in any order or
    coincide. */
module AsyncFifo {
  import opened Arith
  import opened GrayCode

  /** A register with the two stages that delay its copy for the other domain. */
  datatype Lagged<X> = Lagged(now: X, meta: X, sync: X)

  /** Every register of the FIFO: the write pointer, the read pointer, the RAM and
      the registered read data. */
  datatype Fifo<T> = Fifo(w: Lagged<Bits>, r: Lagged<Bits>, ram: seq<T>, dob: T)

  /** One rising edge of the write clock, of the read clock, or of both at once.
      When both ports of the shared RAM fire together the read port may or may
      not see the word being written. */
  datatype Edge<T> =
    | WriteEdge(valid: bool, data: T)
    | ReadEdge(ready: bool)
    | BothEdges(valid: bool, data: T, ready: bool, readSeesWrite: bool)

  ghost predicate Sized<T>(n: nat, f: Fifo<T>) {
    && n >= 1
    && |f.w.now| == |f.w.meta| == |f.w.sync| == n + 1
    && |f.r.now| == |f.r.meta| == |f.r.sync| == n + 1
    && |f.ram| == Pow2(n)
  }

  /** The state after both domains were reset together; RAM contents are arbitrary. */
  ghost predicate JointReset<T>(n: nat, f: Fifo<T>) {
    && Sized(n, f)
    && var zeros := seq(n + 1, _ => false);
       f.w == f.r == Lagged(zeros, zeros, zeros)
  }

  /** `we_s`: the write port stores `data` on this edge. */
  predicate Accepts<T>(f: Fifo<T>, valid: bool)
    requires |f.r.sync| == |f.w.now| >= 2
  {
    !Full(f.r.sync, f.w.now) && valid
  }

  /** `rd_s`: the word latched on this edge is consumed. */
  predicate Delivers<T>(f: Fifo<T>, ready: bool)
    requires |f.w.sync| == |f.r.now| >= 2
  {
    !Empty(f.w.sync, f.r.now) && ready
  }

  /** A pointer and its synchroniser on one edge of their clock. */
  function Advance(p: Lagged<Bits>, go: bool): (p': Lagged<Bits>) {
    Lagged(if go then NextPointer(p.now) else p.now, p.now, p.meta)
  }

  function WriteSide<T>(n: nat, f: Fifo<T>, valid: bool, data: T): (f': Fifo<T>)
    requires Sized(n, f)
    ensures Sized(n, f')
  {
    ValueBound(Address(f.w.now));
    var accept := Accepts(f, valid);
    f.(w := Advance(f.w, accept),
       ram := if accept then f.ram[Value(Address(f.w.now)) := data] else f.ram)
  }

  function ReadSide<T>(n: nat, f: Fifo<T>, ready: bool): (f': Fifo<T>)
    requires Sized(n, f)
    ensures Sized(n, f')
  {
    ValueBound(Address(f.r.now));
    f.(r := Advance(f.r, Delivers(f, ready)),
       dob := f.ram[Value(Address(f.r.now))])
  }

  function Step<T>(n: nat, f: Fifo<T>, e: Edge<T>): (f': Fifo<T>)
    requires Sized(n, f)
    ensures Sized(n, f')
  {
    match e
    case WriteEdge(valid, data) => WriteSide(n, f, valid, data)
    case ReadEdge(ready) => ReadSide(n, f, ready)
    case BothEdges(valid, data, ready, readSeesWrite) =>
      var written := WriteSide(n, f, valid, data);
      var read := ReadSide(n, if readSeesWrite then f.(ram := written.ram) else f, ready);
      written.(r := read.r, dob := read.dob)
  }

  /** The word stored on an edge, if any. */
  function StoredBy<T>(n: nat, f: Fifo<T>, e: Edge<T>): (s: seq<T>)
    requires Sized(n, f)
  {
    if !e.ReadEdge? && Accepts(f, e.valid) then [e.data] else []
  }

  /** The word consumed on an edge, if any: what the edge latches into `dob`. */
  function CapturedBy<T>(n: nat, f: Fifo<T>, e: Edge<T>): (s: seq<T>)
    requires Sized(n, f)
  {
    if !e.WriteEdge? && Delivers(f, e.ready) then [Step(n, f, e).dob] else []
  }

  function Run<T>(n: nat, f: Fifo<T>, es: seq<Edge<T>>): (f': Fifo<T>)
    requires Sized(n, f)
    ensures Sized(n, f')
  {
    if |es| == 0 then f else Step(n, Run(n, f, es[..|es| - 1]), es[|es| - 1])
  }

  /** All words stored in a run, oldest first. */
  function Stored<T>(n: nat, f: Fifo<T>, es: seq<Edge<T>>): (s: seq<T>)
    requires Sized(n, f)
  {
    if |es| == 0 then []
    else
      var before := es[..|es| - 1];
      Stored(n, f, before) + StoredBy(n, Run(n, f, before), es[|es| - 1])
  }

  /** All words consumed in a run, oldest first. */
  function Captured<T>(n: nat, f: Fifo<T>, es: seq<Edge<T>>): (s: seq<T>)
    requires Sized(n, f)
  {
    if |es| == 0 then []
    else
      var before := es[..|es| - 1];
      Captured(n, f, before) + CapturedBy(n, Run(n, f, before), es[|es| - 1])
  }

  // ------------------------------------------------------- unbounded counters

  /** What each pointer register stands for, as an unbounded count. */
  datatype Counts = Counts(w: Lagged<nat>, r: Lagged<nat>)

  ghost predicate Chain(n: nat, c: Counts) {
    c.r.sync <= c.r.meta <= c.r.now <= c.w.sync <= c.w.meta <= c.w.now <= c.r.sync + Pow2(n)
  }

  function Pointers(n: nat, c: Lagged<nat>): (p: Lagged<Bits>) {
    Lagged(Pointer(c.now, n), Pointer(c.meta, n), Pointer(c.sync, n))
  }

  ghost predicate Represents<T>(n: nat, f: Fifo<T>, c: Counts) {
    f.w == Pointers(n, c.w) && f.r == Pointers(n, c.r)
  }

  /** Every unread word sits in its slot. */
  ghost predicate Holds<T>(n: nat, ram: seq<T>, c: Counts, stored: seq<T>)
    requires n >= 1 && |ram| == Pow2(n)
  {
    && |stored| == c.w.now
    && forall k :: c.r.now <= k < c.w.now ==> ram[Slot(k, n)] == stored[k]
  }

  ghost predicate Inv<T>(n: nat, f: Fifo<T>, c: Counts, stored: seq<T>, captured: seq<T>) {
    && Sized(n, f)
    && Chain(n, c)
    && Represents(n, f, c)
    && Holds(n, f.ram, c, stored)
    && captured == stored[..c.r.now]
  }

  const NO_COUNTS := Counts(Lagged(0, 0, 0), Lagged(0, 0, 0))

  function Count(c: Lagged<nat>, go: bool): (c': Lagged<nat>) {
    Lagged(c.now + Bit(go), c.now, c.meta)
  }

  function CountWrite(c: Counts, accept: bool): (c': Counts) { c.(w := Count(c.w, accept)) }

  function CountRead(c: Counts, deliver: bool): (c': Counts) { c.(r := Count(c.r, deliver)) }

  /** Gray pointers step exactly as the counts they stand for. */
  lemma AdvanceCounts(n: nat, c: Lagged<nat>, go: bool)
    ensures Advance(Pointers(n, c), go) == Pointers(n, Count(c, go))
  {
    PointerSuccessor(c.now, n);
  }

  lemma Doubled(n: nat)
    ensures Pow2(n + 1) == 2 * Pow2(n)
  {
  }

  /** Under the pointer chain the Gray full flag is exact about the delayed count. */
  lemma FullIsExact(n: nat, c: Counts)
    requires n >= 1 && Chain(n, c)
    ensures Full(Pointer(c.r.sync, n), Pointer(c.w.now, n)) <==> c.w.now == c.r.sync + Pow2(n)
  {
    var (h, m) := (Pow2(n), Pow2(n + 1));
    Doubled(n);
    FullMeansHalfTurn(c.w.now, c.r.sync, n, h, m);
    CongruentAndClose(c.w.now, c.r.sync + h, m);
  }

  lemma EmptyIsExact(n: nat, c: Counts)
    requires n >= 1 && Chain(n, c)
    ensures Empty(Pointer(c.w.sync, n), Pointer(c.r.now, n)) <==> c.w.sync == c.r.now
  {
    var m := Pow2(n + 1);
    Doubled(n);
    EmptyMeansEqual(c.w.sync, c.r.now, n, m);
    CongruentAndClose(c.r.now, c.w.sync, m);
  }

  /** Counts less than a full turn apart never share a slot. */
  lemma SlotsApart(a: nat, b: nat, n: nat)
    requires n >= 1 && a < b < a + Pow2(n)
    ensures Slot(a, n) != Slot(b, n)
  {
    var h := Pow2(n);
    SlotsCoincide(a, b, n, h);
    CongruentAndClose(a, b, h);
  }

  /** A write less than one turn ahead of the reader keeps every unread word. */
  lemma WriteKeepsUnread<T>(n: nat, ram: seq<T>, c: Counts, stored: seq<T>, data: T)
    requires n >= 1 && |ram| == Pow2(n) && Holds(n, ram, c, stored)
    requires c.r.now <= c.w.now < c.r.now + Pow2(n)
    ensures Holds(n, ram[Slot(c.w.now, n) := data], c.(w := c.w.(now := c.w.now + 1)), stored + [data])
  {
    var (ram', stored') := (ram[Slot(c.w.now, n) := data], stored + [data]);
    forall k | c.r.now <= k < c.w.now + 1 ensures ram'[Slot(k, n)] == stored'[k] {
      if k < c.w.now {
        SlotsApart(k, c.w.now, n);
      }
    }
  }

  lemma WriteCounts(n: nat, c: Counts, accept: bool)
    requires n >= 1 && Chain(n, c) && (accept ==> !Full(Pointer(c.r.sync, n), Pointer(c.w.now, n)))
    ensures Chain(n, CountWrite(c, accept)) && (accept ==> c.w.now < c.r.sync + Pow2(n))
  {
    FullIsExact(n, c);
  }

  lemma WriteHolds<T>(n: nat, f: Fifo<T>, c: Counts, stored: seq<T>, valid: bool, data: T)
    requires Sized(n, f) && Chain(n, c) && Represents(n, f, c) && Holds(n, f.ram, c, stored)
    ensures var accept := Accepts(f, valid);
      Holds(n, WriteSide(n, f, valid, data).ram, CountWrite(c, accept), stored + if accept then [data] else [])
  {
    WriteCounts(n, c, Accepts(f, valid));
    if Accepts(f, valid) {
      WriteKeepsUnread(n, f.ram, c, stored, data);
    } else {
      assert stored + [] == stored;
    }
  }

  lemma WriteStep<T>(n: nat, f: Fifo<T>, c: Counts, stored: seq<T>, captured: seq<T>, valid: bool, data: T)
    requires Inv(n, f, c, stored, captured)
    ensures var accept := Accepts(f, valid);
      Inv(n, WriteSide(n, f, valid, data), CountWrite(c, accept),
          stored + if accept then [data] else [], captured)
  {
    WriteCounts(n, c, Accepts(f, valid));
    AdvanceCounts(n, c.w, Accepts(f, valid));
    WriteHolds(n, f, c, stored, valid, data);
    TakeOfAppend(stored, if Accepts(f, valid) then [data] else [], c.r.now);
  }

  lemma ReadCounts(n: nat, c: Counts, deliver: bool)
    requires n >= 1 && Chain(n, c) && (deliver ==> !Empty(Pointer(c.w.sync, n), Pointer(c.r.now, n)))
    ensures Chain(n, CountRead(c, deliver)) && (deliver ==> c.r.now < c.w.sync)
  {
    EmptyIsExact(n, c);
  }

  lemma TakeNext<T>(s: seq<T>, k: nat)
    requires k < |s|
    ensures s[..k] + [s[k]] == s[..k + 1]
  {
  }

  lemma TakeOfAppend<T>(s: seq<T>, t: seq<T>, k: nat)
    requires k <= |s|
    ensures (s + t)[..k] == s[..k]
  {
  }

  /** What the read port latches is the oldest unread word, when there is one. */
  lemma ReadLatchesOldest<T>(n: nat, f: Fifo<T>, c: Counts, stored: seq<T>, ready: bool)
    requires Sized(n, f) && Represents(n, f, c) && Holds(n, f.ram, c, stored) && c.r.now < c.w.now
    ensures ReadSide(n, f, ready).dob == stored[c.r.now]
  {
  }

  lemma ReadStep<T>(n: nat, f: Fifo<T>, c: Counts, stored: seq<T>, captured: seq<T>, ready: bool)
    requires Inv(n, f, c, stored, captured)
    ensures var f' := ReadSide(n, f, ready);
      Inv(n, f', CountRead(c, Delivers(f, ready)), stored,
          captured + if Delivers(f, ready) then [f'.dob] else [])
  {
    var deliver := Delivers(f, ready);
    ReadCounts(n, c, deliver);
    AdvanceCounts(n, c.r, deliver);
    if deliver {
      ReadLatchesOldest(n, f, c, stored, ready);
      TakeNext(stored, c.r.now);
    }
  }

  /** Coinciding edges: each domain sees the other's registers from before the
      edge, and whichever RAM contents the read port sees, the word is the same. */
  lemma BothStep<T>(n: nat, f: Fifo<T>, c: Counts, stored: seq<T>, captured: seq<T>, e: Edge<T>)
    requires Inv(n, f, c, stored, captured) && e.BothEdges?
    ensures Inv(n, Step(n, f, e), CountRead(CountWrite(c, Accepts(f, e.valid)), Delivers(f, e.ready)),
                stored + StoredBy(n, f, e), captured + CapturedBy(n, f, e))
  {
    var (accept, deliver) := (Accepts(f, e.valid), Delivers(f, e.ready));
    WriteCounts(n, c, accept);
    ReadCounts(n, c, deliver);
    AdvanceCounts(n, c.w, accept);
    AdvanceCounts(n, c.r, deliver);
    WriteHolds(n, f, c, stored, e.valid, e.data);
    BothDelivers(n, f, c, stored, captured, e);
  }

  lemma BothDelivers<T>(n: nat, f: Fifo<T>, c: Counts, stored: seq<T>, captured: seq<T>, e: Edge<T>)
    requires Inv(n, f, c, stored, captured) && e.BothEdges?
    ensures captured + CapturedBy(n, f, e)
         == (stored + StoredBy(n, f, e))[..c.r.now + Bit(Delivers(f, e.ready))]
  {
    var deliver := Delivers(f, e.ready);
    ReadCounts(n, c, deliver);
    TakeOfAppend(stored, StoredBy(n, f, e), c.r.now + Bit(deliver));
    if deliver {
      TakeNext(stored, c.r.now);
      WriteHolds(n, f, c, stored, e.valid, e.data);
      ReadLatchesOldest(n, f, c, stored, e.ready);
    }
  }

  function CountStep<T>(n: nat, f: Fifo<T>, c: Counts, e: Edge<T>): (c': Counts)
    requires Sized(n, f)
  {
    var cw := if e.ReadEdge? then c else CountWrite(c, Accepts(f, e.valid));
    if e.WriteEdge? then cw else CountRead(cw, Delivers(f, e.ready))
  }

  /** The counts a run reaches, following the hardware's own accept signals. */
  function CountsAfter<T>(n: nat, f: Fifo<T>, es: seq<Edge<T>>): (c: Counts)
    requires Sized(n, f)
  {
    if |es| == 0 then NO_COUNTS
    else
      var before := es[..|es| - 1];
      CountStep(n, Run(n, f, before), CountsAfter(n, f, before), es[|es| - 1])
  }

  lemma {:induction false} BitsOfZero(i: nat)
    ensures !NatBit(0, i)
  {
    if i == 0 {
    } else {
      BitsOfZero(i - 1);
    }
  }

  lemma ResetInv<T>(n: nat, f: Fifo<T>)
    requires JointReset(n, f)
    ensures Inv(n, f, NO_COUNTS, [], [])
  {
    forall i: nat ensures !NatBit(0, i) {
      BitsOfZero(i);
    }
    assert Pointer(0, n) == seq(n + 1, _ => false);
  }

  lemma RunAppend<T>(n: nat, f: Fifo<T>, es: seq<Edge<T>>, e: Edge<T>)
    requires Sized(n, f)
    ensures Run(n, f, es + [e]) == Step(n, Run(n, f, es), e)
    ensures Stored(n, f, es + [e]) == Stored(n, f, es) + StoredBy(n, Run(n, f, es), e)
    ensures Captured(n, f, es + [e]) == Captured(n, f, es) + CapturedBy(n, Run(n, f, es), e)
    ensures var (s, c) := (Run(n, f, es), CountsAfter(n, f, es));
      CountsAfter(n, f, es + [e]) == CountStep(n, s, c, e)
  {
    assert (es + [e])[..|es + [e]| - 1] == es;
  }

  lemma {:induction false} RunInv<T>(n: nat, f: Fifo<T>, es: seq<Edge<T>>)
    requires JointReset(n, f)
    ensures Inv(n, Run(n, f, es), CountsAfter(n, f, es), Stored(n, f, es), Captured(n, f, es))
  {
    if |es| == 0 {
      ResetInv(n, f);
    } else {
      var before := es[..|es| - 1];
      var e := es[|es| - 1];
      RunInv(n, f, before);
      var (s, c) := (Run(n, f, before), CountsAfter(n, f, before));
      var (stored, captured) := (Stored(n, f, before), Captured(n, f, before));
      match e {
        case WriteEdge(valid, data) =>
          WriteStep(n, s, c, stored, captured, valid, data);
          assert captured + [] == captured;
        case ReadEdge(ready) =>
          ReadStep(n, s, c, stored, captured, ready);
          assert stored + [] == stored;
        case BothEdges(_, _, _, _) =>
          BothStep(n, s, c, stored, captured, e);
      }
    }
  }

  // ------------------------------------------------------------ main theorems

  /** From joint reset, under every interleaving: the words consumed are a prefix
      of the words stored, and never more than 2^N words are in flight. */
  lemma FifoOrder<T>(n: nat, f: Fifo<T>, es: seq<Edge<T>>)
    requires JointReset(n, f)
    ensures Captured(n, f, es) <= Stored(n, f, es)
    ensures |Stored(n, f, es)| - |Captured(n, f, es)| <= Pow2(n)
  {
    RunInv(n, f, es);
  }

  /** The pointer chain: each delayed copy lags the pointer it copies, the reader
      never passes what it has seen of the writer, and the writer is never more
      than one turn ahead of what it has seen of the reader. */
  lemma PointerChain<T>(n: nat, f: Fifo<T>, es: seq<Edge<T>>)
    requires JointReset(n, f)
    ensures Chain(n, CountsAfter(n, f, es)) && Represents(n, Run(n, f, es), CountsAfter(n, f, es))
    ensures CountsAfter(n, f, es).w.now == |Stored(n, f, es)|
    ensures CountsAfter(n, f, es).r.now == |Captured(n, f, es)|
  {
    RunInv(n, f, es);
  }

  /** No unread word is ever overwritten: it stays readable in its slot. */
  lemma UnreadWordsSurvive<T>(n: nat, f: Fifo<T>, es: seq<Edge<T>>, k: nat)
    requires JointReset(n, f)
    requires |Captured(n, f, es)| <= k < |Stored(n, f, es)|
    ensures Run(n, f, es).ram[Slot(k, n)] == Stored(n, f, es)[k]
  {
    RunInv(n, f, es);
  }

  function Reads<T>(k: nat): (es: seq<Edge<T>>) { seq(k, _ => ReadEdge(true)) }

  lemma ReadyReadStep<T>(n: nat, f: Fifo<T>, es: seq<Edge<T>>)
    requires JointReset(n, f) && CountsAfter(n, f, es).w.sync == CountsAfter(n, f, es).w.now
    ensures var (c, c') := (CountsAfter(n, f, es), CountsAfter(n, f, es + [ReadEdge(true)]));
      c'.w.sync == c'.w.now == c.w.now && c'.r.now == if c.r.now < c.w.now then c.r.now + 1 else c.r.now
  {
    RunInv(n, f, es);
    RunAppend(n, f, es, ReadEdge(true));
    EmptyIsExact(n, CountsAfter(n, f, es));
  }

  lemma ReadsSnoc<T>(es: seq<Edge<T>>, k: nat)
    requires k > 0
    ensures es + Reads(k) == es + Reads(k - 1) + [ReadEdge(true)]
  {
    var e: Edge<T> := ReadEdge(true);
    assert Reads<T>(k) == Reads(k - 1) + [e];
  }

  lemma {:induction false} DrainFrom<T>(n: nat, f: Fifo<T>, es: seq<Edge<T>>, k: nat)
    requires JointReset(n, f) && CountsAfter(n, f, es).w.sync == CountsAfter(n, f, es).w.now
    ensures var (c, c') := (CountsAfter(n, f, es), CountsAfter(n, f, es + Reads(k)));
      c'.w.sync == c'.w.now == c.w.now && (c.r.now + k >= c.w.now ==> c'.r.now >= c.w.now) && c'.r.now >= c.r.now
      && (c.r.now + k < c.w.now ==> c'.r.now == c.r.now + k)
    ensures Stored(n, f, es + Reads(k)) == Stored(n, f, es)
  {
    var e: Edge<T> := ReadEdge(true);
    if k == 0 {
      assert es + Reads(0) == es;
    } else {
      DrainFrom(n, f, es, k - 1);
      ReadsSnoc<T>(es, k);
      ReadyReadStep(n, f, es + Reads(k - 1));
    }
  }

  lemma IdleWrites<T>(n: nat, f: Fifo<T>, es: seq<Edge<T>>, e: Edge<T>)
    requires Sized(n, f) && e.WriteEdge? && !e.valid
    ensures var (c, c') := (CountsAfter(n, f, es), CountsAfter(n, f, es + [e] + [e]));
      c'.w.sync == c'.w.now == c.w.now && c'.r.now == c.r.now
    ensures Stored(n, f, es + [e] + [e]) == Stored(n, f, es)
  {
    RunAppend(n, f, es, e);
    RunAppend(n, f, es + [e], e);
  }

  /** Nothing gets stuck: after any run, two idle edges of the write clock make
      every stored word visible, and as many ready read edges as there are words
      in flight deliver all of them. */
  lemma Drains<T>(n: nat, f: Fifo<T>, es: seq<Edge<T>>, idle: T, k: nat)
    requires JointReset(n, f)
    requires k >= |Stored(n, f, es)| - |Captured(n, f, es)|
    ensures Captured(n, f, es + [WriteEdge(false, idle)] + [WriteEdge(false, idle)] + Reads(k))
            == Stored(n, f, es)
  {
    var e := WriteEdge(false, idle);
    var two := es + [e] + [e];
    IdleWrites(n, f, es, e);
    DrainFrom(n, f, two, k);
    RunInv(n, f, es);
    RunInv(n, f, two + Reads(k));
  }

  function Writes<T>(words: seq<T>): (es: seq<Edge<T>>) {
    seq(|words|, i requires 0 <= i < |words| => WriteEdge(true, words[i]))
  }

  lemma ValidWriteStep<T>(n: nat, f: Fifo<T>, es: seq<Edge<T>>, word: T)
    requires JointReset(n, f) && CountsAfter(n, f, es).r.sync == CountsAfter(n, f, es).r.now
    requires CountsAfter(n, f, es).w.now < CountsAfter(n, f, es).r.now + Pow2(n)
    ensures var (c, c') := (CountsAfter(n, f, es), CountsAfter(n, f, es + [WriteEdge(true, word)]));
      c'.r.sync == c'.r.now == c.r.now && c'.w.now == c.w.now + 1
    ensures Stored(n, f, es + [WriteEdge(true, word)]) == Stored(n, f, es) + [word]
  {
    RunInv(n, f, es);
    RunAppend(n, f, es, WriteEdge(true, word));
    FullIsExact(n, CountsAfter(n, f, es));
  }

  lemma WritesFront<T>(es: seq<Edge<T>>, words: seq<T>)
    requires |words| > 0
    ensures es + Writes(words) == es + [WriteEdge(true, words[0])] + Writes(words[1..])
  {
  }

  lemma AppendFront<T>(s: seq<T>, words: seq<T>)
    requires |words| > 0
    ensures s + words == s + [words[0]] + words[1..]
  {
  }

  lemma {:induction false} FillFrom<T>(n: nat, f: Fifo<T>, es: seq<Edge<T>>, words: seq<T>)
    requires JointReset(n, f) && CountsAfter(n, f, es).r.sync == CountsAfter(n, f, es).r.now
    requires CountsAfter(n, f, es).w.now + |words| <= CountsAfter(n, f, es).r.now + Pow2(n)
    ensures Stored(n, f, es + Writes(words)) == Stored(n, f, es) + words
    ensures var (c, c') := (CountsAfter(n, f, es), CountsAfter(n, f, es + Writes(words)));
      c'.r.sync == c'.r.now == c.r.now && c'.w.now == c.w.now + |words|
    decreases |words|
  {
    if |words| == 0 {
      assert es + Writes(words) == es;
    } else {
      ValidWriteStep(n, f, es, words[0]);
      FillFrom(n, f, es + [WriteEdge(true, words[0])], words[1..]);
      WritesFront(es, words);
      AppendFront(Stored(n, f, es), words);
    }
  }

  lemma IdleReads<T>(n: nat, f: Fifo<T>, es: seq<Edge<T>>)
    requires Sized(n, f)
    ensures var (c, c') := (CountsAfter(n, f, es), CountsAfter(n, f, es + [ReadEdge(false)] + [ReadEdge(false)]));
      c'.r.sync == c'.r.now == c.r.now && c'.w.now == c.w.now
    ensures Stored(n, f, es + [ReadEdge(false)] + [ReadEdge(false)]) == Stored(n, f, es)
  {
    RunAppend(n, f, es, ReadEdge(false));
    RunAppend(n, f, es + [ReadEdge(false)], ReadEdge(false));
  }

  /** The whole RAM is usable: after any run, two idle edges of the read clock let
      the writer store exactly as many words as there are free slots, and not one
      more. */
  lemma FillsToCapacity<T>(n: nat, f: Fifo<T>, es: seq<Edge<T>>, words: seq<T>)
    requires JointReset(n, f)
    requires |words| == Pow2(n) - (|Stored(n, f, es)| - |Captured(n, f, es)|)
    ensures var after := es + [ReadEdge(false)] + [ReadEdge(false)] + Writes(words);
      && Stored(n, f, after) == Stored(n, f, es) + words
      && !Accepts(Run(n, f, after), true)
  {
    var two := es + [ReadEdge(false)] + [ReadEdge(false)];
    RunInv(n, f, es);
    IdleReads(n, f, es);
    FillFrom(n, f, two, words);
    RunInv(n, f, two + Writes(words));
    FullIsExact(n, CountsAfter(n, f, two + Writes(words)));
  }

  // --------------------------------------------------- when words are let through

  predicate OnClock<T>(e: Edge<T>, write: bool) { if write then !e.ReadEdge? else !e.WriteEdge? }

  /** The run up to before the last `k` edges of one clock. */
  function BeforeEdges<T>(es: seq<Edge<T>>, k: nat, write: bool): (before: seq<Edge<T>>) {
    if k == 0 || |es| == 0 then es
    else BeforeEdges(es[..|es| - 1], if OnClock(es[|es| - 1], write) then k - 1 else k, write)
  }

  /** The delayed copies are the counts of one and two edges ago on their own clocks. */
  ghost predicate Lags<T>(n: nat, f: Fifo<T>, es: seq<Edge<T>>)
    requires Sized(n, f)
  {
    var c := CountsAfter(n, f, es);
    && c.w.meta == |Stored(n, f, BeforeEdges(es, 1, true))| && c.w.sync == |Stored(n, f, BeforeEdges(es, 2, true))|
    && c.r.meta == |Captured(n, f, BeforeEdges(es, 1, false))| && c.r.sync == |Captured(n, f, BeforeEdges(es, 2, false))|
  }

  lemma {:induction false} RunLags<T>(n: nat, f: Fifo<T>, es: seq<Edge<T>>)
    requires JointReset(n, f)
    ensures Lags(n, f, es)
  {
    if |es| == 0 {
    } else {
      var before := es[..|es| - 1];
      RunLags(n, f, before);
      PointerChain(n, f, before);
    }
  }

  /** In every run a valid word is stored if and only if fewer than 2^N words are stored
      beyond those read two read edges ago. */
  lemma AcceptsExactly<T>(n: nat, f: Fifo<T>, es: seq<Edge<T>>, valid: bool)
    requires JointReset(n, f)
    ensures Accepts(Run(n, f, es), valid) <==>
      valid && |Stored(n, f, es)| < |Captured(n, f, BeforeEdges(es, 2, false))| + Pow2(n)
  {
    PointerChain(n, f, es);
    RunLags(n, f, es);
    FullIsExact(n, CountsAfter(n, f, es));
  }

  /** A ready sink is given a word if and only if one is left of those stored two write
      edges ago. */
  lemma DeliversExactly<T>(n: nat, f: Fifo<T>, es: seq<Edge<T>>, ready: bool)
    requires JointReset(n, f)
    ensures Delivers(Run(n, f, es), ready) <==>
      ready && |Captured(n, f, es)| < |Stored(n, f, BeforeEdges(es, 2, true))|
  {
    PointerChain(n, f, es);
    RunLags(n, f, es);
    EmptyIsExact(n, CountsAfter(n, f, es));
  }

  // ------------------------------------------------------- the entity itself

  /** `log2c`: the address width for a requested depth is the least that fits. */
  method Log2c(n: nat) returns (m: nat)
    ensures Pow2(m) >= n
    ensures forall k: nat :: k < m ==> Pow2(k) < n
  {
    m := 0;
    var p := 1;
    while p < n
      invariant p == Pow2(m)
      invariant forall k: nat :: k < m ==> Pow2(k) < n
      decreases n - p
    {
      m := m + 1;
      p := p * 2;
    }
  }

  /** The registers and RAM updated in place, one method per clock edge. */
  class AxisFifo<T> {
    const n: nat
    var w: Lagged<Bits>
    var r: Lagged<Bits>
    const ram: array<T>
    var dob: T

    ghost function View(): (f: Fifo<T>)
      reads this, ram
    {
      Fifo(w, r, ram[..], dob)
    }

    ghost predicate Valid()
      reads this, ram
    {
      Sized(n, View())
    }

    constructor (n: nat, memory: array<T>, dob: T)
      requires n >= 1 && memory.Length == Pow2(n)
      ensures Valid() && JointReset(n, View())
      ensures this.n == n && ram == memory
    {
      this.n := n;
      var zeros := seq(n + 1, _ => false);
      w, r := Lagged(zeros, zeros, zeros), Lagged(zeros, zeros, zeros);
      ram := memory;
      this.dob := dob;
    }

    method OnWriteEdge(valid: bool, data: T) returns (accept: bool)
      requires Valid()
      modifies `w, ram
      ensures Valid() && View() == Step(n, old(View()), WriteEdge(valid, data))
      ensures accept == Accepts(old(View()), valid)
    {
      ValueBound(Address(w.now));
      accept := !Full(r.sync, w.now) && valid;
      if accept {
        ram[Value(Address(w.now))] := data;
      }
      w := Advance(w, accept);
    }

    method OnReadEdge(ready: bool) returns (deliver: bool)
      requires Valid()
      modifies `r, `dob
      ensures Valid() && View() == Step(n, old(View()), ReadEdge(ready))
      ensures deliver == Delivers(old(View()), ready)
    {
      ValueBound(Address(r.now));
      deliver := !Empty(w.sync, r.now) && ready;
      dob := ram[Value(Address(r.now))];
      r := Advance(r, deliver);
    }
  }
}
