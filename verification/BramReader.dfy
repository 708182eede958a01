/** The readout of the narrow RAM as a stream packet. */
module BramReader {

  datatype Phase = Idle | EnBram | SendData | Tlast | Finish

  /** FSM, address counter and the RAM's registered output. */
  datatype Reader = Reader(phase: Phase, addr: nat, data: nat)

  datatype Input = Input(go: bool, tready: bool)

  /** One word handed to the sink. */
  datatype Transfer = Transfer(data: nat, last: bool)

  /** One rising edge; `mem` is the RAM, `n` the configured word count.  The last
      address is compared in 16 bits, so zero wraps. */
  function Step(mem: seq<nat>, n: nat, r: Reader, i: Input): (r': Reader)
    requires r.addr < |mem|
    ensures r'.addr < |mem|
  {
    var next := if r.addr + 1 == |mem| then 0 else r.addr + 1;
    match r.phase
    case Idle => Reader(if i.go then EnBram else Idle, 0, 0)
    case EnBram => if i.tready then Reader(SendData, next, mem[r.addr]) else r
    case SendData =>
      if i.tready then Reader(if r.addr == LastAddress(n) then Tlast else SendData, next, mem[r.addr]) else r
    case Tlast => r.(phase := Finish)
    case Finish => r.(phase := Idle)
  }

  function LastAddress(n: nat): (a: nat) { if n == 0 then 0xFFFF else n - 1 }

  /** The words handed over on an edge. */
  function Sent(r: Reader, i: Input): (t: seq<Transfer>) {
    if (r.phase == SendData || r.phase == Tlast) && i.tready then [Transfer(r.data, r.phase == Tlast)] else []
  }

  function Run(mem: seq<nat>, n: nat, r: Reader, ins: seq<Input>): (r': Reader)
    requires r.addr < |mem|
    ensures r'.addr < |mem|
  {
    if |ins| == 0 then r else Step(mem, n, Run(mem, n, r, ins[..|ins| - 1]), ins[|ins| - 1])
  }

  /** The packet so far: the words handed over since the reader last left idle. */
  function Packet(mem: seq<nat>, n: nat, r: Reader, ins: seq<Input>): (p: seq<Transfer>)
    requires r.addr < |mem|
  {
    if |ins| == 0 then []
    else
      var (before, i) := (ins[..|ins| - 1], ins[|ins| - 1]);
      var s := Run(mem, n, r, before);
      if s.phase == Idle then [] else Packet(mem, n, r, before) + Sent(s, i)
  }

  const RESET := Reader(Idle, 0, 0)

  /** The first `k` words of memory, none marked last. */
  function Words(mem: seq<nat>, k: nat): (p: seq<Transfer>)
    requires k <= |mem|
    ensures |p| == k
  {
    seq(k, j requires 0 <= j < k => Transfer(mem[j], false))
  }

  /** A whole packet: the first `n` words in order, only the final one marked last. */
  function Expected(mem: seq<nat>, n: nat): (p: seq<Transfer>)
    requires 1 <= n <= |mem|
    ensures |p| == n
  {
    Words(mem, n - 1) + [Transfer(mem[n - 1], true)]
  }

  ghost predicate Inv(mem: seq<nat>, n: nat, r: Reader, p: seq<Transfer>)
    requires 2 <= n <= |mem|
  {
    match r.phase
    case Idle => true
    case EnBram => r.addr == 0 && p == []
    case SendData => 1 <= r.addr < n && r.data == mem[r.addr - 1] && p == Words(mem, r.addr - 1)
    case Tlast => r.data == mem[n - 1] && p == Words(mem, n - 1)
    case Finish => p == Words(mem, n - 1) || p == Expected(mem, n)
  }

  lemma WordsAppend(mem: seq<nat>, k: nat)
    requires k < |mem|
    ensures Words(mem, k) + [Transfer(mem[k], false)] == Words(mem, k + 1)
  {
  }

  lemma StepInv(mem: seq<nat>, n: nat, r: Reader, p: seq<Transfer>, i: Input)
    requires 2 <= n <= |mem| && r.addr < |mem| && Inv(mem, n, r, p)
    ensures Inv(mem, n, Step(mem, n, r, i), if r.phase == Idle then [] else p + Sent(r, i))
  {
    if r.phase == SendData && i.tready {
      WordsAppend(mem, r.addr - 1);
    } else {
      assert p + [] == p;
    }
  }

  lemma {:induction false} RunInv(mem: seq<nat>, n: nat, ins: seq<Input>)
    requires 2 <= n <= |mem|
    ensures Inv(mem, n, Run(mem, n, RESET, ins), Packet(mem, n, RESET, ins))
  {
    if |ins| == 0 {
    } else {
      var before := ins[..|ins| - 1];
      RunInv(mem, n, before);
      StepInv(mem, n, Run(mem, n, RESET, before), Packet(mem, n, RESET, before), ins[|ins| - 1]);
    }
  }

  lemma InvIsPrefix(mem: seq<nat>, n: nat, r: Reader, p: seq<Transfer>)
    requires 2 <= n <= |mem| && r.phase != Idle && Inv(mem, n, r, p)
    ensures p <= Expected(mem, n)
  {
    var e := Expected(mem, n);
    forall k: nat | k <= n - 1 ensures Words(mem, k) <= e {
      assert e[..k] == Words(mem, k);
    }
  }

  /** However the sink stalls, what it has received is a prefix of the packet: the
      words 0, 1, 2, ... each once, and `tlast` on word n - 1 only. */
  lemma PacketInOrder(mem: seq<nat>, n: nat, ins: seq<Input>)
    requires 2 <= n <= |mem| && Run(mem, n, RESET, ins).phase != Idle
    ensures Packet(mem, n, RESET, ins) <= Expected(mem, n)
  {
    RunInv(mem, n, ins);
    InvIsPrefix(mem, n, Run(mem, n, RESET, ins), Packet(mem, n, RESET, ins));
  }

  /** The `tlast` cycle does not wait: the packet is complete if and only if the
      sink is ready in that very cycle. */
  lemma CompleteIffReadyAtLast(mem: seq<nat>, n: nat, ins: seq<Input>, i: Input)
    requires 2 <= n <= |mem| && Run(mem, n, RESET, ins).phase == Tlast
    ensures Run(mem, n, RESET, ins + [i]).phase == Finish
    ensures Packet(mem, n, RESET, ins + [i]) == Expected(mem, n) <==> i.tready
  {
    assert (ins + [i])[..|ins|] == ins;
    RunInv(mem, n, ins);
    assert |Expected(mem, n)| == n;
  }

  // -------------------------------------------------------- stalls of any length

  /** How many cycles the sink was ready in. */
  function ReadyCycles(ins: seq<Input>): (r: nat) {
    if |ins| == 0 then 0 else ReadyCycles(ins[..|ins| - 1]) + if ins[|ins| - 1].tready then 1 else 0
  }

  /** A reader that has just left idle. */
  const STARTED := Reader(EnBram, 0, 0)

  /** After `k` ready cycles of a readout, however many others there were. */
  ghost predicate Served(mem: seq<nat>, n: nat, r: Reader, p: seq<Transfer>, k: nat)
    requires 2 <= n <= |mem| && k <= n
  {
    if k == 0 then r == STARTED && p == []
    else if k < n then r == Reader(SendData, k, mem[k - 1]) && p == Words(mem, k - 1)
    else r.phase == Tlast && r.data == mem[n - 1] && p == Words(mem, n - 1)
  }

  lemma ServedStep(mem: seq<nat>, n: nat, r: Reader, p: seq<Transfer>, k: nat, i: Input)
    requires 2 <= n <= |mem| && k < n && Served(mem, n, r, p, k)
    ensures Served(mem, n, Step(mem, n, r, i), p + Sent(r, i), if i.tready then k + 1 else k)
  {
    if i.tready && k > 0 {
      WordsAppend(mem, k - 1);
    } else {
      assert p + [] == p;
    }
  }

  /** A readout holds through every stall: after k ready cycles, k < n, it offers word
      k - 1 and has handed over those before it, and with the n-th it comes to `tlast`,
      never having been idle. */
  lemma {:induction false} StalledReadout(mem: seq<nat>, n: nat, ins: seq<Input>)
    requires 2 <= n <= |mem| && ReadyCycles(ins) <= n
    requires |ins| != 0 ==> ReadyCycles(ins[..|ins| - 1]) < n
    ensures Served(mem, n, Run(mem, n, STARTED, ins), Packet(mem, n, STARTED, ins), ReadyCycles(ins))
  {
    if |ins| == 0 {
    } else {
      var before := ins[..|ins| - 1];
      StalledReadout(mem, n, before);
      ServedStep(mem, n, Run(mem, n, STARTED, before), Packet(mem, n, STARTED, before), ReadyCycles(before),
                 ins[|ins| - 1]);
    }
  }

  /** The whole packet under any stalls: once the sink has been ready in n cycles and is
      ready again in the next, it has every word once, in order, the last marked. */
  lemma {:induction false} StalledPacket(mem: seq<nat>, n: nat, ins: seq<Input>, i: Input)
    requires 2 <= n <= |mem| && |ins| > 0 && ReadyCycles(ins) == n && ReadyCycles(ins[..|ins| - 1]) < n
    ensures Run(mem, n, STARTED, ins + [i]).phase == Finish
    ensures i.tready ==> Packet(mem, n, STARTED, ins + [i]) == Expected(mem, n)
  {
    StalledReadout(mem, n, ins);
    assert (ins + [i])[..|ins|] == ins;
  }

  function Ready(k: nat): (ins: seq<Input>) { seq(k, _ => Input(true, true)) }

  lemma ReadyAppend(k: nat)
    ensures Ready(k + 1)[..k] == Ready(k) && Ready(k + 1)[k] == Input(true, true)
  {
  }

  lemma ReadyStart(mem: seq<nat>, n: nat)
    requires |mem| >= 2
    ensures Run(mem, n, RESET, Ready(2)) == Reader(SendData, 1, mem[0]) && Packet(mem, n, RESET, Ready(2)) == []
  {
    ReadyAppend(0);
    ReadyAppend(1);
    assert Run(mem, n, RESET, Ready(0)) == RESET;
    assert Run(mem, n, RESET, Ready(1)) == Reader(EnBram, 0, 0);
  }

  lemma {:induction false} ReadyProgress(mem: seq<nat>, n: nat, k: nat)
    requires 2 <= n <= |mem| && k <= n - 1
    ensures Run(mem, n, RESET, Ready(2 + k)).phase == if k < n - 1 then SendData else Tlast
    ensures k < n - 1 ==> Run(mem, n, RESET, Ready(2 + k)).addr == k + 1
  {
    if k == 0 {
      ReadyStart(mem, n);
    } else {
      ReadyProgress(mem, n, k - 1);
      ReadyAppend(1 + k);
    }
  }

  /** A sink that is always ready gets the whole packet, n + 2 cycles after the
      request. */
  lemma ReadySinkGetsPacket(mem: seq<nat>, n: nat)
    requires 2 <= n <= |mem|
    ensures Run(mem, n, RESET, Ready(n + 2)).phase == Finish
    ensures Packet(mem, n, RESET, Ready(n + 2)) == Expected(mem, n)
  {
    ReadyProgress(mem, n, n - 1);
    ReadyAppend(n + 1);
    assert Ready(n + 2) == Ready(n + 1) + [Input(true, true)];
    CompleteIffReadyAtLast(mem, n, Ready(n + 1), Input(true, true));
  }

  /** One more cycle of an always-ready sink. */
  lemma ReadyStep(mem: seq<nat>, n: nat, k: nat)
    requires |mem| > 0
    ensures var r := Run(mem, n, RESET, Ready(k));
      && Run(mem, n, RESET, Ready(k + 1)) == Step(mem, n, r, Input(true, true))
      && Packet(mem, n, RESET, Ready(k + 1))
         == if r.phase == Idle then [] else Packet(mem, n, RESET, Ready(k)) + Sent(r, Input(true, true))
  {
    ReadyAppend(k);
  }

  /** A one-word readout overruns: the compare address is already behind, so even a
      sink that is always ready is sent further words. */
  lemma OneWordOverruns(mem: seq<nat>)
    requires |mem| >= 3
    ensures Packet(mem, 1, RESET, Ready(4)) == Words(mem, 2)
    ensures Run(mem, 1, RESET, Ready(4)).phase == SendData
  {
    ReadyStart(mem, 1);
    ReadyStep(mem, 1, 2);
    ReadyStep(mem, 1, 3);
  }

  /** To a sink that is always ready the packet is right if and only if at least two
      words are asked for. */
  lemma ExactFromTwoWords(mem: seq<nat>, n: nat)
    requires 1 <= n <= |mem| && |mem| >= 2
    ensures Packet(mem, n, RESET, Ready(n + 2)) == Expected(mem, n) <==> n >= 2
  {
    if n >= 2 {
      ReadySinkGetsPacket(mem, n);
    } else {
      ReadyStart(mem, 1);
      ReadyAppend(2);
      assert Packet(mem, 1, RESET, Ready(3)) == [Transfer(mem[0], false)];
      assert Expected(mem, 1)[0].last;
    }
  }

  /** The reader with its registers updated in place. */
  class ReaderCore {
    const mem: array<nat>
    const n: nat
    var phase: Phase
    var addr: nat
    var data: nat

    ghost function View(): (r: Reader)
      reads this
    {
      Reader(phase, addr, data)
    }

    constructor (mem: array<nat>, n: nat)
      ensures this.mem == mem && this.n == n && View() == RESET
    {
      this.mem, this.n := mem, n;
      phase, addr, data := Idle, 0, 0;
    }

    method Tick(i: Input) returns (sent: seq<Transfer>)
      requires addr < mem.Length
      modifies this
      ensures View() == Step(mem[..], n, old(View()), i) && addr < mem.Length
      ensures sent == Sent(old(View()), i)
    {
      sent := [];
      match phase {
        case Idle =>
          addr, data := 0, 0;
          if i.go {
            phase := EnBram;
          }
        case EnBram =>
          if i.tready {
            data, phase := mem[addr], SendData;
            addr := if addr + 1 == mem.Length then 0 else addr + 1;
          }
        case SendData =>
          if i.tready {
            sent := [Transfer(data, false)];
            data := mem[addr];
            if addr == LastAddress(n) {
              phase := Tlast;
            }
            addr := if addr + 1 == mem.Length then 0 else addr + 1;
          }
        case Tlast =>
          if i.tready {
            sent := [Transfer(data, true)];
          }
          phase := Finish;
        case Finish =>
          phase := Idle;
      }
    }
  }
}
