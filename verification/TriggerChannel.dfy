/** One channel of the LAGO trigger: input register, twenty-deep shift register,
    level-crossing detector and prescaler. */
module TriggerChannel {
  import opened Arith

  const DEPTH: nat := 20
  const COUNTER: nat := 0x1_0000_0000

  /** A 14-bit field sign-extended. */
  function Extend14(raw: nat): (v: int)
    ensures -8192 <= v < 8192
  {
    var u := raw % 16384;
    if u < 8192 then u else u - 16384
  }

  /** The signed sample whose fourteen bits are those of a raw word. */
  predicate IsSample(v: int, raw: int) { -8192 <= v < 8192 && (v - raw) % 0x4000 == 0 }

  /** Sign extension keeps the fourteen bits. */
  lemma ExtendKeepsBits(raw: nat)
    ensures IsSample(Extend14(raw), raw)
  {
    var (u, q) := (raw % 16384, raw / 16384);
    DivModUnique(Extend14(raw) - raw, 16384, if u < 8192 then -q else -q - 1, 0);
  }

  /** ... which leave no choice. */
  lemma SampleIsUnique(v: int, v': int, raw: int)
    requires IsSample(v, raw) && IsSample(v', raw)
    ensures v == v'
  {
  }

  /** Bits 14 downto 0 of a 16-bit register, read as a signed number. */
  function Low15(x: int): (v: int) {
    var u := x % 0x8000;
    if u < 0x4000 then u else u - 0x8000
  }

  predicate Negative(x: int) { x < 0 }

  /** `adc` is the input register; `shift[0]` is the oldest sample, `shift[19]` the
      newest; `count` is the prescaler and `fired` the delayed crossing. */
  datatype Channel = Channel(adc: int, shift: seq<int>, count: nat, fired: bool)

  /** `level` and `scaler` are the configuration registers, held constant. */
  datatype Config = Config(level: int, scaler: nat)

  ghost predicate Good(g: Config) { -8192 <= g.level < 8192 && 1 <= g.scaler < COUNTER }

  /** What the channel sees in a cycle: whether a sample is accepted, and its bits. */
  datatype Input = Input(take: bool, raw: nat)

  ghost predicate InRange(c: Channel) {
    && |c.shift| == DEPTH && -8192 <= c.adc < 8192
    && forall j :: 0 <= j < DEPTH ==> -8192 <= c.shift[j] < 8192
  }

  /** `tr1_s` as the source compares it: sign bits, then the low fifteen bits. */
  predicate Crossing(g: Config, c: Channel)
    requires |c.shift| == DEPTH
  {
    && Negative(c.shift[10]) == Negative(g.level)
    && Low15(c.shift[10]) >= Low15(g.level)
    && forall j :: 1 <= j <= 9 ==> Low15(c.shift[j]) < Low15(g.level)
  }

  /** `scaler_max_tick`. */
  predicate Tick(g: Config, c: Channel) { c.count == g.scaler }

  function Step(g: Config, c: Channel, i: Input): (c': Channel)
    requires |c.shift| == DEPTH
    ensures |c'.shift| == DEPTH
  {
    var tr := Crossing(g, c);
    Channel(if i.take then Extend14(i.raw) else c.adc,
            c.shift[1..] + [c.adc],
            if tr then (c.count + 1) % COUNTER else if Tick(g, c) then 0 else c.count,
            tr)
  }

  function Reset(): (c: Channel)
    ensures |c.shift| == DEPTH
  {
    Channel(0, seq(DEPTH, _ => 0), 0, false)
  }

  function Run(g: Config, ins: seq<Input>): (c: Channel)
    ensures |c.shift| == DEPTH
  {
    if |ins| == 0 then Reset() else Step(g, Run(g, ins[..|ins| - 1]), ins[|ins| - 1])
  }

  lemma Low15OfSample(x: int)
    requires -8192 <= x < 8192
    ensures Low15(x) == x
  {
    if x < 0 {
      DivModUnique(x, 0x8000, -1, x + 0x8000);
    }
  }

  lemma {:induction false} RunInRange(g: Config, ins: seq<Input>)
    ensures InRange(Run(g, ins))
  {
    if |ins| == 0 {
    } else {
      RunInRange(g, ins[..|ins| - 1]);
    }
  }

  /** On sign-extended samples the bit comparison is the plain one: nine samples
      below the level, then one at or above it on the same side of zero. */
  lemma CrossingMeaning(g: Config, c: Channel)
    requires Good(g) && InRange(c)
    ensures Crossing(g, c) <==>
      && (c.shift[10] < 0 <==> g.level < 0)
      && c.shift[10] >= g.level
      && forall j :: 1 <= j <= 9 ==> c.shift[j] < g.level
  {
    Low15OfSample(g.level);
    forall j | 0 <= j < DEPTH ensures Low15(c.shift[j]) == c.shift[j] {
      Low15OfSample(c.shift[j]);
    }
  }

  // ----------------------------------------------------------------- spacing

  lemma RunPrefix(g: Config, ins: seq<Input>, t: nat)
    requires t < |ins|
    ensures Run(g, ins[..t + 1]) == Step(g, Run(g, ins[..t]), ins[t])
  {
    assert ins[..t + 1][..t] == ins[..t];
  }

  /** A sample moves down one place per cycle. */
  lemma {:induction false} SamplesMove(g: Config, ins: seq<Input>, t: nat, d: nat, j: nat)
    requires t + d <= |ins| && j + d < DEPTH
    ensures Run(g, ins[..t + d]).shift[j] == Run(g, ins[..t]).shift[j + d]
    decreases d
  {
    if d == 0 {
    } else {
      RunPrefix(g, ins, t + d - 1);
      SamplesMove(g, ins, t, d - 1, j + 1);
    }
  }

  /** Crossings on one channel are at least ten cycles apart, in every run. */
  lemma CrossingsApart(g: Config, ins: seq<Input>, t: nat, u: nat)
    requires t < u <= |ins|
    requires Crossing(g, Run(g, ins[..t])) && Crossing(g, Run(g, ins[..u]))
    ensures u - t >= 10
  {
    if u - t < 10 {
      SamplesMove(g, ins, t, u - t, 10 - (u - t));
    }
  }

  // -------------------------------------------------------------- prescaling

  /** How many of the cycles before the end of `ins` see a crossing. */
  function Crossings(g: Config, ins: seq<Input>): (n: nat) {
    if |ins| == 0 then 0
    else Crossings(g, ins[..|ins| - 1]) + if Crossing(g, Run(g, ins[..|ins| - 1])) then 1 else 0
  }

  /** How many of those cycles see a tick. */
  function Ticks(g: Config, ins: seq<Input>): (n: nat) {
    if |ins| == 0 then 0
    else Ticks(g, ins[..|ins| - 1]) + if Tick(g, Run(g, ins[..|ins| - 1])) then 1 else 0
  }

  /** The prescaler never passes its limit, reaches it only on the cycle after a
      crossing, and accounts for every crossing. */
  ghost predicate ScalerInv(g: Config, c: Channel, crossings: nat, ticks: nat)
    requires |c.shift| == DEPTH
  {
    && c.count <= g.scaler
    && crossings == ticks * g.scaler + c.count
    && (c.count == g.scaler ==> c.fired)
    && (c.fired ==> !Crossing(g, c))
  }

  lemma ScalerStep(g: Config, c: Channel, crossings: nat, ticks: nat, i: Input)
    requires Good(g) && |c.shift| == DEPTH && ScalerInv(g, c, crossings, ticks)
    ensures ScalerInv(g, Step(g, c, i), crossings + (if Crossing(g, c) then 1 else 0),
                      ticks + if Tick(g, c) then 1 else 0)
  {
    var c' := Step(g, c, i);
    assert c'.shift[9] == c.shift[10];
    MulDistributes(ticks, 1, g.scaler);
  }

  lemma {:induction false} RunScaler(g: Config, ins: seq<Input>)
    requires Good(g)
    ensures ScalerInv(g, Run(g, ins), Crossings(g, ins), Ticks(g, ins))
  {
    if |ins| == 0 {
    } else {
      var before := ins[..|ins| - 1];
      RunScaler(g, before);
      ScalerStep(g, Run(g, before), Crossings(g, before), Ticks(g, before), ins[|ins| - 1]);
    }
  }

  /** Prescaling law: counting the tick due in the present cycle, the number of
      ticks is the number of crossings so far divided by the scaler, rounded down. */
  lemma TicksAreFloor(g: Config, ins: seq<Input>)
    requires Good(g)
    ensures Ticks(g, ins) + (if Tick(g, Run(g, ins)) then 1 else 0) == Crossings(g, ins) / g.scaler
  {
    RunScaler(g, ins);
    var (k, c) := (Ticks(g, ins), Run(g, ins));
    if c.count == g.scaler {
      MulDistributes(k, 1, g.scaler);
      DivModUnique(Crossings(g, ins), g.scaler, k + 1, 0);
    } else {
      DivModUnique(Crossings(g, ins), g.scaler, k, c.count);
    }
  }

  /** Each tick lasts one cycle and follows a crossing by exactly one. */
  lemma TickIsPulse(g: Config, ins: seq<Input>, i: Input)
    requires Good(g) && Tick(g, Run(g, ins))
    ensures |ins| > 0 && Crossing(g, Run(g, ins[..|ins| - 1])) && !Tick(g, Run(g, ins + [i]))
  {
    RunScaler(g, ins);
    assert (ins + [i])[..|ins|] == ins;
  }

  /** No run ticks more often than it crosses. */
  ghost predicate TicksAreBacked(g: Config) {
    forall ins: seq<Input> :: Ticks(g, ins) + (if Tick(g, Run(g, ins)) then 1 else 0) <= Crossings(g, ins)
  }

  /** The scaler register must not be zero: a zero scaler ticks from reset on,
      with no crossing at all. */
  lemma ScalerMustBePositive(g: Config)
    requires -8192 <= g.level < 8192 && g.scaler < COUNTER
    ensures TicksAreBacked(g) <==> g.scaler >= 1
  {
    if g.scaler == 0 {
      assert Tick(g, Run(g, [])) && Crossings(g, []) == 0;
    } else {
      forall ins: seq<Input>
        ensures Ticks(g, ins) + (if Tick(g, Run(g, ins)) then 1 else 0) <= Crossings(g, ins)
      {
        TicksAreFloor(g, ins);
        QuotientAtMost(Crossings(g, ins), g.scaler);
      }
    }
  }

  /** With a zero scaler the prescaler counts crossings and nothing clears it. */
  lemma {:induction false} ZeroScalerCounts(g: Config, ins: seq<Input>)
    requires g.scaler == 0
    ensures Run(g, ins).count == Crossings(g, ins) % COUNTER
  {
    if |ins| == 0 {
    } else {
      ZeroScalerCounts(g, ins[..|ins| - 1]);
      ModAbsorbs(Crossings(g, ins[..|ins| - 1]), 1, COUNTER);
    }
  }

  lemma SmallRemainder(x: nat, m: nat)
    requires x < m
    ensures x % m == x
  {
    DivModUnique(x, m, 0, x);
  }

  /** A zero scaler ticks in every cycle until the first crossing and then in none,
      until the 32-bit count has come round. */
  lemma ZeroScalerTicks(g: Config, ins: seq<Input>)
    requires g.scaler == 0
    ensures Tick(g, Run(g, ins)) <==> Crossings(g, ins) % COUNTER == 0
    ensures Crossings(g, ins) < COUNTER ==> (Tick(g, Run(g, ins)) <==> Crossings(g, ins) == 0)
  {
    ZeroScalerCounts(g, ins);
    if Crossings(g, ins) < COUNTER {
      SmallRemainder(Crossings(g, ins), COUNTER);
    }
  }

  lemma QuotientAtMost(x: nat, m: nat)
    requires m >= 1
    ensures x / m <= x
  {
    var q := x / m;
    assert x == q * m + x % m;
    if q > 0 {
      MulDistributes(m, 1, q);
      assert (m - 1) * q >= 0;
    }
  }

  /** The channel with its shift register updated in place. */
  class ChannelCore {
    const g: Config
    var adc: int
    const shift: array<int>
    var count: nat
    var fired: bool

    ghost function View(): (c: Channel)
      reads this, shift
    {
      Channel(adc, shift[..], count, fired)
    }

    constructor (g: Config)
      ensures this.g == g && fresh(shift) && shift.Length == DEPTH && View() == Reset()
    {
      this.g := g;
      adc, count, fired := 0, 0, false;
      shift := new int[DEPTH](_ => 0);
    }

    method Shift(v: int)
      requires shift.Length == DEPTH
      modifies shift
      ensures shift[..] == old(shift[..])[1..] + [v]
    {
      for i := 0 to DEPTH - 1
        invariant forall j :: 0 <= j < i ==> shift[j] == old(shift[j + 1])
        invariant forall j :: i <= j < DEPTH ==> shift[j] == old(shift[j])
      {
        shift[i] := shift[i + 1];
      }
      shift[DEPTH - 1] := v;
    }

    method Clock(i: Input)
      requires shift.Length == DEPTH
      modifies this, shift
      ensures View() == Step(g, old(View()), i)
    {
      ghost var c := View();
      var tr := Negative(shift[10]) == Negative(g.level) && Low15(shift[10]) >= Low15(g.level);
      for j := 1 to 10
        invariant tr == (&& Negative(shift[10]) == Negative(g.level)
                         && Low15(shift[10]) >= Low15(g.level)
                         && forall k :: 1 <= k < j ==> Low15(shift[k]) < Low15(g.level))
        invariant View() == c
      {
        tr := tr && Low15(shift[j]) < Low15(g.level);
      }
      assert tr == Crossing(g, c);
      if tr {
        count := (count + 1) % COUNTER;
      } else if count == g.scaler {
        count := 0;
      }
      Shift(adc);
      if i.take {
        adc := Extend14(i.raw);
      }
      fired := tr;
    }
  }
}
