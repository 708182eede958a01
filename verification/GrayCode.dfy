/** Gray-coded pointers of any width, as the FIFO controllers build them.
    A vector is a sequence of bits with the least significant bit first, so
    that index `i` is bit `i` of the VHDL vector. */
module GrayCode {
  import opened Arith

  type Bits = seq<bool>

  function Bit(b: bool): (v: nat) { if b then 1 else 0 }

  /** The unsigned value of bits `i` and up, bit `i` having weight one. */
  function ValueFrom(b: Bits, i: nat): (v: nat)
    requires i <= |b|
    decreases |b| - i
  {
    if i == |b| then 0 else Bit(b[i]) + 2 * ValueFrom(b, i + 1)
  }

  /** The unsigned value of a vector. */
  function Value(b: Bits): (v: nat) { ValueFrom(b, 0) }

  /** Bit `i` of the binary expansion of `n`. */
  predicate NatBit(n: nat, i: nat)
    decreases i
  {
    if i == 0 then n % 2 == 1 else NatBit(n / 2, i - 1)
  }

  /** The low `width` bits of `n`. */
  function FromNat(n: nat, width: nat): (b: Bits)
    ensures |b| == width
    ensures forall i {:trigger b[i]} :: 0 <= i < width ==> b[i] == NatBit(n, i)
  {
    seq(width, i requires 0 <= i => NatBit(n, i))
  }

  /** The carry into bit `i` when one is added: every lower bit is set. */
  predicate CarryInto(b: Bits, i: nat)
    requires i <= |b|
  {
    forall j :: 0 <= j < i ==> b[j]
  }

  /** `unsigned(bin) + 1`, dropping the carry out. */
  function Increment(b: Bits): (r: Bits)
    ensures |r| == |b|
    ensures forall i {:trigger r[i]} :: 0 <= i < |b| ==> r[i] == (b[i] != CarryInto(b, i))
  {
    seq(|b|, i requires 0 <= i < |b| => b[i] != CarryInto(b, i))
  }

  /** Bit `i` of `'0' & b(N downto 1)`. */
  predicate Above(b: Bits, i: nat) { i + 1 < |b| && b[i + 1] }

  /** `b xor ('0' & b(N downto 1))`. */
  function Encode(b: Bits): (g: Bits)
    ensures |g| == |b|
    ensures forall i {:trigger g[i]} :: 0 <= i < |b| ==> g[i] == (b[i] != Above(b, i))
  {
    seq(|b|, i requires 0 <= i < |b| => b[i] != Above(b, i))
  }

  /** The xor of bits `i` and up. */
  predicate XorFrom(g: Bits, i: nat)
    requires i <= |g|
    decreases |g| - i
  {
    i < |g| && g[i] != XorFrom(g, i + 1)
  }

  /** The xor chain from the most significant bit down. */
  function Decode(g: Bits): (b: Bits)
    ensures |b| == |g|
    ensures forall i {:trigger b[i]} :: 0 <= i < |g| ==> b[i] == XorFrom(g, i)
  {
    seq(|g|, i requires 0 <= i < |g| => XorFrom(g, i))
  }

  /** The combinational equation the source states: `bin = ptr xor ('0' & bin(N downto 1))`. */
  ghost predicate SolvesXorChain(bin: Bits, ptr: Bits) {
    && |bin| == |ptr|
    && forall i {:trigger ptr[i]} :: 0 <= i < |ptr| ==> bin[i] == (ptr[i] != Above(bin, i))
  }

  ghost predicate DiffersOnlyAt(a: Bits, b: Bits, k: nat)
    requires |a| == |b|
  {
    k < |a| && forall i :: 0 <= i < |a| ==> (a[i] != b[i] <==> i == k)
  }

  /** Exactly one bit differs. */
  ghost predicate OneBitApart(a: Bits, b: Bits)
    requires |a| == |b|
  {
    exists k: nat :: DiffersOnlyAt(a, b, k)
  }

  // ---------------------------------------------------------------- values

  lemma {:induction false} ValueFromBound(b: Bits, i: nat)
    requires i <= |b|
    ensures ValueFrom(b, i) < Pow2(|b| - i)
    decreases |b| - i
  {
    if i == |b| {
    } else {
      ValueFromBound(b, i + 1);
    }
  }

  lemma ValueBound(b: Bits)
    ensures Value(b) < Pow2(|b|)
  {
    ValueFromBound(b, 0);
  }

  /** Bits `i` and up read as the expansion of `k` modulo the remaining width. */
  lemma {:induction false} ValueFromNatBits(b: Bits, i: nat, k: nat, m: nat)
    requires i <= |b| && m == Pow2(|b| - i)
    requires forall j :: i <= j < |b| ==> b[j] == NatBit(k, j - i)
    ensures ValueFrom(b, i) == k % m
    decreases |b| - i
  {
    if i == |b| {
    } else {
      var h := Pow2(|b| - (i + 1));
      forall j | i + 1 <= j < |b| ensures b[j] == NatBit(k / 2, j - (i + 1)) {
        assert b[j] == NatBit(k, j - i);
      }
      ValueFromNatBits(b, i + 1, k / 2, h);
      assert b[i] == NatBit(k, 0);
      DivModUnique(k, m, (k / 2) / h, k % 2 + 2 * ((k / 2) % h));
    }
  }

  lemma ValueOfFromNat(n: nat, width: nat, m: nat)
    requires m == Pow2(width)
    ensures Value(FromNat(n, width)) == n % m
  {
    ValueFromNatBits(FromNat(n, width), 0, n, m);
  }

  lemma SameDigits(x: bool, p: nat, y: bool, q: nat)
    requires Bit(x) + 2 * p == Bit(y) + 2 * q
    ensures x == y && p == q
  {
  }

  lemma {:induction false} ValueFromInjective(a: Bits, b: Bits, i: nat)
    requires |a| == |b| && i <= |a| && ValueFrom(a, i) == ValueFrom(b, i)
    ensures forall j :: i <= j < |a| ==> a[j] == b[j]
    decreases |a| - i
  {
    if i == |a| {
    } else {
      SameDigits(a[i], ValueFrom(a, i + 1), b[i], ValueFrom(b, i + 1));
      ValueFromInjective(a, b, i + 1);
    }
  }

  lemma ValueInjective(a: Bits, b: Bits)
    requires |a| == |b| && Value(a) == Value(b)
    ensures a == b
  {
    ValueFromInjective(a, b, 0);
  }

  lemma FromNatEqual(a: nat, b: nat, width: nat, m: nat)
    requires m == Pow2(width)
    ensures FromNat(a, width) == FromNat(b, width) <==> a % m == b % m
  {
    ValueOfFromNat(a, width, m);
    ValueOfFromNat(b, width, m);
    if a % m == b % m {
      ValueInjective(FromNat(a, width), FromNat(b, width));
    }
  }

  lemma FromNatOfValue(b: Bits)
    ensures FromNat(Value(b), |b|) == b
  {
    ValueOfFromNat(Value(b), |b|, Pow2(|b|));
    ValueBound(b);
    DivModUnique(Value(b), Pow2(|b|), 0, Value(b));
    ValueInjective(FromNat(Value(b), |b|), b);
  }

  ghost predicate OnesBelow(n: nat, i: nat) { forall j :: 0 <= j < i ==> NatBit(n, j) }

  /** Adding one toggles a bit exactly when all lower bits are set. */
  lemma {:induction false} NatBitSuccessor(n: nat, i: nat)
    ensures NatBit(n + 1, i) == (NatBit(n, i) != OnesBelow(n, i))
    decreases i
  {
    if i == 0 {
    } else {
      NatBitSuccessor(n / 2, i - 1);
      assert NatBit(n, 0) == (n % 2 == 1);
      if n % 2 == 1 {
        assert (n + 1) / 2 == n / 2 + 1;
        if OnesBelow(n, i) {
          forall j | 0 <= j < i - 1 ensures NatBit(n / 2, j) {
            assert NatBit(n, j + 1);
          }
        } else {
          var j :| 0 <= j < i && !NatBit(n, j);
          assert !NatBit(n / 2, j - 1);
        }
      } else {
        assert (n + 1) / 2 == n / 2;
        assert !OnesBelow(n, i);
      }
    }
  }

  lemma FromNatSuccessor(n: nat, width: nat)
    ensures FromNat(n + 1, width) == Increment(FromNat(n, width))
  {
    var b := FromNat(n, width);
    forall i | 0 <= i < width ensures FromNat(n + 1, width)[i] == Increment(b)[i] {
      NatBitSuccessor(n, i);
      assert CarryInto(b, i) == OnesBelow(n, i) by {
        assert forall j :: 0 <= j < i ==> b[j] == NatBit(n, j);
      }
    }
  }

  // ------------------------------------------------------- encode and decode

  lemma {:induction false} XorOfEncode(b: Bits, i: nat)
    requires i <= |b|
    ensures XorFrom(Encode(b), i) == (i < |b| && b[i])
    decreases |b| - i
  {
    if i == |b| {
    } else {
      XorOfEncode(b, i + 1);
    }
  }

  lemma DecodeInvertsEncode(b: Bits)
    ensures Decode(Encode(b)) == b
  {
    forall i | 0 <= i < |b| ensures Decode(Encode(b))[i] == b[i] {
      XorOfEncode(b, i);
    }
  }

  lemma EncodeInvertsDecode(g: Bits)
    ensures Encode(Decode(g)) == g
  {
    forall i | 0 <= i < |g| ensures Encode(Decode(g))[i] == g[i] {
      assert XorFrom(g, i) == (g[i] != XorFrom(g, i + 1));
    }
  }

  lemma EncodeInjective(a: Bits, b: Bits)
    requires |a| == |b|
    ensures Encode(a) == Encode(b) <==> a == b
  {
    DecodeInvertsEncode(a);
    DecodeInvertsEncode(b);
  }

  /** The source's feedback equation has exactly one solution, the decoded pointer. */
  lemma XorChainUnique(bin: Bits, ptr: Bits)
    ensures SolvesXorChain(bin, ptr) <==> bin == Decode(ptr)
  {
    EncodeInvertsDecode(ptr);
    if SolvesXorChain(bin, ptr) {
      assert Encode(bin) == ptr;
      DecodeInvertsEncode(bin);
    }
    if bin == Decode(ptr) {
      assert Encode(bin) == ptr;
    }
  }

  /** Consecutive pointers differ in exactly one bit, the wrap included. */
  lemma OneBitChanges(b: Bits)
    requires |b| > 0
    ensures OneBitApart(Encode(b), Encode(Increment(b)))
  {
    var k := LastCarry(b, |b| - 1);
    var (g, g') := (Encode(b), Encode(Increment(b)));
    forall i | 0 <= i < |b| ensures g[i] != g'[i] <==> i == k {
      assert CarryInto(b, i) <==> i <= k;
      assert i + 1 < |b| ==> Increment(b)[i + 1] == (b[i + 1] != CarryInto(b, i + 1));
    }
    assert DiffersOnlyAt(g, g', k);
  }

  /** The highest bit, up to `top`, that a carry reaches. */
  lemma {:induction false} LastCarry(b: Bits, top: nat) returns (k: nat)
    requires top < |b|
    ensures k <= top
    ensures forall i {:trigger CarryInto(b, i)} :: 0 <= i <= top ==> (CarryInto(b, i) <==> i <= k)
  {
    if top == 0 || CarryInto(b, top) {
      k := top;
    } else {
      k := LastCarry(b, top - 1);
    }
  }

  // ----------------------------------------------------- flags and addresses

  /** The (N+1)-bit pointer register after `count` increments from reset. */
  function Pointer(count: nat, n: nat): (p: Bits)
    ensures |p| == n + 1
  {
    Encode(FromNat(count, n + 1))
  }

  /** One step of the pointer: decode, add one, encode. */
  function NextPointer(ptr: Bits): (p: Bits)
    ensures |p| == |ptr|
  {
    Encode(Increment(Decode(ptr)))
  }

  /** `(ptr(N) xor ptr(N-1)) & ptr(N-2 downto 0)`. */
  function Address(ptr: Bits): (a: Bits)
    requires |ptr| >= 2
    ensures |a| == |ptr| - 1
  {
    var n := |ptr| - 1;
    ptr[..n - 1] + [ptr[n] != ptr[n - 1]]
  }

  /** The write side's full flag. */
  predicate Full(rPtrIn: Bits, wPtr: Bits)
    requires |rPtrIn| == |wPtr| >= 2
  {
    var n := |wPtr| - 1;
    && rPtrIn[n] != wPtr[n]
    && rPtrIn[..n - 1] == wPtr[..n - 1]
    && (rPtrIn[n] != rPtrIn[n - 1]) == (wPtr[n] != wPtr[n - 1])
  }

  /** The read side's empty flag. */
  predicate Empty(wPtrIn: Bits, rPtr: Bits)
    requires |wPtrIn| == |rPtr| >= 2
  {
    var n := |rPtr| - 1;
    && wPtrIn[n] == rPtr[n]
    && wPtrIn[..n - 1] == rPtr[..n - 1]
    && (rPtr[n] != rPtr[n - 1]) == (wPtrIn[n] != wPtrIn[n - 1])
  }

  lemma PointerSuccessor(count: nat, n: nat)
    ensures NextPointer(Pointer(count, n)) == Pointer(count + 1, n)
  {
    DecodeInvertsEncode(FromNat(count, n + 1));
    FromNatSuccessor(count, n + 1);
  }

  /** Equal but for the top bit. */
  ghost predicate TopFlipped(w: Bits, r: Bits)
    requires |w| == |r| >= 1
  {
    && w[|w| - 1] != r[|r| - 1]
    && forall i :: 0 <= i < |w| - 1 ==> w[i] == r[i]
  }

  lemma FullIsTopFlipped(w: Bits, r: Bits)
    requires |w| == |r| >= 2
    ensures Full(Encode(r), Encode(w)) <==> TopFlipped(w, r)
  {
    var n := |w| - 1;
    var (gw, gr) := (Encode(w), Encode(r));
    assert gr[n] == r[n] && gw[n] == w[n];
    assert gr[n - 1] == (r[n - 1] != r[n]) && gw[n - 1] == (w[n - 1] != w[n]);
    if Full(gr, gw) {
      forall i | 0 <= i < n - 1 ensures gw[i] == gr[i] {
        assert gr[..n - 1][i] == gw[..n - 1][i];
      }
      EqualBelow(w, r, n - 1);
    }
    if TopFlipped(w, r) {
      assert gr[..n - 1] == gw[..n - 1];
    }
  }

  /** Codes that agree below bit `k`, with decoded bit `k` equal, decode alike below it. */
  lemma {:induction false} EqualBelow(w: Bits, r: Bits, k: nat)
    requires |w| == |r| && k < |w| && w[k] == r[k]
    requires forall i :: 0 <= i < k ==> Encode(w)[i] == Encode(r)[i]
    ensures forall i :: 0 <= i <= k ==> w[i] == r[i]
  {
    if k == 0 {
    } else {
      assert Encode(w)[k - 1] == Encode(r)[k - 1];
      EqualBelow(w, r, k - 1);
    }
  }

  lemma {:induction false} TopFlippedValue(w: Bits, r: Bits, i: nat)
    requires |w| == |r| >= 1 && TopFlipped(w, r) && i < |w|
    ensures var (x, y, h) := (ValueFrom(r, i), ValueFrom(w, i), Pow2(|w| - 1 - i));
      y == x + h || x == y + h
    decreases |w| - i
  {
    if i < |w| - 1 {
      TopFlippedValue(w, r, i + 1);
    } else {
      assert ValueFrom(r, i + 1) == ValueFrom(w, i + 1) == 0;
    }
  }

  /** Adding `h` modulo `2 * h` toggles the digit of weight `h`. */
  lemma HalfTurnArithmetic(x: nat, y: nat, h: nat, m: nat)
    requires m == 2 * h && x < m && y < m
    ensures (y == x + h || x == y + h) <==> y == (x + h) % m
  {
    if x < h {
      DivModUnique(x + h, m, 0, x + h);
    } else {
      DivModUnique(x + h, m, 1, x - h);
    }
  }

  /** Flipping the top bit is moving half way round the counter. */
  lemma FlipTopIsHalfTurn(w: Bits, r: Bits, h: nat, m: nat)
    requires |w| == |r| >= 1 && h == Pow2(|r| - 1) && m == Pow2(|r|)
    ensures TopFlipped(w, r) <==> Value(w) == (Value(r) + h) % m
  {
    ValueBound(w);
    ValueBound(r);
    HalfTurnArithmetic(Value(r), Value(w), h, m);
    if TopFlipped(w, r) {
      TopFlippedValue(w, r, 0);
    }
    if Value(w) == (Value(r) + h) % m {
      var f := r[|r| - 1 := !r[|r| - 1]];
      ValueBound(f);
      TopFlippedValue(f, r, 0);
      HalfTurnArithmetic(Value(r), Value(f), h, m);
      ValueInjective(w, f);
    }
  }

  /** Full, computed on Gray bits, holds exactly when the write counter is
      2^N ahead of the read counter modulo 2^(N+1). */
  lemma FullMeansHalfTurn(w: nat, r: nat, n: nat, h: nat, m: nat)
    requires n >= 1 && h == Pow2(n) && m == Pow2(n + 1)
    ensures Full(Pointer(r, n), Pointer(w, n)) <==> w % m == (r + h) % m
  {
    var (bw, br) := (FromNat(w, n + 1), FromNat(r, n + 1));
    ValueOfFromNat(w, n + 1, m);
    ValueOfFromNat(r, n + 1, m);
    ModAbsorbs(r, h, m);
    FullIsTopFlipped(bw, br);
    FlipTopIsHalfTurn(bw, br, h, m);
  }

  lemma EmptyIsEqual(pw: Bits, pr: Bits)
    requires |pw| == |pr| >= 2
    ensures Empty(pw, pr) <==> pw == pr
  {
    if Empty(pw, pr) {
      var n := |pr| - 1;
      forall i | 0 <= i < n + 1 ensures pw[i] == pr[i] {
        if i < n - 1 {
          assert pw[..n - 1][i] == pr[..n - 1][i];
        }
      }
    }
  }

  /** Empty, computed on Gray bits, holds exactly when the counters agree
      modulo 2^(N+1). */
  lemma EmptyMeansEqual(w: nat, r: nat, n: nat, m: nat)
    requires n >= 1 && m == Pow2(n + 1)
    ensures Empty(Pointer(w, n), Pointer(r, n)) <==> w % m == r % m
  {
    EmptyIsEqual(Pointer(w, n), Pointer(r, n));
    EncodeInjective(FromNat(w, n + 1), FromNat(r, n + 1));
    FromNatEqual(w, r, n + 1, m);
  }

  /** The RAM slot used for the `count`-th word. */
  function Slot(count: nat, n: nat): (s: nat)
    requires n >= 1
    ensures s < Pow2(n)
  {
    ValueBound(Address(Pointer(count, n)));
    Value(Address(Pointer(count, n)))
  }

  /** The N-bit address is itself a Gray code, of the low N counter bits. */
  lemma AddressIsGray(count: nat, n: nat)
    requires n >= 1
    ensures Address(Pointer(count, n)) == Encode(FromNat(count, n))
  {
    var (wide, low) := (FromNat(count, n + 1), FromNat(count, n));
    assert forall i :: 0 <= i < n ==> wide[i] == low[i];
  }

  /** Slots are a bijection of the count modulo 2^N: two counts share a slot
      exactly when they are congruent. */
  lemma SlotsCoincide(a: nat, b: nat, n: nat, m: nat)
    requires n >= 1 && m == Pow2(n)
    ensures Slot(a, n) == Slot(b, n) <==> a % m == b % m
  {
    AddressIsGray(a, n);
    AddressIsGray(b, n);
    EncodeInjective(FromNat(a, n), FromNat(b, n));
    FromNatEqual(a, b, n, m);
    if Slot(a, n) == Slot(b, n) {
      ValueInjective(Address(Pointer(a, n)), Address(Pointer(b, n)));
    }
  }

  /** ... and every slot is used. */
  lemma EverySlotIsUsed(slot: nat, n: nat) returns (count: nat)
    requires n >= 1 && slot < Pow2(n)
    ensures count < Pow2(n) && Slot(count, n) == slot
  {
    var address := FromNat(slot, n);
    var bin := Decode(address);
    count := Value(bin);
    ValueBound(bin);
    FromNatOfValue(bin);
    EncodeInvertsDecode(address);
    AddressIsGray(count, n);
    ValueOfFromNat(slot, n, Pow2(n));
    DivModUnique(slot, Pow2(n), 0, slot);
  }
}
