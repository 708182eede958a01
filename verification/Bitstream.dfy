/** The device-configuration driver's write path: header removal, byte-order
    normalisation and word-sized DMA over writes of any length, together with the
    `flip32` tool that prepares the same files. */
module Bitstream {
  import opened Arith

  type Byte = b: int | 0 <= b < 256

  const NORMAL: seq<Byte> := [0x66, 0x55, 0x99, 0xAA]
  const SWAPPED: seq<Byte> := [0xAA, 0x99, 0x55, 0x66]

  // ------------------------------------------------------------- byte order

  /** Where byte `i` goes when each 32-bit word is turned round. */
  function Mirror(i: nat): (j: nat)
    ensures j / 4 == i / 4 && j % 4 == 3 - i % 4
  {
    i / 4 * 4 + (3 - i % 4)
  }

  lemma MirrorTwice(i: nat)
    ensures Mirror(Mirror(i)) == i
  {
  }

  /** Every 32-bit word byte-reversed. */
  function Flipped(s: seq<Byte>): (r: seq<Byte>)
    requires |s| % 4 == 0
    ensures |r| == |s|
    ensures forall i {:trigger r[i]} :: 0 <= i < |s| ==> Mirror(i) < |s| && r[i] == s[Mirror(i)]
  {
    seq(|s|, i requires 0 <= i < |s| => s[Mirror(i)])
  }

  lemma FlippedTwice(s: seq<Byte>)
    requires |s| % 4 == 0
    ensures Flipped(Flipped(s)) == s
  {
    forall i | 0 <= i < |s| ensures Flipped(Flipped(s))[i] == s[i] {
      MirrorTwice(i);
    }
  }

  lemma MirrorShift(i: nat, m: nat)
    requires m % 4 == 0 && i >= m
    ensures Mirror(i) == m + Mirror(i - m)
  {
    DivModUnique(i, 4, m / 4 + (i - m) / 4, (i - m) % 4);
  }

  lemma FlippedAppend(s: seq<Byte>, t: seq<Byte>)
    requires |s| % 4 == 0 && |t| % 4 == 0
    ensures |s + t| % 4 == 0 && Flipped(s + t) == Flipped(s) + Flipped(t)
  {
    forall i | 0 <= i < |s + t| ensures Flipped(s + t)[i] == (Flipped(s) + Flipped(t))[i] {
      if i < |s| {
        assert Flipped(s)[i] == s[Mirror(i)];
      } else {
        MirrorShift(i, |s|);
        assert Flipped(t)[i - |s|] == t[Mirror(i - |s|)];
      }
    }
  }

  /** Words as sent for a byte order: as they are, or each one turned round. */
  function Ordered(swap: bool, s: seq<Byte>): (r: seq<Byte>)
    requires |s| % 4 == 0
    ensures |r| == |s|
  {
    if swap then Flipped(s) else s
  }

  lemma OrderedTwice(swap: bool, s: seq<Byte>)
    requires |s| % 4 == 0
    ensures Ordered(swap, Ordered(swap, s)) == s
  {
    FlippedTwice(s);
  }

  /** Undoing the order of words sent after others. */
  lemma OrderedExtend(swap: bool, sent: seq<Byte>, more: seq<Byte>)
    requires |sent| % 4 == 0 && |more| % 4 == 0
    ensures |sent + Ordered(swap, more)| % 4 == 0
    ensures Ordered(swap, sent + Ordered(swap, more)) == Ordered(swap, sent) + more
  {
    OrderedTwice(swap, more);
    if swap {
      FlippedAppend(sent, Flipped(more));
    }
  }

  lemma FlippedDrop(s: seq<Byte>, i: nat)
    requires |s| % 4 == 0 && i % 4 == 0 && i <= |s|
    ensures Flipped(s)[i..] == Flipped(s[i..])
  {
    assert s == s[..i] + s[i..];
    FlippedAppend(s[..i], s[i..]);
  }

  /** `struct.Struct('<I')` read at an offset. */
  function LittleEndian(s: seq<Byte>, o: nat): (v: nat)
    requires o + 4 <= |s|
  {
    var a: int, b: int, c: int, d: int := s[o], s[o + 1], s[o + 2], s[o + 3];
    a + 0x100 * b + 0x1_0000 * c + 0x100_0000 * d
  }

  /** `struct.Struct('>I')` of a value. */
  function BigEndianBytes(v: nat): (b: seq<Byte>)
    requires v < 0x1_0000_0000
    ensures |b| == 4
  {
    [v / 0x100_0000, v / 0x1_0000 % 0x100, v / 0x100 % 0x100, v % 0x100]
  }

  lemma PackReverses(s: seq<Byte>, o: nat)
    requires o + 4 <= |s|
    ensures LittleEndian(s, o) < 0x1_0000_0000
    ensures BigEndianBytes(LittleEndian(s, o)) == [s[o + 3], s[o + 2], s[o + 1], s[o]]
  {
    SplitBytes(s[o], s[o + 1], s[o + 2], s[o + 3]);
  }

  /** Four base-256 digits are recovered by division. */
  lemma SplitBytes(a: Byte, b: Byte, c: Byte, d: Byte)
    ensures var v := a as int + 0x100 * b as int + 0x1_0000 * c as int + 0x100_0000 * d as int;
      && v / 0x100_0000 == d as int && v / 0x1_0000 % 0x100 == c as int
      && v / 0x100 % 0x100 == b as int && v % 0x100 == a as int
  {
    var high := c as int + 0x100 * d as int;
    var v := a as int + 0x100 * (b as int + 0x100 * high);
    DivModUnique(v, 0x100, b as int + 0x100 * high, a as int);
    DivModUnique(b as int + 0x100 * high, 0x100, high, b as int);
    DivModUnique(high, 0x100, d as int, c as int);
    DivModUnique(v, 0x1_0000, high, a as int + 0x100 * b as int);
    DivModUnique(v, 0x100_0000, d as int, a as int + 0x100 * b as int + 0x1_0000 * c as int);
  }

  datatype Result<+T> = Success(value: T) | Error

  /** The four bytes of a word trade places. */
  lemma MirrorWord(o: nat)
    requires o % 4 == 0
    ensures Mirror(o) == o + 3 && Mirror(o + 1) == o + 2 && Mirror(o + 2) == o + 1 && Mirror(o + 3) == o
  {
  }

  /** `flip32`: fails when the data is not a whole number of words. */
  method Flip32(data: seq<Byte>) returns (r: Result<seq<Byte>>)
    ensures r.Success? <==> |data| % 4 == 0
    ensures r.Success? ==> r.value == Flipped(data)
  {
    var d: seq<Byte> := [];
    var offset := 0;
    while offset < |data|
      invariant offset % 4 == 0 && offset <= |data|
      invariant d == Flipped(data[..offset])
    {
      if offset + 4 > |data| {
        return Error;
      }
      PackReverses(data, offset);
      FlippedWord(data, offset);
      d := d + BigEndianBytes(LittleEndian(data, offset));
      offset := offset + 4;
    }
    assert data[..offset] == data;
    r := Success(d);
  }

  lemma FlippedWord(data: seq<Byte>, o: nat)
    requires o % 4 == 0 && o + 4 <= |data|
    ensures Flipped(data[..o + 4]) == Flipped(data[..o]) + [data[o + 3], data[o + 2], data[o + 1], data[o]]
  {
    var w := [data[o], data[o + 1], data[o + 2], data[o + 3]];
    assert data[..o + 4] == data[..o] + w;
    FlippedAppend(data[..o], w);
    MirrorWord(0);
  }

  // ------------------------------------------------------------ header search

  predicate SyncAt(k: seq<Byte>, i: nat) {
    i + 4 <= |k| && (k[i..i + 4] == NORMAL || k[i..i + 4] == SWAPPED)
  }

  /** The first position, of those the driver looks at, that holds a sync word. */
  function FindSync(k: seq<Byte>, from: nat): (i: nat)
    requires 4 < |k| && from <= |k| - 4
    ensures from <= i <= |k| - 4
    ensures i < |k| - 4 ==> SyncAt(k, i)
    ensures forall j {:trigger SyncAt(k, j)} :: from <= j < i ==> !SyncAt(k, j)
    decreases |k| - from
  {
    if from == |k| - 4 || SyncAt(k, from) then from else FindSync(k, from + 1)
  }

  /** A first block in which a sync word is found. */
  predicate HasHeader(k: seq<Byte>) { 4 < |k| && FindSync(k, 0) < |k| - 4 }

  function HeaderLength(k: seq<Byte>): (n: nat)
    ensures n <= |k|
  {
    if HasHeader(k) then FindSync(k, 0) else 0
  }

  /** The byte order the first block settles, or the one already in force. */
  predicate SwapAfter(k: seq<Byte>, swap: bool) {
    if HasHeader(k) then k[FindSync(k, 0)..FindSync(k, 0) + 4] == SWAPPED else swap
  }

  // ------------------------------------------------------------- write path

  /** Driver state between writes; `dma` is everything transferred so far. */
  datatype Driver = Driver(swap: bool, residue: seq<Byte>, ppos: nat, dma: seq<Byte>)

  /** After `xdevcfg_open`. */
  const OPENED: Driver := Driver(false, [], 0, [])

  ghost predicate Valid(d: Driver) { |d.residue| < 4 && |d.dma| % 4 == 0 }

  function WholeWords(k: seq<Byte>): (n: nat)
    ensures n <= |k| && n % 4 == 0 && |k| - n < 4
  {
    |k| - |k| % 4
  }

  /** How one write can end. */
  datatype Outcome = NoMemory | CopyFault | TransferFailed | Done

  /** The buffer to be sent: held-back bytes, new bytes, less a header. */
  function Kept(d: Driver, buf: seq<Byte>): (k: seq<Byte>) {
    var all := d.residue + buf;
    if d.ppos == 0 then all[HeaderLength(all)..] else all
  }

  predicate NewSwap(d: Driver, buf: seq<Byte>) {
    if d.ppos == 0 then SwapAfter(d.residue + buf, d.swap) else d.swap
  }

  /** Send the whole words of `k` and hold back the rest. */
  function Send(d: Driver, swap: bool, k: seq<Byte>, advance: nat): (d': Driver)
    requires Valid(d)
    ensures Valid(d')
  {
    var n := WholeWords(k);
    Driver(swap, k[n..], d.ppos + advance, d.dma + Ordered(swap, k[..n]))
  }

  /** One `xdevcfg_write`.  A failed transfer has already replaced the residue and
      the byte order but leaves the file position alone. */
  function Write(d: Driver, buf: seq<Byte>, outcome: Outcome): (d': Driver)
    requires Valid(d)
    ensures Valid(d')
  {
    match outcome
    case NoMemory => d
    case CopyFault => d
    case TransferFailed =>
      var k := Kept(d, buf);
      Driver(NewSwap(d, buf), k[WholeWords(k)..], d.ppos, d.dma)
    case Done => Send(d, NewSwap(d, buf), Kept(d, buf), |buf|)
  }

  function WriteAll(d: Driver, bufs: seq<seq<Byte>>): (d': Driver)
    requires Valid(d)
    ensures Valid(d')
  {
    if |bufs| == 0 then d else Write(WriteAll(d, bufs[..|bufs| - 1]), bufs[|bufs| - 1], Done)
  }

  function Concat(bufs: seq<seq<Byte>>): (s: seq<Byte>) {
    if |bufs| == 0 then [] else Concat(bufs[..|bufs| - 1]) + bufs[|bufs| - 1]
  }

  /** What the transferred words say in the user's own byte order, with the bytes
      still held back. */
  function Payload(d: Driver): (s: seq<Byte>)
    requires Valid(d)
  {
    Ordered(d.swap, d.dma) + d.residue
  }

  lemma SendPayload(d: Driver, swap: bool, k: seq<Byte>, advance: nat)
    requires Valid(d)
    ensures Payload(Send(d, swap, k, advance)) == Ordered(swap, d.dma) + k
  {
    var n := WholeWords(k);
    OrderedExtend(swap, d.dma, k[..n]);
    Regroup(Ordered(swap, d.dma), k, n);
  }

  lemma Regroup(a: seq<Byte>, k: seq<Byte>, n: nat)
    requires n <= |k|
    ensures a + k[..n] + k[n..] == a + k
  {
    assert k == k[..n] + k[n..];
  }

  lemma Associative(a: seq<Byte>, b: seq<Byte>, c: seq<Byte>)
    ensures a + (b + c) == a + b + c
  {
  }

  /** A write after the first adds its bytes to the payload and nothing else. */
  lemma LaterWriteAppends(d: Driver, buf: seq<Byte>)
    requires Valid(d) && d.ppos > 0
    ensures var d' := Write(d, buf, Done);
      Payload(d') == Payload(d) + buf && d'.swap == d.swap && d'.ppos > 0
  {
    SendPayload(d, d.swap, d.residue + buf, |buf|);
    Associative(Ordered(d.swap, d.dma), d.residue, buf);
  }

  /** The first write strips the header and settles the byte order. */
  lemma FirstWriteStrips(first: seq<Byte>)
    requires |first| > 0
    ensures var d := Write(OPENED, first, Done);
      && Payload(d) == first[HeaderLength(first)..]
      && d.swap == SwapAfter(first, false) && d.ppos > 0
  {
    assert OPENED.residue + first == first;
    var (swap, k) := (SwapAfter(first, false), first[HeaderLength(first)..]);
    SendPayload(OPENED, swap, k, |first|);
    assert Ordered(swap, []) + k == k;
  }

  /** Chunking invariance: however the data after the first non-empty write is cut,
      the transferred words, put back in the user's byte order, followed by the
      0 to 3 bytes held back, are the header-stripped user data. */
  lemma ChunkingInvariance(first: seq<Byte>, rest: seq<seq<Byte>>)
    requires |first| > 0
    ensures var d := WriteAll(Write(OPENED, first, Done), rest);
      && Payload(d) == first[HeaderLength(first)..] + Concat(rest)
      && d.swap == SwapAfter(first, false)
      && |d.residue| < 4 && d.ppos > 0
  {
    FirstWriteStrips(first);
    LaterWritesAppend(Write(OPENED, first, Done), rest);
  }

  lemma {:induction false} LaterWritesAppend(d: Driver, rest: seq<seq<Byte>>)
    requires Valid(d) && d.ppos > 0
    ensures var d' := WriteAll(d, rest);
      Payload(d') == Payload(d) + Concat(rest) && d'.swap == d.swap && d'.ppos > 0
  {
    if |rest| == 0 {
      assert Payload(d) + [] == Payload(d);
    } else {
      var (init, last) := (rest[..|rest| - 1], rest[|rest| - 1]);
      LaterWritesAppend(d, init);
      LaterWriteAppends(WriteAll(d, init), last);
      Associative(Payload(d), Concat(init), last);
    }
  }

  /** The payload and the byte order determine what was transferred. */
  lemma PayloadDetermines(d: Driver, e: Driver)
    requires Valid(d) && Valid(e) && d.swap == e.swap && Payload(d) == Payload(e)
    ensures d.dma == e.dma && d.residue == e.residue
  {
    var (x, y) := (Ordered(d.swap, d.dma), Ordered(e.swap, e.dma));
    assert |x| + |d.residue| == |y| + |e.residue|;
    assert x == Payload(d)[..|x|] == Payload(e)[..|y|] == y;
    assert d.residue == Payload(d)[|x|..] == Payload(e)[|y|..] == e.residue;
    OrderedTwice(d.swap, d.dma);
    OrderedTwice(e.swap, e.dma);
  }

  /** Two ways of cutting the same data after the same first write transfer the
      same words. */
  lemma SplitDoesNotMatter(first: seq<Byte>, rest: seq<seq<Byte>>, rest': seq<seq<Byte>>)
    requires |first| > 0 && Concat(rest) == Concat(rest')
    ensures var start := Write(OPENED, first, Done);
      && WriteAll(start, rest).dma == WriteAll(start, rest').dma
      && WriteAll(start, rest).residue == WriteAll(start, rest').residue
  {
    ChunkingInvariance(first, rest);
    ChunkingInvariance(first, rest');
    PayloadDetermines(WriteAll(Write(OPENED, first, Done), rest), WriteAll(Write(OPENED, first, Done), rest'));
  }

  /** Empty writes before the first data do nothing. */
  lemma EmptyWriteIsNoOp()
    ensures Write(OPENED, [], Done) == OPENED
  {
  }

  /** The file position counts the bytes written, header included. */
  lemma {:induction false} PositionCounts(d: Driver, bufs: seq<seq<Byte>>)
    requires Valid(d)
    ensures WriteAll(d, bufs).ppos == d.ppos + |Concat(bufs)|
  {
    if |bufs| == 0 {
    } else {
      PositionCounts(d, bufs[..|bufs| - 1]);
    }
  }

  /** A write that fails before its transfer leaves no trace. */
  lemma EarlyFailureIsHarmless(d: Driver, buf: seq<Byte>, early: Outcome, rest: seq<seq<Byte>>)
    requires Valid(d) && (early.NoMemory? || early.CopyFault?)
    ensures WriteAll(Write(d, buf, early), rest) == WriteAll(d, rest)
  {
  }

  // ------------------------------------------- which bytes go out, in which order

  /** The first sync word that at least one more byte follows is at `i`. */
  ghost predicate FirstSyncAt(k: seq<Byte>, i: nat) {
    && i + 4 < |k|
    && (k[i..i + 4] == [0x66, 0x55, 0x99, 0xAA] || k[i..i + 4] == [0xAA, 0x99, 0x55, 0x66])
    && forall j {:trigger k[j..j + 4]} :: 0 <= j < i ==>
         k[j..j + 4] != [0x66, 0x55, 0x99, 0xAA] && k[j..j + 4] != [0xAA, 0x99, 0x55, 0x66]
  }

  lemma FirstSyncIsFound(k: seq<Byte>, i: nat)
    requires FirstSyncAt(k, i)
    ensures HasHeader(k) && FindSync(k, 0) == i
    ensures SwapAfter(k, false) <==> k[i..i + 4] == [0xAA, 0x99, 0x55, 0x66]
  {
    assert SyncAt(k, i);
  }

  /** The whole words of a text have gone out, turned round or as they are, and the
      rest is held back. */
  ghost predicate Sent(d: Driver, text: seq<Byte>, turned: bool) {
    var n := WholeWords(text);
    d.residue == text[n..] && d.dma == if turned then Flipped(text[..n]) else text[..n]
  }

  lemma TransferOf(d: Driver, text: seq<Byte>)
    requires Valid(d) && Payload(d) == text
    ensures Sent(d, text, d.swap)
  {
    var x := Ordered(d.swap, d.dma);
    assert text == x + d.residue && |x| == |d.dma|;
    assert text[..|x|] == x && text[|x|..] == d.residue;
    OrderedTwice(d.swap, d.dma);
  }

  /** A file whose first sync word is 66 55 99 AA goes out byte for byte from that word
      on, one whose first sync word is AA 99 55 66 with every word turned round, however
      either is cut after the first write. */
  lemma OrderOfTransfer(first: seq<Byte>, rest: seq<seq<Byte>>, i: nat)
    requires FirstSyncAt(first, i)
    ensures Sent(WriteAll(Write(OPENED, first, Done), rest), first[i..] + Concat(rest),
                 first[i..i + 4] == [0xAA, 0x99, 0x55, 0x66])
  {
    FirstSyncIsFound(first, i);
    ChunkingInvariance(first, rest);
    TransferOf(WriteAll(Write(OPENED, first, Done), rest), first[i..] + Concat(rest));
  }

  /** A first write without a sync word goes out byte for byte from its start. */
  lemma HeaderlessGoesAsGiven(first: seq<Byte>, rest: seq<seq<Byte>>)
    requires |first| > 0
    requires forall j {:trigger first[j..j + 4]} :: 0 <= j && j + 4 < |first| ==>
      first[j..j + 4] != [0x66, 0x55, 0x99, 0xAA] && first[j..j + 4] != [0xAA, 0x99, 0x55, 0x66]
    ensures Sent(WriteAll(Write(OPENED, first, Done), rest), first + Concat(rest), false)
  {
    HeaderFoundIff(first);
    ChunkingInvariance(first, rest);
    assert first[0..] == first;
    TransferOf(WriteAll(Write(OPENED, first, Done), rest), first + Concat(rest));
  }

  lemma FirstWordSent(d: Driver, text: seq<Byte>, turned: bool)
    requires Sent(d, text, turned) && |text| >= 4
    ensures |d.dma| >= 4
    ensures d.dma[..4] == if turned then [text[3], text[2], text[1], text[0]] else [text[0], text[1], text[2], text[3]]
  {
    var w := text[..WholeWords(text)];
    if turned {
      FlippedStart(w);
    } else {
      assert w[..4] == [text[0], text[1], text[2], text[3]];
    }
  }

  lemma FlippedStart(w: seq<Byte>)
    requires |w| % 4 == 0 && |w| >= 4
    ensures Flipped(w)[..4] == [w[3], w[2], w[1], w[0]]
  {
    MirrorWord(0);
  }

  lemma SyncOfText(first: seq<Byte>, tail: seq<Byte>, i: nat)
    requires i + 4 <= |first|
    ensures var text := first[i..] + tail;
      |text| >= 4 && first[i..i + 4] == [text[0], text[1], text[2], text[3]]
  {
  }

  /** Whatever the file's byte order, the transfer starts with 66 55 99 AA. */
  lemma TransferStartsWithSync(first: seq<Byte>, rest: seq<seq<Byte>>, i: nat)
    requires FirstSyncAt(first, i)
    ensures var d := WriteAll(Write(OPENED, first, Done), rest);
      |d.dma| >= 4 && d.dma[..4] == [0x66, 0x55, 0x99, 0xAA]
  {
    OrderOfTransfer(first, rest, i);
    SyncOfText(first, Concat(rest), i);
    StartsWithSync(WriteAll(Write(OPENED, first, Done), rest), first[i..] + Concat(rest), first[i..i + 4]);
  }

  lemma StartsWithSync(d: Driver, text: seq<Byte>, sync: seq<Byte>)
    requires |text| >= 4 && sync == [text[0], text[1], text[2], text[3]]
    requires sync == [0x66, 0x55, 0x99, 0xAA] || sync == [0xAA, 0x99, 0x55, 0x66]
    requires Sent(d, text, sync == [0xAA, 0x99, 0x55, 0x66])
    ensures |d.dma| >= 4 && d.dma[..4] == [0x66, 0x55, 0x99, 0xAA]
  {
    FirstWordSent(d, text, sync == [0xAA, 0x99, 0x55, 0x66]);
    assert sync[0] == 0xAA ==> sync == [0xAA, 0x99, 0x55, 0x66];
    assert sync[0] == 0x66 ==> sync != [0xAA, 0x99, 0x55, 0x66];
  }

  // -------------------------------------------------- endian normalisation

  /** The sync word of a flipped file is the other sync word. */
  lemma FlippedSync(p: seq<Byte>, i: nat)
    requires |p| % 4 == 0 && i % 4 == 0 && i + 4 <= |p|
    ensures Flipped(p)[i..i + 4] == SWAPPED <==> p[i..i + 4] == NORMAL
    ensures Flipped(p)[i..i + 4] == NORMAL <==> p[i..i + 4] == SWAPPED
  {
    var (w, w') := (p[i..i + 4], Flipped(p)[i..i + 4]);
    MirrorWord(i);
    assert w' == [w[3], w[2], w[1], w[0]];
    assert w == [w[0], w[1], w[2], w[3]];
  }

  lemma SyncInPrefix(first: seq<Byte>, tail: seq<Byte>, i: nat)
    requires i + 4 <= |first|
    ensures first[i..i + 4] == (first + tail)[i..i + 4]
  {
  }

  lemma OppositeOrders(first: seq<Byte>, tail: seq<Byte>, first': seq<Byte>, tail': seq<Byte>)
    requires |first + tail| % 4 == 0 && first' + tail' == Flipped(first + tail)
    requires HasHeader(first) && HasHeader(first')
    requires FindSync(first, 0) == FindSync(first', 0) && FindSync(first, 0) % 4 == 0
    ensures SwapAfter(first, false) != SwapAfter(first', false)
  {
    var i := FindSync(first, 0);
    SyncInPrefix(first, tail, i);
    SyncInPrefix(first', tail', i);
    FlippedSync(first + tail, i);
    assert NORMAL[0] != SWAPPED[0];
  }

  /** A file and its flipped copy program the same words: if both first writes
      find their sync word at the same word-aligned place, the transfers are equal
      however either file is cut. */
  lemma FlipCommutes(first: seq<Byte>, rest: seq<seq<Byte>>, first': seq<Byte>, rest': seq<seq<Byte>>)
    requires var p := first + Concat(rest);
      |p| % 4 == 0 && first' + Concat(rest') == Flipped(p)
    requires HasHeader(first) && HasHeader(first')
    requires FindSync(first, 0) == FindSync(first', 0) && FindSync(first, 0) % 4 == 0
    ensures var (d, d') := (WriteAll(Write(OPENED, first, Done), rest), WriteAll(Write(OPENED, first', Done), rest'));
      d.dma == d'.dma && d.residue == d'.residue == [] && d.swap != d'.swap
  {
    ChunkingInvariance(first, rest);
    ChunkingInvariance(first', rest');
    FlippedText(first, Concat(rest), first', Concat(rest'));
    OppositeOrders(first, Concat(rest), first', Concat(rest'));
    var text := first[HeaderLength(first)..] + Concat(rest);
    SameTransfer(WriteAll(Write(OPENED, first, Done), rest), WriteAll(Write(OPENED, first', Done), rest'), text);
  }

  /** Cutting aligned headers off keeps the copies flipped. */
  lemma FlippedText(first: seq<Byte>, tail: seq<Byte>, first': seq<Byte>, tail': seq<Byte>)
    requires |first + tail| % 4 == 0 && first' + tail' == Flipped(first + tail)
    requires HasHeader(first) && HasHeader(first')
    requires FindSync(first, 0) == FindSync(first', 0) && FindSync(first, 0) % 4 == 0
    ensures var text := first[HeaderLength(first)..] + tail;
      |text| % 4 == 0 && first'[HeaderLength(first')..] + tail' == Flipped(text)
  {
    var i := FindSync(first, 0);
    DropOfAppend(first, tail, i);
    DropOfAppend(first', tail', i);
    FlippedDrop(first + tail, i);
  }

  lemma DropOfAppend(s: seq<Byte>, t: seq<Byte>, i: nat)
    requires i <= |s|
    ensures s[i..] + t == (s + t)[i..]
  {
  }

  /** Opposite byte orders over a text and its flipped copy send the same words. */
  lemma SameTransfer(d: Driver, d': Driver, text: seq<Byte>)
    requires Valid(d) && Valid(d') && d.swap != d'.swap && |text| % 4 == 0
    requires Payload(d) == text && Payload(d') == Flipped(text)
    ensures d.dma == d'.dma && d.residue == d'.residue == []
  {
    WholePayload(d);
    WholePayload(d');
    OrderedTwice(d.swap, d.dma);
    OrderedTwice(d'.swap, d'.dma);
    FlippedTwice(text);
  }

  /** A payload of whole words leaves nothing behind. */
  lemma WholePayload(d: Driver)
    requires Valid(d) && |Payload(d)| % 4 == 0
    ensures d.residue == [] && Payload(d) == Ordered(d.swap, d.dma)
  {
    assert |Payload(d)| == |d.dma| + |d.residue|;
  }

  // ------------------------------------------------------------- edge cases

  /** Exactly which first blocks lose their header: those with a sync word that at
      least one more byte follows. */
  lemma HeaderFoundIff(k: seq<Byte>)
    ensures HasHeader(k) <==> exists j {:trigger SyncAt(k, j)} :: 0 <= j && j + 4 < |k| && SyncAt(k, j)
  {
    if 4 < |k| {
      var i := FindSync(k, 0);
      assert i < |k| - 4 ==> SyncAt(k, i);
    }
  }

  /** The search stops one byte short: a sync word that ends the first write is
      never found, whatever precedes it. */
  lemma TrailingSyncIsMissed(header: seq<Byte>, sync: seq<Byte>)
    requires |header| > 0 && (sync == NORMAL || sync == SWAPPED)
    requires forall j {:trigger SyncAt(header + sync, j)} :: 0 <= j < |header| ==> !SyncAt(header + sync, j)
    ensures SyncAt(header + sync, |header|) && !HasHeader(header + sync)
    ensures Payload(Write(OPENED, header + sync, Done)) == header + sync
  {
    assert (header + sync)[|header|..|header| + 4] == sync;
    FirstWriteStrips(header + sync);
  }

  // ----------------------------------------------------- after a failed transfer

  /** The bytes a write holds back. */
  function HeldBack(d: Driver, buf: seq<Byte>): (t: seq<Byte>) { Kept(d, buf)[WholeWords(Kept(d, buf))..] }

  /** Behind either of two held-back texts a header is found in `buf`, and the same
      bytes are left after the cut. */
  predicate SameCut(r: seq<Byte>, t: seq<Byte>, buf: seq<Byte>) {
    && HasHeader(r + buf) && HasHeader(t + buf)
    && var (i, j) := (FindSync(r + buf, 0), FindSync(t + buf, 0));
       |r| - i == |t| - j && (i < |r| && j < |t| ==> r[i..] == t[j..])
  }

  /** When sending the same buffer again is exact: the failed write left the
      held-back bytes as they were, or it was a first write and the header search
      drops what it left. */
  predicate RetryIsExact(d: Driver, buf: seq<Byte>) {
    || HeldBack(d, buf) == d.residue
    || (d.ppos == 0 && SameCut(d.residue, HeldBack(d, buf), buf))
  }

  lemma AppendCancels(a: seq<Byte>, x: seq<Byte>, y: seq<Byte>)
    requires a + x == a + y
    ensures x == y
  {
    assert x == (a + x)[|a|..] && y == (a + y)[|a|..];
  }

  lemma TailCancels(x: seq<Byte>, y: seq<Byte>, b: seq<Byte>)
    requires x + b == y + b
    ensures x == y
  {
    assert |x + b| == |y + b|;
    assert x == (x + b)[..|x|] && y == (y + b)[..|y|];
  }

  lemma SuffixEqual(r: seq<Byte>, t: seq<Byte>, buf: seq<Byte>, i: nat, j: nat)
    requires i <= |r + buf| && j <= |t + buf|
    ensures (r + buf)[i..] == (t + buf)[j..]
       <==> |r| - i == |t| - j && (i < |r| && j < |t| ==> r[i..] == t[j..])
  {
    var (x, y) := ((r + buf)[i..], (t + buf)[j..]);
    if i < |r| {
      assert x == r[i..] + buf;
    } else {
      assert x == buf[i - |r|..];
    }
    if j < |t| {
      assert y == t[j..] + buf;
    } else {
      assert y == buf[j - |t|..];
    }
    if x == y && i < |r| && j < |t| {
      assert r[i..] == x[..|r| - i] && t[j..] == y[..|t| - j];
    }
  }

  /** What is kept and its byte order are all a successful write depends on. */
  lemma WritesEqual(d: Driver, e: Driver, buf: seq<Byte>)
    requires Valid(d) && Valid(e) && d.ppos == e.ppos && d.dma == e.dma
    ensures Write(d, buf, Done) == Write(e, buf, Done)
       <==> Kept(d, buf) == Kept(e, buf) && NewSwap(d, buf) == NewSwap(e, buf)
  {
    SendPayload(d, NewSwap(d, buf), Kept(d, buf), |buf|);
    SendPayload(e, NewSwap(e, buf), Kept(e, buf), |buf|);
    if Write(d, buf, Done) == Write(e, buf, Done) {
      AppendCancels(Ordered(NewSwap(d, buf), d.dma), Kept(d, buf), Kept(e, buf));
    }
  }

  /** A block cut at its sync word starts with it, so it has a header of its own. */
  lemma CutHasHeader(k: seq<Byte>)
    requires HasHeader(k)
    ensures var c := k[FindSync(k, 0)..];
      HasHeader(c) && FindSync(c, 0) == 0 && c[..4] == k[FindSync(k, 0)..FindSync(k, 0) + 4]
  {
    var (i, c) := (FindSync(k, 0), k[FindSync(k, 0)..]);
    assert c[0..4] == k[i..i + 4];
    assert SyncAt(c, 0);
  }

  /** Blocks that leave the same bytes agree on the header and its byte order. */
  lemma SameKept(a: seq<Byte>, b: seq<Byte>, swap: bool)
    requires a[HeaderLength(a)..] == b[HeaderLength(b)..]
    ensures a == b || (HasHeader(a) && HasHeader(b))
    ensures SwapAfter(b, SwapAfter(a, swap)) == SwapAfter(a, swap)
  {
    if HasHeader(a) {
      CutHasHeader(a);
    }
    if HasHeader(b) {
      CutHasHeader(b);
    }
    assert !HasHeader(a) ==> a[HeaderLength(a)..] == a;
    assert !HasHeader(b) ==> b[HeaderLength(b)..] == b;
  }

  lemma SameKeptIff(r: seq<Byte>, t: seq<Byte>, buf: seq<Byte>)
    ensures (r + buf)[HeaderLength(r + buf)..] == (t + buf)[HeaderLength(t + buf)..]
       <==> r == t || SameCut(r, t, buf)
  {
    var (a, b) := (r + buf, t + buf);
    SuffixEqual(r, t, buf, HeaderLength(a), HeaderLength(b));
    if a[HeaderLength(a)..] == b[HeaderLength(b)..] {
      SameKept(a, b, false);
      if a == b {
        TailCancels(r, t, buf);
      }
    }
  }

  lemma RetryOfFirst(d: Driver, e: Driver, buf: seq<Byte>)
    requires d.ppos == e.ppos == 0 && e.residue == HeldBack(d, buf) && e.swap == NewSwap(d, buf)
    ensures Kept(e, buf) == Kept(d, buf) && NewSwap(e, buf) == NewSwap(d, buf) <==> RetryIsExact(d, buf)
  {
    SameKeptIff(d.residue, e.residue, buf);
    if Kept(d, buf) == Kept(e, buf) {
      SameKept(d.residue + buf, e.residue + buf, d.swap);
    }
  }

  lemma RetryOfLater(d: Driver, e: Driver, buf: seq<Byte>)
    requires d.ppos == e.ppos > 0 && e.residue == HeldBack(d, buf) && e.swap == NewSwap(d, buf)
    ensures Kept(e, buf) == Kept(d, buf) && NewSwap(e, buf) == NewSwap(d, buf) <==> RetryIsExact(d, buf)
  {
    if Kept(d, buf) == Kept(e, buf) {
      TailCancels(d.residue, e.residue, buf);
    }
  }

  /** Sending the same buffer again after a failed transfer is exact if and only if
      `RetryIsExact` holds, for a first write as for a later one. */
  lemma RetryAfterFailure(d: Driver, buf: seq<Byte>)
    requires Valid(d)
    ensures Write(Write(d, buf, TransferFailed), buf, Done) == Write(d, buf, Done) <==> RetryIsExact(d, buf)
  {
    var failed := Write(d, buf, TransferFailed);
    WritesEqual(failed, d, buf);
    if d.ppos == 0 {
      RetryOfFirst(d, failed, buf);
    } else {
      RetryOfLater(d, failed, buf);
    }
  }

  lemma FoundAfter(t: seq<Byte>, buf: seq<Byte>)
    requires HasHeader(buf)
    ensures HasHeader(t + buf) && FindSync(t + buf, 0) <= |t| + FindSync(buf, 0)
  {
    var i := FindSync(buf, 0);
    assert (t + buf)[|t| + i..|t| + i + 4] == buf[i..i + 4];
    assert SyncAt(t + buf, |t| + i);
  }

  /** The first write after opening: repeating it is exact if and only if nothing was
      held back, or its header is found again behind what was. */
  lemma RetryOfFirstWrite(buf: seq<Byte>)
    ensures var t := HeldBack(OPENED, buf);
      Write(Write(OPENED, buf, TransferFailed), buf, Done) == Write(OPENED, buf, Done)
      <==> t == [] || (HasHeader(buf) && FindSync(t + buf, 0) == |t| + FindSync(buf, 0))
  {
    RetryAfterFailure(OPENED, buf);
    assert [] + buf == buf;
    if HasHeader(buf) {
      FoundAfter(HeldBack(OPENED, buf), buf);
    }
  }

  lemma TooShort(k: seq<Byte>)
    requires |k| < 4
    ensures k[HeaderLength(k)..] == k && k[WholeWords(k)..] == k
  {
  }

  /** A first write too short to be searched or sent is held back whole. */
  lemma ShortWrite(d: Driver, buf: seq<Byte>, outcome: Outcome)
    requires Valid(d) && d.ppos == 0 && |d.residue + buf| < 4 && (outcome.Done? || outcome.TransferFailed?)
    ensures Write(d, buf, outcome).residue == d.residue + buf
    ensures outcome.TransferFailed? ==> Write(d, buf, outcome).ppos == 0
  {
    TooShort(d.residue + buf);
  }

  lemma ShortTwice(d: Driver, buf: seq<Byte>)
    requires Valid(d) && d.ppos == 0 && |d.residue + buf + buf| < 4
    ensures Write(Write(d, buf, TransferFailed), buf, Done).residue == d.residue + buf + buf
  {
    ShortWrite(d, buf, TransferFailed);
    ShortWrite(Write(d, buf, TransferFailed), buf, Done);
  }

  lemma OneAndTwo(none: seq<Byte>, b: Byte)
    requires none == []
    ensures none + [b] == [b] && none + [b] + [b] == [b, b]
  {
  }

  /** A first write of one byte fails: repeated, it leaves the byte twice. */
  lemma RetryOfOneByte(b: Byte)
    ensures Write(OPENED, [b], Done).residue == [b]
    ensures Write(Write(OPENED, [b], TransferFailed), [b], Done).residue == [b, b]
  {
    OneAndTwo(OPENED.residue, b);
    ShortWrite(OPENED, [b], Done);
    ShortTwice(OPENED, [b]);
  }

  // ------------------------------------------------------- the driver itself

  /** `swab32` of the word at `i`, in place. */
  method SwabWord(kbuf: array<Byte>, i: nat)
    requires i % 4 == 0 && i + 4 <= kbuf.Length
    modifies kbuf
    ensures forall j :: 0 <= j < kbuf.Length && j / 4 != i / 4 ==> kbuf[j] == old(kbuf[j])
    ensures forall j :: i <= j < i + 4 ==> kbuf[j] == old(kbuf[..])[Mirror(j)]
  {
    MirrorWord(i);
    kbuf[i], kbuf[i + 1], kbuf[i + 2], kbuf[i + 3] := kbuf[i + 3], kbuf[i + 2], kbuf[i + 1], kbuf[i];
  }

  /** The first `i` bytes turned round, the rest as they were. */
  ghost predicate Swabbed(was: seq<Byte>, now: seq<Byte>, i: nat) {
    && |was| == |now| && i <= |was| && i % 4 == 0
    && (forall j {:trigger now[j]} :: i <= j < |was| ==> now[j] == was[j])
    && (forall j {:trigger now[j]} :: 0 <= j < i ==> Mirror(j) < |was| && now[j] == was[Mirror(j)])
  }

  lemma SwabMore(was: seq<Byte>, before: seq<Byte>, after: seq<Byte>, i: nat)
    requires Swabbed(was, before, i) && |after| == |was| && i + 4 <= |was|
    requires forall j :: 0 <= j < |was| && j / 4 != i / 4 ==> after[j] == before[j]
    requires forall j :: i <= j < i + 4 ==> after[j] == before[Mirror(j)]
    ensures Swabbed(was, after, i + 4)
  {
    forall j | 0 <= j < i ensures Mirror(j) < |was| && after[j] == was[Mirror(j)] {
      assert j / 4 != i / 4;
      assert after[j] == before[j];
    }
    forall j | i + 4 <= j < |was| ensures after[j] == was[j] {
      assert j / 4 != i / 4;
      assert after[j] == before[j];
    }
    forall j | i <= j < i + 4 ensures Mirror(j) < |was| && after[j] == was[Mirror(j)] {
      assert after[j] == before[Mirror(j)];
    }
  }

  lemma SwabbedIsFlipped(was: seq<Byte>, now: seq<Byte>, count: nat)
    requires Swabbed(was, now, count)
    ensures now[..count] == Flipped(was[..count])
  {
    var (x, y) := (now[..count], Flipped(was[..count]));
    forall j | 0 <= j < count ensures x[j] == y[j] {
      assert x[j] == now[j];
    }
  }

  /** Every word of the buffer's first `count` bytes turned round in place. */
  method SwabWords(kbuf: array<Byte>, count: nat)
    requires count <= kbuf.Length && count % 4 == 0
    modifies kbuf
    ensures kbuf[..count] == Flipped(old(kbuf[..count]))
  {
    ghost var was := kbuf[..];
    var i := 0;
    while i < count
      invariant i <= count && Swabbed(was, kbuf[..], i)
    {
      ghost var before := kbuf[..];
      SwabWord(kbuf, i);
      SwabMore(was, before, kbuf[..], i);
      i := i + 4;
    }
    SwabbedIsFlipped(was, kbuf[..], count);
    assert kbuf[..][..count] == kbuf[..count] && was[..count] == old(kbuf[..count]);
  }

  /** The search for a sync word in either byte order. */
  method SearchHeader(kbuf: array<Byte>) returns (i: nat, found: bool, swapped: bool)
    requires kbuf.Length > 4
    ensures i == FindSync(kbuf[..], 0)
    ensures found == HasHeader(kbuf[..])
    ensures found ==> swapped == SwapAfter(kbuf[..], false)
  {
    i, found, swapped := 0, false, false;
    while i < kbuf.Length - 4
      invariant i <= kbuf.Length - 4
      invariant FindSync(kbuf[..], 0) == FindSync(kbuf[..], i)
    {
      assert kbuf[..][i..i + 4] == kbuf[i..i + 4];
      if kbuf[i..i + 4] == NORMAL {
        assert NORMAL[0] != SWAPPED[0];
        return i, true, false;
      }
      if kbuf[i..i + 4] == SWAPPED {
        return i, true, true;
      }
      i := i + 1;
    }
  }

  /** The fields of `xdevcfg_drvdata` that a write uses, with the file position and
      a record of what the DMA engine was given. */
  class Xdevcfg {
    var endianSwap: bool
    const residueBuf: array<Byte>
    var residueLen: nat
    var ppos: nat
    var dma: seq<Byte>

    ghost predicate Wf()
      reads this, residueBuf
    {
      residueBuf.Length == 3 && residueLen <= 3 && |dma| % 4 == 0
    }

    ghost function View(): (d: Driver)
      requires Wf()
      reads this, residueBuf
      ensures Valid(d)
    {
      Driver(endianSwap, residueBuf[..residueLen], ppos, dma)
    }

    /** `xdevcfg_open`. */
    constructor ()
      ensures Wf() && View() == OPENED && fresh(residueBuf)
    {
      endianSwap, residueLen, ppos, dma := false, 0, 0, [];
      residueBuf := new Byte[3](_ => 0);
    }

    method Gather(buf: seq<Byte>) returns (kbuf: array<Byte>)
      requires Wf()
      ensures fresh(kbuf) && kbuf[..] == residueBuf[..residueLen] + buf
    {
      kbuf := new Byte[residueLen + |buf|](_ => 0);
      forall j | 0 <= j < residueLen {
        kbuf[j] := residueBuf[j];
      }
      forall j | 0 <= j < |buf| {
        kbuf[residueLen + j] := buf[j];
      }
    }

    /** Remove the header from a first block and note its byte order. */
    method StripHeader(kbuf: array<Byte>) returns (count: nat)
      requires kbuf != residueBuf
      modifies kbuf, `endianSwap
      ensures count == |old(kbuf[..])| - HeaderLength(old(kbuf[..])) && count <= kbuf.Length
      ensures kbuf[..count] == old(kbuf[..])[HeaderLength(old(kbuf[..]))..]
      ensures endianSwap == SwapAfter(old(kbuf[..]), old(endianSwap))
    {
      count := kbuf.Length;
      if count > 4 {
        var i, found, swapped := SearchHeader(kbuf);
        if found {
          endianSwap := swapped;
          count := count - i;
          forall j | 0 <= j < count {
            kbuf[j] := kbuf[i + j];
          }
        }
      }
    }

    /** Save the stragglers and put the whole words in DMA byte order. */
    method Prepare(kbuf: array<Byte>, count: nat) returns (n: nat)
      requires Wf() && kbuf != residueBuf && count <= kbuf.Length
      modifies kbuf, residueBuf, `residueLen
      ensures Wf() && n == WholeWords(old(kbuf[..count]))
      ensures residueBuf[..residueLen] == old(kbuf[..count])[n..]
      ensures kbuf[..n] == Ordered(endianSwap, old(kbuf[..count])[..n])
    {
      residueLen := count % 4;
      n := count - residueLen;
      forall j | 0 <= j < residueLen {
        residueBuf[j] := kbuf[n + j];
      }
      assert kbuf[..n] == old(kbuf[..count])[..n];
      if endianSwap {
        SwabWords(kbuf, n);
      }
    }

    /** Collect stragglers and user data, less a header. */
    method Fetch(buf: seq<Byte>) returns (kbuf: array<Byte>, count: nat)
      requires Wf()
      modifies `endianSwap
      ensures Wf() && fresh(kbuf) && count <= kbuf.Length
      ensures kbuf[..count] == Kept(old(View()), buf)
      ensures endianSwap == NewSwap(old(View()), buf)
    {
      kbuf := Gather(buf);
      count := kbuf.Length;
      assert kbuf[..count] == kbuf[..];
      if ppos == 0 {
        count := StripHeader(kbuf);
      }
    }

    /** `xdevcfg_write`; `outcome` is how allocation, user copy and DMA turn out.
        The result is the byte count, or an error. */
    method OnWrite(buf: seq<Byte>, outcome: Outcome) returns (status: Result<nat>)
      requires Wf()
      modifies this, residueBuf
      ensures Wf() && View() == Write(old(View()), buf, outcome)
      ensures status == if outcome.Done? then Success(|buf|) else Error
    {
      if outcome.NoMemory? || outcome.CopyFault? {
        return Error;
      }
      var kbuf, count := Fetch(buf);
      var n := Prepare(kbuf, count);
      if outcome.TransferFailed? {
        return Error;
      }
      dma := dma + kbuf[..n];
      ppos := ppos + |buf|;
      status := Success(|buf|);
    }
  }
}
