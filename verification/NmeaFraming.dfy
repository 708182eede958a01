/** The framing of the character-at-a-time NMEA parser: terms, sentence starts,
    parity and the checksum test.  What a completed term means is left to a record
    of operations, so the framing theorems hold whatever the fields are. */
module NmeaFraming {

  const TERM: nat := 15
  const NUL: char := '\0'

  /** What the framing calls out to.  `G` is what is gathered from a sentence, `F`
      what has been published. */
  datatype Ops<!G, !F> = Ops(
    /** a sentence starts */
    reset: G -> G,
    /** term number n is complete with the given text */
    absorb: (G, nat, string) -> G,
    /** the sentence so far is valid */
    good: G -> bool,
    publish: (G, F) -> F,
    /** the byte two characters spell */
    spelled: (char, char) -> nat,
    xor: (nat, char) -> nat)

  datatype Parser<G, F> = Parser(parity: nat, isChecksum: bool, term: string, termNumber: nat, termOffset: nat,
                                 gathered: G, published: F)

  ghost predicate Valid<G, F>(p: Parser<G, F>) {
    |p.term| == TERM && p.termNumber < 256 && p.termOffset < TERM
  }

  predicate IsTerminator(c: char) { c == ',' || c == '\r' || c == '\n' || c == '*' }

  /** One more, in a byte. */
  function Bump(n: nat): (m: nat) { if n == 255 then 0 else n + 1 }

  /** The C string at the start of a buffer. */
  function Text(term: string): (s: string)
    ensures |s| <= |term| && s == term[..|s|] && NUL !in s
    ensures |s| < |term| ==> term[|s|] == NUL
  {
    if |term| == 0 || term[0] == NUL then []
    else
      var rest := Text(term[1..]);
      assert term[..1 + |rest|] == [term[0]] + term[1..][..|rest|];
      [term[0]] + rest
  }

  /** The term now complete validates a sentence. */
  predicate Validates<G, F>(ops: Ops<G, F>, p: Parser<G, F>)
    requires Valid(p)
  {
    p.isChecksum && ops.spelled(p.term[0], p.term[1]) == p.parity && ops.good(p.gathered)
  }

  /** `gps_term_complete`; its result is `Validates`. */
  function TermComplete<G, F>(ops: Ops<G, F>, p: Parser<G, F>): (p': Parser<G, F>)
    requires Valid(p)
    ensures Valid(p')
  {
    if p.isChecksum then
      if Validates(ops, p) then p.(published := ops.publish(p.gathered, p.published)) else p
    else p.(gathered := ops.absorb(p.gathered, p.termNumber, Text(p.term)))
  }

  /** The state `gps_term_complete` is called in when a terminator arrives. */
  function AtTerminator<G, F>(ops: Ops<G, F>, p: Parser<G, F>, c: char): (p': Parser<G, F>)
    requires Valid(p)
    ensures Valid(p')
  {
    p.(parity := if c == ',' then ops.xor(p.parity, c) else p.parity, term := p.term[p.termOffset := NUL])
  }

  /** `gps_encode`: the parser after one more character. */
  function Encode<G, F>(ops: Ops<G, F>, p: Parser<G, F>, c: char): (p': Parser<G, F>)
    requires Valid(p)
    ensures Valid(p')
  {
    if IsTerminator(c) then
      TermComplete(ops, AtTerminator(ops, p, c)).(termNumber := Bump(p.termNumber), termOffset := 0,
                                                  isChecksum := c == '*')
    else if c == '$' then
      Parser(0, false, p.term, 0, 0, ops.reset(p.gathered), p.published)
    else
      p.(term := if p.termOffset < TERM - 1 then p.term[p.termOffset := c] else p.term,
         termOffset := if p.termOffset < TERM - 1 then p.termOffset + 1 else p.termOffset,
         parity := if p.isChecksum then p.parity else ops.xor(p.parity, c))
  }

  /** ... and what it returns: a sentence was just validated. */
  predicate Returns<G, F>(ops: Ops<G, F>, p: Parser<G, F>, c: char)
    requires Valid(p)
  {
    IsTerminator(c) && Validates(ops, AtTerminator(ops, p, c))
  }

  function Run<G, F>(ops: Ops<G, F>, p: Parser<G, F>, cs: string): (p': Parser<G, F>)
    requires Valid(p)
    ensures Valid(p')
  {
    if |cs| == 0 then p else Encode(ops, Run(ops, p, cs[..|cs| - 1]), cs[|cs| - 1])
  }

  lemma RunSnoc<G, F>(ops: Ops<G, F>, p: Parser<G, F>, s: string, c: char)
    requires Valid(p)
    ensures Run(ops, p, s + [c]) == Encode(ops, Run(ops, p, s), c)
  {
    assert (s + [c])[..|s|] == s;
  }

  // ------------------------------------------------- the framing, from the text

  /** What arrived since the last sentence start. */
  function Since(cs: string): (s: string)
    ensures |s| <= |cs|
  {
    if |cs| == 0 || cs[|cs| - 1] == '$' then [] else Since(cs[..|cs| - 1]) + [cs[|cs| - 1]]
  }

  /** The text ends inside a checksum term: its last terminator is an asterisk. */
  predicate InChecksum(s: string) {
    |s| > 0 && var c := s[|s| - 1];
      if IsTerminator(c) then c == '*' else InChecksum(s[..|s| - 1])
  }

  /** The exclusive or of the characters the framing rule covers: commas, and
      everything else that is neither a terminator nor inside a checksum term. */
  function CoveredXor<G, F>(ops: Ops<G, F>, s: string): (x: nat) {
    if |s| == 0 then 0
    else
      var (init, c) := (s[..|s| - 1], s[|s| - 1]);
      if c == ',' || !(IsTerminator(c) || InChecksum(init)) then ops.xor(CoveredXor(ops, init), c)
      else CoveredXor(ops, init)
  }

  /** The text of the term under way. */
  function LastTerm(s: string): (t: string) {
    if |s| == 0 || IsTerminator(s[|s| - 1]) then [] else LastTerm(s[..|s| - 1]) + [s[|s| - 1]]
  }

  /** A parser at the start of a sentence whose validity flag is down. */
  ghost predicate AtStart<G, F>(ops: Ops<G, F>, p: Parser<G, F>) {
    && Valid(p) && p.parity == 0 && !p.isChecksum && p.termOffset == 0 && p.termNumber == 0
    && !ops.good(p.gathered)
  }

  /** The buffer holds the start of the term, fourteen characters at most. */
  ghost predicate Buffered<G, F>(p: Parser<G, F>, t: string)
    requires Valid(p)
  {
    p.termOffset == (if |t| < TERM then |t| else TERM - 1) && p.term[..p.termOffset] == t[..p.termOffset]
  }

  ghost predicate Tracks<G, F>(ops: Ops<G, F>, p: Parser<G, F>, s: string)
    requires Valid(p)
  {
    p.isChecksum == InChecksum(s) && p.parity == CoveredXor(ops, s) && Buffered(p, LastTerm(s))
  }

  /** The framing functions on one more character. */
  lemma FramingAppend<G, F>(ops: Ops<G, F>, s: string, c: char)
    ensures InChecksum(s + [c]) == if IsTerminator(c) then c == '*' else InChecksum(s)
    ensures CoveredXor(ops, s + [c])
         == if c == ',' || !(IsTerminator(c) || InChecksum(s)) then ops.xor(CoveredXor(ops, s), c)
            else CoveredXor(ops, s)
    ensures LastTerm(s + [c]) == if IsTerminator(c) then [] else LastTerm(s) + [c]
  {
    assert (s + [c])[..|s|] == s;
  }

  lemma BufferOrdinary<G, F>(ops: Ops<G, F>, p: Parser<G, F>, t: string, c: char)
    requires Valid(p) && Buffered(p, t) && !IsTerminator(c) && c != '$'
    ensures Buffered(Encode(ops, p, c), t + [c])
  {
    var q := Encode(ops, p, c);
    if p.termOffset < TERM - 1 {
      assert q.term[..q.termOffset] == p.term[..p.termOffset] + [c];
      assert (t + [c])[..q.termOffset] == t[..p.termOffset] + [c];
    } else {
      assert (t + [c])[..TERM - 1] == t[..TERM - 1];
    }
  }

  lemma TrackStep<G, F>(ops: Ops<G, F>, p: Parser<G, F>, s: string, c: char)
    requires Valid(p) && Tracks(ops, p, s)
    ensures Tracks(ops, Encode(ops, p, c), if c == '$' then [] else s + [c])
  {
    if c != '$' {
      FramingAppend(ops, s, c);
      if !IsTerminator(c) {
        BufferOrdinary(ops, p, LastTerm(s), c);
      }
    }
  }

  lemma {:induction false} RunTracks<G, F>(ops: Ops<G, F>, p: Parser<G, F>, cs: string)
    requires AtStart(ops, p)
    ensures Tracks(ops, Run(ops, p, cs), Since(cs))
  {
    if |cs| == 0 {
    } else {
      RunTracks(ops, p, cs[..|cs| - 1]);
      TrackStep(ops, Run(ops, p, cs[..|cs| - 1]), Since(cs[..|cs| - 1]), cs[|cs| - 1]);
    }
  }

  /** A step at which the validity flag goes up. */
  ghost predicate Raises<G, F>(ops: Ops<G, F>, p: Parser<G, F>, cs: string, k: nat)
    requires Valid(p)
  {
    k < |cs| && !ops.good(Run(ops, p, cs[..k]).gathered) && ops.good(Run(ops, p, cs[..k + 1]).gathered)
  }

  /** The validity flag went up since the last sentence start. */
  ghost predicate RaisedSince<G, F>(ops: Ops<G, F>, p: Parser<G, F>, cs: string)
    requires Valid(p)
  {
    exists k: nat :: |cs| - |Since(cs)| <= k && Raises(ops, p, cs, k)
  }

  /** A sentence start lowers the validity flag. */
  ghost predicate ResetLowers<G(!new), F>(ops: Ops<G, F>) { forall g: G :: !ops.good(ops.reset(g)) }

  lemma RaisesInPrefix<G, F>(ops: Ops<G, F>, p: Parser<G, F>, init: string, c: char, k: nat)
    requires Valid(p) && Raises(ops, p, init, k)
    ensures Raises(ops, p, init + [c], k)
  {
    assert (init + [c])[..k] == init[..k] && (init + [c])[..k + 1] == init[..k + 1];
  }

  lemma {:induction false} FlagRaisedSince<G(!new), F>(ops: Ops<G, F>, p: Parser<G, F>, cs: string) returns (k: nat)
    requires AtStart(ops, p) && ResetLowers(ops) && ops.good(Run(ops, p, cs).gathered)
    ensures |cs| - |Since(cs)| <= k && Raises(ops, p, cs, k)
  {
    var (init, c) := (cs[..|cs| - 1], cs[|cs| - 1]);
    assert cs == init + [c];
    if ops.good(Run(ops, p, init).gathered) {
      k := FlagRaisedSince(ops, p, init);
      RaisesInPrefix(ops, p, init, c, k);
    } else {
      k := |cs| - 1;
      assert cs[..k] == init && cs[..k + 1] == cs;
    }
  }

  // ------------------------------------------------- what the checksum test reads

  /** The second byte of the buffer after a stream: the last character or NUL to be
      stored there, or the byte `older` it held before. */
  function SecondByte(cs: string, older: char): (b: char) {
    if |cs| == 0 then older
    else
      var (init, c) := (cs[..|cs| - 1], cs[|cs| - 1]);
      if c == '$' || |LastTerm(Since(init))| != 1 then SecondByte(init, older)
      else if IsTerminator(c) then NUL else c
  }

  /** The two bytes the checksum test reads when a terminator follows `cs`: the
      first two characters of the term, but NUL in place of the second character
      of a term of one, and NUL and a byte left over when there is no term. */
  function Compared(cs: string, older: char): (b: (char, char)) {
    var t := LastTerm(Since(cs));
    if |t| >= 2 then (t[0], t[1]) else if |t| == 1 then (t[0], NUL) else (NUL, SecondByte(cs, older))
  }

  lemma {:induction false} RunSecondByte<G, F>(ops: Ops<G, F>, start: Parser<G, F>, cs: string)
    requires AtStart(ops, start)
    ensures Run(ops, start, cs).term[1] == SecondByte(cs, start.term[1])
  {
    if |cs| == 0 {
    } else {
      var (init, c) := (cs[..|cs| - 1], cs[|cs| - 1]);
      RunSecondByte(ops, start, init);
      RunTracks(ops, start, init);
    }
  }

  lemma ComparedBytes<G, F>(ops: Ops<G, F>, start: Parser<G, F>, cs: string, c: char)
    requires AtStart(ops, start)
    ensures var e := AtTerminator(ops, Run(ops, start, cs), c);
      (e.term[0], e.term[1]) == Compared(cs, start.term[1])
  {
    var (p, t) := (Run(ops, start, cs), LastTerm(Since(cs)));
    RunTracks(ops, start, cs);
    RunSecondByte(ops, start, cs);
    assert |t| >= 1 ==> p.term[0] == p.term[..p.termOffset][0];
    assert |t| >= 2 ==> p.term[1] == p.term[..p.termOffset][1];
  }

  /** The checksum test reads what was received, whatever the buffer held before, if
      and only if the checksum term has at least two characters. */
  lemma ComparedIsReceived<G, F>(ops: Ops<G, F>, start: Parser<G, F>, cs: string, c: char)
    requires AtStart(ops, start)
    ensures var (e, t) := (AtTerminator(ops, Run(ops, start, cs), c), LastTerm(Since(cs)));
      [e.term[0], e.term[1]] <= t <==> |t| >= 2
  {
    ComparedBytes(ops, start, cs, c);
  }

  // ------------------------------------------------ what was gathered, from the text

  /** The number of the term under way. */
  function TermIndex(s: string): (n: nat) {
    if |s| == 0 then 0
    else if IsTerminator(s[|s| - 1]) then Bump(TermIndex(s[..|s| - 1])) else TermIndex(s[..|s| - 1])
  }

  /** How many terminators a text has. */
  function Terminators(s: string): (n: nat) {
    if |s| == 0 then 0 else Terminators(s[..|s| - 1]) + if IsTerminator(s[|s| - 1]) then 1 else 0
  }

  /** Term numbers are counted in a byte. */
  lemma {:induction false} TermsInAByte(s: string)
    ensures TermIndex(s) == Terminators(s) % 256
  {
    if |s| == 0 {
    } else {
      TermsInAByte(s[..|s| - 1]);
    }
  }

  /** A term as the buffer holds it: at most fourteen characters, up to a NUL. */
  function Clipped(t: string): (s: string) { Text(if |t| < TERM then t else t[..TERM - 1]) }

  /** What the terms of a text add to what was gathered as it started. */
  function GatherOn<G, F>(ops: Ops<G, F>, g: G, s: string): (h: G) {
    if |s| == 0 then g
    else
      var (init, c) := (s[..|s| - 1], s[|s| - 1]);
      var h := GatherOn(ops, g, init);
      if IsTerminator(c) && !InChecksum(init) then ops.absorb(h, TermIndex(init), Clipped(LastTerm(init))) else h
  }

  /** What the parser goes into the text since the last '$' with: whatever it had
      gathered before, reset. */
  function GatheredBefore<G, F>(ops: Ops<G, F>, start: Parser<G, F>, cs: string): (g: G)
    requires Valid(start)
  {
    if |Since(cs)| == |cs| then start.gathered
    else ops.reset(Run(ops, start, cs[..|cs| - |Since(cs)| - 1]).gathered)
  }

  ghost predicate Gathers<G, F>(ops: Ops<G, F>, p: Parser<G, F>, g: G, s: string) {
    p.gathered == GatherOn(ops, g, s) && p.termNumber == TermIndex(s)
  }

  lemma TextOfBuffer(term: string, t: string)
    requires |t| < |term| && term[..|t| + 1] == t + [NUL]
    ensures Text(term) == Text(t)
  {
    var (x, y) := (Text(term), Text(t));
    assert term[|t|] == term[..|t| + 1][|t|] == NUL;
    assert forall i :: 0 <= i < |t| ==> t[i] == term[..|t| + 1][i] == term[i];
    assert forall i :: 0 <= i < |x| ==> x[i] == term[i];
    assert forall i :: 0 <= i < |y| ==> y[i] == t[i] == term[i];
    FirstNulIsUnique(term, |x|, |y|);
  }

  lemma FirstNulIsUnique(term: string, n: nat, m: nat)
    requires n < |term| && m < |term| && term[n] == term[m] == NUL
    requires forall i :: 0 <= i < n ==> term[i] != NUL
    requires forall i :: 0 <= i < m ==> term[i] != NUL
    ensures n == m
  {
  }

  /** The text a completed term is read as. */
  lemma TermIsClipped<G, F>(ops: Ops<G, F>, p: Parser<G, F>, t: string, c: char)
    requires Valid(p) && Buffered(p, t)
    ensures Text(AtTerminator(ops, p, c).term) == Clipped(t)
  {
    var (e, n) := (AtTerminator(ops, p, c), p.termOffset);
    assert e.term[..n] == p.term[..n] && t[..n] == if |t| < TERM then t else t[..TERM - 1];
    assert e.term[..n + 1] == t[..n] + [NUL];
    TextOfBuffer(e.term, t[..n]);
  }

  lemma GatherAppend<G, F>(ops: Ops<G, F>, g: G, s: string, c: char)
    ensures GatherOn(ops, g, s + [c])
         == if IsTerminator(c) && !InChecksum(s) then ops.absorb(GatherOn(ops, g, s), TermIndex(s), Clipped(LastTerm(s)))
            else GatherOn(ops, g, s)
    ensures TermIndex(s + [c]) == if IsTerminator(c) then Bump(TermIndex(s)) else TermIndex(s)
  {
    assert (s + [c])[..|s|] == s;
  }

  lemma GatherStep<G, F>(ops: Ops<G, F>, p: Parser<G, F>, g: G, s: string, c: char)
    requires Valid(p) && Tracks(ops, p, s) && Gathers(ops, p, g, s) && c != '$'
    ensures Gathers(ops, Encode(ops, p, c), g, s + [c])
  {
    GatherAppend(ops, g, s, c);
    TermIsClipped(ops, p, LastTerm(s), c);
  }

  lemma SameBefore<G, F>(ops: Ops<G, F>, start: Parser<G, F>, init: string, c: char)
    requires Valid(start) && c != '$'
    ensures Since(init + [c]) == Since(init) + [c]
    ensures GatheredBefore(ops, start, init + [c]) == GatheredBefore(ops, start, init)
  {
    assert (init + [c])[..|init|] == init;
    var k := |init| - |Since(init)| - 1;
    assert k >= 0 ==> (init + [c])[..k] == init[..k];
  }

  /** The parser's gathered fields are the fold of the terms since the last '$'. */
  lemma {:induction false} RunGathers<G, F>(ops: Ops<G, F>, start: Parser<G, F>, cs: string)
    requires AtStart(ops, start)
    ensures Gathers(ops, Run(ops, start, cs), GatheredBefore(ops, start, cs), Since(cs))
  {
    if |cs| == 0 {
    } else {
      var (init, c) := (cs[..|cs| - 1], cs[|cs| - 1]);
      if c != '$' {
        RunGathers(ops, start, init);
        RunTracks(ops, start, init);
        assert cs == init + [c];
        SameBefore(ops, start, init, c);
        GatherStep(ops, Run(ops, start, init), GatheredBefore(ops, start, init), Since(init), c);
      }
    }
  }

  /** When a character reports a sentence, said of the stream. */
  lemma ReportsExactly<G, F>(ops: Ops<G, F>, start: Parser<G, F>, cs: string, c: char)
    requires AtStart(ops, start)
    ensures var b := Compared(cs, start.term[1]);
      Returns(ops, Run(ops, start, cs), c) <==>
        && IsTerminator(c) && InChecksum(Since(cs))
        && ops.spelled(b.0, b.1) == CoveredXor(ops, Since(cs) + [c])
        && ops.good(GatherOn(ops, GatheredBefore(ops, start, cs), Since(cs)))
  {
    RunTracks(ops, start, cs);
    FramingAppend(ops, Since(cs), c);
    ComparedBytes(ops, start, cs, c);
    RunGathers(ops, start, cs);
  }

  // ------------------------------------------------------ publication safety

  /** Published fields change only on a step that reports a sentence; such a step
      ends a checksum term, the validity flag went up since the last '$', and what
      is published is what the terms since then made of the fields pending before it.  A checksum term of two characters or more
      spells the exclusive or of what the framing covers since that '$'; for a
      shorter one the bytes of `Compared` do. */
  ghost predicate SafeStep<G, F>(ops: Ops<G, F>, start: Parser<G, F>, cs: string, c: char)
    requires Valid(start)
  {
    var (p, t) := (Run(ops, start, cs), LastTerm(Since(cs)));
    var (b, covered) := (Compared(cs, start.term[1]), CoveredXor(ops, Since(cs) + [c]));
    && (Encode(ops, p, c).published != p.published ==> Returns(ops, p, c))
    && (Returns(ops, p, c) ==>
          && IsTerminator(c) && InChecksum(Since(cs))
          && (if |t| >= 2 then ops.spelled(t[0], t[1]) == covered else ops.spelled(b.0, b.1) == covered)
          && RaisedSince(ops, start, cs)
          && Encode(ops, p, c).published
             == ops.publish(GatherOn(ops, GatheredBefore(ops, start, cs), Since(cs)), p.published))
  }

  /** Publication safety, over every character stream. */
  lemma PublicationSafety<G(!new), F>(ops: Ops<G, F>, start: Parser<G, F>, cs: string, c: char)
    requires AtStart(ops, start) && ResetLowers(ops)
    ensures SafeStep(ops, start, cs, c)
  {
    ReportsExactly(ops, start, cs, c);
    RunGathers(ops, start, cs);
    if Returns(ops, Run(ops, start, cs), c) {
      var k := FlagRaisedSince(ops, start, cs);
    }
  }

  /** The buffer at a terminator: the term's first fourteen characters, then NUL. */
  lemma BufferedTerm<G, F>(ops: Ops<G, F>, start: Parser<G, F>, cs: string, c: char)
    requires AtStart(ops, start)
    ensures var (e, t) := (AtTerminator(ops, Run(ops, start, cs), c), LastTerm(Since(cs)));
      var n := if |t| < TERM then |t| else TERM - 1;
      e.termOffset == n <= 14 && |e.term| == 15 && e.term[..n + 1] == t[..n] + [NUL]
  {
    RunTracks(ops, start, cs);
    var p := Run(ops, start, cs);
    var e := AtTerminator(ops, p, c);
    assert e.term[..p.termOffset] == p.term[..p.termOffset];
  }

  // ------------------------------------------------------------ whole sentences

  predicate PlainChar(c: char) { !IsTerminator(c) && c != '$' && c != NUL }

  predicate PlainText(t: string) { |t| <= 14 && forall i :: 0 <= i < |t| ==> PlainChar(t[i]) }

  /** The terms of a sentence: at most fourteen plain characters each. */
  predicate PlainTerms(terms: seq<string>) { forall k :: 0 <= k < |terms| ==> PlainText(terms[k]) }

  function XorAll<G, F>(ops: Ops<G, F>, x: nat, s: string): (y: nat) {
    if |s| == 0 then x else ops.xor(XorAll(ops, x, s[..|s| - 1]), s[|s| - 1])
  }

  /** The first `k` terms, each with the comma that ends it. */
  function Commas(terms: seq<string>, k: nat): (s: string)
    requires k <= |terms|
  {
    if k == 0 then [] else Commas(terms, k - 1) + (terms[k - 1] + [','])
  }

  /** What stands between '$' and '*'. */
  function Body(terms: seq<string>): (s: string)
    requires |terms| > 0
  {
    Commas(terms, |terms| - 1) + terms[|terms| - 1]
  }

  /** A sentence as far as the comma after its `k`-th term. */
  function Opened(terms: seq<string>, k: nat): (s: string)
    requires k <= |terms|
  {
    if k == 0 then ['$'] else Opened(terms, k - 1) + (terms[k - 1] + [','])
  }

  lemma Regroup(a: string, b: string, c: string)
    ensures a + b + c == a + (b + c)
  {
  }

  lemma {:induction false} OpenedIs(terms: seq<string>, k: nat)
    requires k <= |terms|
    ensures Opened(terms, k) == ['$'] + Commas(terms, k)
  {
    if k == 0 {
    } else {
      OpenedIs(terms, k - 1);
      Regroup(['$'], Commas(terms, k - 1), terms[k - 1] + [',']);
    }
  }

  /** A sentence as far as its asterisk. */
  function Starred(terms: seq<string>): (s: string)
    requires |terms| > 0
  {
    Opened(terms, |terms| - 1) + (terms[|terms| - 1] + ['*'])
  }

  lemma StarredIs(terms: seq<string>)
    requires |terms| > 0
    ensures Starred(terms) == ['$'] + Body(terms) + ['*']
  {
    OpenedIs(terms, |terms| - 1);
  }

  /** A sentence up to its line end: '$', the body, '*' and two digits. */
  function Sentence(terms: seq<string>, h1: char, h2: char): (s: string)
    requires |terms| > 0
    ensures s == ['$'] + Body(terms) + ['*'] + [h1, h2]
  {
    StarredIs(terms);
    Starred(terms) + [h1, h2]
  }

  /** What is gathered from the first `k` terms. */
  function AbsorbAll<G, F>(ops: Ops<G, F>, g: G, terms: seq<string>, k: nat): (h: G)
    requires k <= |terms|
  {
    if k == 0 then g else ops.absorb(AbsorbAll(ops, g, terms, k - 1), k - 1, terms[k - 1])
  }

  lemma {:induction false} XorAllAppend<G, F>(ops: Ops<G, F>, x: nat, s: string, t: string)
    ensures XorAll(ops, x, s + t) == XorAll(ops, XorAll(ops, x, s), t)
  {
    if |t| == 0 {
      assert s + t == s;
    } else {
      XorAllAppend(ops, x, s, t[..|t| - 1]);
      assert (s + t)[..|s + t| - 1] == s + t[..|t| - 1];
    }
  }

  lemma {:induction false} RunAppend<G, F>(ops: Ops<G, F>, p: Parser<G, F>, s: string, t: string)
    requires Valid(p)
    ensures Run(ops, p, s + t) == Run(ops, Run(ops, p, s), t)
  {
    if |t| == 0 {
      assert s + t == s;
    } else {
      RunAppend(ops, p, s, t[..|t| - 1]);
      assert (s + t)[..|s + t| - 1] == s + t[..|t| - 1];
    }
  }

  /** Plain characters only fill the buffer and the parity. */
  lemma {:induction false} FeedText<G, F>(ops: Ops<G, F>, p: Parser<G, F>, t: string)
    requires Valid(p) && p.termOffset == 0 && PlainText(t)
    ensures var q := Run(ops, p, t);
      && q.termOffset == |t| && q.term[..|t|] == t
      && q.parity == (if p.isChecksum then p.parity else XorAll(ops, p.parity, t))
      && q.gathered == p.gathered && q.published == p.published
      && q.isChecksum == p.isChecksum && q.termNumber == p.termNumber
  {
    if |t| == 0 {
    } else {
      var (init, c) := (t[..|t| - 1], t[|t| - 1]);
      FeedText(ops, p, init);
      assert PlainChar(c);
      assert Run(ops, p, t).term[..|t|] == Run(ops, p, init).term[..|init|] + [c];
    }
  }

  lemma TextIs(term: string, t: string)
    requires |t| < |term| && term[..|t| + 1] == t + [NUL] && NUL !in t
    ensures Text(term) == t
  {
    var s := Text(term);
    assert term[|t|] == term[..|t| + 1][|t|] == NUL;
    assert forall i :: 0 <= i < |t| ==> t[i] == term[..|t| + 1][i] == term[i];
    assert forall i :: 0 <= i < |s| ==> s[i] == term[i];
  }

  /** The state a terminator finds after a plain term. */
  lemma FeedThenEnd<G, F>(ops: Ops<G, F>, p: Parser<G, F>, t: string, c: char)
    requires Valid(p) && p.termOffset == 0 && PlainText(t)
    ensures Text(AtTerminator(ops, Run(ops, p, t), c).term) == t
  {
    FeedText(ops, p, t);
    var m := Run(ops, p, t);
    var e := AtTerminator(ops, m, c);
    assert e.term[..|t| + 1] == m.term[..|t|] + [NUL];
    TextIs(e.term, t);
  }

  lemma XorAllSnoc<G, F>(ops: Ops<G, F>, x: nat, t: string, c: char)
    ensures XorAll(ops, x, t + [c]) == ops.xor(XorAll(ops, x, t), c)
  {
    assert (t + [c])[..|t|] == t;
  }

  lemma TerminatorSteps<G, F>(ops: Ops<G, F>, m: Parser<G, F>, c: char)
    requires Valid(m) && !m.isChecksum && IsTerminator(c)
    ensures var (e, q) := (AtTerminator(ops, m, c), Encode(ops, m, c));
      && q.gathered == ops.absorb(m.gathered, m.termNumber, Text(e.term)) && q.published == m.published
      && q.parity == e.parity && q.termNumber == Bump(m.termNumber) && q.termOffset == 0
      && q.isChecksum == (c == '*')
  {
  }

  /** A plain term and the comma or asterisk that ends it. */
  lemma FinishTerm<G, F>(ops: Ops<G, F>, p: Parser<G, F>, t: string, c: char)
    requires Valid(p) && p.termOffset == 0 && !p.isChecksum && PlainText(t) && (c == ',' || c == '*')
    ensures var q := Run(ops, p, t + [c]);
      && q.gathered == ops.absorb(p.gathered, p.termNumber, t) && q.published == p.published
      && q.parity == XorAll(ops, p.parity, if c == ',' then t + [c] else t)
      && q.termNumber == Bump(p.termNumber) && q.termOffset == 0 && q.isChecksum == (c == '*')
  {
    RunSnoc(ops, p, t, c);
    var m := Run(ops, p, t);
    FeedText(ops, p, t);
    FeedThenEnd(ops, p, t, c);
    XorAllSnoc(ops, p.parity, t, c);
    TerminatorSteps(ops, m, c);
  }

  /** A sentence under way: `k` terms in, from the parser state `p` before it. */
  ghost predicate Underway<G, F>(ops: Ops<G, F>, p: Parser<G, F>, terms: seq<string>, k: nat, q: Parser<G, F>)
    requires k <= |terms|
  {
    && Valid(q) && q.termOffset == 0 && q.published == p.published && q.termNumber == k
    && q.gathered == AbsorbAll(ops, ops.reset(p.gathered), terms, k)
  }

  /** Whatever went before, '$' starts afresh. */
  lemma DollarResets<G, F>(ops: Ops<G, F>, p: Parser<G, F>, terms: seq<string>)
    requires Valid(p)
    ensures var q := Run(ops, p, ['$']); Underway(ops, p, terms, 0, q) && !q.isChecksum && q.parity == 0
  {
    assert ['$'][..0] == [];
    assert Run(ops, p, []) == p;
  }

  lemma TermMore<G, F>(ops: Ops<G, F>, p: Parser<G, F>, terms: seq<string>, k: nat, q: Parser<G, F>, c: char)
    requires PlainTerms(terms) && k < |terms| && k < 255 && Underway(ops, p, terms, k, q) && !q.isChecksum
    requires c == ',' || c == '*'
    ensures var q' := Run(ops, q, terms[k] + [c]);
      && Underway(ops, p, terms, k + 1, q') && q'.isChecksum == (c == '*')
      && q'.parity == XorAll(ops, q.parity, if c == ',' then terms[k] + [c] else terms[k])
  {
    FinishTerm(ops, q, terms[k], c);
  }

  lemma {:induction false} AfterCommas<G, F>(ops: Ops<G, F>, p: Parser<G, F>, terms: seq<string>, k: nat)
    requires Valid(p) && PlainTerms(terms) && k <= |terms| && k < 256
    ensures var q := Run(ops, p, Opened(terms, k));
      Underway(ops, p, terms, k, q) && !q.isChecksum && q.parity == XorAll(ops, 0, Commas(terms, k))
  {
    if k == 0 {
      DollarResets(ops, p, terms);
    } else {
      AfterCommas(ops, p, terms, k - 1);
      RunAppend(ops, p, Opened(terms, k - 1), terms[k - 1] + [',']);
      TermMore(ops, p, terms, k - 1, Run(ops, p, Opened(terms, k - 1)), ',');
      XorAllAppend(ops, 0, Commas(terms, k - 1), terms[k - 1] + [',']);
    }
  }

  lemma AfterLastTerm<G, F>(ops: Ops<G, F>, p: Parser<G, F>, terms: seq<string>, n: nat)
    requires Valid(p) && PlainTerms(terms) && n < |terms| && n < 255
    ensures var q := Run(ops, p, Opened(terms, n) + (terms[n] + ['*']));
      && Underway(ops, p, terms, n + 1, q) && q.isChecksum
      && q.parity == XorAll(ops, XorAll(ops, 0, Commas(terms, n)), terms[n])
  {
    AfterCommas(ops, p, terms, n);
    RunAppend(ops, p, Opened(terms, n), terms[n] + ['*']);
    TermMore(ops, p, terms, n, Run(ops, p, Opened(terms, n)), '*');
  }

  lemma AfterStar<G, F>(ops: Ops<G, F>, p: Parser<G, F>, terms: seq<string>)
    requires Valid(p) && PlainTerms(terms) && 0 < |terms| < 256
    ensures var q := Run(ops, p, Starred(terms));
      Underway(ops, p, terms, |terms|, q) && q.isChecksum && q.parity == XorAll(ops, 0, Body(terms))
  {
    AtStar(ops, p, terms, |terms| - 1, Starred(terms), Body(terms));
  }

  /** The same with the index of the last term and both texts named. */
  lemma AtStar<G, F>(ops: Ops<G, F>, p: Parser<G, F>, terms: seq<string>, n: nat, starred: string, body: string)
    requires Valid(p) && PlainTerms(terms) && n + 1 == |terms| < 256
    requires starred == Opened(terms, n) + (terms[n] + ['*']) && body == Commas(terms, n) + terms[n]
    ensures var q := Run(ops, p, starred);
      Underway(ops, p, terms, n + 1, q) && q.isChecksum && q.parity == XorAll(ops, 0, body)
  {
    AfterLastTerm(ops, p, terms, n);
    XorAllAppend(ops, 0, Commas(terms, n), terms[n]);
  }

  /** What the whole sentence gathers. */
  function Outcome<G, F>(ops: Ops<G, F>, p: Parser<G, F>, terms: seq<string>): (g: G) {
    AbsorbAll(ops, ops.reset(p.gathered), terms, |terms|)
  }

  /** From any parser state: the line end after a sentence reports it if and only
      if it was found valid and its two digits spell the exclusive or of its body;
      then, and only then, it is published. */
  lemma SentenceResult<G, F>(ops: Ops<G, F>, p: Parser<G, F>, terms: seq<string>, h1: char, h2: char, end: char)
    requires Valid(p) && PlainTerms(terms) && 0 < |terms| < 256
    requires PlainChar(h1) && PlainChar(h2) && (end == '\r' || end == '\n')
    ensures var (q, g) := (Run(ops, p, Sentence(terms, h1, h2)), Outcome(ops, p, terms));
      && (Returns(ops, q, end) <==> ops.good(g) && ops.spelled(h1, h2) == XorAll(ops, 0, Body(terms)))
      && Encode(ops, q, end).published
         == if Returns(ops, q, end) then ops.publish(g, p.published) else p.published
  {
    AfterStar(ops, p, terms);
    RunAppend(ops, p, Starred(terms), [h1, h2]);
    FeedText(ops, Run(ops, p, Starred(terms)), [h1, h2]);
    var q := Run(ops, p, Sentence(terms, h1, h2));
    assert q.term[0] == q.term[..2][0] && q.term[1] == q.term[..2][1];
  }

  /** A sentence that is not reported still leaves behind what it gathered. */
  lemma SentenceLeaves<G, F>(ops: Ops<G, F>, p: Parser<G, F>, terms: seq<string>, h1: char, h2: char, end: char)
    requires Valid(p) && PlainTerms(terms) && 0 < |terms| < 256
    requires PlainChar(h1) && PlainChar(h2) && (end == '\r' || end == '\n')
    ensures Encode(ops, Run(ops, p, Sentence(terms, h1, h2)), end).gathered == Outcome(ops, p, terms)
  {
    AfterStar(ops, p, terms);
    RunAppend(ops, p, Starred(terms), [h1, h2]);
    FeedText(ops, Run(ops, p, Starred(terms)), [h1, h2]);
  }

  lemma LastTermLingers<G, F>(ops: Ops<G, F>, q: Parser<G, F>, t: string)
    requires Valid(q) && q.termOffset == 0 && PlainText(t) && |t| >= 2
    ensures Run(ops, q, t + ['*']).term[1] == t[1]
  {
    RunSnoc(ops, q, t, '*');
    FeedText(ops, q, t);
    assert Run(ops, q, t).term[1] == Run(ops, q, t).term[..|t|][1];
  }

  lemma LingersAfterStar<G, F>(ops: Ops<G, F>, p: Parser<G, F>, terms: seq<string>, n: nat)
    requires Valid(p) && PlainTerms(terms) && n + 1 == |terms| < 256 && |terms[n]| >= 2
    ensures Run(ops, p, Starred(terms)).term[1] == terms[n][1]
  {
    AfterCommas(ops, p, terms, n);
    RunAppend(ops, p, Opened(terms, n), terms[n] + ['*']);
    LastTermLingers(ops, Run(ops, p, Opened(terms, n)), terms[n]);
  }

  /** A checksum term that ends before it begins. */
  lemma EmptyChecksum<G, F>(ops: Ops<G, F>, q: Parser<G, F>, end: char, g: G, left: char, x: nat)
    requires Valid(q) && q.termOffset == 0 && q.isChecksum && (end == '\r' || end == '\n')
    requires q.gathered == g && q.term[1] == left && q.parity == x
    ensures Returns(ops, q, end) <==> ops.good(g) && ops.spelled(NUL, left) == x
  {
  }

  /** From any parser state: a sentence with no digits after its asterisk is tested
      against the second character of its last term, and can be reported. */
  lemma NoDigits<G, F>(ops: Ops<G, F>, p: Parser<G, F>, terms: seq<string>, end: char)
    requires Valid(p) && PlainTerms(terms) && 0 < |terms| < 256 && |terms[|terms| - 1]| >= 2
    requires end == '\r' || end == '\n'
    ensures Returns(ops, Run(ops, p, Starred(terms)), end) <==>
      && ops.good(Outcome(ops, p, terms))
      && ops.spelled(NUL, terms[|terms| - 1][1]) == XorAll(ops, 0, Body(terms))
  {
    AfterStar(ops, p, terms);
    LingersAfterStar(ops, p, terms, |terms| - 1);
    EmptyChecksum(ops, Run(ops, p, Starred(terms)), end, Outcome(ops, p, terms), terms[|terms| - 1][1],
                  XorAll(ops, 0, Body(terms)));
  }

  // --------------------------------------------------------- no early report

  lemma {:induction false} NoStarNoChecksum<G, F>(ops: Ops<G, F>, p: Parser<G, F>, s: string)
    requires Valid(p) && forall i :: 0 <= i < |s| ==> s[i] != '*'
    ensures !Run(ops, p, ['$'] + s).isChecksum
  {
    if |s| == 0 {
      assert ['$'] + s == ['$'];
      DollarResets(ops, p, []);
    } else {
      var (init, c) := (s[..|s| - 1], s[|s| - 1]);
      NoStarNoChecksum(ops, p, init);
      RunSnoc(ops, p, ['$'] + init, c);
      assert ['$'] + s == ['$'] + init + [c];
    }
  }

  lemma {:induction false} CommasHaveNoStar(terms: seq<string>, k: nat)
    requires PlainTerms(terms) && k <= |terms|
    ensures forall i :: 0 <= i < |Commas(terms, k)| ==> Commas(terms, k)[i] != '*'
  {
    if k == 0 {
    } else {
      CommasHaveNoStar(terms, k - 1);
    }
  }

  lemma BodyHasNoStar(terms: seq<string>)
    requires PlainTerms(terms) && |terms| > 0
    ensures forall i :: 0 <= i < |Body(terms)| ==> Body(terms)[i] != '*'
  {
    CommasHaveNoStar(terms, |terms| - 1);
  }

  /** Nothing is reported before the line end. */
  lemma NoEarlyReport<G, F>(ops: Ops<G, F>, p: Parser<G, F>, terms: seq<string>, h1: char, h2: char, k: nat)
    requires Valid(p) && PlainTerms(terms) && 0 < |terms| < 256 && PlainChar(h1) && PlainChar(h2)
    requires k < |Sentence(terms, h1, h2)|
    ensures !Returns(ops, Run(ops, p, Sentence(terms, h1, h2)[..k]), Sentence(terms, h1, h2)[k])
  {
    var (s, b) := (Sentence(terms, h1, h2), Body(terms));
    if 0 < k <= |b| + 1 {
      BodyHasNoStar(terms);
      assert s[..k] == ['$'] + b[..k - 1];
      NoStarNoChecksum(ops, p, b[..k - 1]);
    }
  }
}
