/** The escape-framed serial protocol: sender and parser (dev/iuart.c). */
module SerialFrames {
  import opened Octets

  const ESC: u8 := 0x24
  const NOT_ESC: u8 := 0xdb
  const START: u8 := 0xf0      // START_INSN_CHAR_VAL
  const NO_START: u8 := 0x0f   // ~START_MASK_EN
  const END: u8 := 0x45
  const MAX_SIZE: nat := 128

  /** `(b & START_MASK_EN) == START_MASK_EN` with the mask 0xf0. */
  predicate IsStart(b: u8) { b >= 0xf0 }

  // ---------------------------------------------------------------------------------------------
  // The sender
  // ---------------------------------------------------------------------------------------------

  function Escaped(b: u8): Bytes {
    if b == ESC then [ESC, ESC] else [b]
  }

  function EscapedAll(p: Bytes): Bytes {
    if p == [] then [] else EscapedAll(p[..|p|-1]) + Escaped(p[|p|-1])
  }

  /** The length as it goes out: one byte, never escaped. */
  function LengthByte(p: Bytes): u8 {
    (|p| % 256) as u8
  }

  /** Everything before the checksum: start, length, payload, end. */
  function Covered(p: Bytes): Bytes {
    [ESC, START, LengthByte(p)] + EscapedAll(p) + [ESC, END]
  }

  function Checksum(p: Bytes): u8 {
    (Sum(Covered(p)) % 256) as u8
  }

  function Frame(p: Bytes): Bytes {
    Covered(p) + [Checksum(p)]
  }

  // ---------------------------------------------------------------------------------------------
  // The parser
  // ---------------------------------------------------------------------------------------------

  /** `buf` is the part of the receive buffer filled so far, so `bidx` is its length. */
  datatype Parser = Parser(ridx: nat, buf: Bytes, end: bool, cmdsize: u8, csum: nat, pchar: u8, schar: u8, nesc: nat)

  const RESET: Parser := Parser(0, [], false, 0, 0, NOT_ESC, NO_START, 0)

  /** A complete packet: the start character of its frame and the payload. */
  datatype Msg = Msg(start: u8, payload: Bytes)

  function EscCount(s: Parser, b: u8): nat {
    if b == ESC then (s.nesc + 1) % 256 else 0
  }

  /** A byte that is neither framing nor an escape. */
  function Data(s: Parser, b: u8, nesc: nat): Parser {
    var size := if s.ridx == 2 then b else s.cmdsize;
    var sizeIsEsc := s.ridx == 3 && nesc == 2;
    var buf := if s.ridx > 2 + (if sizeIsEsc then 1 else 0) then s.buf + [b] else s.buf;
    if |buf| >= MAX_SIZE then Parser(0, [], false, size, s.csum, NOT_ESC, NO_START, nesc)
    else Parser(s.ridx + 1, buf, s.end, size, s.csum + b as int, if b == ESC then NOT_ESC else s.pchar, s.schar, nesc)
  }

  /** One received byte. */
  function Next(s: Parser, b: u8): Parser {
    var nesc := EscCount(s, b);
    if s.pchar == ESC && IsStart(b) then Parser(2, [], false, s.cmdsize, ESC as int + b as int, b, b, nesc)
    else if s.pchar == ESC && b == END then
      s.(ridx := s.ridx + 1, end := true, csum := s.csum + b as int, pchar := b, nesc := nesc)
    else if s.end then s.(end := false, ridx := 0, pchar := NOT_ESC, schar := NO_START, csum := 0, nesc := nesc)
    else if nesc % 2 == 1 then s.(pchar := b, csum := s.csum + b as int, ridx := s.ridx + 1, nesc := nesc)
    else Data(s, b, nesc)
  }

  /** The packets completed by that byte: at most one, when it is the right checksum. */
  function Output(s: Parser, b: u8): seq<Msg> {
    if !(s.pchar == ESC && (IsStart(b) || b == END)) && s.end && b as int == s.csum % 256
    then [Msg(s.schar, s.buf)] else []
  }

  /** The parser with the packets it has completed. */
  datatype Line = Line(parser: Parser, out: seq<Msg>)

  function Feed(l: Line, b: u8): Line {
    Line(Next(l.parser, b), l.out + Output(l.parser, b))
  }

  /** Feeding bytes one after the other. */
  function Fold<S>(f: (S, u8) -> S, s: S, bs: Bytes): S {
    if bs == [] then s else f(Fold(f, s, bs[..|bs|-1]), bs[|bs|-1])
  }

  lemma {:induction false} FoldConcat<S>(f: (S, u8) -> S, s: S, a: Bytes, b: Bytes)
    ensures Fold(f, s, a + b) == Fold(f, Fold(f, s, a), b)
  {
    if b == [] {
      assert a + b == a;
    } else {
      FoldConcat(f, s, a, b[..|b|-1]);
      assert (a + b)[..|a+b|-1] == a + b[..|b|-1];
    }
  }

  lemma FoldOne<S>(f: (S, u8) -> S, s: S, b: u8)
    ensures Fold(f, s, [b]) == f(s, b)
  {
    assert [b][..0] == [];
  }

  lemma FoldTwo<S>(f: (S, u8) -> S, s: S, a: u8, b: u8)
    ensures Fold(f, s, [a, b]) == f(f(s, a), b)
  {
    FoldOne(f, s, a);
    FoldOne(f, f(s, a), b);
    FoldConcat(f, s, [a], [b]);
    assert [a, b] == [a] + [b];
  }

  lemma FoldThree<S>(f: (S, u8) -> S, s: S, a: u8, b: u8, c: u8)
    ensures Fold(f, s, [a, b, c]) == f(f(f(s, a), b), c)
  {
    FoldTwo(f, s, a, b);
    FoldOne(f, f(f(s, a), b), c);
    FoldConcat(f, s, [a, b], [c]);
    assert [a, b, c] == [a, b] + [c];
  }

  function Run(l: Line, bs: Bytes): Line {
    Fold(Feed, l, bs)
  }

  // ---------------------------------------------------------------------------------------------
  // One frame
  // ---------------------------------------------------------------------------------------------

  /** At a byte boundary outside any checksum. */
  predicate Boundary(s: Parser) {
    !s.end && s.nesc % 2 == 0 && s.nesc < 256 && |s.buf| < MAX_SIZE
  }

  /** Between frames; an escape count of one is what an ESC checksum leaves behind. */
  predicate Idle(s: Parser) {
    !s.end && s.pchar != ESC && s.nesc < 2 && s.schar == NO_START && |s.buf| < MAX_SIZE
  }

  /** `q` went by as payload: it is in the buffer and the checksum, if there was room. */
  ghost predicate Took(s: Parser, t: Parser, q: Bytes) {
    && Boundary(t)
    && (t.schar == s.schar || t.schar == NO_START)
    && (t.pchar == ESC ==> s.pchar == ESC && ESC !in q)
    && (s.ridx >= 3 && |s.buf| + |q| < MAX_SIZE ==>
          && t.ridx >= 3 && t.buf == s.buf + q && t.schar == s.schar
          && t.cmdsize == s.cmdsize && t.csum == s.csum + Sum(EscapedAll(q))
          && (s.pchar == ESC && ESC !in q ==> t.pchar == ESC))
  }

  /** No byte that an escape pending at the start would turn into framing. */
  predicate Quiet(b: u8) { !IsStart(b) && b != END }

  /** An escape that is to be stripped. */
  lemma Strip(l: Line)
    requires !l.parser.end && l.parser.nesc % 2 == 0 && l.parser.nesc < 256
    ensures var s := l.parser;
            Feed(l, ESC)
            == l.(parser := s.(pchar := ESC, csum := s.csum + ESC as int, ridx := s.ridx + 1, nesc := s.nesc + 1))
  {
    assert l.out + [] == l.out;
  }

  /** A byte taken as data. */
  lemma TakeData(l: Line, b: u8)
    requires !l.parser.end && EscCount(l.parser, b) % 2 == 0
    requires l.parser.pchar == ESC ==> Quiet(b)
    ensures Feed(l, b) == l.(parser := Data(l.parser, b, EscCount(l.parser, b)))
  {
    assert l.out + [] == l.out;
  }

  lemma EscapedOne(b: u8)
    ensures EscapedAll([b]) == Escaped(b)
    ensures Sum(Escaped(b)) == if b == ESC then 2 * ESC as int else b as int
  {
    assert [b][..0] == [];
    assert EscapedAll([]) + Escaped(b) == Escaped(b);
    SumConcat([b], [b]);
    assert [b] + [b] == [b, b];
    assert Sum([b]) == Sum([]) + b as int;
  }

  lemma PayloadPlain(l: Line, b: u8)
    requires !l.parser.end && |l.parser.buf| < MAX_SIZE && b != ESC
    requires l.parser.pchar == ESC ==> Quiet(b)
    ensures Run(l, Escaped(b)).out == l.out && Took(l.parser, Run(l, Escaped(b)).parser, [b])
  {
    EscapedOne(b);
    FoldOne(Feed, l, b);
    TakeData(l, b);
  }

  lemma PayloadEsc(l: Line)
    requires Boundary(l.parser)
    ensures Run(l, Escaped(ESC)).out == l.out && Took(l.parser, Run(l, Escaped(ESC)).parser, [ESC])
  {
    EscapedOne(ESC);
    FoldTwo(Feed, l, ESC, ESC);
    Strip(l);
    TakeData(Feed(l, ESC), ESC);
  }

  lemma TookBoth(s: Parser, t: Parser, u: Parser, q: Bytes, b: u8)
    requires Took(s, t, q) && Took(t, u, [b])
    ensures Took(s, u, q + [b])
  {
    EscapedSum(q, b);
    Associate(s.buf, q, [b]);
    assert ESC in q + [b] <==> ESC in q || ESC in [b];
  }

  lemma EscapedSum(q: Bytes, b: u8)
    ensures Sum(EscapedAll(q + [b])) == Sum(EscapedAll(q)) + Sum(EscapedAll([b]))
  {
    EscapedOne(b);
    SumConcat(EscapedAll(q), Escaped(b));
    assert (q + [b])[..|q|] == q;
  }

  /** No byte of `q` before its first ESC would be framing after an escape. */
  ghost predicate Hushed(q: Bytes) {
    forall i :: 0 <= i < |q| && ESC !in q[..i] ==> Quiet(q[i])
  }

  /** The parser is ready for the payload `q`. */
  ghost predicate Ready(s: Parser, q: Bytes) {
    && !s.end && |s.buf| < MAX_SIZE && s.nesc < 256
    && (s.nesc % 2 == 0 || (q != [] && q[0] != ESC))
    && (s.pchar == ESC ==> Hushed(q))
  }

  lemma {:induction false} Payload(l: Line, q: Bytes)
    requires Ready(l.parser, q)
    ensures Run(l, EscapedAll(q)).out == l.out && Took(l.parser, Run(l, EscapedAll(q)).parser, q)
  {
    if q == [] {
      assert l.parser.buf + q == l.parser.buf;
    } else {
      var r, b := q[..|q|-1], q[|q|-1];
      assert q == r + [b];
      var m := l;
      if r != [] {
        PrefixReady(l.parser, r, b);
        Payload(l, r);
        m := Run(l, EscapedAll(r));
      }
      FoldConcat(Feed, l, EscapedAll(r), Escaped(b));
      LastByte(l.parser, m, r, b);
      if r == [] {
        assert q == [b];
      } else {
        TookBoth(l.parser, m.parser, Run(m, Escaped(b)).parser, r, b);
      }
    }
  }

  lemma PrefixReady(s: Parser, r: Bytes, b: u8)
    requires Ready(s, r + [b]) && r != []
    ensures Ready(s, r)
  {
    assert (r + [b])[0] == r[0];
    if s.pchar == ESC {
      forall i | 0 <= i < |r| && ESC !in r[..i]
        ensures Quiet(r[i])
      {
        assert (r + [b])[..i] == r[..i] && (r + [b])[i] == r[i];
      }
    }
  }

  lemma LastByte(s: Parser, m: Line, r: Bytes, b: u8)
    requires Ready(s, r + [b])
    requires if r == [] then m.parser == s else Took(s, m.parser, r)
    ensures Run(m, Escaped(b)).out == m.out && Took(m.parser, Run(m, Escaped(b)).parser, [b])
  {
    assert (r + [b])[..|r|] == r && (r + [b])[|r|] == b;
    if b == ESC {
      PayloadEsc(m);
    } else {
      PayloadPlain(m, b);
    }
  }

  /** End and checksum: the packet is reported exactly if the checksum is right. */
  lemma Tail(l: Line, c: u8)
    requires Boundary(l.parser)
    ensures var s, t := l.parser, Run(l, [ESC, END, c]);
            && Idle(t.parser) && t.parser.nesc == (if c == ESC then 1 else 0) && t.parser.cmdsize == s.cmdsize
            && t.out == l.out +
                        if c as int == (s.csum + ESC as int + END as int) % 256 then [Msg(s.schar, s.buf)] else []
  {
    FoldThree(Feed, l, ESC, END, c);
    Strip(l);
    var e := Feed(Feed(l, ESC), END);
    assert e.out == l.out;
    assert e.parser.end && e.parser.pchar == END && e.parser.nesc == 0;
  }

  /** The state after the three bytes that open a frame. */
  predicate Opened(s: Parser, n: u8) {
    && !s.end && |s.buf| < MAX_SIZE
    && (if n == ESC then s.nesc == 1 && s.pchar == ESC else s.nesc == 0 && s.pchar != ESC)
  }

  lemma HeadFrom(l: Line, c: u8, n: u8)
    requires Idle(l.parser) && l.parser.nesc == 0 && 0xf0 <= c
    ensures var t := Run(l, [ESC, c, n]);
            && t.out == l.out && Opened(t.parser, n)
            && t.parser.ridx == 3 && t.parser.buf == [] && t.parser.schar == c
            && t.parser.csum == ESC as int + c as int + n as int
            && t.parser.cmdsize == if n == ESC then l.parser.cmdsize else n
  {
    FoldThree(Feed, l, ESC, c, n);
    Strip(l);
    var m := Feed(Feed(l, ESC), c);
    assert m.out == l.out;
    assert m.parser.ridx == 2 && m.parser.buf == [] && !m.parser.end && m.parser.pchar == c && m.parser.nesc == 0;
    if n == ESC { Strip(m); } else { TakeData(m, n); }
  }

  lemma Head(l: Line, n: u8)
    requires Idle(l.parser) && l.parser.nesc == 0
    ensures var t := Run(l, [ESC, START, n]);
            && t.out == l.out && Opened(t.parser, n)
            && t.parser.ridx == 3 && t.parser.buf == [] && t.parser.schar == START
            && t.parser.csum == ESC as int + START as int + n as int
            && t.parser.cmdsize == if n == ESC then l.parser.cmdsize else n
  {
    HeadFrom(l, START, n);
  }

  /** After an ESC checksum the opening ESC counts as the second of a pair and the start goes by as data. */
  lemma HeadAfterEsc(l: Line, n: u8)
    requires Idle(l.parser) && l.parser.nesc == 1
    ensures var t := Run(l, [ESC, START, n]);
            t.out == l.out && Opened(t.parser, n) && t.parser.schar == NO_START
  {
    FoldThree(Feed, l, ESC, START, n);
    TakeData(l, ESC);
    var m := Feed(l, ESC);
    TakeData(m, START);
    var k := Feed(m, START);
    assert Boundary(k.parser) && k.parser.pchar != ESC;
    if n == ESC { Strip(k); } else { TakeData(k, n); }
  }

  lemma FrameSplits(l: Line, p: Bytes)
    ensures Run(l, Frame(p)) == Run(Run(Run(l, [ESC, START, LengthByte(p)]), EscapedAll(p)), [ESC, END, Checksum(p)])
  {
    var head, body, tail := [ESC, START, LengthByte(p)], EscapedAll(p), [ESC, END, Checksum(p)];
    assert Frame(p) == (head + body) + tail;
    FoldConcat(Feed, l, head + body, tail);
    FoldConcat(Feed, l, head, body);
  }

  lemma CoveredSum(p: Bytes)
    ensures Sum(Covered(p))
         == ESC as int + START as int + LengthByte(p) as int + Sum(EscapedAll(p)) + ESC as int + END as int
  {
    var head, body, end := [ESC, START, LengthByte(p)], EscapedAll(p), [ESC, END];
    SumConcat(head + body, end);
    SumConcat(head, body);
    assert head == [ESC, START] + [LengthByte(p)];
    SumConcat([ESC, START], [LengthByte(p)]);
    SumConcat([ESC], [START]);
    SumConcat([ESC], [END]);
    assert [ESC] + [START] == [ESC, START] && [ESC] + [END] == [ESC, END];
    forall b: u8 ensures Sum([b]) == b as int { assert [b][..0] == []; }
  }

  /** The unescaped length byte does no harm. */
  ghost predicate Clear(p: Bytes) {
    LengthByte(p) == ESC ==> p[0] != ESC && Hushed(p)
  }

  ghost predicate Deliverable(p: Bytes) {
    |p| < MAX_SIZE && Clear(p)
  }

  lemma OpenedReady(s: Parser, p: Bytes)
    requires Opened(s, LengthByte(p)) && Clear(p)
    ensures Ready(s, p)
  {
  }

  lemma CleanFrame(l: Line, p: Bytes)
    requires Idle(l.parser) && l.parser.nesc == 0 && Deliverable(p)
    ensures var t := Run(l, Frame(p));
            && Idle(t.parser) && t.parser.nesc == (if Checksum(p) == ESC then 1 else 0) && t.out == l.out + [Msg(START, p)]
            && t.parser.cmdsize == if LengthByte(p) == ESC then l.parser.cmdsize else LengthByte(p)
  {
    FrameSplits(l, p);
    Head(l, LengthByte(p));
    var h := Run(l, [ESC, START, LengthByte(p)]);
    OpenedReady(h.parser, p);
    Payload(h, p);
    var m := Run(h, EscapedAll(p));
    CoveredSum(p);
    assert m.parser.buf == [] + p == p;
    Tail(m, Checksum(p));
  }

  /** The size a caller copies by is the length of the packet reported, but for packets of 36 bytes: their
      length byte is taken for an escape, and the size stays that of the frame before. */
  lemma SizeIsLengthIff(l: Line, p: Bytes)
    requires Idle(l.parser) && l.parser.nesc == 0 && Deliverable(p)
    ensures var t := Run(l, Frame(p));
            t.parser.cmdsize as int == |p| <==> |p| != 36 || l.parser.cmdsize == 36
  {
    CleanFrame(l, p);
    LengthFits(p);
  }

  lemma LengthFits(p: Bytes)
    requires |p| < 256
    ensures LengthByte(p) as int == |p|
  {
  }

  /** Behind an ESC checksum a frame is never reported under its own start character. */
  lemma FrameAfterEsc(l: Line, p: Bytes)
    requires Idle(l.parser) && l.parser.nesc == 1 && Clear(p)
    ensures var t := Run(l, Frame(p));
            && Idle(t.parser) && t.parser.nesc == (if Checksum(p) == ESC then 1 else 0)
            && (t.out == l.out || exists q :: t.out == l.out + [Msg(NO_START, q)])
  {
    FrameSplits(l, p);
    HeadAfterEsc(l, LengthByte(p));
    var h := Run(l, [ESC, START, LengthByte(p)]);
    OpenedReady(h.parser, p);
    Payload(h, p);
    var m := Run(h, EscapedAll(p));
    Tail(m, Checksum(p));
    assert l.out + [] == l.out;
  }

  /** A frame under any start character, as the other side sends them. */
  function SumFrom(c: u8, p: Bytes): nat {
    ESC as int + c as int + LengthByte(p) as int + Sum(EscapedAll(p)) + ESC as int + END as int
  }

  function FrameFrom(c: u8, p: Bytes): Bytes {
    [ESC, c, LengthByte(p)] + EscapedAll(p) + [ESC, END, (SumFrom(c, p) % 256) as u8]
  }

  /** It is reported under that character, if it is one of the sixteen from 0xf0 on. */
  lemma AnyStartArrives(l: Line, c: u8, p: Bytes)
    requires Idle(l.parser) && l.parser.nesc == 0 && Deliverable(p) && 0xf0 <= c
    ensures Run(l, FrameFrom(c, p)).out == l.out + [Msg(c, p)]
  {
    var head := [ESC, c, LengthByte(p)];
    RunParts(l, head, EscapedAll(p), [ESC, END, (SumFrom(c, p) % 256) as u8]);
    HeadFrom(l, c, LengthByte(p));
    BodyArrives(Run(l, head), p, (SumFrom(c, p) % 256) as u8);
  }

  lemma RunParts(l: Line, head: Bytes, body: Bytes, tail: Bytes)
    ensures Run(l, head + body + tail) == Run(Run(Run(l, head), body), tail)
  {
    FoldConcat(Feed, l, head + body, tail);
    FoldConcat(Feed, l, head, body);
  }

  lemma BodyArrives(h: Line, p: Bytes, check: u8)
    requires Opened(h.parser, LengthByte(p)) && Deliverable(p) && h.parser.ridx == 3 && h.parser.buf == []
    requires check as int == (h.parser.csum + Sum(EscapedAll(p)) + ESC as int + END as int) % 256
    ensures Run(Run(h, EscapedAll(p)), [ESC, END, check]).out == h.out + [Msg(h.parser.schar, p)]
  {
    BodyTaken(h, p);
    TailReports(Run(h, EscapedAll(p)), check);
  }

  lemma BodyTaken(h: Line, p: Bytes)
    requires Opened(h.parser, LengthByte(p)) && Deliverable(p) && h.parser.ridx == 3 && h.parser.buf == []
    ensures var m := Run(h, EscapedAll(p));
            && m.out == h.out && Boundary(m.parser) && m.parser.buf == p && m.parser.schar == h.parser.schar
            && m.parser.csum == h.parser.csum + Sum(EscapedAll(p))
  {
    OpenedReady(h.parser, p);
    Payload(h, p);
    assert [] + p == p;
  }

  lemma TailReports(m: Line, check: u8)
    requires Boundary(m.parser) && check as int == (m.parser.csum + ESC as int + END as int) % 256
    ensures Run(m, [ESC, END, check]).out == m.out + [Msg(m.parser.schar, m.parser.buf)]
  {
    Tail(m, check);
  }

  /** And no packet is ever reported under another, but for those without a start. */
  lemma {:induction false} StartsAreStarts(l: Line, bs: Bytes)
    requires l.parser.schar >= 0xf0 || l.parser.schar == 0x0f
    requires forall m :: m in l.out ==> m.start >= 0xf0 || m.start == 0x0f
    ensures var t := Run(l, bs);
            && (t.parser.schar >= 0xf0 || t.parser.schar == 0x0f)
            && forall m :: m in t.out ==> m.start >= 0xf0 || m.start == 0x0f
  {
    if bs != [] { StartsAreStarts(l, bs[..|bs|-1]); }
  }

  /** The frame byte by byte, read from the front. */
  function Doubled(p: Bytes): Bytes {
    if p == [] then [] else (if p[0] == 0x24 then [0x24, 0x24] else [p[0]]) + Doubled(p[1..])
  }

  lemma {:induction false} EscapedIsDoubled(p: Bytes)
    ensures EscapedAll(p) == Doubled(p)
  {
    if p != [] {
      EscapedIsDoubled(p[1..]);
      EscapedConcat([p[0]], p[1..]);
      EscapedOne(p[0]);
      assert p == [p[0]] + p[1..];
    }
  }

  /** `$`, 0xf0, the length, the payload with every `$` doubled, `$`, `E`, and the sum of all that. */
  lemma FrameInFull(p: Bytes, body: Bytes, length: u8, sum: nat)
    requires body == Doubled(p) && length as int == |p| % 256
    requires sum == 0x24 + 0xf0 + length as int + Total(body) + 0x24 + 0x45
    ensures Frame(p) == [0x24, 0xf0, length] + body + [0x24, 0x45] + [(sum % 256) as u8]
  {
    EscapedIsDoubled(p);
    SumIsTotal(body);
    CoveredSum(p);
    assert Sum(Covered(p)) == sum;
  }

  // ---------------------------------------------------------------------------------------------
  // Frames that do not arrive
  // ---------------------------------------------------------------------------------------------

  /** Every packet reported is shorter than `n`. */
  ghost predicate Short(out: seq<Msg>, n: nat) {
    forall m :: m in out ==> |m.payload| < n
  }

  lemma {:induction false} RunShort(l: Line, bs: Bytes)
    requires |l.parser.buf| < MAX_SIZE && Short(l.out, MAX_SIZE)
    ensures var t := Run(l, bs); |t.parser.buf| < MAX_SIZE && Short(t.out, MAX_SIZE)
  {
    if bs != [] {
      RunShort(l, bs[..|bs|-1]);
    }
  }

  /** What holds of the parser at all times. */
  predicate Sane(s: Parser) {
    |s.buf| < MAX_SIZE && s.nesc < 256 && (s.end ==> s.pchar == END)
  }

  /** Not a packet of `n` bytes or more under the sender's start character. */
  predicate Small(m: Msg, n: nat) {
    m.start == START ==> |m.payload| < n
  }

  ghost predicate AllSmall(out: seq<Msg>, base: nat, n: nat) {
    forall i {:trigger out[i]} :: base <= i < |out| ==> Small(out[i], n)
  }

  /** Packets from number `base` on are not whole frames of `n` payload bytes, and once that number is
      reached the packet in progress misses at least one of the `k` payload bytes seen. */
  ghost predicate Lost(l: Line, base: nat, k: nat, n: nat) {
    Sane(l.parser) && AllSmall(l.out, base, n) && (base <= |l.out| && l.parser.schar == START ==> |l.parser.buf| < k)
  }

  lemma SmallStep(out: seq<Msg>, more: seq<Msg>, base: nat, n: nat)
    requires AllSmall(out, base, n) && |more| <= 1 && (base <= |out| && more != [] ==> Small(more[0], n))
    ensures AllSmall(out + more, base, n)
  {
  }

  /** One byte: at most one more is stored, and none if it is an ESC that leaves the count odd. */
  lemma LoseFeed(l: Line, b: u8, base: nat, k: nat, n: nat)
    requires Lost(l, base, k, n) && k <= n
    ensures var m := Feed(l, b);
            && Lost(m, base, k + 1, n)
            && (b == ESC && m.parser.nesc % 2 == 1 ==> Lost(m, base, k, n))
            && (b == ESC ==> m.parser.nesc % 2 != l.parser.nesc % 2)
  {
    SmallStep(l.out, Output(l.parser, b), base, n);
  }

  lemma LoseEsc(l: Line, base: nat, k: nat, n: nat)
    requires Lost(l, base, k, n) && k < n
    ensures Lost(Run(l, Escaped(ESC)), base, k + 1, n)
  {
    FoldTwo(Feed, l, ESC, ESC);
    var m := Feed(l, ESC);
    LoseFeed(l, ESC, base, k, n);
    LoseFeed(m, ESC, base, if m.parser.nesc % 2 == 1 then k else k + 1, n);
  }

  lemma {:induction false} LoseBytes(l: Line, q: Bytes, base: nat, k: nat, n: nat)
    requires Lost(l, base, k, n) && k + |q| <= n
    ensures Lost(Run(l, EscapedAll(q)), base, k + |q|, n)
  {
    if q != [] {
      var r, b := q[..|q|-1], q[|q|-1];
      LoseBytes(l, r, base, k, n);
      var m := Run(l, EscapedAll(r));
      FoldConcat(Feed, l, EscapedAll(r), Escaped(b));
      if b == ESC {
        LoseEsc(m, base, k + |r|, n);
      } else {
        FoldOne(Feed, m, b);
        LoseFeed(m, b, base, k + |r|, n);
      }
    }
  }

  lemma LoseTail(l: Line, c: u8, base: nat, n: nat)
    requires Lost(l, base, n, n)
    ensures AllSmall(Run(l, [ESC, END, c]).out, base, n)
  {
    FoldThree(Feed, l, ESC, END, c);
    var m := Feed(l, ESC);
    LoseFeed(l, ESC, base, n, n);
    var k := Feed(m, END);
    assert m.parser.pchar == ESC ==> Lost(m, base, n, n);
    assert !m.parser.end;
    assert k.out == m.out;
    assert k.parser.end ==> k.parser.buf == m.parser.buf && k.parser.schar == m.parser.schar && m.parser.pchar == ESC;
    SmallStep(k.out, Output(k.parser, c), base, n);
  }

  /** A frame whose opening has not begun a packet is not reported, nor is one that has lost a byte. */
  lemma LoseRest(h: Line, p: Bytes, base: nat)
    requires Lost(h, base, 0, |p|)
    ensures AllSmall(Run(Run(h, EscapedAll(p)), [ESC, END, Checksum(p)]).out, base, |p|)
  {
    LoseBytes(h, p, base, 0, |p|);
    LoseTail(Run(h, EscapedAll(p)), Checksum(p), base, |p|);
  }

  /** The opening of a frame completes at most one packet, and then begins none. */
  lemma LoseHead(l: Line, n: u8, size: nat)
    requires Sane(l.parser)
    ensures Lost(Run(l, [ESC, START, n]), |l.out| + 1, 0, size)
  {
    FoldThree(Feed, l, ESC, START, n);
    var m := Feed(l, ESC);
    var k := Feed(m, START);
    assert m.out != l.out ==> m.parser.pchar == NOT_ESC && m.parser.schar == NO_START;
    assert !m.parser.end && !k.parser.end && k.parser.pchar != ESC && k.out == m.out;
    assert Feed(k, n).out == k.out;
  }

  /** From any state at all, only the first packet completed in a frame can be as long as its payload. */
  lemma OnlyFirstIsWhole(l: Line, p: Bytes)
    requires Sane(l.parser)
    ensures AllSmall(Run(l, Frame(p)).out, |l.out| + 1, |p|)
  {
    FrameSplits(l, p);
    LoseHead(l, LengthByte(p), |p|);
    LoseRest(Run(l, [ESC, START, LengthByte(p)]), p, |l.out| + 1);
  }

  /** Behind an ESC checksum no frame is reported whole. */
  lemma MissedFrame(l: Line, p: Bytes)
    requires Idle(l.parser) && l.parser.nesc == 1
    ensures AllSmall(Run(l, Frame(p)).out, |l.out|, |p|)
  {
    FrameSplits(l, p);
    HeadAfterEsc(l, LengthByte(p));
    LoseRest(Run(l, [ESC, START, LengthByte(p)]), p, |l.out|);
  }

  lemma Associate(a: Bytes, b: Bytes, c: Bytes)
    ensures (a + b) + c == a + (b + c)
  {
  }

  lemma {:induction false} EscapedConcat(a: Bytes, b: Bytes)
    ensures EscapedAll(a + b) == EscapedAll(a) + EscapedAll(b)
  {
    if b == [] {
      assert a + b == a;
    } else {
      var c, x := b[..|b|-1], b[|b|-1];
      EscapedConcat(a, c);
      assert (a + b)[..|a+b|-1] == a + c;
      Associate(EscapedAll(a), EscapedAll(c), Escaped(x));
    }
  }

  /** A byte lost behind a pending escape: it is framing there, or it pairs with the length byte. */
  lemma LoseByte(m: Line, b: u8)
    requires m.parser.pchar == ESC && !m.parser.end && |m.parser.buf| < 36 && m.parser.nesc < 256
    requires !Quiet(b) || (b == ESC && m.parser.nesc == 1 && m.parser.ridx == 3)
    ensures Lost(Run(m, Escaped(b)), |m.out|, |m.parser.buf| + 1, 36)
  {
    if b == ESC {
      FoldTwo(Feed, m, ESC, ESC);
      TakeData(m, ESC);
      Strip(Feed(m, ESC));
    } else {
      FoldOne(Feed, m, b);
    }
  }

  lemma LosePrefix(h: Line, q: Bytes, b: u8)
    requires Opened(h.parser, ESC) && h.parser.ridx == 3 && h.parser.buf == []
    requires |q| < 36 && ESC !in q && Hushed(q)
    requires (q == [] && b == ESC) || !Quiet(b)
    ensures Lost(Run(h, EscapedAll(q + [b])), |h.out|, |q| + 1, 36)
  {
    FoldConcat(Feed, h, EscapedAll(q), Escaped(b));
    assert (q + [b])[..|q|] == q;
    var m := Run(h, EscapedAll(q));
    if q != [] {
      assert q[0] in q;
      Payload(h, q);
      assert [] + q == q;
    }
    LoseByte(m, b);
  }

  lemma FirstLost(p: Bytes) returns (i: nat)
    requires |p| == 36 && !Clear(p)
    ensures i < |p| && ESC !in p[..i]
    ensures (i == 0 && p[0] == ESC) || (!Quiet(p[i]) && Hushed(p[..i]))
  {
    i := 0;
    if p[0] != ESC {
      while Quiet(p[i])
        decreases |p| - i
        invariant 0 <= i < |p| && p[0] != ESC
        invariant ESC !in p[..i] && forall j :: 0 <= j < i ==> Quiet(p[j])
      {
        assert p[..i+1] == p[..i] + [p[i]];
        i := i + 1;
      }
    }
  }

  lemma LostPayload(h: Line, q: Bytes, b: u8, r: Bytes)
    requires Opened(h.parser, ESC) && h.parser.ridx == 3 && h.parser.buf == []
    requires |q| + 1 + |r| == 36 && ESC !in q && Hushed(q)
    requires (q == [] && b == ESC) || !Quiet(b)
    ensures Lost(Run(h, EscapedAll(q + [b] + r)), |h.out|, 36, 36)
  {
    LosePrefix(h, q, b);
    EscapedConcat(q + [b], r);
    FoldConcat(Feed, h, EscapedAll(q + [b]), EscapedAll(r));
    LoseBytes(Run(h, EscapedAll(q + [b])), r, |h.out|, |q| + 1, 36);
  }

  lemma LostFrame(l: Line, p: Bytes)
    requires Idle(l.parser) && l.parser.nesc == 0 && |p| == 36 && !Clear(p)
    ensures AllSmall(Run(l, Frame(p)).out, |l.out|, 36)
  {
    FrameSplits(l, p);
    Head(l, ESC);
    var h := Run(l, [ESC, START, ESC]);
    LostBody(h, p);
    LoseTail(Run(h, EscapedAll(p)), Checksum(p), |l.out|, 36);
  }

  lemma LostBody(h: Line, p: Bytes)
    requires Opened(h.parser, ESC) && h.parser.ridx == 3 && h.parser.buf == []
    requires |p| == 36 && !Clear(p)
    ensures Lost(Run(h, EscapedAll(p)), |h.out|, 36, 36)
  {
    var i := FirstLost(p);
    var q, b, r := p[..i], p[i], p[i+1..];
    LostPayload(h, q, b, r);
    assert q + [b] + r == p;
  }

  /** A single frame arrives exactly if it fits and its length byte does no harm. */
  lemma FrameArrivesIff(s: Parser, p: Bytes)
    requires Idle(s) && s.nesc == 0
    ensures Run(Line(s, []), Frame(p)).out == [Msg(START, p)] <==> Deliverable(p)
  {
    var l := Line(s, []);
    if Deliverable(p) {
      CleanFrame(l, p);
    } else {
      var t := Run(l, Frame(p));
      RunShort(l, Frame(p));
      if |p| < MAX_SIZE {
        LostFrame(l, p);
      }
      var whole := [Msg(START, p)];
      assert whole[0] in whole;
    }
  }

  // ---------------------------------------------------------------------------------------------
  // Streams of frames
  // ---------------------------------------------------------------------------------------------

  function Frames(ps: seq<Bytes>): Bytes {
    if ps == [] then [] else Frames(ps[..|ps|-1]) + Frame(ps[|ps|-1])
  }

  function Messages(ps: seq<Bytes>): seq<Msg> {
    seq(|ps|, i requires 0 <= i < |ps| => Msg(START, ps[i]))
  }

  /** No frame but the last has a checksum that looks like an escape. */
  ghost predicate NoEscBetween(ps: seq<Bytes>) {
    forall i {:trigger ps[i]} :: 0 <= i < |ps| - 1 ==> Checksum(ps[i]) != ESC
  }

  ghost predicate AllDeliverable(ps: seq<Bytes>) {
    forall i {:trigger ps[i]} :: 0 <= i < |ps| ==> Deliverable(ps[i])
  }

  /** The line after a stream. */
  function Received(ps: seq<Bytes>): Line {
    Run(Line(RESET, []), Frames(ps))
  }

  lemma ReceivedNext(qs: seq<Bytes>, p: Bytes)
    ensures Received(qs + [p]) == Run(Received(qs), Frame(p))
  {
    var ps := qs + [p];
    assert ps[..|ps|-1] == qs;
    FoldConcat(Feed, Line(RESET, []), Frames(qs), Frame(p));
  }

  /** Between frames, with every frame so far reported. */
  ghost predicate InStep(t: Line, ps: seq<Bytes>) {
    && Idle(t.parser)
    && t.parser.nesc == (if ps != [] && Checksum(ps[|ps|-1]) == ESC then 1 else 0)
    && t.out == Messages(ps)
  }

  lemma {:induction false} Stream(ps: seq<Bytes>)
    requires AllDeliverable(ps) && NoEscBetween(ps)
    ensures InStep(Received(ps), ps)
  {
    if ps != [] {
      var qs, p := ps[..|ps|-1], ps[|ps|-1];
      assert forall i {:trigger qs[i]} :: 0 <= i < |qs| ==> qs[i] == ps[i];
      Stream(qs);
      assert qs + [p] == ps;
      ReceivedNext(qs, p);
      assert qs != [] ==> Checksum(ps[|qs|-1]) != ESC;
      CleanFrame(Received(qs), p);
      assert Messages(ps) == Messages(qs) + [Msg(START, p)];
    }
  }

  lemma {:induction false} RunSane(l: Line, bs: Bytes)
    requires Sane(l.parser)
    ensures Sane(Run(l, bs).parser) && l.out <= Run(l, bs).out
  {
    if bs != [] { RunSane(l, bs[..|bs|-1]); }
  }

  /** If all frames were reported in the end, then none of them late: to catch up, one frame would have
      to complete an earlier packet and then itself. */
  lemma {:induction false} NoneLate(ps: seq<Bytes>, j: nat)
    requires j <= |ps| && Received(ps).out == Messages(ps)
    ensures j <= |Received(ps[..j]).out| && Received(ps[..j]).out <= Messages(ps) && Sane(Received(ps[..j]).parser)
    decreases |ps| - j
  {
    RunSane(Line(RESET, []), Frames(ps[..j]));
    if j == |ps| {
      assert ps[..j] == ps;
    } else {
      NoneLate(ps, j + 1);
      var l, p := Received(ps[..j]), ps[j];
      assert ps[..j] + [p] == ps[..j+1];
      ReceivedNext(ps[..j], p);
      RunSane(l, Frame(p));
      OnlyFirstIsWhole(l, p);
      assert Received(ps[..j+1]).out[j] == Messages(ps)[j] == Msg(START, p);
    }
  }

  lemma WholeIsClean(l: Line, p: Bytes)
    requires Idle(l.parser) && l.parser.nesc <= 1 && |p| < MAX_SIZE
    requires var out := Run(l, Frame(p)).out; |l.out| < |out| && out[|l.out|] == Msg(START, p)
    ensures l.parser.nesc == 0 && Deliverable(p)
  {
    if l.parser.nesc == 1 { MissedFrame(l, p); } else if !Clear(p) { LostFrame(l, p); }
  }

  lemma StreamGrows(qs: seq<Bytes>, p: Bytes)
    requires AllDeliverable(qs) && NoEscBetween(qs) && Deliverable(p)
    requires qs != [] ==> Checksum(qs[|qs|-1]) != ESC
    ensures AllDeliverable(qs + [p]) && NoEscBetween(qs + [p])
  {
  }

  /** So each frame follows a stream that left the parser in step, and is not one of those lost. */
  lemma {:induction false} NoneLost(ps: seq<Bytes>, j: nat)
    requires j <= |ps| && Received(ps).out == Messages(ps)
    requires forall i {:trigger ps[i]} :: 0 <= i < |ps| ==> |ps[i]| < MAX_SIZE
    ensures AllDeliverable(ps[..j]) && NoEscBetween(ps[..j])
  {
    if j > 0 {
      NoneLost(ps, j - 1);
      var qs, p := ps[..j-1], ps[j-1];
      Stream(qs);
      NoneLate(ps, j);
      ReceivedNext(qs, p);
      assert ps[..j] == qs + [p];
      assert Messages(ps)[j-1] == Msg(START, p);
      WholeIsClean(Received(qs), p);
      StreamGrows(qs, p);
    }
  }

  /** A stream of frames is reported frame by frame exactly if each frame fits, no length byte does harm
      and no checksum but the last is ESC. */
  lemma StreamArrivesIff(ps: seq<Bytes>)
    ensures Run(Line(RESET, []), Frames(ps)).out == Messages(ps) <==> AllDeliverable(ps) && NoEscBetween(ps)
  {
    assert ps[..|ps|] == ps;
    if AllDeliverable(ps) && NoEscBetween(ps) {
      Stream(ps);
    } else if Received(ps).out == Messages(ps) {
      RunShort(Line(RESET, []), Frames(ps));
      forall i | 0 <= i < |ps| ensures |ps[i]| < MAX_SIZE {
        assert Messages(ps)[i] in Received(ps).out;
      }
      NoneLost(ps, |ps|);
    }
  }

  /** The one-byte message a6 has checksum ESC: sent twice, it does not arrive twice. */
  lemma EscChecksumLosesNextFrame()
    ensures var p := [0xa6 as u8];
            Deliverable(p) && Run(Line(RESET, []), Frames([p, p])).out != Messages([p, p])
  {
    var p := [0xa6 as u8];
    CoveredSum(p);
    EscapedOne(0xa6);
    assert Checksum(p) == ESC;
    var ps := [p, p];
    assert ps[0] == p;
    StreamArrivesIff(ps);
  }

  /** Thirty-six bytes after a start character: the length byte and the first payload byte look like a new start. */
  lemma LengthEscLosesFrame(p: Bytes)
    requires |p| == 36 && IsStart(p[0])
    ensures Run(Line(RESET, []), Frame(p)).out != [Msg(START, p)]
  {
    assert p[..0] == [];
    assert !Hushed(p);
    FrameArrivesIff(RESET, p);
  }

  // ---------------------------------------------------------------------------------------------
  // The device
  // ---------------------------------------------------------------------------------------------

  /** The parser's static variables with the receive buffer they fill. */
  class Receiver {
    var ridx: nat
    var bidx: nat
    var end: bool
    var cmdsize: u8
    var csum: nat     // only its value modulo 256 is ever used
    var pchar: u8
    var schar: u8
    var nesc: nat     // a uint8_t
    var noc: nat      // rx_noc: bytes in the buffer, as last reported
    var csize: u8     // rx_csize
    const rxbuf: array<u8>

    ghost predicate Valid()
      reads this
    {
      bidx < MAX_SIZE <= rxbuf.Length && nesc < 256 && schar != 0 && csize == cmdsize
    }

    ghost function State(): Parser
      reads this, rxbuf
      requires Valid()
    {
      Parser(ridx, rxbuf[..bidx], end, cmdsize, csum, pchar, schar, nesc)
    }

    constructor (buf: array<u8>)
      requires buf.Length >= MAX_SIZE
      ensures Valid() && rxbuf == buf && State() == RESET && Idle(State())
    {
      ridx, bidx, end, cmdsize, csum := 0, 0, false, 0, 0;
      pchar, schar, nesc, noc, csize := NOT_ESC, NO_START, 0, 0, 0;
      rxbuf := buf;
    }

    /** Returns the start character when `rxbyte` completes a packet, which is then in the buffer. */
    method ParseRawByte(rxbyte: u8) returns (r: u8)
      requires Valid()
      modifies this, rxbuf
      ensures Valid()
      ensures State() == Next(old(State()), rxbyte)
      ensures r == 0 <==> Output(old(State()), rxbyte) == []
      ensures r != 0 ==> noc == bidx && Output(old(State()), rxbyte) == [Msg(r, rxbuf[..noc])]
    {
      nesc := if rxbyte == ESC then (nesc + 1) % 256 else 0;
      if pchar == ESC && IsStart(rxbyte) {
        ridx, bidx, end, schar, pchar := 2, 0, false, rxbyte, rxbyte;
        csum := ESC as int + rxbyte as int;
        return 0;
      }
      if pchar == ESC && rxbyte == END {
        ridx, end, csum, pchar := ridx + 1, true, csum + rxbyte as int, rxbyte;
        return 0;
      }
      if end {
        r := CloseFrame(rxbyte);
        return;
      }
      if nesc % 2 == 1 {
        pchar, csum, ridx := rxbyte, csum + rxbyte as int, ridx + 1;
        return 0;
      }
      TakeByte(rxbyte);
      return 0;
    }

    /** The byte after the end is the checksum. */
    method CloseFrame(rxbyte: u8) returns (r: u8)
      requires Valid()
      modifies this
      ensures Valid() && bidx == old(bidx)
      ensures State() == old(State()).(end := false, ridx := 0, pchar := NOT_ESC, schar := NO_START, csum := 0)
      ensures r == if rxbyte as int == old(csum) % 256 then old(schar) else 0
      ensures r != 0 ==> noc == bidx
    {
      var good := rxbyte as int == csum % 256;
      r := if good then schar else 0;
      end, ridx, pchar, schar, csum := false, 0, NOT_ESC, NO_START, 0;
      noc := if good then bidx else 0;
    }

    method TakeByte(rxbyte: u8)
      requires Valid()
      modifies this, rxbuf
      ensures Valid()
      ensures State() == Data(old(State()), rxbyte, old(nesc))
    {
      if ridx == 2 { cmdsize := rxbyte; }
      var sizeIsEsc := if ridx == 3 && nesc == 2 then 1 else 0;
      if ridx > 2 + sizeIsEsc {
        rxbuf[bidx] := rxbyte;
        bidx := bidx + 1;
        assert rxbuf[..bidx] == old(rxbuf[..bidx]) + [rxbyte];
      }
      if bidx >= MAX_SIZE {
        end, ridx, bidx, pchar, schar, noc := false, 0, 0, NOT_ESC, NO_START, 0;
        return;
      }
      csum, ridx, csize, noc := csum + rxbyte as int, ridx + 1, cmdsize, bidx;
      if rxbyte == ESC { pchar := NOT_ESC; }
    }
  }

  /** The transmitting side of the device: the bytes put on the line. */
  class Sender {
    var sent: Bytes

    method SendEscaped(ch: u8, csum: nat) returns (sum: nat)
      modifies this
      ensures sent == old(sent) + Escaped(ch) && sum == csum + Sum(Escaped(ch))
    {
      EscapedOne(ch);
      sum := csum;
      if ch == ESC {
        sent := sent + [ESC];
        sum := sum + ESC as int;
      }
      sent := sent + [ch];
      sum := sum + ch as int;
    }

    method SendPayload(payload: array<u8>, csum: nat) returns (sum: nat)
      modifies this
      ensures sent == old(sent) + EscapedAll(payload[..]) && sum == csum + Sum(EscapedAll(payload[..]))
    {
      ghost var p := payload[..];
      sum := csum;
      var i := 0;
      while i < payload.Length
        invariant 0 <= i <= payload.Length
        invariant sent == old(sent) + EscapedAll(p[..i]) && sum == csum + Sum(EscapedAll(p[..i]))
      {
        assert p[..i+1][..i] == p[..i];
        SumConcat(EscapedAll(p[..i]), Escaped(p[i]));
        Associate(old(sent), EscapedAll(p[..i]), Escaped(p[i]));
        sum := SendEscaped(payload[i], sum);
        i := i + 1;
      }
      assert p[..i] == p;
    }

    method SendMessage(payload: array<u8>) returns (length: nat)
      modifies this
      ensures length == payload.Length && sent == old(sent) + Frame(payload[..])
    {
      ghost var p := payload[..];
      length := payload.Length;
      var lengthByte := (length % 256) as u8;
      var csum: nat := ESC as int + START as int + ESC as int + END as int + lengthByte as int;
      sent := sent + [ESC, START, lengthByte];
      csum := SendPayload(payload, csum);
      CoveredSum(p);
      sent := sent + [ESC, END, (csum % 256) as u8];
      FrameText(old(sent), p);
    }
  }

  lemma FrameText(s: Bytes, p: Bytes)
    ensures s + [ESC, START, LengthByte(p)] + EscapedAll(p) + [ESC, END, Checksum(p)] == s + Frame(p)
  {
    var head, body := [ESC, START, LengthByte(p)], EscapedAll(p);
    assert [ESC, END, Checksum(p)] == [ESC, END] + [Checksum(p)];
    Associate(s, head, body);
    Associate(s + (head + body), [ESC, END], [Checksum(p)]);
    Associate(s, head + body, [ESC, END]);
    Associate(s, Covered(p), [Checksum(p)]);
  }
}
