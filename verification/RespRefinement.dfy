/**
 * The push-down machine refines the recursive-descent reader: on every byte
 * string and from inside every nest of open arrays the two agree on where a
 * reply ends, what it means and which byte is the first impossible one.
 */
module RespRefinement {
  import opened Bytes
  import opened RespProtocol
  import opened RespReader
  import opened RespMachine

  /** A run agrees with a reading: same value delivered at the same place, same
      shortage, same offending byte. */
  predicate Agrees(r: Result, read: Read<Value>, stack: seq<Frame>, s: seq<Byte>) {
    match read
    case Got(v, n) => n <= |s| && r == Resume(Deliver(stack, v), stack, s, n)
    case Short => r.Incompleted?
    case Bad(n) => r.Failed? && r.next == n
  }

  predicate AgreesNumber(r: Result, k: NumberRole, read: Read<seq<Byte>>, stack: seq<Frame>, s: seq<Byte>) {
    match read
    case Got(t, n) => n <= |s| && r == Resume(NumberRead(k, TextToLong(t), stack), stack, s, n)
    case Short => r.Incompleted?
    case Bad(n) => r.Failed? && r.next == n
  }

  predicate AgreesMany(r: Result, elems: seq<Value>, read: Read<seq<Value>>, stack: seq<Frame>, s: seq<Byte>) {
    match read
    case Got(vs, n) => n <= |s| && r == Resume(Deliver(stack, Array(elems + vs)), stack, s, n)
    case Short => r.Incompleted?
    case Bad(n) => r.Failed? && r.next == n
  }

  /** No more text: CR LF, the end of the input, or an impossible byte. */
  lemma TextEnds(e: bool, s: seq<Byte>, t: seq<Byte>, p: nat, stack: seq<Frame>)
    requires p <= |s| && (p < |s| ==> !IsPrintable(s[p]))
    ensures Agrees(Run(Config(Text(e, t), stack), s, p), ReadCrLf(s, p, ByteArray(t, e)), stack, s)
  {
    hide Deliver;
    if p < |s| && s[p] == CR {
      RunMoves(Config(Text(e, t), stack), s, p, Config(TextLF(e, t), stack));
    }
  }

  lemma {:induction false} TextRun(e: bool, s: seq<Byte>, b: nat, p: nat, stack: seq<Frame>)
    requires b <= p <= |s|
    ensures var q := SpanEnd(Printable, s, p);
      Agrees(Run(Config(Text(e, s[b..p]), stack), s, p), ReadCrLf(s, q, ByteArray(s[b..q], e)), stack, s)
    decreases |s| - p
  {
    hide Run, ReadCrLf, Agrees;
    if p < |s| && IsPrintable(s[p]) {
      assert s[b..p + 1] == s[b..p] + [s[p]];
      RunMoves(Config(Text(e, s[b..p]), stack), s, p, Config(Text(e, s[b..p + 1]), stack));
      TextRun(e, s, b, p + 1, stack);
    } else {
      TextEnds(e, s, s[b..p], p, stack);
    }
  }

  /** A number read behind `b` agrees with its text, and an empty one is an error. */
  predicate AgreesSpan(r: Result, k: NumberRole, s: seq<Byte>, b: nat, q: nat, stack: seq<Frame>)
    requires b <= q <= |s|
  {
    if b == q < |s| then r.Failed? && r.next == q + 1
    else AgreesNumber(r, k, ReadCrLf(s, q, s[b..q]), stack, s)
  }

  lemma NumberEnds(k: NumberRole, s: seq<Byte>, b: nat, p: nat, stack: seq<Frame>)
    requires b <= p <= |s| && (p < |s| ==> !IsNumeric(s[p]))
    ensures AgreesSpan(Run(Config(Number(k, s[b..p]), stack), s, p), k, s, b, p, stack)
  {
    hide TextToLong, NumberRead;
    if p < |s| && s[p] == CR && b < p {
      RunMoves(Config(Number(k, s[b..p]), stack), s, p, Config(NumberLF(k, s[b..p]), stack));
    }
  }

  lemma {:induction false} NumberRun(k: NumberRole, s: seq<Byte>, b: nat, p: nat, stack: seq<Frame>)
    requires b <= p <= |s|
    ensures AgreesSpan(Run(Config(Number(k, s[b..p]), stack), s, p), k, s, b, SpanEnd(Numeric, s, p), stack)
    decreases |s| - p
  {
    hide Run, AgreesSpan;
    if p < |s| && IsNumeric(s[p]) {
      assert s[b..p + 1] == s[b..p] + [s[p]];
      RunMoves(Config(Number(k, s[b..p]), stack), s, p, Config(Number(k, s[b..p + 1]), stack));
      NumberRun(k, s, b, p + 1, stack);
    } else {
      NumberEnds(k, s, b, p, stack);
    }
  }

  lemma PayloadEnd(s: seq<Byte>, b: seq<Byte>, p: nat, stack: seq<Frame>)
    requires p <= |s|
    ensures Agrees(Run(Config(PayloadCR(b), stack), s, p), ReadCrLf(s, p, ByteArray(b, false)), stack, s)
  {
    if p < |s| && s[p] == CR {
      assert Run(Config(PayloadCR(b), stack), s, p) == Run(Config(PayloadLF(b), stack), s, p + 1);
    }
  }

  /** The number behind the lead byte of a reply, in machine and reader. */
  lemma NumberHead(k: NumberRole, s: seq<Byte>, pos: nat, stack: seq<Frame>)
    requires pos <= |s|
    ensures AgreesNumber(Run(Config(Number(k, []), stack), s, pos), k, ReadText(Numeric, s, pos), stack, s)
  {
    assert s[pos..pos] == [];
    NumberRun(k, s, pos, pos, stack);
  }

  lemma BulkRefines(s: seq<Byte>, pos: nat, n: int, stack: seq<Frame>)
    requires 0 < pos <= |s|
    ensures Agrees(Resume(NumberRead(BulkSizeRole, n, stack), stack, s, pos), ReadBulk(s, pos, n), stack, s)
  {
    if n == 0 {
      PayloadEnd(s, [], pos, stack);
    } else if n > 0 {
      if pos + n <= |s| {
        PayloadCopy([], n, s, pos, n, stack);
        assert [] + s[pos..pos + n] == s[pos..pos + n];
        PayloadEnd(s, s[pos..pos + n], pos + n, stack);
      } else {
        PayloadCopy([], n, s, pos, |s| - pos, stack);
      }
    }
  }

  lemma LineRefines(s: seq<Byte>, pos: nat, stack: seq<Frame>, isError: bool)
    requires pos < |s| && LeadOf(s[pos]) == LineLead(isError)
    ensures Agrees(Run(Config(Begin, stack), s, pos), ReadReply(s, pos), stack, s)
  {
    hide Deliver, SpanEnd;
    assert s[pos + 1..pos + 1] == [];
    TextRun(isError, s, pos + 1, pos + 1, stack);
    RunMoves(Config(Begin, stack), s, pos, Config(Text(isError, []), stack));
    hide Run;
  }

  /** One reply, read by the machine from inside any open arrays. */
  lemma {:induction false} ReplyRefines(s: seq<Byte>, pos: nat, stack: seq<Frame>)
    requires pos <= |s|
    ensures Agrees(Run(Config(Begin, stack), s, pos), ReadReply(s, pos), stack, s)
    decreases |s| - pos, 0, 0
  {
    hide Deliver, TextToLong, ReadText, ReadBehind, ReadString, ReadCrLf;
    if pos < |s| {
      match LeadOf(s[pos])
      case NoLead =>
      case LineLead(isError) => LineRefines(s, pos, stack, isError);
      case NumberLead(role) =>
        NumberHead(role, s, pos + 1, stack);
        RunMoves(Config(Begin, stack), s, pos, Config(Number(role, []), stack));
        var t := ReadText(Numeric, s, pos + 1);
        if t.Got? {
          BehindRefines(s, t.next, role, TextToLong(t.value), stack);
        }
    }
  }

  lemma {:induction false} BehindRefines(s: seq<Byte>, pos: nat, role: NumberRole, n: int, stack: seq<Frame>)
    requires 0 < pos <= |s|
    ensures Agrees(Resume(NumberRead(role, n, stack), stack, s, pos), ReadBehind(s, pos, role, n), stack, s)
    decreases |s| - pos, 2, 0
  {
    match role
    case IntegerRole =>
    case BulkSizeRole => BulkRefines(s, pos, n, stack);
    case ArraySizeRole =>
      if n > 0 {
        ManyRefine(s, pos, stack, n, [], n);
        var many := ReadMany(s, pos, n);
        if many.Got? {
          assert [] + many.value == many.value;
        }
      }
  }

  /** The missing `k` elements of the innermost open array. */
  lemma {:induction false} ManyRefine(s: seq<Byte>, pos: nat, stack: seq<Frame>,
                                      k: nat, elems: seq<Value>, declared: int)
    requires pos <= |s| && k >= 1
    ensures AgreesMany(Run(Config(Begin, stack + [Frame(k, elems, declared)]), s, pos),
                       elems, ReadMany(s, pos, k), stack, s)
    decreases |s| - pos, 1, k
  {
    hide Run, ReadReply;
    var open := stack + [Frame(k, elems, declared)];
    ReplyRefines(s, pos, open);
    var first := ReadReply(s, pos);
    if first.Got? {
      assert open[..|open| - 1] == stack;
      if k == 1 {
        assert ReadMany(s, first.next, 0) == Got([], first.next);
        assert elems + ([first.value] + []) == elems + [first.value];
      } else {
        ManyRefine(s, first.next, stack, k - 1, elems + [first.value], declared);
        var rest := ReadMany(s, first.next, k - 1);
        if rest.Got? {
          assert elems + ([first.value] + rest.value) == (elems + [first.value]) + rest.value;
        }
      }
    }
  }

  /** The idle machine and the reader accept, wait and reject alike. */
  lemma MachineIsReader(s: seq<Byte>, pos: nat)
    requires pos <= |s|
    ensures var r, read := Run(IDLE, s, pos), ReadReply(s, pos);
      && (read.Got? <==> r.Completed?) && (read.Short? <==> r.Incompleted?) && (read.Bad? <==> r.Failed?)
      && (read.Got? ==> r == Completed(read.next, read.value))
      && (read.Bad? ==> r.next == read.next)
  {
    ReplyRefines(s, pos, []);
  }

  /**
   * Round trip.  Parsing the encoding of any well-formed reply, whatever comes
   * before and after it, completes with its meaning and consumes exactly the
   * encoding.
   */
  lemma RoundTrip(r: Reply, before: seq<Byte>, after: seq<Byte>)
    requires WellFormed(r)
    ensures Run(IDLE, before + Encode(r) + after, |before|) == Completed(|before| + |Encode(r)|, Meaning(r))
  {
    var s := before + Encode(r) + after;
    assert s[|before|..|before| + |Encode(r)|] == Encode(r);
    ReadsEncoding(r, s, |before|);
    MachineIsReader(s, |before|);
  }

  /** A proper prefix of an encoding is never mistaken for a reply or an error. */
  lemma PrefixWaits(r: Reply, k: nat)
    requires WellFormed(r) && k < |Encode(r)|
    ensures Run(IDLE, Encode(r)[..k], 0).Incompleted?
  {
    hide Encode, ReadReply, WellFormed, Meaning;
    var s := Encode(r);
    RoundTrip(r, [], []);
    assert [] + s + [] == s;
    assert s[..k] + s[k..] == s;
    ChunkIndependence(IDLE, s[..k], s[k..], 0);
  }

  /**
   * Whatever digits and dashes a number consists of, the parser hands it to the
   * conversion; and the assertion there, that all characters behind the sign are
   * digits, holds exactly when no dash follows the first character.
   */
  lemma AssertionReachedIff(t: seq<Byte>)
    requires t != [] && forall i :: 0 <= i < |t| ==> IsNumeric(t[i])
    ensures Run(IDLE, [COLON] + t + CRLF, 0) == Completed(|t| + 3, Int(TextToLong(t)))
    ensures AllDigits(LoopText(t)) <==> DashOnlyLeads(t)
  {
    hide TextToLong, Run, ReadText, SpanEnd, AllDigits, DashOnlyLeads, LoopText;
    var s := [COLON] + t + CRLF;
    assert s[1..1 + |t + CRLF|] == t + CRLF;
    ReadsText(Numeric, s, 1, t);
    MachineIsReader(s, 0);
    AssertionHoldsIff(t);
  }

  /** ":1-2" is such a number: it is read as 72. */
  lemma AssertionBroken()
    ensures var t: seq<Byte> := [49, DASH, 50];
      Run(IDLE, [COLON] + t + CRLF, 0) == Completed(6, Int(72)) && !AllDigits(LoopText(t))
  {
    var t: seq<Byte> := [49, DASH, 50];
    AssertionReachedIff(t);
    assert t[1] == DASH;
    assert t[..2] == [49, DASH] && t[..2][..1] == [49] && [49][..0] == [];
    assert Accumulate([49]) == 1 && Accumulate(t[..2]) == 7;
  }

  // ------------------------------------------------------------ after an error

  /** A value that open arrays take comes out, if at all, inside another one. */
  lemma {:induction false} DeliverWraps(stack: seq<Frame>, v: Value, x: Value)
    requires Deliver(stack, v) == Done(x)
    ensures stack == [] ==> x == v
    ensures stack != [] ==> v < x
    decreases |stack|
  {
    if stack != [] {
      var below, top := stack[..|stack| - 1], stack[|stack| - 1];
      var w := Array(top.elems + [v]);
      assert w.elems[|top.elems|] == v;
      DeliverWraps(below, w, x);
    }
  }

  /**
   * A parser that stopped at an error starts again with the arrays that were open
   * there.  The next complete reply is then reported as it is if and only if
   * there were none; otherwise it vanishes into the innermost one, or comes out
   * as an element of the array that it completes.
   */
  lemma ReportedIff(stack: seq<Frame>, r: Reply)
    requires WellFormed(r)
    ensures var next := Run(Config(Begin, stack), Encode(r), 0);
      && (next == Completed(|Encode(r)|, Meaning(r)) <==> stack == [])
      && next == Resume(Deliver(stack, Meaning(r)), stack, Encode(r), |Encode(r)|)
  {
    hide Deliver, Encode, Meaning, ReadReply, WellFormed;
    var s := Encode(r);
    assert s[0..|s|] == s;
    ReadsEncoding(r, s, 0);
    ReplyRefines(s, 0, stack);
    var o := Deliver(stack, Meaning(r));
    if o.Done? {
      DeliverWraps(stack, Meaning(r), o.value);
    } else {
      assert stack != [] by { DeliveredAtOnce(Meaning(r)); }
    }
  }

  lemma DeliveredAtOnce(v: Value)
    ensures Deliver([], v) == Done(v)
  {
  }

  /** The error left the parser as the source does: at the start state, its open arrays kept. */
  lemma {:induction false} FailedAtStart(cfg: Config, s: seq<Byte>, pos: nat)
    requires pos <= |s|
    ensures Run(cfg, s, pos).Failed? ==> Run(cfg, s, pos).cfg.mode == Begin
    decreases |s| - pos
  {
    hide Step;
    if pos < |s| {
      match Step(cfg, s[pos])
      case More(cfg') => FailedAtStart(cfg', s, pos + 1);
      case Done(_) =>
      case Fail =>
    }
  }

  /** The reply after an error is reported if and only if the error was outside all arrays. */
  lemma ReportedAfterErrorIff(s: seq<Byte>, r: Reply)
    requires Run(IDLE, s, 0).Failed? && WellFormed(r)
    ensures var after := Run(IDLE, s, 0).cfg;
      Run(after, Encode(r), 0) == Completed(|Encode(r)|, Meaning(r)) <==> after.stack == []
  {
    hide Run, Encode, Meaning, WellFormed;
    FailedAtStart(IDLE, s, 0);
    ReportedIff(Run(IDLE, s, 0).cfg.stack, r);
  }

  /**
   * "*2 !" and "*1 !" (with CR LF behind the count) fail inside an array.  After
   * the first the next reply is swallowed; after the second it is delivered, but
   * as an array around it.
   */
  lemma SwallowedAfterError(r: Reply)
    requires WellFormed(r)
    ensures var two := Run(IDLE, [STAR, 50, CR, LF, 33], 0);
      two == Failed(5, Config(Begin, [Frame(2, [], 2)]))
      && Run(two.cfg, Encode(r), 0) == Incompleted(Config(Begin, [Frame(1, [Meaning(r)], 2)]))
    ensures var one := Run(IDLE, [STAR, 49, CR, LF, 33], 0);
      one == Failed(5, Config(Begin, [Frame(1, [], 1)]))
      && Run(one.cfg, Encode(r), 0) == Completed(|Encode(r)|, Array([Meaning(r)]))
  {
    ArrayOpened(50);
    ArrayOpened(49);
    hide Run, Encode, Meaning, WellFormed;
    ReportedIff([Frame(2, [], 2)], r);
    ReportedIff([Frame(1, [], 1)], r);
    Delivered(Meaning(r));
  }

  lemma Delivered(v: Value)
    ensures Deliver([Frame(2, [], 2)], v) == More(Config(Begin, [Frame(1, [v], 2)]))
    ensures Deliver([Frame(1, [], 1)], v) == Done(Array([v]))
  {
    assert [Frame(2, [], 2)][..0] == [] && [Frame(1, [], 1)][..0] == [];
    assert [] + [v] == [v];
  }

  lemma OneDigit(d: Byte)
    requires 49 <= d <= 57
    ensures TextToLong([d]) == d - 48
  {
    assert [d][..0] == [] && Accumulate([d]) == d - 48;
  }

  /** An array is opened and the next byte cannot start a reply. */
  lemma ArrayOpened(d: Byte)
    requires 49 <= d <= 57
    ensures Run(IDLE, [STAR, d, CR, LF, 33], 0) == Failed(5, Config(Begin, [Frame(d - 48, [], d - 48)]))
  {
    hide Run, Deliver, TextToLong;
    var s := [STAR, d, CR, LF, 33];
    var open := Config(Begin, [Frame(d - 48, [], d - 48)]);
    OneDigit(d);
    assert [] + [d] == [d];
    RunMoves(IDLE, s, 0, Config(Number(ArraySizeRole, []), []));
    RunMoves(Config(Number(ArraySizeRole, []), []), s, 1, Config(Number(ArraySizeRole, [d]), []));
    RunMoves(Config(Number(ArraySizeRole, [d]), []), s, 2, Config(NumberLF(ArraySizeRole, [d]), []));
    RunMoves(Config(NumberLF(ArraySizeRole, [d]), []), s, 3, open);
    RunStep(open, s, 4);
  }
}
