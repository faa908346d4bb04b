/**
 * RESP keeps only CR and LF out of simple strings and errors, and the parser
 * every other control character and every byte above 127 as well.  What becomes
 * of the replies in between.
 */
module LegalReplies {
  import opened Bytes
  import opened RespProtocol
  import opened RespReader
  import opened RespMachine
  import opened RespRefinement
  import opened RespStream

  /** Text ends for the reader at its first byte that is not printable. */
  lemma ReadsUnprintableText(s: seq<Byte>, pos: nat, t: seq<Byte>)
    requires At(s, pos, t + CRLF) && LegalText(t) && !PrintableText(t)
    ensures ReadText(Printable, s, pos).Bad?
  {
    AtSplit(s, pos, t, CRLF);
    var i :| 0 <= i < |t| && !IsPrintable(t[i]);
    assert s[pos + i] == s[pos..pos + |t|][i];
    var e := SpanEnd(Printable, s, pos);
    assert e <= pos + i;
    assert s[e] == s[pos..pos + |t|][e - pos];
  }

  lemma ReadsUnprintableLine(s: seq<Byte>, pos: nat, lead: Byte, t: seq<Byte>)
    requires LeadOf(lead).LineLead? && LegalText(t) && !PrintableText(t)
    requires At(s, pos, [lead] + t + CRLF)
    ensures ReadReply(s, pos).Bad?
  {
    hide ReadText, LegalText, PrintableText;
    assert [lead] + t + CRLF == [lead] + (t + CRLF);
    AtSplit(s, pos, [lead], t + CRLF);
    assert s[pos] == s[pos..pos + 1][0];
    ReadsUnprintableText(s, pos + 1, t);
  }

  /** Wherever a legal reply stands whose lines are not printable, reading there is an error. */
  lemma {:induction false} ReadsUnprintable(r: Reply, s: seq<Byte>, pos: nat)
    requires Legal(r) && NumbersConvert(r) && !PrintableLines(r)
    requires At(s, pos, Encode(r))
    ensures ReadReply(s, pos).Bad?
    decreases r, 1
  {
    hide IntText, TextToLong, ReadReply, ReadText, ReadMany, At, Converts;
    match r
    case Simple(t) => ReadsUnprintableLine(s, pos, PLUS, t);
    case Error(t) => ReadsUnprintableLine(s, pos, DASH, t);
    case Multi(items) =>
      ReadsNumber(s, pos, STAR, |items|, EncodeAll(items));
      ReadsUnprintables(items, s, pos + |IntText(|items|)| + 3);
  }

  lemma {:induction false} ReadsUnprintables(rs: seq<Reply>, s: seq<Byte>, pos: nat)
    requires forall i :: 0 <= i < |rs| ==> Legal(rs[i]) && NumbersConvert(rs[i])
    requires exists i :: 0 <= i < |rs| && !PrintableLines(rs[i])
    requires At(s, pos, EncodeAll(rs))
    ensures ReadMany(s, pos, |rs|).Bad?
    decreases rs, 0
  {
    hide ReadReply, At, Encode, Meaning, Legal, NumbersConvert, PrintableLines, WellFormed;
    AtSplit(s, pos, Encode(rs[0]), EncodeAll(rs[1..]));
    if PrintableLines(rs[0]) {
      WellFormedIff(rs[0]);
      ReadsEncoding(rs[0], s, pos);
      var i :| 0 <= i < |rs| && !PrintableLines(rs[i]);
      assert rs[1..][i - 1] == rs[i];
      ReadsUnprintables(rs[1..], s, pos + |Encode(rs[0])|);
    } else {
      ReadsUnprintable(rs[0], s, pos);
    }
  }

  /**
   * Of the legal replies the parser reads exactly those whose lines are
   * printable, and every other one is a protocol error: in whatever arrays it
   * stands, and whatever comes before and after it.
   */
  lemma LegalReadIff(r: Reply, before: seq<Byte>, after: seq<Byte>, stack: seq<Frame>)
    requires Legal(r) && NumbersConvert(r)
    ensures var s := before + Encode(r) + after;
      var next := |before| + |Encode(r)|;
      var p := Run(Config(Begin, stack), s, |before|);
      && (PrintableLines(r) ==> p == Resume(Deliver(stack, Meaning(r)), stack, s, next))
      && (!PrintableLines(r) ==> p.Failed? && p.next <= |s|)
  {
    hide Run, ReadReply, Encode, Meaning, Legal, NumbersConvert, PrintableLines, WellFormed, Deliver;
    var s := before + Encode(r) + after;
    assert s[|before|..|before| + |Encode(r)|] == Encode(r);
    ReplyRefines(s, |before|, stack);
    if PrintableLines(r) {
      WellFormedIff(r);
      ReadsEncoding(r, s, |before|);
    } else {
      ReadsUnprintable(r, s, |before|);
    }
  }

  /** The round trip of the idle parser, on all the replies that RESP allows. */
  lemma LegalRoundTripIff(r: Reply, before: seq<Byte>, after: seq<Byte>)
    requires Legal(r) && NumbersConvert(r)
    ensures var p := Run(IDLE, before + Encode(r) + after, |before|);
      && (p == Completed(|before| + |Encode(r)|, Meaning(r)) <==> PrintableLines(r))
      && (p.Failed? <==> !PrintableLines(r))
  {
    hide Run, Encode, Meaning, Legal, NumbersConvert, PrintableLines;
    LegalReadIff(r, before, after, []);
  }

  /** The replies in front of the first one that the parser cannot read. */
  function Readable(rs: seq<Reply>): (k: nat)
    ensures k <= |rs|
    ensures forall i :: 0 <= i < k ==> PrintableLines(rs[i])
    ensures k < |rs| ==> !PrintableLines(rs[k])
  {
    if rs == [] || !PrintableLines(rs[0]) then 0 else 1 + Readable(rs[1..])
  }

  /**
   * A stream of legal replies is decoded up to the first one with a line that is
   * not printable, and there the stream breaks.
   */
  lemma {:induction false} LegalStream(rs: seq<Reply>)
    requires forall i :: 0 <= i < |rs| ==> Legal(rs[i]) && NumbersConvert(rs[i])
    ensures var st, k := Replies(IDLE, EncodeAll(rs), 0), Readable(rs);
      && st.values == Meanings(rs[..k])
      && (if k == |rs| then st.tail == Open(IDLE) else st.tail.Broken?)
  {
    hide Run, Encode, Meaning, Legal, NumbersConvert, PrintableLines;
    if rs == [] {
      NoReplies();
    } else {
      var a, b := Encode(rs[0]), EncodeAll(rs[1..]);
      LegalRoundTripIff(rs[0], [], b);
      assert [] + a + b == a + b;
      if PrintableLines(rs[0]) {
        LegalStream(rs[1..]);
        assert (a + b)[|a|..] == b[0..];
        RepliesShift(IDLE, a + b, |a|, b, 0);
        assert rs[..Readable(rs)][1..] == rs[1..][..Readable(rs[1..])];
      }
    }
  }

  lemma NoReplies()
    ensures Replies(IDLE, [], 0) == Stream([], Open(IDLE))
  {
  }

  lemma {:induction false} TextFails(e: bool, b: seq<Byte>, s: seq<Byte>, p: nat, q: nat, stack: seq<Frame>)
    requires p <= q < |s| && (forall k :: p <= k < q ==> IsPrintable(s[k]))
    requires !IsPrintable(s[q]) && s[q] != CR
    ensures Run(Config(Text(e, b), stack), s, p) == Failed(q + 1, Config(Begin, stack))
    decreases q - p
  {
    if p < q {
      TextFails(e, b + [s[p]], s, p + 1, q, stack);
      RunMoves(Config(Text(e, b), stack), s, p, Config(Text(e, b + [s[p]]), stack));
    }
  }

  /** A line is rejected at its first byte that is not printable, and the open arrays stay open. */
  lemma LineFails(lead: Byte, t: seq<Byte>, i: nat, stack: seq<Frame>)
    requires LeadOf(lead).LineLead? && LegalText(t)
    requires i < |t| && PrintableText(t[..i]) && !IsPrintable(t[i])
    ensures Run(Config(Begin, stack), [lead] + t + CRLF, 0) == Failed(i + 2, Config(Begin, stack))
  {
    var s := [lead] + t + CRLF;
    forall k | 1 <= k < i + 1 ensures IsPrintable(s[k]) {
      assert s[k] == t[..i][k - 1];
    }
    TextFails(LeadOf(lead).isError, [], s, 1, i + 1, stack);
    RunMoves(Config(Begin, stack), s, 0, Config(Text(LeadOf(lead).isError, []), stack));
  }

  // "ERR " and an e with an acute accent in UTF-8.
  const ACCENTED: seq<Byte> := [69, 82, 82, 32, 0xC3, 0xA9]

  /** A legal error reply that the parser rejects at its sixth byte. */
  lemma UnprintableError(stack: seq<Frame>)
    ensures Legal(Error(ACCENTED)) && NumbersConvert(Error(ACCENTED)) && !PrintableLines(Error(ACCENTED))
    ensures Encode(Error(ACCENTED)) == [DASH] + ACCENTED + CRLF
    ensures Run(Config(Begin, stack), Encode(Error(ACCENTED)), 0) == Failed(6, Config(Begin, stack))
  {
    assert !IsPrintable(ACCENTED[4]);
    LineFails(DASH, ACCENTED, 4, stack);
  }

  /** RESP also allows a plus sign in front of an integer; the parser rejects it. */
  lemma PlusSignFails(t: seq<Byte>, stack: seq<Frame>)
    ensures Run(Config(Begin, stack), [COLON, PLUS] + t, 0) == Failed(2, Config(Begin, stack))
  {
    var s := [COLON, PLUS] + t;
    RunMoves(Config(Begin, stack), s, 0, Config(Number(IntegerRole, []), stack));
    RunStep(Config(Number(IntegerRole, []), stack), s, 1);
  }
}
