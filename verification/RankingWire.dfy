/**
 * The wire format of a ranking, `{word,n};{word,n};...{}`, as the trainer writes
 * it and as the server takes it apart.
 */
module RankingWire {
  import opened Bytes
  import opened RespProtocol
  import opened WordBuckets

  const OPEN: Byte := 123
  const CLOSE: Byte := 125
  const SEMICOLON: Byte := 59
  const COMMA: Byte := 44

  /** The largest `int`. */
  const INT_MAX: int := 0x7FFF_FFFF

  const BRACES: set<Byte> := {OPEN, CLOSE, SEMICOLON}

  // ------------------------------------------------------------- writing

  function Body(e: Entry): seq<Byte>
    requires e.counter >= 0
  {
    e.word + [COMMA] + Digits(e.counter)
  }

  function Format(e: Entry): seq<Byte>
    requires e.counter >= 0
  {
    [OPEN] + Body(e) + [CLOSE, SEMICOLON]
  }

  predicate NonNegative(es: seq<Entry>) {
    forall k :: 0 <= k < |es| ==> es[k].counter >= 0
  }

  /** The entries written one behind the other, from number `k` on. */
  function Formats(es: seq<Entry>): seq<Byte>
    requires NonNegative(es)
  {
    if es == [] then [] else Format(es[0]) + Formats(es[1..])
  }

  function BatchText(es: seq<Entry>): seq<Byte>
    requires NonNegative(es)
  {
    Formats(es) + [OPEN, CLOSE]
  }

  /** A batch is sent when the counter, which starts at 1, reaches a multiple of 256. */
  function Room(k: nat): nat {
    if k == 0 then 255 else 256
  }

  /** The entries in order, in batches that are full except for the last, which is not empty. */
  predicate IsBatching(gs: seq<seq<Entry>>, es: seq<Entry>) {
    && Join(gs) == es
    && (forall k :: 0 <= k < |gs| ==> 0 < |gs[k]| <= Room(k))
    && (forall k :: 0 <= k < |gs| - 1 ==> |gs[k]| == Room(k))
  }

  /** The loop's state: full batches, and behind them the entries not yet sent. */
  predicate Batching(gs: seq<seq<Entry>>, pending: seq<Entry>, es: seq<Entry>, counter: int) {
    && Join(gs) + pending == es
    && (forall k :: 0 <= k < |gs| ==> |gs[k]| == Room(k))
    && |pending| < Room(|gs|)
    && counter == |pending| + (if gs == [] then 1 else 256 * |gs|)
  }

  lemma BatchingNext(gs: seq<seq<Entry>>, pending: seq<Entry>, es: seq<Entry>, counter: int, e: Entry)
    requires Batching(gs, pending, es, counter)
    ensures (counter + 1) % 256 == 0 <==> |pending| + 1 == Room(|gs|)
    ensures if (counter + 1) % 256 == 0 then Batching(gs + [pending + [e]], [], es + [e], counter + 1)
      else Batching(gs, pending + [e], es + [e], counter + 1)
  {
    JoinSnoc(gs, pending + [e]);
    assert Join(gs) + (pending + [e]) == es + [e];
    assert es + [e] + [] == es + [e];
  }

  lemma BatchingDone(gs: seq<seq<Entry>>, pending: seq<Entry>, es: seq<Entry>, counter: int)
    requires Batching(gs, pending, es, counter)
    ensures IsBatching(if pending == [] then gs else gs + [pending], es)
  {
    JoinSnoc(gs, pending);
    assert pending == [] ==> Join(gs) + pending == Join(gs);
  }

  // ------------------------------------------------------------- splitting

  /** How many bytes come before the first delimiter. */
  function Token(s: seq<Byte>, delims: set<Byte>): (n: nat)
    ensures n <= |s|
    ensures forall k :: 0 <= k < n ==> s[k] !in delims
    ensures n < |s| ==> s[n] in delims
  {
    if s == [] || s[0] in delims then 0 else 1 + Token(s[1..], delims)
  }

  /** How many delimiters the string starts with. */
  function Run(s: seq<Byte>, delims: set<Byte>): (n: nat)
    ensures n <= |s|
    ensures forall k :: 0 <= k < n ==> s[k] in delims
    ensures n < |s| ==> s[n] !in delims
  {
    if s == [] || s[0] !in delims then 0 else 1 + Run(s[1..], delims)
  }

  /** `boost::split` on any of the delimiters, with `token_compress_on`: runs of them separate. */
  function Split(s: seq<Byte>, delims: set<Byte>): seq<seq<Byte>>
    decreases |s|
  {
    var n := Token(s, delims);
    if n == |s| then [s] else [s[..n]] + Split(s[n + Run(s[n..], delims)..], delims)
  }

  predicate Free(s: seq<Byte>, delims: set<Byte>) {
    forall k :: 0 <= k < |s| ==> s[k] !in delims
  }

  lemma SplitFree(s: seq<Byte>, delims: set<Byte>)
    requires Free(s, delims)
    ensures Split(s, delims) == [s]
  {
  }

  lemma TokenIs(a: seq<Byte>, rest: seq<Byte>, delims: set<Byte>)
    requires Free(a, delims) && rest != [] && rest[0] in delims
    ensures Token(a + rest, delims) == |a|
  {
    assert (a + rest)[|a|] == rest[0];
    assert forall k :: 0 <= k < |a| ==> (a + rest)[k] == a[k];
  }

  lemma RunIs(run: seq<Byte>, b: seq<Byte>, delims: set<Byte>)
    requires forall k :: 0 <= k < |run| ==> run[k] in delims
    requires b != [] ==> b[0] !in delims
    ensures Run(run + b, delims) == |run|
  {
    assert forall k :: 0 <= k < |run| ==> (run + b)[k] == run[k];
    assert b != [] ==> (run + b)[|run|] == b[0];
  }

  /** A token, a run of delimiters, and something that does not start with one. */
  lemma SplitAt(a: seq<Byte>, run: seq<Byte>, b: seq<Byte>, delims: set<Byte>)
    requires Free(a, delims) && run != [] && forall k :: 0 <= k < |run| ==> run[k] in delims
    requires b != [] ==> b[0] !in delims
    ensures Split(a + run + b, delims) == [a] + Split(b, delims)
  {
    hide Token, Run;
    var s := a + run + b;
    assert s == a + (run + b) && s[|a|..] == run + b;
    TokenIs(a, run + b, delims);
    RunIs(run, b, delims);
    assert s[..|a|] == a && s[|a| + |run|..] == b;
  }

  /** No token holds a delimiter, nor a byte the string does not have. */
  lemma {:induction false} SplitTokens(s: seq<Byte>, delims: set<Byte>, t: seq<Byte>)
    requires t in Split(s, delims)
    ensures Free(t, delims) && forall k :: 0 <= k < |t| ==> t[k] in s
    decreases |s|
  {
    hide Token, Run;
    var n := Token(s, delims);
    if n < |s| && t != s[..n] {
      var rest := s[n + Run(s[n..], delims)..];
      assert t in Split(rest, delims);
      SplitTokens(rest, delims, t);
    }
  }

  // ------------------------------------------------------------- reading

  /** `std::stoi`: the number, or an exception. */
  datatype Parsed = Number(value: int) | Thrown

  predicate IsSpace(c: Byte) {
    c == 32 || 9 <= c <= 13
  }

  function SkipSpaces(s: seq<Byte>): seq<Byte> {
    if s != [] && IsSpace(s[0]) then SkipSpaces(s[1..]) else s
  }

  function DigitPrefix(s: seq<Byte>): (n: nat)
    ensures n <= |s|
  {
    if s == [] || !IsDigit(s[0]) then 0 else 1 + DigitPrefix(s[1..])
  }

  /** Spaces, a sign, digits; what follows is ignored. */
  function Stoi(text: seq<Byte>): Parsed {
    var s := SkipSpaces(text);
    var negative := s != [] && s[0] == DASH;
    var signed := s != [] && (s[0] == DASH || s[0] == 43);
    var t := if signed then s[1..] else s;
    var n := DigitPrefix(t);
    var value := if negative then -Accumulate(t[..n]) else Accumulate(t[..n]);
    if n == 0 || !(-INT_MAX - 1 <= value <= INT_MAX) then Thrown else Number(value)
  }

  lemma {:induction false} AllDigitPrefix(s: seq<Byte>)
    requires forall k :: 0 <= k < |s| ==> IsDigit(s[k])
    ensures DigitPrefix(s) == |s|
  {
    if s != [] {
      AllDigitPrefix(s[1..]);
    }
  }

  /** `stoi` reads back what `to_string` wrote. */
  lemma StoiInverts(n: nat)
    requires n <= INT_MAX
    ensures Stoi(Digits(n)) == Number(n)
  {
    AllDigitPrefix(Digits(n));
    AccumulateDigits(n);
    assert Digits(n)[..|Digits(n)|] == Digits(n);
  }

  /** What one token of a ranking calls the handler with: nothing, or one word. */
  function TokenCall(wordPair: seq<Byte>): seq<Entry> {
    var listWords := Split(wordPair, {COMMA});
    if wordPair == [] || |listWords| != 2 then []
    else
      var counter := Stoi(listWords[1]);
      if counter.Number? && counter.value > 0 then [Entry(listWords[0], counter.value)] else []
  }

  /** The calls for all tokens, in order. */
  function Calls(tokens: seq<seq<Byte>>): seq<Entry> {
    if tokens == [] then [] else Calls(tokens[..|tokens| - 1]) + TokenCall(tokens[|tokens| - 1])
  }

  /** The calls for several texts. */
  function AllCalls(texts: seq<seq<Byte>>): seq<Entry> {
    if texts == [] then []
    else AllCalls(texts[..|texts| - 1]) + Calls(Split(texts[|texts| - 1], BRACES))
  }

  /** `eachWord`: calls the handler for every well-formed pair with a positive counter. */
  method EachWord(word: seq<Byte>) returns (calls: seq<Entry>)
    ensures calls == Calls(Split(word, BRACES))
  {
    hide Split, TokenCall;
    var listString := Split(word, BRACES);
    calls := [];
    var i := 0;
    while i < |listString|
      invariant 0 <= i <= |listString|
      invariant calls == Calls(listString[..i])
    {
      assert listString[..i + 1][..i] == listString[..i];
      var wordPair := listString[i];
      var call := OnePair(wordPair);
      calls := calls + call;
      i := i + 1;
    }
    assert listString[..i] == listString;
  }

  method OnePair(wordPair: seq<Byte>) returns (calls: seq<Entry>)
    ensures calls == TokenCall(wordPair)
  {
    hide Split, Stoi;
    calls := [];
    if wordPair != [] {
      var listWords := Split(wordPair, {COMMA});
      if |listWords| == 2 {
        var key, val := listWords[0], listWords[1];
        var counter := Stoi(val);
        match counter
        case Number(value) =>
          if value > 0 {
            calls := [Entry(key, value)];
          }
        case Thrown =>
      }
    }
  }

  // ---------------------------------------------------------- round trip

  /** No delimiter occurs in the word. */
  predicate Clean(w: Word) {
    Free(w, BRACES) && COMMA !in w
  }

  predicate InRange(es: seq<Entry>) {
    forall k :: 0 <= k < |es| ==> 0 < es[k].counter <= INT_MAX
  }

  predicate AllClean(es: seq<Entry>) {
    forall k :: 0 <= k < |es| ==> Clean(es[k].word)
  }

  function Bodies(es: seq<Entry>): seq<seq<Byte>>
    requires NonNegative(es)
  {
    if es == [] then [] else [Body(es[0])] + Bodies(es[1..])
  }

  lemma BodyIsToken(e: Entry)
    requires Clean(e.word) && 0 < e.counter <= INT_MAX
    ensures Body(e) != [] && Free(Body(e), BRACES)
    ensures TokenCall(Body(e)) == [e]
  {
    hide Split, Stoi, Digits;
    var n := Digits(e.counter);
    assert Free(n, {COMMA}) && Free(n, BRACES);
    SplitAt(e.word, [COMMA], n, {COMMA});
    SplitFree(n, {COMMA});
    StoiInverts(e.counter);
    assert Split(Body(e), {COMMA}) == [e.word, n];
  }

  /** What follows a token of a batch: the delimiters up to the next entry. */
  lemma {:induction false} SplitBatch(a: seq<Byte>, run: seq<Byte>, es: seq<Entry>)
    requires InRange(es) && AllClean(es)
    requires Free(a, BRACES) && forall k :: 0 <= k < |run| ==> run[k] in BRACES
    ensures Split(a + run + BatchText(es), BRACES) == [a] + Bodies(es) + [[]]
    decreases |es|
  {
    hide Split, Digits, TokenCall, Clean;
    if es == [] {
      assert a + run + BatchText(es) == a + (run + [OPEN, CLOSE]) + [];
      SplitAt(a, run + [OPEN, CLOSE], [], BRACES);
      SplitFree([], BRACES);
    } else {
      var e, rest := es[0], es[1..];
      BodyIsToken(e);
      var b := Body(e) + [CLOSE, SEMICOLON] + BatchText(rest);
      assert a + run + BatchText(es) == a + (run + [OPEN]) + b;
      hide Body, BatchText;
      SplitAt(a, run + [OPEN], b, BRACES);
      SplitBatch(Body(e), [CLOSE, SEMICOLON], rest);
      assert [a] + Bodies(es) + [[]] == [a] + ([Body(e)] + Bodies(rest) + [[]]);
    }
  }

  lemma {:induction false} CallsAppend(a: seq<seq<Byte>>, b: seq<seq<Byte>>)
    ensures Calls(a + b) == Calls(a) + Calls(b)
    decreases |b|
  {
    hide TokenCall, Split;
    if b == [] {
      assert a + b == a;
    } else {
      var most := b[..|b| - 1];
      assert (a + b)[..|a + b| - 1] == a + most;
      CallsAppend(a, most);
    }
  }

  lemma {:induction false} CallsOfBodies(es: seq<Entry>)
    requires InRange(es) && AllClean(es)
    ensures Calls(Bodies(es)) == es
  {
    hide Digits, TokenCall;
    if es != [] {
      BodyIsToken(es[0]);
      CallsOfBodies(es[1..]);
      CallsAppend([Body(es[0])], Bodies(es[1..]));
      assert [Body(es[0])][..0] == [];
    }
  }

  /** The server reads a batch of clean words exactly as it was written. */
  lemma BatchRoundTrip(es: seq<Entry>)
    requires InRange(es) && AllClean(es)
    ensures Calls(Split(BatchText(es), BRACES)) == es
  {
    hide Digits, BatchText, Split, Calls, Bodies, Clean;
    assert [] + [] + BatchText(es) == BatchText(es);
    SplitBatch([], [], es);
    NoCall();
    CallsAppend([[]], Bodies(es));
    CallsAppend([[]] + Bodies(es), [[]]);
    CallsOfBodies(es);
  }

  lemma NoCall()
    ensures Calls([[]]) == []
  {
    var one: seq<seq<Byte>> := [[]];
    assert one[..0] == [] && TokenCall([]) == [];
  }

  /** Whatever the text, a word that reaches the handler holds no delimiter. */
  lemma {:induction false} CallsAreClean(s: seq<Byte>, tokens: seq<seq<Byte>>)
    requires forall t :: t in tokens ==> t in Split(s, BRACES)
    ensures AllClean(Calls(tokens))
  {
    hide Split, Stoi;
    if tokens != [] {
      CallsAreClean(s, tokens[..|tokens| - 1]);
      var t := tokens[|tokens| - 1];
      SplitTokens(s, BRACES, t);
      var parts := Split(t, {COMMA});
      if |parts| == 2 {
        SplitTokens(t, {COMMA}, parts[0]);
        assert Clean(parts[0]);
      }
    }
  }

  lemma {:induction false} AllCallsAreClean(texts: seq<seq<Byte>>)
    ensures AllClean(AllCalls(texts))
  {
    if texts != [] {
      AllCallsAreClean(texts[..|texts| - 1]);
      CallsAreClean(texts[|texts| - 1], Split(texts[|texts| - 1], BRACES));
    }
  }

  /** The batches as they are sent. */
  function BatchTexts(gs: seq<seq<Entry>>): (texts: seq<seq<Byte>>)
    requires forall k :: 0 <= k < |gs| ==> NonNegative(gs[k])
  {
    if gs == [] then [] else BatchTexts(gs[..|gs| - 1]) + [BatchText(gs[|gs| - 1])]
  }

  lemma {:induction false} BatchesRoundTrip(gs: seq<seq<Entry>>)
    requires forall k :: 0 <= k < |gs| ==> InRange(gs[k]) && AllClean(gs[k])
    ensures forall k :: 0 <= k < |gs| ==> NonNegative(gs[k])
    ensures AllCalls(BatchTexts(gs)) == Join(gs)
  {
    hide Split, BatchText, Calls;
    if gs != [] {
      var most, last := gs[..|gs| - 1], gs[|gs| - 1];
      BatchesRoundTrip(most);
      BatchRoundTrip(last);
      JoinSnoc(most, last);
      assert gs == most + [last];
      assert BatchTexts(gs)[..|BatchTexts(gs)| - 1] == BatchTexts(most);
    }
  }

  /**
   * However the entries are cut into batches, the server reads back exactly the
   * entries, in order, if and only if no word contains one of `{ } ; ,`.
   */
  lemma WireRoundTrip(gs: seq<seq<Entry>>, es: seq<Entry>)
    requires Join(gs) == es && InRange(es)
    ensures forall k :: 0 <= k < |gs| ==> NonNegative(gs[k])
    ensures AllCalls(BatchTexts(gs)) == es <==> AllClean(es)
  {
    hide BatchText, Calls, Clean;
    forall k | 0 <= k < |gs| ensures InRange(gs[k]) && (AllClean(es) ==> AllClean(gs[k])) {
      forall i | 0 <= i < |gs[k]| ensures gs[k][i] in es {
        PartOfJoin(gs, k, gs[k][i]);
      }
    }
    AllCallsAreClean(BatchTexts(gs));
    if AllClean(es) {
      BatchesRoundTrip(gs);
    }
  }
}
