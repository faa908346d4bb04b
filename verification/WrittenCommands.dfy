/**
 * Which replies reach the handlers of their own commands when writes can fail.
 * The server can answer a command only once it was written, and answers in the
 * order of the writes; the client matches replies with commands as issued.
 */
module WrittenCommands {
  import opened Bytes
  import opened RespProtocol
  import opened RespMachine
  import opened RespRefinement
  import opened RespStream
  import opened AsyncClient

  /** The numbers `from`, `from + 1`, and so on. */
  function Numbers(from: int, n: nat): (r: seq<int>)
    ensures |r| == n
  {
    seq(n, i requires 0 <= i < n => from + i)
  }

  /** The numbers of the commands that are being written. */
  function InFlight(v: View): (r: seq<int>)
    ensures |r| == |v.writed|
  {
    Numbers(|v.sent| - |v.writed|, |v.writed|)
  }

  /** The commands whose write ended without an error, by number and in order. */
  function Answerable(es: seq<Event>): seq<int> {
    if es == [] then []
    else
      var before := es[..|es| - 1];
      Answerable(before) + (if es[|es| - 1] == WriteDone then InFlight(Exec(before)) else [])
  }

  lemma AnswerableNext(es: seq<Event>, e: Event)
    ensures Answerable(es + [e]) == Answerable(es) + if e == WriteDone then InFlight(Exec(es)) else []
  {
    hide Exec;
    assert (es + [e])[..|es|] == es;
  }

  lemma RunNext(es: seq<Event>, e: Event)
    requires Possible(es + [e])
    ensures Possible(es) && Enabled(Exec(es), e) && Exec(es + [e]) == Next(Exec(es), e)
  {
    assert (es + [e])[..|es|] == es;
  }

  predicate Ends(e: Event) {
    e == WriteDone || e == WriteFailed
  }

  /** What one event does to the number of buffers whose write has ended. */
  lemma EndedNext(u: View, e: Event)
    requires PumpOk(u) && Enabled(u, e)
    ensures var v := Next(u, e);
      |v.sent| - |v.writed| == |u.sent| - |u.writed| + if Ends(e) then |u.writed| else 0
    ensures Ends(e) ==> |u.writed| > 0
  {
    hide Replies, Feed;
  }

  /** Every command whose write has ended is answerable if and only if no write failed. */
  lemma {:induction false} AllAnswerableIff(es: seq<Event>)
    requires Possible(es)
    ensures PumpOk(Exec(es))
    ensures var ended := |Exec(es).sent| - |Exec(es).writed|;
      |Answerable(es)| <= ended && (|Answerable(es)| == ended <==> WriteFailed !in es)
  {
    if es == [] {
      assert Answerable([]) == [];
    } else {
      hide Next, Enabled, Exec, PumpOk, Answerable, InFlight, Possible, Commands;
      var before, e := es[..|es| - 1], es[|es| - 1];
      assert es == before + [e];
      RunNext(before, e);
      WritePump(es);
      AllAnswerableIff(before);
      AnswerableNext(before, e);
      EndedNext(Exec(before), e);
    }
  }

  /** The write that ends after the run `es`: its commands keep their numbers if and only if no write failed before. */
  lemma BatchIff(es: seq<Event>, j: nat)
    requires Possible(es) && |Answerable(es)| <= j < |Answerable(es + [WriteDone])|
    ensures Answerable(es + [WriteDone])[j] == j <==> WriteFailed !in es
    ensures Answerable(es + [WriteDone])[j] >= j
  {
    hide Exec, Possible, Answerable;
    AnswerableNext(es, WriteDone);
    AllAnswerableIff(es);
  }

  lemma {:induction false} PossiblePrefix(es: seq<Event>, i: nat)
    requires Possible(es) && i <= |es|
    ensures Possible(es[..i])
  {
    hide Enabled, Exec;
    if i < |es| {
      PossiblePrefix(es[..|es| - 1], i);
      assert es[..|es| - 1][..i] == es[..i];
    } else {
      assert es[..i] == es;
    }
  }

  /** Event `i` ends the write of the command that answer number `j` is for. */
  predicate WrittenAt(es: seq<Event>, i: nat, j: nat) {
    i < |es| && es[i] == WriteDone && |Answerable(es[..i])| <= j < |Answerable(es[..i + 1])|
  }

  /**
   * Answer number `j` of the server is for command number `Answerable(es)[j]`
   * and reaches the handler of command number `j`.  The two are the same if and
   * only if no write failed before that command was written; otherwise the
   * handler is that of an earlier command.
   */
  lemma {:induction false} OwnHandlerIff(es: seq<Event>, j: nat) returns (i: nat)
    requires Possible(es) && j < |Answerable(es)|
    ensures WrittenAt(es, i, j)
    ensures Answerable(es)[j] >= j
    ensures Answerable(es)[j] == j <==> WriteFailed !in es[..i]
  {
    hide Exec, Possible, Answerable, InFlight, Enabled, Next;
    assert es != [] by { NothingAnswerable(); }
    var before, e := es[..|es| - 1], es[|es| - 1];
    assert es == before + [e];
    RunNext(before, e);
    AnswerableNext(before, e);
    if j < |Answerable(before)| {
      i := OwnHandlerIff(before, j);
      assert es[..i] == before[..i] && es[..i + 1] == before[..i + 1];
    } else {
      i := |before|;
      assert es[..i] == before && es[..i + 1] == es;
      BatchIff(before, j);
    }
  }

  lemma NothingAnswerable()
    ensures Answerable([]) == []
  {
  }

  /** No write succeeds after one that failed. */
  predicate NoWriteAfterFailure(es: seq<Event>) {
    forall i, k :: 0 <= i < k < |es| && es[i] == WriteFailed ==> es[k] != WriteDone
  }

  lemma {:induction false} AnsweredBy(es: seq<Event>, i: nat)
    requires Possible(es) && i < |es| && es[i] == WriteDone
    ensures |Answerable(es[..i])| < |Answerable(es[..i + 1])| <= |Answerable(es)|
    ensures Answerable(es[..i + 1]) <= Answerable(es)
  {
    hide Exec, Possible, Answerable, InFlight, Enabled, PumpOk, Commands;
    var before, e := es[..|es| - 1], es[|es| - 1];
    assert es == before + [e];
    RunNext(before, e);
    AnswerableNext(before, e);
    if i < |before| {
      AnsweredBy(before, i);
      assert es[..i] == before[..i] && es[..i + 1] == before[..i + 1];
    } else {
      assert es[..i] == before && es[..i + 1] == es;
      AllAnswerableIff(before);
      EndedNext(Exec(before), e);
    }
  }

  /** Over whole runs: all answers reach their own handlers if and only if no write succeeds after a failed one. */
  lemma AllOwnHandlersIff(es: seq<Event>)
    requires Possible(es)
    ensures (forall j :: 0 <= j < |Answerable(es)| ==> Answerable(es)[j] == j) <==> NoWriteAfterFailure(es)
  {
    hide Exec, Possible, Answerable;
    forall j | NoWriteAfterFailure(es) && 0 <= j < |Answerable(es)| ensures Answerable(es)[j] == j {
      var i := OwnHandlerIff(es, j);
      assert forall k :: 0 <= k < i ==> es[..i][k] == es[k];
    }
    if i, k :| 0 <= i < k < |es| && es[i] == WriteFailed && es[k] == WriteDone {
      AnsweredBy(es, k);
      PossiblePrefix(es, k);
      assert es[..k][i] == WriteFailed && es[..k] + [WriteDone] == es[..k + 1];
      BatchIff(es[..k], |Answerable(es[..k])|);
    }
  }

  lemma {:induction false} IssuedWithCommands(es: seq<Event>)
    ensures |Issued(es)| == |Commands(es)|
  {
    if es != [] {
      IssuedWithCommands(es[..|es| - 1]);
    }
  }

  lemma {:induction false} AnswerableIssued(es: seq<Event>, j: nat)
    requires Possible(es) && j < |Answerable(es)|
    ensures Answerable(es)[j] < |Issued(es)|
  {
    hide Exec, Possible, Answerable, InFlight, Commands, Issued;
    assert es != [] by { NothingAnswerable(); }
    var before, e := es[..|es| - 1], es[|es| - 1];
    assert es == before + [e];
    RunNext(before, e);
    AnswerableNext(before, e);
    IssuedNext(before, e);
    if j < |Answerable(before)| {
      AnswerableIssued(before, j);
    } else {
      WritePump(before);
      IssuedWithCommands(before);
      LastInFlight(Exec(before), Commands(before), j - |Answerable(before)|);
    }
  }

  lemma IssuedNext(es: seq<Event>, e: Event)
    ensures |Issued(es)| <= |Issued(es + [e])|
  {
    assert (es + [e])[..|es|] == es;
  }

  lemma LastInFlight(v: View, commands: seq<seq<Byte>>, k: nat)
    requires PumpOk(v) && Ended(v) + v.writed + v.queued == commands && k < |v.writed|
    ensures InFlight(v)[k] < |commands|
  {
  }

  /**
   * What the handlers get when the server answers what was written, in order,
   * and never ahead of the commands issued: answer number `j` goes to handler
   * number `j`, which is its own one or, after a failed write, that of an earlier
   * command.
   */
  lemma AnswersReach(es: seq<Event>, j: nat) returns (i: nat)
    requires Possible(es) && NeverAhead(es)
    requires j < |Exec(es).log| && j < |Answerable(es)|
    ensures j < |Issued(es)| && Exec(es).log[j] == ToHandler(Issued(es)[j], Exec(es).log[j].value)
    ensures j <= Answerable(es)[j] < |Issued(es)|
    ensures WrittenAt(es, i, j) && (Answerable(es)[j] == j <==> WriteFailed !in es[..i])
  {
    hide Exec, Possible, Answerable, NeverAhead, Issued;
    FifoMatching(es);
    i := OwnHandlerIff(es, j);
    AnswerableIssued(es, j);
  }

  lemma ReadsOne(u: View, r: Reply)
    requires WellFormed(r) && u.cfg == IDLE
    ensures Replies(IDLE, Encode(r), 0) == Stream([Meaning(r)], Open(IDLE))
    ensures Next(u, Read(Encode(r))).log == u.log + Assign(u.handlers, [Meaning(r)])
  {
    hide Encode, WellFormed, Meaning, Run;
    var s := Encode(r);
    RoundTrip(r, [], []);
    assert [] + s + [] == s;
    assert Replies(IDLE, s, |s|) == Stream([], Open(IDLE)) by { NothingMore(s); }
    assert [Meaning(r)] + [] == [Meaning(r)];
  }

  lemma NothingMore(s: seq<Byte>)
    ensures Replies(IDLE, s, |s|) == Stream([], Open(IDLE))
  {
  }

  /** A server that speaks first: its reply finds no handler. */
  lemma ServerAhead(r: Reply)
    requires WellFormed(r)
    ensures var es := [Read(Encode(r))];
      Possible(es) && Exec(es).log == [Unexpected(Meaning(r))] && !NeverAhead(es)
  {
    hide Encode, WellFormed, Meaning, Replies;
    var es := [Read(Encode(r))];
    assert es[..0] == [];
    ReadsOne(CONNECTED, r);
    UnexpectedMeansAhead(es);
    assert Exec(es).log == [Unexpected(Meaning(r))];
    assert Exec(es).log[0].Unexpected?;
  }

  /** A run goes on by one event. */
  lemma RunGoesOn(es: seq<Event>, e: Event)
    requires Possible(es) && Enabled(Exec(es), e)
    ensures Possible(es + [e]) && Exec(es + [e]) == Next(Exec(es), e)
    ensures Commands(es + [e]) == Commands(es) + if e.Issue? then [e.command] else []
    ensures Issued(es + [e]) == Issued(es) + if e.Issue? then [e.handler] else []
  {
    hide Next, Enabled;
    assert (es + [e])[..|es|] == es;
  }

  /** A command is issued and its write fails. */
  lemma WriteLost(a: seq<Byte>, h: Handler)
    ensures var es := [Issue(a, h), WriteFailed];
      && Possible(es) && Exec(es) == View(IDLE, true, [h], [], [], 0, [a], [])
      && Answerable(es) == [] && Commands(es) == [a] && Issued(es) == [h]
  {
    hide Exec, Possible, Commands, Issued, Answerable;
    var first := [Issue(a, h)];
    NothingYet();
    assert [] + first == first;
    RunGoesOn([], Issue(a, h));
    AnswerableNext([], Issue(a, h));
    RunGoesOn(first, WriteFailed);
    AnswerableNext(first, WriteFailed);
    assert first + [WriteFailed] == [Issue(a, h), WriteFailed];
  }

  /** The next command is issued and its write succeeds. */
  lemma NextWritten(es: seq<Event>, a: seq<Byte>, b: seq<Byte>, h: Handler, k: Handler)
    requires Possible(es) && Exec(es) == View(IDLE, true, [h], [], [], 0, [a], [])
    requires Answerable(es) == []
    ensures var fs := es + [Issue(b, k)] + [WriteDone];
      && Possible(fs) && Exec(fs) == View(IDLE, true, [h, k], [], [], 0, [a, b], [])
      && Answerable(fs) == [1] && Commands(fs) == Commands(es) + [b] && Issued(fs) == Issued(es) + [k]
  {
    hide Exec, Possible, Commands, Issued, Answerable;
    var more := es + [Issue(b, k)];
    RunGoesOn(es, Issue(b, k));
    AnswerableNext(es, Issue(b, k));
    RunGoesOn(more, WriteDone);
    AnswerableNext(more, WriteDone);
  }

  /** The first command is lost, and its handler gets the reply to the second one. */
  lemma LostCommand(a: seq<Byte>, b: seq<Byte>, h: Handler, k: Handler, r: Reply)
    requires WellFormed(r)
    ensures var es := [Issue(a, h), WriteFailed, Issue(b, k), WriteDone, Read(Encode(r))];
      && Possible(es) && NeverAhead(es)
      && Answerable(es) == [1] && Commands(es) == [a, b] && Issued(es) == [h, k]
      && Exec(es).log == [ToHandler(h, Meaning(r))] && Exec(es).handlers == [k]
  {
    hide Encode, WellFormed, Meaning, Replies, Exec, Possible, Commands, Issued, Answerable, NeverAhead, AllCalled;
    var done := [Issue(a, h), WriteFailed, Issue(b, k), WriteDone];
    var es := done + [Read(Encode(r))];
    var lost := [Issue(a, h), WriteFailed];
    WriteLost(a, h);
    NextWritten(lost, a, b, h, k);
    assert lost + [Issue(b, k)] + [WriteDone] == done;
    RunGoesOn(done, Read(Encode(r)));
    AnswerableNext(done, Read(Encode(r)));
    ReadsOne(Exec(done), r);
    assert Assign([h, k], [Meaning(r)]) == [ToHandler(h, Meaning(r))];
    assert [] + [ToHandler(h, Meaning(r))] == [ToHandler(h, Meaning(r))];
    UnexpectedMeansAhead(es);
    OneCalled(h, Meaning(r));
    assert es == [Issue(a, h), WriteFailed, Issue(b, k), WriteDone, Read(Encode(r))];
  }

  lemma NothingYet()
    ensures Possible([]) && Exec([]) == CONNECTED
    ensures Commands([]) == [] && Issued([]) == [] && Answerable([]) == []
  {
  }

  lemma OneCalled(h: Handler, v: Value)
    ensures AllCalled([ToHandler(h, v)])
  {
  }
}
