/**
 * The asynchronous client: a FIFO of reply handlers fed by the incremental
 * parser, and a double-buffered write pump.  Socket operations are events that
 * may happen in any order; handlers are opaque names.
 */
module AsyncClient {
  import opened Bytes
  import opened RespProtocol
  import opened RespMachine
  import opened RespStream
  import opened RedisParsers

  type Handler = nat

  /** What `doProcessMessage` did with a reply: called the front handler, or
      reported an unexpected message because no handler was waiting. */
  datatype Delivery = ToHandler(handler: Handler, value: Value) | Unexpected(value: Value)

  /** Replies go to the waiting handlers one by one; the surplus is unexpected. */
  function Assign(handlers: seq<Handler>, values: seq<Value>): (ds: seq<Delivery>)
    ensures |ds| == |values|
  {
    seq(|values|, i requires 0 <= i < |values| =>
      if i < |handlers| then ToHandler(handlers[i], values[i]) else Unexpected(values[i]))
  }

  function Served<T>(handlers: seq<T>, n: nat): seq<T> {
    if n < |handlers| then handlers[n..] else []
  }

  /** The log and the waiting handlers once the values of `st` were delivered. */
  datatype Fed = Fed(log: seq<Delivery>, handlers: seq<Handler>, tail: Tail)

  function Feed(log: seq<Delivery>, handlers: seq<Handler>, st: Stream): Fed {
    Fed(log + Assign(handlers, st.values), Served(handlers, |st.values|), st.tail)
  }

  /** A snapshot of the client: its queues, its parser, and what it did to the outside. */
  datatype View = View(
    cfg: Config,                 // the parser
    reading: bool,               // a read is outstanding
    handlers: seq<Handler>,
    queued: seq<seq<Byte>>,      // dataQueued
    writed: seq<seq<Byte>>,      // dataWrited
    inFlight: int,               // writes started and not yet completed
    sent: seq<seq<Byte>>,        // every buffer handed to the socket, in order
    log: seq<Delivery>)

  datatype Event =
    | Issue(command: seq<Byte>, handler: Handler)   // doAsyncCommand
    | WriteDone                                     // asyncWrite without error
    | WriteFailed                                   // asyncWrite with an error
    | Read(chunk: seq<Byte>)                        // asyncRead of some bytes
    | ReadFailed                                    // asyncRead with an error, or of nothing

  predicate Enabled(v: View, e: Event) {
    match e
    case Issue(_, _) => true
    case WriteDone => v.inFlight >= 1
    case WriteFailed => v.inFlight >= 1
    case Read(chunk) => v.reading && chunk != []
    case ReadFailed => v.reading
  }

  /** Everything queued goes out as one write. */
  function StartWrite(v: View): View {
    if v.queued == [] then v.(writed := [])
    else v.(writed := v.queued, queued := [], sent := v.sent + v.queued, inFlight := v.inFlight + 1)
  }

  function Next(v: View, e: Event): View {
    match e
    case Issue(command, handler) =>
      var w := v.(handlers := v.handlers + [handler], queued := v.queued + [command]);
      if v.writed == [] then StartWrite(w) else w
    case WriteDone => StartWrite(v.(inFlight := v.inFlight - 1))
    case WriteFailed => v.(inFlight := v.inFlight - 1, writed := [])
    case Read(chunk) =>
      var fed := Feed(v.log, v.handlers, Replies(v.cfg, chunk, 0));
      v.(cfg := fed.tail.cfg, reading := fed.tail.Open?, handlers := fed.handlers, log := fed.log)
    case ReadFailed => v.(reading := false)
  }

  class RedisClient {
    const redisParser: RedisParser
    var handlers: seq<Handler>
    var dataWrited: seq<seq<Byte>>
    var dataQueued: seq<seq<Byte>>
    // the socket and the handlers, as far as the client has used them
    var reading: bool
    var inFlight: int
    var sent: seq<seq<Byte>>
    var log: seq<Delivery>

    ghost predicate Valid()
      reads this, redisParser
    {
      redisParser.Valid()
    }

    ghost function Snapshot(): View
      requires Valid()
      reads this, redisParser
    {
      View(redisParser.Cfg(), reading, handlers, dataQueued, dataWrited, inFlight, sent, log)
    }

    /** A client in the Connected state: the first read has been started. */
    constructor ()
      ensures Valid() && fresh(redisParser)
      ensures Snapshot() == CONNECTED
    {
      redisParser := new RedisParser();
      handlers, dataWrited, dataQueued := [], [], [];
      reading, inFlight, sent, log := true, 0, [], [];
    }

    /** `asyncWrite`; `completes` tells a write completion from the call that starts transmission. */
    method AsyncWrite(failed: bool, completes: bool)
      requires Valid()
      modifies `dataWrited, `dataQueued, `inFlight, `sent
      ensures Valid()
      ensures var v := old(Snapshot());
        var w := if completes then v.(inFlight := v.inFlight - 1) else v;
        Snapshot() == if failed then w.(writed := []) else StartWrite(w)
    {
      if completes {
        inFlight := inFlight - 1;
      }
      dataWrited := [];
      if failed {
        return;
      }
      if dataQueued != [] {
        sent := sent + dataQueued;
        inFlight := inFlight + 1;
        dataQueued, dataWrited := dataWrited, dataQueued;
      }
    }

    /** `doAsyncCommand` */
    method DoAsyncCommand(buff: seq<Byte>, handler: Handler)
      requires Valid()
      modifies `handlers, `dataWrited, `dataQueued, `inFlight, `sent
      ensures Valid()
      ensures Snapshot() == Next(old(Snapshot()), Issue(buff, handler))
    {
      handlers := handlers + [handler];
      dataQueued := dataQueued + [buff];
      if dataWrited == [] {
        AsyncWrite(false, false);
      }
    }

    /** `doProcessMessage` in the Connected state. */
    method DoProcessMessage(v: Value)
      requires Valid()
      modifies `handlers, `log
      ensures Valid()
      ensures log == old(log) + Assign(old(handlers), [v])
      ensures handlers == Served(old(handlers), 1)
    {
      if handlers != [] {
        log := log + [ToHandler(handlers[0], v)];
        handlers := handlers[1..];
      } else {
        log := log + [Unexpected(v)];
      }
    }

    /** One parse call of `asyncRead`, and the message it may complete. */
    method ParseSome(chunk: seq<Byte>, pos: nat) returns (next: nat, result: ParseResult)
      requires Valid() && pos < |chunk|
      modifies `handlers, `log, redisParser
      ensures Valid() && pos <= next <= |chunk|
      ensures result == ParseCompleted ==> pos < next && redisParser.Cfg() == IDLE
      ensures Feed(old(log), old(handlers), Replies(old(redisParser.Cfg()), chunk, pos)) ==
        match result
        case ParseCompleted => Feed(log, handlers, Replies(IDLE, chunk, next))
        case ParseIncompleted => Fed(log, handlers, Open(redisParser.Cfg()))
        case ParseError => Fed(log, handlers, Broken(redisParser.Cfg()))
    {
      hide Run;
      RepliesStep(redisParser.Cfg(), chunk, pos);
      ghost var r := Run(redisParser.Cfg(), chunk[pos..], 0);
      var consumed;
      consumed, result := redisParser.ParseChunk(chunk[pos..]);
      next := pos + consumed;
      if result == ParseCompleted {
        var v := redisParser.Result();
        FeedStep(log, handlers, v, Replies(IDLE, chunk, next));
        DoProcessMessage(v);
      }
    }

    /** The loop of `asyncRead`; `again` tells whether it ends by asking for more input. */
    method ParseAll(chunk: seq<Byte>) returns (again: bool)
      requires Valid()
      modifies `handlers, `log, redisParser
      ensures Valid()
      ensures Feed(old(log), old(handlers), Replies(old(redisParser.Cfg()), chunk, 0)) ==
        Fed(log, handlers, if again then Open(redisParser.Cfg()) else Broken(redisParser.Cfg()))
    {
      ghost var fed := Feed(log, handlers, Replies(redisParser.Cfg(), chunk, 0));
      var pos := 0;
      while pos < |chunk|
        invariant pos <= |chunk| && Valid()
        invariant fed == Feed(log, handlers, Replies(redisParser.Cfg(), chunk, pos))
      {
        var next, result := ParseSome(chunk, pos);
        if result != ParseCompleted {
          return result == ParseIncompleted;
        }
        pos := next;
      }
      again := true;
    }

    /** `asyncRead` of what a read brought, or of its failure. */
    method AsyncRead(failed: bool, chunk: seq<Byte>)
      requires Valid() && reading
      modifies `reading, `handlers, `log, redisParser
      ensures Valid()
      ensures Snapshot() == Next(old(Snapshot()), if failed || chunk == [] then ReadFailed else Read(chunk))
    {
      hide Feed, Replies;
      reading := false;
      if failed || chunk == [] {
        return;
      }
      var again := ParseAll(chunk);
      if again {
        reading := true;  // processMessage
      }
    }
  }

  lemma ServedAppend(handlers: seq<Handler>, m: nat, n: nat)
    ensures Served(handlers, m + n) == Served(Served(handlers, m), n)
  {
    if m + n < |handlers| {
      assert handlers[m..][n..] == handlers[m + n..];
    }
  }

  lemma AssignAppend(handlers: seq<Handler>, a: seq<Value>, b: seq<Value>)
    ensures Assign(handlers, a + b) == Assign(handlers, a) + Assign(Served(handlers, |a|), b)
    ensures Served(handlers, |a| + |b|) == Served(Served(handlers, |a|), |b|)
  {
    ServedAppend(handlers, |a|, |b|);
    var all, first, rest := Assign(handlers, a + b), Assign(handlers, a), Assign(Served(handlers, |a|), b);
    forall i | 0 <= i < |a| + |b| ensures all[i] == (first + rest)[i] {
      if i >= |a| {
        assert (a + b)[i] == b[i - |a|];
      }
    }
  }

  lemma FeedStep(log: seq<Delivery>, handlers: seq<Handler>, v: Value, rest: Stream)
    ensures Feed(log, handlers, Prepend([v], rest)) == Feed(log + Assign(handlers, [v]), Served(handlers, 1), rest)
  {
    AssignAppend(handlers, [v], rest.values);
  }

  // ------------------------------------------------------------- whole runs

  /** Just connected: nothing issued, nothing read, the first read outstanding. */
  const CONNECTED := View(IDLE, true, [], [], [], 0, [], [])

  /** The client after a run of events, started freshly connected. */
  function Exec(es: seq<Event>): View {
    if es == [] then CONNECTED else Next(Exec(es[..|es| - 1]), es[|es| - 1])
  }

  /** Every event of the run was possible when it happened. */
  predicate Possible(es: seq<Event>) {
    es == [] || (Possible(es[..|es| - 1]) && Enabled(Exec(es[..|es| - 1]), es[|es| - 1]))
  }

  /** The commands of a run, in the order they were issued. */
  function Commands(es: seq<Event>): seq<seq<Byte>> {
    if es == [] then []
    else Commands(es[..|es| - 1]) + (match es[|es| - 1] case Issue(c, _) => [c] case _ => [])
  }

  /** The handlers of a run, in the order their commands were issued. */
  function Issued(es: seq<Event>): seq<Handler> {
    if es == [] then []
    else Issued(es[..|es| - 1]) + (match es[|es| - 1] case Issue(_, h) => [h] case _ => [])
  }

  /** All bytes read in a run, as one stream. */
  function Received(es: seq<Event>): seq<Byte> {
    if es == [] then []
    else Received(es[..|es| - 1]) + (match es[|es| - 1] case Read(chunk) => chunk case _ => [])
  }

  function Values(ds: seq<Delivery>): seq<Value> {
    seq(|ds|, i requires 0 <= i < |ds| => ds[i].value)
  }

  function Called(ds: seq<Delivery>): seq<Handler> {
    if ds == [] then []
    else Called(ds[..|ds| - 1]) + (match ds[|ds| - 1] case ToHandler(h, _) => [h] case Unexpected(_) => [])
  }

  predicate AllCalled(ds: seq<Delivery>) {
    forall i :: 0 <= i < |ds| ==> ds[i].ToHandler?
  }

  /** At most one write in flight, exactly when `dataWrited` holds its buffers. */
  predicate PumpOk(v: View) {
    && v.inFlight == (if v.writed == [] then 0 else 1)
    && |v.writed| <= |v.sent| && v.sent[|v.sent| - |v.writed|..] == v.writed
  }

  /** The buffers handed to the socket whose write has ended, with or without an error. */
  function Ended(v: View): seq<seq<Byte>>
    requires PumpOk(v)
  {
    v.sent[..|v.sent| - |v.writed|]
  }

  /** The pump after a run with the given commands; `clean` if no write has failed. */
  predicate Pumped(v: View, commands: seq<seq<Byte>>, clean: bool) {
    && PumpOk(v)
    && Ended(v) + v.writed + v.queued == commands
    && (clean && v.queued != [] ==> v.inFlight == 1)
  }

  lemma StartWritePumps(v: View, commands: seq<seq<Byte>>, clean: bool)
    requires v.inFlight == 0 && v.sent + v.queued == commands
    ensures Pumped(StartWrite(v), commands, clean)
  {
    var w := StartWrite(v);
    assert Ended(w) + w.writed == w.sent;
  }

  lemma PumpStep(u: View, e: Event, commands: seq<seq<Byte>>, clean: bool)
    requires Pumped(u, commands, clean) && Enabled(u, e)
    ensures Pumped(Next(u, e), if e.Issue? then commands + [e.command] else commands, clean && e != WriteFailed)
  {
    hide Feed, Replies, StartWrite;
    assert Ended(u) + u.writed == u.sent;
    match e
    case Issue(c, h) =>
      var w := u.(handlers := u.handlers + [h], queued := u.queued + [c]);
      assert u.sent + w.queued == commands + [c];
      if u.writed == [] {
        StartWritePumps(w, commands + [c], clean);
      }
    case WriteDone => StartWritePumps(u.(inFlight := u.inFlight - 1), commands, clean);
    case WriteFailed => assert Ended(Next(u, e)) == u.sent;
    case Read(_) =>
    case ReadFailed =>
  }

  /**
   * The write pump.  After any run, failed writes included, at most one write is
   * in flight, and what was handed to the socket before it, what it is writing
   * and what is queued are together all commands in the order they were issued.
   * Without write failures nothing waits in the queue unless a write is in flight.
   */
  lemma {:induction false} WritePump(es: seq<Event>)
    requires Possible(es)
    ensures Pumped(Exec(es), Commands(es), WriteFailed !in es)
  {
    hide Pumped, Next, Enabled;
    if es != [] {
      var before, e := es[..|es| - 1], es[|es| - 1];
      WritePump(before);
      PumpStep(Exec(before), e, Commands(before), WriteFailed !in before);
      assert es == before + [e];
      assert !e.Issue? ==> Commands(before) + [] == Commands(before);
    } else {
      NothingPumped();
    }
  }

  lemma NothingPumped()
    ensures Pumped(CONNECTED, [], true)
  {
  }

  /** Commands wait and no write is under way that would send them. */
  predicate Stalled(v: View) {
    v.queued != [] && v.inFlight == 0
  }

  predicate IsReading(e: Event) {
    e.Read? || e == ReadFailed
  }

  /** A failed write with commands waiting stalls the client, and reading does not end that. */
  lemma StalledIff(es: seq<Event>, e: Event)
    requires Possible(es + [e])
    ensures Stalled(Exec(es + [e])) <==>
      || (e == WriteFailed && Exec(es).queued != [])
      || (IsReading(e) && Stalled(Exec(es)))
  {
    hide Feed, Replies;
    assert (es + [e])[..|es|] == es;
    WritePump(es);
  }

  /** The last write failed at event `i` while commands waited, and since then the client only read. */
  predicate StalledSince(es: seq<Event>, i: nat) {
    && i < |es| && es[i] == WriteFailed && Exec(es[..i]).queued != []
    && forall j :: i < j < |es| ==> IsReading(es[j])
  }

  /**
   * Over whole runs: commands wait without a write in flight exactly from a
   * failed write that found commands waiting until the next command is issued.
   */
  lemma {:induction false} StalledRunIff(es: seq<Event>)
    requires Possible(es)
    ensures Stalled(Exec(es)) <==> exists i: nat :: StalledSince(es, i)
  {
    hide Exec, Stalled;
    if es == [] {
      assert !Stalled(Exec(es)) by { NothingStalled(); }
    } else {
      var before, e := es[..|es| - 1], es[|es| - 1];
      assert es == before + [e];
      StalledIff(before, e);
      StalledRunIff(before);
      if e == WriteFailed && Exec(before).queued != [] {
        assert StalledSince(es, |es| - 1);
      }
      if i: nat :| StalledSince(before, i) && IsReading(e) {
        assert es[..i] == before[..i];
        assert StalledSince(es, i);
      }
      if i: nat :| StalledSince(es, i) {
        if i < |before| {
          assert es[..i] == before[..i];
          assert StalledSince(before, i);
        }
      }
    }
  }

  lemma NothingStalled()
    ensures !Stalled(Exec([]))
  {
  }

  /**
   * After a failed write the queue waits, and the next command sends all of it.
   * Two commands and a failure of the first write are such a run.
   */
  lemma FailureStalls(es: seq<Event>, command: seq<Byte>, h: Handler)
    requires Possible(es) && Exec(es).inFlight >= 1
    ensures var v := Exec(es + [WriteFailed]);
      && v.inFlight == 0 && v.queued == Exec(es).queued
      && Next(v, Issue(command, h)).queued == []
      && Next(v, Issue(command, h)).writed == v.queued + [command]
  {
    WritePump(es);
    assert (es + [WriteFailed])[..|es|] == es;
  }

  lemma StalledRun(a: seq<Byte>, b: seq<Byte>, h: Handler)
    ensures var es := [Issue(a, h), Issue(b, h), WriteFailed];
      Possible(es) && Exec(es).queued == [b] && Stalled(Exec(es))
  {
    var one := [Issue(a, h)];
    var two := one + [Issue(b, h)];
    var es := two + [WriteFailed];
    assert one[..0] == [] && two[..1] == one && es[..2] == two;
    assert Exec(one) == Next(CONNECTED, Issue(a, h));
    assert Exec(two) == Next(Exec(one), Issue(b, h));
    assert Possible(one) && Possible(two);
    assert [] + [b] == [b];
    assert es == [Issue(a, h), Issue(b, h), WriteFailed];
  }

  lemma {:induction false} CalledAppend(a: seq<Delivery>, b: seq<Delivery>)
    ensures Called(a + b) == Called(a) + Called(b)
  {
    if b == [] {
      assert a + b == a;
    } else {
      CalledAppend(a, b[..|b| - 1]);
      assert (a + b)[..|a + b| - 1] == a + b[..|b| - 1];
    }
  }

  lemma CalledOne(handlers: seq<Handler>, v: Value)
    ensures Called(Assign(handlers, [v])) + Served(handlers, 1) == handlers
  {
    assert Assign(handlers, [v])[..0] == [];
    if handlers != [] {
      assert Assign(handlers, [v]) == [ToHandler(handlers[0], v)];
      assert [handlers[0]] + Served(handlers, 1) == handlers;
    }
  }

  lemma {:induction false} CalledAssign(handlers: seq<Handler>, values: seq<Value>)
    ensures Called(Assign(handlers, values)) + Served(handlers, |values|) == handlers
  {
    if values == [] {
      assert Assign(handlers, values) == [];
    } else {
      var vs, v := values[..|values| - 1], values[|values| - 1];
      var rest := Served(handlers, |vs|);
      CalledAssign(handlers, vs);
      assert values == vs + [v];
      AssignAppend(handlers, vs, [v]);
      CalledAppend(Assign(handlers, vs), Assign(rest, [v]));
      CalledOne(rest, v);
      hide Called, Assign, Served;
      var c, d := Called(Assign(handlers, vs)), Called(Assign(rest, [v]));
      assert c + d + Served(rest, 1) == c + (d + Served(rest, 1));
    }
  }

  /** The log holds the replies of the bytes received so far, and the parser stands behind them. */
  predicate Decoded(v: View, received: seq<Byte>, readFailed: bool) {
    var st := Replies(IDLE, received, 0);
    Values(v.log) == st.values && v.cfg == st.tail.cfg && (v.reading <==> st.tail.Open? && !readFailed)
  }

  /** Handlers are served in the order they were issued. */
  predicate Queued(v: View, issued: seq<Handler>) {
    Called(v.log) + v.handlers == issued
  }

  lemma ReadDecodes(u: View, received: seq<Byte>, chunk: seq<Byte>)
    requires Decoded(u, received, false) && u.reading
    ensures Decoded(Next(u, Read(chunk)), received + chunk, false)
  {
    RepliesSplit(IDLE, received, chunk, 0);
    var more := Replies(u.cfg, chunk, 0);
    assert Values(u.log + Assign(u.handlers, more.values)) == Values(u.log) + more.values;
  }

  lemma ReadServes(u: View, chunk: seq<Byte>, issued: seq<Handler>)
    requires Queued(u, issued)
    ensures Queued(Next(u, Read(chunk)), issued)
  {
    hide Replies, Assign, Called;
    var vs := Replies(u.cfg, chunk, 0).values;
    CalledAppend(u.log, Assign(u.handlers, vs));
    CalledAssign(u.handlers, vs);
  }

  lemma IssueQueues(u: View, c: seq<Byte>, h: Handler, issued: seq<Handler>)
    requires Queued(u, issued)
    ensures Queued(Next(u, Issue(c, h)), issued + [h])
  {
    assert Called(u.log) + (u.handlers + [h]) == Called(u.log) + u.handlers + [h];
  }

  /**
   * Reassembly and order.  After any run, the values delivered are exactly the
   * replies the received byte stream decodes to, however it was cut into reads;
   * the parser stands where that stream leaves it, and another read is under way
   * unless the stream is broken or a read failed; and the handlers called, then
   * those still waiting, are all handlers in the order their commands were issued.
   */
  lemma {:induction false} InOrderDelivery(es: seq<Event>)
    requires Possible(es)
    ensures Decoded(Exec(es), Received(es), ReadFailed in es) && Queued(Exec(es), Issued(es))
  {
    if es != [] {
      var before, e := es[..|es| - 1], es[|es| - 1];
      assert es == before + [e];
      InOrderDelivery(before);
      var u := Exec(before);
      match e {
        case Read(chunk) =>
          ReadDecodes(u, Received(before), chunk);
          ReadServes(u, chunk, Issued(before));
        case Issue(c, h) => IssueQueues(u, c, h, Issued(before));
        case _ =>
      }
      assert !e.Read? ==> Received(es) == Received(before);
      assert !e.Issue? ==> Issued(es) == Issued(before);
    }
  }

  /** No reply ever arrives before the command it could answer was issued. */
  predicate NeverAhead(es: seq<Event>) {
    && |Replies(IDLE, Received(es), 0).values| <= |Issued(es)|
    && (es == [] || NeverAhead(es[..|es| - 1]))
  }

  lemma {:induction false} CalledCount(ds: seq<Delivery>)
    ensures |Called(ds)| <= |ds|
    ensures |Called(ds)| == |ds| <==> AllCalled(ds)
    ensures AllCalled(ds) ==> forall i :: 0 <= i < |ds| ==> ds[i] == ToHandler(Called(ds)[i], ds[i].value)
  {
    if ds != [] {
      CalledCount(ds[..|ds| - 1]);
      assert ds == ds[..|ds| - 1] + [ds[|ds| - 1]];
    }
  }

  /** Replies, handlers called and handlers waiting, counted. */
  lemma Counted(es: seq<Event>)
    requires Possible(es)
    ensures var v := Exec(es);
      && |v.log| == |Replies(IDLE, Received(es), 0).values|
      && |Called(v.log)| + |v.handlers| == |Issued(es)|
      && |Called(v.log)| <= |v.log| && (AllCalled(v.log) <==> |Called(v.log)| == |v.log|)
  {
    hide Exec, Replies, Called, AllCalled;
    InOrderDelivery(es);
    CalledCount(Exec(es).log);
    assert |Values(Exec(es).log)| == |Exec(es).log|;
  }

  /** A read finds handlers for all its replies if enough of them wait. */
  lemma ReadFindsHandlers(u: View, chunk: seq<Byte>)
    ensures var v, n := Next(u, Read(chunk)), |Replies(u.cfg, chunk, 0).values|;
      && (AllCalled(v.log) ==> AllCalled(u.log))
      && (AllCalled(u.log) && n <= |u.handlers| ==> AllCalled(v.log))
      && (n >= |u.handlers| ==> v.handlers == [])
  {
    hide Replies;
    var v := Next(u, Read(chunk));
    assert v.log == u.log + Assign(u.handlers, Replies(u.cfg, chunk, 0).values);
    assert u.log == v.log[..|u.log|];
  }

  lemma OnlyReadsLog(u: View, e: Event)
    ensures !e.Read? ==> Next(u, e).log == u.log
  {
    hide StartWrite, Replies;
    assert StartWrite(u).log == u.log by { WritesDoNotLog(u); }
    match e
    case Issue(c, h) => WritesDoNotLog(u.(handlers := u.handlers + [h], queued := u.queued + [c]));
    case WriteDone => WritesDoNotLog(u.(inFlight := u.inFlight - 1));
    case _ =>
  }

  lemma WritesDoNotLog(u: View)
    ensures StartWrite(u).log == u.log
  {
  }

  /** Once a reply found no handler, some prefix of the run had more replies than commands. */
  lemma {:induction false} UnexpectedMeansAhead(es: seq<Event>)
    requires Possible(es)
    ensures AllCalled(Exec(es).log) <==> NeverAhead(es)
  {
    hide AllCalled, Next, Replies, Called, Received, Issued;
    Counted(es);
    if es != [] {
      var before, e := es[..|es| - 1], es[|es| - 1];
      UnexpectedMeansAhead(before);
      OnlyReadsLog(Exec(before), e);
      if e.Read? {
        ReadFindsHandlers(Exec(before), e.chunk);
      }
    } else {
      assert AllCalled([]) by { NothingCalled(); }
    }
  }

  lemma NothingCalled()
    ensures AllCalled([])
  {
  }

  /** The k-th value went to the k-th handler. */
  predicate Matched(log: seq<Delivery>, handlers: seq<Handler>, values: seq<Value>) {
    && |log| == |values| <= |handlers|
    && forall k :: 0 <= k < |log| ==> log[k] == ToHandler(handlers[k], values[k])
  }

  /**
   * FIFO matching.  The k-th reply of the stream goes to the handler of the k-th
   * command, for every k, exactly when the server never sends more complete
   * replies than commands were issued by then.
   */
  lemma FifoMatching(es: seq<Event>)
    requires Possible(es)
    ensures NeverAhead(es) <==> AllCalled(Exec(es).log)
    ensures NeverAhead(es) ==> Matched(Exec(es).log, Issued(es), Replies(IDLE, Received(es), 0).values)
  {
    UnexpectedMeansAhead(es);
    InOrderDelivery(es);
    var v := Exec(es);
    CalledCount(v.log);
    forall k | 0 <= k < |v.log| && NeverAhead(es)
      ensures v.log[k] == ToHandler(Issued(es)[k], Values(v.log)[k])
    {
      assert Issued(es)[k] == Called(v.log)[k];
    }
  }

  /** End to end: the replies `rs` of a server, cut into reads in any way, reach
      the handlers of the first commands with their meanings. */
  lemma RepliesReachHandlers(es: seq<Event>, rs: seq<Reply>)
    requires Possible(es) && NeverAhead(es)
    requires forall i :: 0 <= i < |rs| ==> WellFormed(rs[i])
    requires Received(es) == EncodeAll(rs)
    ensures Matched(Exec(es).log, Issued(es), Meanings(rs))
  {
    FifoMatching(es);
    RepliesOfEncodings(rs);
  }
}
