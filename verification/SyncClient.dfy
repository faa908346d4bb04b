/**
 * The synchronous client: a 4096-byte read buffer whose leftover bytes serve
 * the next reply, single commands and pipelines.
 */
module SyncClient {
  import opened Bytes
  import opened RespProtocol
  import opened RespMachine
  import opened RespRefinement
  import opened RedisParsers
  import opened RedisCommands

  /** What reading one response from a stream comes to, and the stream it leaves. */
  datatype Response =
    | Answer(value: Value, rest: seq<Byte>)
    | Waiting(cfg: Config)
    | Garbled(cfg: Config, rest: seq<Byte>)

  function Respond(cfg: Config, stream: seq<Byte>): Response {
    match Run(cfg, stream, 0)
    case Completed(n, v) => Answer(v, stream[n..])
    case Incompleted(c) => Waiting(c)
    case Failed(n, c) => Garbled(c, stream[n..])
  }

  /** Reading a buffered chunk first and the rest of the stream later makes no difference. */
  lemma RespondSplit(cfg: Config, chunk: seq<Byte>, rest: seq<Byte>)
    ensures var r := Run(cfg, chunk, 0);
      Respond(cfg, chunk + rest) ==
        match r
        case Completed(n, v) => Answer(v, chunk[n..] + rest)
        case Incompleted(mid) => Respond(mid, rest)
        case Failed(n, c) => Garbled(c, chunk[n..] + rest)
  {
    ChunkIndependence(cfg, chunk, rest, 0);
    var r := Run(cfg, chunk, 0);
    if r.Incompleted? {
      var r' := Run(r.cfg, rest, 0);
      assert !r'.Incompleted? ==> (chunk + rest)[|chunk| + r'.next..] == rest[r'.next..];
    } else {
      assert (chunk + rest)[r.next..] == chunk[r.next..] + rest;
    }
  }

  /**
   * A read from a connection whose response should be `response`.  It fails with
   * nothing lost: the response is still to come.  Otherwise it returns the reply,
   * or nil after a protocol error, and leaves exactly the bytes behind it.
   */
  predicate Responded(response: Response, cfg: Config, pending: seq<Byte>, value: Value, ec: bool) {
    if ec then value == Nil && Respond(cfg, pending) == response
    else
      match response
      case Answer(v, rest) => value == v && pending == rest && cfg == IDLE
      case Garbled(c, rest) => value == Nil && pending == rest && cfg == c
      case Waiting(_) => false
  }

  /** The responses to `n` commands in a row, nil where a protocol error is, or too few of them. */
  datatype Responses =
    | Answers(values: seq<Value>, cfg: Config, rest: seq<Byte>)
    | Stalled(values: seq<Value>, cfg: Config)

  function RespondMany(cfg: Config, stream: seq<Byte>, n: nat): Responses
    decreases n
  {
    if n == 0 then Answers([], cfg, stream)
    else
      match Respond(cfg, stream)
      case Waiting(c) => Stalled([], c)
      case Garbled(c, rest) => After([Nil], RespondMany(c, rest, n - 1))
      case Answer(v, rest) => After([v], RespondMany(IDLE, rest, n - 1))
  }

  function After(values: seq<Value>, rs: Responses): Responses {
    match rs
    case Answers(vs, cfg, rest) => Answers(values + vs, cfg, rest)
    case Stalled(vs, cfg) => Stalled(values + vs, cfg)
  }

  class RedisSyncClient {
    const redisParser: RedisParser
    const buf: array<Byte>
    var bufSize: nat
    // the socket: what the peer will still deliver, what has been written
    var incoming: seq<Byte>
    var sent: seq<Byte>
    var errors: nat  // calls of the error handler
    ghost var failures: nat  // reads and writes of the socket that failed

    ghost predicate Valid()
      reads this, redisParser
    {
      redisParser.Valid() && buf.Length == 4096 && bufSize <= buf.Length
    }

    /** Every byte of the stream that no reply has consumed yet. */
    ghost function Pending(): seq<Byte>
      requires Valid()
      reads this, redisParser, buf
    {
      buf[..bufSize] + incoming
    }

    constructor (stream: seq<Byte>)
      ensures Valid() && fresh(redisParser) && fresh(buf)
      ensures redisParser.Cfg() == IDLE && Pending() == stream
    {
      redisParser := new RedisParser();
      buf := new Byte[4096];
      bufSize, incoming, sent, errors, failures := 0, stream, [], 0, 0;
    }

    /**
     * `socketReadSome`: between one byte and a full buffer; or an error, at the
     * end of the stream, on a timeout or any other time, with nothing read.
     * `ec0` is the caller's error code, which is never cleared.
     */
    method SocketReadSome(ec0: bool) returns (n: nat, ec: bool)
      requires Valid() && bufSize == 0
      modifies `incoming, `failures, buf
      ensures Valid()
      ensures old(incoming) == [] ==> n == 0
      ensures failures == old(failures) + if n == 0 then 1 else 0
      ensures n <= buf.Length && (ec <==> ec0 || n == 0)
      ensures buf[..n] + incoming == old(incoming)
    {
      var fails := *;
      if fails || incoming == [] {
        failures := failures + 1;
        return 0, true;
      }
      n :| 1 <= n <= buf.Length && n <= |incoming|;
      forall i | 0 <= i < n {
        buf[i] := incoming[i];
      }
      incoming := incoming[n..];
      ec := ec0;
    }

    /** Refills the empty buffer; the pending stream stays the same. */
    method Refill(ec0: bool) returns (ec: bool)
      requires Valid() && bufSize == 0
      modifies `bufSize, `incoming, `failures, buf
      ensures Valid()
      ensures Pending() == old(Pending()) && |incoming| + bufSize == old(|incoming|)
      ensures failures == old(failures) + if bufSize == 0 then 1 else 0
      ensures old(incoming) == [] ==> bufSize == 0
      ensures ec <==> ec0 || bufSize == 0
    {
      bufSize, ec := SocketReadSome(ec0);
    }

    /** `socketWrite` of one buffer: everything, or an error after some of it. */
    method SocketWrite(data: seq<Byte>, ec0: bool) returns (bytesSend: nat, ec: bool)
      modifies `sent, `failures
      ensures bytesSend <= |data| && (ec <==> ec0 || bytesSend < |data|)
      ensures failures == old(failures) + if bytesSend < |data| then 1 else 0
      ensures sent == old(sent) + data[..bytesSend]
    {
      bytesSend :| bytesSend <= |data|;
      sent := sent + data[..bytesSend];
      if bytesSend < |data| {
        failures := failures + 1;
      }
      ec := ec0 || bytesSend < |data|;
    }

    /**
     * `socketWrite` of several buffers: everything, or an error after some of it.
     * With an error code set on entry it stops behind the first buffer.
     */
    method SocketWriteAll(buffers: seq<seq<Byte>>, ec0: bool) returns (bytesSend: nat, ec: bool)
      modifies `sent, `failures
      ensures bytesSend <= |Gathered(buffers)| && (ec <==> ec0 || bytesSend < |Gathered(buffers)|)
      ensures !ec0 ==> failures == old(failures) + if bytesSend < |Gathered(buffers)| then 1 else 0
      ensures ec0 && buffers != [] ==>
        bytesSend <= |buffers[0]| && failures == old(failures) + if bytesSend < |buffers[0]| then 1 else 0
      ensures buffers == [] ==> failures == old(failures)
      ensures sent == old(sent) + Gathered(buffers)[..bytesSend]
    {
      bytesSend, ec := 0, ec0;
      var i := 0;
      while i < |buffers|
        invariant 0 <= i <= |buffers| && bytesSend == |Gathered(buffers[..i])| <= |Gathered(buffers)|
        invariant sent == old(sent) + Gathered(buffers)[..bytesSend]
        invariant ec == ec0 && (ec0 ==> i == 0) && failures == old(failures)
      {
        var sentSize;
        GatheredNext(buffers, i);
        sentSize, ec := SocketWrite(buffers[i], ec);
        GatheredPart(buffers, i, sentSize);
        bytesSend := bytesSend + sentSize;
        i := i + 1;
        if ec {
          return;
        }
      }
      assert buffers[..|buffers|] == buffers;
    }

    /** `memmove` of the unread rest to the front of the buffer. */
    method MoveDown(pos: nat)
      requires Valid() && pos <= bufSize
      modifies `bufSize, buf
      ensures Valid() && bufSize == old(bufSize) - pos
      ensures buf[..bufSize] == old(buf[..bufSize])[pos..]
    {
      forall i | 0 <= i < bufSize - pos {
        buf[i] := buf[i + pos];
      }
      bufSize := bufSize - pos;
    }

    /** One parse call on the buffered bytes, and the `memmove` behind it. */
    method ParseBuffered() returns (result: ParseResult)
      requires Valid() && bufSize > 0
      modifies `bufSize, buf, redisParser
      ensures Valid()
      ensures result == ParseIncompleted ==> bufSize == 0
      ensures result == ParseIncompleted <==> Run(old(redisParser.Cfg()), old(buf[..bufSize]), 0).Incompleted?
      ensures Respond(old(redisParser.Cfg()), old(Pending())) ==
        match result
        case ParseCompleted => Answer(redisParser.redisValue, Pending())
        case ParseIncompleted => Respond(redisParser.Cfg(), Pending())
        case ParseError => Garbled(redisParser.Cfg(), Pending())
      ensures result == ParseCompleted ==> redisParser.Cfg() == IDLE
    {
      RespondSplit(redisParser.Cfg(), buf[..bufSize], incoming);
      var pos := 0;
      var consumed;
      consumed, result := redisParser.ParseChunk(buf[pos..bufSize]);
      pos := pos + consumed;
      MoveDown(pos);
      assert result == ParseIncompleted ==> Pending() == incoming;
    }

    /**
     * `syncReadResponse`.  However the socket cuts the stream, the call returns
     * the first reply of the pending stream and leaves exactly the bytes behind
     * it pending.  It fails exactly if a read of the socket does, as it must when
     * the stream ends first; that reply is still the next one then.  A protocol
     * error yields a nil value and a call of the error handler.  With an error code
     * set on entry every read looks like a failure, and the call fails exactly if
     * the buffer does not hold the whole response.
     */
    method SyncReadResponse(ec0: bool) returns (value: Value, ec: bool, ghost failed: bool)
      requires Valid()
      modifies `bufSize, `incoming, `errors, `failures, buf, redisParser
      ensures Valid()
      ensures ec <==> ec0 || failed
      ensures !ec0 ==> failures == old(failures) + if failed then 1 else 0
      ensures ec0 ==> (failed <==> Run(old(redisParser.Cfg()), old(buf[..bufSize]), 0).Incompleted?)
      ensures failed ==> Run(old(redisParser.Cfg()), old(buf[..bufSize]), 0).Incompleted?
      ensures !failed ==> failures == old(failures)
      ensures Responded(Respond(old(redisParser.Cfg()), old(Pending())), redisParser.Cfg(), Pending(), value, failed)
      ensures errors == old(errors) +
        if !failed && Respond(old(redisParser.Cfg()), old(Pending())).Garbled? then 1 else 0
    {
      hide Run, Step;
      value, ec := Nil, ec0;
      NothingConsumed(redisParser.Cfg());
      ghost var whole := Run(redisParser.Cfg(), buf[..bufSize], 0);
      while true
        invariant Valid() && errors == old(errors) && failures == old(failures) && ec == ec0
        invariant Respond(redisParser.Cfg(), Pending()) == Respond(old(redisParser.Cfg()), old(Pending()))
        invariant || (bufSize > 0 && Run(redisParser.Cfg(), buf[..bufSize], 0) == whole)
          || (whole.Incompleted? && (ec0 ==> bufSize == 0))
        decreases |incoming| + bufSize
      {
        if bufSize == 0 {
          ec := Refill(ec);
          if ec {
            return value, ec, true;
          }
        }
        // The inner loop of the source turns once: an unfinished reply uses up the buffer.
        var result := ParseBuffered();
        if result == ParseCompleted {
          value := redisParser.Result();
          return value, ec, false;
        } else if result == ParseError {
          errors := errors + 1;
          return Nil, ec, false;
        }
      }
    }

    /**
     * `doSyncCommand` of one command, of which `written` bytes get out.  It fails
     * exactly if the socket does, except that a call with an error code set on
     * entry always does: it writes, and does not read.  Whenever the whole command
     * was written, the call is one step of a `Session`.
     */
    method DoSyncCommand(command: seq<seq<Byte>>, ec0: bool) returns (value: Value, ec: bool, ghost written: nat)
      requires Valid()
      modifies this, buf, redisParser
      ensures Valid()
      ensures written <= |Encode(Command(command))| && sent == old(sent) + Encode(Command(command))[..written]
      ensures ec <==> ec0 || failures != old(failures)
      ensures old(failures) <= failures <= old(failures) + 1
      ensures failures == old(failures) ==> written == |Encode(Command(command))|
      ensures ec0 || written < |Encode(Command(command))| ==>
        ec && value == Nil && Pending() == old(Pending()) && redisParser.Cfg() == old(redisParser.Cfg())
      ensures ec0 && written == |Encode(Command(command))| ==> failures == old(failures)
      ensures written == |Encode(Command(command))| ==>
        Responded(Respond(old(redisParser.Cfg()), old(Pending())), redisParser.Cfg(), Pending(), value, ec)
      ensures errors == old(errors) +
        if !ec && Respond(old(redisParser.Cfg()), old(Pending())).Garbled? then 1 else 0
    {
      hide Encode, Respond, Run;
      var data := MakeCommand(command);
      var bytesSend;
      bytesSend, ec := SocketWrite(data, ec0);
      written := bytesSend;
      if ec {
        return Nil, ec, written;
      }
      hide Responded;
      ghost var failed;
      value, ec, failed := SyncReadResponse(ec);
    }

    /** `n` responses should come as `all` says; `responses` have come. */
    ghost predicate Collected(all: Responses, n: nat, responses: seq<Value>, ec: bool)
      requires Valid()
      reads this, redisParser, buf
    {
      && |responses| <= n && (ec <==> |responses| < n)
      && all == After(responses, RespondMany(redisParser.Cfg(), Pending(), n - |responses|))
    }

    /** The read loop of the pipelined `doSyncCommand`; on an error the last value is not a response. */
    method ReadResponses(n: nat) returns (responses: seq<Value>, ec: bool)
      requires Valid()
      modifies `bufSize, `incoming, `errors, `failures, buf, redisParser
      ensures Valid()
      ensures Collected(RespondMany(old(redisParser.Cfg()), old(Pending()), n), n, responses, ec)
      ensures failures == old(failures) + if ec then 1 else 0
      ensures errors == old(errors) + Garbles(old(redisParser.Cfg()), old(Pending()), |responses|)
    {
      hide Run, Respond, RespondMany, Garbles, After, Responded;
      responses, ec := [], false;
      ghost var cfg0, pending0 := redisParser.Cfg(), Pending();
      NoResponses(cfg0, pending0);
      var i := 0;
      while i < n
        invariant 0 <= i <= n && Valid() && !ec && |responses| == i && failures == old(failures)
        invariant RespondMany(cfg0, pending0, i) == Answers(responses, redisParser.Cfg(), Pending())
        invariant errors == old(errors) + Garbles(cfg0, pending0, i)
      {
        ghost var cfg, pending := redisParser.Cfg(), Pending();
        ResponsesAcrossCalls(cfg0, pending0, i, n - i);
        ResponsesAcrossCalls(cfg0, pending0, i, 1);
        GarblesNext(cfg0, pending0, i);
        var value;
        ghost var failed;
        value, ec, failed := SyncReadResponse(ec);
        if ec {
          OneResponse(cfg, pending, redisParser.Cfg(), Pending(), value, true, n - i);
          return;
        }
        OneResponse(cfg, pending, redisParser.Cfg(), Pending(), value, false, 1);
        OneAnswer(responses, value, redisParser.Cfg(), Pending());
        responses := responses + [value];
        i := i + 1;
      }
      AllAnswered(responses, redisParser.Cfg(), Pending());
    }

    /** The pending stream begins with the replies `rs` to as many commands, and goes on with `tail`. */
    ghost predicate AnsweredBy(rs: seq<Reply>, tail: seq<Byte>, n: nat)
      requires Valid()
      reads this, redisParser, buf
    {
      && |rs| == n && (forall i :: 0 <= i < |rs| ==> WellFormed(rs[i]))
      && redisParser.Cfg() == IDLE && Pending() == EncodeAll(rs) + tail
    }

    /**
     * The pipelined `doSyncCommand`: writes all commands, then returns the first
     * replies of the pending stream, one per command and in order.  It fails
     * exactly if the socket does; then the replies already read, `responses`, are
     * dropped.  With an error code set on entry at most the first command is
     * written, nothing is read, and the call always fails.
     */
    method DoSyncCommands(commands: seq<seq<seq<Byte>>>, ec0: bool)
      returns (value: Value, ec: bool, ghost written: nat, ghost responses: seq<Value>)
      requires Valid()
      modifies this, buf, redisParser
      ensures Valid()
      ensures written <= |Gathered(Encoded(commands))| && sent == old(sent) + Gathered(Encoded(commands))[..written]
      ensures ec <==> ec0 || failures != old(failures)
      ensures old(failures) <= failures <= old(failures) + 1
      ensures !ec0 && failures == old(failures) ==> written == |Gathered(Encoded(commands))|
      ensures ec0 && commands != [] ==>
        written <= |Encode(Command(commands[0]))| &&
        failures == old(failures) + if written < |Encode(Command(commands[0]))| then 1 else 0
      ensures value == if ec then Nil else Array(responses)
      ensures if ec0 || written < |Gathered(Encoded(commands))|
        then ec && responses == [] && Pending() == old(Pending()) && redisParser.Cfg() == old(redisParser.Cfg())
        else Collected(RespondMany(old(redisParser.Cfg()), old(Pending()), |commands|), |commands|, responses, ec)
      ensures errors == old(errors) + Garbles(old(redisParser.Cfg()), old(Pending()), |responses|)
      ensures forall rs, tail ::
        old(AnsweredBy(rs, tail, |commands|)) && !ec0 && failures == old(failures) ==>
          !ec && value == Array(Meanings(rs)) && redisParser.Cfg() == IDLE && Pending() == tail
    {
      hide Encode, Run, Respond, RespondMany, Garbles, Gathered;
      NoResponses(redisParser.Cfg(), Pending());
      var data := MakeCommands(commands);
      var bytesSend;
      bytesSend, ec := SocketWriteAll(data, ec0);
      written := bytesSend;
      if ec {
        return Nil, ec, written, [];
      }
      var values;
      values, ec := ReadResponses(|commands|);
      responses := values;
      value := if ec then Nil else Array(values);
      forall rs, tail | old(AnsweredBy(rs, tail, |commands|)) && !ec
        ensures values == Meanings(rs) && redisParser.Cfg() == IDLE && Pending() == tail
      {
        PipelineAnswers(rs, tail);
        AllAnswered(values, redisParser.Cfg(), Pending());
      }
    }
  }

  /** The buffers of a gathered write, one behind the other. */
  function Gathered(buffers: seq<seq<Byte>>): seq<Byte> {
    if buffers == [] then [] else Gathered(buffers[..|buffers| - 1]) + buffers[|buffers| - 1]
  }

  lemma {:induction false} GatheredLonger(buffers: seq<seq<Byte>>, i: nat)
    requires i <= |buffers|
    ensures Gathered(buffers[..i]) <= Gathered(buffers)
  {
    if i == |buffers| {
      assert buffers[..i] == buffers;
    } else {
      GatheredLonger(buffers[..|buffers| - 1], i);
      assert buffers[..|buffers| - 1][..i] == buffers[..i];
    }
  }

  lemma GatheredNext(buffers: seq<seq<Byte>>, i: nat)
    requires i < |buffers|
    ensures Gathered(buffers[..i]) + buffers[i] == Gathered(buffers[..i + 1]) <= Gathered(buffers)
    ensures i == 0 ==> Gathered(buffers[..i]) == []
  {
    assert buffers[..i + 1][..i] == buffers[..i];
    GatheredLonger(buffers, i + 1);
  }

  lemma GatheredPart(buffers: seq<seq<Byte>>, i: nat, n: nat)
    requires i < |buffers| && n <= |buffers[i]|
    ensures var done := |Gathered(buffers[..i])|;
      && done + |buffers[i]| <= |Gathered(buffers)|
      && Gathered(buffers)[..done + n] == Gathered(buffers)[..done] + buffers[i][..n]
  {
    hide Gathered;
    GatheredNext(buffers, i);
    var all, done := Gathered(buffers), |Gathered(buffers[..i])|;
    assert all[..done + |buffers[i]|] == Gathered(buffers[..i + 1]);
    assert all[done..done + n] == all[..done + |buffers[i]|][done..done + n] == buffers[i][..n];
  }

  /** The commands of a pipeline, each as RESP bytes. */
  function Encoded(commands: seq<seq<seq<Byte>>>): (r: seq<seq<Byte>>)
    ensures |r| == |commands|
  {
    seq(|commands|, i requires 0 <= i < |commands| => Encode(Command(commands[i])))
  }

  method MakeCommands(commands: seq<seq<seq<Byte>>>) returns (data: seq<seq<Byte>>)
    ensures data == Encoded(commands)
  {
    hide Encode;
    data := [];
    var i := 0;
    while i < |commands|
      invariant 0 <= i <= |commands| && data == Encoded(commands)[..i]
    {
      var command := MakeCommand(commands[i]);
      data := data + [command];
      i := i + 1;
    }
  }

  /** A read that succeeds takes the first of the responses, and one that fails takes none. */
  lemma OneResponse(cfg: Config, pending: seq<Byte>, cfg': Config, pending': seq<Byte>, value: Value, ec: bool, n: nat)
    requires n > 0 && Responded(Respond(cfg, pending), cfg', pending', value, ec)
    ensures RespondMany(cfg, pending, n) ==
      if ec then RespondMany(cfg', pending', n) else After([value], RespondMany(cfg', pending', n - 1))
  {
    hide Respond;
  }

  /** What is left by one call is where the next one starts: reading `a` and then
      `b` responses is reading `a + b`. */
  lemma {:induction false} ResponsesAcrossCalls(cfg: Config, stream: seq<Byte>, a: nat, b: nat)
    ensures var first := RespondMany(cfg, stream, a);
      RespondMany(cfg, stream, a + b) ==
        if first.Answers? then After(first.values, RespondMany(first.cfg, first.rest, b)) else first
    decreases a
  {
    hide Respond;
    if a == 0 {
      AfterNothing(RespondMany(cfg, stream, b));
    } else {
      var r := Respond(cfg, stream);
      if !r.Waiting? {
        var cfg', v := if r.Answer? then IDLE else r.cfg, if r.Answer? then r.value else Nil;
        ResponsesAcrossCalls(cfg', r.rest, a - 1, b);
        var first := RespondMany(cfg', r.rest, a - 1);
        if first.Answers? {
          AfterBoth([v], first.values, RespondMany(first.cfg, first.rest, b));
        }
      }
    }
  }

  /** The protocol errors among the first `n` responses. */
  function Garbles(cfg: Config, stream: seq<Byte>, n: nat): nat
    decreases n
  {
    if n == 0 then 0
    else
      match Respond(cfg, stream)
      case Waiting(_) => 0
      case Garbled(c, rest) => 1 + Garbles(c, rest, n - 1)
      case Answer(_, rest) => Garbles(IDLE, rest, n - 1)
  }

  lemma {:induction false} GarblesNext(cfg: Config, stream: seq<Byte>, n: nat)
    ensures var first := RespondMany(cfg, stream, n);
      first.Answers? ==>
        Garbles(cfg, stream, n + 1) ==
          Garbles(cfg, stream, n) + (if Respond(first.cfg, first.rest).Garbled? then 1 else 0)
    decreases n
  {
    hide Respond;
    var r := Respond(cfg, stream);
    if n == 0 {
      assert r.Answer? ==> Garbles(IDLE, r.rest, 0) == 0;
      assert r.Garbled? ==> Garbles(r.cfg, r.rest, 0) == 0;
    } else if !r.Waiting? {
      GarblesNext(if r.Answer? then IDLE else r.cfg, r.rest, n - 1);
    }
  }

  lemma NoResponses(cfg: Config, stream: seq<Byte>)
    ensures RespondMany(cfg, stream, 0) == Answers([], cfg, stream) && Garbles(cfg, stream, 0) == 0
  {
  }

  lemma OneAnswer(values: seq<Value>, value: Value, cfg: Config, rest: seq<Byte>)
    ensures After(values, After([value], RespondMany(cfg, rest, 0))) == Answers(values + [value], cfg, rest)
  {
  }

  lemma AllAnswered(values: seq<Value>, cfg: Config, rest: seq<Byte>)
    ensures Answers(values, cfg, rest) == After(values, RespondMany(cfg, rest, 0))
  {
    assert values + [] == values;
  }

  lemma AfterNothing(rs: Responses)
    ensures After([], rs) == rs
  {
    assert [] + rs.values == rs.values;
  }

  lemma AfterBoth(a: seq<Value>, b: seq<Value>, rs: Responses)
    ensures After(a, After(b, rs)) == After(a + b, rs)
  {
    assert a + (b + rs.values) == a + b + rs.values;
  }

  /** An encoded reply at the front of the stream is the next response. */
  lemma RespondEncoding(r: Reply, rest: seq<Byte>)
    requires WellFormed(r)
    ensures Respond(IDLE, Encode(r) + rest) == Answer(Meaning(r), rest)
  {
    hide Run, Encode, WellFormed, Meaning;
    var e := Encode(r);
    assert [] + e + rest == e + rest;
    RoundTrip(r, [], rest);
    assert (e + rest)[|e|..] == rest;
  }

  lemma RespondFirst(rs: seq<Reply>, tail: seq<Byte>)
    requires rs != [] && forall i :: 0 <= i < |rs| ==> WellFormed(rs[i])
    ensures Respond(IDLE, EncodeAll(rs) + tail) == Answer(Meaning(rs[0]), EncodeAll(rs[1..]) + tail)
  {
    hide Respond, Encode, EncodeAll, WellFormed, Meaning;
    var first, more := Encode(rs[0]), EncodeAll(rs[1..]);
    RespondEncoding(rs[0], more + tail);
    EncodeAllFront(rs);
    assert first + more + tail == first + (more + tail);
  }

  lemma EncodeAllFront(rs: seq<Reply>)
    requires rs != []
    ensures EncodeAll(rs) == Encode(rs[0]) + EncodeAll(rs[1..])
  {
    hide Encode;
  }

  /**
   * End to end: a server that answers a pipeline of `|rs|` commands with the
   * replies `rs` gets all of them decoded in order, and whatever it sends
   * afterwards stays pending.
   */
  lemma {:induction false} PipelineAnswers(rs: seq<Reply>, tail: seq<Byte>)
    requires forall i :: 0 <= i < |rs| ==> WellFormed(rs[i])
    ensures RespondMany(IDLE, EncodeAll(rs) + tail, |rs|) == Answers(Meanings(rs), IDLE, tail)
  {
    hide Respond, Encode, WellFormed, Meaning;
    if rs == [] {
      assert EncodeAll(rs) + tail == tail;
    } else {
      RespondFirst(rs, tail);
      PipelineAnswers(rs[1..], tail);
    }
  }

  // ------------------------------------------------------- after a read error

  /** A connection between two calls: the parser, and the stream it has not consumed. */
  datatype Conn = Conn(cfg: Config, pending: seq<Byte>)

  /** How the read of a written command ended. */
  datatype Call = Call(value: Value, ec: bool)

  /** Calls in a row, each starting where the one before it stopped. */
  predicate Session(conns: seq<Conn>, calls: seq<Call>) {
    && |conns| == |calls| + 1
    && forall i :: 0 <= i < |calls| ==>
      var c, d := conns[i], conns[i + 1];
      Responded(Respond(c.cfg, c.pending), d.cfg, d.pending, calls[i].value, calls[i].ec)
  }

  /** How many of the first `n` calls returned a reply. */
  function Successes(calls: seq<Call>, n: nat): (k: nat)
    requires n <= |calls|
    ensures k <= n
  {
    if n == 0 then 0 else Successes(calls, n - 1) + (if calls[n - 1].ec then 0 else 1)
  }

  /** The next response is reply number k. */
  predicate Awaits(c: Conn, rs: seq<Reply>, k: nat) {
    k <= |rs| && Respond(c.cfg, c.pending) == Respond(IDLE, EncodeAll(rs[k..]))
  }

  lemma ReplyTaken(c: Conn, c': Conn, rs: seq<Reply>, k: nat, call: Call)
    requires forall i :: 0 <= i < |rs| ==> WellFormed(rs[i])
    requires Awaits(c, rs, k) && Responded(Respond(c.cfg, c.pending), c'.cfg, c'.pending, call.value, call.ec)
    ensures call.ec ==> Awaits(c', rs, k)
    ensures !call.ec ==> k < |rs| && call.value == Meaning(rs[k]) && Awaits(c', rs, k + 1)
  {
    hide Encode, WellFormed, Meaning, Run;
    if k < |rs| {
      RespondFirst(rs[k..], []);
      assert EncodeAll(rs[k..]) + [] == EncodeAll(rs[k..]) && rs[k..][1..] == rs[k + 1..];
      assert EncodeAll(rs[k + 1..]) + [] == EncodeAll(rs[k + 1..]);
    } else {
      assert rs[k..] == [] && EncodeAll([]) == [];
      NothingToRead();
    }
  }

  lemma NothingToRead()
    ensures Respond(IDLE, []) == Waiting(IDLE)
  {
  }

  lemma {:induction false} SessionAwaits(conns: seq<Conn>, calls: seq<Call>, rs: seq<Reply>, n: nat)
    requires forall i :: 0 <= i < |rs| ==> WellFormed(rs[i])
    requires Session(conns, calls) && conns[0] == Conn(IDLE, EncodeAll(rs)) && n <= |calls|
    ensures Awaits(conns[n], rs, Successes(calls, n))
  {
    hide Respond, WellFormed, Encode, Responded;
    if n == 0 {
      assert rs[0..] == rs;
    } else {
      SessionAwaits(conns, calls, rs, n - 1);
      ReplyTaken(conns[n - 1], conns[n], rs, Successes(calls, n - 1), calls[n - 1]);
    }
  }

  lemma {:induction false} AllSucceeded(calls: seq<Call>, n: nat)
    requires n <= |calls|
    ensures Successes(calls, n) == n <==> forall j :: 0 <= j < n ==> !calls[j].ec
  {
    if n > 0 {
      AllSucceeded(calls, n - 1);
    }
  }

  /**
   * A server answers the written commands with the replies `rs`.  A call that
   * returns gets the reply behind those already returned, which is the one to its
   * own command if and only if no earlier call failed once its command was
   * written: on a timeout, say, or because its error code was set on entry.  From
   * then on every call gets the reply to an earlier command.
   */
  lemma OwnReplyIff(conns: seq<Conn>, calls: seq<Call>, rs: seq<Reply>, n: nat)
    requires forall i :: 0 <= i < |rs| ==> WellFormed(rs[i])
    requires Session(conns, calls) && conns[0] == Conn(IDLE, EncodeAll(rs))
    requires n < |calls| && !calls[n].ec
    ensures var k := Successes(calls, n);
      && k < |rs| && calls[n].value == Meaning(rs[k])
      && (k == n <==> forall j :: 0 <= j < n ==> !calls[j].ec)
  {
    hide Respond, WellFormed, Encode, Meaning, Responded;
    SessionAwaits(conns, calls, rs, n);
    ReplyTaken(conns[n], conns[n + 1], rs, Successes(calls, n), calls[n]);
    AllSucceeded(calls, n);
  }

  /**
   * A first call that times out after `k` bytes of its reply, and a second one
   * that gets that reply.  With k == 0 the first call may as well have been
   * entered with its error code set.
   */
  lemma StaleReply(first: Reply, second: Reply, k: nat)
    requires WellFormed(first) && WellFormed(second) && k < |Encode(first)|
    ensures var s := Encode(first) + Encode(second);
      var r := Run(IDLE, s[..k], 0);
      && r.Incompleted? && (k == 0 ==> r.cfg == IDLE && s[k..] == s)
      && Session([Conn(IDLE, s), Conn(r.cfg, s[k..]), Conn(IDLE, Encode(second))],
                 [Call(Nil, true), Call(Meaning(first), false)])
  {
    hide Encode, WellFormed, Meaning, Run, Respond;
    var a, b := Encode(first), Encode(second);
    var s := a + b;
    assert s[..k] == a[..k] && s[..k] + s[k..] == s;
    PrefixWaits(first, k);
    RespondSplit(IDLE, s[..k], s[k..]);
    RespondEncoding(first, b);
    NothingConsumed(IDLE);
  }

  lemma NothingConsumed(cfg: Config)
    ensures Run(cfg, [], 0) == Incompleted(cfg)
  {
  }
}
