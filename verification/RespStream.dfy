/** Streams of replies: what a connection's byte stream decodes to, however it is cut. */
module RespStream {
  import opened Bytes
  import opened RespProtocol
  import opened RespMachine
  import opened RespRefinement

  /** The state a stream leaves the parser in: ready for more, or stopped at a protocol error. */
  datatype Tail = Open(cfg: Config) | Broken(cfg: Config)
  datatype Stream = Stream(values: seq<Value>, tail: Tail)

  function Prepend(values: seq<Value>, rest: Stream): Stream {
    Stream(values + rest.values, rest.tail)
  }

  /** Every reply completed by `s[pos..]`, up to the first protocol error. */
  function Replies(cfg: Config, s: seq<Byte>, pos: nat): Stream
    requires pos <= |s|
    decreases |s| - pos
  {
    match Run(cfg, s, pos)
    case Incompleted(c) => Stream([], Open(c))
    case Failed(_, c) => Stream([], Broken(c))
    case Completed(n, v) => Prepend([v], Replies(IDLE, s, n))
  }

  /** One step of decoding, seen through the slice a parse call is given. */
  lemma RepliesStep(cfg: Config, s: seq<Byte>, pos: nat)
    requires pos <= |s|
    ensures var r, st := Run(cfg, s[pos..], 0), Replies(cfg, s, pos);
      && (r.Incompleted? ==> st == Stream([], Open(r.cfg)))
      && (r.Failed? ==> st == Stream([], Broken(r.cfg)))
      && (r.Completed? ==> pos + r.next <= |s| && st == Prepend([r.value], Replies(IDLE, s, pos + r.next)))
  {
    assert s[pos..] == s[pos..][0..];
    RunShift(cfg, s, pos, s[pos..], 0);
  }

  lemma {:induction false} RepliesShift(cfg: Config, s: seq<Byte>, pos: nat, t: seq<Byte>, q: nat)
    requires pos <= |s| && q <= |t| && s[pos..] == t[q..]
    ensures Replies(cfg, s, pos) == Replies(cfg, t, q)
    decreases |s| - pos
  {
    RunShift(cfg, s, pos, t, q);
    var r := Run(cfg, t, q);
    if r.Completed? {
      var k := r.next - q;
      assert s[pos + k..] == s[pos..][k..] == t[q..][k..] == t[r.next..];
      RepliesShift(IDLE, s, pos + k, t, r.next);
    }
  }

  /**
   * Reassembly.  The replies of `a + b` are those of `a` followed by those of
   * `b` decoded from where `a` left the parser, so every way of cutting a stream
   * into reads decodes to the same replies.
   */
  lemma {:induction false} RepliesSplit(cfg: Config, a: seq<Byte>, b: seq<Byte>, pos: nat)
    requires pos <= |a|
    ensures var first := Replies(cfg, a, pos);
      Replies(cfg, a + b, pos) ==
        if first.tail.Broken? then first
        else Prepend(first.values, Replies(first.tail.cfg, b, 0))
    decreases |a| - pos
  {
    hide Run;
    ChunkIndependence(cfg, a, b, pos);
    var r := Run(cfg, a, pos);
    match r
    case Completed(n, v) => RepliesSplit(IDLE, a, b, n);
    case Failed(_, _) =>
    case Incompleted(mid) => RepliesGoOn(cfg, a, b, pos, mid);
  }

  lemma RepliesGoOn(cfg: Config, a: seq<Byte>, b: seq<Byte>, pos: nat, mid: Config)
    requires pos <= |a| && Run(cfg, a, pos) == Incompleted(mid)
    ensures Replies(cfg, a + b, pos) == Replies(mid, b, 0) == Prepend([], Replies(mid, b, 0))
  {
    ChunkIndependence(cfg, a, b, pos);
    var rb := Run(mid, b, 0);
    if rb.Completed? {
      assert (a + b)[|a| + rb.next..] == b[rb.next..];
      RepliesShift(IDLE, a + b, |a| + rb.next, b, rb.next);
    }
    assert [] + Replies(mid, b, 0).values == Replies(mid, b, 0).values;
  }

  /** What a server that sends the replies `rs` makes the client decode. */
  lemma {:induction false} RepliesOfEncodings(rs: seq<Reply>)
    requires forall i :: 0 <= i < |rs| ==> WellFormed(rs[i])
    ensures Replies(IDLE, EncodeAll(rs), 0) == Stream(Meanings(rs), Open(IDLE))
  {
    hide Step, Encode;
    if rs != [] {
      var a, b := Encode(rs[0]), EncodeAll(rs[1..]);
      RepliesOfEncodings(rs[1..]);
      RoundTrip(rs[0], [], b);
      assert [] + a + b == a + b;
      assert (a + b)[|a|..] == b[0..];
      RepliesShift(IDLE, a + b, |a|, b, 0);
    }
  }
}
