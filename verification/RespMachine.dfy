/**
 * The incremental parser as a push-down machine that consumes one byte at a
 * time.  A configuration holds every field a later byte can depend on; fields
 * that are dead in a state are left out of it.
 */
module RespMachine {
  import opened Bytes
  import opened RespProtocol

  /** Where the machine stands inside the current reply. */
  datatype Mode =
    | Begin                                        // Start, StartArray
    | Text(isError: bool, buf: seq<Byte>)          // String, ErrorString
    | TextLF(isError: bool, buf: seq<Byte>)        // StringLF, ErrorLF
    | Number(role: NumberRole, buf: seq<Byte>)     // Integer, BulkSize, ArraySize
    | NumberLF(role: NumberRole, buf: seq<Byte>)   // IntegerLF, BulkSizeLF, ArraySizeLF
    | Payload(buf: seq<Byte>, left: int)           // Bulk
    | PayloadCR(buf: seq<Byte>)                    // BulkCR
    | PayloadLF(buf: seq<Byte>)                    // BulkLF

  /** One open array: elements still to come, elements collected, size announced. */
  datatype Frame = Frame(remaining: int, elems: seq<Value>, declared: int)

  datatype Config = Config(mode: Mode, stack: seq<Frame>)

  const IDLE := Config(Begin, [])

  datatype Outcome = More(cfg: Config) | Done(value: Value) | Fail

  /** A finished value goes to the innermost open array, closing every array it completes. */
  function Deliver(stack: seq<Frame>, v: Value): (o: Outcome)
    ensures !o.Fail?
    decreases |stack|
  {
    if stack == [] then Done(v)
    else
      var below, top := stack[..|stack| - 1], stack[|stack| - 1];
      if top.remaining - 1 == 0 then Deliver(below, Array(top.elems + [v]))
      else More(Config(Begin, below + [top.(remaining := top.remaining - 1, elems := top.elems + [v])]))
  }

  function NumberRead(role: NumberRole, n: int, stack: seq<Frame>): Outcome {
    match role
    case IntegerRole => Deliver(stack, Int(n))
    case BulkSizeRole =>
      if n == -1 then Deliver(stack, Nil)
      else if n == 0 then More(Config(PayloadCR([]), stack))
      else if n < 0 then Fail
      else More(Config(Payload([], n), stack))
    case ArraySizeRole =>
      if n == -1 then Deliver(stack, Nil)
      else if n == 0 then Deliver(stack, Array([]))
      else if n < 0 then Fail
      else More(Config(Begin, stack + [Frame(n, [], n)]))
  }

  function Step(cfg: Config, c: Byte): Outcome {
    var st := cfg.stack;
    match cfg.mode
    case Begin =>
      (match LeadOf(c)
       case LineLead(isError) => More(Config(Text(isError, []), st))
       case NumberLead(role) => More(Config(Number(role, []), st))
       case NoLead => Fail)
    case Text(e, b) =>
      if c == CR then More(Config(TextLF(e, b), st))
      else if IsPrintable(c) then More(Config(Text(e, b + [c]), st))
      else Fail
    case TextLF(e, b) => if c == LF then Deliver(st, ByteArray(b, e)) else Fail
    case Number(k, b) =>
      if c == CR then (if b == [] then Fail else More(Config(NumberLF(k, b), st)))
      else if IsNumeric(c) then More(Config(Number(k, b + [c]), st))
      else Fail
    case NumberLF(k, b) => if c == LF then NumberRead(k, TextToLong(b), st) else Fail
    case Payload(b, left) =>
      if left == 1 then More(Config(PayloadCR(b + [c]), st))
      else More(Config(Payload(b + [c], left - 1), st))
    case PayloadCR(b) => if c == CR then More(Config(PayloadLF(b), st)) else Fail
    case PayloadLF(b) => if c == LF then Deliver(st, ByteArray(b, false)) else Fail
  }

  /** What a stretch of input comes to.  `next` is the position behind the last
      byte consumed; a failed machine keeps its open arrays (the source does not
      clear `arraySizes` and `arrayValues`). */
  datatype Result = Incompleted(cfg: Config) | Completed(next: nat, value: Value) | Failed(next: nat, cfg: Config)

  function Run(cfg: Config, s: seq<Byte>, pos: nat): (r: Result)
    requires pos <= |s|
    ensures r.Completed? || r.Failed? ==> pos < r.next <= |s|
    decreases |s| - pos
  {
    if pos == |s| then Incompleted(cfg)
    else
      match Step(cfg, s[pos])
      case More(cfg') => Run(cfg', s, pos + 1)
      case Done(v) => Completed(pos + 1, v)
      case Fail => Failed(pos + 1, Config(Begin, cfg.stack))
  }

  /** How a run over `s` goes on from the outcome of the byte just before `pos`. */
  function Resume(o: Outcome, stack: seq<Frame>, s: seq<Byte>, pos: nat): Result
    requires pos <= |s|
  {
    match o
    case More(cfg) => Run(cfg, s, pos)
    case Done(v) => Completed(pos, v)
    case Fail => Failed(pos, Config(Begin, stack))
  }

  /** A run takes one step and goes on. */
  lemma RunStep(cfg: Config, s: seq<Byte>, pos: nat)
    requires pos < |s|
    ensures Run(cfg, s, pos) == Resume(Step(cfg, s[pos]), cfg.stack, s, pos + 1)
  {
    hide Step;
  }

  lemma RunMoves(cfg: Config, s: seq<Byte>, pos: nat, next: Config)
    requires pos < |s| && Step(cfg, s[pos]) == More(next)
    ensures Run(cfg, s, pos) == Run(next, s, pos + 1)
  {
  }

  /** Copying `k` payload bytes at once is taking `k` steps. */
  lemma {:induction false} PayloadCopy(b: seq<Byte>, left: int, s: seq<Byte>, pos: nat, k: nat, stack: seq<Frame>)
    requires k <= left && pos + k <= |s| && 0 < left
    ensures Run(Config(Payload(b, left), stack), s, pos) ==
      Run(Config(if k == left then PayloadCR(b + s[pos..pos + k]) else Payload(b + s[pos..pos + k], left - k), stack),
          s, pos + k)
    decreases k
  {
    if k == 0 {
      assert b + s[pos..pos] == b;
    } else {
      assert b + [s[pos]] + s[pos + 1..pos + k] == b + s[pos..pos + k];
      if left > 1 {
        PayloadCopy(b + [s[pos]], left - 1, s, pos + 1, k - 1, stack);
      } else {
        assert s[pos..pos + 1] == [s[pos]];
      }
    }
  }

  // ------------------------------------------------------ chunk independence

  function Shift(r: Result, k: int): Result
    requires !r.Incompleted? ==> r.next + k >= 0
  {
    match r
    case Incompleted(c) => r
    case Completed(n, v) => Completed(n + k, v)
    case Failed(n, c) => Failed(n + k, c)
  }

  /** A run sees only the bytes in front of it. */
  lemma {:induction false} RunShift(cfg: Config, s: seq<Byte>, pos: nat, t: seq<Byte>, q: nat)
    requires pos <= |s| && q <= |t|
    requires s[pos..] == t[q..]
    ensures Run(cfg, s, pos) == Shift(Run(cfg, t, q), pos - q)
    decreases |s| - pos
  {
    if pos < |s| {
      assert s[pos] == s[pos..][0] == t[q..][0] == t[q];
      match Step(cfg, s[pos])
      case More(cfg') =>
        assert s[pos + 1..] == s[pos..][1..] == t[q..][1..] == t[q + 1..];
        RunShift(cfg', s, pos + 1, t, q + 1);
      case Done(v) =>
      case Fail =>
    } else {
      assert |t[q..]| == 0;
    }
  }

  /**
   * Chunk independence.  Parsing `a + b` at once is parsing `a`, and, when `a`
   * left the reply unfinished, going on with `b` from the configuration reached.
   */
  lemma {:induction false} ChunkIndependence(cfg: Config, a: seq<Byte>, b: seq<Byte>, pos: nat)
    requires pos <= |a|
    ensures Run(cfg, a + b, pos) ==
      match Run(cfg, a, pos)
      case Incompleted(mid) => Shift(Run(mid, b, 0), |a|)
      case Completed(n, v) => Completed(n, v)
      case Failed(n, c) => Failed(n, c)
    decreases |a| - pos
  {
    if pos == |a| {
      assert (a + b)[|a|..] == b == b[0..];
      RunShift(cfg, a + b, |a|, b, 0);
    } else {
      match Step(cfg, a[pos])
      case More(cfg') => ChunkIndependence(cfg', a, b, pos + 1);
      case Done(v) =>
      case Fail =>
    }
  }

  // ------------------------------------------------------ stack conservation

  /** Remaining plus collected elements make up the announced size, and an open
      array still misses at least one. */
  predicate FrameOk(f: Frame) {
    f.remaining >= 1 && f.remaining + |f.elems| == f.declared
  }

  predicate ModeOk(m: Mode) {
    match m
    case Text(_, b) => forall i :: 0 <= i < |b| ==> IsPrintable(b[i])
    case TextLF(_, b) => forall i :: 0 <= i < |b| ==> IsPrintable(b[i])
    case Number(_, b) => forall i :: 0 <= i < |b| ==> IsNumeric(b[i])
    case NumberLF(_, b) => |b| > 0 && forall i :: 0 <= i < |b| ==> IsNumeric(b[i])
    case Payload(_, left) => left >= 1
    case _ => true
  }

  predicate StackOk(stack: seq<Frame>) {
    forall i :: 0 <= i < |stack| ==> FrameOk(stack[i])
  }

  predicate ConfigOk(cfg: Config) {
    ModeOk(cfg.mode) && StackOk(cfg.stack)
  }

  lemma {:induction false} DeliverKeepsOk(stack: seq<Frame>, v: Value)
    requires StackOk(stack)
    ensures var o := Deliver(stack, v);
      o.More? ==> ConfigOk(o.cfg) && o.cfg.mode == Begin && 1 <= |o.cfg.stack| <= |stack|
    decreases |stack|
  {
    if stack != [] {
      var below, top := stack[..|stack| - 1], stack[|stack| - 1];
      assert FrameOk(top);
      if top.remaining - 1 == 0 {
        DeliverKeepsOk(below, Array(top.elems + [v]));
      }
    }
  }

  lemma StepKeepsOk(cfg: Config, c: Byte)
    requires ConfigOk(cfg)
    ensures Step(cfg, c).More? ==> ConfigOk(Step(cfg, c).cfg)
  {
    hide TextToLong, Deliver;
    forall v ensures Deliver(cfg.stack, v).More? ==> ConfigOk(Deliver(cfg.stack, v).cfg) {
      DeliverKeepsOk(cfg.stack, v);
    }
  }

  /** The array stacks stay consistent over every run, from and to any chunk
      boundary, failed runs included. */
  lemma {:induction false} RunKeepsOk(cfg: Config, s: seq<Byte>, pos: nat)
    requires pos <= |s| && ConfigOk(cfg)
    ensures var r := Run(cfg, s, pos); !r.Completed? ==> ConfigOk(r.cfg)
    decreases |s| - pos
  {
    if pos < |s| {
      StepKeepsOk(cfg, s[pos]);
      match Step(cfg, s[pos])
      case More(cfg') => RunKeepsOk(cfg', s, pos + 1);
      case Done(v) =>
      case Fail =>
    }
  }
}
