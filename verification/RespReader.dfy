/**
 * A recursive-descent reader of RESP over a complete byte string: the
 * reference definition the incremental parser is measured against.  It has no
 * stacks and no resumable states.
 */
module RespReader {
  import opened Bytes
  import opened RespProtocol

  /** `Got(v, next)`: a whole reply, ending just before `next`.
      `Short`: the string ends inside the reply.
      `Bad(next)`: the byte just before `next` cannot occur there. */
  datatype Read<+T> = Got(value: T, next: nat) | Short | Bad(next: nat)

  /** The two alphabets of CR LF terminated text. */
  datatype Alphabet = Printable | Numeric

  predicate Accepts(a: Alphabet, c: Byte) {
    match a
    case Printable => IsPrintable(c)
    case Numeric => IsNumeric(c)
  }

  /** The end of the longest stretch of accepted bytes from `pos`. */
  function SpanEnd(a: Alphabet, s: seq<Byte>, pos: nat): (e: nat)
    requires pos <= |s|
    ensures pos <= e <= |s|
    ensures forall i :: pos <= i < e ==> Accepts(a, s[i])
    ensures e < |s| ==> !Accepts(a, s[e])
    decreases |s| - pos
  {
    if pos < |s| && Accepts(a, s[pos]) then SpanEnd(a, s, pos + 1) else pos
  }

  /** CR LF at `pos`. */
  function ReadCrLf<T>(s: seq<Byte>, pos: nat, value: T): (r: Read<T>)
    requires pos <= |s|
    ensures r.Got? ==> r.next == pos + 2 <= |s|
    ensures r.Bad? ==> pos < r.next <= |s|
  {
    if pos == |s| then Short
    else if s[pos] != CR then Bad(pos + 1)
    else if pos + 1 == |s| then Short
    else if s[pos + 1] != LF then Bad(pos + 2)
    else Got(value, pos + 2)
  }

  /** Text of one alphabet up to CR LF; numbers must not be empty. */
  function ReadText(a: Alphabet, s: seq<Byte>, pos: nat): (r: Read<seq<Byte>>)
    requires pos <= |s|
    ensures r.Got? ==> pos < r.next <= |s|
    ensures r.Bad? ==> pos < r.next <= |s|
  {
    var e := SpanEnd(a, s, pos);
    if e == pos && a == Numeric && e < |s| && s[e] == CR then Bad(e + 1)
    else ReadCrLf(s, e, s[pos..e])
  }

  function ReadReply(s: seq<Byte>, pos: nat): (r: Read<Value>)
    requires pos <= |s|
    ensures r.Got? ==> pos < r.next <= |s|
    ensures r.Bad? ==> pos < r.next <= |s|
    decreases |s| - pos, 0, 0
  {
    if pos == |s| then Short
    else
      match LeadOf(s[pos])
      case NoLead => Bad(pos + 1)
      case LineLead(isError) => ReadString(s, pos + 1, isError)
      case NumberLead(role) =>
        match ReadText(Numeric, s, pos + 1)
        case Got(t, next) => ReadBehind(s, next, role, TextToLong(t))
        case Short => Short
        case Bad(next) => Bad(next)
  }

  /** What follows the number `n` of a reply, starting at `pos`. */
  function ReadBehind(s: seq<Byte>, pos: nat, role: NumberRole, n: int): (r: Read<Value>)
    requires 0 < pos <= |s|
    ensures r.Got? ==> pos <= r.next <= |s|
    ensures r.Bad? ==> pos <= r.next <= |s|
    decreases |s| - pos, 2, 0
  {
    match role
    case IntegerRole => Got(Int(n), pos)
    case BulkSizeRole => ReadBulk(s, pos, n)
    case ArraySizeRole =>
      if n == -1 then Got(Nil, pos)
      else if n < 0 then Bad(pos)
      else
        match ReadMany(s, pos, n)
        case Got(vs, next) => Got(Array(vs), next)
        case Short => Short
        case Bad(next) => Bad(next)
  }

  function ReadString(s: seq<Byte>, pos: nat, isError: bool): (r: Read<Value>)
    requires pos <= |s|
    ensures r.Got? ==> pos < r.next <= |s|
    ensures r.Bad? ==> pos < r.next <= |s|
  {
    match ReadText(Printable, s, pos)
    case Got(t, next) => Got(ByteArray(t, isError), next)
    case Short => Short
    case Bad(next) => Bad(next)
  }

  /** The payload of a bulk string whose announced size is `n`. */
  function ReadBulk(s: seq<Byte>, pos: nat, n: int): (r: Read<Value>)
    requires 0 < pos <= |s|
    ensures r.Got? ==> pos <= r.next <= |s|
    ensures r.Bad? ==> pos <= r.next <= |s|
  {
    if n == -1 then Got(Nil, pos)
    else if n < 0 then Bad(pos)
    else if |s| < pos + n then Short
    else ReadCrLf(s, pos + n, ByteArray(s[pos..pos + n], false))
  }

  /** `n` replies one after the other. */
  function ReadMany(s: seq<Byte>, pos: nat, n: nat): (r: Read<seq<Value>>)
    requires pos <= |s|
    ensures r.Got? ==> pos <= r.next <= |s| && |r.value| == n
    ensures r.Bad? ==> pos < r.next <= |s|
    decreases |s| - pos, 1, n
  {
    if n == 0 then Got([], pos)
    else
      match ReadReply(s, pos)
      case Short => Short
      case Bad(next) => Bad(next)
      case Got(v, next) =>
        (match ReadMany(s, next, n - 1)
         case Got(vs, next') => Got([v] + vs, next')
         case Short => Short
         case Bad(next') => Bad(next'))
  }

  // ------------------------------------------------------------- round trip

  predicate At(s: seq<Byte>, pos: nat, part: seq<Byte>) {
    pos + |part| <= |s| && s[pos..pos + |part|] == part
  }

  lemma AtSplit(s: seq<Byte>, pos: nat, a: seq<Byte>, b: seq<Byte>)
    requires At(s, pos, a + b)
    ensures At(s, pos, a) && At(s, pos + |a|, b)
  {
    var w := s[pos..pos + |a + b|];
    assert s[pos..pos + |a|] == w[..|a|] == a;
    assert s[pos + |a|..pos + |a| + |b|] == w[|a|..] == b;
  }

  lemma {:induction false} SpanIs(a: Alphabet, s: seq<Byte>, pos: nat, e: nat)
    requires pos <= e < |s|
    requires forall i :: pos <= i < e ==> Accepts(a, s[i])
    requires !Accepts(a, s[e])
    ensures SpanEnd(a, s, pos) == e
    decreases e - pos
  {
    if pos < e {
      SpanIs(a, s, pos + 1, e);
    }
  }

  lemma ReadsText(a: Alphabet, s: seq<Byte>, pos: nat, t: seq<Byte>)
    requires At(s, pos, t + CRLF)
    requires forall i :: 0 <= i < |t| ==> Accepts(a, t[i])
    requires a == Numeric ==> |t| > 0
    ensures ReadText(a, s, pos) == Got(t, pos + |t| + 2)
  {
    AtSplit(s, pos, t, CRLF);
    var e := pos + |t|;
    assert s[e] == s[e..e + 2][0] && s[e + 1] == s[e..e + 2][1];
    forall i | pos <= i < e ensures Accepts(a, s[i]) {
      assert s[i] == s[pos..e][i - pos];
    }
    SpanIs(a, s, pos, e);
  }

  /** A reply that starts with a number: reading it is reading what is behind the number. */
  lemma ReadsNumber(s: seq<Byte>, pos: nat, lead: Byte, n: int, rest: seq<Byte>)
    requires LeadOf(lead).NumberLead?
    requires At(s, pos, Numbered(lead, n, rest))
    ensures ReadReply(s, pos) == ReadBehind(s, pos + |IntText(n)| + 3, LeadOf(lead).role, n)
    ensures At(s, pos + |IntText(n)| + 3, rest)
  {
    hide IntText, TextToLong, SpanEnd, ReadBulk, ReadBehind, ReadText;
    var t := IntText(n);
    assert Numbered(lead, n, rest) == [lead] + (t + CRLF + rest);
    AtSplit(s, pos, [lead], t + CRLF + rest);
    assert s[pos] == s[pos..pos + 1][0];
    AtSplit(s, pos + 1, t + CRLF, rest);
    TextToLongInverts(n);
    ReadsText(Numeric, s, pos + 1, t);
  }

  lemma ReadsLine(s: seq<Byte>, pos: nat, lead: Byte, t: seq<Byte>)
    requires LeadOf(lead).LineLead?
    requires At(s, pos, [lead] + t + CRLF)
    requires forall i :: 0 <= i < |t| ==> IsPrintable(t[i])
    ensures ReadReply(s, pos) == Got(ByteArray(t, LeadOf(lead).isError), pos + |t| + 3)
  {
    assert [lead] + t + CRLF == [lead] + (t + CRLF);
    AtSplit(s, pos, [lead], t + CRLF);
    assert s[pos] == s[pos..pos + 1][0];
    ReadsText(Printable, s, pos + 1, t);
  }

  lemma ReadsPayload(s: seq<Byte>, pos: nat, d: seq<Byte>)
    requires 0 < pos
    requires At(s, pos, d + CRLF)
    ensures ReadBulk(s, pos, |d|) == Got(ByteArray(d, false), pos + |d| + 2)
  {
    AtSplit(s, pos, d, CRLF);
    var e := pos + |d|;
    assert s[e] == s[e..e + 2][0] && s[e + 1] == s[e..e + 2][1];
  }

  lemma ReadsBulk(s: seq<Byte>, pos: nat, d: seq<Byte>)
    requires At(s, pos, Encode(Bulk(d)))
    ensures ReadReply(s, pos) == Got(ByteArray(d, false), pos + |Encode(Bulk(d))|)
  {
    hide IntText, TextToLong, ReadReply, ReadText, Digits, At;
    ReadsNumber(s, pos, DOLLAR, |d|, d + CRLF);
    ReadsPayload(s, pos + |IntText(|d|)| + 3, d);
  }

  /** Wherever a well-formed reply stands in a byte string, reading there yields
      its meaning and stops right behind it, whatever follows. */
  lemma {:induction false} ReadsEncoding(r: Reply, s: seq<Byte>, pos: nat)
    requires WellFormed(r)
    requires At(s, pos, Encode(r))
    ensures ReadReply(s, pos) == Got(Meaning(r), pos + |Encode(r)|)
    decreases r, 1
  {
    hide IntText, TextToLong, ReadReply, ReadText, Digits, At;
    match r
    case Simple(t) => ReadsLine(s, pos, PLUS, t);
    case Error(t) => ReadsLine(s, pos, DASH, t);
    case Integer(n) => ReadsNumber(s, pos, COLON, n, []);
    case Bulk(d) => ReadsBulk(s, pos, d);
    case NullBulk => ReadsNumber(s, pos, DOLLAR, -1, []);
    case NullArray => ReadsNumber(s, pos, STAR, -1, []);
    case Multi(items) =>
      ReadsNumber(s, pos, STAR, |items|, EncodeAll(items));
      ReadsEncodings(items, s, pos + |IntText(|items|)| + 3);
  }

  lemma {:induction false} ReadsEncodings(rs: seq<Reply>, s: seq<Byte>, pos: nat)
    requires forall i :: 0 <= i < |rs| ==> WellFormed(rs[i])
    requires At(s, pos, EncodeAll(rs))
    ensures ReadMany(s, pos, |rs|) == Got(Meanings(rs), pos + |EncodeAll(rs)|)
    decreases rs, 0
  {
    hide ReadReply, At, Encode, Meaning, WellFormed;
    if rs != [] {
      AtSplit(s, pos, Encode(rs[0]), EncodeAll(rs[1..]));
      ReadsEncoding(rs[0], s, pos);
      ReadsEncodings(rs[1..], s, pos + |Encode(rs[0])|);
    }
  }
}
