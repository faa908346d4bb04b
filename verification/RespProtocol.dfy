/**
 * The two sides of the Redis serialization protocol (RESP): what a server
 * puts on the wire (`Reply`) and what the client hands out (`Value`).
 */
module RespProtocol {
  import opened Bytes

  /** A decoded reply.  Simple and bulk strings decode to the same kind of value. */
  datatype Value =
    | Nil
    | Int(n: int)
    | ByteArray(data: seq<Byte>, isError: bool)
    | Array(elems: seq<Value>)

  /** A reply as it is spelled on the wire. */
  datatype Reply =
    | Simple(text: seq<Byte>)
    | Error(text: seq<Byte>)
    | Integer(n: int)
    | Bulk(data: seq<Byte>)
    | NullBulk
    | NullArray
    | Multi(items: seq<Reply>)

  const PLUS: Byte := 43
  const COLON: Byte := 58
  const DOLLAR: Byte := 36
  const STAR: Byte := 42

  /** What a number on the wire is for. */
  datatype NumberRole = IntegerRole | BulkSizeRole | ArraySizeRole

  /** What the first byte of a reply announces. */
  datatype Lead = LineLead(isError: bool) | NumberLead(role: NumberRole) | NoLead

  function LeadOf(c: Byte): Lead {
    if c == PLUS then LineLead(false)
    else if c == DASH then LineLead(true)
    else if c == COLON then NumberLead(IntegerRole)
    else if c == DOLLAR then NumberLead(BulkSizeRole)
    else if c == STAR then NumberLead(ArraySizeRole)
    else NoLead
  }

  /** `isChar(c) && !isControl(c)`: seven-bit and not a control character. */
  predicate IsPrintable(c: Byte) {
    c <= 127 && !(c <= 31 || c == 127)
  }

  /** The bytes the parser lets into the text of a number. */
  predicate IsNumeric(c: Byte) {
    IsDigit(c) || c == DASH
  }

  // ---------------------------------------------------------------- numbers

  /** The accumulation loop of `bufToLong`, on unbounded integers. */
  function Accumulate(s: seq<Byte>): int {
    if s == [] then 0 else Accumulate(s[..|s| - 1]) * 10 + (s[|s| - 1] as int - 48)
  }

  /** `bufToLong` with its assertion compiled out, as in a Release build. */
  function TextToLong(s: seq<Byte>): int {
    if s == [] then 0
    else if s[0] == DASH then -Accumulate(s[1..])
    else Accumulate(s)
  }

  /** `std::to_string` of a non-negative number. */
  function Digits(n: nat): (s: seq<Byte>)
    ensures |s| > 0
    ensures forall i :: 0 <= i < |s| ==> IsDigit(s[i])
  {
    if n < 10 then [48 + n] else Digits(n / 10) + [48 + n % 10]
  }

  function IntText(n: int): (s: seq<Byte>)
    ensures |s| > 0
  {
    if n < 0 then [DASH] + Digits(-n) else Digits(n)
  }

  lemma {:induction false} AccumulateDigits(n: nat)
    ensures Accumulate(Digits(n)) == n
  {
    if n < 10 {
      assert [48 + n][..0] == [];
    } else {
      AccumulateDigits(n / 10);
      assert Digits(n)[..|Digits(n)| - 1] == Digits(n / 10);
    }
  }

  /** Printing a number and reading it back is the identity, for every integer. */
  lemma TextToLongInverts(n: int)
    ensures TextToLong(IntText(n)) == n
    ensures forall i :: 0 <= i < |IntText(n)| ==> IsNumeric(IntText(n)[i])
  {
    if n < 0 {
      AccumulateDigits(-n);
      assert IntText(n)[1..] == Digits(-n);
    } else {
      AccumulateDigits(n);
    }
  }

  predicate AllDigits(s: seq<Byte>) {
    forall i :: 0 <= i < |s| ==> IsDigit(s[i])
  }

  /**
   * The claim in the source that every character `bufToLong` meets "must be
   * valid, already checked in the parser": no dash behind the sign.
   */
  predicate DashOnlyLeads(s: seq<Byte>) {
    forall i :: 0 < i < |s| ==> s[i] != DASH
  }

  /** The characters the accumulation loop of `bufToLong` asserts to be digits. */
  function LoopText(s: seq<Byte>): seq<Byte> {
    if s != [] && s[0] == DASH then s[1..] else s
  }

  /**
   * For text the parser accepted, the assertion in `bufToLong` holds exactly
   * when no dash follows the first character.
   */
  lemma AssertionHoldsIff(s: seq<Byte>)
    requires forall i :: 0 <= i < |s| ==> IsNumeric(s[i])
    ensures AllDigits(LoopText(s)) <==> DashOnlyLeads(s)
  {
    if s != [] && s[0] == DASH {
      assert forall i :: 0 <= i < |s| - 1 ==> LoopText(s)[i] == s[i + 1];
      assert forall i :: 0 < i < |s| ==> s[i] == LoopText(s)[i - 1];
    }
  }

  // ------------------------------------------------------------- 64-bit range

  const LONG_LIMIT: int := 0x8000_0000_0000_0000

  predicate InLong(v: int) {
    -LONG_LIMIT <= v < LONG_LIMIT
  }

  /** The product and the sum of every turn of the accumulation loop fit a `long`. */
  predicate Accumulates(s: seq<Byte>) {
    s == [] || (Accumulates(s[..|s| - 1]) && LastTurnFits(s))
  }

  predicate LastTurnFits(s: seq<Byte>) {
    s == [] || (InLong(Accumulate(s[..|s| - 1]) * 10) && InLong(Accumulate(s)))
  }

  /** No step of `bufToLong` overflows, the final change of sign included. */
  predicate Converts(s: seq<Byte>) {
    Accumulates(LoopText(s)) && InLong(TextToLong(s))
  }

  lemma {:induction false} AccumulatesIff(s: seq<Byte>)
    requires forall i :: 0 <= i < |s| ==> IsNumeric(s[i])
    ensures Accumulates(s) <==> LastTurnFits(s)
  {
    if s != [] {
      var t := s[..|s| - 1];
      AccumulatesIff(t);
      if t != [] {
        assert Accumulate(t) == Accumulate(t[..|t| - 1]) * 10 + (t[|t| - 1] as int - 48);
      }
    }
  }

  /**
   * For every text the parser lets through, `bufToLong` stays in range exactly
   * when its last turn and its change of sign do.
   */
  lemma NoOverflowIff(s: seq<Byte>)
    requires forall i :: 0 <= i < |s| ==> IsNumeric(s[i])
    ensures Converts(s) <==> LastTurnFits(LoopText(s)) && InLong(TextToLong(s))
  {
    AccumulatesIff(LoopText(s));
  }

  lemma {:induction false} AccumulateNonNegative(s: seq<Byte>)
    requires AllDigits(s)
    ensures Accumulate(s) >= 0
  {
    if s != [] {
      AccumulateNonNegative(s[..|s| - 1]);
    }
  }

  /**
   * For a sign and digits that means a magnitude below 2^63.  (-2^63 is the one
   * `long` that `bufToLong` cannot read.)
   */
  lemma DigitsConvertIff(s: seq<Byte>)
    requires AllDigits(LoopText(s))
    ensures Converts(s) <==> -LONG_LIMIT < TextToLong(s) < LONG_LIMIT
  {
    var t := LoopText(s);
    AccumulatesIff(t);
    AccumulateNonNegative(t);
    if t != [] {
      AccumulateNonNegative(t[..|t| - 1]);
    }
  }

  /** The printed numbers that can be read back. */
  lemma IntTextConvertsIff(n: int)
    ensures Converts(IntText(n)) <==> -LONG_LIMIT < n < LONG_LIMIT
  {
    hide Converts;
    TextToLongInverts(n);
    assert n < 0 ==> IntText(n)[1..] == Digits(-n);
    DigitsConvertIff(IntText(n));
  }

  // --------------------------------------------------------------- encoding

  const CRLF: seq<Byte> := [CR, LF]

  /** A lead byte, a number, CR LF, and what the number announces. */
  function Numbered(lead: Byte, n: int, rest: seq<Byte>): (s: seq<Byte>)
    ensures |s| == |IntText(n)| + 3 + |rest|
  {
    [lead] + IntText(n) + CRLF + rest
  }

  /** The bytes of a reply, as RESP prescribes them. */
  function Encode(r: Reply): (s: seq<Byte>)
    ensures |s| > 0
    decreases r, 1
  {
    match r
    case Simple(t) => [PLUS] + t + CRLF
    case Error(t) => [DASH] + t + CRLF
    case Integer(n) => Numbered(COLON, n, [])
    case Bulk(d) => Numbered(DOLLAR, |d|, d + CRLF)
    case NullBulk => Numbered(DOLLAR, -1, [])
    case NullArray => Numbered(STAR, -1, [])
    case Multi(items) => Numbered(STAR, |items|, EncodeAll(items))
  }

  function EncodeAll(rs: seq<Reply>): seq<Byte>
    decreases rs, 0
  {
    if rs == [] then [] else Encode(rs[0]) + EncodeAll(rs[1..])
  }

  /** What RESP demands of the text of simple strings and errors. */
  predicate LegalText(t: seq<Byte>) {
    forall i :: 0 <= i < |t| ==> t[i] != CR && t[i] != LF
  }

  /** What RESP demands of a reply: no CR and no LF in its lines. */
  predicate Legal(r: Reply) {
    match r
    case Simple(t) => LegalText(t)
    case Error(t) => LegalText(t)
    case Multi(items) => forall i :: 0 <= i < |items| ==> Legal(items[i])
    case _ => true
  }

  predicate PrintableText(t: seq<Byte>) {
    forall i :: 0 <= i < |t| ==> IsPrintable(t[i])
  }

  /** What the parser demands of a reply: only printable seven-bit characters in its lines. */
  predicate PrintableLines(r: Reply) {
    match r
    case Simple(t) => PrintableText(t)
    case Error(t) => PrintableText(t)
    case Multi(items) => forall i :: 0 <= i < |items| ==> PrintableLines(items[i])
    case _ => true
  }

  /** Every number in the encoding of the reply is read without overflow. */
  predicate NumbersConvert(r: Reply) {
    match r
    case Simple(_) => true
    case Error(_) => true
    case Integer(n) => Converts(IntText(n))
    case Bulk(d) => Converts(IntText(|d|))
    case NullBulk => Converts(IntText(-1))
    case NullArray => Converts(IntText(-1))
    case Multi(items) => Converts(IntText(|items|)) && forall i :: 0 <= i < |items| ==> NumbersConvert(items[i])
  }

  /** A reply that the client can read: printable lines, and numbers in the range of `bufToLong`. */
  predicate WellFormed(r: Reply) {
    match r
    case Simple(t) => PrintableText(t)
    case Error(t) => PrintableText(t)
    case Integer(n) => -LONG_LIMIT < n < LONG_LIMIT
    case Bulk(d) => |d| < LONG_LIMIT
    case Multi(items) => |items| < LONG_LIMIT && forall i :: 0 <= i < |items| ==> WellFormed(items[i])
    case _ => true
  }

  /** The bounds are exact: of the replies with printable lines, those keep every accumulator in range. */
  lemma {:induction false} WellFormedIff(r: Reply)
    ensures WellFormed(r) <==> PrintableLines(r) && NumbersConvert(r)
  {
    hide Converts, IntText;
    match r
    case Integer(n) => IntTextConvertsIff(n);
    case Bulk(d) => IntTextConvertsIff(|d|);
    case Multi(items) =>
      IntTextConvertsIff(|items|);
      forall i | 0 <= i < |items|
        ensures WellFormed(items[i]) <==> PrintableLines(items[i]) && NumbersConvert(items[i])
      {
        WellFormedIff(items[i]);
      }
    case _ => IntTextConvertsIff(-1);
  }

  /** RESP allows all of them, and more. */
  lemma {:induction false} WellFormedIsLegal(r: Reply)
    requires WellFormed(r)
    ensures Legal(r)
  {
    if r.Multi? {
      forall i | 0 <= i < |r.items| ensures Legal(r.items[i]) {
        WellFormedIsLegal(r.items[i]);
      }
    }
  }

  /** The value a reply stands for. */
  function Meaning(r: Reply): Value
    decreases r, 1
  {
    match r
    case Simple(t) => ByteArray(t, false)
    case Error(t) => ByteArray(t, true)
    case Integer(n) => Int(n)
    case Bulk(d) => ByteArray(d, false)
    case NullBulk => Nil
    case NullArray => Nil
    case Multi(items) => Array(Meanings(items))
  }

  function Meanings(rs: seq<Reply>): (vs: seq<Value>)
    ensures |vs| == |rs|
    decreases rs, 0
  {
    if rs == [] then [] else [Meaning(rs[0])] + Meanings(rs[1..])
  }
}
