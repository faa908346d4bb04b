/**
 * RESP byte by byte: the replies and commands on the wire with their bytes
 * written as numbers, and decimal numerals by the values of their places.
 */
module WireFormat {
  import opened Bytes
  import opened RespProtocol
  import opened RespMachine
  import opened RespRefinement

  // ------------------------------------------------------------- the alphabets

  /** What the parser lets into lines and numbers, and what RESP keeps out of lines. */
  lemma AlphabetsIff(c: Byte)
    ensures IsPrintable(c) <==> 32 <= c <= 126
    ensures IsNumeric(c) <==> c == 45 || 48 <= c <= 57
    ensures LegalText([c]) <==> c != 13 && c != 10
  {
    assert [c][0] == c;
  }

  /** Exactly five bytes start a reply. */
  lemma LeadsIff(c: Byte, stack: seq<Frame>)
    ensures Run(Config(Begin, stack), [c], 0) == Failed(1, Config(Begin, stack)) <==>
      c != 36 && c != 42 && c != 43 && c != 45 && c != 58
    ensures Run(Config(Begin, stack), [c], 0).Incompleted? <==> c in {36, 42, 43, 45, 58}
  {
    RunStep(Config(Begin, stack), [c], 0);
  }

  // ---------------------------------------------------------- decimal numerals

  function Pow10(k: nat): nat {
    if k == 0 then 1 else 10 * Pow10(k - 1)
  }

  /** The value of a numeral, digit by digit from the front. */
  function Places(t: seq<Byte>): int {
    if t == [] then 0 else (t[0] as int - 48) * Pow10(|t| - 1) + Places(t[1..])
  }

  lemma {:induction false} PlacesSnoc(t: seq<Byte>, c: Byte)
    ensures Places(t + [c]) == 10 * Places(t) + (c as int - 48)
  {
    if t == [] {
      assert [c][1..] == [] && Pow10(0) == 1;
    } else {
      var d := t[0] as int - 48;
      var p := Pow10(|t| - 1);
      PlacesSnoc(t[1..], c);
      assert (t + [c])[1..] == t[1..] + [c];
      assert Pow10(|t|) == 10 * p;
      Tenfold(d, p);
    }
  }

  lemma Tenfold(d: int, p: int)
    ensures d * (10 * p) == 10 * (d * p)
  {
  }

  lemma {:induction false} AccumulateIsPlaces(t: seq<Byte>)
    ensures Accumulate(t) == Places(t)
  {
    if t != [] {
      AccumulateIsPlaces(t[..|t| - 1]);
      PlacesSnoc(t[..|t| - 1], t[|t| - 1]);
      assert t == t[..|t| - 1] + [t[|t| - 1]];
    }
  }

  /** Every text of digits is read as the number it denotes, and behind a dash as the negative one. */
  lemma TextToLongIsDecimal(t: seq<Byte>)
    requires t != [] && forall i :: 0 <= i < |t| ==> 48 <= t[i] <= 57
    ensures TextToLong(t) == Places(t)
    ensures TextToLong([45] + t) == -Places(t)
  {
    assert ([45] + t)[1..] == t;
    AccumulateIsPlaces(t);
  }

  lemma {:induction false} DigitsLead(n: nat)
    ensures n > 0 ==> Digits(n)[0] != 48
  {
    if n >= 10 {
      DigitsLead(n / 10);
    }
  }

  /** Numbers are printed in decimal, without leading zeros and with a dash if they are negative. */
  lemma IntTextIsDecimal(n: nat)
    ensures var t := IntText(n);
      && (forall i :: 0 <= i < |t| ==> 48 <= t[i] <= 57)
      && Places(t) == n && (n > 0 ==> t[0] != 48)
    ensures IntText(0) == [48]
    ensures var m := -(n as int); n > 0 ==> IntText(m) == [45] + IntText(n)
  {
    AccumulateDigits(n);
    AccumulateIsPlaces(Digits(n));
    DigitsLead(n);
  }

  // ---------------------------------------------------------------- the replies

  lemma NumberedBytes(lead: Byte, n: int, rest: seq<Byte>)
    ensures Numbered(lead, n, rest) == [lead] + IntText(n) + [13, 10] + rest
    ensures Numbered(lead, n, []) == [lead] + IntText(n) + [13, 10]
    ensures Numbered(lead, -1, []) == [lead, 45, 49, 13, 10]
  {
    assert Digits(1) == [49] && IntText(-1) == [45, 49];
    hide IntText;
    assert [lead] + IntText(n) + [13, 10] + [] == [lead] + IntText(n) + [13, 10];
  }

  /** The bytes of each kind of reply. */
  lemma EncodingBytes(t: seq<Byte>, n: int, d: seq<Byte>, items: seq<Reply>)
    ensures Encode(Simple(t)) == [43] + t + [13, 10]
    ensures Encode(Error(t)) == [45] + t + [13, 10]
    ensures Encode(Integer(n)) == [58] + IntText(n) + [13, 10]
    ensures Encode(Bulk(d)) == [36] + IntText(|d|) + [13, 10] + (d + [13, 10])
    ensures Encode(NullBulk) == [36, 45, 49, 13, 10]
    ensures Encode(NullArray) == [42, 45, 49, 13, 10]
    ensures Encode(Multi(items)) == [42] + IntText(|items|) + [13, 10] + EncodeAll(items)
    ensures EncodeAll([]) == [] && (items != [] ==> EncodeAll(items) == Encode(items[0]) + EncodeAll(items[1..]))
  {
    hide IntText, Numbered;
    NumberedBytes(58, n, []);
    NumberedBytes(36, |d|, d + [13, 10]);
    NumberedBytes(36, 0, []);
    NumberedBytes(42, |items|, EncodeAll(items));
  }

  lemma Completes(r: Reply)
    requires WellFormed(r)
    ensures Run(IDLE, Encode(r), 0) == Completed(|Encode(r)|, Meaning(r))
  {
    hide Run, Encode, WellFormed, Meaning;
    assert [] + Encode(r) + [] == Encode(r);
    RoundTrip(r, [], []);
  }

  /** ":" and a number: an integer. */
  lemma IntegerOnWire(n: int)
    requires -9223372036854775808 < n < 9223372036854775808
    ensures var s := [58] + IntText(n) + [13, 10]; Run(IDLE, s, 0) == Completed(|s|, Int(n))
  {
    hide IntText, Run;
    EncodingBytes([], n, [], []);
    Completes(Integer(n));
  }

  /** "$", a size and as many bytes, whatever they are: a string. */
  lemma BulkOnWire(d: seq<Byte>)
    requires |d| < 9223372036854775808
    ensures var s := [36] + IntText(|d|) + [13, 10] + (d + [13, 10]);
      Run(IDLE, s, 0) == Completed(|s|, ByteArray(d, false))
  {
    hide IntText, Run;
    EncodingBytes([], 0, d, []);
    Completes(Bulk(d));
  }

  /** "+" and a line of printable characters: a string; "-" and such a line: an error. */
  lemma LineOnWire(t: seq<Byte>)
    requires forall i :: 0 <= i < |t| ==> 32 <= t[i] <= 126
    ensures var s := [43] + t + [13, 10]; Run(IDLE, s, 0) == Completed(|s|, ByteArray(t, false))
    ensures var s := [45] + t + [13, 10]; Run(IDLE, s, 0) == Completed(|s|, ByteArray(t, true))
  {
    hide Run;
    EncodingBytes(t, 0, [], []);
    Completes(Simple(t));
    Completes(Error(t));
  }

  /** The two spellings of nil, and the empty array. */
  lemma NilOnWire()
    ensures Run(IDLE, [36, 45, 49, 13, 10], 0) == Completed(5, Nil)
    ensures Run(IDLE, [42, 45, 49, 13, 10], 0) == Completed(5, Nil)
    ensures Run(IDLE, [42, 48, 13, 10], 0) == Completed(4, Array([]))
  {
    EncodingBytes([], 0, [], []);
    IntTextIsDecimal(0);
    assert [42] + [48] + [13, 10] + [] == [42, 48, 13, 10];
    Completes(NullBulk);
    Completes(NullArray);
    Completes(Multi([]));
  }

  /** "*", a count and as many replies: the array of what they mean. */
  lemma ArrayOnWire(items: seq<Reply>)
    requires |items| < 9223372036854775808 && forall i :: 0 <= i < |items| ==> WellFormed(items[i])
    ensures var s := [42] + IntText(|items|) + [13, 10] + EncodeAll(items);
      Run(IDLE, s, 0) == Completed(|s|, Array(Meanings(items)))
  {
    hide Run, IntText;
    EncodingBytes([], 0, [], items);
    Completes(Multi(items));
  }
}
