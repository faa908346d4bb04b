/** The UTF-8 codec of `unicode_to_utf8` and `utf8_to_unicode`, with the forms of RFC 2279. */
module Utf8Codec {
  import opened Bits
  import opened Bytes

  /** The length a lead byte announces; a byte that announces none stands alone. */
  function LenOf(lead: Byte): (n: nat)
    ensures 1 <= n <= 6
  {
    if lead >= 0xFC then 6
    else if lead >= 0xF8 then 5
    else if lead >= 0xF0 then 4
    else if lead >= 0xE0 then 3
    else if lead >= 0xC0 then 2
    else 1
  }

  predicate Masked(ch: Byte, mask: Byte) {
    And(ch, mask) == mask
  }

  /** The mask tests find the first bound that the byte reaches. */
  lemma MaskedIsAtLeast(ch: Byte)
    ensures Masked(ch, 0xFC) <==> ch >= 0xFC
    ensures Masked(ch, 0xF8) <==> ch >= 0xF8
    ensures Masked(ch, 0xF0) <==> ch >= 0xF0
    ensures Masked(ch, 0xE0) <==> ch >= 0xE0
    ensures Masked(ch, 0xC0) <==> ch >= 0xC0
  {
    hide And, Pow2;
    Powers();
    AndHigh(ch, 8, 2);
    AndHigh(ch, 8, 3);
    AndHigh(ch, 8, 4);
    AndHigh(ch, 8, 5);
    AndHigh(ch, 8, 6);
  }

  /** The last `k` groups of six digits, as continuation bytes. */
  function Trail(c: nat, k: nat): (s: seq<Byte>)
    ensures |s| == k
  {
    if k == 0 then [] else Trail(c / 64, k - 1) + [128 + c % 64]
  }

  /** The table of section 2 of RFC 2279: the first row whose range holds the code point. */
  function Encode(c: nat): (s: seq<Byte>)
    requires c < 0x8000_0000
    ensures 1 <= |s| <= 6
  {
    if c < 0x80 then [c]
    else if c < 0x800 then [0xC0 + c / 0x40] + Trail(c, 1)
    else if c < 0x1_0000 then [0xE0 + c / 0x1000] + Trail(c, 2)
    else if c < 0x20_0000 then [0xF0 + c / 0x4_0000] + Trail(c, 3)
    else if c < 0x400_0000 then [0xF8 + c / 0x100_0000] + Trail(c, 4)
    else [0xFC + c / 0x4000_0000] + Trail(c, 5)
  }

  /** `c >> 6 * k` */
  function Drop(c: nat, k: nat): nat {
    if k == 0 then c else Drop(c, k - 1) / 64
  }

  lemma {:induction false} DropShift(c: nat, k: nat)
    ensures Drop(c, k + 1) == Drop(c / 64, k)
  {
    if k > 0 {
      DropShift(c, k - 1);
    }
  }

  lemma {:induction false} TrailFront(c: nat, k: nat)
    ensures Trail(c, k + 1) == [128 + Drop(c, k) % 64] + Trail(c, k)
  {
    if k > 0 {
      DropShift(c, k - 1);
      TrailFront(c / 64, k - 1);
    }
  }

  lemma Drops(c: nat)
    ensures Drop(c, 1) == c / 0x40 && Drop(c, 2) == c / 0x1000 && Drop(c, 3) == c / 0x4_0000
    ensures Drop(c, 4) == c / 0x100_0000 && Drop(c, 5) == c / 0x4000_0000
  {
  }

  /** The first byte's marker after `k` rounds of the encoding loop. */
  function Marker(k: nat): (m: Byte)
    requires k <= 5
  {
    if k <= 1 then 0xC0 else if k == 2 then 0xE0 else if k == 3 then 0xF0 else if k == 4 then 0xF8 else 0xFC
  }

  /** The lowest digit that the marker of round `k` sets is number 7 - k. */
  lemma MarkerDigits(k: nat)
    requires 1 <= k <= 5
    ensures Low(Marker(k), 7 - k) == 0 && Low(Marker(k), 6 - k) == 0
  {
    hide Pow2;
    Powers();
    var q := LowIsRemainder(Marker(k), 7 - k);
    var r := LowIsRemainder(Marker(k), 6 - k);
  }

  lemma FirstRound()
    ensures Or(0xC0, 64) == 0xC0
  {
    hide Pow2, Or;
    Powers();
    var one := LowIsRemainder(0xC0, 7);
    OrSet(0xC0, 6);
  }

  /** `first_val |= 1 << first_bits`: the first round sets a digit that is already set. */
  lemma MarkerNext(k: nat)
    requires k < 5
    ensures Or(Marker(k), Pow2(6 - k)) == Marker(k + 1)
  {
    hide Or, Low, Pow2;
    Powers();
    if k == 0 {
      FirstRound();
    } else {
      MarkerDigits(k);
      OrDisjoint(Marker(k), Pow2(6 - k), 7 - k);
    }
  }

  lemma MarkerJoins(k: nat, c: nat)
    requires 1 <= k <= 5 && c < Pow2(6 - k)
    ensures Or(Marker(k), c) == Marker(k) + c
  {
    hide Or, Low, Pow2;
    MarkerDigits(k);
    OrDisjoint(Marker(k), c, 6 - k);
  }

  lemma Continuation(x: nat)
    ensures Or(128, And(x, 63)) == 128 + x % 64
  {
    hide And, Or, Pow2;
    Powers();
    AndOnes(x);
    var two := LowIsRemainder(128, 6);
    OrDisjoint(128, x % 64, 6);
  }

  lemma LoopEnds(c: nat, k: nat)
    requires 0x80 <= c < 0x8000_0000 && 1 <= k <= 5
    requires Drop(c, k) < Pow2(6 - k) && (k > 1 ==> Drop(c, k - 1) >= Pow2(7 - k))
    ensures Encode(c) == [Marker(k) + Drop(c, k)] + Trail(c, k)
  {
    hide Drop, Trail, Pow2;
    Drops(c);
    Powers();
  }

  /** A 32-bit signed `int`. */
  type Int32 = n: int | -0x8000_0000 <= n < 0x8000_0000

  /** `unicode_to_utf8`: a negative number passes through as it is. */
  method UnicodeToUtf8(charcode: Int32) returns (d: seq<int>)
    ensures charcode < 0 ==> d == [charcode]
    ensures charcode >= 0 ==> d == Encode(charcode)
  {
    if charcode < 128 {
      return [charcode];
    }
    assert Marker(0) == 0xC0;
    hide Trail, Drop, Encode, And, Or, Pow2, Marker;
    Powers();
    var code: nat := charcode;
    var firstBits, firstVal: nat := 6, 0xC0;
    d := [];
    ghost var k := 0;
    DropNext(charcode, 0);
    assert Trail(charcode, 0) == [] by { NoTrail(charcode); }
    while code >= Pow2(firstBits)
      invariant k <= 5 && firstBits == 6 - k && firstVal == Marker(k)
      invariant code == Drop(charcode, k) && d == Trail(charcode, k)
      invariant k > 1 ==> Drop(charcode, k - 1) >= Pow2(7 - k)
      decreases firstBits
    {
      InRange(charcode, k);
      DropNext(charcode, k);
      TrailFront(charcode, k);
      Continuation(code);
      MarkerNext(k);
      var t := Or(128, And(code, 63));
      code := code / 64;
      firstVal := Or(firstVal, Pow2(firstBits));
      firstBits := firstBits - 1;
      d := [t] + d;
      k := k + 1;
    }
    LoopEnds(charcode, k);
    MarkerJoins(k, code);
    d := [Or(firstVal, code)] + d;
  }

  lemma NoTrail(c: nat)
    ensures Trail(c, 0) == []
  {
  }

  lemma DropNext(c: nat, k: nat)
    ensures Drop(c, 0) == c && Drop(c, k + 1) == Drop(c, k) / 64
  {
  }

  /** The loop stops before the first byte has no room for a marker. */
  lemma InRange(c: nat, k: nat)
    requires c < 0x8000_0000 && k <= 5 && Drop(c, k) >= Pow2(6 - k)
    ensures k < 5
  {
    Drops(c);
    Powers();
  }

  // Decoding.

  /** The digits of the lead byte below its marker. */
  function Payload(lead: Byte): (p: nat) {
    if lead >= 0xFC then lead - 0xFC
    else if lead >= 0xF8 then lead - 0xF8
    else if lead >= 0xF0 then lead - 0xF0
    else if lead >= 0xE0 then lead - 0xE0
    else if lead >= 0xC0 then lead - 0xC0
    else if lead >= 0x80 then lead - 0x80
    else lead
  }

  /** The digits of `acc`, then six of each byte. */
  function Fold(acc: nat, bytes: seq<Byte>): nat {
    if bytes == [] then acc else 64 * Fold(acc, bytes[..|bytes| - 1]) + bytes[|bytes| - 1] % 64
  }

  /** The first byte is a lead of the six forms and all the bytes it announces are there. */
  predicate Complete(s: seq<Byte>) {
    s != [] && s[0] < 0xFE && LenOf(s[0]) <= |s|
  }

  function Decode(s: seq<Byte>): nat
    requires Complete(s)
  {
    Fold(Payload(s[0]), s[1..LenOf(s[0])])
  }

  /** The byte `t` after `k` rounds of `t <<= 1; t &= 0xff`. */
  function Shifted(t: Byte, k: nat): nat {
    if k == 0 then t else And(2 * Shifted(t, k - 1), 0xFF)
  }

  predicate IsLead(t: Byte) {
    0x80 <= t < 0xFE
  }

  /** A lead of n bytes: n ones, a zero, and the payload. */
  lemma LeadIs(t: Byte)
    requires IsLead(t)
    ensures t == 256 - Pow2(8 - LenOf(t)) + Payload(t) && Payload(t) < Pow2(7 - LenOf(t))
  {
    hide Pow2;
    Powers();
  }

  lemma {:induction false} PowGrows(j: nat, k: nat)
    requires j <= k
    ensures Pow2(j) <= Pow2(k)
  {
    if j < k {
      PowGrows(j, k - 1);
    }
  }

  /** Every round drops one of the leading ones. */
  lemma {:induction false} ShiftedIs(t: Byte, k: nat)
    requires IsLead(t) && k < LenOf(t)
    ensures Shl(Payload(t), k) < Pow2(7 - LenOf(t) + k)
    ensures Shifted(t, k) == 256 - Pow2(8 - LenOf(t) + k) + Shl(Payload(t), k)
    ensures 128 <= Shifted(t, k) < 256
  {
    hide And, LenOf, Payload;
    if k == 0 {
      LeadIs(t);
    } else {
      ShiftedIs(t, k - 1);
      DropTop(Shifted(t, k - 1));
    }
    PowGrows(8 - LenOf(t) + k, 7);
    Powers();
  }

  lemma DropTop(x: nat)
    requires 128 <= x < 256
    ensures And(2 * x, 0xFF) == 2 * x - 256
  {
    hide And;
    AndOnes(2 * x);
  }

  /** The loop `while ((t & 0xC0) == 0xC0)` runs once per continuation byte. */
  lemma ShiftedTest(t: Byte, k: nat)
    requires IsLead(t) && k < LenOf(t)
    ensures Shifted(t, k) < 256 && (Masked(Shifted(t, k), 0xC0) <==> k + 1 < LenOf(t))
  {
    hide And, LenOf, Payload, Shifted, Masked, Pow2;
    ShiftedIs(t, k);
    MaskedIsAtLeast(Shifted(t, k));
    Powers();
    if k + 1 < LenOf(t) {
      PowGrows(8 - LenOf(t) + k, 6);
    }
  }

  /** Shifting back and masking leaves the payload. */
  lemma ShiftedBack(t: Byte)
    requires IsLead(t)
    ensures And(Shr(Shifted(t, LenOf(t) - 1), LenOf(t) - 1), Shr(63, LenOf(t) - 1)) == Payload(t)
  {
    hide And, Low, Pow2, Payload, LenOf, Shifted, Shl, Shr;
    var k, p := LenOf(t) - 1, Payload(t);
    Powers();
    LeadIs(t);
    ShiftedIs(t, k);
    ShlOfPow(7 - k, k);
    ShlAdds(Pow2(7 - k), p, k);
    ShrInverts(Pow2(7 - k) + p, k);
    ShrOfOnes(6, k);
    PowNext(6 - k);
    AndLow(Pow2(7 - k) + p, 6 - k);
    LowOfSum(p, 6 - k);
  }

  lemma PowNext(k: nat)
    ensures Pow2(k + 1) == 2 * Pow2(k)
  {
  }

  lemma {:induction false} FoldSplits(p: nat, s: seq<Byte>)
    ensures Fold(p, s) == Shl(p, 6 * |s|) + Fold(0, s) && Fold(0, s) < Pow2(6 * |s|)
  {
    if s != [] {
      var most := s[..|s| - 1];
      FoldSplits(p, most);
      SixMore(p, 6 * |most|);
      SixMore(1, 6 * |most|);
    }
  }

  lemma SixMore(p: nat, k: nat)
    ensures Shl(p, k + 6) == 64 * Shl(p, k) && Pow2(k + 6) == 64 * Pow2(k)
  {
    assert Shl(p, k + 2) == 4 * Shl(p, k) && Shl(p, k + 4) == 4 * Shl(p, k + 2);
    assert Pow2(k + 2) == 4 * Pow2(k) && Pow2(k + 4) == 4 * Pow2(k + 2);
  }

  lemma FoldNext(c: nat, s: seq<Byte>, k: nat)
    requires k < |s| && c == Fold(0, s[..k])
    ensures Or(64 * c, And(s[k], 63)) == Fold(0, s[..k + 1])
  {
    hide And, Or, Pow2, Low;
    Powers();
    AndOnes(s[k]);
    SixMore(c, 0);
    LowOfShl(c, 6);
    OrDisjoint(64 * c, s[k] % 64, 6);
    assert s[..k + 1][..k] == s[..k];
  }

  lemma PayloadJoins(p: nat, s: seq<Byte>)
    ensures Or(Fold(0, s), Shl(p, 6 * |s|)) == Fold(p, s)
  {
    hide Or, Low, Fold, Pow2, Shl;
    FoldSplits(p, s);
    LowOfShl(p, 6 * |s|);
    OrDisjoint(Shl(p, 6 * |s|), Fold(0, s), 6 * |s|);
    OrCommutes(Fold(0, s), Shl(p, 6 * |s|));
  }

  /** `utf8_to_unicode`: takes one code point off the front of the queue. */
  method Utf8ToUnicode(coded: seq<Byte>) returns (charcode: nat, rest: seq<Byte>)
    requires Complete(coded)
    ensures charcode == Decode(coded) && rest == coded[LenOf(coded[0])..]
  {
    hide And, Or, Pow2, Fold, Shifted, LenOf, Payload, Shl, Shr, Masked, Decode;
    var t: Byte := coded[0];
    rest := coded[1..];
    if t < 128 {
      PlainByte(coded);
      return t, rest;
    }
    var highBitMask: nat, highBitShift: nat, totalBits: nat := 63, 0, 0;
    charcode := 0;
    DecodeStarts(coded[0]);
    while Masked(t, 0xC0)
      invariant highBitShift < LenOf(coded[0]) && totalBits == 6 * highBitShift
      invariant t == Shifted(coded[0], highBitShift) && highBitMask == Shr(63, highBitShift)
      invariant charcode == Fold(0, coded[1..][..highBitShift]) && rest == coded[highBitShift + 1..]
      decreases LenOf(coded[0]) - highBitShift
    {
      ShiftedTest(coded[0], highBitShift);
      ShiftedStep(coded[0], highBitShift);
      FoldNext(charcode, coded[1..], highBitShift);
      ShiftedTest(coded[0], highBitShift + 1);
      t := And(2 * t, 0xFF);
      totalBits := totalBits + 6;
      highBitMask := highBitMask / 2;
      highBitShift := highBitShift + 1;
      charcode := Or(64 * charcode, And(rest[0], 63));
      rest := rest[1..];
    }
    ShiftedTest(coded[0], highBitShift);
    ShiftedBack(coded[0]);
    PayloadJoins(Payload(coded[0]), coded[1..][..highBitShift]);
    DecodeIs(coded);
    charcode := Or(charcode, Shl(And(Shr(t, highBitShift), highBitMask), totalBits));
  }

  lemma DecodeIs(s: seq<Byte>)
    requires Complete(s)
    ensures Decode(s) == Fold(Payload(s[0]), s[1..][..LenOf(s[0]) - 1])
  {
    assert s[1..][..LenOf(s[0]) - 1] == s[1..LenOf(s[0])];
  }

  lemma PlainByte(s: seq<Byte>)
    requires Complete(s) && s[0] < 0x80
    ensures LenOf(s[0]) == 1 && Decode(s) == s[0]
  {
  }

  lemma DecodeStarts(t: Byte)
    ensures Shifted(t, 0) == t && Fold(0, []) == 0 && LenOf(t) >= 1 && Shr(63, 0) == 63
  {
  }

  lemma ShiftedStep(t: Byte, k: nat)
    ensures Shifted(t, k + 1) == And(2 * Shifted(t, k), 0xFF) && Shr(63, k + 1) == Shr(63, k) / 2
  {
  }

  lemma {:induction false} FoldTrail(c: nat, k: nat)
    ensures Fold(Drop(c, k), Trail(c, k)) == c
  {
    if k > 0 {
      DropShift(c, k - 1);
      FoldTrail(c / 64, k - 1);
      assert Trail(c, k)[..k - 1] == Trail(c / 64, k - 1);
    }
  }

  /** How many continuation bytes the code point needs. */
  function Groups(c: nat): (k: nat)
    requires c < 0x8000_0000
    ensures k <= 5
  {
    if c < 0x80 then 0 else if c < 0x800 then 1 else if c < 0x1_0000 then 2
    else if c < 0x20_0000 then 3 else if c < 0x400_0000 then 4 else 5
  }

  /** Lead and continuation bytes as in the table of RFC 2279, in any length. */
  predicate WellFormed(s: seq<Byte>) {
    && Complete(s) && |s| == LenOf(s[0])
    && (|s| == 1 ==> s[0] < 0x80)
    && forall i :: 1 <= i < |s| ==> 0x80 <= s[i] < 0xC0
  }

  lemma {:induction false} TrailBytes(c: nat, k: nat)
    ensures forall i :: 0 <= i < k ==> 0x80 <= Trail(c, k)[i] < 0xC0
  {
    if k > 0 {
      TrailBytes(c / 64, k - 1);
    }
  }

  lemma EncodeTail(c: nat)
    requires c < 0x8000_0000
    ensures |Encode(c)| == Groups(c) + 1 && Encode(c)[1..] == Trail(c, Groups(c))
  {
    hide Trail, Drop;
    NoTrail(c);
  }

  lemma EncodeLead(c: nat)
    requires c < 0x8000_0000
    ensures var lead := Encode(c)[0];
      Payload(lead) == Drop(c, Groups(c)) && lead < 0xFE && LenOf(lead) == Groups(c) + 1 && (c < 0x80 ==> lead == c)
  {
    hide Trail, Drop;
    Drops(c);
    DropNext(c, 0);
  }

  lemma EncodeIs(c: nat)
    requires c < 0x8000_0000
    ensures Encode(c)[1..] == Trail(c, Groups(c)) && Payload(Encode(c)[0]) == Drop(c, Groups(c))
    ensures WellFormed(Encode(c)) && |Encode(c)| == Groups(c) + 1
  {
    hide Trail, Drop, Encode, Payload, LenOf;
    EncodeTail(c);
    EncodeLead(c);
    TrailBytes(c, Groups(c));
    forall i | 1 <= i < |Encode(c)| ensures 0x80 <= Encode(c)[i] < 0xC0 {
      assert Encode(c)[i] == Encode(c)[1..][i - 1];
    }
  }

  /** Decoding inverts encoding, and stops exactly behind the encoding. */
  lemma DecodeInverts(c: nat, rest: seq<Byte>)
    requires c < 0x8000_0000
    ensures Complete(Encode(c) + rest) && LenOf((Encode(c) + rest)[0]) == |Encode(c)|
    ensures Decode(Encode(c) + rest) == c
  {
    hide Encode, Payload, Fold, Trail, Drop, LenOf;
    EncodeIs(c);
    FoldTrail(c, Groups(c));
    var s := Encode(c) + rest;
    assert s[1..LenOf(s[0])] == Encode(c)[1..];
  }

  lemma {:induction false} DropOfFold(p: nat, s: seq<Byte>)
    requires forall i :: 0 <= i < |s| ==> 0x80 <= s[i] < 0xC0
    ensures Drop(Fold(p, s), |s|) == p && Trail(Fold(p, s), |s|) == s
  {
    if s != [] {
      var most, last := s[..|s| - 1], s[|s| - 1];
      DropOfFold(p, most);
      DropShift(Fold(p, s), |s| - 1);
      assert Fold(p, s) / 64 == Fold(p, most) && Fold(p, s) % 64 == last - 128;
    }
  }

  /** The largest code point, plus one, that `n` bytes can hold. */
  function Limit(n: nat): (l: nat)
    requires 1 <= n <= 6
  {
    if n == 1 then 0x80 else if n == 2 then 0x800 else if n == 3 then 0x1_0000
    else if n == 4 then 0x20_0000 else if n == 5 then 0x400_0000 else 0x8000_0000
  }

  lemma FitsIn(s: seq<Byte>)
    requires WellFormed(s)
    ensures Decode(s) < Limit(|s|)
  {
    hide Fold, Trail, Drop;
    var c := Decode(s);
    DropOfFold(Payload(s[0]), s[1..]);
    assert s[1..LenOf(s[0])] == s[1..];
    Drops(c);
    DropNext(c, 0);
  }

  /**
   * Of all well-formed byte strings for a code point the encoding is the
   * shortest, and the only one of its length.
   */
  lemma ShortestForm(s: seq<Byte>)
    requires WellFormed(s)
    ensures Decode(s) < 0x8000_0000 && |Encode(Decode(s))| <= |s|
    ensures |Encode(Decode(s))| == |s| ==> Encode(Decode(s)) == s
  {
    hide Encode, Decode, Drop, Trail, Fold, Payload;
    FitsIn(s);
    var c := Decode(s);
    EncodeIs(c);
    if Groups(c) + 1 == |s| {
      PayloadAndTail(s);
      SameLead(Encode(c)[0], s[0]);
    }
  }

  lemma PayloadAndTail(s: seq<Byte>)
    requires WellFormed(s)
    ensures Payload(s[0]) == Drop(Decode(s), |s| - 1) && s[1..] == Trail(Decode(s), |s| - 1)
  {
    hide Payload, Drop, Trail, Fold;
    DropOfFold(Payload(s[0]), s[1..]);
    assert s[1..LenOf(s[0])] == s[1..];
  }

  lemma SameLead(x: Byte, y: Byte)
    requires LenOf(x) == LenOf(y) && Payload(x) == Payload(y)
    requires LenOf(x) == 1 ==> x < 0x80 && y < 0x80
    ensures x == y
  {
  }
}
