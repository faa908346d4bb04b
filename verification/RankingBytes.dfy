/** The wire format of a ranking with its bytes and limits written as numbers. */
module RankingBytes {
  import opened Bytes
  import opened RespProtocol
  import opened WireFormat
  import opened WindowCounts
  import opened WordBuckets
  import opened RankingWire
  import opened OstrichWords

  /** The entries of a batch: "{", the word, ",", the number, "};". */
  function EntriesText(es: seq<Entry>): seq<Byte> {
    if es == [] then []
    else [123] + es[0].word + [44] + IntText(es[0].counter) + [125, 59] + EntriesText(es[1..])
  }

  lemma EntryBytes(e: Entry)
    requires e.counter >= 0
    ensures Format(e) == [123] + e.word + [44] + IntText(e.counter) + [125, 59]
  {
  }

  lemma {:induction false} FormatsBytes(es: seq<Entry>)
    requires NonNegative(es)
    ensures Formats(es) == EntriesText(es)
  {
    if es != [] {
      hide Format, IntText;
      FormatsBytes(es[1..]);
      EntryBytes(es[0]);
    }
  }

  /** A batch is its entries and "{}". */
  lemma BatchBytes(es: seq<Entry>)
    requires NonNegative(es)
    ensures BatchText(es) == EntriesText(es) + [123, 125]
  {
    FormatsBytes(es);
  }

  lemma {:induction false} BatchTextsAre(gs: seq<seq<Entry>>, k: nat)
    requires (forall i :: 0 <= i < |gs| ==> NonNegative(gs[i])) && k < |gs|
    ensures |BatchTexts(gs)| == |gs| && BatchTexts(gs)[k] == BatchText(gs[k])
  {
    hide BatchText;
    if |gs| > 1 {
      BatchTextsAre(gs[..|gs| - 1], if k < |gs| - 1 then k else 0);
    }
  }

  /**
   * What the trainer sends: the entries in order, 255 in the first text and 256 in
   * each of the next ones, as many as there are in the last; "{}" alone for none.
   */
  lemma SentTexts(wordArrays: seq<seq<Byte>>, groups: seq<seq<Entry>>, es: seq<Entry>)
    requires Sends(wordArrays, groups, es)
    ensures Join(groups) == es
    ensures groups == [] ==> wordArrays == [[123, 125]]
    ensures groups != [] ==> |wordArrays| == |groups|
    ensures forall k :: 0 <= k < |groups| ==> wordArrays[k] == EntriesText(groups[k]) + [123, 125]
    ensures forall k :: 0 <= k < |groups| ==> 0 < |groups[k]| <= if k == 0 then 255 else 256
    ensures forall k :: 0 <= k < |groups| - 1 ==> |groups[k]| == if k == 0 then 255 else 256
  {
    hide BatchText;
    forall k | 0 <= k < |groups|
      ensures |wordArrays| == |groups| && wordArrays[k] == EntriesText(groups[k]) + [123, 125]
    {
      BatchTextsAre(groups, k);
      BatchBytes(groups[k]);
    }
  }

  /** The number of a word is a third of its count, rounded down. */
  lemma EntryIsThird(ws: seq<Word>, m: Counts, k: nat)
    requires k < |ws| && ws[k] in m && m[ws[k]] >= 0
    ensures var n := EntriesOf(ws, m)[k].counter; 3 * n <= m[ws[k]] < 3 * n + 3
    ensures EntriesOf(ws, m)[k].word == ws[k]
  {
  }

  /** The four delimiters, and the largest number. */
  lemma CleanIff(w: Word)
    ensures Clean(w) <==> forall k :: 0 <= k < |w| ==> w[k] != 123 && w[k] != 125 && w[k] != 59 && w[k] != 44
    ensures INT_MAX == 2147483647
  {
    assert BRACES == {123, 125, 59};
  }

  // ------------------------------------------------------------------- reading

  predicate Spaces(s: seq<Byte>) {
    forall k :: 0 <= k < |s| ==> s[k] == 32 || s[k] == 9 || s[k] == 10 || s[k] == 11 || s[k] == 12 || s[k] == 13
  }

  predicate Numeral(t: seq<Byte>) {
    t != [] && forall k :: 0 <= k < |t| ==> 48 <= t[k] <= 57
  }

  lemma {:induction false} SpacesSkipped(spaces: seq<Byte>, s: seq<Byte>)
    requires Spaces(spaces) && (s != [] ==> !Spaces(s[..1]))
    ensures SkipSpaces(spaces + s) == s
  {
    if spaces == [] {
      assert spaces + s == s;
      assert s != [] ==> s[..1][0] == s[0];
    } else {
      assert (spaces + s)[1..] == spaces[1..] + s;
      SpacesSkipped(spaces[1..], s);
    }
  }

  lemma {:induction false} NumeralPrefix(t: seq<Byte>, rest: seq<Byte>)
    requires forall k :: 0 <= k < |t| ==> 48 <= t[k] <= 57
    requires rest != [] ==> !(48 <= rest[0] <= 57)
    ensures DigitPrefix(t + rest) == |t|
  {
    if t == [] {
      assert t + rest == rest;
    } else {
      assert (t + rest)[1..] == t[1..] + rest;
      NumeralPrefix(t[1..], rest);
    }
  }

  /**
   * The number parser: spaces, at most one sign, digits, and anything behind them.
   * It throws if the number is no `int`.
   */
  lemma StoiReads(spaces: seq<Byte>, sign: seq<Byte>, t: seq<Byte>, rest: seq<Byte>)
    requires Spaces(spaces) && sign in {[], [43], [45]} && Numeral(t)
    requires rest != [] ==> !(48 <= rest[0] <= 57)
    ensures var n := if sign == [45] then -Places(t) else Places(t);
      Stoi(spaces + (sign + (t + rest))) ==
        if -2147483648 <= n <= 2147483647 then Number(n) else Thrown
  {
    hide Accumulate, Places, SkipSpaces, DigitPrefix;
    var s := sign + (t + rest);
    assert s[0] == if sign == [] then t[0] else sign[0];
    SpacesSkipped(spaces, s);
    assert sign == [] ==> s == t + rest;
    assert sign != [] ==> s[1..] == t + rest;
    NumeralPrefix(t, rest);
    AccumulateIsPlaces(t);
    assert (t + rest)[..|t|] == t;
  }

  /** It throws as well if there is no digit behind the spaces and the sign. */
  lemma StoiThrows(spaces: seq<Byte>, sign: seq<Byte>, rest: seq<Byte>)
    requires Spaces(spaces) && sign in {[], [43], [45]}
    requires rest != [] ==> !(48 <= rest[0] <= 57)
    requires sign == [] && rest != [] ==> !Spaces(rest[..1]) && rest[0] != 43 && rest[0] != 45
    ensures Stoi(spaces + (sign + rest)) == Thrown
  {
    hide Accumulate, SkipSpaces;
    var s := sign + rest;
    assert s != [] ==> s[0] == if sign == [] then rest[0] else sign[0];
    assert s != [] ==> s[..1][0] == s[0];
    assert sign == [] && rest != [] ==> s[..1] == rest[..1];
    SpacesSkipped(spaces, s);
    assert sign == [] ==> s == rest;
    assert sign != [] ==> s[1..] == rest;
  }

  predicate NoComma(s: seq<Byte>) {
    forall k :: 0 <= k < |s| ==> s[k] != 44
  }

  predicate Commas(s: seq<Byte>) {
    s != [] && forall k :: 0 <= k < |s| ==> s[k] == 44
  }

  /** A token of two parts, however many commas are between them, calls with a positive number and not otherwise. */
  lemma PairCalls(key: seq<Byte>, commas: seq<Byte>, val: seq<Byte>)
    requires NoComma(key) && NoComma(val) && Commas(commas)
    ensures TokenCall(key + commas + val) ==
      match Stoi(val)
      case Number(n) => if n > 0 then [Entry(key, n)] else []
      case Thrown => []
  {
    hide Stoi, Split;
    SplitAt(key, commas, val, {COMMA});
    SplitFree(val, {COMMA});
  }

  /** Tokens without a comma and tokens of three and more parts call nothing. */
  lemma OthersCallNothing(a: seq<Byte>, c: seq<Byte>, b: seq<Byte>, d: seq<Byte>, rest: seq<Byte>)
    requires NoComma(a) && NoComma(b) && Commas(c) && Commas(d) && b != [] && (rest != [] ==> rest[0] != 44)
    ensures TokenCall(a) == [] && TokenCall(a + c + (b + d + rest)) == []
  {
    hide Stoi, Split;
    SplitFree(a, {COMMA});
    SplitAt(b, d, rest, {COMMA});
    SplitAt(a, c, b + d + rest, {COMMA});
    SomeToken(rest, {COMMA});
  }

  lemma SomeToken(s: seq<Byte>, delims: set<Byte>)
    ensures Split(s, delims) != []
  {
  }
}
