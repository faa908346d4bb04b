/** From the learnt pieces to the words the server stores. */
module RankingPipeline {
  import opened Bytes
  import opened Utf8Codec
  import opened Utf8Splitter
  import opened CtrlClaws
  import opened WindowCounts
  import opened WordRanking
  import opened WordBuckets
  import opened RankingWire
  import opened OstrichWords

  lemma SentIsRead(m: Counts, reported: seq<Word>, groups: seq<seq<Entry>>, wordArrays: seq<seq<Byte>>)
    requires Sends(wordArrays, groups, EntriesOf(reported, m))
    requires forall w :: w in reported ==> MIN_REPEATS <= Count(m, w) <= INT_MAX
    ensures AllCalls(wordArrays) == EntriesOf(reported, m) <==> AllClean(EntriesOf(reported, m))
  {
    hide AllCalls, BatchTexts, Clean;
    var es := EntriesOf(reported, m);
    forall k | 0 <= k < |es| ensures 0 < es[k].counter <= INT_MAX {
      assert reported[k] in reported;
    }
    WireRoundTrip(groups, es);
    if groups == [] {
      EmptyBatch();
      assert es == [];
    }
  }

  lemma EntriesClean(m: Counts, reported: seq<Word>)
    ensures AllClean(EntriesOf(reported, m)) <==> forall w :: w in reported ==> Clean(w)
  {
    hide Clean;
    var es := EntriesOf(reported, m);
    assert forall k :: 0 <= k < |es| ==> es[k].word == reported[k] && reported[k] in reported;
    forall w | w in reported && AllClean(es) ensures Clean(w) {
      var k :| 0 <= k < |reported| && reported[k] == w;
      assert Clean(es[k].word);
    }
  }

  /**
   * The server reads from the texts of a ranking exactly the ranked words with a
   * third of their counts, in order, if and only if no ranked word contains a
   * delimiter.
   */
  lemma RankingRoundTrip(m: Counts, order: seq<Word>, wordArrays: seq<seq<Byte>>)
    requires IsRanking(wordArrays, m, order) && forall w :: w in m ==> m[w] <= INT_MAX
    ensures (forall w :: Ranked(m, w, MIN_REPEATS) ==> Clean(w)) <==>
      exists reported :: Reports(reported, m, order) && AllCalls(wordArrays) == EntriesOf(reported, m)
  {
    hide Clean, AllCalls, Sorted, Sends;
    var reported, groups :| Reports(reported, m, order) && Sends(wordArrays, groups, EntriesOf(reported, m));
    SentIsRead(m, reported, groups, wordArrays);
    EntriesClean(m, reported);
    if r :| Reports(r, m, order) && AllCalls(wordArrays) == EntriesOf(r, m) {
      AllCallsAreClean(wordArrays);
      EntriesClean(m, r);
    }
  }

  lemma EmptyBatch()
    ensures AllCalls([[OPEN, CLOSE]]) == []
  {
    hide Split;
    BatchRoundTrip([]);
    assert BatchText([]) == [OPEN, CLOSE];
    var texts := [[OPEN, CLOSE]];
    assert texts[..0] == [];
  }

  /** Multi-byte characters have no byte of the ASCII range. */
  predicate High(s: seq<Byte>) {
    forall k :: 0 <= k < |s| ==> s[k] >= 0x80
  }

  lemma WellFormedIsHigh(p: Piece)
    requires WellFormed(p) && |p| >= 2
    ensures High(p)
  {
  }

  lemma {:induction false} JoinHigh(ps: seq<Piece>)
    requires forall k :: 0 <= k < |ps| ==> High(ps[k])
    ensures High(Join(ps))
  {
    if ps != [] {
      JoinHigh(ps[1..]);
    }
  }

  lemma {:induction false} CountedIsHigh(learnt: seq<seq<Piece>>, s: Word)
    requires Total(learnt, s) > 0
    requires forall a, b :: 0 <= a < |learnt| && 0 <= b < |learnt[a]| ==> High(learnt[a][b])
    ensures High(s)
  {
    var last := learnt[|learnt| - 1];
    if Windows(last, s) != {} {
      var x :| x in Windows(last, s);
      JoinHigh(last[x.0..x.1]);
    } else {
      CountedIsHigh(learnt[..|learnt| - 1], s);
    }
  }

  /**
   * When everything learnt is well-formed multi-byte UTF-8, as the sentences of a
   * well-formed article are, no counted word contains a delimiter.
   */
  lemma WideWordsAreClean(m: Counts, learnt: seq<seq<Piece>>, w: Word)
    requires CountsOf(m, learnt) && w in m
    requires forall a, b :: 0 <= a < |learnt| && 0 <= b < |learnt[a]| ==>
      WellFormed(learnt[a][b]) && |learnt[a][b]| >= 2
    ensures Clean(w)
  {
    hide WellFormed, Total;
    forall a, b | 0 <= a < |learnt| && 0 <= b < |learnt[a]| ensures High(learnt[a][b]) {
      WellFormedIsHigh(learnt[a][b]);
    }
    assert Count(m, w) == Total(learnt, w);
    CountedIsHigh(learnt, w);
  }

  lemma EncodingsWellFormed(cs: seq<nat>, i: nat, ws: seq<Piece>)
    requires forall k :: 0 <= k < |cs| ==> cs[k] < 0x8000_0000
    requires i + |ws| <= |cs| && ws == EncodeAll(cs)[i..i + |ws|]
    ensures forall b :: 0 <= b < |ws| ==> Utf8Codec.WellFormed(ws[b])
  {
    hide Utf8Codec.WellFormed, Encode;
    forall b | 0 <= b < |ws| ensures Utf8Codec.WellFormed(ws[b]) {
      assert ws[b] == EncodeAll(cs)[i + b];
      EncodeIs(cs[i + b]);
    }
  }

  /** The sentences of an article of encoded code points hold well-formed characters of three bytes and more. */
  lemma ClawedIsWellFormed(cs: seq<nat>, article: seq<Byte>, ss: seq<Sentence>, ctrl: Controls, k: nat)
    requires forall i :: 0 <= i < |cs| ==> cs[i] < 0x8000_0000
    requires article == Join(EncodeAll(cs)) && IsClawing(ss, article, ctrl) && k < |ss| && ss[k].multi
    ensures Splittable(ss[k].words)
    ensures forall b :: 0 <= b < |ss[k].words| ==> Utf8Codec.WellFormed(ss[k].words[b]) && |ss[k].words[b]| >= 3
  {
    hide Utf8Codec.WellFormed, Encode, Homogeneous, Join, Splittable, Pieces, AllWords, IsOther;
    PiecesOfEncodings(cs);
    MultiSentence(ss, article, ctrl, k);
    var i := SentenceIsSlice(ss, k);
    EncodingsWellFormed(cs, i, ss[k].words);
    assert forall b :: 0 <= b < |ss[k].words| ==> ss[k].words[b] in ss[k].words;
  }
}
