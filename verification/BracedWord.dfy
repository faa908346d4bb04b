/** A ranking that the server does not read back: one character whose last two bytes are delimiters. */
module BracedWord {
  import opened Bytes
  import opened Utf8Splitter
  import opened CtrlClaws
  import opened WindowCounts
  import opened WordRanking
  import opened WordBuckets
  import opened RankingWire
  import opened OstrichWords
  import opened RankingPipeline

  /** Announced as three bytes, with a pair of braces behind the lead byte. */
  const BRACED: Piece := [0xE3, OPEN, CLOSE]

  /** The character twice in a row. */
  const TWICE: Word := BRACED + BRACED

  const SENTENCE: seq<Piece> := [BRACED, BRACED]

  const COUNTS: Counts := map[TWICE := 3]

  lemma SentenceJoins()
    ensures Join(SENTENCE) == TWICE && Splittable(SENTENCE) && Pieces(TWICE) == SENTENCE
  {
    JoinOne(BRACED);
    assert SENTENCE[1..] == [BRACED];
    assert Join(SENTENCE) == BRACED + Join([BRACED]);
    PiecesUnique(SENTENCE);
  }

  /** The article is one sentence of wide characters. */
  lemma BracedClaws(ctrl: Controls)
    requires BRACED !in ctrl
    ensures IsClawing([Sentence(TWICE, SENTENCE, true)], TWICE, ctrl)
  {
    SentenceJoins();
    var ss := [Sentence(TWICE, SENTENCE, true)];
    assert AllWords(ss) == SENTENCE + AllWords([]);
  }

  lemma OneWindow(s: Word)
    ensures |Windows(SENTENCE, s)| == if s == TWICE then 1 else 0
  {
    SentenceJoins();
    assert SENTENCE[0..2] == SENTENCE;
    hide Join;
    assert Windows(SENTENCE, s) == if s == TWICE then {(0, 2)} else {};
  }

  /** What is counted after the sentence was learnt three times. */
  lemma BracedCounts()
    ensures CountsOf(COUNTS, [SENTENCE, SENTENCE, SENTENCE])
  {
    hide Windows;
    var two, one := [SENTENCE, SENTENCE], [SENTENCE];
    forall s: Word ensures Count(COUNTS, s) == Total([SENTENCE, SENTENCE, SENTENCE], s) {
      OneWindow(s);
      assert [SENTENCE, SENTENCE, SENTENCE][..2] == two && two[..1] == one && one[..0] == [];
      assert Total(one, s) == Total([], s) + |Windows(SENTENCE, s)|;
      assert Total(two, s) == Total(one, s) + |Windows(SENTENCE, s)|;
    }
  }

  lemma BracedIsRanked()
    ensures Ranked(COUNTS, TWICE, MIN_REPEATS) && !Clean(TWICE)
    ensures Reports([TWICE], COUNTS, [TWICE])
  {
    assert TWICE[1] == OPEN;
  }

  /** The word is ranked and sent, and whatever is sent, the server reads something else. */
  lemma BracedIsNotRead(wordArrays: seq<seq<Byte>>)
    ensures IsRanking([BatchText([Entry(TWICE, 1)])], COUNTS, [TWICE])
    ensures IsRanking(wordArrays, COUNTS, [TWICE]) ==>
      forall reported :: Reports(reported, COUNTS, [TWICE]) ==> AllCalls(wordArrays) != EntriesOf(reported, COUNTS)
  {
    hide Clean, Reports, AllCalls, BatchText, Ranked;
    BracedIsRanked();
    var group := [Entry(TWICE, 1)];
    assert EntriesOf([TWICE], COUNTS) == group;
    BracedIsSent(group);
    if IsRanking(wordArrays, COUNTS, [TWICE]) {
      RankingRoundTrip(COUNTS, [TWICE], wordArrays);
    }
  }

  lemma BracedIsSent(group: seq<Entry>)
    requires |group| == 1 && group[0].counter == 1
    ensures NonNegative(group) && Sends([BatchText(group)], [group], group)
  {
    hide BatchText;
    assert [group][1..] == [] && [group][..0] == [];
    assert Join([group]) == group + [];
    assert BatchTexts([group]) == [] + [BatchText(group)];
  }
}
