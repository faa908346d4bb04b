/** `OstrichWord`: learning the n-grams of an article and reporting their ranking. */
module OstrichWords {
  import opened Bytes
  import opened RespProtocol
  import opened Utf8Splitter
  import opened WindowCounts
  import opened WordRanking
  import opened WordBuckets
  import opened RankingWire

  class OstrichWord {
    var multiWordOfOneArticle: Counts
    ghost var learnt: seq<seq<Piece>>

    /** The map counts the windows of everything learnt. */
    ghost predicate Valid()
      reads this
    {
      CountsOf(multiWordOfOneArticle, learnt)
    }

    constructor ()
      ensures Valid() && learnt == [] && multiWordOfOneArticle == map[]
    {
      multiWordOfOneArticle, learnt := map[], [];
    }

    method PushMultiWord(word: Word)
      modifies `multiWordOfOneArticle
      ensures multiWordOfOneArticle ==
        old(multiWordOfOneArticle)[word := Count(old(multiWordOfOneArticle), word) + 1]
    {
      if word in multiWordOfOneArticle {
        multiWordOfOneArticle := multiWordOfOneArticle[word := multiWordOfOneArticle[word] + 1];
      } else {
        multiWordOfOneArticle := multiWordOfOneArticle[word := 1];
      }
    }

    /** Pushes the windows that end with piece `e`, the last `preWords` in front of it. */
    method PushEnding(ghost wordBytes: seq<Piece>, ghost e: nat, word: Piece, preWords: seq<Piece>, ghost m0: Counts)
      requires e < |wordBytes| && word == wordBytes[e]
      requires LastPieces(wordBytes, e, preWords)
      requires Counting(multiWordOfOneArticle, m0, wordBytes, e, 1)
      modifies `multiWordOfOneArticle
      ensures Counting(multiWordOfOneArticle, m0, wordBytes, e + 1, 1)
    {
      hide Counting, Ending, LastPieces;
      var it := |preWords|;
      var jointWord := word;
      OnePiece(wordBytes, e);
      AllLastPieces(wordBytes, e, preWords);
      ghost var l: nat := 1;
      while it != 0
        invariant 0 <= it <= |preWords| && it + l == |preWords| + 1
        invariant jointWord == Ending(wordBytes, e, l)
        invariant Counting(multiWordOfOneArticle, m0, wordBytes, e, l)
      {
        PieceInFront(wordBytes, e, preWords, l);
        jointWord := preWords[it - 1] + jointWord;
        it := it - 1;
        EndingCounted(multiWordOfOneArticle, m0, wordBytes, e, l, jointWord);
        PushMultiWord(jointWord);
        l := l + 1;
      }
      CountingAdvances(multiWordOfOneArticle, m0, wordBytes, e, |preWords| + 1);
    }

    /** The list of the last pieces takes one more, and drops its first one when it is full. */
    static method Slide(ghost wordBytes: seq<Piece>, ghost e: nat, word: Piece, preWords: seq<Piece>)
      returns (last: seq<Piece>)
      requires e < |wordBytes| && word == wordBytes[e] && LastPieces(wordBytes, e, preWords)
      ensures LastPieces(wordBytes, e + 1, last)
    {
      SlidingNext(wordBytes, e, preWords);
      last := preWords + [word];
      if |last| > MAX_WORD_LENGTH - 1 {
        last := last[1..];
      }
    }

    /** `learn`: counts the windows of 2 to 32 pieces of the list. */
    method Learn(wordBytes: seq<Piece>)
      requires Valid()
      modifies this
      ensures Valid() && learnt == old(learnt) + [wordBytes]
    {
      hide Counting, CountsOf, LastPieces;
      learnt := learnt + [wordBytes];
      if |wordBytes| < 2 {
        TooShort(multiWordOfOneArticle, wordBytes, old(learnt));
        return;
      }
      ghost var m0 := multiWordOfOneArticle;
      var preWords: seq<Piece> := [];
      CountingStarts(m0, wordBytes);
      NoLastPieces(wordBytes);
      var e := 0;
      while e < |wordBytes|
        invariant 0 <= e <= |wordBytes|
        invariant LastPieces(wordBytes, e, preWords)
        invariant Counting(multiWordOfOneArticle, m0, wordBytes, e, 1)
        modifies `multiWordOfOneArticle
      {
        PushEnding(wordBytes, e, wordBytes[e], preWords, m0);
        preWords := Slide(wordBytes, e, wordBytes[e], preWords);
        e := e + 1;
      }
      CountingDone(multiWordOfOneArticle, m0, wordBytes, old(learnt));
    }

    /** The first loop of `pickupWordRanking`: the frequent words by count. */
    method Collect(order: seq<Word>) returns (rank: seq<Bucket>)
      requires IsEnumeration(order, multiWordOfOneArticle)
      ensures BucketsOf(rank, order, multiWordOfOneArticle)
    {
      rank := [];
      var i := 0;
      while i < |order|
        invariant 0 <= i <= |order|
        invariant BucketsOf(rank, order[..i], multiWordOfOneArticle)
      {
        hide BucketsOf;
        var word := order[i];
        assert word in order && order[..i + 1] == order[..i] + [word];
        BucketsNext(rank, order[..i], multiWordOfOneArticle, word);
        if multiWordOfOneArticle[word] >= MIN_REPEATS {
          rank := AddWord(rank, multiWordOfOneArticle[word], word);
        }
        i := i + 1;
      }
      assert order[..i] == order;
    }

    /**
     * `pickupWordRanking`: sends exactly the frequent words that do not lie inside
     * another word of the same count, in batches.  `order` is the order in which
     * the map is iterated.
     */
    method PickupWordRanking(order: seq<Word>) returns (wordArrays: seq<seq<Byte>>)
      requires Valid() && IsEnumeration(order, multiWordOfOneArticle)
      ensures IsRanking(wordArrays, multiWordOfOneArticle, order)
      ensures var m := multiWordOfOneArticle;
        exists reported: seq<Word>, groups: seq<seq<Entry>> ::
          && Sends(wordArrays, groups, EntriesOf(reported, m))
          && forall w: Word :: w in reported <==>
            && w in m && m[w] >= 3
            && !exists a: Word, c: Word :: a + c != [] && a + w + c in m && m[a + w + c] == m[w]
    {
      hide BucketsOf, Ranked, Before, Writing, IsBatching, IsEnumeration, Survivors, EntriesOf, Valid;
      hide BatchTexts, NonNegative;
      var rank := Collect(order);
      var upWords: seq<Byte>, iCounter := [], 1;
      wordArrays := [];
      ghost var pending: seq<Entry>, groups: seq<seq<Entry>>, reported: seq<Word> := [], [], [];
      WritingStarts(multiWordOfOneArticle);
      var b := 0;
      while b < |rank|
        invariant 0 <= b <= |rank|
        invariant reported == Reported(rank, b)
        invariant Writing(wordArrays, upWords, iCounter, groups, pending, reported, multiWordOfOneArticle)
      {
        CountsInBucket(rank, order, multiWordOfOneArticle, b);
        wordArrays, upWords, iCounter, groups, pending, reported :=
          ReportBucket(rank[b], wordArrays, upWords, iCounter, groups, pending, reported);
        b := b + 1;
      }
      ReportExactly(rank, order, multiWordOfOneArticle);
      EmptyReport(rank, order, multiWordOfOneArticle);
      WritingEnds(wordArrays, upWords, iCounter, groups, pending, reported, multiWordOfOneArticle);
      if upWords != [] {
        upWords := upWords + [OPEN, CLOSE];
        wordArrays := wordArrays + [upWords];
        groups := groups + [pending];
      }
      if rank == [] {
        upWords := upWords + [OPEN, CLOSE];
        assert upWords == [OPEN, CLOSE];
        wordArrays := wordArrays + [upWords];
      }
      assert Reports(reported, multiWordOfOneArticle, order);
      assert Sends(wordArrays, groups, EntriesOf(reported, multiWordOfOneArticle));
      ReportedWords(reported, multiWordOfOneArticle, order);
    }

    /** The words of one bucket that are not inside another word of it. */
    method ReportBucket(record: Bucket, arrays: seq<seq<Byte>>, up: seq<Byte>, counter: int,
                        ghost gs: seq<seq<Entry>>, ghost pend: seq<Entry>, ghost done: seq<Word>)
      returns (wordArrays: seq<seq<Byte>>, upWords: seq<Byte>, iCounter: int,
               ghost groups: seq<seq<Entry>>, ghost pending: seq<Entry>, ghost reported: seq<Word>)
      requires Writing(arrays, up, counter, gs, pend, done, multiWordOfOneArticle)
      requires record.count >= MIN_REPEATS
      requires forall w :: w in record.words ==> Count(multiWordOfOneArticle, w) == record.count
      ensures reported == done + Survivors(record.words, record.words)
      ensures Writing(wordArrays, upWords, iCounter, groups, pending, reported, multiWordOfOneArticle)
    {
      wordArrays, upWords, iCounter, groups, pending, reported := arrays, up, counter, gs, pend, done;
      var words := record.words;
      var i := 0;
      while i < |words|
        invariant 0 <= i <= |words|
        invariant reported == done + Survivors(words[..i], words)
        invariant Writing(wordArrays, upWords, iCounter, groups, pending, reported, multiWordOfOneArticle)
      {
        hide Writing, IsShort;
        var word := words[i];
        assert words[..i + 1][..i] == words[..i];
        var isShort := FindShort(words, word);
        if !isShort {
          wordArrays, upWords, iCounter, groups, pending := WriteWord(word, record.count, wordArrays, upWords, iCounter,
            groups, pending, reported, multiWordOfOneArticle);
          reported := reported + [word];
        }
        i := i + 1;
      }
      assert words[..i] == words;
    }
  }

  method FindShort(words: seq<Word>, word: Word) returns (isShort: bool)
    ensures isShort <==> IsShort(words, word)
  {
    isShort := false;
    var i := 0;
    while i < |words|
      invariant 0 <= i <= |words|
      invariant isShort <==> IsShort(words[..i], word)
    {
      hide Inside;
      assert words[..i + 1] == words[..i] + [words[i]];
      var found := Inside(word, words[i]);
      if found && words[i] != word {
        isShort := true;
      }
      i := i + 1;
    }
    assert words[..i] == words;
  }

  function EntriesOf(ws: seq<Word>, m: Counts): seq<Entry> {
    seq(|ws|, k requires 0 <= k < |ws| => Entry(ws[k], Count(m, ws[k]) / MIN_REPEATS))
  }

  /** The frequent words inside no other word of their count, by rising count and then in map order. */
  ghost predicate Reports(reported: seq<Word>, m: Counts, order: seq<Word>) {
    Sorted(reported, m, order) && forall w :: w in reported <==> Ranked(m, w, MIN_REPEATS)
  }

  /** The reported words, spelled out. */
  lemma ReportedWords(reported: seq<Word>, m: Counts, order: seq<Word>)
    requires Reports(reported, m, order)
    ensures forall w: Word :: w in reported <==>
      && w in m && m[w] >= 3
      && !exists a: Word, c: Word :: a + c != [] && a + w + c in m && m[a + w + c] == m[w]
  {
    hide Ranked, Sorted;
    forall w: Word
      ensures w in reported <==>
        && w in m && m[w] >= 3
        && !exists a: Word, c: Word :: a + c != [] && a + w + c in m && m[a + w + c] == m[w]
    {
      RankedIff(m, w, MIN_REPEATS);
    }
  }

  /** The texts of the batches; a single empty one if there is nothing to send. */
  ghost predicate Sends(wordArrays: seq<seq<Byte>>, groups: seq<seq<Entry>>, es: seq<Entry>) {
    && IsBatching(groups, es)
    && (forall k :: 0 <= k < |groups| ==> NonNegative(groups[k]))
    && wordArrays == if groups == [] then [[OPEN, CLOSE]] else BatchTexts(groups)
  }

  ghost predicate IsRanking(wordArrays: seq<seq<Byte>>, m: Counts, order: seq<Word>) {
    exists reported: seq<Word>, groups: seq<seq<Entry>> ::
      Reports(reported, m, order) && Sends(wordArrays, groups, EntriesOf(reported, m))
  }

  /** The writer's variables: the batches sent, and the text of the entries not yet sent. */
  ghost predicate Writing(arrays: seq<seq<Byte>>, up: seq<Byte>, counter: int,
                          gs: seq<seq<Entry>>, pending: seq<Entry>, reported: seq<Word>, m: Counts) {
    && Batching(gs, pending, EntriesOf(reported, m), counter)
    && (forall k :: 0 <= k < |gs| ==> NonNegative(gs[k])) && NonNegative(pending)
    && arrays == BatchTexts(gs) && up == Formats(pending)
  }

  lemma WritingStarts(m: Counts)
    ensures Writing([], [], 1, [], [], [], m)
  {
  }

  lemma {:induction false} FormatsSnoc(es: seq<Entry>, e: Entry)
    requires NonNegative(es) && e.counter >= 0
    ensures Formats(es + [e]) == Formats(es) + Format(e)
  {
    if es == [] {
      assert Formats([e]) == Format(e) + Formats([e][1..]);
    } else {
      assert (es + [e])[1..] == es[1..] + [e];
      FormatsSnoc(es[1..], e);
    }
  }

  lemma BatchTextsSnoc(gs: seq<seq<Entry>>, g: seq<Entry>)
    requires (forall k :: 0 <= k < |gs| ==> NonNegative(gs[k])) && NonNegative(g)
    ensures BatchTexts(gs + [g]) == BatchTexts(gs) + [BatchText(g)]
  {
    assert (gs + [g])[..|gs|] == gs;
  }

  /** Appends one entry, and sends the batch when it is full. */
  method WriteWord(word: Word, count: int, arrays: seq<seq<Byte>>, up: seq<Byte>, counter: int,
                   ghost gs: seq<seq<Entry>>, ghost pend: seq<Entry>, ghost reported: seq<Word>, ghost m: Counts)
    returns (wordArrays: seq<seq<Byte>>, upWords: seq<Byte>, iCounter: int,
             ghost groups: seq<seq<Entry>>, ghost pending: seq<Entry>)
    requires Writing(arrays, up, counter, gs, pend, reported, m)
    requires count >= MIN_REPEATS && Count(m, word) == count
    ensures Writing(wordArrays, upWords, iCounter, groups, pending, reported + [word], m)
  {
    hide Format, Formats, BatchTexts, Batching, Digits;
    ghost var e := Entry(word, count / MIN_REPEATS);
    FormatsSnoc(pend, e);
    BatchingNext(gs, pend, EntriesOf(reported, m), counter, e);
    BatchTextsSnoc(gs, pend + [e]);
    assert EntriesOf(reported + [word], m) == EntriesOf(reported, m) + [e];
    wordArrays, groups := arrays, gs;
    upWords := up + [OPEN];
    upWords := upWords + word;
    upWords := upWords + [COMMA];
    upWords := upWords + Digits(count / MIN_REPEATS);
    upWords := upWords + [CLOSE, SEMICOLON];
    pending := pend + [e];
    FormatIs(e, up, upWords);
    iCounter := counter + 1;
    if iCounter % 256 == 0 {
      upWords := upWords + [OPEN, CLOSE];
      wordArrays := wordArrays + [upWords];
      groups := groups + [pending];
      upWords, pending := [], [];
      NothingPending();
    }
  }

  lemma NothingPending()
    ensures Formats([]) == []
  {
  }

  lemma FormatIs(e: Entry, up: seq<Byte>, text: seq<Byte>)
    requires e.counter >= 0
    requires text == up + [OPEN] + e.word + [COMMA] + Digits(e.counter) + [CLOSE, SEMICOLON]
    ensures text == up + Format(e)
  {
  }

  lemma WritingEnds(arrays: seq<seq<Byte>>, up: seq<Byte>, counter: int,
                    gs: seq<seq<Entry>>, pending: seq<Entry>, reported: seq<Word>, m: Counts)
    requires Writing(arrays, up, counter, gs, pending, reported, m)
    ensures up != [] <==> pending != []
    ensures reported == [] ==> up == [] && arrays == []
    ensures var all := if up == [] then gs else gs + [pending];
      && IsBatching(all, EntriesOf(reported, m))
      && (forall k :: 0 <= k < |all| ==> NonNegative(all[k]))
      && (if up == [] then arrays else arrays + [up + [OPEN, CLOSE]]) == BatchTexts(all)
      && (reported == [] <==> all == [])
  {
    BatchingDone(gs, pending, EntriesOf(reported, m), counter);
    BatchTextsSnoc(gs, pending);
  }

  lemma CountsInBucket(rank: seq<Bucket>, order: seq<Word>, m: Counts, b: nat)
    requires BucketsOf(rank, order, m) && IsEnumeration(order, m) && b < |rank|
    ensures rank[b].count >= MIN_REPEATS
    ensures forall w :: w in rank[b].words ==> Count(m, w) == rank[b].count
  {
    hide OfCount, WordsAt;
    BucketIs(rank, order, m, b);
    WordsAtIndex(rank, b);
    assert WordsAt(rank, rank[b].count) == OfCount(order, m, rank[b].count);
    OfCountExactly(order, m, rank[b].count);
  }

  lemma OnePiece(ws: seq<Piece>, e: nat)
    requires e < |ws|
    ensures Ending(ws, e, 1) == ws[e]
  {
    assert ws[e..e + 1] == [ws[e]];
    JoinOne(ws[e]);
  }
}
