/** The ranking of `pickupWordRanking`: buckets by count, each without the words inside other words. */
module WordBuckets {
  import opened Bytes
  import opened WindowCounts
  import opened WordRanking

  /** minWordRepeateTimes_ */
  const MIN_REPEATS: int := 3

  /** An entry of `localMultiWordRank`. */
  datatype Bucket = Bucket(count: int, words: seq<Word>)

  /** A reported word. */
  datatype Entry = Entry(word: Word, counter: int)

  /** Appends the word to the bucket of its count, which may be new. */
  function AddWord(rank: seq<Bucket>, c: int, w: Word): seq<Bucket> {
    if rank == [] || c < rank[0].count then [Bucket(c, [w])] + rank
    else if rank[0].count == c then [Bucket(c, rank[0].words + [w])] + rank[1..]
    else [rank[0]] + AddWord(rank[1..], c, w)
  }

  /** The words of one count, in order. */
  function OfCount(ws: seq<Word>, m: Counts, c: int): seq<Word> {
    if ws == [] then []
    else OfCount(ws[..|ws| - 1], m, c) + (if Count(m, ws[|ws| - 1]) == c then [ws[|ws| - 1]] else [])
  }

  predicate Ascending(rank: seq<Bucket>) {
    forall a, b :: 0 <= a < b < |rank| ==> rank[a].count < rank[b].count
  }

  /** The words of the bucket for `c`, none if there is no such bucket. */
  function WordsAt(rank: seq<Bucket>, c: int): seq<Word> {
    if rank == [] then [] else if rank[0].count == c then rank[0].words else WordsAt(rank[1..], c)
  }

  predicate NoneEmpty(rank: seq<Bucket>) {
    forall a :: 0 <= a < |rank| ==> rank[a].words != []
  }

  /** The buckets of the words `ws`: the frequent ones by count, in order. */
  ghost predicate BucketsOf(rank: seq<Bucket>, ws: seq<Word>, m: Counts) {
    && Ascending(rank) && NoneEmpty(rank)
    && forall c: int :: WordsAt(rank, c) == if c >= MIN_REPEATS then OfCount(ws, m, c) else []
  }

  lemma {:induction false} AddWordSorted(rank: seq<Bucket>, c: int, w: Word)
    requires Ascending(rank) && NoneEmpty(rank)
    ensures Ascending(AddWord(rank, c, w)) && NoneEmpty(AddWord(rank, c, w))
    ensures forall k :: 0 <= k < |AddWord(rank, c, w)| ==>
      AddWord(rank, c, w)[k].count == c || (rank != [] && AddWord(rank, c, w)[k].count >= rank[0].count)
  {
    if rank != [] && c > rank[0].count {
      AddWordSorted(rank[1..], c, w);
    }
  }

  lemma {:induction false} AddWordAt(rank: seq<Bucket>, c: int, w: Word, d: int)
    requires Ascending(rank)
    ensures WordsAt(AddWord(rank, c, w), d) == WordsAt(rank, d) + (if c == d then [w] else [])
  {
    if rank == [] || c < rank[0].count {
      NotBefore(rank, c);
      assert ([Bucket(c, [w])] + rank)[1..] == rank;
    } else if c == rank[0].count {
      assert ([Bucket(c, rank[0].words + [w])] + rank[1..])[1..] == rank[1..];
    } else {
      AddWordAt(rank[1..], c, w, d);
      assert ([rank[0]] + AddWord(rank[1..], c, w))[1..] == AddWord(rank[1..], c, w);
    }
  }

  lemma {:induction false} NotBefore(rank: seq<Bucket>, c: int)
    requires Ascending(rank) && (rank != [] ==> c < rank[0].count)
    ensures WordsAt(rank, c) == []
  {
    if rank != [] {
      NotBefore(rank[1..], c);
    }
  }

  lemma OfCountNext(ws: seq<Word>, m: Counts, w: Word, c: int)
    ensures OfCount(ws + [w], m, c) == OfCount(ws, m, c) + (if Count(m, w) == c then [w] else [])
  {
    assert (ws + [w])[..|ws|] == ws;
  }

  lemma BucketsNext(rank: seq<Bucket>, ws: seq<Word>, m: Counts, w: Word)
    requires BucketsOf(rank, ws, m) && w in m
    ensures BucketsOf(if m[w] >= MIN_REPEATS then AddWord(rank, m[w], w) else rank, ws + [w], m)
  {
    hide AddWord, OfCount, WordsAt;
    var r := if m[w] >= MIN_REPEATS then AddWord(rank, m[w], w) else rank;
    AddWordSorted(rank, m[w], w);
    forall c: int ensures WordsAt(r, c) == if c >= MIN_REPEATS then OfCount(ws + [w], m, c) else [] {
      AddWordAt(rank, m[w], w, c);
      OfCountNext(ws, m, w, c);
    }
  }

  // What is reported.

  /** The word is found inside another word of its bucket. */
  predicate IsShort(words: seq<Word>, w: Word) {
    exists big :: big in words && big != w && Inside(w, big)
  }

  /** The words of `ws` that are not found inside another word of the bucket. */
  function Survivors(ws: seq<Word>, bucket: seq<Word>): seq<Word> {
    if ws == [] then []
    else Survivors(ws[..|ws| - 1], bucket) + (if IsShort(bucket, ws[|ws| - 1]) then [] else [ws[|ws| - 1]])
  }

  /** The reported words of the first `n` buckets. */
  function Reported(rank: seq<Bucket>, n: nat): seq<Word>
    requires n <= |rank|
  {
    if n == 0 then [] else Reported(rank, n - 1) + Survivors(rank[n - 1].words, rank[n - 1].words)
  }

  /** The order in which a map is iterated: every key once. */
  ghost predicate IsEnumeration(order: seq<Word>, m: Counts) {
    (forall a, b :: 0 <= a < b < |order| ==> order[a] != order[b]) && (forall w :: w in order <==> w in m)
  }

  predicate Precedes(order: seq<Word>, x: Word, y: Word) {
    exists i, j :: 0 <= i < j < |order| && order[i] == x && order[j] == y
  }

  /** `ws` is a part of `order`, in the same order. */
  predicate InOrder(ws: seq<Word>, order: seq<Word>) {
    forall a, b :: 0 <= a < b < |ws| ==> Precedes(order, ws[a], ws[b])
  }

  lemma {:induction false} OfCountExactly(ws: seq<Word>, m: Counts, c: int)
    ensures forall w :: w in OfCount(ws, m, c) <==> w in ws && Count(m, w) == c
    ensures InOrder(OfCount(ws, m, c), ws)
  {
    if ws != [] {
      var most, last := ws[..|ws| - 1], ws[|ws| - 1];
      OfCountExactly(most, m, c);
      assert ws == most + [last];
      Extended(OfCount(most, m, c), most, last);
    }
  }

  /** Appending to the order, and to the part as well. */
  lemma Extended(part: seq<Word>, order: seq<Word>, last: Word)
    requires InOrder(part, order) && forall w :: w in part ==> w in order
    ensures InOrder(part, order + [last]) && InOrder(part + [last], order + [last])
  {
    forall a, b | 0 <= a < b < |part| ensures Precedes(order + [last], part[a], part[b]) {
      assert Precedes(order, part[a], part[b]);
      var i, j :| 0 <= i < j < |order| && order[i] == part[a] && order[j] == part[b];
      assert (order + [last])[i] == part[a] && (order + [last])[j] == part[b];
    }
    forall a | 0 <= a < |part| ensures Precedes(order + [last], part[a], last) {
      assert part[a] in order;
      var i :| 0 <= i < |order| && order[i] == part[a];
      assert (order + [last])[i] == part[a] && (order + [last])[|order|] == last;
    }
  }

  lemma {:induction false} SurvivorsExactly(ws: seq<Word>, bucket: seq<Word>)
    ensures forall w :: w in Survivors(ws, bucket) <==> w in ws && !IsShort(bucket, w)
    ensures InOrder(Survivors(ws, bucket), ws)
  {
    if ws != [] {
      var most, last := ws[..|ws| - 1], ws[|ws| - 1];
      SurvivorsExactly(most, bucket);
      assert ws == most + [last];
      Extended(Survivors(most, bucket), most, last);
    }
  }

  lemma InOrderTrans(a: seq<Word>, b: seq<Word>, c: seq<Word>)
    requires InOrder(a, b) && InOrder(b, c)
    ensures InOrder(a, c)
  {
    forall i, j | 0 <= i < j < |a| ensures Precedes(c, a[i], a[j]) {
      assert Precedes(b, a[i], a[j]);
    }
  }

  lemma {:induction false} WordsAtIndex(rank: seq<Bucket>, k: nat)
    requires Ascending(rank) && k < |rank|
    ensures WordsAt(rank, rank[k].count) == rank[k].words
  {
    if k > 0 {
      WordsAtIndex(rank[1..], k - 1);
    }
  }

  lemma {:induction false} BucketFor(rank: seq<Bucket>, c: int) returns (k: nat)
    requires WordsAt(rank, c) != []
    ensures k < |rank| && rank[k].count == c && rank[k].words == WordsAt(rank, c)
  {
    if rank[0].count == c {
      k := 0;
    } else {
      k := BucketFor(rank[1..], c);
      k := k + 1;
    }
  }

  /** A bucket holds the words of its count, in iteration order; what survives is what nothing dominates. */
  lemma BucketIs(rank: seq<Bucket>, order: seq<Word>, m: Counts, k: nat)
    requires BucketsOf(rank, order, m) && IsEnumeration(order, m) && k < |rank|
    ensures rank[k].count >= MIN_REPEATS
    ensures InOrder(Survivors(rank[k].words, rank[k].words), order)
    ensures forall w :: w in Survivors(rank[k].words, rank[k].words) <==>
      Ranked(m, w, MIN_REPEATS) && Count(m, w) == rank[k].count
  {
    hide Survivors, OfCount, WordsAt, Inside, InOrder;
    var ws, c := rank[k].words, rank[k].count;
    WordsAtIndex(rank, k);
    assert WordsAt(rank, c) == ws;
    assert ws != [] && ws == OfCount(order, m, c);
    OfCountExactly(order, m, c);
    SurvivorsExactly(ws, ws);
    InOrderTrans(Survivors(ws, ws), ws, order);
    assert forall w :: w in ws <==> w in m && m[w] == c;
    forall w | w in ws ensures IsShort(ws, w) <==> Dominated(m, w) {
      if IsShort(ws, w) {
        var big :| big in ws && big != w && Inside(w, big);
        assert Dominates(m, big, w);
      }
      if Dominated(m, w) {
        var big :| big in m && Dominates(m, big, w);
        assert big in ws;
      }
    }
  }

  /** Rising counts; words of one count in iteration order. */
  predicate Before(m: Counts, order: seq<Word>, x: Word, y: Word) {
    Count(m, x) < Count(m, y) || (Count(m, x) == Count(m, y) && Precedes(order, x, y))
  }

  predicate Sorted(ws: seq<Word>, m: Counts, order: seq<Word>) {
    forall a, b :: 0 <= a < b < |ws| ==> Before(m, order, ws[a], ws[b])
  }

  predicate InBuckets(rank: seq<Bucket>, n: nat, c: int)
    requires n <= |rank|
  {
    exists k :: 0 <= k < n && rank[k].count == c
  }

  lemma {:induction false} ReportedUpTo(rank: seq<Bucket>, order: seq<Word>, m: Counts, n: nat)
    requires BucketsOf(rank, order, m) && IsEnumeration(order, m) && n <= |rank|
    ensures Sorted(Reported(rank, n), m, order)
    ensures forall w :: w in Reported(rank, n) <==> Ranked(m, w, MIN_REPEATS) && InBuckets(rank, n, Count(m, w))
  {
    hide BucketsOf, Survivors, Ranked, Precedes;
    if n > 0 {
      ReportedUpTo(rank, order, m, n - 1);
      BucketIs(rank, order, m, n - 1);
      var before, c := Reported(rank, n - 1), rank[n - 1].count;
      var more := Survivors(rank[n - 1].words, rank[n - 1].words);
      forall w ensures w in before + more <==> Ranked(m, w, MIN_REPEATS) && InBuckets(rank, n, Count(m, w)) {
        OneMoreBucket(rank, n, Count(m, w));
      }
      forall w | w in before ensures Count(m, w) < c {
        EarlierIsLess(rank, order, m, n - 1, Count(m, w));
      }
      Glued(before, more, m, order, c);
    }
  }

  lemma EarlierIsLess(rank: seq<Bucket>, order: seq<Word>, m: Counts, n: nat, c: int)
    requires BucketsOf(rank, order, m) && n < |rank| && InBuckets(rank, n, c)
    ensures c < rank[n].count
  {
  }

  lemma OneMoreBucket(rank: seq<Bucket>, n: nat, c: int)
    requires 0 < n <= |rank|
    ensures InBuckets(rank, n, c) <==> InBuckets(rank, n - 1, c) || rank[n - 1].count == c
  {
  }

  lemma Glued(before: seq<Word>, more: seq<Word>, m: Counts, order: seq<Word>, c: int)
    requires Sorted(before, m, order) && InOrder(more, order)
    requires forall w :: w in before ==> Count(m, w) < c
    requires forall w :: w in more ==> Count(m, w) == c
    ensures Sorted(before + more, m, order)
  {
    hide Precedes;
    var all := before + more;
    forall a, b | 0 <= a < b < |all| ensures Before(m, order, all[a], all[b]) {
      if b < |before| {
        assert Before(m, order, before[a], before[b]);
      } else {
        assert all[b] in more;
        if a < |before| {
          assert all[a] in before;
        } else {
          assert all[a] in more && Precedes(order, more[a - |before|], more[b - |before|]);
        }
      }
    }
  }

  /**
   * The report lists exactly the frequent words that nothing dominates, by rising
   * count and, within a count, in iteration order; so each once.
   */
  lemma ReportExactly(rank: seq<Bucket>, order: seq<Word>, m: Counts)
    requires BucketsOf(rank, order, m) && IsEnumeration(order, m)
    ensures Sorted(Reported(rank, |rank|), m, order)
    ensures forall w :: w in Reported(rank, |rank|) <==> Ranked(m, w, MIN_REPEATS)
  {
    hide Survivors, OfCount, WordsAt, Inside;
    ReportedUpTo(rank, order, m, |rank|);
    forall w | Ranked(m, w, MIN_REPEATS) ensures InBuckets(rank, |rank|, m[w]) {
      OfCountExactly(order, m, m[w]);
      assert w in OfCount(order, m, m[w]);
      assert WordsAt(rank, m[w]) == OfCount(order, m, m[w]);
      var k := BucketFor(rank, m[w]);
    }
  }

  /** No buckets, no report: that is, no word was frequent. */
  lemma EmptyReport(rank: seq<Bucket>, order: seq<Word>, m: Counts)
    requires BucketsOf(rank, order, m) && IsEnumeration(order, m)
    ensures rank == [] <==> Reported(rank, |rank|) == []
    ensures rank == [] <==> forall w :: w in m ==> m[w] < MIN_REPEATS
  {
    hide Survivors, OfCount, WordsAt, Inside, Dominated;
    ReportExactly(rank, order, m);
    var r := Reported(rank, |rank|);
    if rank != [] {
      WordsAtIndex(rank, 0);
      var c := rank[0].count;
      assert WordsAt(rank, c) == rank[0].words != [];
      OfCountExactly(order, m, c);
      var w := rank[0].words[0];
      assert w in OfCount(order, m, c);
      if !Ranked(m, w, MIN_REPEATS) {
        var top := DroppedInsideRanked(m, w, MIN_REPEATS);
        assert top in r;
      } else {
        assert w in r;
      }
    } else {
      forall w | w in m ensures m[w] < MIN_REPEATS {
        if m[w] >= MIN_REPEATS && !Ranked(m, w, MIN_REPEATS) {
          var top := DroppedInsideRanked(m, w, MIN_REPEATS);
        }
      }
    }
  }
}
