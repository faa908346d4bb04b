/**
 * Which counted words are worth reporting: the frequent ones that do not lie
 * inside another word of the same count.
 */
module WordRanking {
  import opened Bytes
  import opened WindowCounts

  /** `big.find(w) != npos` */
  predicate Inside(w: Word, big: Word) {
    exists i :: 0 <= i <= |big| - |w| && At(w, big, i)
  }

  predicate At(w: Word, big: Word, i: nat) {
    i + |w| <= |big| && big[i..i + |w|] == w
  }

  /** `big` is another word of the same count, with `w` inside. */
  predicate Dominates(m: Counts, big: Word, w: Word) {
    big in m && w in m && big != w && m[big] == m[w] && Inside(w, big)
  }

  predicate Dominated(m: Counts, w: Word) {
    exists big :: big in m && Dominates(m, big, w)
  }

  /** Reported: counted often enough and not dominated. */
  predicate Ranked(m: Counts, w: Word, threshold: int) {
    w in m && m[w] >= threshold && !Dominated(m, w)
  }

  /** A word lies inside another one if that is the word with something around it. */
  lemma InsideIff(w: Word, big: Word)
    ensures Inside(w, big) <==> exists a: Word, c: Word :: big == a + w + c
  {
    if i :| 0 <= i <= |big| - |w| && At(w, big, i) {
      assert big == big[..i] + w + big[i + |w|..];
    }
    if a: Word, c: Word :| big == a + w + c {
      assert big[|a|..|a| + |w|] == w;
      assert At(w, big, |a|);
    }
  }

  /** Some word of the same count is `w` with something around it. */
  ghost predicate Surrounded(m: Counts, w: Word) {
    exists a: Word, c: Word :: a + c != [] && a + w + c in m && w in m && m[a + w + c] == m[w]
  }

  lemma DominatedIff(m: Counts, w: Word)
    ensures Dominated(m, w) <==> Surrounded(m, w)
  {
    hide Inside;
    if big :| big in m && Dominates(m, big, w) {
      InsideIff(w, big);
      var a: Word, c: Word :| big == a + w + c;
      assert a + c == [] ==> a + w + c == w;
    }
    if a: Word, c: Word :| a + c != [] && a + w + c in m && w in m && m[a + w + c] == m[w] {
      InsideIff(w, a + w + c);
      assert |a + w + c| == |a + c| + |w|;
      assert Dominates(m, a + w + c, w);
    }
  }

  /** The words worth reporting, spelled out: counted often enough, and with nothing around them in a
      word of their count. */
  lemma RankedIff(m: Counts, w: Word, threshold: int)
    ensures Ranked(m, w, threshold) <==>
      && w in m && m[w] >= threshold
      && !exists a: Word, c: Word :: a + c != [] && a + w + c in m && m[a + w + c] == m[w]
  {
    DominatedIff(m, w);
  }

  /** A frequent word left out is reported with something around it, of the same count. */
  lemma LeftOutIsSurrounded(m: Counts, w: Word, threshold: int) returns (a: Word, c: Word)
    requires w in m && m[w] >= threshold && !Ranked(m, w, threshold)
    ensures a + c != [] && Ranked(m, a + w + c, threshold) && m[a + w + c] == m[w]
  {
    hide Inside, Dominated;
    var top := DroppedInsideRanked(m, w, threshold);
    InsideIff(w, top);
    a, c :| top == a + w + c;
    assert a + c == [] ==> |top| == |w|;
  }

  lemma InsideTrans(a: Word, b: Word, c: Word)
    requires Inside(a, b) && Inside(b, c)
    ensures Inside(a, c)
  {
    var i :| 0 <= i <= |b| - |a| && At(a, b, i);
    var j :| 0 <= j <= |c| - |b| && At(b, c, j);
    forall k | 0 <= k < |a| ensures c[j + i + k] == a[k] {
      assert b[i + k] == b[i..i + |a|][k] && c[j + (i + k)] == c[j..j + |b|][i + k];
    }
    assert c[j + i..j + i + |a|] == a;
    assert At(a, c, j + i);
  }

  lemma InsideLonger(a: Word, b: Word)
    requires Inside(a, b) && a != b
    ensures |a| < |b|
  {
    var i :| 0 <= i <= |b| - |a| && At(a, b, i);
    assert b[0..|b|] == b;
  }

  function Dominators(m: Counts, w: Word): set<Word> {
    set big | big in m && Dominates(m, big, w)
  }

  /** Above every dominated word there is one that nothing dominates. */
  lemma {:induction false} TopDominator(m: Counts, w: Word) returns (top: Word)
    requires Dominated(m, w)
    ensures Dominates(m, top, w) && !Dominated(m, top)
    decreases Dominators(m, w)
  {
    var big :| big in m && Dominates(m, big, w);
    if Dominated(m, big) {
      forall x | x in Dominators(m, big) ensures x in Dominators(m, w) {
        InsideTrans(w, big, x);
        InsideLonger(w, big);
        InsideLonger(big, x);
      }
      assert big in Dominators(m, w) && big !in Dominators(m, big);
      top := TopDominator(m, big);
      assert top in Dominators(m, big);
    } else {
      top := big;
    }
  }

  /** Every frequent word left out lies inside a reported word of the same count. */
  lemma DroppedInsideRanked(m: Counts, w: Word, threshold: int) returns (top: Word)
    requires w in m && m[w] >= threshold && !Ranked(m, w, threshold)
    ensures Ranked(m, top, threshold) && m[top] == m[w] && Inside(w, top) && |w| < |top|
  {
    top := TopDominator(m, w);
    InsideLonger(w, top);
  }

  /** Leaving out the rare words first changes nothing: words dominate only words of their own count. */
  lemma RareFirst(m: Counts, threshold: int, w: Word)
    ensures var frequent := map x | x in m && m[x] >= threshold :: m[x];
      w in frequent && !Dominated(frequent, w) <==> Ranked(m, w, threshold)
  {
    var frequent := map x | x in m && m[x] >= threshold :: m[x];
    if w in frequent {
      if Dominated(m, w) {
        var big :| big in m && Dominates(m, big, w);
        assert Dominates(frequent, big, w);
      }
      if Dominated(frequent, w) {
        var big :| big in frequent && Dominates(frequent, big, w);
        assert Dominates(m, big, w);
      }
    }
  }
}
