/** The n-gram counts of `OstrichWord`: how often each joined window of pieces was learnt. */
module WindowCounts {
  import opened Bytes
  import opened Utf8Splitter

  /** maxWordLength_ */
  const MAX_WORD_LENGTH: nat := 32

  type Counts = map<Word, int>

  function Count(m: Counts, s: Word): int {
    if s in m then m[s] else 0
  }

  predicate IsWindow(ws: seq<Piece>, i: nat, j: nat) {
    i < j <= |ws| && 2 <= j - i <= MAX_WORD_LENGTH
  }

  predicate Spells(ws: seq<Piece>, i: nat, j: nat, s: Word) {
    IsWindow(ws, i, j) && Join(ws[i..j]) == s
  }

  /** The windows of 2 to 32 consecutive pieces that join to `s`. */
  function Windows(ws: seq<Piece>, s: Word): set<(nat, nat)> {
    set i: nat, j: nat | i < |ws| && j <= |ws| && Spells(ws, i, j, s) :: (i, j)
  }

  /** The windows of all the learnt lists that join to `s`. */
  function Total(learnt: seq<seq<Piece>>, s: Word): nat {
    if learnt == [] then 0 else Total(learnt[..|learnt| - 1], s) + |Windows(learnt[|learnt| - 1], s)|
  }

  /** The map holds, for every string, exactly the number of windows joining to it. */
  ghost predicate CountsOf(m: Counts, learnt: seq<seq<Piece>>) {
    (forall s: Word :: Count(m, s) == Total(learnt, s)) && (forall s: Word :: s in m ==> m[s] >= 1)
  }

  // Scanning the windows.

  /** Ends before piece `e`, or ends with it and has at most `l` pieces. */
  predicate Scanned(i: nat, j: nat, e: nat, l: nat) {
    j <= e || (j == e + 1 && i + l >= j)
  }

  function WindowsUpTo(ws: seq<Piece>, e: nat, l: nat, s: Word): set<(nat, nat)> {
    set i: nat, j: nat | i < |ws| && j <= |ws| && Spells(ws, i, j, s) && Scanned(i, j, e, l) :: (i, j)
  }

  /** The counts `m0` plus the windows scanned so far. */
  ghost predicate Counting(m: Counts, m0: Counts, ws: seq<Piece>, e: nat, l: nat) {
    && (forall s: Word :: Count(m, s) == Count(m0, s) + |WindowsUpTo(ws, e, l, s)|)
    && ((forall s: Word :: s in m0 ==> m0[s] >= 1) ==> (forall s: Word :: s in m ==> m[s] >= 1))
  }

  lemma CountingStarts(m: Counts, ws: seq<Piece>)
    ensures Counting(m, m, ws, 0, 1)
  {
    forall s: Word ensures WindowsUpTo(ws, 0, 1, s) == {} {
    }
  }

  lemma CountingNext(m: Counts, m0: Counts, ws: seq<Piece>, e: nat, l: nat, w: Word)
    requires Counting(m, m0, ws, e, l) && 1 <= l <= e < |ws| && l < MAX_WORD_LENGTH
    requires w == Join(ws[e - l..e + 1])
    ensures Counting(m[w := Count(m, w) + 1], m0, ws, e, l + 1)
  {
    var m' := m[w := Count(m, w) + 1];
    forall s: Word ensures Count(m', s) == Count(m0, s) + |WindowsUpTo(ws, e, l + 1, s)| {
      OneMore(ws, e, l, w, s);
      assert Count(m, s) == Count(m0, s) + |WindowsUpTo(ws, e, l, s)|;
    }
    if forall s: Word :: s in m0 ==> m0[s] >= 1 {
      assert Count(m, w) >= 0;
    }
  }

  lemma OneMore(ws: seq<Piece>, e: nat, l: nat, w: Word, s: Word)
    requires 1 <= l <= e < |ws| && l < MAX_WORD_LENGTH && w == Join(ws[e - l..e + 1])
    ensures |WindowsUpTo(ws, e, l + 1, s)| == |WindowsUpTo(ws, e, l, s)| + (if s == w then 1 else 0)
  {
    hide Join, IsWindow;
    var before, after := WindowsUpTo(ws, e, l, s), WindowsUpTo(ws, e, l + 1, s);
    assert Spells(ws, e - l, e + 1, s) <==> s == w by {
      FullWindow(ws, e, l);
    }
    hide Spells;
    forall i: nat, j: nat ensures Scanned(i, j, e, l + 1) <==> Scanned(i, j, e, l) || (i == e - l && j == e + 1) {
    }
    var x := (e - l, e + 1);
    assert after == if s == w then before + {x} else before;
    assert x !in before;
  }

  lemma FullWindow(ws: seq<Piece>, e: nat, l: nat)
    requires 1 <= l <= e < |ws| && l < MAX_WORD_LENGTH
    ensures IsWindow(ws, e - l, e + 1)
  {
  }

  /** All lengths done: the scan goes on behind the next piece. */
  lemma CountingAdvances(m: Counts, m0: Counts, ws: seq<Piece>, e: nat, l: nat)
    requires Counting(m, m0, ws, e, l) && e < |ws|
    requires l == MAX_WORD_LENGTH || l == e + 1
    ensures Counting(m, m0, ws, e + 1, 1)
  {
    forall s: Word ensures WindowsUpTo(ws, e + 1, 1, s) == WindowsUpTo(ws, e, l, s) {
    }
  }

  /** The up to 31 pieces in front of piece `e`. */
  predicate LastPieces(ws: seq<Piece>, e: nat, last: seq<Piece>) {
    && e <= |ws| && |last| == (if e < MAX_WORD_LENGTH - 1 then e else MAX_WORD_LENGTH - 1)
    && last == ws[e - |last|..e]
  }

  lemma AllLastPieces(ws: seq<Piece>, e: nat, last: seq<Piece>)
    requires LastPieces(ws, e, last)
    ensures |last| <= e && (|last| == MAX_WORD_LENGTH - 1 || |last| == e) && |last| < MAX_WORD_LENGTH
  {
  }

  lemma JoinFront(ws: seq<Piece>, i: nat, j: nat)
    requires i < j <= |ws|
    ensures Join(ws[i..j]) == ws[i] + Join(ws[i + 1..j])
  {
    assert ws[i..j][1..] == ws[i + 1..j];
  }

  /** The window of `l` pieces that ends with piece `e`. */
  function Ending(ws: seq<Piece>, e: nat, l: nat): Word
    requires l <= e + 1 <= |ws|
  {
    Join(ws[e + 1 - l..e + 1])
  }

  /** The window that ends with piece `e`, one piece longer. */
  lemma PieceInFront(ws: seq<Piece>, e: nat, last: seq<Piece>, l: nat)
    requires LastPieces(ws, e, last) && e < |ws| && 0 < l <= |last|
    ensures l <= e && Ending(ws, e, l + 1) == last[|last| - l] + Ending(ws, e, l)
  {
    JoinFront(ws, e - l, e + 1);
    assert last[|last| - l] == ws[e - l];
  }

  /** That window is counted. */
  lemma EndingCounted(m: Counts, m0: Counts, ws: seq<Piece>, e: nat, l: nat, w: Word)
    requires 1 <= l <= e < |ws| && l < MAX_WORD_LENGTH && w == Ending(ws, e, l + 1)
    requires Counting(m, m0, ws, e, l)
    ensures Counting(m[w := Count(m, w) + 1], m0, ws, e, l + 1)
  {
    hide Counting;
    CountingNext(m, m0, ws, e, l, w);
  }

  lemma NoLastPieces(ws: seq<Piece>)
    ensures LastPieces(ws, 0, [])
  {
  }

  /** The list of the last pieces, one piece further, with and without its first one. */
  lemma SlidingNext(ws: seq<Piece>, e: nat, last: seq<Piece>)
    requires |last| <= e < |ws| && last == ws[e - |last|..e]
    ensures last + [ws[e]] == ws[e - |last|..e + 1]
    ensures (last + [ws[e]])[1..] == ws[e - |last| + 1..e + 1]
  {
  }

  lemma CountingDone(m: Counts, m0: Counts, ws: seq<Piece>, learnt: seq<seq<Piece>>)
    requires Counting(m, m0, ws, |ws|, 1) && CountsOf(m0, learnt)
    ensures CountsOf(m, learnt + [ws])
  {
    assert (learnt + [ws])[..|learnt|] == learnt;
    forall s: Word ensures Count(m, s) == Total(learnt + [ws], s) {
      assert WindowsUpTo(ws, |ws|, 1, s) == Windows(ws, s);
      assert Count(m0, s) == Total(learnt, s);
    }
  }

  lemma TooShort(m: Counts, ws: seq<Piece>, learnt: seq<seq<Piece>>)
    requires CountsOf(m, learnt) && |ws| < 2
    ensures CountsOf(m, learnt + [ws])
  {
    assert (learnt + [ws])[..|learnt|] == learnt;
    forall s: Word ensures Count(m, s) == Total(learnt + [ws], s) {
      assert Windows(ws, s) == {};
      assert Count(m, s) == Total(learnt, s);
    }
  }

  // ------------------------------------------------------- the counts, spelled out

  /** Where a run of 2 to 32 pieces of one of the lists spells `s`: list, start and end. */
  function Spots(learnt: seq<seq<Piece>>, s: Word): set<(nat, nat, nat)> {
    set k: nat, i: nat, j: nat | k < |learnt| && i < |learnt[k]| && j <= |learnt[k]| && i < j &&
      2 <= j - i <= 32 && Join(learnt[k][i..j]) == s :: (k, i, j)
  }

  function Listed(k: nat, ws: set<(nat, nat)>): set<(nat, nat, nat)> {
    set w | w in ws :: (k, w.0, w.1)
  }

  lemma {:induction false} ListedCard(k: nat, ws: set<(nat, nat)>)
    ensures |Listed(k, ws)| == |ws|
  {
    if ws != {} {
      var w :| w in ws;
      ListedCard(k, ws - {w});
      assert ws == ws - {w} + {w};
      assert Listed(k, ws) == Listed(k, ws - {w}) + {(k, w.0, w.1)};
    }
  }

  lemma SpotsNext(learnt: seq<seq<Piece>>, s: Word)
    requires learnt != []
    ensures var k := |learnt| - 1;
      && Spots(learnt, s) == Spots(learnt[..k], s) + Listed(k, Windows(learnt[k], s))
      && Spots(learnt[..k], s) !! Listed(k, Windows(learnt[k], s))
  {
    hide Join;
    var k := |learnt| - 1;
    forall x ensures x in Spots(learnt, s) <==> x in Spots(learnt[..k], s) || x in Listed(k, Windows(learnt[k], s)) {
      if x.0 == k {
        assert x in Listed(k, Windows(learnt[k], s)) <==> (x.1, x.2) in Windows(learnt[k], s);
      }
    }
  }

  lemma {:induction false} TotalIsSpots(learnt: seq<seq<Piece>>, s: Word)
    ensures Total(learnt, s) == |Spots(learnt, s)|
  {
    if learnt != [] {
      hide Spots, Windows, Listed;
      var k := |learnt| - 1;
      TotalIsSpots(learnt[..k], s);
      SpotsNext(learnt, s);
      ListedCard(k, Windows(learnt[k], s));
    } else {
      assert Spots(learnt, s) == {};
    }
  }

  /** The count of a string is the number of runs of 2 to 32 learnt pieces that spell it. */
  lemma CountIsSpots(m: Counts, learnt: seq<seq<Piece>>, s: Word)
    requires CountsOf(m, learnt)
    ensures (if s in m then m[s] else 0) == |Spots(learnt, s)|
    ensures s in m <==> Spots(learnt, s) != {}
  {
    hide Spots;
    TotalIsSpots(learnt, s);
    assert Count(m, s) == Total(learnt, s);
  }
}
