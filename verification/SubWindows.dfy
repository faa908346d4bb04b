/** What the counts of overlapping windows have to do with each other. */
module SubWindows {
  import opened Bytes
  import opened Utf8Splitter
  import opened WindowCounts

  /** Where the pieces `p` occur. */
  function Occurrences(ws: seq<Piece>, p: seq<Piece>): set<nat> {
    set i: nat | i <= |ws| && OccursAt(ws, p, i)
  }

  predicate OccursAt(ws: seq<Piece>, p: seq<Piece>, i: nat) {
    i + |p| <= |ws| && ws[i..i + |p|] == p
  }

  function TotalOccurrences(learnt: seq<seq<Piece>>, p: seq<Piece>): nat {
    if learnt == [] then 0
    else TotalOccurrences(learnt[..|learnt| - 1], p) + |Occurrences(learnt[|learnt| - 1], p)|
  }

  lemma {:induction false} SmallerSet<T>(a: set<T>, b: set<T>)
    requires a <= b
    ensures |a| <= |b|
  {
    if a != {} {
      var x :| x in a;
      SmallerSet(a - {x}, b - {x});
    }
  }

  function Pairs(s: set<nat>, n: nat): set<(nat, nat)> {
    set i | i in s :: (i, i + n)
  }

  function Shift(s: set<nat>, a: nat): set<nat> {
    set i | i in s :: i + a
  }

  /** As many windows as starting points. */
  lemma {:induction false} PairsCard(s: set<nat>, n: nat)
    ensures |Pairs(s, n)| == |s|
  {
    if s != {} {
      var x :| x in s;
      PairsCard(s - {x}, n);
      assert s == s - {x} + {x};
      assert Pairs(s, n) == Pairs(s - {x}, n) + {(x, x + n)};
    }
  }

  lemma {:induction false} ShiftCard(s: set<nat>, a: nat)
    ensures |Shift(s, a)| == |s|
  {
    if s != {} {
      var x :| x in s;
      ShiftCard(s - {x}, a);
      forall y | y in Shift(s, a) ensures y in Shift(s - {x}, a) + {x + a} {
        var i :| i in s && y == i + a;
        assert i == x || i in s - {x};
      }
      assert Shift(s, a) == Shift(s - {x}, a) + {x + a};
    }
  }

  lemma OccursSpells(ws: seq<Piece>, p: seq<Piece>, i: nat)
    requires 2 <= |p| <= MAX_WORD_LENGTH && OccursAt(ws, p, i)
    ensures (i, i + |p|) in Windows(ws, Join(p))
  {
    hide Join;
    assert Spells(ws, i, i + |p|, Join(p));
  }

  /** Every occurrence of the pieces is a window that joins to their text. */
  lemma OccurrencesAreWindows(ws: seq<Piece>, p: seq<Piece>)
    requires 2 <= |p| <= MAX_WORD_LENGTH
    ensures Pairs(Occurrences(ws, p), |p|) <= Windows(ws, Join(p))
    ensures |Occurrences(ws, p)| <= |Windows(ws, Join(p))|
  {
    hide Join, Windows;
    var pairs := Pairs(Occurrences(ws, p), |p|);
    forall x | x in pairs ensures x in Windows(ws, Join(p)) {
      OccursSpells(ws, p, x.0);
    }
    PairsCard(Occurrences(ws, p), |p|);
    SmallerSet(pairs, Windows(ws, Join(p)));
  }

  lemma WindowIsPieces(ws: seq<Piece>, p: seq<Piece>, i: nat, j: nat)
    requires i <= j <= |ws| && Splittable(ws) && Splittable(p) && Join(ws[i..j]) == Join(p)
    ensures ws[i..j] == p && j == i + |p|
  {
    hide Join, Whole, Cut;
    JoinInjective(ws[i..j], p);
  }

  lemma WindowOccurs(ws: seq<Piece>, p: seq<Piece>, i: nat, j: nat)
    requires Splittable(ws) && Splittable(p) && (i, j) in Windows(ws, Join(p))
    ensures (i, j) in Pairs(Occurrences(ws, p), |p|)
  {
    hide Join, Splittable;
    WindowIsPieces(ws, p, i, j);
    assert i in Occurrences(ws, p);
  }

  /** In a splittable list nothing else joins to the text of splittable pieces. */
  lemma WindowsAreOccurrences(ws: seq<Piece>, p: seq<Piece>)
    requires 2 <= |p| <= MAX_WORD_LENGTH && Splittable(ws) && Splittable(p)
    ensures |Windows(ws, Join(p))| == |Occurrences(ws, p)|
  {
    hide Join, Splittable, Windows, Occurrences, Pairs;
    var pairs := Pairs(Occurrences(ws, p), |p|);
    OccurrencesAreWindows(ws, p);
    PairsCard(Occurrences(ws, p), |p|);
    forall x | x in Windows(ws, Join(p)) ensures x in pairs {
      WindowOccurs(ws, p, x.0, x.1);
    }
    assert pairs == Windows(ws, Join(p));
  }

  lemma SliceOfSlice(ws: seq<Piece>, i: nat, j: nat, a: nat, b: nat)
    requires i <= j <= |ws| && a <= b <= j - i
    ensures ws[i..j][a..b] == ws[i + a..i + b]
  {
    var s, t := ws[i..j][a..b], ws[i + a..i + b];
    forall k | 0 <= k < b - a ensures s[k] == t[k] {
      assert s[k] == ws[i..j][a + k] == ws[i + a + k];
    }
  }

  /** A part of the pieces occurs wherever the pieces occur. */
  lemma PartOccurs(ws: seq<Piece>, q: seq<Piece>, a: nat, b: nat)
    requires a <= b <= |q|
    ensures |Occurrences(ws, q)| <= |Occurrences(ws, q[a..b])|
  {
    var shifted := Shift(Occurrences(ws, q), a);
    ShiftCard(Occurrences(ws, q), a);
    forall i | i in Occurrences(ws, q) ensures i + a in Occurrences(ws, q[a..b]) {
      assert OccursAt(ws, q, i);
      SliceOfSlice(ws, i, i + |q|, a, b);
    }
    SmallerSet(shifted, Occurrences(ws, q[a..b]));
  }

  /**
   * Whatever was learnt, the text of at least two pieces counts at least as often
   * as any run of pieces that contains them was seen.
   */
  lemma {:induction false} PartCounts(learnt: seq<seq<Piece>>, q: seq<Piece>, a: nat, b: nat)
    requires a <= b <= |q| && 2 <= b - a <= MAX_WORD_LENGTH
    ensures Total(learnt, Join(q[a..b])) >= TotalOccurrences(learnt, q)
  {
    if learnt != [] {
      PartCounts(learnt[..|learnt| - 1], q, a, b);
      PartOccurs(learnt[|learnt| - 1], q, a, b);
      OccurrencesAreWindows(learnt[|learnt| - 1], q[a..b]);
    }
  }

  lemma {:induction false} TextCounts(learnt: seq<seq<Piece>>, q: seq<Piece>)
    requires forall k :: 0 <= k < |learnt| ==> Splittable(learnt[k])
    requires 2 <= |q| <= MAX_WORD_LENGTH && Splittable(q)
    ensures Total(learnt, Join(q)) == TotalOccurrences(learnt, q)
  {
    if learnt != [] {
      TextCounts(learnt[..|learnt| - 1], q);
      WindowsAreOccurrences(learnt[|learnt| - 1], q);
    }
  }

  /** A counted string is the join of a window, whose pieces it determines. */
  lemma {:induction false} CountedIsWindow(learnt: seq<seq<Piece>>, s: Word) returns (q: seq<Piece>)
    requires forall k :: 0 <= k < |learnt| ==> Splittable(learnt[k])
    requires Total(learnt, s) > 0
    ensures s == Join(q) && Splittable(q) && 2 <= |q| <= MAX_WORD_LENGTH && q == Pieces(s)
  {
    var last := learnt[|learnt| - 1];
    if Windows(last, s) != {} {
      var x :| x in Windows(last, s);
      q := last[x.0..x.1];
      PiecesUnique(q);
    } else {
      q := CountedIsWindow(learnt[..|learnt| - 1], s);
    }
  }

  /**
   * Over lists cut by the splitter, every part of two or more pieces of a counted
   * string counts at least as often as the string itself.
   */
  lemma PartsCountMore(m: Counts, learnt: seq<seq<Piece>>, s: Word, a: nat, b: nat)
    requires CountsOf(m, learnt) && forall k :: 0 <= k < |learnt| ==> Splittable(learnt[k])
    requires s in m && a <= b <= |Pieces(s)| && b - a >= 2
    ensures Join(Pieces(s)[a..b]) in m && m[Join(Pieces(s)[a..b])] >= m[s]
  {
    hide Join, Pieces, Total, TotalOccurrences;
    assert Count(m, s) == Total(learnt, s);
    var q := CountedIsWindow(learnt, s);
    TextCounts(learnt, q);
    PartCounts(learnt, q, a, b);
    assert Count(m, Join(q[a..b])) == Total(learnt, Join(q[a..b]));
  }

  /**
   * Over other lists that fails: with the pieces a, b, c and ab, c learnt, "abc"
   * counts twice and its part "ab" once.
   */
  lemma UnsplittablePartsCountLess()
    ensures var learnt: seq<seq<Piece>> := [[[97], [98], [99]], [[97, 98], [99]]];
      Total(learnt, [97, 98, 99]) == 2 && Total(learnt, [97, 98]) == 1
  {
    hide Total, Windows;
    var x: seq<Piece>, y: seq<Piece> := [[97], [98], [99]], [[97, 98], [99]];
    ThreeWindows(x, y);
    assert [] + [x] == [x] && [x] + [y] == [x, y];
    TotalSnoc([], x, [97, 98, 99]);
    TotalSnoc([], x, [97, 98]);
    TotalSnoc([x], y, [97, 98, 99]);
    TotalSnoc([x], y, [97, 98]);
  }

  lemma TotalSnoc(learnt: seq<seq<Piece>>, ws: seq<Piece>, s: Word)
    ensures Total([], s) == 0 && Total(learnt + [ws], s) == Total(learnt, s) + |Windows(ws, s)|
  {
    assert (learnt + [ws])[..|learnt|] == learnt;
  }

  lemma ThreeWindows(x: seq<Piece>, y: seq<Piece>)
    requires x == [[97], [98], [99]] && y == [[97, 98], [99]]
    ensures |Windows(x, [97, 98, 99])| == 1 && |Windows(y, [97, 98, 99])| == 1
    ensures |Windows(x, [97, 98])| == 1 && |Windows(y, [97, 98])| == 0
  {
    Joins(x, y);
    hide Join;
    assert Windows(x, [97, 98, 99]) == {(0, 3)};
    assert Windows(y, [97, 98, 99]) == {(0, 2)};
    assert Windows(x, [97, 98]) == {(0, 2)};
    assert Windows(y, [97, 98]) == {};
  }

  lemma Joins(x: seq<Piece>, y: seq<Piece>)
    requires x == [[97], [98], [99]] && y == [[97, 98], [99]]
    ensures Join(x[0..2]) == [97, 98] && Join(x[1..3]) == [98, 99] && Join(x[0..3]) == [97, 98, 99]
    ensures Join(y[0..2]) == [97, 98, 99]
  {
    assert x[0..2] == [[97], [98]] && x[1..3] == [[98], [99]] && x[0..3] == x && y[0..2] == y;
    assert Join<Byte>([[99]]) == [99] && Join<Byte>([[98]]) == [98];
    assert x[0..2][1..] == [[98]] && x[1..3][1..] == [[99]] && x[1..] == [[98], [99]] && y[1..] == [[99]];
  }
}
