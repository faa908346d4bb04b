/** Filling the gaps between dictionary words, and cutting the words into groups
    that do not overlap each other. */
module WordGroups {
  import opened Bytes
  import opened WordElements

  /** dConstMissMatchPred: the weight of a stretch of text no dictionary word covers. */
  const MISS_WEIGHT: real := 0.00000001

  /** The stretch between two neighbours. */
  function Miss(x: Elem, y: Elem, text: Word): Elem
    requires 0 <= x.End() <= y.pos <= |text|
  {
    Elem(text[x.End()..y.pos], x.End(), y.pos - x.End(), MISS_WEIGHT, MISS_WEIGHT)
  }

  /** The stretch between two neighbours, if there is one.  (Words that cover slices
      of the text never leave the text, so the bound is no restriction.) */
  function Gap(x: Elem, y: Elem, text: Word): seq<Elem> {
    if 0 <= x.End() < y.pos <= |text| then [Miss(x, y, text)] else []
  }

  /** The first `n` hints with the gaps between them filled. */
  function FillGaps(h: seq<Elem>, n: nat, text: Word): seq<Elem>
    requires n <= |h|
  {
    if n == 0 then []
    else if n == 1 then [h[0]]
    else FillGaps(h, n - 1, text) + Gap(h[n - 2], h[n - 1], text) + [h[n - 1]]
  }

  /** Every word reaches at least to where the next one starts. */
  predicate NoGaps(m: seq<Elem>) {
    forall i :: 0 <= i < |m| - 1 ==> m[i].End() >= m[i + 1].pos
  }

  /** A filler: it starts at a place where no hint of `h` starts. */
  predicate Filler(h: seq<Elem>, n: nat, x: Elem)
    requires n <= |h|
  {
    x.weight == MISS_WEIGHT && n > 0 && x.pos < h[n - 1].pos
    && forall i :: 0 <= i < |h| ==> h[i].pos != x.pos
  }

  lemma {:induction false} FilledParts(h: seq<Elem>, n: nat, text: Word, x: Elem)
    requires n <= |h| && AllCover(h, text) && Sorted(h) && x in FillGaps(h, n, text)
    ensures x in h[..n] || Filler(h, n, x)
    ensures n > 0 && x.pos <= h[n - 1].pos
  {
    if n > 1 {
      if x in FillGaps(h, n - 1, text) {
        FilledParts(h, n - 1, text, x);
      } else if x in Gap(h[n - 2], h[n - 1], text) {
        assert Covers(h[n - 2], text);
      }
    }
  }

  lemma {:induction false} FilledHolds(h: seq<Elem>, n: nat, text: Word, k: nat)
    requires k < n <= |h|
    ensures h[k] in FillGaps(h, n, text)
  {
    if n > 1 && k < n - 1 {
      FilledHolds(h, n - 1, text, k);
    }
  }

  lemma {:induction false} FilledEnds(h: seq<Elem>, n: nat, text: Word)
    requires 0 < n <= |h|
    ensures var f := FillGaps(h, n, text); f != [] && f[0] == h[0] && f[|f| - 1] == h[n - 1]
  {
    if n > 1 {
      FilledEnds(h, n - 1, text);
    }
  }

  lemma {:induction false} FilledSorted(h: seq<Elem>, n: nat, text: Word)
    requires n <= |h| && AllCover(h, text) && Sorted(h)
    ensures Sorted(FillGaps(h, n, text))
  {
    if n > 1 {
      FilledSorted(h, n - 1, text);
      var f := FillGaps(h, n - 1, text);
      forall i | 0 <= i < |f| ensures f[i].pos <= h[n - 2].pos {
        FilledParts(h, n - 1, text, f[i]);
      }
    }
  }

  lemma {:induction false} FilledNoGaps(h: seq<Elem>, n: nat, text: Word)
    requires n <= |h| && AllCover(h, text)
    ensures NoGaps(FillGaps(h, n, text))
  {
    if n > 1 {
      FilledNoGaps(h, n - 1, text);
      FilledEnds(h, n - 1, text);
      assert Covers(h[n - 2], text) && Covers(h[n - 1], text);
    }
  }

  lemma {:induction false} FilledCovers(h: seq<Elem>, n: nat, text: Word)
    requires n <= |h| && AllCover(h, text)
    ensures AllCover(FillGaps(h, n, text), text)
  {
    if n > 1 {
      FilledCovers(h, n - 1, text);
      var x, y := h[n - 2], h[n - 1];
      assert Covers(x, text) && Covers(y, text);
    }
  }

  lemma {:induction false} FilledDistinct(h: seq<Elem>, n: nat, text: Word)
    requires n <= |h| && AllCover(h, text) && Sorted(h) && DistinctPlaces(h)
    ensures DistinctPlaces(FillGaps(h, n, text))
  {
    if n > 1 {
      FilledDistinct(h, n - 1, text);
      var f, g, y := FillGaps(h, n - 1, text), Gap(h[n - 2], h[n - 1], text), h[n - 1];
      assert Covers(h[n - 2], text);
      forall i | 0 <= i < |f| ensures f[i].pos <= h[n - 2].pos && (f[i].pos != y.pos || f[i].range != y.range) {
        FilledParts(h, n - 1, text, f[i]);
        if f[i] in h[..n - 1] {
          var k :| 0 <= k < n - 1 && h[k] == f[i];
        }
      }
    }
  }

  /**
   * After gap filling the words are in order, no place occurs twice, every word
   * is the slice of the text it covers, every hint is still there, and
   * neighbours leave no gap.
   */
  lemma GapFilling(h: seq<Elem>, text: Word)
    requires AllCover(h, text) && Sorted(h) && DistinctPlaces(h)
    ensures var f := FillGaps(h, |h|, text);
      && Sorted(f) && NoGaps(f) && AllCover(f, text) && DistinctPlaces(f)
      && (forall k :: 0 <= k < |h| ==> h[k] in f)
      && (forall x :: x in f ==> x in h || Filler(h, |h|, x))
  {
    FilledSorted(h, |h|, text);
    FilledNoGaps(h, |h|, text);
    FilledCovers(h, |h|, text);
    FilledDistinct(h, |h|, text);
    forall k | 0 <= k < |h| ensures h[k] in FillGaps(h, |h|, text) {
      FilledHolds(h, |h|, text, k);
    }
    forall x | x in FillGaps(h, |h|, text) ensures x in h || Filler(h, |h|, x) {
      FilledParts(h, |h|, text, x);
    }
  }

  // ---------------------------------------------------------------- grouping

  /** No word in front of index `c` reaches over the start of word `c`. */
  predicate IsCut(h: seq<Elem>, c: nat) {
    0 < c < |h| && forall i :: 0 <= i < c ==> h[i].End() <= h[c].pos
  }

  datatype Grouping = Grouping(done: seq<seq<Elem>>, current: seq<Elem>)

  /** The first `n` words, a new group starting at every cut. */
  function GroupUpTo(h: seq<Elem>, n: nat): Grouping
    requires n <= |h|
  {
    if n == 0 then Grouping([], [])
    else
      var g := GroupUpTo(h, n - 1);
      if IsCut(h, n - 1) then Grouping(g.done + [g.current], [h[n - 1]])
      else g.(current := g.current + [h[n - 1]])
  }

  function Groups(h: seq<Elem>): seq<seq<Elem>> {
    var g := GroupUpTo(h, |h|);
    if g.current == [] then g.done else g.done + [g.current]
  }

  /** The indices at which the groups of a partition begin, the first one aside. */
  function Boundaries(gs: seq<seq<Elem>>): set<nat> {
    if |gs| <= 1 then {} else Boundaries(gs[..|gs| - 1]) + {|Join(gs[..|gs| - 1])|}
  }

  predicate Partition(gs: seq<seq<Elem>>, h: seq<Elem>) {
    Join(gs) == h && forall k :: 0 <= k < |gs| ==> gs[k] != []
  }

  lemma BoundariesSnoc(gs: seq<seq<Elem>>, g: seq<Elem>)
    ensures Boundaries(gs + [g]) == if gs == [] then {} else Boundaries(gs) + {|Join(gs)|}
  {
    assert (gs + [g])[..|gs|] == gs;
  }

  lemma {:induction false} GroupUpToJoins(h: seq<Elem>, n: nat)
    requires n <= |h|
    ensures var g := GroupUpTo(h, n); Join(g.done) + g.current == h[..n]
  {
    if n > 0 {
      GroupUpToJoins(h, n - 1);
      var p := GroupUpTo(h, n - 1);
      JoinSnoc(p.done, p.current);
      assert h[..n] == h[..n - 1] + [h[n - 1]];
    }
  }

  lemma {:induction false} GroupUpToNonEmpty(h: seq<Elem>, n: nat)
    requires n <= |h|
    ensures var g := GroupUpTo(h, n);
      (forall k :: 0 <= k < |g.done| ==> g.done[k] != []) && (n > 0 ==> g.current != [])
  {
    if n > 0 {
      GroupUpToNonEmpty(h, n - 1);
    }
  }

  lemma {:induction false} GroupUpToBounds(h: seq<Elem>, n: nat, c: nat)
    requires 0 < n <= |h|
    ensures var g := GroupUpTo(h, n); c in Boundaries(g.done + [g.current]) <==> c < n && IsCut(h, c)
  {
    var g, p := GroupUpTo(h, n), GroupUpTo(h, n - 1);
    BoundariesSnoc(g.done, g.current);
    if n > 1 {
      GroupUpToBounds(h, n - 1, c);
      BoundariesSnoc(p.done, p.current);
      if IsCut(h, n - 1) {
        GroupUpToJoins(h, n - 1);
        JoinSnoc(p.done, p.current);
      }
    } else {
      assert g.done == [];
    }
  }

  /**
   * The groups are an order-preserving partition, and a group begins exactly
   * where no earlier word reaches over.
   */
  lemma GroupsPartition(h: seq<Elem>)
    ensures Partition(Groups(h), h)
    ensures forall c: nat :: c in Boundaries(Groups(h)) <==> IsCut(h, c)
  {
    if h != [] {
      var g := GroupUpTo(h, |h|);
      GroupUpToJoins(h, |h|);
      GroupUpToNonEmpty(h, |h|);
      JoinSnoc(g.done, g.current);
      assert h[..|h|] == h;
      forall c: nat ensures c in Boundaries(Groups(h)) <==> IsCut(h, c) {
        GroupUpToBounds(h, |h|, c);
      }
    }
  }

  /** No word in front of boundary `c` overlaps a word behind it. */
  predicate NobodyCrosses(h: seq<Elem>, c: nat) {
    0 < c < |h| && forall i, j :: 0 <= i < c <= j < |h| ==> h[i].End() <= h[j].pos
  }

  /** Every other partition without crossing words is coarser. */
  lemma GroupsFinest(h: seq<Elem>, gs: seq<seq<Elem>>)
    requires Sorted(h) && Partition(gs, h)
    requires forall c: nat :: c in Boundaries(gs) ==> NobodyCrosses(h, c)
    ensures Boundaries(gs) <= Boundaries(Groups(h))
    ensures forall c: nat :: c in Boundaries(Groups(h)) ==> NobodyCrosses(h, c)
  {
    hide Groups, Boundaries;
    GroupsPartition(h);
    forall c: nat | c in Boundaries(gs) ensures IsCut(h, c) {
      assert NobodyCrosses(h, c);
    }
  }

  /** The end of the last word of a group: where its lattice must arrive. */
  function PosLast(g: seq<Elem>): int
    requires g != []
  {
    g[|g| - 1].End()
  }

  predicate EndsWithin(g: seq<Elem>, limit: int) {
    forall i :: 0 <= i < |g| ==> g[i].End() <= limit
  }

  /** `g` ends exactly where `next` starts, and no word of `g` reaches beyond. */
  predicate Abut(g: seq<Elem>, next: seq<Elem>) {
    g != [] && next != [] && PosLast(g) == next[0].pos && EndsWithin(g, PosLast(g))
  }

  predicate Abutting(gs: seq<seq<Elem>>) {
    |gs| <= 1 || (Abutting(gs[..|gs| - 1]) && Abut(gs[|gs| - 2], gs[|gs| - 1]))
  }

  lemma CutAbuts(h: seq<Elem>, n: nat, g: seq<Elem>)
    requires NoGaps(h) && IsCut(h, n)
    requires g != [] && |g| <= n && g == h[n - |g|..n]
    ensures Abut(g, [h[n]])
  {
    assert h[n - 1].End() >= h[n].pos;
    assert PosLast(g) == h[n - 1].End();
    forall i | 0 <= i < |g| ensures g[i].End() <= PosLast(g) {
      assert g[i] == h[n - |g| + i];
    }
  }

  lemma AbuttingSnoc(gs: seq<seq<Elem>>, g: seq<Elem>)
    ensures Abutting(gs + [g]) <==> gs == [] || (Abutting(gs) && Abut(gs[|gs| - 1], g))
  {
    hide Abut;
    var hs := gs + [g];
    assert hs[..|hs| - 1] == gs && hs[|hs| - 1] == g;
  }

  lemma AbutExtends(g: seq<Elem>, next: seq<Elem>, x: Elem)
    requires Abut(g, next)
    ensures Abut(g, next + [x])
  {
  }

  lemma {:induction false} GroupUpToAbuts(h: seq<Elem>, n: nat)
    requires 0 < n <= |h| && NoGaps(h)
    ensures var g := GroupUpTo(h, n); Abutting(g.done + [g.current])
  {
    hide NoGaps, Abut, Abutting;
    var g, p := GroupUpTo(h, n), GroupUpTo(h, n - 1);
    AbuttingSnoc(g.done, g.current);
    CurrentIsTail(h, n);
    if n > 1 {
      GroupUpToAbuts(h, n - 1);
      AbuttingSnoc(p.done, p.current);
      CurrentIsTail(h, n - 1);
      if IsCut(h, n - 1) {
        CutAbuts(h, n - 1, p.current);
      } else if p.done != [] {
        AbutExtends(p.done[|p.done| - 1], p.current, h[n - 1]);
      }
    } else {
      assert GroupUpTo(h, 0) == Grouping([], []);
    }
  }

  /** For gapless words, each group ends exactly where the next one starts, and
      that is as far as any of its words reaches. */
  lemma GroupsAbut(h: seq<Elem>)
    requires NoGaps(h)
    ensures Abutting(Groups(h))
  {
    if h != [] {
      GroupUpToAbuts(h, |h|);
    }
  }

  /** The furthest end in a group; the source starts from 0. */
  function MaxEnd(g: seq<Elem>): int {
    if g == [] then 0
    else
      var m, e := MaxEnd(g[..|g| - 1]), g[|g| - 1].End();
      if m < e then e else m
  }

  lemma {:induction false} MaxEndIs(g: seq<Elem>, limit: int)
    requires 0 <= limit
    ensures MaxEnd(g) <= limit <==> EndsWithin(g, limit)
  {
    if g != [] {
      MaxEndIs(g[..|g| - 1], limit);
    }
  }

  /** Looking at the current group only is enough to recognise a cut. */
  lemma CutIffGroupCovered(h: seq<Elem>, n: nat)
    requires 0 < n < |h| && Sorted(h) && h[n].pos >= 0
    ensures IsCut(h, n) <==> MaxEnd(GroupUpTo(h, n).current) <= h[n].pos
  {
    hide GroupUpTo, MaxEnd;
    var g := GroupUpTo(h, n).current;
    CurrentIsTail(h, n);
    MaxEndIs(g, h[n].pos);
    var start := n - |g|;
    if EndsWithin(g, h[n].pos) {
      forall i | 0 <= i < n ensures h[i].End() <= h[n].pos {
        if i >= start {
          assert h[i] == g[i - start];
        } else {
          assert IsCut(h, start) && h[start].pos <= h[n].pos;
        }
      }
    }
    if IsCut(h, n) {
      forall i | 0 <= i < |g| ensures g[i].End() <= h[n].pos {
        assert g[i] == h[start + i];
      }
    }
  }

  lemma GroupUpToNext(h: seq<Elem>, n: nat)
    requires n < |h|
    ensures var g := GroupUpTo(h, n);
      GroupUpTo(h, n + 1) ==
        if IsCut(h, n) then Grouping(g.done + [g.current], [h[n]]) else g.(current := g.current + [h[n]])
    ensures GroupUpTo(h, 0) == Grouping([], []) && !IsCut(h, 0)
  {
  }

  lemma SliceNext(h: seq<Elem>, a: nat, n: nat)
    requires a <= n < |h|
    ensures h[a..n + 1] == h[a..n] + [h[n]]
  {
  }

  lemma {:induction false} CurrentIsTail(h: seq<Elem>, n: nat)
    requires 0 < n <= |h|
    ensures var g := GroupUpTo(h, n);
      && g.current != [] && |g.current| <= n && g.current == h[n - |g.current|..n]
      && (|g.current| < n ==> IsCut(h, n - |g.current|))
  {
    hide GroupUpTo, IsCut;
    GroupUpToNext(h, n - 1);
    SliceNext(h, n - 1, n - 1);
    if n > 1 {
      CurrentIsTail(h, n - 1);
      SliceNext(h, n - 1 - |GroupUpTo(h, n - 1).current|, n - 1);
    }
  }

  /** How far the words of the current group in front of its last one reach. */
  function CoverBefore(g: seq<Elem>): int {
    if |g| <= 1 then 0 else MaxEnd(g[..|g| - 1])
  }

  /** The comparison of `getNoConflictSeq` recognises exactly the cuts. */
  lemma CutTest(h: seq<Elem>, n: nat, current: seq<Elem>)
    requires 0 < n < |h| && Sorted(h) && h[n].pos >= 0 && current == GroupUpTo(h, n).current
    ensures var cover := if CoverBefore(current) < h[n - 1].End() then h[n - 1].End() else CoverBefore(current);
      && (IsCut(h, n) ==> cover <= h[n].pos)
      && (!IsCut(h, n) ==> cover > h[n].pos && cover == CoverBefore(current + [h[n]]))
  {
    hide GroupUpTo, IsCut;
    CurrentIsTail(h, n);
    CutIffGroupCovered(h, n);
    assert current[|current| - 1] == h[n - 1];
    assert (current + [h[n]])[..|current|] == current;
    if |current| == 1 {
      assert current[..0] == [];
    }
  }

  lemma CurrentBelow(h: seq<Elem>, n: nat)
    requires n < |h| && Sorted(h)
    ensures var g := GroupUpTo(h, n).current; forall i :: 0 <= i < |g| ==> g[i].pos <= h[n].pos
  {
    if n > 0 {
      hide GroupUpTo, IsCut, Sorted;
      CurrentIsTail(h, n);
      var g := GroupUpTo(h, n).current;
      forall i | 0 <= i < |g| ensures g[i].pos <= h[n].pos {
        SortedAt(h, n - |g| + i, n);
      }
    }
  }

  lemma SortedAt(h: seq<Elem>, i: nat, j: nat)
    requires Sorted(h) && i < j < |h|
    ensures h[i].pos <= h[j].pos
  {
  }
}
