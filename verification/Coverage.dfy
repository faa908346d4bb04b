/**
 * Completeness of the segmentation: when the dictionary knows every single piece
 * of a sentence, every group of overlapping words has a tiling and the groups
 * cover the whole sentence.
 */
module Coverage {
  import opened Bytes
  import opened WordElements
  import opened DictionaryScan
  import opened WordGroups
  import opened WordLattice
  import opened Segmentation

  predicate KnowsPieces(pieces: seq<Word>, dict: Dictionary) {
    forall i :: 0 <= i < |pieces| ==> pieces[i] in dict && dict[pieces[i]] > 0.0
  }

  /** The element reaches from piece `i` to in front of piece `j`. */
  predicate Spans(pieces: seq<Word>, x: Elem, i: nat, j: nat) {
    i < j <= |pieces| && x.pos == Offset(pieces, i) && x.End() == Offset(pieces, j)
  }

  ghost predicate OnGrid(pieces: seq<Word>, m: seq<Elem>) {
    forall x :: x in m ==> exists i: nat, j: nat :: Spans(pieces, x, i, j)
  }

  ghost predicate HasSingle(pieces: seq<Word>, m: seq<Elem>, i: nat) {
    exists x :: x in m && Spans(pieces, x, i, i + 1)
  }

  ghost predicate HasSingles(pieces: seq<Word>, m: seq<Elem>) {
    forall i: nat :: i < |pieces| ==> HasSingle(pieces, m, i)
  }

  lemma WindowSpans(pieces: seq<Word>, dict: Dictionary, i: nat, j: nat)
    requires i < j <= |pieces|
    ensures Spans(pieces, WindowElem(pieces, dict, i, j), i, j)
  {
    OffsetSplit(pieces, i, j);
  }

  lemma SingleWindow(pieces: seq<Word>, i: nat)
    requires i < |pieces|
    ensures Window(pieces, i, i + 1) == pieces[i]
  {
    assert Window(pieces, i, i + 1) == pieces[i] + Window(pieces, i + 1, i + 1);
  }

  /** The recorded hints lie between pieces and contain every single piece. */
  lemma HitsOnGrid(pieces: seq<Word>, dict: Dictionary, h: seq<Elem>)
    requires h == InsertAll([], Hits(pieces, dict, |pieces|))
    ensures OnGrid(pieces, h)
    ensures KnowsPieces(pieces, dict) ==> HasSingles(pieces, h)
  {
    hide Hits, InsertAll;
    var xs := Hits(pieces, dict, |pieces|);
    forall x | x in h ensures exists i: nat, j: nat :: Spans(pieces, x, i, j) {
      FiledHolds(xs, x);
      var i, j := HitsSound(pieces, dict, |pieces|, x);
      WindowSpans(pieces, dict, i, j);
    }
    forall i: nat | i < |pieces| && KnowsPieces(pieces, dict) ensures HasSingle(pieces, h, i) {
      var x := WindowElem(pieces, dict, i, i + 1);
      SingleWindow(pieces, i);
      assert IsHit(pieces, dict, i, i + 1, WINDOW_MAX, x);
      HitsComplete(pieces, dict, |pieces|, i, i + 1, x);
      FiledHolds(xs, x);
      WindowSpans(pieces, dict, i, i + 1);
    }
  }

  lemma OffsetsOrder(pieces: seq<Word>, i: nat, j: nat)
    requires NonEmptyPieces(pieces) && i <= |pieces| && j <= |pieces|
    ensures Offset(pieces, i) < Offset(pieces, j) <==> i < j
  {
    if i < j {
      OffsetsGrow(pieces, i, j);
    } else if j < i {
      OffsetsGrow(pieces, j, i);
    }
  }

  /** Filling gaps keeps the words between pieces. */
  lemma {:induction false} FilledOnGrid(pieces: seq<Word>, h: seq<Elem>, n: nat, text: Word)
    requires NonEmptyPieces(pieces) && n <= |h| && OnGrid(pieces, h)
    ensures OnGrid(pieces, FillGaps(h, n, text))
  {
    hide Offset;
    if n == 1 {
      assert h[0] in h;
    } else if n > 1 {
      FilledOnGrid(pieces, h, n - 1, text);
      var x, y := h[n - 2], h[n - 1];
      assert x in h && y in h;
      var i: nat, j: nat :| Spans(pieces, x, i, j);
      var i': nat, j': nat :| Spans(pieces, y, i', j');
      if gap :| gap in Gap(x, y, text) {
        OffsetsOrder(pieces, j, i');
        assert Spans(pieces, gap, j, i');
      }
    }
  }

  lemma AdjustedOnGrid(pieces: seq<Word>, f: seq<Elem>, scale: Scale)
    requires OnGrid(pieces, f)
    ensures OnGrid(pieces, Adjusted(f, scale))
    ensures HasSingles(pieces, f) ==> HasSingles(pieces, Adjusted(f, scale))
  {
    var m := Adjusted(f, scale);
    forall x | x in m ensures exists i: nat, j: nat :: Spans(pieces, x, i, j) {
      var k :| 0 <= k < |m| && m[k] == x;
      assert f[k] in f;
      var i: nat, j: nat :| Spans(pieces, f[k], i, j);
      assert Spans(pieces, x, i, j);
    }
    forall i: nat | i < |pieces| && HasSingles(pieces, f) ensures HasSingle(pieces, m, i) {
      assert HasSingle(pieces, f, i);
      var x :| x in f && Spans(pieces, x, i, i + 1);
      var k :| 0 <= k < |f| && f[k] == x;
      assert m[k] in m && Spans(pieces, m[k], i, i + 1);
    }
  }

  // ------------------------------------------------------ which group has a word

  lemma {:induction false} JoinHas(gs: seq<seq<Elem>>, x: Elem) returns (q: nat)
    requires x in Join(gs)
    ensures q < |gs| && x in gs[q]
  {
    if x in gs[0] {
      q := 0;
    } else {
      q := JoinHas(gs[1..], x);
      q := q + 1;
    }
  }

  /** Later groups start where or behind where earlier ones end. */
  lemma {:induction false} GroupsInOrder(gs: seq<seq<Elem>>, k: nat, q: nat)
    requires Abutting(gs) && k < q < |gs| && AllOk(gs)
    ensures PosLast(gs[k]) <= gs[q][0].pos
  {
    hide GroupOk, Abutting;
    AbuttingAt(gs, q - 1);
    if k < q - 1 {
      GroupsInOrder(gs, k, q - 1);
      GroupReaches(gs[q - 1]);
    }
  }

  /** A word that starts inside the stretch of a group belongs to the group. */
  lemma InsideIsMember(gs: seq<seq<Elem>>, k: nat, x: Elem)
    requires Abutting(gs) && k < |gs| && AllOk(gs)
    requires x in Join(gs) && gs[k][0].pos <= x.pos < PosLast(gs[k]) && x.pos < x.End()
    ensures x in gs[k]
  {
    hide Abutting;
    var q := JoinHas(gs, x);
    var t :| 0 <= t < |gs[q]| && gs[q][t] == x;
    if q < k {
      AbuttingAt(gs, q);
      assert x.End() <= PosLast(gs[q]);
      GroupsInOrder(gs, q, k);
    } else if k < q {
      GroupsInOrder(gs, k, q);
    }
  }

  // ------------------------------------------------------------------ tilings

  lemma ChainExtends(g: seq<Elem>, p: seq<nat>, v: nat)
    requires g != [] && IsChain(g, p) && IsWordVertex(g, v)
    requires WordAt(g, v).pos == WordAt(g, p[|p| - 1]).End()
    ensures IsChain(g, p + [v])
  {
  }

  lemma SingleVertex(pieces: seq<Word>, g: seq<Elem>, i: nat) returns (v: nat)
    requires HasSingle(pieces, g, i)
    ensures IsWordVertex(g, v) && Spans(pieces, WordAt(g, v), i, i + 1)
  {
    var x :| x in g && Spans(pieces, x, i, i + 1);
    var k :| 0 <= k < |g| && g[k] == x;
    v := k + 1;
  }

  /** The single pieces from `a` up to `i` follow each other. */
  lemma {:induction false} SinglesChain(pieces: seq<Word>, g: seq<Elem>, a: nat, i: nat) returns (p: seq<nat>)
    requires g != [] && a < i <= |pieces| && g[0].pos == Offset(pieces, a)
    requires forall t: nat :: a <= t < i ==> HasSingle(pieces, g, t)
    ensures IsChain(g, p) && WordAt(g, p[|p| - 1]).End() == Offset(pieces, i)
  {
    hide HasSingle, Offset;
    var v := SingleVertex(pieces, g, i - 1);
    if a == i - 1 {
      p := [v];
    } else {
      p := SinglesChain(pieces, g, a, i - 1);
      ChainExtends(g, p, v);
      p := p + [v];
    }
  }

  /** The stretch of a group reaches from one piece to another. */
  lemma GroupSpans(pieces: seq<Word>, g: seq<Elem>) returns (a: nat, b: nat)
    requires NonEmptyPieces(pieces) && GroupOk(g) && OnGrid(pieces, g)
    ensures a < b <= |pieces| && g[0].pos == Offset(pieces, a) && PosLast(g) == Offset(pieces, b)
  {
    hide Offset;
    assert g[0] in g && g[|g| - 1] in g;
    var a': nat, b': nat;
    a, a' :| Spans(pieces, g[0], a, a');
    b', b :| Spans(pieces, g[|g| - 1], b', b);
    GroupReaches(g);
    OffsetsOrder(pieces, a, b);
  }

  /** A group that contains all single pieces of its stretch has a tiling. */
  lemma SinglesTile(pieces: seq<Word>, gs: seq<seq<Elem>>, k: nat)
    requires NonEmptyPieces(pieces) && HasSingles(pieces, Join(gs))
    requires Abutting(gs) && k < |gs| && AllOk(gs) && OnGrid(pieces, gs[k])
    ensures HasTiling(gs[k])
  {
    hide Abutting, Offset, Join, GroupOk, OnGrid, HasSingles, HasSingle, IsChain;
    var a, b := GroupSpans(pieces, gs[k]);
    forall t: nat | a <= t < b ensures HasSingle(pieces, gs[k], t) {
      SingleInside(pieces, gs, k, a, t, b);
    }
    var p := SinglesChain(pieces, gs[k], a, b);
    assert IsTiling(gs[k], p);
  }

  lemma SingleInside(pieces: seq<Word>, gs: seq<seq<Elem>>, k: nat, a: nat, t: nat, b: nat)
    requires NonEmptyPieces(pieces) && HasSingles(pieces, Join(gs))
    requires Abutting(gs) && k < |gs| && AllOk(gs)
    requires a <= t < b <= |pieces| && gs[k][0].pos == Offset(pieces, a) && PosLast(gs[k]) == Offset(pieces, b)
    ensures HasSingle(pieces, gs[k], t)
  {
    hide Abutting, Offset, Join, GroupOk;
    assert HasSingle(pieces, Join(gs), t);
    var x :| x in Join(gs) && Spans(pieces, x, t, t + 1);
    OffsetsOrder(pieces, t, a);
    OffsetsOrder(pieces, t, b);
    OffsetsOrder(pieces, t, t + 1);
    InsideIsMember(gs, k, x);
  }

  lemma PartOnGrid(pieces: seq<Word>, gs: seq<seq<Elem>>, k: nat)
    requires k < |gs| && OnGrid(pieces, Join(gs))
    ensures OnGrid(pieces, gs[k])
  {
    hide Join;
    forall x | x in gs[k] ensures exists i: nat, j: nat :: Spans(pieces, x, i, j) {
      PartOfJoin(gs, k, x);
    }
  }

  /** The first word starts at 0 and the last one ends with the text. */
  lemma EndsReachEnds(pieces: seq<Word>, m: seq<Elem>)
    requires NonEmptyPieces(pieces) && pieces != [] && Sorted(m) && OnGrid(pieces, m) && HasSingles(pieces, m)
    ensures m != [] && m[0].pos == 0 && m[|m| - 1].End() == |Text(pieces)|
  {
    hide Offset, Window;
    var n := |pieces|;
    assert HasSingle(pieces, m, 0) && HasSingle(pieces, m, n - 1);
    var x :| x in m && Spans(pieces, x, 0, 1);
    var y :| y in m && Spans(pieces, y, n - 1, n - 1 + 1);
    assert m[0] in m && m[|m| - 1] in m;
    var i: nat, j: nat :| Spans(pieces, m[0], i, j);
    var i': nat, j': nat :| Spans(pieces, m[|m| - 1], i', j');
    var kx :| 0 <= kx < |m| && m[kx] == x;
    var ky :| 0 <= ky < |m| && m[ky] == y;
    OffsetsOrder(pieces, 0, i);
    OffsetsOrder(pieces, i', n - 1);
    OffsetsZero(pieces);
    OffsetSplit(pieces, 0, n);
  }

  lemma OffsetsZero(pieces: seq<Word>)
    ensures Offset(pieces, 0) == 0
  {
  }

  /** The groups of well-placed words that contain every single piece all have
      tilings, and together they reach from the start of the text to its end. */
  lemma GroupsTile(pieces: seq<Word>, m: seq<Elem>, text: Word)
    requires NonEmptyPieces(pieces) && pieces != [] && WellPlaced(m, text)
    requires OnGrid(pieces, m) && HasSingles(pieces, m)
    requires AllOk(Groups(m))
    ensures var gs := Groups(m);
      && gs != [] && AllTile(gs)
      && gs[0][0].pos == 0 && PosLast(gs[|gs| - 1]) == |Text(pieces)|
  {
    hide Groups, Abutting, OnGrid, HasSingles, Text;
    var gs := Groups(m);
    GroupsPartition(m);
    GroupsAbut(m);
    EndsReachEnds(pieces, m);
    JoinEnds(gs);
    forall k | 0 <= k < |gs| ensures gs[k] != [] && HasTiling(gs[k]) {
      PartOnGrid(pieces, gs, k);
      SinglesTile(pieces, gs, k);
    }
  }

  lemma JoinEnds(gs: seq<seq<Elem>>)
    requires Join(gs) != [] && forall k :: 0 <= k < |gs| ==> gs[k] != []
    ensures gs != [] && gs[0][0] == Join(gs)[0]
    ensures var last := gs[|gs| - 1]; last[|last| - 1] == Join(gs)[|Join(gs)| - 1]
  {
    JoinSnoc(gs[..|gs| - 1], gs[|gs| - 1]);
    assert gs == gs[..|gs| - 1] + [gs[|gs| - 1]];
  }
}
