/** From the hints of a sentence to the words selected for it: the facts that tie
    the stages of the segmentation together. */
module Segmentation {
  import opened Bytes
  import opened WordElements
  import opened WordGroups
  import opened WordLattice
  import opened LatticeBuilder

  /** How much the weight of a word grows with its length; always positive. */
  type Scale = nat -> real

  predicate PositiveScale(scale: Scale, m: seq<Elem>) {
    forall i :: 0 <= i < |m| ==> scale(|m[i].word|) > 0.0
  }

  predicate PositiveWeights(m: seq<Elem>) {
    forall i :: 0 <= i < |m| ==> m[i].weight > 0.0
  }

  function Adjust(e: Elem, scale: Scale): Elem {
    e.(weight := e.weight * scale(|e.word|))
  }

  function Adjusted(m: seq<Elem>, scale: Scale): (r: seq<Elem>)
    ensures |r| == |m|
  {
    seq(|m|, i requires 0 <= i < |m| => Adjust(m[i], scale))
  }

  /** Adjusting weights moves nothing. */
  lemma AdjustedKeeps(m: seq<Elem>, scale: Scale, text: Word)
    requires Sorted(m) && DistinctPlaces(m) && AllCover(m, text) && NoGaps(m)
    requires PositiveWeights(m) && PositiveScale(scale, m)
    ensures var r := Adjusted(m, scale);
      Sorted(r) && DistinctPlaces(r) && AllCover(r, text) && NoGaps(r) && PositiveWeights(r)
  {
    var r := Adjusted(m, scale);
    forall i | 0 <= i < |r| ensures Covers(r[i], text) && r[i].weight > 0.0 {
      assert Covers(m[i], text);
      Positive(m[i].weight, scale(|m[i].word|));
    }
  }

  lemma Positive(a: real, b: real)
    requires a > 0.0 && b > 0.0
    ensures a * b > 0.0
  {
  }

  // ------------------------------------------------- groups as parts of a whole

  lemma PartIsSlice(gs: seq<seq<Elem>>, k: nat)
    requires k < |gs|
    ensures var a := |Join(gs[..k])|;
      a + |gs[k]| <= |Join(gs)| && gs[k] == Join(gs)[a..a + |gs[k]|]
  {
    assert gs == gs[..k] + ([gs[k]] + gs[k + 1..]);
    JoinAppend(gs[..k], [gs[k]] + gs[k + 1..]);
    JoinAppend([gs[k]], gs[k + 1..]);
    assert Join([gs[k]]) == gs[k] + Join([]);
  }

  /** What the lattice needs holds of every part of well-placed words. */
  lemma SliceIsOk(m: seq<Elem>, text: Word, a: nat, g: seq<Elem>)
    requires Sorted(m) && DistinctPlaces(m) && AllCover(m, text) && PositiveWeights(m)
    requires g != [] && a + |g| <= |m| && forall i :: 0 <= i < |g| ==> g[i] == m[a + i]
    ensures GroupOk(g) && AllCover(g, text)
  {
    forall i | 0 <= i < |g| ensures Covers(g[i], text) {
      assert Covers(m[a + i], text);
    }
  }

  lemma SliceIsNamed(h: seq<Elem>, scale: Scale, a: nat, g: seq<Elem>)
    requires a + |g| <= |h| && forall i :: 0 <= i < |g| ==> g[i] == Adjust(h[a + i], scale)
    ensures forall v: nat :: IsWordVertex(g, v) ==> Named(g, h, v)
  {
    forall v: nat | IsWordVertex(g, v) ensures Named(g, h, v) {
      assert Matches(h[a + v - 1], WordAt(g, v));
    }
  }

  lemma GroupIsSlice(m: seq<Elem>, k: nat) returns (a: nat)
    requires k < |Groups(m)|
    ensures var g := Groups(m)[k];
      g != [] && a + |g| <= |m| && forall i :: 0 <= i < |g| ==> g[i] == m[a + i]
  {
    hide Groups, Boundaries;
    var gs := Groups(m);
    GroupsPartition(m);
    PartIsSlice(gs, k);
    a := |Join(gs[..k])|;
  }

  /** Every group of well-placed words is fit for a lattice, and the hints name all its words. */
  lemma GroupsAreOk(h: seq<Elem>, scale: Scale, text: Word, k: nat)
    requires var m := Adjusted(h, scale);
      Sorted(m) && DistinctPlaces(m) && AllCover(m, text) && PositiveWeights(m) && k < |Groups(m)|
    ensures var g := Groups(Adjusted(h, scale))[k];
      && GroupOk(g) && AllCover(g, text)
      && forall v: nat :: IsWordVertex(g, v) ==> Named(g, h, v)
  {
    hide Groups, GroupOk, Sorted, DistinctPlaces, AllCover, PositiveWeights, Named;
    var m := Adjusted(h, scale);
    var a := GroupIsSlice(m, k);
    SliceIsOk(m, text, a, Groups(m)[k]);
    SliceIsNamed(h, scale, a, Groups(m)[k]);
  }

  // --------------------------------------------------------------- selections

  lemma {:induction false} InsertAllAppends(m: seq<Elem>, xs: seq<Elem>)
    requires Sorted(xs)
    requires forall i, j :: 0 <= i < |m| && 0 <= j < |xs| ==> m[i].pos <= xs[j].pos
    ensures InsertAll(m, xs) == m + xs
  {
    if xs == [] {
      assert m + xs == m;
    } else {
      var ys, x := xs[..|xs| - 1], xs[|xs| - 1];
      InsertAllAppends(m, ys);
      InsertLast(m + ys, x);
      assert m + ys + [x] == m + xs;
    }
  }

  lemma {:induction false} ChainAscends(g: seq<Elem>, p: seq<nat>, i: nat, j: nat)
    requires GroupOk(g) && IsChain(g, p) && i < j < |p|
    ensures WordAt(g, p[i]).End() <= WordAt(g, p[j]).pos
    decreases j - i
  {
    if i + 1 < j {
      ChainAscends(g, p, i, j - 1);
      assert WordAt(g, p[j - 1]).range > 0;
    }
  }

  /** The words of a tiling are in order and lie between the group's ends. */
  lemma TilingBounds(g: seq<Elem>, p: seq<nat>)
    requires GroupOk(g) && IsTiling(g, p)
    ensures Sorted(WordsOf(g, p))
    ensures forall i :: 0 <= i < |p| ==> g[0].pos <= WordAt(g, p[i]).pos < PosLast(g)
  {
    var ws := WordsOf(g, p);
    forall i, j | 0 <= i < j < |ws| ensures ws[i].pos <= ws[j].pos {
      ChainAscends(g, p, i, j);
      assert ws[i].range > 0;
    }
    forall i | 0 <= i < |p| ensures g[0].pos <= WordAt(g, p[i]).pos < PosLast(g) {
      if i < |p| - 1 {
        ChainAscends(g, p, i, |p| - 1);
      }
      assert WordAt(g, p[i]).range > 0;
      assert WordAt(g, p[|p| - 1]).range > 0;
      assert g[0].pos <= g[p[i] - 1].pos;
    }
  }

  /** A cheapest tiling of the group, or nothing if it has none. */
  ghost predicate Best(g: seq<Elem>, t: seq<nat>) {
    GroupOk(g) && if HasTiling(g) then IsBestTiling(g, t) else t == []
  }

  /** For every group a cheapest tiling, or nothing where the group has none. */
  ghost predicate BestTilings(gs: seq<seq<Elem>>, ts: seq<seq<nat>>) {
    && |ts| == |gs|
    && forall k :: 0 <= k < |gs| ==> Best(gs[k], ts[k])
  }

  /** The words of all tilings, group after group. */
  ghost function Selected(gs: seq<seq<Elem>>, ts: seq<seq<nat>>): seq<Elem>
    requires BestTilings(gs, ts)
  {
    if gs == [] then []
    else
      var k := |gs| - 1;
      Selected(gs[..k], ts[..k]) + WordsOf(gs[k], ts[k])
  }

  predicate AllBelow(m: seq<Elem>, limit: int) {
    forall i :: 0 <= i < |m| ==> m[i].pos < limit
  }

  lemma TextsAppend(a: seq<Elem>, b: seq<Elem>)
    ensures Join(Texts(a + b)) == Join(Texts(a)) + Join(Texts(b))
  {
    assert Texts(a + b) == Texts(a) + Texts(b);
    JoinAppend(Texts(a), Texts(b));
  }

  /** The groups cover the text from `from` to `to` without a break. */
  ghost predicate Cover(gs: seq<seq<Elem>>, text: Word, from: int, to: int) {
    && gs != [] && Abutting(gs) && (forall k :: 0 <= k < |gs| ==> gs[k] != [] && AllCover(gs[k], text))
    && from == gs[0][0].pos && to == PosLast(gs[|gs| - 1])
  }

  lemma LastCovers(g: seq<Elem>, t: seq<nat>, text: Word)
    requires Best(g, t) && HasTiling(g) && AllCover(g, text)
    ensures 0 <= g[0].pos <= PosLast(g) <= |text|
    ensures Join(Texts(WordsOf(g, t))) == text[g[0].pos..PosLast(g)]
  {
    TilingSpells(g, t, text);
  }

  lemma CoverPrefix(gs: seq<seq<Elem>>, text: Word, from: int, to: int)
    requires Cover(gs, text, from, to) && |gs| > 1
    ensures Cover(gs[..|gs| - 1], text, from, gs[|gs| - 1][0].pos)
  {
    assert Abut(gs[|gs| - 2], gs[|gs| - 1]);
  }

  lemma SlicesJoin(text: Word, a: nat, b: nat, c: nat)
    requires a <= b <= c <= |text|
    ensures text[a..b] + text[b..c] == text[a..c]
  {
  }

  /** Abutting groups that all have tilings: the selected words spell the text
      from the first group's start to the last group's end. */
  lemma {:induction false} SelectionSpells(gs: seq<seq<Elem>>, ts: seq<seq<nat>>, text: Word, from: int, to: int)
    requires BestTilings(gs, ts) && Cover(gs, text, from, to)
    requires forall k :: 0 <= k < |gs| ==> HasTiling(gs[k])
    ensures 0 <= from <= to <= |text| && Join(Texts(Selected(gs, ts))) == text[from..to]
    decreases |gs|
  {
    hide Abutting, HasTiling;
    var k := |gs| - 1;
    LastCovers(gs[k], ts[k], text);
    if k == 0 {
      assert Selected(gs[..0], ts[..0]) == [];
      assert Selected(gs, ts) == WordsOf(gs[0], ts[0]);
    } else {
      CoverPrefix(gs, text, from, to);
      SelectionSpells(gs[..k], ts[..k], text, from, gs[k][0].pos);
      TextsAppend(Selected(gs[..k], ts[..k]), WordsOf(gs[k], ts[k]));
      SlicesJoin(text, from, gs[k][0].pos, to);
    }
  }

  /** The length of the selected text: group by group, the group's stretch or nothing. */
  lemma SelectionGrows(gs: seq<seq<Elem>>, ts: seq<seq<nat>>, text: Word)
    requires BestTilings(gs, ts) && gs != [] && gs[|gs| - 1] != [] && AllCover(gs[|gs| - 1], text)
    ensures var k := |gs| - 1;
      && |ts| == |gs| && BestTilings(gs[..k], ts[..k])
      && |Join(Texts(Selected(gs, ts)))| == |Join(Texts(Selected(gs[..k], ts[..k])))|
           + (if HasTiling(gs[k]) then PosLast(gs[k]) - gs[k][0].pos else 0)
      && 0 <= gs[k][0].pos < PosLast(gs[k]) <= |text|
  {
    hide Join, Texts, AllCover, HasTiling, GroupOk;
    var k := |gs| - 1;
    assert Best(gs[k], ts[k]);
    GroupFits(gs[k], ts[k], text);
    TextsAppend(Selected(gs[..k], ts[..k]), WordsOf(gs[k], ts[k]));
  }

  /** The selected words are no longer than the stretch the groups cover, and as long only if all have tilings. */
  lemma {:induction false} SelectionFits(gs: seq<seq<Elem>>, ts: seq<seq<nat>>, text: Word, from: int, to: int)
    requires BestTilings(gs, ts) && Cover(gs, text, from, to)
    ensures 0 <= from < to <= |text| && |Join(Texts(Selected(gs, ts)))| <= to - from
    ensures |Join(Texts(Selected(gs, ts)))| == to - from ==> AllTile(gs)
    decreases |gs|
  {
    hide Abutting, HasTiling, BestTilings, Join, Texts, AllCover, Selected;
    var k := |gs| - 1;
    SelectionGrows(gs, ts, text);
    if k == 0 {
      NothingSelected(gs, ts);
    } else {
      CoverPrefix(gs, text, from, to);
      SelectionFits(gs[..k], ts[..k], text, from, gs[k][0].pos);
    }
  }

  lemma NothingSelected(gs: seq<seq<Elem>>, ts: seq<seq<nat>>)
    requires BestTilings(gs[..0], ts[..0])
    ensures Join(Texts(Selected(gs[..0], ts[..0]))) == []
  {
    assert Texts(Selected(gs[..0], ts[..0])) == [];
  }

  lemma GroupFits(g: seq<Elem>, t: seq<nat>, text: Word)
    requires Best(g, t) && g != [] && AllCover(g, text)
    ensures 0 <= g[0].pos < PosLast(g) <= |text|
    ensures |Join(Texts(WordsOf(g, t)))| == if HasTiling(g) then PosLast(g) - g[0].pos else 0
  {
    hide IsBestTiling;
    GroupReaches(g);
    assert Covers(g[0], text) && Covers(g[|g| - 1], text);
    if HasTiling(g) {
      LastCovers(g, t, text);
    } else {
      assert Texts(WordsOf(g, t)) == [];
    }
  }

  lemma SameLength(gs: seq<seq<Elem>>, ts: seq<seq<nat>>)
    requires BestTilings(gs, ts)
    ensures |ts| == |gs|
  {
  }

  /** Every group has a tiling, the first word starts the text and the last-positioned one ends it. */
  ghost predicate SpellsAll(gs: seq<seq<Elem>>, text: Word) {
    if gs == [] then text == []
    else AllTile(gs) && gs[0][0].pos == 0 && PosLast(gs[|gs| - 1]) == |text|
  }

  /** The selected words spell the whole text exactly then. */
  lemma SelectionIsTextIff(gs: seq<seq<Elem>>, ts: seq<seq<nat>>, text: Word)
    requires BestTilings(gs, ts)
    requires gs != [] ==> gs[0] != [] && gs[|gs| - 1] != [] && Cover(gs, text, gs[0][0].pos, PosLast(gs[|gs| - 1]))
    ensures Join(Texts(Selected(gs, ts))) == text <==> SpellsAll(gs, text)
  {
    hide Cover, BestTilings, Selected;
    if gs == [] {
      assert gs[..0] == gs && ts[..0] == ts by { SameLength(gs, ts); }
      NothingSelected(gs, ts);
    } else {
      var from, to := gs[0][0].pos, PosLast(gs[|gs| - 1]);
      SelectionFits(gs, ts, text, from, to);
      if AllTile(gs) {
        SelectionSpells(gs, ts, text, from, to);
        assert text[0..|text|] == text;
      }
    }
  }

  /** What the stages up to gap filling establish about the hints. */
  ghost predicate WellPlaced(h: seq<Elem>, text: Word) {
    Sorted(h) && DistinctPlaces(h) && AllCover(h, text) && NoGaps(h) && PositiveWeights(h)
  }

  /** Words of a group that starts behind everything selected so far are appended. */
  lemma SelectAppends(selected: seq<Elem>, g: seq<Elem>, t: seq<nat>)
    requires Best(g, t) && AllBelow(selected, g[0].pos)
    ensures InsertAll(selected, WordsOf(g, t)) == selected + WordsOf(g, t)
    ensures AllBelow(selected + WordsOf(g, t), PosLast(g))
  {
    hide InsertAll, IsBestTiling;
    if HasTiling(g) {
      BestIsTiling(g, t);
      TilingBounds(g, t);
    }
    GroupReaches(g);
    InsertAllAppends(selected, WordsOf(g, t));
  }

  lemma BestIsTiling(g: seq<Elem>, t: seq<nat>)
    requires GroupOk(g) && IsBestTiling(g, t)
    ensures IsTiling(g, t)
  {
  }

  lemma GroupReaches(g: seq<Elem>)
    requires GroupOk(g)
    ensures g[0].pos < PosLast(g)
  {
    assert g[0].pos <= g[|g| - 1].pos;
  }

  lemma {:induction false} AbuttingAt(gs: seq<seq<Elem>>, k: nat)
    requires Abutting(gs) && k + 1 < |gs|
    ensures Abut(gs[k], gs[k + 1])
  {
    if k + 2 < |gs| {
      AbuttingAt(gs[..|gs| - 1], k);
    }
  }

  lemma SelectedSnoc(gs: seq<seq<Elem>>, ts: seq<seq<nat>>, g: seq<Elem>, t: seq<nat>)
    requires BestTilings(gs, ts) && Best(g, t)
    ensures BestTilings(gs + [g], ts + [t])
    ensures Selected(gs + [g], ts + [t]) == Selected(gs, ts) + WordsOf(g, t)
  {
    assert (gs + [g])[..|gs|] == gs && (ts + [t])[..|ts|] == ts;
  }

  /** Every group of overlapping words is fit for a lattice. */
  predicate AllOk(gs: seq<seq<Elem>>) {
    forall k :: 0 <= k < |gs| ==> gs[k] != [] && GroupOk(gs[k])
  }

  /** Every group of overlapping words has a tiling. */
  ghost predicate AllTile(gs: seq<seq<Elem>>) {
    forall k :: 0 <= k < |gs| ==> gs[k] != [] && HasTiling(gs[k])
  }
}
