/**
 * What the dictionary says about the hints and about the cost of a cut, spelled
 * out in pieces, dictionary and weights.
 */
module DictionaryCosts {
  import opened Bytes
  import opened WordElements
  import opened DictionaryScan
  import opened WordGroups
  import opened WordLattice
  import opened Segmentation

  /** The pieces from `i` up to `j`, 1 to 32 of them, spell a word with a positive weight. */
  predicate IsEntry(pieces: seq<Word>, dict: Dictionary, i: nat, j: nat) {
    && i < j <= |pieces| && j - i <= 32
    && Join(pieces[i..j]) in dict && dict[Join(pieces[i..j])] > 0.0
  }

  /** The element stands for the entry: text, offset, length and weight. */
  predicate Stands(pieces: seq<Word>, dict: Dictionary, i: nat, j: nat, x: Elem)
    requires IsEntry(pieces, dict, i, j)
  {
    && x.word == Join(pieces[i..j]) && x.pos == |Join(pieces[..i])| && x.range == |x.word|
    && x.weight == x.orig == dict[x.word]
  }

  lemma OffsetIsLength(pieces: seq<Word>, i: nat)
    requires i <= |pieces|
    ensures Offset(pieces, i) == |Join(pieces[..i])|
  {
    OffsetSplit(pieces, 0, i);
    WindowIsJoin(pieces, 0, i);
    assert pieces[0..i] == pieces[..i];
  }

  lemma HitStands(pieces: seq<Word>, dict: Dictionary, i: nat, j: nat, x: Elem)
    ensures IsHit(pieces, dict, i, j, WINDOW_MAX, x) <==> IsEntry(pieces, dict, i, j) && Stands(pieces, dict, i, j, x)
  {
    hide Window, Offset, Join;
    if i < j <= |pieces| {
      OffsetIsLength(pieces, i);
      WindowIsJoin(pieces, i, j);
    }
  }

  /** The hints are exactly the words that windows of 1 to 32 pieces spell, with the dictionary's weights. */
  lemma HitsAreEntries(pieces: seq<Word>, dict: Dictionary, x: Elem)
    ensures x in Hits(pieces, dict, |pieces|) <==>
      exists i: nat, j: nat :: IsEntry(pieces, dict, i, j) && Stands(pieces, dict, i, j, x)
  {
    hide Hits, IsHit, IsEntry, Stands;
    if x in Hits(pieces, dict, |pieces|) {
      var i, j := HitsSound(pieces, dict, |pieces|, x);
      HitStands(pieces, dict, i, j, x);
    }
    if i: nat, j: nat :| IsEntry(pieces, dict, i, j) && Stands(pieces, dict, i, j, x) {
      HitStands(pieces, dict, i, j, x);
      WithinPieces(pieces, dict, i, j);
      HitsComplete(pieces, dict, |pieces|, i, j, x);
    }
  }

  lemma WithinPieces(pieces: seq<Word>, dict: Dictionary, i: nat, j: nat)
    requires IsEntry(pieces, dict, i, j)
    ensures j <= |pieces|
  {
  }

  /** The recorded hints. */
  ghost predicate Recorded(pieces: seq<Word>, dict: Dictionary, h: seq<Elem>) {
    && Sorted(h)
    && forall x :: x in h <==> exists i: nat, j: nat :: IsEntry(pieces, dict, i, j) && Stands(pieces, dict, i, j, x)
  }

  lemma HitsRecorded(pieces: seq<Word>, dict: Dictionary)
    ensures Recorded(pieces, dict, InsertAll([], Hits(pieces, dict, |pieces|)))
  {
    hide Hits, InsertAll, IsEntry, Stands;
    var xs := Hits(pieces, dict, |pieces|);
    Filed(xs);
    forall x
      ensures x in InsertAll([], xs) <==>
        exists i: nat, j: nat :: IsEntry(pieces, dict, i, j) && Stands(pieces, dict, i, j, x)
    {
      FiledHolds(xs, x);
      HitsAreEntries(pieces, dict, x);
    }
  }

  // ---------------------------------------------------------------- the costs

  /** An entry stands at the place with that text. */
  ghost predicate Known(pieces: seq<Word>, dict: Dictionary, pos: int, word: Word) {
    exists i: nat, j: nat ::
      IsEntry(pieces, dict, i, j) && word == Join(pieces[i..j]) && pos == |Join(pieces[..i])|
  }

  /** The weight of a word in the sentence: the dictionary's, or a very small one for a gap, times its scale. */
  ghost function WeightOf(pieces: seq<Word>, dict: Dictionary, scale: Scale, x: Elem): real {
    if Known(pieces, dict, x.pos, x.word) && x.word in dict then dict[x.word] * scale(|x.word|)
    else 0.00000001 * scale(|x.word|)
  }

  /** All words are weighed in this way. */
  ghost predicate Weighed(pieces: seq<Word>, dict: Dictionary, scale: Scale, g: seq<Elem>) {
    forall x :: x in g ==> x.weight == WeightOf(pieces, dict, scale, x)
  }

  lemma KnownHasHint(pieces: seq<Word>, dict: Dictionary, h: seq<Elem>, pos: int, word: Word) returns (x: Elem)
    requires Recorded(pieces, dict, h) && Known(pieces, dict, pos, word)
    ensures x in h && x.pos == pos && x.word == word && word in dict && x.weight == dict[word]
  {
    var i: nat, j: nat :|
      IsEntry(pieces, dict, i, j) && word == Join(pieces[i..j]) && pos == |Join(pieces[..i])|;
    x := Elem(word, pos, |word|, dict[word], dict[word]);
    assert Stands(pieces, dict, i, j, x);
  }

  lemma FilledWeighed(pieces: seq<Word>, dict: Dictionary, scale: Scale, h: seq<Elem>, x: Elem, text: Word)
    requires Recorded(pieces, dict, h) && AllCover(h, text) && DistinctPlaces(h)
    requires x in FillGaps(h, |h|, text)
    ensures Adjust(x, scale).weight == WeightOf(pieces, dict, scale, Adjust(x, scale))
  {
    hide FillGaps, AllCover, IsEntry, Join;
    GapFilling(h, text);
    if x in h {
      var i: nat, j: nat :| IsEntry(pieces, dict, i, j) && Stands(pieces, dict, i, j, x);
      assert x.word in dict by { EntryInDict(pieces, dict, i, j); }
    } else {
      NoHintNotKnown(pieces, dict, h, x);
    }
  }

  lemma NoHintNotKnown(pieces: seq<Word>, dict: Dictionary, h: seq<Elem>, x: Elem)
    requires Recorded(pieces, dict, h) && forall i :: 0 <= i < |h| ==> h[i].pos != x.pos
    ensures !Known(pieces, dict, x.pos, x.word)
  {
    if Known(pieces, dict, x.pos, x.word) {
      var y := KnownHasHint(pieces, dict, h, x.pos, x.word);
      assert false;
    }
  }

  lemma EntryInDict(pieces: seq<Word>, dict: Dictionary, i: nat, j: nat)
    requires IsEntry(pieces, dict, i, j)
    ensures Join(pieces[i..j]) in dict
  {
  }

  /** Every group of the sentence is weighed by the dictionary. */
  lemma GroupsWeighed(pieces: seq<Word>, dict: Dictionary, scale: Scale, h: seq<Elem>, text: Word, k: nat)
    requires Recorded(pieces, dict, h) && AllCover(h, text) && DistinctPlaces(h)
    requires k < |Groups(Adjusted(FillGaps(h, |h|, text), scale))|
    ensures Weighed(pieces, dict, scale, Groups(Adjusted(FillGaps(h, |h|, text), scale))[k])
  {
    hide Groups, FillGaps, Recorded, WeightOf, Adjust, DistinctPlaces, AllCover;
    var f := FillGaps(h, |h|, text);
    var g := Groups(Adjusted(f, scale))[k];
    var a := GroupIsSlice(Adjusted(f, scale), k);
    forall x | x in g ensures x.weight == WeightOf(pieces, dict, scale, x) {
      var i :| 0 <= i < |g| && g[i] == x;
      assert x == Adjust(f[a + i], scale);
      FilledWeighed(pieces, dict, scale, h, f[a + i], text);
    }
  }

  /** A word that the dictionary knows is in one of the groups, at its place. */
  lemma KnownIsGrouped(pieces: seq<Word>, dict: Dictionary, scale: Scale, h: seq<Elem>, text: Word,
                       pos: int, word: Word)
    returns (k: nat, x: Elem)
    requires Recorded(pieces, dict, h) && Known(pieces, dict, pos, word)
    ensures var gs := Groups(Adjusted(FillGaps(h, |h|, text), scale));
      k < |gs| && x in gs[k] && x.pos == pos && x.word == word
  {
    hide Groups, FillGaps, Recorded, Known, Boundaries, IsCut;
    var y := KnownHasHint(pieces, dict, h, pos, word);
    var n :| 0 <= n < |h| && h[n] == y;
    FilledHolds(h, |h|, text, n);
    var f := FillGaps(h, |h|, text);
    var m :| 0 <= m < |f| && f[m] == y;
    x := Adjust(y, scale);
    assert Adjusted(f, scale)[m] == x;
    GroupsPartition(Adjusted(f, scale));
    k := InJoin(Groups(Adjusted(f, scale)), x);
  }

  lemma {:induction false} InJoin(gs: seq<seq<Elem>>, x: Elem) returns (k: nat)
    requires x in Join(gs)
    ensures k < |gs| && x in gs[k]
  {
    if x in gs[0] {
      k := 0;
    } else {
      k := InJoin(gs[1..], x);
      k := k + 1;
    }
  }

  /** Words of the group, each beginning where the one before it ends, from the start of the group's
      first word to the end of its last. */
  predicate Tiles(g: seq<Elem>, ws: seq<Elem>)
    requires g != []
  {
    && ws != [] && (forall i :: 0 <= i < |ws| ==> ws[i] in g)
    && ws[0].pos == g[0].pos
    && (forall i :: 0 < i < |ws| ==> ws[i - 1].pos + ws[i - 1].range == ws[i].pos)
    && ws[|ws| - 1].pos + ws[|ws| - 1].range == g[|g| - 1].pos + g[|g| - 1].range
  }

  /** The reciprocal weights of all words but the last, and that of the first once more. */
  ghost function CostOf(pieces: seq<Word>, dict: Dictionary, scale: Scale, ws: seq<Elem>): real
    requires forall i :: 0 <= i < |ws| ==> WeightOf(pieces, dict, scale, ws[i]) > 0.0
    requires ws != []
  {
    if |ws| == 1 then 1.0 / WeightOf(pieces, dict, scale, ws[0])
    else CostOf(pieces, dict, scale, ws[..|ws| - 1]) + 1.0 / WeightOf(pieces, dict, scale, ws[|ws| - 2])
  }

  lemma CostNext(g: seq<Elem>, p: seq<nat>)
    requires GroupOk(g) && IsChain(g, p)
    ensures |p| == 1 ==> Cost(g, p) == 1.0 / WordAt(g, p[0]).weight
    ensures |p| > 1 ==> IsChain(g, p[..|p| - 1])
    ensures |p| > 1 ==> Cost(g, p) == Cost(g, p[..|p| - 1]) + 1.0 / WordAt(g, p[|p| - 2]).weight
  {
    if |p| > 1 {
      ChainPrefix(g, p, |p| - 1);
      assert p[..|p| - 1][0] == p[0];
    }
  }

  lemma WordsWeighed(pieces: seq<Word>, dict: Dictionary, scale: Scale, g: seq<Elem>, p: seq<nat>)
    requires GroupOk(g) && Weighed(pieces, dict, scale, g) && forall i :: 0 <= i < |p| ==> IsWordVertex(g, p[i])
    ensures forall i :: 0 <= i < |p| ==>
      && WordsOf(g, p)[i] == WordAt(g, p[i])
      && WeightOf(pieces, dict, scale, WordsOf(g, p)[i]) == WordAt(g, p[i]).weight > 0.0
  {
    hide WeightOf;
    forall i | 0 <= i < |p|
      ensures WeightOf(pieces, dict, scale, WordsOf(g, p)[i]) == WordAt(g, p[i]).weight > 0.0
    {
      assert WordAt(g, p[i]) in g;
    }
  }

  lemma WordsPrefix(g: seq<Elem>, p: seq<nat>)
    requires p != [] && forall i :: 0 <= i < |p| ==> IsWordVertex(g, p[i])
    ensures WordsOf(g, p)[..|p| - 1] == WordsOf(g, p[..|p| - 1])
  {
  }

  lemma {:induction false} CostIs(pieces: seq<Word>, dict: Dictionary, scale: Scale, g: seq<Elem>, p: seq<nat>)
    requires GroupOk(g) && Weighed(pieces, dict, scale, g) && IsChain(g, p)
    ensures forall i :: 0 <= i < |p| ==> WeightOf(pieces, dict, scale, WordsOf(g, p)[i]) > 0.0
    ensures CostOf(pieces, dict, scale, WordsOf(g, p)) == Cost(g, p)
  {
    hide WeightOf, Cost, Weighed, GroupOk;
    WordsWeighed(pieces, dict, scale, g, p);
    CostNext(g, p);
    if |p| > 1 {
      CostIs(pieces, dict, scale, g, p[..|p| - 1]);
      WordsPrefix(g, p);
    }
  }

  /** Tilings by words are tilings by vertices. */
  lemma TilesVertices(g: seq<Elem>, ws: seq<Elem>) returns (p: seq<nat>)
    requires g != [] && Tiles(g, ws)
    ensures IsTiling(g, p) && WordsOf(g, p) == ws
  {
    p := Vertices(g, ws);
    assert WordsOf(g, p) == ws;
    assert forall i :: 0 <= i < |p| ==> WordAt(g, p[i]) == ws[i];
  }

  lemma {:induction false} Vertices(g: seq<Elem>, ws: seq<Elem>) returns (p: seq<nat>)
    requires forall i :: 0 <= i < |ws| ==> ws[i] in g
    ensures |p| == |ws| && forall i :: 0 <= i < |p| ==> IsWordVertex(g, p[i]) && WordAt(g, p[i]) == ws[i]
  {
    if ws == [] {
      p := [];
    } else {
      p := Vertices(g, ws[..|ws| - 1]);
      var k :| 0 <= k < |g| && g[k] == ws[|ws| - 1];
      p := p + [k + 1];
    }
  }

  lemma TilingTiles(g: seq<Elem>, p: seq<nat>)
    requires g != [] && IsTiling(g, p)
    ensures Tiles(g, WordsOf(g, p))
  {
  }

  /** `ws` are the words of a cheapest tiling, as the dictionary and the scale weigh them, or none if
      there is no tiling. */
  ghost predicate Cheapest(pieces: seq<Word>, dict: Dictionary, scale: Scale, g: seq<Elem>, ws: seq<Elem>)
    requires g != [] && forall x :: x in g ==> WeightOf(pieces, dict, scale, x) > 0.0
  {
    if ws == [] then forall vs :: !Tiles(g, vs)
    else
      && Tiles(g, ws)
      && forall vs :: Tiles(g, vs) ==> CostOf(pieces, dict, scale, ws) <= CostOf(pieces, dict, scale, vs)
  }

  lemma BestIsCheapest(pieces: seq<Word>, dict: Dictionary, scale: Scale, g: seq<Elem>, t: seq<nat>)
    requires Best(g, t) && Weighed(pieces, dict, scale, g)
    ensures forall x :: x in g ==> WeightOf(pieces, dict, scale, x) > 0.0
    ensures Cheapest(pieces, dict, scale, g, WordsOf(g, t))
  {
    hide WeightOf, CostOf, Cost;
    forall x | x in g ensures WeightOf(pieces, dict, scale, x) > 0.0 {
      var i :| 0 <= i < |g| && g[i] == x;
    }
    var ws := WordsOf(g, t);
    forall vs | Tiles(g, vs) ensures HasTiling(g) {
      var q := TilesVertices(g, vs);
    }
    if HasTiling(g) {
      TilingTiles(g, t);
      forall vs | Tiles(g, vs) ensures CostOf(pieces, dict, scale, ws) <= CostOf(pieces, dict, scale, vs) {
        var q := TilesVertices(g, vs);
        CostsOfTilings(pieces, dict, scale, g, t, q);
      }
    }
  }

  /** The tiling `t` of the group selects words that are cheapest for the dictionary. */
  ghost predicate CheapestBy(pieces: seq<Word>, dict: Dictionary, scale: Scale, g: seq<Elem>, t: seq<nat>) {
    && Best(g, t) && Weighed(pieces, dict, scale, g)
    && (forall x :: x in g ==> WeightOf(pieces, dict, scale, x) > 0.0)
    && Cheapest(pieces, dict, scale, g, WordsOf(g, t))
  }

  /** The word is in one of the groups, at its place. */
  predicate Grouped(gs: seq<seq<Elem>>, pos: int, word: Word) {
    exists k, i :: 0 <= k < |gs| && 0 <= i < |gs[k]| && gs[k][i].pos == pos && gs[k][i].word == word
  }

  /** What the dictionary says about the groups of a sentence and the tilings selected for them. */
  ghost predicate CutBy(pieces: seq<Word>, dict: Dictionary, scale: Scale, gs: seq<seq<Elem>>, ts: seq<seq<nat>>) {
    && |ts| == |gs|
    && (forall k :: 0 <= k < |gs| ==> CheapestBy(pieces, dict, scale, gs[k], ts[k]))
    && forall pos: int, word: Word :: Known(pieces, dict, pos, word) ==> Grouped(gs, pos, word)
  }

  lemma CutByDictionary(pieces: seq<Word>, dict: Dictionary, scale: Scale, h: seq<Elem>, text: Word, ts: seq<seq<nat>>)
    requires Recorded(pieces, dict, h) && AllCover(h, text) && DistinctPlaces(h)
    requires BestTilings(Groups(Adjusted(FillGaps(h, |h|, text), scale)), ts)
    ensures CutBy(pieces, dict, scale, Groups(Adjusted(FillGaps(h, |h|, text), scale)), ts)
  {
    hide Groups, FillGaps, Recorded, AllCover, DistinctPlaces, Best, Weighed, Known, WeightOf;
    var gs := Groups(Adjusted(FillGaps(h, |h|, text), scale));
    forall k | 0 <= k < |gs| ensures CheapestBy(pieces, dict, scale, gs[k], ts[k]) {
      GroupsWeighed(pieces, dict, scale, h, text, k);
      BestIsCheapest(pieces, dict, scale, gs[k], ts[k]);
    }
    forall pos: int, word: Word | Known(pieces, dict, pos, word) ensures Grouped(gs, pos, word) {
      var k, x := KnownIsGrouped(pieces, dict, scale, h, text, pos, word);
      var i :| 0 <= i < |gs[k]| && gs[k][i] == x;
    }
  }

  lemma CostsOfTilings(pieces: seq<Word>, dict: Dictionary, scale: Scale, g: seq<Elem>, p: seq<nat>, q: seq<nat>)
    requires GroupOk(g) && Weighed(pieces, dict, scale, g) && IsBestTiling(g, p) && IsTiling(g, q)
    ensures forall i :: 0 <= i < |p| ==> WeightOf(pieces, dict, scale, WordsOf(g, p)[i]) > 0.0
    ensures forall i :: 0 <= i < |q| ==> WeightOf(pieces, dict, scale, WordsOf(g, q)[i]) > 0.0
    ensures CostOf(pieces, dict, scale, WordsOf(g, p)) <= CostOf(pieces, dict, scale, WordsOf(g, q))
  {
    CostIs(pieces, dict, scale, g, p);
    CostIs(pieces, dict, scale, g, q);
  }
}
