/** A sentence whose end is lost: the last-positioned word ends before a longer one does. */
module CutOff {
  import opened Bytes
  import opened WordElements
  import opened DictionaryScan
  import opened WordGroups
  import opened WordLattice
  import opened Segmentation

  // The sentence A B C, and a dictionary of the words A, B and ABC.

  const PIECES: seq<Word> := [[65], [66], [67]]

  const DICT: Dictionary := map[[65] := 1.0, [66] := 1.0, [65, 66, 67] := 1.0]

  const A := Elem([65], 0, 1, 1.0, 1.0)
  const B := Elem([66], 1, 1, 1.0, 1.0)
  const ABC := Elem([65, 66, 67], 0, 3, 1.0, 1.0)

  lemma Windows()
    ensures Window(PIECES, 0, 1) == [65] && Window(PIECES, 1, 2) == [66] && Window(PIECES, 2, 3) == [67]
    ensures Window(PIECES, 0, 2) == [65, 66] && Window(PIECES, 1, 3) == [66, 67]
    ensures Window(PIECES, 0, 3) == [65, 66, 67]
    ensures Offset(PIECES, 0) == 0 && Offset(PIECES, 1) == 1 && Offset(PIECES, 2) == 2
  {
    assert Window(PIECES, 1, 1) == [] && Window(PIECES, 2, 2) == [] && Window(PIECES, 3, 3) == [];
  }

  lemma Hints()
    ensures InsertAll([], Hits(PIECES, DICT, 3)) == [A, ABC, B]
  {
    Windows();
    hide Window, Offset;
    assert HitsAt(PIECES, DICT, 1, 1) == [A] by {
      assert HitsAt(PIECES, DICT, 1, 0) == [];
    }
    assert HitsAt(PIECES, DICT, 2, 2) == [B] by {
      assert HitsAt(PIECES, DICT, 2, 0) == [];
      assert HitsAt(PIECES, DICT, 2, 1) == [B];
    }
    assert HitsAt(PIECES, DICT, 3, 3) == [ABC] by {
      assert HitsAt(PIECES, DICT, 3, 0) == [];
      assert HitsAt(PIECES, DICT, 3, 1) == [];
      assert HitsAt(PIECES, DICT, 3, 2) == [];
    }
    assert Hits(PIECES, DICT, 0) == [];
    assert Hits(PIECES, DICT, 1) == [A] && Hits(PIECES, DICT, 2) == [A, B] && Hits(PIECES, DICT, 3) == [A, B, ABC];
    Filing();
  }

  lemma Filing()
    ensures InsertAll([], [A, B, ABC]) == [A, ABC, B]
  {
    assert [A, B, ABC][..2] == [A, B] && [A, B][..1] == [A] && [A][..0] == [];
    assert InsertAll([], [A]) == [A] && InsertAll([], [A, B]) == [A, B];
    assert [A, B][..1] == [A] && Insert([A], ABC) == [A, ABC];
  }

  /** There are no gaps, and no place where nothing reaches over: one group. */
  lemma OneGroup(scale: Scale, text: Word)
    ensures FillGaps([A, ABC, B], 3, text) == [A, ABC, B]
    ensures var m := Adjusted([A, ABC, B], scale); Groups(m) == [m]
  {
    var h := [A, ABC, B];
    assert FillGaps(h, 1, text) == [A] && FillGaps(h, 2, text) == [A, ABC];
    var m := Adjusted(h, scale);
    assert !IsCut(m, 0);
    assert !IsCut(m, 1) by { assert m[0].End() > m[1].pos; }
    assert !IsCut(m, 2) by { assert m[1].End() > m[2].pos; }
    assert GroupUpTo(m, 0) == Grouping([], []);
    assert GroupUpTo(m, 1) == Grouping([], [m[0]]);
    assert GroupUpTo(m, 2) == Grouping([], [m[0], m[1]]);
    assert GroupUpTo(m, 3) == Grouping([], m);
  }

  /**
   * The hints are A, ABC and B, in one group.  It counts as ending where B does,
   * so A B is a tiling of it, and the selection spells "AB": the C is lost.
   */
  lemma LastPositionedEndsEarly(scale: Scale, ts: seq<seq<nat>>)
    requires forall w: nat :: scale(w) > 0.0
    requires var h := InsertAll([], Hits(PIECES, DICT, 3));
      BestTilings(Groups(Adjusted(FillGaps(h, |h|, Text(PIECES)), scale)), ts)
    ensures var h := InsertAll([], Hits(PIECES, DICT, 3));
      var gs := Groups(Adjusted(FillGaps(h, |h|, Text(PIECES)), scale));
      && |gs| == 1 && PosLast(gs[0]) == 2 && |Text(PIECES)| == 3
      && AllTile(gs) && !SpellsAll(gs, Text(PIECES))
      && Join(Texts(Selected(gs, ts))) == [65, 66]
  {
    hide InsertAll, Hits, FillGaps, Groups, BestTilings, Selected, HasTiling, Join, Texts;
    Hints();
    OneGroup(scale, Text(PIECES));
    Windows();
    var m := Adjusted([A, ABC, B], scale);
    assert IsChain(m, [1, 3]) && IsTiling(m, [1, 3]);
    assert HasTiling(m) by { Tiled(m, [1, 3]); }
    assert AllCover(m, Text(PIECES)) by {
      assert Text(PIECES)[0..1] == [65] && Text(PIECES)[0..3] == [65, 66, 67] && Text(PIECES)[1..2] == [66];
    }
    SelectionSpells([m], ts, Text(PIECES), 0, 2);
    assert Text(PIECES)[0..2] == [65, 66];
  }

  lemma Tiled(g: seq<Elem>, p: seq<nat>)
    requires g != [] && IsTiling(g, p)
    ensures HasTiling(g)
  {
  }
}
