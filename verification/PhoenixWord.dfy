/** `PhoenixWord`: the segmentation of a sentence into dictionary words. */
module PhoenixWords {
  import opened Bytes
  import opened WordElements
  import opened DictionaryScan
  import opened WordGroups
  import opened WordLattice
  import opened LatticeBuilder
  import opened Segmentation
  import opened Coverage
  import opened DictionaryCosts

  class PhoenixWord {
    const dictInputCN: Dictionary
    const dictInputJA: Dictionary
    const scale: Scale
    var wordHintSeq: seq<Elem>
    var wordAdjustedSeq: seq<Elem>
    var noConflictWordSeq: seq<seq<Elem>>
    var wordSeqTopSelected: seq<Elem>

    constructor (cn: Dictionary, ja: Dictionary, scale: Scale)
      ensures dictInputCN == cn && dictInputJA == ja && this.scale == scale
      ensures wordHintSeq == [] && wordAdjustedSeq == [] && noConflictWordSeq == [] && wordSeqTopSelected == []
    {
      dictInputCN, dictInputJA, this.scale := cn, ja, scale;
      wordHintSeq, wordAdjustedSeq, noConflictWordSeq, wordSeqTopSelected := [], [], [], [];
    }

    /** The dictionary of a language; other languages have no words. */
    function Dict(lang: string): Dictionary {
      if lang == "cn" then dictInputCN else if lang == "ja" then dictInputJA else map[]
    }

    /** Records a window if it is a dictionary word; `xs` lists what has been recorded. */
    method Record(word: Word, pos: int, dict: Dictionary, ghost xs: seq<Elem>)
      requires wordHintSeq == InsertAll([], xs)
      modifies `wordHintSeq
      ensures wordHintSeq == InsertAll([], xs + Kept(Elem(word, pos, |word|, Lookup(dict, word), Lookup(dict, word))))
    {
      var pred := Lookup(dict, word);
      if pred > 0.0 {
        var elem := Elem(word, pos, |word|, pred, pred);
        InsertAllSnoc([], xs, elem);
        wordHintSeq := Insert(wordHintSeq, elem);
      } else {
        assert xs + [] == xs;
      }
    }

    /** `word` is the window of `l` pieces that ends with piece `e`, `pos` its offset,
        and all windows up to that length are recorded. */
    ghost predicate Scanning(pieces: seq<Word>, dict: Dictionary, e: nat, l: nat, word: Word, pos: int)
      reads this
    {
      && l <= e + 1 <= |pieces|
      && word == Window(pieces, e + 1 - l, e + 1) && pos == Offset(pieces, e + 1 - l)
      && wordHintSeq == InsertAll([], Found(pieces, dict, e, l))
    }

    /** One piece more in front of the window, and the window is recorded. */
    method ScanLonger(ghost pieces: seq<Word>, ghost e: nat, ghost l: nat, piece: Word, word: Word, pos: int,
                      dict: Dictionary)
      returns (jointWord: Word, wordPos: int)
      requires Scanning(pieces, dict, e, l, word, pos)
      requires l <= e && piece == pieces[e - l]
      modifies `wordHintSeq
      ensures Scanning(pieces, dict, e, l + 1, jointWord, wordPos)
    {
      jointWord := piece + word;
      wordPos := pos - |piece|;
      FoundNext(pieces, dict, e, l);
      Record(jointWord, wordPos, dict, Found(pieces, dict, e, l));
    }

    /** All windows that end with piece `e`: the single piece, then longer and longer
        ones, with `preWords` read backwards. */
    method ScanEndingAt(pieces: seq<Word>, e: nat, preWords: seq<Word>, baseLinePos: int, dict: Dictionary)
      requires e < |pieces| && baseLinePos == Offset(pieces, e) && IsTail(preWords, pieces, e)
      requires wordHintSeq == InsertAll([], Hits(pieces, dict, e))
      modifies `wordHintSeq
      ensures wordHintSeq == InsertAll([], Hits(pieces, dict, e + 1))
    {
      hide InsertAll, Hits, HitsAt;
      FoundAll(pieces, dict, e);
      var jointWord, wordPos := ScanLonger(pieces, e, 0, pieces[e], [], baseLinePos + |pieces[e]|, dict);
      var it := |preWords|;
      ghost var l: nat := 1;
      while it > 0
        invariant 0 <= it <= |preWords| && it + l == |preWords| + 1
        invariant Scanning(pieces, dict, e, l, jointWord, wordPos)
      {
        it := it - 1;
        assert preWords[it] == pieces[e - l];
        jointWord, wordPos := ScanLonger(pieces, e, l, preWords[it], jointWord, wordPos, dict);
        l := l + 1;
      }
      assert l == Longest(e + 1);
    }

    /** The list of preceding pieces after piece `e`, never longer than 31. */
    static method Slide(preWords: seq<Word>, pieces: seq<Word>, e: nat) returns (r: seq<Word>)
      requires e < |pieces| && IsTail(preWords, pieces, e)
      ensures IsTail(r, pieces, e + 1)
    {
      r := preWords + [pieces[e]];
      if |r| > WINDOW_MAX - 1 {
        r := r[1..];
      }
    }

    /** The loop over the pieces. */
    method ScanAll(pieces: seq<Word>, dict: Dictionary)
      requires wordHintSeq == []
      modifies `wordHintSeq
      ensures wordHintSeq == InsertAll([], Hits(pieces, dict, |pieces|))
    {
      hide InsertAll, Hits, Offset;
      ScanStarts(pieces, dict);
      var preWords: seq<Word> := [];
      var baseLinePos := 0;
      var e := 0;
      while e < |pieces|
        invariant 0 <= e <= |pieces| && baseLinePos == Offset(pieces, e) && IsTail(preWords, pieces, e)
        invariant wordHintSeq == InsertAll([], Hits(pieces, dict, e))
      {
        ScanEndingAt(pieces, e, preWords, baseLinePos, dict);
        OffsetNext(pieces, e);
        baseLinePos := baseLinePos + |pieces[e]|;
        preWords := Slide(preWords, pieces, e);
        e := e + 1;
      }
    }

    /**
     * `getRawRank`.  The hints are exactly the windows of 1..32 consecutive pieces
     * with a positive weight, each once, filed under their offset in the text.
     */
    method GetRawRank(pieces: seq<Word>, lang: string)
      modifies this
      ensures wordHintSeq == InsertAll([], Hits(pieces, Dict(lang), |pieces|))
      ensures lang == "cn" ==> Recorded(pieces, dictInputCN, wordHintSeq)
      ensures lang == "ja" ==> Recorded(pieces, dictInputJA, wordHintSeq)
      ensures lang != "cn" && lang != "ja" ==> wordHintSeq == []
      ensures wordAdjustedSeq == [] && noConflictWordSeq == [] && wordSeqTopSelected == []
    {
      hide InsertAll, Hits, Recorded;
      wordHintSeq, wordAdjustedSeq, noConflictWordSeq, wordSeqTopSelected := [], [], [], [];
      ScanAll(pieces, Dict(lang));
      HitsRecorded(pieces, Dict(lang));
      if lang != "cn" && lang != "ja" {
        NothingRecorded(pieces, wordHintSeq);
      }
    }

    /** Adds the stretch between two neighbours, if there is one. */
    static method AddMiss(m: seq<Elem>, x: Elem, y: Elem, text: Word) returns (wordMissSeq: seq<Elem>)
      requires Covers(x, text) && Covers(y, text)
      requires Below(m, x.pos)
      ensures wordMissSeq == m + Gap(x, y, text)
    {
      wordMissSeq := m;
      var coverNext := x.pos + |x.word|;
      if coverNext < y.pos {
        var wordOut := text[coverNext..y.pos];
        var elem := Elem(wordOut, coverNext, |wordOut|, MISS_WEIGHT, MISS_WEIGHT);
        InsertLast(wordMissSeq, elem);
        wordMissSeq := Insert(wordMissSeq, elem);
      }
    }

    /** The first loop of `getOutRank`: the gaps, in order. */
    static method CollectMisses(h: seq<Elem>, text: Word) returns (wordMissSeq: seq<Elem>)
      requires Sorted(h) && AllCover(h, text)
      ensures wordMissSeq == Misses(h, |h|, text)
    {
      hide Misses, Sorted, Covers, Gap, Below;
      FirstMisses(h, text);
      wordMissSeq := [];
      var i := 0;
      while i < |h|
        invariant 0 <= i <= |h|
        invariant wordMissSeq == Misses(h, i, text)
      {
        if i + 1 < |h| {
          MissesBelow(h, i, text);
          wordMissSeq := AddMiss(wordMissSeq, h[i], h[i + 1], text);
          MissesNext(h, i, text);
        } else {
          LastMisses(h, text);
        }
        i := i + 1;
      }
    }

    /** `getOutRank`: the gaps between the hints become words of their own. */
    method GetOutRank(text: Word)
      requires Sorted(wordHintSeq) && AllCover(wordHintSeq, text)
      modifies `wordHintSeq
      ensures wordHintSeq == FillGaps(old(wordHintSeq), |old(wordHintSeq)|, text)
    {
      hide FillGaps, Misses, InsertAll, Sorted, Covers, AllCover;
      var wordMissSeq := CollectMisses(wordHintSeq, text);
      AllMissesFill(wordHintSeq, text);
      ghost var h := wordHintSeq;
      var k := 0;
      InsertAllNone(h);
      while k < |wordMissSeq|
        invariant 0 <= k <= |wordMissSeq|
        invariant wordHintSeq == InsertAll(h, wordMissSeq[..k])
      {
        InsertAllNext(h, wordMissSeq, k);
        wordHintSeq := Insert(wordHintSeq, wordMissSeq[k]);
        k := k + 1;
      }
      assert wordMissSeq[..|wordMissSeq|] == wordMissSeq;
    }

    /** `adjustRank` */
    method AdjustRank()
      requires Sorted(wordHintSeq) && wordAdjustedSeq == []
      modifies `wordAdjustedSeq
      ensures wordAdjustedSeq == Adjusted(wordHintSeq, scale)
    {
      var i := 0;
      while i < |wordHintSeq|
        invariant 0 <= i <= |wordHintSeq|
        invariant wordAdjustedSeq == Adjusted(wordHintSeq, scale)[..i]
      {
        var elemNew := Adjust(wordHintSeq[i], scale);
        InsertLast(wordAdjustedSeq, elemNew);
        wordAdjustedSeq := Insert(wordAdjustedSeq, elemNew);
        i := i + 1;
      }
    }

    /** The body of the loop of `getNoConflictSeq`. */
    method GroupNext(h: seq<Elem>, n: nat, current: seq<Elem>, maxPreCover: int)
      returns (nocfWordSeq: seq<Elem>, cover: int)
      requires n < |h| && Sorted(h) && h[n].pos >= 0
      requires GroupUpTo(h, n) == Grouping(noConflictWordSeq, current) && maxPreCover == CoverBefore(current)
      modifies `noConflictWordSeq
      ensures GroupUpTo(h, n + 1) == Grouping(noConflictWordSeq, nocfWordSeq) && cover == CoverBefore(nocfWordSeq)
    {
      hide GroupUpTo, IsCut, MaxEnd, Sorted;
      GroupUpToNext(h, n);
      nocfWordSeq, cover := current, maxPreCover;
      if n > 0 {
        CutTest(h, n, current);
        var preCover := h[n - 1].pos + h[n - 1].range;
        if cover < preCover {
          cover := preCover;
        }
        if cover <= h[n].pos {
          noConflictWordSeq := noConflictWordSeq + [nocfWordSeq];
          nocfWordSeq := [];
          cover := 0;
        }
      }
      CurrentBelow(h, n);
      InsertLast(nocfWordSeq, h[n]);
      nocfWordSeq := Insert(nocfWordSeq, h[n]);
    }

    /** `getNoConflictSeq`: cuts the words wherever none reaches over. */
    method GetNoConflictSeq()
      requires Sorted(wordAdjustedSeq) && noConflictWordSeq == []
      requires forall i :: 0 <= i < |wordAdjustedSeq| ==> wordAdjustedSeq[i].pos >= 0
      modifies `noConflictWordSeq
      ensures noConflictWordSeq == Groups(wordAdjustedSeq)
    {
      var h := wordAdjustedSeq;
      var nocfWordSeq: seq<Elem> := [];
      var maxPreCover := 0;
      var n := 0;
      while n < |h|
        invariant 0 <= n <= |h|
        invariant GroupUpTo(h, n) == Grouping(noConflictWordSeq, nocfWordSeq)
        invariant maxPreCover == CoverBefore(nocfWordSeq)
      {
        nocfWordSeq, maxPreCover := GroupNext(h, n, nocfWordSeq, maxPreCover);
        n := n + 1;
      }
      if nocfWordSeq != [] {
        noConflictWordSeq := noConflictWordSeq + [nocfWordSeq];
      }
    }

    /** The first word of the group with the given text and position. */
    static method FindWord(confuse: seq<Elem>, v: nat) returns (elem: Elem)
      requires GroupOk(confuse) && IsWordVertex(confuse, v)
      ensures elem == WordAt(confuse, v)
    {
      var i := 0;
      while confuse[i].word != confuse[v - 1].word || confuse[i].pos != confuse[v - 1].pos
        invariant 0 <= i < v
        decreases v - i
      {
        i := i + 1;
      }
      MatchIsUnique(confuse, confuse[i], i + 1, v);
      elem := confuse[i];
    }

    /** Inserts the words on the path, which is stored back to front. */
    method SelectPath(confuse: seq<Elem>, path: seq<nat>, ghost p: seq<nat>)
      requires GroupOk(confuse) && p == Reversed(path)
      requires forall i :: 0 <= i < |p| ==> IsWordVertex(confuse, p[i])
      modifies `wordSeqTopSelected
      ensures wordSeqTopSelected == InsertAll(old(wordSeqTopSelected), WordsOf(confuse, p))
    {
      hide GroupOk, Insert;
      ghost var selected, words := wordSeqTopSelected, WordsOf(confuse, p);
      assert words[..0] == [];
      var k := 0;
      while k < |path|
        invariant 0 <= k <= |path|
        invariant wordSeqTopSelected == InsertAll(selected, words[..k])
      {
        var v := path[|path| - 1 - k];
        assert v == p[k];
        var elem := FindWord(confuse, v);
        assert words[..k + 1] == words[..k] + [elem];
        InsertAllSnoc(selected, words[..k], elem);
        wordSeqTopSelected := Insert(wordSeqTopSelected, elem);
        k := k + 1;
      }
      assert words[..|path|] == words;
    }

    /**
     * `calcPrediction` of one group: selects the words of a cheapest tiling of the
     * group's stretch of text, and nothing ("no path") when there is no tiling.
     */
    method CalcPredictionOf(confuse: seq<Elem>) returns (ghost tiling: seq<nat>)
      requires GroupOk(confuse)
      requires forall k :: 0 <= k < |wordHintSeq| ==> HintOk(wordHintSeq[k])
      requires forall v: nat :: IsWordVertex(confuse, v) ==> Named(confuse, wordHintSeq, v)
      modifies `wordSeqTopSelected
      ensures Best(confuse, tiling)
      ensures wordSeqTopSelected == InsertAll(old(wordSeqTopSelected), WordsOf(confuse, tiling))
    {
      var edges := BuildGraph(confuse, wordHintSeq);
      var vrtxEnd := EndVertex(confuse);
      EdgesForward(confuse, edges);
      var parents, distance := ShortestPaths(edges, vrtxEnd + 1);
      ShortestPathIsBestTiling(confuse, edges, parents, distance);
      tiling := [];
      if parents[vrtxEnd] == vrtxEnd {
        return;  // no path
      }
      FiniteIsRooted(edges, vrtxEnd + 1, parents, distance, vrtxEnd);
      var path := CollectPath(parents, vrtxEnd);
      tiling := Reversed(path);
      SelectPath(confuse, path, tiling);
    }

    /** `calcPrediction`: one group after the other. */
    method CalcPrediction(ghost text: Word) returns (ghost tilings: seq<seq<nat>>)
      requires WellPlaced(Adjusted(wordHintSeq, scale), text) && wordSeqTopSelected == []
      requires noConflictWordSeq == Groups(Adjusted(wordHintSeq, scale))
      modifies `wordSeqTopSelected
      ensures BestTilings(noConflictWordSeq, tilings)
      ensures wordSeqTopSelected == Selected(noConflictWordSeq, tilings)
    {
      hide WellPlaced, Groups, Named, Best, WordsOf, InsertAll;
      var gs := noConflictWordSeq;
      GroupsLinked(wordHintSeq, scale, text);
      tilings := [];
      var k := 0;
      while k < |gs|
        invariant 0 <= k <= |gs| && BestTilings(gs[..k], tilings)
        invariant wordSeqTopSelected == Selected(gs[..k], tilings)
        invariant k < |gs| ==> AllBelow(wordSeqTopSelected, StartOf(gs, k))
      {
        GroupIsFit(wordHintSeq, scale, text, k);
        ghost var t := CalcPredictionOf(gs[k]);
        GroupOfBest(gs[k], t);
        SelectAppends(Selected(gs[..k], tilings), gs[k], t);
        SelectedSnoc(gs[..k], tilings, gs[k], t);
        assert gs[..k + 1] == gs[..k] + [gs[k]];
        tilings := tilings + [t];
        k := k + 1;
      }
      assert gs[..|gs|] == gs;
    }

    /**
     * `cut` up to the selection.  The selected words are cheapest tilings of the
     * groups of overlapping words, group after group; when every group has a
     * tiling they spell the text from the first hint to the end of the last one.
     * They spell all of it if and only if, in addition, the first hint starts the
     * text and the last-positioned one ends it; and so they do when the dictionary
     * knows every single piece.
     */
    method Cut(pieces: seq<Word>, text: Word, lang: string) returns (ghost tilings: seq<seq<nat>>)
      requires NonEmptyPieces(pieces) && text == Text(pieces)
      requires forall w: nat :: scale(w) > 0.0
      modifies this
      ensures var h := InsertAll([], Hits(pieces, Dict(lang), |pieces|));
        noConflictWordSeq == Groups(Adjusted(FillGaps(h, |h|, text), scale))
      ensures BestTilings(noConflictWordSeq, tilings)
      ensures wordSeqTopSelected == Selected(noConflictWordSeq, tilings)
      ensures CutBy(pieces, Dict(lang), scale, noConflictWordSeq, tilings)
      ensures noConflictWordSeq != [] && AllTile(noConflictWordSeq) ==>
        var from, to := noConflictWordSeq[0][0].pos, PosLast(noConflictWordSeq[|noConflictWordSeq| - 1]);
        0 <= from <= to <= |text| && Join(Texts(wordSeqTopSelected)) == text[from..to]
      ensures Join(Texts(wordSeqTopSelected)) == text <==> SpellsAll(noConflictWordSeq, text)
      ensures KnowsPieces(pieces, Dict(lang)) ==> Join(Texts(wordSeqTopSelected)) == text
    {
      hide FillGaps, Groups, Adjusted, InsertAll, Hits, BestTilings, Selected, Cover, AllTile, Recorded, CutBy;
      GetRawRank(pieces, lang);
      HitsWellPlaced(pieces, Dict(lang));
      HitsRecorded(pieces, Dict(lang));
      ghost var hits := wordHintSeq;
      GetOutRank(text);
      HintsWellPlaced(pieces, Dict(lang), scale);
      AdjustRank();
      GetNoConflictSeq();
      tilings := CalcPrediction(text);
      CutByDictionary(pieces, Dict(lang), scale, hits, text, tilings);
      GroupsCover(wordHintSeq, scale, text);
      SelectionIsTextIff(noConflictWordSeq, tilings, text);
      if noConflictWordSeq != [] && AllTile(noConflictWordSeq) {
        AllTileSpells(noConflictWordSeq, tilings, text);
      }
      if KnowsPieces(pieces, Dict(lang)) {
        KnownSpells(pieces, Dict(lang), scale);
      }
    }
  }

  lemma KnownSpells(pieces: seq<Word>, dict: Dictionary, scale: Scale)
    requires NonEmptyPieces(pieces) && KnowsPieces(pieces, dict)
    requires forall w: nat :: scale(w) > 0.0
    ensures var h := InsertAll([], Hits(pieces, dict, |pieces|));
      SpellsAll(Groups(Adjusted(FillGaps(h, |h|, Text(pieces)), scale)), Text(pieces))
  {
    if pieces == [] {
      assert InsertAll([], Hits(pieces, dict, 0)) == [];
    } else {
      KnownPiecesTile(pieces, dict, scale);
    }
  }

  lemma EmptyOrHolds(h: seq<Elem>)
    ensures h == [] || exists x :: x in h
  {
    if h != [] {
      assert h[0] in h;
    }
  }

  lemma RecordedIsEntry(pieces: seq<Word>, dict: Dictionary, h: seq<Elem>, x: Elem)
    requires Recorded(pieces, dict, h)
    ensures x in h ==> exists i: nat, j: nat :: IsEntry(pieces, dict, i, j)
  {
    hide Join;
  }

  lemma NoEntries(pieces: seq<Word>)
    ensures forall i: nat, j: nat :: !IsEntry(pieces, map[], i, j)
  {
  }

  /** An empty dictionary gives no hints. */
  lemma NothingRecorded(pieces: seq<Word>, h: seq<Elem>)
    requires Recorded(pieces, map[], h)
    ensures h == []
  {
    hide Recorded, IsEntry;
    forall x: Elem ensures x !in h {
      RecordedIsEntry(pieces, map[], h, x);
      NoEntries(pieces);
    }
    EmptyOrHolds(h);
  }

  lemma ScanStarts(pieces: seq<Word>, dict: Dictionary)
    ensures InsertAll([], Hits(pieces, dict, 0)) == [] && Offset(pieces, 0) == 0
  {
  }

  lemma OffsetNext(pieces: seq<Word>, e: nat)
    requires e < |pieces|
    ensures Offset(pieces, e + 1) == Offset(pieces, e) + |pieces[e]|
  {
  }

  lemma AllTileSpells(gs: seq<seq<Elem>>, ts: seq<seq<nat>>, text: Word)
    requires gs != [] && AllTile(gs) && BestTilings(gs, ts)
    requires Cover(gs, text, gs[0][0].pos, PosLast(gs[|gs| - 1]))
    ensures var from, to := gs[0][0].pos, PosLast(gs[|gs| - 1]);
      0 <= from <= to <= |text| && Join(Texts(Selected(gs, ts))) == text[from..to]
  {
    SelectionSpells(gs, ts, text, gs[0][0].pos, PosLast(gs[|gs| - 1]));
  }

  /** The recorded hints, before gap filling. */
  lemma HitsWellPlaced(pieces: seq<Word>, dict: Dictionary)
    requires NonEmptyPieces(pieces)
    ensures var h := InsertAll([], Hits(pieces, dict, |pieces|));
      Sorted(h) && DistinctPlaces(h) && AllCover(h, Text(pieces)) && PositiveWeights(h)
  {
    hide Hits, InsertAll;
    var xs := Hits(pieces, dict, |pieces|);
    var h := InsertAll([], xs);
    Filed(xs);
    HitsDistinct(pieces, dict, |pieces|);
    DistinctReordered(xs, h);
    forall k | 0 <= k < |h| ensures Covers(h[k], Text(pieces)) && h[k].weight > 0.0 {
      assert h[k] in multiset(h);
      var i, j := HitsSound(pieces, dict, |pieces|, h[k]);
      HitCovers(pieces, dict, i, j);
    }
  }

  /** The hints after gap filling and weight adjustment. */
  lemma HintsWellPlaced(pieces: seq<Word>, dict: Dictionary, scale: Scale)
    requires NonEmptyPieces(pieces) && forall w: nat :: scale(w) > 0.0
    ensures var h := InsertAll([], Hits(pieces, dict, |pieces|));
      var f := FillGaps(h, |h|, Text(pieces));
      && Sorted(f)
      && WellPlaced(Adjusted(f, scale), Text(pieces))
  {
    hide Hits, InsertAll, FillGaps;
    HitsWellPlaced(pieces, dict);
    var h := InsertAll([], Hits(pieces, dict, |pieces|));
    var f := FillGaps(h, |h|, Text(pieces));
    GapFilling(h, Text(pieces));
    assert forall k :: 0 <= k < |f| ==> f[k] in f;
    assert PositiveWeights(f);
    AdjustedKeeps(f, scale, Text(pieces));
  }

  lemma GroupIsFit(h: seq<Elem>, scale: Scale, text: Word, k: nat)
    requires WellPlaced(Adjusted(h, scale), text) && k < |Groups(Adjusted(h, scale))|
    ensures GroupOk(Groups(Adjusted(h, scale))[k]) && AllCover(Groups(Adjusted(h, scale))[k], text)
    ensures forall v: nat ::
      IsWordVertex(Groups(Adjusted(h, scale))[k], v) ==> Named(Groups(Adjusted(h, scale))[k], h, v)
    ensures forall i :: 0 <= i < |h| ==> HintOk(h[i])
  {
    hide Groups, GroupOk, Named;
    GroupsAreOk(h, scale, text, k);
    forall i | 0 <= i < |h| ensures HintOk(h[i]) {
      assert Covers(Adjusted(h, scale)[i], text);
    }
  }

  /** When every piece is a word, every group tiles and the groups reach over the whole text. */
  lemma KnownPiecesTile(pieces: seq<Word>, dict: Dictionary, scale: Scale)
    requires NonEmptyPieces(pieces) && pieces != [] && KnowsPieces(pieces, dict)
    requires forall w: nat :: scale(w) > 0.0
    ensures var h := InsertAll([], Hits(pieces, dict, |pieces|));
      var gs := Groups(Adjusted(FillGaps(h, |h|, Text(pieces)), scale));
      && gs != [] && AllTile(gs)
      && gs[0][0].pos == 0 && PosLast(gs[|gs| - 1]) == |Text(pieces)|
  {
    hide Hits, InsertAll, FillGaps, Groups, Adjusted, OnGrid, HasSingles, AllTile, WellPlaced, Text, AllCover, Sorted;
    var text := Text(pieces);
    var h := InsertAll([], Hits(pieces, dict, |pieces|));
    var f := FillGaps(h, |h|, text);
    HintsWellPlaced(pieces, dict, scale);
    HitsOnGrid(pieces, dict, h);
    FilledOnGrid(pieces, h, |h|, text);
    FilledKeepsSingles(pieces, h, text);
    AdjustedOnGrid(pieces, f, scale);
    GroupsAllOk(f, scale, text);
    GroupsTile(pieces, Adjusted(f, scale), text);
  }

  lemma FilledKeepsSingles(pieces: seq<Word>, h: seq<Elem>, text: Word)
    requires HasSingles(pieces, h)
    ensures HasSingles(pieces, FillGaps(h, |h|, text))
  {
    forall i: nat | i < |pieces| ensures HasSingle(pieces, FillGaps(h, |h|, text), i) {
      assert HasSingle(pieces, h, i);
      var x :| x in h && Spans(pieces, x, i, i + 1);
      var k :| 0 <= k < |h| && h[k] == x;
      FilledHolds(h, |h|, text, k);
    }
  }

  lemma GroupsAllOk(h: seq<Elem>, scale: Scale, text: Word)
    requires WellPlaced(Adjusted(h, scale), text)
    ensures AllOk(Groups(Adjusted(h, scale)))
  {
    hide Groups, Adjusted, WellPlaced;
    forall k | 0 <= k < |Groups(Adjusted(h, scale))|
      ensures Groups(Adjusted(h, scale))[k] != [] && GroupOk(Groups(Adjusted(h, scale))[k])
    {
      GroupIsFit(h, scale, text, k);
    }
  }

  lemma GroupOfBest(g: seq<Elem>, t: seq<nat>)
    requires Best(g, t)
    ensures GroupOk(g)
  {
  }

  /** The words selected from one group all lie before the next group. */
  lemma GroupsLinked(h: seq<Elem>, scale: Scale, text: Word)
    requires WellPlaced(Adjusted(h, scale), text)
    ensures var gs := Groups(Adjusted(h, scale));
      forall k :: 0 <= k < |gs| - 1 ==> gs[k] != [] && PosLast(gs[k]) == StartOf(gs, k + 1)
  {
    hide Groups, Abutting;
    var gs := Groups(Adjusted(h, scale));
    GroupsAbut(Adjusted(h, scale));
    forall k | 0 <= k < |gs| - 1 ensures gs[k] != [] && PosLast(gs[k]) == StartOf(gs, k + 1) {
      AbuttingAt(gs, k);
    }
  }

  function StartOf(gs: seq<seq<Elem>>, k: nat): int {
    if k < |gs| && gs[k] != [] then gs[k][0].pos else 0
  }

  lemma GroupsCover(h: seq<Elem>, scale: Scale, text: Word)
    requires WellPlaced(Adjusted(h, scale), text)
    ensures var gs := Groups(Adjusted(h, scale));
      gs != [] ==> gs[0] != [] && gs[|gs| - 1] != [] && Cover(gs, text, gs[0][0].pos, PosLast(gs[|gs| - 1]))
  {
    hide Groups, Abutting;
    var gs := Groups(Adjusted(h, scale));
    GroupsAbut(Adjusted(h, scale));
    forall k | 0 <= k < |gs| ensures gs[k] != [] && AllCover(gs[k], text) {
      GroupIsFit(h, scale, text, k);
    }
  }

  /** The last pieces in front of piece `e`, at most 31 of them. */
  predicate IsTail(preWords: seq<Word>, pieces: seq<Word>, e: nat)
    requires e <= |pieces|
  {
    && |preWords| + 1 == (if e + 1 < WINDOW_MAX then e + 1 else WINDOW_MAX)
    && forall k :: 0 <= k < |preWords| ==> preWords[k] == pieces[e - |preWords| + k]
  }

  lemma EdgesForward(g: seq<Elem>, edges: seq<Edge>)
    requires GroupOk(g) && IsGraph(g, edges)
    ensures Forward(edges, |g| + 2)
  {
    forall e | e in edges ensures e.from < e.to < |g| + 2 {
      assert IsEdge(g, e);
      EdgeGoesForward(g, e);
    }
  }

  // --------------------------------------------------------------- gap filling

  /** The gaps in front of the first `n + 1` hints. */
  function Misses(h: seq<Elem>, n: nat, text: Word): seq<Elem>
    requires n <= |h|
  {
    if n == 0 then []
    else if n == |h| then Misses(h, n - 1, text)
    else Misses(h, n - 1, text) + Gap(h[n - 1], h[n], text)
  }

  lemma FirstMisses(h: seq<Elem>, text: Word)
    ensures Misses(h, 0, text) == []
  {
  }

  lemma MissesNext(h: seq<Elem>, n: nat, text: Word)
    requires n + 1 < |h|
    ensures Misses(h, n + 1, text) == Misses(h, n, text) + Gap(h[n], h[n + 1], text)
  {
    hide Gap;
  }

  predicate Below(m: seq<Elem>, pos: int) {
    m == [] || m[|m| - 1].pos < pos
  }

  lemma GapBelow(h: seq<Elem>, n: nat, text: Word)
    requires n + 1 < |h| && Sorted(h)
    ensures h[n].pos <= h[n + 1].pos
    ensures var gap := Gap(h[n], h[n + 1], text); |gap| <= 1 && Below(gap, h[n + 1].pos)
  {
  }

  lemma BelowNext(m: seq<Elem>, gap: seq<Elem>, pos: int, next: int)
    requires Below(m, pos) && pos <= next
    requires |gap| <= 1 && Below(gap, next)
    ensures Below(m + gap, next)
  {
    if gap == [] {
      assert m + gap == m;
    }
  }

  lemma {:induction false} MissesBelow(h: seq<Elem>, n: nat, text: Word)
    requires n < |h| && Sorted(h)
    ensures Below(Misses(h, n, text), h[n].pos)
  {
    hide Gap, Sorted, Below, Misses;
    if n == 0 {
      FirstMisses(h, text);
      NothingBelow(h[n].pos);
    } else {
      MissesNext(h, n - 1, text);
      MissesBelow(h, n - 1, text);
      GapBelow(h, n - 1, text);
      BelowNext(Misses(h, n - 1, text), Gap(h[n - 1], h[n], text), h[n - 1].pos, h[n].pos);
    }
  }

  lemma NothingBelow(pos: int)
    ensures Below([], pos)
  {
  }

  /** One more stretch, inserted between the filled hints and the rest. */
  lemma FillOne(h: seq<Elem>, before: seq<Elem>, x: Elem, f: seq<Elem>, rest: seq<Elem>)
    requires InsertAll(h, before) == f + rest
    requires f == [] || f[|f| - 1].pos <= x.pos
    requires rest != [] && forall k :: 0 <= k < |rest| ==> rest[k].pos > x.pos
    ensures InsertAll(h, before + [x]) == f + [x] + rest
  {
    InsertAllSnoc(h, before, x);
    InsertBetween(f, x, rest);
  }

  lemma TakeNext(a: seq<Elem>, h: seq<Elem>, n: nat)
    requires n < |h|
    ensures a + h[n..] == a + [h[n]] + h[n + 1..]
  {
  }

  lemma UnfoldFill(h: seq<Elem>, n: nat, text: Word, gap: seq<Elem>)
    requires 0 < n < |h| && gap == Gap(h[n - 1], h[n], text)
    ensures Misses(h, n, text) == Misses(h, n - 1, text) + gap
    ensures FillGaps(h, n + 1, text) + h[n + 1..] == FillGaps(h, n, text) + gap + h[n..]
  {
    TakeNext(FillGaps(h, n, text) + gap, h, n);
  }

  lemma GapFits(h: seq<Elem>, n: nat, text: Word, before: seq<Elem>, f: seq<Elem>)
    requires 0 < n < |h| && AllCover(h, text) && Sorted(h)
    requires f == FillGaps(h, n, text) && InsertAll(h, before) == f + h[n..]
    ensures InsertAll(h, before + Gap(h[n - 1], h[n], text)) == f + Gap(h[n - 1], h[n], text) + h[n..]
  {
    assert Covers(h[n - 1], text) && Covers(h[n], text);
    if h[n - 1].End() < h[n].pos {
      FilledEnds(h, n, text);
      FillOne(h, before, Miss(h[n - 1], h[n], text), f, h[n..]);
    } else {
      assert before + [] == before && f + [] == f;
    }
  }

  /** Inserting the gaps one by one fills them in place. */
  lemma {:induction false} MissesFill(h: seq<Elem>, n: nat, text: Word)
    requires 0 < n <= |h| && AllCover(h, text) && Sorted(h)
    ensures InsertAll(h, Misses(h, n - 1, text)) == FillGaps(h, n, text) + h[n..]
  {
    if n == 1 {
      FillStart(h, text);
    } else {
      var k: nat := n - 1;
      MissesFill(h, k, text);
      UnfoldFill(h, k, text, Gap(h[k - 1], h[k], text));
      GapFits(h, k, text, Misses(h, k - 1, text), FillGaps(h, k, text));
    }
  }

  lemma FillStart(h: seq<Elem>, text: Word)
    requires h != []
    ensures InsertAll(h, Misses(h, 0, text)) == FillGaps(h, 1, text) + h[1..]
  {
    assert h == [h[0]] + h[1..];
  }

  lemma NothingLeft(f: seq<Elem>, h: seq<Elem>)
    ensures f + h[|h|..] == f
  {
  }

  lemma LastMisses(h: seq<Elem>, text: Word)
    requires h != []
    ensures Misses(h, |h|, text) == Misses(h, |h| - 1, text)
  {
  }

  lemma NoMisses(text: Word)
    ensures InsertAll([], Misses([], 0, text)) == FillGaps([], 0, text)
  {
  }

  lemma AllMissesFill(h: seq<Elem>, text: Word)
    requires AllCover(h, text) && Sorted(h)
    ensures InsertAll(h, Misses(h, |h|, text)) == FillGaps(h, |h|, text)
  {
    hide InsertAll, Misses, FillGaps, Sorted, AllCover, Covers;
    if h == [] {
      NoMisses(text);
    } else {
      MissesFill(h, |h|, text);
      LastMisses(h, text);
      NothingLeft(FillGaps(h, |h|, text), h);
    }
  }
}
