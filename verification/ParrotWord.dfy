/**
 * `ParrotWord`: greedy placement.  The words are considered by falling weight;
 * each claims cells of a placeholder and is selected if all of them were free.
 */
module ParrotWords {
  import opened WordElements
  import opened Segmentation

  /** A `multimap<double, WordElement>` keyed by weight: insertion behind equal keys. */
  function InsertByWeight(m: seq<Elem>, e: Elem): seq<Elem> {
    if m == [] || m[|m| - 1].weight <= e.weight then m + [e]
    else InsertByWeight(m[..|m| - 1], e) + [m[|m| - 1]]
  }

  predicate Rising(m: seq<Elem>) {
    forall i, j :: 0 <= i < j < |m| ==> m[i].weight <= m[j].weight
  }

  /** The multimap after inserting `xs` one after the other. */
  function ByWeight(xs: seq<Elem>): seq<Elem> {
    if xs == [] then [] else InsertByWeight(ByWeight(xs[..|xs| - 1]), xs[|xs| - 1])
  }

  lemma {:induction false} InsertByWeightAdds(m: seq<Elem>, e: Elem)
    ensures multiset(InsertByWeight(m, e)) == multiset(m) + multiset{e}
  {
    if m != [] && m[|m| - 1].weight > e.weight {
      InsertByWeightAdds(m[..|m| - 1], e);
      assert m == m[..|m| - 1] + [m[|m| - 1]];
    }
  }

  lemma InsertByWeightIn(m: seq<Elem>, e: Elem, x: Elem)
    requires x in InsertByWeight(m, e)
    ensures x in m || x == e
  {
    hide InsertByWeight;
    InsertByWeightAdds(m, e);
    assert x in multiset(InsertByWeight(m, e));
    assert x in multiset(m) <==> x in m;
  }

  lemma {:induction false} InsertByWeightKeeps(m: seq<Elem>, e: Elem)
    requires Rising(m)
    ensures Rising(InsertByWeight(m, e))
  {
    if m != [] && m[|m| - 1].weight > e.weight {
      var rest, last := m[..|m| - 1], m[|m| - 1];
      InsertByWeightKeeps(rest, e);
      var r := InsertByWeight(rest, e);
      forall i | 0 <= i < |r| ensures r[i].weight <= last.weight {
        InsertByWeightIn(rest, e, r[i]);
      }
    }
  }

  lemma {:induction false} ByWeightKeeps(xs: seq<Elem>)
    ensures multiset(ByWeight(xs)) == multiset(xs)
  {
    hide InsertByWeight;
    if xs != [] {
      var most, last := xs[..|xs| - 1], xs[|xs| - 1];
      ByWeightKeeps(most);
      InsertByWeightAdds(ByWeight(most), last);
      assert xs == most + [last];
    }
  }

  lemma {:induction false} ByWeightRises(xs: seq<Elem>)
    ensures Rising(ByWeight(xs))
  {
    if xs != [] {
      hide Rising, InsertByWeight;
      ByWeightRises(xs[..|xs| - 1]);
      InsertByWeightKeeps(ByWeight(xs[..|xs| - 1]), xs[|xs| - 1]);
    }
  }

  /** Every word is kept, in order of weight. */
  lemma ByWeightSorts(xs: seq<Elem>)
    ensures Rising(ByWeight(xs)) && multiset(ByWeight(xs)) == multiset(xs)
  {
    hide ByWeight, Rising;
    ByWeightRises(xs);
    ByWeightKeeps(xs);
  }

  // The placeholder has `size` cells; cell i stands for position begin + i.

  predicate InCell(e: Elem, begin: int, size: nat, i: int) {
    e.pos - begin <= i < e.End() - begin && i < size
  }

  function Cells(e: Elem, begin: int, size: nat): (s: set<int>)
    ensures forall i :: i in s <==> InCell(e, begin, size, i)
  {
    set i | e.pos - begin <= i < e.End() - begin && InCell(e, begin, size, i)
  }

  /** No cell of the word up to cell `i` is taken. */
  predicate FreeUpTo(taken: set<int>, e: Elem, begin: int, i: int) {
    forall j :: e.pos - begin <= j <= i ==> j !in taken
  }

  /** The cells a word claims: its own up to the first one that is taken. */
  function Trail(taken: set<int>, e: Elem, begin: int, size: nat): (s: set<int>)
    ensures forall i :: i in s <==> InCell(e, begin, size, i) && FreeUpTo(taken, e, begin, i)
  {
    set i | e.pos - begin <= i < e.End() - begin && InCell(e, begin, size, i) && FreeUpTo(taken, e, begin, i)
  }

  /** The cells claimed by the first `k` words considered. */
  function Taken(os: seq<Elem>, k: nat, begin: int, size: nat): set<int>
    requires k <= |os|
  {
    if k == 0 then {}
    else
      var before := Taken(os, k - 1, begin, size);
      before + Trail(before, os[k - 1], begin, size)
  }

  /** The word is selected: all its cells are free when it is considered. */
  predicate Chosen(os: seq<Elem>, k: nat, begin: int, size: nat)
    requires k < |os|
  {
    Cells(os[k], begin, size) !! Taken(os, k, begin, size)
  }

  /** The words selected among the first `k`, in the order they were considered. */
  function ChosenOnes(os: seq<Elem>, k: nat, begin: int, size: nat): seq<Elem>
    requires k <= |os|
  {
    if k == 0 then []
    else ChosenOnes(os, k - 1, begin, size) + (if Chosen(os, k - 1, begin, size) then [os[k - 1]] else [])
  }

  predicate Overlap(x: Elem, y: Elem) {
    x.pos < y.End() && y.pos < x.End()
  }

  /** Every word starts inside the placeholder, its last cell left over. */
  predicate StartsInside(os: seq<Elem>, begin: int, size: nat) {
    forall k :: 0 <= k < |os| ==> os[k].range > 0 && begin <= os[k].pos < begin + size
  }

  lemma {:induction false} TakenFrom(os: seq<Elem>, k: nat, begin: int, size: nat, i: int) returns (j: nat)
    requires k <= |os| && i in Taken(os, k, begin, size)
    ensures j < k && i in Cells(os[j], begin, size)
  {
    if i in Taken(os, k - 1, begin, size) {
      j := TakenFrom(os, k - 1, begin, size, i);
    } else {
      j := k - 1;
    }
  }

  lemma {:induction false} TakenHolds(os: seq<Elem>, j: nat, k: nat, begin: int, size: nat)
    requires j < k <= |os| && Chosen(os, j, begin, size)
    ensures Cells(os[j], begin, size) <= Taken(os, k, begin, size)
  {
    if k > j + 1 {
      TakenHolds(os, j, k - 1, begin, size);
    }
  }

  /** Selected words never overlap, not even where they run past the placeholder. */
  lemma ChosenDisjoint(os: seq<Elem>, j: nat, k: nat, begin: int, size: nat)
    requires j < k < |os| && StartsInside(os, begin, size)
    requires Chosen(os, j, begin, size) && Chosen(os, k, begin, size)
    ensures !Overlap(os[j], os[k])
  {
    TakenHolds(os, j, k, begin, size);
    var i := (if os[j].pos < os[k].pos then os[k].pos else os[j].pos) - begin;
    assert !(i in Cells(os[j], begin, size) && i in Cells(os[k], begin, size));
  }

  /** A rejected word overlaps a word considered before it, which weighs at least as much. */
  lemma RejectedOverlaps(os: seq<Elem>, k: nat, begin: int, size: nat) returns (j: nat)
    requires k < |os| && !Chosen(os, k, begin, size)
    requires forall a, b :: 0 <= a < b < |os| ==> os[a].weight >= os[b].weight
    ensures j < k && Overlap(os[j], os[k]) && os[j].weight >= os[k].weight
  {
    var i :| i in Cells(os[k], begin, size) && i in Taken(os, k, begin, size);
    j := TakenFrom(os, k, begin, size, i);
  }

  // ------------------------------------------------ what rejected words leave

  /** The cells of the words selected among the first `k`. */
  function ChosenCells(os: seq<Elem>, k: nat, begin: int, size: nat): set<int>
    requires k <= |os|
  {
    if k == 0 then {}
    else
      ChosenCells(os, k - 1, begin, size) +
      if Chosen(os, k - 1, begin, size) then Cells(os[k - 1], begin, size) else {}
  }

  lemma {:induction false} InChosenCells(os: seq<Elem>, k: nat, begin: int, size: nat, i: int)
    requires k <= |os|
    ensures i in ChosenCells(os, k, begin, size) <==>
      exists j :: 0 <= j < k && Chosen(os, j, begin, size) && i in Cells(os[j], begin, size)
  {
    hide Chosen, Cells;
    if k > 0 {
      InChosenCells(os, k - 1, begin, size, i);
    }
  }

  /** The word overlaps one selected among the first `n`. */
  predicate OverlapsSelected(os: seq<Elem>, k: nat, n: nat, begin: int, size: nat)
    requires k < |os| && n <= |os|
  {
    exists j :: 0 <= j < n && Chosen(os, j, begin, size) && Overlap(os[j], os[k])
  }

  lemma OverlapIsShared(x: Elem, y: Elem, begin: int, size: nat)
    requires x.range > 0 && begin <= x.pos < begin + size && y.range > 0 && begin <= y.pos < begin + size
    ensures Overlap(x, y) <==> exists i :: i in Cells(x, begin, size) && i in Cells(y, begin, size)
  {
    var i := (if x.pos < y.pos then y.pos else x.pos) - begin;
    assert Overlap(x, y) ==> i in Cells(x, begin, size) && i in Cells(y, begin, size);
  }

  /**
   * A word overlaps a selected one if and only if one of its cells belongs to a
   * selected word.  With n = k these are the words selected before it, and the
   * cell is then a taken one.
   */
  lemma OverlapsSelectedIff(os: seq<Elem>, k: nat, n: nat, begin: int, size: nat)
    requires k < |os| && n <= |os| && StartsInside(os, begin, size)
    ensures OverlapsSelected(os, k, n, begin, size) <==>
      exists i :: i in Cells(os[k], begin, size) && i in ChosenCells(os, n, begin, size)
  {
    hide Chosen, Overlap, Cells, ChosenCells;
    if j :| 0 <= j < n && Chosen(os, j, begin, size) && Overlap(os[j], os[k]) {
      OverlapIsShared(os[j], os[k], begin, size);
      var i :| i in Cells(os[j], begin, size) && i in Cells(os[k], begin, size);
      InChosenCells(os, n, begin, size, i);
    }
    if i :| i in Cells(os[k], begin, size) && i in ChosenCells(os, n, begin, size) {
      InChosenCells(os, n, begin, size, i);
      var j :| 0 <= j < n && Chosen(os, j, begin, size) && i in Cells(os[j], begin, size);
      OverlapIsShared(os[j], os[k], begin, size);
    }
  }

  /** The word finds its very first cell taken, and so claims nothing. */
  predicate FirstTaken(os: seq<Elem>, k: nat, begin: int, size: nat)
    requires k < |os|
  {
    os[k].pos - begin in Taken(os, k, begin, size)
  }

  predicate RejectedAtOnce(os: seq<Elem>, n: nat, begin: int, size: nat)
    requires n <= |os|
  {
    forall k :: 0 <= k < n && !Chosen(os, k, begin, size) ==> FirstTaken(os, k, begin, size)
  }

  lemma TrailOf(os: seq<Elem>, k: nat, begin: int, size: nat)
    requires k < |os| && StartsInside(os, begin, size)
    ensures var before := Taken(os, k, begin, size); var trail := Trail(before, os[k], begin, size);
      && (Chosen(os, k, begin, size) ==> trail == Cells(os[k], begin, size))
      && (FirstTaken(os, k, begin, size) ==> trail == {})
      && (!FirstTaken(os, k, begin, size) ==> os[k].pos - begin in trail)
  {
    hide Taken;
    var before := Taken(os, k, begin, size);
    if Chosen(os, k, begin, size) {
      forall i | InCell(os[k], begin, size, i) ensures FreeUpTo(before, os[k], begin, i) {
        forall j | os[k].pos - begin <= j <= i ensures j !in before {
          assert j in Cells(os[k], begin, size);
        }
      }
    }
  }

  lemma ChosenAreTaken(os: seq<Elem>, n: nat, begin: int, size: nat)
    requires n <= |os|
    ensures ChosenCells(os, n, begin, size) <= Taken(os, n, begin, size)
  {
    forall i | i in ChosenCells(os, n, begin, size) ensures i in Taken(os, n, begin, size) {
      InChosenCells(os, n, begin, size, i);
      var j :| 0 <= j < n && Chosen(os, j, begin, size) && i in Cells(os[j], begin, size);
      TakenHolds(os, j, n, begin, size);
    }
  }

  /** A cell that a rejected word claims never belongs to a selected one. */
  lemma {:induction false} ClaimedIsLost(os: seq<Elem>, k: nat, n: nat, begin: int, size: nat, i: int)
    requires k < n <= |os| && !Chosen(os, k, begin, size) && StartsInside(os, begin, size)
    requires i in Trail(Taken(os, k, begin, size), os[k], begin, size)
    ensures i in Taken(os, n, begin, size) && i !in ChosenCells(os, n, begin, size)
  {
    hide Trail, Cells, StartsInside;
    if n == k + 1 {
      assert i !in Taken(os, k, begin, size);
      ChosenAreTaken(os, k, begin, size);
    } else {
      ClaimedIsLost(os, k, n - 1, begin, size, i);
    }
  }

  /**
   * The taken cells are exactly those of the selected words if and only if every
   * rejected word found its first cell taken.
   */
  lemma {:induction false} TakenIsSelectedIff(os: seq<Elem>, n: nat, begin: int, size: nat)
    requires n <= |os| && StartsInside(os, begin, size)
    ensures Taken(os, n, begin, size) == ChosenCells(os, n, begin, size) <==> RejectedAtOnce(os, n, begin, size)
  {
    hide Chosen, FirstTaken, Cells, Trail;
    ChosenAreTaken(os, n, begin, size);
    if RejectedAtOnce(os, n, begin, size) {
      if n > 0 {
        assert RejectedAtOnce(os, n - 1, begin, size);
        TakenIsSelectedIff(os, n - 1, begin, size);
        TrailOf(os, n - 1, begin, size);
      }
    } else {
      var k :| 0 <= k < n && !Chosen(os, k, begin, size) && !FirstTaken(os, k, begin, size);
      TrailOf(os, k, begin, size);
      ClaimedIsLost(os, k, n, begin, size, os[k].pos - begin);
    }
  }

  /** If every word rejected before found its first cell taken, a rejected word overlaps a selected one. */
  lemma RejectedOverlapsSelected(os: seq<Elem>, k: nat, begin: int, size: nat)
    requires k < |os| && StartsInside(os, begin, size)
    requires !Chosen(os, k, begin, size) && RejectedAtOnce(os, k, begin, size)
    ensures OverlapsSelected(os, k, k, begin, size)
  {
    hide Taken, ChosenCells, OverlapsSelected, RejectedAtOnce;
    TakenIsSelectedIff(os, k, begin, size);
    OverlapsSelectedIff(os, k, k, begin, size);
  }

  // The text "abcd" with the words "abc", "ab" and "cd".

  function Abc(weight: real, original: real): Elem {
    Elem([97, 98, 99], 0, 3, weight, original)
  }

  function Ab(weight: real, original: real): Elem {
    Elem([97, 98], 0, 2, weight, original)
  }

  function Cd(weight: real, original: real): Elem {
    Elem([99, 100], 2, 2, weight, original)
  }

  /** Hints whose weights are 2, 1 and 3 once they are adjusted. */
  function Abcd(scale: Scale): seq<Elem>
    requires scale(2) > 0.0 && scale(3) > 0.0
  {
    var x, y, z := 2.0 / scale(3), 1.0 / scale(2), 3.0 / scale(2);
    [Abc(x, x), Ab(y, y), Cd(z, z)]
  }

  lemma AdjustedTo(e: Elem, scale: Scale, w: real)
    requires scale(|e.word|) > 0.0 && e.weight == w / scale(|e.word|)
    ensures Adjust(e, scale) == e.(weight := w)
  {
  }

  lemma AbcdAdjusted(scale: Scale)
    requires scale(2) > 0.0 && scale(3) > 0.0
    ensures Adjusted(Abcd(scale), scale) ==
      [Abc(2.0, 2.0 / scale(3)), Ab(1.0, 1.0 / scale(2)), Cd(3.0, 3.0 / scale(2))]
  {
    var h := Abcd(scale);
    assert |h[0].word| == 3 && |h[1].word| == 2 && |h[2].word| == 2;
    AdjustedTo(h[0], scale, 2.0);
    AdjustedTo(h[1], scale, 1.0);
    AdjustedTo(h[2], scale, 3.0);
  }

  lemma InsertBehind(m: seq<Elem>, e: Elem)
    requires m == [] || m[|m| - 1].weight <= e.weight
    ensures InsertByWeight(m, e) == m + [e]
  {
  }

  lemma InsertInFront(x: Elem, e: Elem)
    requires x.weight > e.weight
    ensures InsertByWeight([x], e) == [e, x]
  {
    assert [x][..0] == [];
    InsertBehind([], e);
  }

  /** Three words of which the second is the lightest and the third the heaviest. */
  lemma Ranked(x: Elem, y: Elem, z: Elem)
    requires y.weight < x.weight < z.weight
    ensures ByWeight([x, y, z]) == [y, x, z]
  {
    hide InsertByWeight, ByWeight;
    InsertBehind([], x);
    InsertInFront(x, y);
    InsertBehind([y, x], z);
    ByWeightSnoc([], x);
    ByWeightSnoc([x], y);
    ByWeightSnoc([x, y], z);
    assert [] + [x] == [x] && [x] + [y] == [x, y] && [x, y] + [z] == [x, y, z];
  }

  lemma AbcdConsidered(scale: Scale)
    requires scale(2) > 0.0 && scale(3) > 0.0
    ensures Considered(Abcd(scale), scale) ==
      [Cd(3.0, 3.0 / scale(2)), Abc(2.0, 2.0 / scale(3)), Ab(1.0, 1.0 / scale(2))]
    ensures Sorted(Abcd(scale)) && PlaceholderSize(Abcd(scale)) == 5
  {
    hide ByWeight, Adjusted;
    AbcdAdjusted(scale);
    Ranked(Abc(2.0, 2.0 / scale(3)), Ab(1.0, 1.0 / scale(2)), Cd(3.0, 3.0 / scale(2)));
  }

  lemma ByWeightSnoc(xs: seq<Elem>, x: Elem)
    ensures ByWeight([]) == [] && ByWeight(xs + [x]) == InsertByWeight(ByWeight(xs), x)
  {
    assert (xs + [x])[..|xs|] == xs;
  }

  /** "abc" finds its third cell taken and keeps the first two, so that "ab" finds them taken. */
  lemma AbcdPlaced(cd: Elem, abc: Elem, ab: Elem)
    requires cd.pos == 2 && cd.range == 2 && abc.pos == 0 && abc.range == 3 && ab.pos == 0 && ab.range == 2
    ensures var os := [cd, abc, ab];
      && Chosen(os, 0, 0, 5) && !Chosen(os, 1, 0, 5) && !Chosen(os, 2, 0, 5)
      && !FirstTaken(os, 1, 0, 5)
  {
    var os := [cd, abc, ab];
    var t1, t2 := Taken(os, 1, 0, 5), Taken(os, 2, 0, 5);
    assert Taken(os, 0, 0, 5) == {};
    assert t1 == Trail({}, cd, 0, 5);
    assert 2 in t1 && 2 in Cells(abc, 0, 5) && 0 !in t1;
    assert InCell(abc, 0, 5, 0) && FreeUpTo(t1, abc, 0, 0);
    assert t2 == t1 + Trail(t1, abc, 0, 5);
    assert 0 in t2 && 0 in Cells(ab, 0, 5);
  }

  /**
   * Without that condition it need not, however words are weighted by length:
   * "abc" is rejected because of "cd" but keeps the cells of "ab", and "ab" is
   * rejected although it overlaps no selected word.  The condition is not
   * necessary either: "abc" itself does overlap a selected word.
   */
  lemma RejectedByRejected(scale: Scale)
    requires scale(2) > 0.0 && scale(3) > 0.0
    ensures var h := Abcd(scale);
      Sorted(h) &&
      var os, size := Considered(h, scale), PlaceholderSize(h);
      && |os| == 3 && !Chosen(os, 1, 0, size) && !Chosen(os, 2, 0, size)
      && !RejectedAtOnce(os, 2, 0, size)
      && OverlapsSelected(os, 1, 2, 0, size) && !OverlapsSelected(os, 2, |os|, 0, size)
  {
    hide Considered, Chosen, FirstTaken;
    AbcdConsidered(scale);
    var os := Considered(Abcd(scale), scale);
    AbcdPlaced(os[0], os[1], os[2]);
    assert os == [os[0], os[1], os[2]];
  }

  class ParrotWord {
    const scale: Scale
    var wordHintSeq: seq<Elem>
    var wordSeqTopSelected: seq<Elem>

    constructor (scale: Scale, hints: seq<Elem>)
      ensures this.scale == scale && wordHintSeq == hints && wordSeqTopSelected == []
    {
      this.scale, wordHintSeq, wordSeqTopSelected := scale, hints, [];
    }

    /** The first loop: the words with adjusted weights, ordered by weight. */
    method RankByWeight() returns (weightElem: seq<Elem>)
      ensures weightElem == ByWeight(Adjusted(wordHintSeq, scale))
    {
      hide InsertByWeight;
      ghost var all := Adjusted(wordHintSeq, scale);
      weightElem := [];
      var i := 0;
      while i < |wordHintSeq|
        invariant 0 <= i <= |wordHintSeq|
        invariant weightElem == ByWeight(all[..i])
      {
        var elemNew := Adjust(wordHintSeq[i], scale);
        assert all[..i + 1][..i] == all[..i] && all[..i + 1][i] == elemNew;
        weightElem := InsertByWeight(weightElem, elemNew);
        i := i + 1;
      }
      assert all[..i] == all;
    }

    /** Claims cells for one word, up to the first that is taken. */
    static method Claim(placeholder: array<bool>, e: Elem, begin: int, ghost taken: set<int>)
      returns (hasPlaceFlag: bool)
      requires begin <= e.pos && 0 < e.range
      requires forall i :: 0 <= i < placeholder.Length ==> (placeholder[i] <==> i in taken)
      requires forall i :: i in taken ==> 0 <= i < placeholder.Length
      modifies placeholder
      ensures hasPlaceFlag <==> Cells(e, begin, placeholder.Length) !! taken
      ensures forall i :: 0 <= i < placeholder.Length ==>
        (placeholder[i] <==> i in taken + Trail(taken, e, begin, placeholder.Length))
    {
      var offsetWord := e.pos - begin;
      hasPlaceFlag := true;
      var i := offsetWord;
      while i < offsetWord + e.range
        invariant offsetWord <= i <= offsetWord + e.range
        invariant hasPlaceFlag
        invariant forall k :: offsetWord <= k < i && k < placeholder.Length ==> k !in taken
        invariant forall k :: 0 <= k < placeholder.Length ==>
          (placeholder[k] <==> k in taken || offsetWord <= k < i)
      {
        if i < placeholder.Length {
          if placeholder[i] {
            assert InCell(e, begin, placeholder.Length, i);
            assert forall k :: InCell(e, begin, placeholder.Length, k) ==> (FreeUpTo(taken, e, begin, k) <==> k < i);
            return false;
          } else {
            placeholder[i] := true;
          }
        }
        i := i + 1;
      }
    }

    /** One round of the placement loop, on the word `e` considered as number `k`. */
    method Consider(placeholder: array<bool>, e: Elem, begin: int,
                    ghost os: seq<Elem>, ghost k: nat, ghost before: seq<Elem>)
      requires k < |os| && e == os[k] && StartsInside(os, begin, placeholder.Length)
      requires forall i :: 0 <= i < placeholder.Length ==>
        (placeholder[i] <==> i in Taken(os, k, begin, placeholder.Length))
      requires wordSeqTopSelected == InsertAll(before, ChosenOnes(os, k, begin, placeholder.Length))
      modifies placeholder, `wordSeqTopSelected
      ensures forall i :: 0 <= i < placeholder.Length ==>
        (placeholder[i] <==> i in Taken(os, k + 1, begin, placeholder.Length))
      ensures wordSeqTopSelected == InsertAll(before, ChosenOnes(os, k + 1, begin, placeholder.Length))
    {
      hide InsertAll, ChosenOnes, Trail, StartsInside, Taken, Cells;
      TakenInside(os, k, begin, placeholder.Length);
      ChosenNext(os, k, begin, placeholder.Length);
      var hasPlaceFlag := Claim(placeholder, e, begin, Taken(os, k, begin, placeholder.Length));
      if hasPlaceFlag {
        InsertAllSnoc(before, ChosenOnes(os, k, begin, placeholder.Length), e);
        wordSeqTopSelected := Insert(wordSeqTopSelected, e);
      } else {
        assert ChosenOnes(os, k + 1, begin, placeholder.Length) == ChosenOnes(os, k, begin, placeholder.Length);
      }
    }

    /** The placement loop over the words by falling weight. */
    method PlaceAll(weightElem: seq<Elem>, begin: int, size: nat)
      requires StartsInside(Descending(weightElem), begin, size)
      modifies `wordSeqTopSelected
      ensures wordSeqTopSelected ==
        InsertAll(old(wordSeqTopSelected), ChosenOnes(Descending(weightElem), |weightElem|, begin, size))
    {
      hide InsertAll, ChosenOnes, StartsInside, Taken;
      ghost var os := Descending(weightElem);
      NothingChosen(os, begin, size, wordSeqTopSelected);
      var placeholder := new bool[size](_ => false);
      var k := 0;
      while k < |weightElem|
        invariant 0 <= k <= |weightElem|
        invariant forall i :: 0 <= i < size ==> (placeholder[i] <==> i in Taken(os, k, begin, size))
        invariant wordSeqTopSelected == InsertAll(old(wordSeqTopSelected), ChosenOnes(os, k, begin, size))
      {
        Consider(placeholder, weightElem[|weightElem| - 1 - k], begin, os, k, old(wordSeqTopSelected));
        k := k + 1;
      }
    }

    /**
     * `calcPrediction`: considers the words by falling weight and selects those
     * whose cells are all free; no two of them overlap, and the heaviest is among
     * them.
     */
    method CalcPrediction()
      requires Sorted(wordHintSeq) && forall k :: 0 <= k < |wordHintSeq| ==> wordHintSeq[k].range > 0
      modifies `wordSeqTopSelected
      ensures wordHintSeq == [] ==> wordSeqTopSelected == old(wordSeqTopSelected)
      ensures wordHintSeq != [] ==>
        var os := Considered(wordHintSeq, scale);
        wordSeqTopSelected ==
          InsertAll(old(wordSeqTopSelected), ChosenOnes(os, |os|, wordHintSeq[0].pos, PlaceholderSize(wordHintSeq)))
      ensures old(wordSeqTopSelected) == [] && wordHintSeq != [] ==>
        && Apart(wordSeqTopSelected)
        && Considered(wordHintSeq, scale) != [] && Considered(wordHintSeq, scale)[0] in wordSeqTopSelected
    {
      if wordHintSeq == [] {
        return;
      }
      hide InsertAll, ChosenOnes, Adjusted, StartsInside, ByWeight, Descending, Apart;
      var weightElem := RankByWeight();
      var begin, size := wordHintSeq[0].pos, PlaceholderSize(wordHintSeq);
      ConsideredOrder(wordHintSeq, scale);
      PlaceAll(weightElem, begin, size);
      PlacementSound(Descending(weightElem), |weightElem|, begin, size);
    }
  }

  /** The words in the order in which they are considered. */
  function Considered(h: seq<Elem>, scale: Scale): seq<Elem> {
    Descending(ByWeight(Adjusted(h, scale)))
  }

  /** All words, by falling adjusted weight, each starting inside the placeholder. */
  lemma ConsideredOrder(h: seq<Elem>, scale: Scale)
    requires h != [] && Sorted(h) && forall k :: 0 <= k < |h| ==> h[k].range > 0
    ensures var os := Considered(h, scale);
      && |os| == |h| && multiset(os) == multiset(Adjusted(h, scale))
      && (forall a, b :: 0 <= a < b < |os| ==> os[a].weight >= os[b].weight)
      && StartsInside(os, h[0].pos, PlaceholderSize(h))
  {
    hide Adjusted, StartsInside, ByWeight;
    var w := ByWeight(Adjusted(h, scale));
    ByWeightSorts(Adjusted(h, scale));
    DescendingOrder(w);
    PlacesInside(h, scale, w);
    assert |multiset(w)| == |multiset(Adjusted(h, scale))|;
  }

  lemma NothingChosen(os: seq<Elem>, begin: int, size: nat, m: seq<Elem>)
    ensures Taken(os, 0, begin, size) == {} && ChosenOnes(os, 0, begin, size) == []
    ensures InsertAll(m, ChosenOnes(os, 0, begin, size)) == m
  {
  }

  lemma ChosenNext(os: seq<Elem>, k: nat, begin: int, size: nat)
    requires k < |os| && StartsInside(os, begin, size)
    ensures os[k].range > 0 && begin <= os[k].pos
    ensures Taken(os, k + 1, begin, size) ==
      Taken(os, k, begin, size) + Trail(Taken(os, k, begin, size), os[k], begin, size)
    ensures ChosenOnes(os, k + 1, begin, size) == ChosenOnes(os, k, begin, size)
      + (if Cells(os[k], begin, size) !! Taken(os, k, begin, size) then [os[k]] else [])
  {
  }

  lemma TakenInside(os: seq<Elem>, k: nat, begin: int, size: nat)
    requires k <= |os| && StartsInside(os, begin, size)
    ensures forall i :: i in Taken(os, k, begin, size) ==> 0 <= i < size
  {
    forall i | i in Taken(os, k, begin, size) ensures 0 <= i < size {
      var j := TakenFrom(os, k, begin, size, i);
    }
  }

  /** place_length + 1 */
  function PlaceholderSize(h: seq<Elem>): nat
    requires h != [] && Sorted(h) && h[|h| - 1].range > 0
  {
    h[|h| - 1].pos - h[0].pos + h[|h| - 1].range + 1
  }

  /** Iteration from `rbegin` to `rend`. */
  function Descending(m: seq<Elem>): (r: seq<Elem>)
    ensures |r| == |m|
  {
    seq(|m|, k requires 0 <= k < |m| => m[|m| - 1 - k])
  }

  lemma {:induction false} DescendingAdds(m: seq<Elem>)
    ensures multiset(Descending(m)) == multiset(m)
  {
    if m != [] {
      var rest, last := m[..|m| - 1], m[|m| - 1];
      DescendingAdds(rest);
      assert Descending(m) == [last] + Descending(rest);
      assert m == rest + [last];
    }
  }

  lemma DescendingOrder(m: seq<Elem>)
    requires Rising(m)
    ensures multiset(Descending(m)) == multiset(m)
    ensures forall a, b :: 0 <= a < b < |m| ==> Descending(m)[a].weight >= Descending(m)[b].weight
  {
    DescendingAdds(m);
  }

  lemma PlacesInside(h: seq<Elem>, scale: Scale, weightElem: seq<Elem>)
    requires h != [] && Sorted(h) && forall k :: 0 <= k < |h| ==> h[k].range > 0
    requires multiset(weightElem) == multiset(Adjusted(h, scale))
    ensures StartsInside(Descending(weightElem), h[0].pos, PlaceholderSize(h))
  {
    var os := Descending(weightElem);
    forall k | 0 <= k < |os| ensures os[k].range > 0 && h[0].pos <= os[k].pos < h[0].pos + PlaceholderSize(h) {
      assert os[k] in multiset(weightElem);
      assert os[k] in Adjusted(h, scale);
      var m :| 0 <= m < |h| && Adjusted(h, scale)[m] == os[k];
      assert h[0].pos <= h[m].pos <= h[|h| - 1].pos;
    }
  }

  /** No two of the words overlap. */
  predicate Apart(m: seq<Elem>) {
    forall i, j :: 0 <= i < j < |m| ==> !Overlap(m[i], m[j])
  }

  lemma InsertIn(m: seq<Elem>, e: Elem, x: Elem)
    ensures x in Insert(m, e) <==> x == e || x in m
  {
    InsertAdds(m, e);
    assert x in Insert(m, e) <==> x in multiset(Insert(m, e));
    assert x in m <==> x in multiset(m);
  }

  lemma {:induction false} InsertApart(m: seq<Elem>, e: Elem)
    requires Apart(m) && forall x :: x in m ==> !Overlap(x, e)
    ensures Apart(Insert(m, e))
  {
    if m != [] && m[|m| - 1].pos > e.pos {
      var rest, last := m[..|m| - 1], m[|m| - 1];
      InsertApart(rest, e);
      var r := Insert(rest, e);
      forall i | 0 <= i < |r| ensures !Overlap(r[i], last) {
        InsertIn(rest, e, r[i]);
        assert last in m;
      }
    }
  }

  /** The words selected among the first `k`, as they are filed. */
  function SelectedOf(os: seq<Elem>, k: nat, begin: int, size: nat): seq<Elem>
    requires k <= |os|
  {
    InsertAll([], ChosenOnes(os, k, begin, size))
  }

  lemma SelectedNext(os: seq<Elem>, k: nat, begin: int, size: nat)
    requires k < |os|
    ensures SelectedOf(os, 0, begin, size) == []
    ensures SelectedOf(os, k + 1, begin, size) ==
      if Chosen(os, k, begin, size) then Insert(SelectedOf(os, k, begin, size), os[k])
      else SelectedOf(os, k, begin, size)
  {
    if Chosen(os, k, begin, size) {
      InsertAllSnoc([], ChosenOnes(os, k, begin, size), os[k]);
    } else {
      assert ChosenOnes(os, k + 1, begin, size) == ChosenOnes(os, k, begin, size);
    }
  }

  lemma AmongNext(os: seq<Elem>, k: nat, begin: int, size: nat, x: Elem)
    requires k < |os|
    ensures ChosenAmong(os, k + 1, begin, size, x) <==>
      ChosenAmong(os, k, begin, size, x) || (Chosen(os, k, begin, size) && x == os[k])
  {
    hide Chosen;
  }

  lemma EarlierApart(os: seq<Elem>, k: nat, begin: int, size: nat, x: Elem)
    requires k < |os| && StartsInside(os, begin, size)
    requires ChosenAmong(os, k, begin, size, x) && Chosen(os, k, begin, size)
    ensures !Overlap(x, os[k])
  {
    hide Chosen, Overlap, StartsInside;
    var j :| 0 <= j < k && Chosen(os, j, begin, size) && os[j] == x;
    ChosenDisjoint(os, j, k, begin, size);
  }

  /** What a selection `sel` after `k` words is like. */
  ghost predicate Sound(sel: seq<Elem>, os: seq<Elem>, k: nat, begin: int, size: nat)
    requires k <= |os|
  {
    && Apart(sel)
    && (forall x :: x in sel <==> ChosenAmong(os, k, begin, size, x))
    && (k > 0 ==> os[0] in sel)
  }

  lemma StillSound(sel: seq<Elem>, os: seq<Elem>, k: nat, begin: int, size: nat)
    requires k < |os| && StartsInside(os, begin, size) && Sound(sel, os, k, begin, size)
    requires k == 0 ==> Chosen(os, 0, begin, size)
    ensures Sound(if Chosen(os, k, begin, size) then Insert(sel, os[k]) else sel, os, k + 1, begin, size)
  {
    hide Chosen, Overlap, StartsInside, ChosenAmong, Apart, Insert;
    var e := os[k];
    var next := if Chosen(os, k, begin, size) then Insert(sel, e) else sel;
    forall x ensures x in next <==> ChosenAmong(os, k + 1, begin, size, x) {
      InsertIn(sel, e, x);
      AmongNext(os, k, begin, size, x);
    }
    InsertIn(sel, e, os[0]);
    if Chosen(os, k, begin, size) {
      forall x | x in sel ensures !Overlap(x, e) {
        EarlierApart(os, k, begin, size, x);
      }
      InsertApart(sel, e);
    }
  }

  /**
   * What a placement selects: words that were free when considered, no two of
   * them overlapping, the heaviest word among them.
   */
  lemma {:induction false} PlacementSound(os: seq<Elem>, k: nat, begin: int, size: nat)
    requires k <= |os| && StartsInside(os, begin, size)
    ensures Sound(SelectedOf(os, k, begin, size), os, k, begin, size)
  {
    hide SelectedOf, Chosen, StartsInside, Sound, Insert;
    if k == 0 {
      NothingSelected(os, begin, size);
    } else {
      PlacementSound(os, k - 1, begin, size);
      SelectedNext(os, k - 1, begin, size);
      FirstChosen(os, begin, size);
      StillSound(SelectedOf(os, k - 1, begin, size), os, k - 1, begin, size);
    }
  }

  predicate ChosenAmong(os: seq<Elem>, k: nat, begin: int, size: nat, x: Elem)
    requires k <= |os|
  {
    exists j :: 0 <= j < k && Chosen(os, j, begin, size) && os[j] == x
  }

  lemma NothingSelected(os: seq<Elem>, begin: int, size: nat)
    ensures SelectedOf(os, 0, begin, size) == [] && Sound([], os, 0, begin, size)
  {
  }

  /** Nothing is taken when the heaviest word is considered. */
  lemma FirstChosen(os: seq<Elem>, begin: int, size: nat)
    ensures os != [] ==> Chosen(os, 0, begin, size)
  {
  }
}
