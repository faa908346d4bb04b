/**
 * The dictionary scan: which windows of consecutive pieces a sentence has, and
 * which of them are dictionary words.
 */
module DictionaryScan {
  import opened Bytes
  import opened WordElements

  /** gWordLength: the longest window, in pieces. */
  const WINDOW_MAX: nat := 32

  /** The words of a language with their weights. */
  type Dictionary = map<Word, real>

  /** `getDoublePred`: -1 for a word the dictionary lacks. */
  function Lookup(dict: Dictionary, w: Word): real {
    if w in dict then dict[w] else -1.0
  }

  /** The offset of piece `i` in the text. */
  function Offset(pieces: seq<Word>, i: nat): nat
    requires i <= |pieces|
  {
    if i == 0 then 0 else Offset(pieces, i - 1) + |pieces[i - 1]|
  }

  /** The pieces from `i` up to `j`, joined. */
  function Window(pieces: seq<Word>, i: nat, j: nat): Word
    requires i <= j <= |pieces|
    decreases j - i
  {
    if i == j then [] else pieces[i] + Window(pieces, i + 1, j)
  }

  function WindowElem(pieces: seq<Word>, dict: Dictionary, i: nat, j: nat): Elem
    requires i <= j <= |pieces|
  {
    var w := Window(pieces, i, j);
    Elem(w, Offset(pieces, i), |w|, Lookup(dict, w), Lookup(dict, w))
  }

  /** Only words with a positive weight are recorded. */
  function Kept(x: Elem): seq<Elem> {
    if x.weight > 0.0 then [x] else []
  }

  /** The words among the windows of at most `l` pieces that end in front of piece `j`. */
  function HitsAt(pieces: seq<Word>, dict: Dictionary, j: nat, l: nat): seq<Elem>
    requires l <= j <= |pieces|
  {
    if l == 0 then []
    else HitsAt(pieces, dict, j, l - 1) + Kept(WindowElem(pieces, dict, j - l, j))
  }

  function Longest(j: nat): (l: nat)
    ensures l <= j && l <= WINDOW_MAX
  {
    if j < WINDOW_MAX then j else WINDOW_MAX
  }

  /** The words among the windows of the first `n` pieces, in scanning order. */
  function Hits(pieces: seq<Word>, dict: Dictionary, n: nat): seq<Elem>
    requires n <= |pieces|
  {
    if n == 0 then [] else Hits(pieces, dict, n - 1) + HitsAt(pieces, dict, n, Longest(n))
  }

  /** The hits before piece `e`, and the `l` shortest windows that end with it. */
  function Found(pieces: seq<Word>, dict: Dictionary, e: nat, l: nat): seq<Elem>
    requires e < |pieces| && l <= e + 1
  {
    Hits(pieces, dict, e) + HitsAt(pieces, dict, e + 1, l)
  }

  lemma FoundNext(pieces: seq<Word>, dict: Dictionary, e: nat, l: nat)
    requires e < |pieces| && l <= e
    ensures Found(pieces, dict, e, l + 1) == Found(pieces, dict, e, l) + Kept(WindowElem(pieces, dict, e - l, e + 1))
  {
  }

  lemma FoundAll(pieces: seq<Word>, dict: Dictionary, e: nat)
    requires e < |pieces|
    ensures Found(pieces, dict, e, 0) == Hits(pieces, dict, e)
    ensures Found(pieces, dict, e, Longest(e + 1)) == Hits(pieces, dict, e + 1)
  {
  }

  /** `x` is a dictionary word: the window `i..j`, of 1..`l` pieces. */
  predicate IsHit(pieces: seq<Word>, dict: Dictionary, i: nat, j: nat, l: nat, x: Elem) {
    i < j <= |pieces| && j - i <= l && x == WindowElem(pieces, dict, i, j) && x.weight > 0.0
  }

  predicate NonEmptyPieces(pieces: seq<Word>) {
    forall i :: 0 <= i < |pieces| ==> |pieces[i]| > 0
  }

  lemma {:induction false} WindowIsJoin(pieces: seq<Word>, i: nat, j: nat)
    requires i <= j <= |pieces|
    ensures Window(pieces, i, j) == Join(pieces[i..j])
    decreases j - i
  {
    if i < j {
      WindowIsJoin(pieces, i + 1, j);
      assert pieces[i..j][1..] == pieces[i + 1..j];
    }
  }

  lemma {:induction false} OffsetSplit(pieces: seq<Word>, i: nat, j: nat)
    requires i <= j <= |pieces|
    ensures Offset(pieces, j) == Offset(pieces, i) + |Window(pieces, i, j)|
    decreases j - i
  {
    if i < j {
      OffsetSplit(pieces, i + 1, j);
    }
  }

  lemma {:induction false} WindowSplit(pieces: seq<Word>, i: nat, j: nat, k: nat)
    requires i <= j <= k <= |pieces|
    ensures Window(pieces, i, k) == Window(pieces, i, j) + Window(pieces, j, k)
    decreases j - i
  {
    if i < j {
      WindowSplit(pieces, i + 1, j, k);
    }
  }

  /** The text of a sentence: its pieces, joined. */
  function Text(pieces: seq<Word>): Word {
    Window(pieces, 0, |pieces|)
  }

  /** A window is the slice of the text between its offsets. */
  lemma WindowIsSlice(pieces: seq<Word>, i: nat, j: nat)
    requires i <= j <= |pieces|
    ensures Offset(pieces, i) + |Window(pieces, i, j)| <= |Text(pieces)|
    ensures Text(pieces)[Offset(pieces, i)..Offset(pieces, i) + |Window(pieces, i, j)|] == Window(pieces, i, j)
  {
    WindowSplit(pieces, 0, i, |pieces|);
    WindowSplit(pieces, i, j, |pieces|);
    OffsetSplit(pieces, 0, i);
    var a, w, b := Window(pieces, 0, i), Window(pieces, i, j), Window(pieces, j, |pieces|);
    assert Text(pieces) == a + w + b;
  }

  lemma {:induction false} OffsetsGrow(pieces: seq<Word>, i: nat, j: nat)
    requires NonEmptyPieces(pieces) && i < j <= |pieces|
    ensures Offset(pieces, i) < Offset(pieces, j)
    decreases j - i
  {
    if i + 1 < j {
      OffsetsGrow(pieces, i, j - 1);
    }
  }

  lemma {:induction false} HitsAtExactly(pieces: seq<Word>, dict: Dictionary, j: nat, l: nat, x: Elem)
    requires l <= j <= |pieces|
    ensures x in HitsAt(pieces, dict, j, l) <==> exists i: nat :: IsHit(pieces, dict, i, j, l, x)
  {
    if l > 0 {
      HitsAtExactly(pieces, dict, j, l - 1, x);
      var y := WindowElem(pieces, dict, j - l, j);
      hide WindowElem, Window, Offset, Lookup;
      if x in HitsAt(pieces, dict, j, l - 1) {
        var i: nat :| IsHit(pieces, dict, i, j, l - 1, x);
        assert IsHit(pieces, dict, i, j, l, x);
      }
      if x in Kept(y) {
        assert IsHit(pieces, dict, j - l, j, l, x);
      }
      forall i: nat | IsHit(pieces, dict, i, j, l, x) ensures x in HitsAt(pieces, dict, j, l) {
        assert i == j - l || IsHit(pieces, dict, i, j, l - 1, x);
      }
    }
  }

  /** Soundness: every hit is a window of 1..32 consecutive pieces with positive weight. */
  lemma {:induction false} HitsSound(pieces: seq<Word>, dict: Dictionary, n: nat, x: Elem) returns (i: nat, j: nat)
    requires n <= |pieces| && x in Hits(pieces, dict, n)
    ensures j <= n && IsHit(pieces, dict, i, j, WINDOW_MAX, x)
  {
    if x in HitsAt(pieces, dict, n, Longest(n)) {
      HitsAtExactly(pieces, dict, n, Longest(n), x);
      j := n;
      i :| IsHit(pieces, dict, i, j, Longest(n), x);
    } else {
      i, j := HitsSound(pieces, dict, n - 1, x);
    }
  }

  /** Completeness: every such window is a hit. */
  lemma {:induction false} HitsComplete(pieces: seq<Word>, dict: Dictionary, n: nat, i: nat, j: nat, x: Elem)
    requires j <= n <= |pieces| && IsHit(pieces, dict, i, j, WINDOW_MAX, x)
    ensures x in Hits(pieces, dict, n)
  {
    hide WindowElem, Window, Offset, HitsAt;
    if j == n {
      assert IsHit(pieces, dict, i, j, Longest(n), x);
      HitsAtExactly(pieces, dict, n, Longest(n), x);
    } else {
      HitsComplete(pieces, dict, n - 1, i, j, x);
    }
  }

  lemma HitCovers(pieces: seq<Word>, dict: Dictionary, i: nat, j: nat)
    requires NonEmptyPieces(pieces) && i < j <= |pieces|
    ensures Covers(WindowElem(pieces, dict, i, j), Text(pieces))
  {
    WindowIsSlice(pieces, i, j);
    OffsetsGrow(pieces, i, j);
    OffsetSplit(pieces, i, j);
  }

  /** A window is determined by its offset and its length. */
  lemma PlaceIsWindow(pieces: seq<Word>, dict: Dictionary, i: nat, j: nat, i': nat, j': nat)
    requires NonEmptyPieces(pieces) && i < j <= |pieces| && i' < j' <= |pieces|
    requires WindowElem(pieces, dict, i, j).pos == WindowElem(pieces, dict, i', j').pos
    requires WindowElem(pieces, dict, i, j).range == WindowElem(pieces, dict, i', j').range
    ensures i == i' && j == j'
  {
    OffsetSplit(pieces, i, j);
    OffsetSplit(pieces, i', j');
    if i < i' { OffsetsGrow(pieces, i, i'); }
    if i' < i { OffsetsGrow(pieces, i', i); }
    if j < j' { OffsetsGrow(pieces, j, j'); }
    if j' < j { OffsetsGrow(pieces, j', j); }
  }

  lemma {:induction false} HitsAtDistinct(pieces: seq<Word>, dict: Dictionary, j: nat, l: nat)
    requires NonEmptyPieces(pieces) && l <= j <= |pieces|
    ensures DistinctPlaces(HitsAt(pieces, dict, j, l))
  {
    if l > 0 {
      HitsAtDistinct(pieces, dict, j, l - 1);
      var hs, x := HitsAt(pieces, dict, j, l - 1), WindowElem(pieces, dict, j - l, j);
      forall k | 0 <= k < |hs| ensures hs[k].pos != x.pos || hs[k].range != x.range {
        HitsAtExactly(pieces, dict, j, l - 1, hs[k]);
        var i: nat :| IsHit(pieces, dict, i, j, l - 1, hs[k]);
        if hs[k].pos == x.pos && hs[k].range == x.range {
          PlaceIsWindow(pieces, dict, i, j, j - l, j);
        }
      }
    }
  }

  lemma HitsAtSound(pieces: seq<Word>, dict: Dictionary, j: nat, x: Elem) returns (i: nat)
    requires j <= |pieces| && x in HitsAt(pieces, dict, j, Longest(j))
    ensures IsHit(pieces, dict, i, j, WINDOW_MAX, x)
  {
    HitsAtExactly(pieces, dict, j, Longest(j), x);
    i :| IsHit(pieces, dict, i, j, Longest(j), x);
  }

  lemma HitsApart(pieces: seq<Word>, dict: Dictionary, n: nat, x: Elem, y: Elem)
    requires NonEmptyPieces(pieces) && 0 < n <= |pieces|
    requires x in Hits(pieces, dict, n - 1) && y in HitsAt(pieces, dict, n, Longest(n))
    ensures x.pos != y.pos || x.range != y.range
  {
    var i, j := HitsSound(pieces, dict, n - 1, x);
    var i' := HitsAtSound(pieces, dict, n, y);
    if x.pos == y.pos && x.range == y.range {
      PlaceIsWindow(pieces, dict, i, j, i', n);
    }
  }

  /** Every hit is recorded once: no two hits have the same place. */
  lemma {:induction false} HitsDistinct(pieces: seq<Word>, dict: Dictionary, n: nat)
    requires NonEmptyPieces(pieces) && n <= |pieces|
    ensures DistinctPlaces(Hits(pieces, dict, n))
  {
    if n > 0 {
      HitsDistinct(pieces, dict, n - 1);
      HitsAtDistinct(pieces, dict, n, Longest(n));
      var a, b := Hits(pieces, dict, n - 1), HitsAt(pieces, dict, n, Longest(n));
      forall k, m | 0 <= k < |a| && 0 <= m < |b| ensures a[k].pos != b[m].pos || a[k].range != b[m].range {
        HitsApart(pieces, dict, n, a[k], b[m]);
      }
    }
  }

  /** Places stay distinct when the same elements are listed in another order. */
  lemma DistinctReordered(a: seq<Elem>, b: seq<Elem>)
    requires DistinctPlaces(a) && multiset(a) == multiset(b)
    ensures DistinctPlaces(b)
  {
    forall i, j | 0 <= i < j < |b| ensures b[i].pos != b[j].pos || b[i].range != b[j].range {
      if b[i].pos == b[j].pos && b[i].range == b[j].range {
        assert b[i] in multiset(a) && b[j] in multiset(a);
        var k :| 0 <= k < |a| && a[k] == b[i];
        var m :| 0 <= m < |a| && a[m] == b[j];
        assert k == m;
        Twice(b, i, j);
        Once(a, k);
      }
    }
  }

  lemma Twice(s: seq<Elem>, i: nat, j: nat)
    requires i < j < |s| && s[i] == s[j]
    ensures multiset(s)[s[i]] >= 2
  {
    assert s == s[..i] + [s[i]] + s[i + 1..j] + [s[j]] + s[j + 1..];
  }

  lemma Once(s: seq<Elem>, k: nat)
    requires k < |s| && forall m :: 0 <= m < |s| && m != k ==> s[m] != s[k]
    ensures multiset(s)[s[k]] == 1
  {
    assert s == s[..k] + [s[k]] + s[k + 1..];
    assert s[k] !in s[..k] && s[k] !in s[k + 1..];
    assert multiset(s) == multiset(s[..k]) + multiset{s[k]} + multiset(s[k + 1..]);
  }
}
