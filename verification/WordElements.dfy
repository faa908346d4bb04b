/** Dictionary words placed in a text, and the multimaps that hold them by position. */
module WordElements {
  import opened Bytes

  /** `WordElement`: the word, where it starts, its length, and its weights. */
  datatype Elem = Elem(word: Word, pos: int, range: int, weight: real, orig: real) {
    function End(): int {
      pos + range
    }
  }

  /** A `multimap<int, WordElement>` keyed by position, in iteration order. */
  predicate Sorted(m: seq<Elem>) {
    forall i, j :: 0 <= i < j < |m| ==> m[i].pos <= m[j].pos
  }

  /** `insert`: behind every element whose key is not greater. */
  function Insert(m: seq<Elem>, e: Elem): seq<Elem> {
    if m == [] || m[|m| - 1].pos <= e.pos then m + [e]
    else Insert(m[..|m| - 1], e) + [m[|m| - 1]]
  }

  lemma {:induction false} InsertAdds(m: seq<Elem>, e: Elem)
    ensures multiset(Insert(m, e)) == multiset(m) + multiset{e}
  {
    if m != [] && m[|m| - 1].pos > e.pos {
      InsertAdds(m[..|m| - 1], e);
      assert m == m[..|m| - 1] + [m[|m| - 1]];
    }
  }

  lemma {:induction false} InsertKeeps(m: seq<Elem>, e: Elem)
    requires Sorted(m)
    ensures Sorted(Insert(m, e))
    ensures forall x :: x in Insert(m, e) ==> x == e || x in m
  {
    if m != [] && m[|m| - 1].pos > e.pos {
      var k := |m| - 1;
      InsertKeeps(m[..k], e);
      var r := Insert(m[..k], e);
      forall i | 0 <= i < |r| ensures r[i].pos <= m[k].pos {
        assert r[i] in r;
      }
    }
  }

  /** An element that belongs between `a` and `b` is inserted there. */
  lemma {:induction false} InsertBetween(a: seq<Elem>, e: Elem, b: seq<Elem>)
    requires a == [] || a[|a| - 1].pos <= e.pos
    requires forall i :: 0 <= i < |b| ==> b[i].pos > e.pos
    ensures Insert(a + b, e) == a + [e] + b
  {
    if b == [] {
      assert a + b == a;
    } else {
      var c := b[..|b| - 1];
      InsertBetween(a, e, c);
      assert (a + b)[..|a + b| - 1] == a + c;
      assert b == c + [b[|b| - 1]];
    }
  }

  /** An element that belongs at the end is appended. */
  lemma InsertLast(a: seq<Elem>, e: Elem)
    requires a == [] || a[|a| - 1].pos <= e.pos
    ensures Insert(a, e) == a + [e]
  {
  }

  /** The element stands for the slice of the text that it covers. */
  predicate Covers(e: Elem, text: Word) {
    && 0 <= e.pos && 0 < e.range && e.End() <= |text|
    && e.word == text[e.pos..e.End()]
  }

  predicate AllCover(m: seq<Elem>, text: Word) {
    forall i :: 0 <= i < |m| ==> Covers(m[i], text)
  }

  /** No two elements have the same place (and so the same word). */
  predicate DistinctPlaces(m: seq<Elem>) {
    forall i, j :: 0 <= i < j < |m| ==> m[i].pos != m[j].pos || m[i].range != m[j].range
  }

  /** `insert` of several elements, one after the other. */
  function InsertAll(m: seq<Elem>, xs: seq<Elem>): seq<Elem> {
    if xs == [] then m else Insert(InsertAll(m, xs[..|xs| - 1]), xs[|xs| - 1])
  }

  lemma InsertAllSnoc(m: seq<Elem>, xs: seq<Elem>, x: Elem)
    ensures InsertAll(m, xs + [x]) == Insert(InsertAll(m, xs), x)
  {
    assert (xs + [x])[..|xs|] == xs;
  }

  lemma InsertAllNone(m: seq<Elem>)
    ensures InsertAll(m, []) == m
  {
  }

  lemma InsertAllNext(m: seq<Elem>, xs: seq<Elem>, k: nat)
    requires k < |xs|
    ensures InsertAll(m, xs[..k + 1]) == Insert(InsertAll(m, xs[..k]), xs[k])
  {
    InsertAllSnoc(m, xs[..k], xs[k]);
    assert xs[..k] + [xs[k]] == xs[..k + 1];
  }

  /** The multimap that results from inserting `xs` into an empty one holds each
      element as often as `xs` does, in order of position. */
  lemma {:induction false} Filed(xs: seq<Elem>)
    ensures Sorted(InsertAll([], xs)) && multiset(InsertAll([], xs)) == multiset(xs)
  {
    if xs == [] {
      InsertAllNone([]);
    } else {
      hide InsertAll, Insert, Sorted;
      var ys, x := xs[..|xs| - 1], xs[|xs| - 1];
      assert xs == ys + [x];
      Filed(ys);
      InsertAllSnoc([], ys, x);
      InsertKeeps(InsertAll([], ys), x);
      InsertAdds(InsertAll([], ys), x);
    }
  }

  lemma FiledHolds(xs: seq<Elem>, x: Elem)
    ensures x in InsertAll([], xs) <==> x in xs
  {
    hide InsertAll;
    Filed(xs);
    assert x in InsertAll([], xs) <==> x in multiset(InsertAll([], xs));
    assert x in xs <==> x in multiset(xs);
  }
}
