/** Bytes and the few sequence operations that every component shares. */
module Bytes {

  type Byte = b: int | 0 <= b < 256

  /** A word of a text, or a stretch of it. */
  type Word = seq<Byte>

  const CR: Byte := 13
  const LF: Byte := 10
  const DASH: Byte := 45

  predicate IsDigit(c: Byte) {
    48 <= c <= 57
  }

  /** The concatenation of a list of lists: `+=` in a loop over the pieces. */
  function Join<T>(parts: seq<seq<T>>): seq<T> {
    if parts == [] then [] else parts[0] + Join(parts[1..])
  }

  lemma {:induction false} JoinAppend<T>(a: seq<seq<T>>, b: seq<seq<T>>)
    ensures Join(a + b) == Join(a) + Join(b)
  {
    if a == [] {
      assert a + b == b;
    } else {
      assert (a + b)[1..] == a[1..] + b;
      JoinAppend(a[1..], b);
    }
  }

  lemma JoinOne<T>(x: seq<T>)
    ensures Join([x]) == x
  {
    assert Join([x]) == x + Join([]);
  }

  lemma JoinSnoc<T>(a: seq<seq<T>>, x: seq<T>)
    ensures Join(a + [x]) == Join(a) + x
  {
    JoinAppend(a, [x]);
    assert Join([x]) == x + Join([]);
  }

  lemma {:induction false} PartOfJoin<T>(parts: seq<seq<T>>, k: nat, x: T)
    requires k < |parts| && x in parts[k]
    ensures x in Join(parts)
  {
    if k > 0 {
      PartOfJoin(parts[1..], k - 1, x);
    }
  }
}
