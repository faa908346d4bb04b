/** The maximal chains of abutting words: what the prediction tree enumerates. */
module WordChains {
  import opened WordElements

  /** A word with the number it is registered under. */
  datatype Indexed = Indexed(elem: Elem, index: int)

  /** `equal_range(pos)`: the words that start at `pos`, in order. */
  function At(words: seq<Indexed>, pos: int): (r: seq<Indexed>)
    ensures forall k :: 0 <= k < |r| ==> r[k] in words && r[k].elem.pos == pos
    ensures forall x :: x in words && x.elem.pos == pos ==> x in r
  {
    if words == [] then []
    else
      var rest, last := words[..|words| - 1], words[|words| - 1];
      assert words == rest + [last];
      At(rest, pos) + (if last.elem.pos == pos then [last] else [])
  }

  /** Every word moves forward, and none starts at or behind `limit`. */
  predicate Bounded(words: seq<Indexed>, limit: int) {
    forall k :: 0 <= k < |words| ==> words[k].elem.range > 0 && words[k].elem.pos < limit
  }

  function Distance(pos: int, limit: int): nat {
    if pos < limit then limit - pos else 0
  }

  /** `x` in front of every chain. */
  function Prepend(x: Indexed, chains: seq<seq<Indexed>>): (r: seq<seq<Indexed>>)
    ensures |r| == |chains|
  {
    seq(|chains|, k requires 0 <= k < |chains| => [x] + chains[k])
  }

  /** All chains from `pos` that cannot be extended, in the order of the tree's leaves. */
  function Chains(words: seq<Indexed>, pos: int, limit: int): (cs: seq<seq<Indexed>>)
    requires Bounded(words, limit)
    ensures |cs| >= 1
    decreases Distance(pos, limit), 1, 0
  {
    var heads := At(words, pos);
    if heads == [] then [[]] else ChainsOver(words, pos, heads, limit)
  }

  /** The chains that begin with one of `heads`. */
  function ChainsOver(words: seq<Indexed>, pos: int, heads: seq<Indexed>, limit: int): (cs: seq<seq<Indexed>>)
    requires Bounded(words, limit)
    requires forall k :: 0 <= k < |heads| ==> heads[k] in words && heads[k].elem.pos == pos
    ensures |cs| >= |heads|
    decreases Distance(pos, limit), 0, |heads|
  {
    if heads == [] then []
    else
      var x := heads[|heads| - 1];
      ChainsOver(words, pos, heads[..|heads| - 1], limit) + Prepend(x, Chains(words, x.elem.End(), limit))
  }

  /** Words that follow each other from `pos`, behind which no word starts. */
  predicate MaximalChain(words: seq<Indexed>, pos: int, c: seq<Indexed>) {
    && (forall k :: 0 <= k < |c| ==> c[k] in words)
    && (c != [] ==> c[0].elem.pos == pos)
    && (forall k :: 0 < k < |c| ==> c[k - 1].elem.End() == c[k].elem.pos)
    && At(words, if c == [] then pos else c[|c| - 1].elem.End()) == []
  }

  lemma ChainTail(words: seq<Indexed>, pos: int, c: seq<Indexed>)
    requires c != []
    ensures MaximalChain(words, pos, c) <==>
      c[0] in words && c[0].elem.pos == pos && MaximalChain(words, c[0].elem.End(), c[1..])
  {
    var d := c[1..];
    var next := c[0].elem.End();
    assert forall k :: 0 <= k < |d| ==> d[k] == c[k + 1];
    if MaximalChain(words, pos, c) {
      forall k | 0 < k < |d| ensures d[k - 1].elem.End() == d[k].elem.pos {
        assert c[k + 1 - 1].elem.End() == c[k + 1].elem.pos;
      }
    }
    if c[0] in words && c[0].elem.pos == pos && MaximalChain(words, next, d) {
      forall k | 0 < k < |c| ensures c[k] in words && c[k - 1].elem.End() == c[k].elem.pos {
        assert c[k] == d[k - 1];
        assert k > 1 ==> c[k - 1] == d[k - 2];
      }
    }
  }

  /** The enumeration is exactly the set of maximal chains. */
  lemma {:induction false} ChainsExactly(words: seq<Indexed>, pos: int, limit: int, c: seq<Indexed>)
    requires Bounded(words, limit)
    ensures c in Chains(words, pos, limit) <==> MaximalChain(words, pos, c)
    decreases Distance(pos, limit), 1, 0
  {
    var heads := At(words, pos);
    if heads == [] {
      assert c != [] ==> !(c[0] in words && c[0].elem.pos == pos);
      if c != [] {
        ChainTail(words, pos, c);
      }
    } else {
      ChainsOverExactly(words, pos, heads, limit, c);
      if c != [] {
        ChainTail(words, pos, c);
      }
    }
  }

  lemma {:induction false} ChainsOverExactly(words: seq<Indexed>, pos: int, heads: seq<Indexed>,
                                             limit: int, c: seq<Indexed>)
    requires Bounded(words, limit)
    requires forall k :: 0 <= k < |heads| ==> heads[k] in words && heads[k].elem.pos == pos
    ensures c in ChainsOver(words, pos, heads, limit) <==>
      c != [] && c[0] in heads && MaximalChain(words, c[0].elem.End(), c[1..])
    decreases Distance(pos, limit), 0, |heads|
  {
    hide MaximalChain, Chains;
    if heads != [] {
      var x, rest := heads[|heads| - 1], heads[..|heads| - 1];
      assert heads == rest + [x];
      ChainsOverExactly(words, pos, rest, limit, c);
      InPrepend(x, Chains(words, x.elem.End(), limit), c);
      if c != [] {
        ChainsExactly(words, x.elem.End(), limit, c[1..]);
      }
    }
  }

  lemma InPrepend(x: Indexed, chains: seq<seq<Indexed>>, c: seq<Indexed>)
    ensures c in Prepend(x, chains) <==> c != [] && c[0] == x && c[1..] in chains
  {
    if c in Prepend(x, chains) {
      var k :| 0 <= k < |chains| && c == [x] + chains[k];
    }
    if c != [] && c[0] == x && c[1..] in chains {
      var k :| 0 <= k < |chains| && chains[k] == c[1..];
      assert Prepend(x, chains)[k] == [x] + c[1..] == c;
    }
  }

  predicate NoRepeats<T(==)>(s: seq<T>) {
    forall i, j :: 0 <= i < j < |s| ==> s[i] != s[j]
  }

  lemma {:induction false} AtNoRepeats(words: seq<Indexed>, pos: int)
    requires NoRepeats(words)
    ensures NoRepeats(At(words, pos))
  {
    if words != [] {
      var rest := words[..|words| - 1];
      AtNoRepeats(rest, pos);
      var r := At(rest, pos);
      forall i | 0 <= i < |r| ensures r[i] != words[|words| - 1] {
        assert r[i] in rest;
      }
    }
  }

  /** Every chain is enumerated once. */
  lemma {:induction false} ChainsOnce(words: seq<Indexed>, pos: int, limit: int)
    requires Bounded(words, limit) && NoRepeats(words)
    ensures NoRepeats(Chains(words, pos, limit))
    decreases Distance(pos, limit), 1, 0
  {
    AtNoRepeats(words, pos);
    if At(words, pos) != [] {
      ChainsOverOnce(words, pos, At(words, pos), limit);
    }
  }

  lemma {:induction false} ChainsOverOnce(words: seq<Indexed>, pos: int, heads: seq<Indexed>, limit: int)
    requires Bounded(words, limit) && NoRepeats(words) && NoRepeats(heads)
    requires forall k :: 0 <= k < |heads| ==> heads[k] in words && heads[k].elem.pos == pos
    ensures NoRepeats(ChainsOver(words, pos, heads, limit))
    decreases Distance(pos, limit), 0, |heads|
  {
    hide Chains, MaximalChain;
    if heads != [] {
      var x, rest := heads[|heads| - 1], heads[..|heads| - 1];
      ChainsOverOnce(words, pos, rest, limit);
      ChainsOnce(words, x.elem.End(), limit);
      var a, b := ChainsOver(words, pos, rest, limit), Prepend(x, Chains(words, x.elem.End(), limit));
      assert ChainsOver(words, pos, heads, limit) == a + b;
      forall i, j | 0 <= i < |a| && 0 <= j < |b| ensures a[i] != b[j] {
        ChainsOverExactly(words, pos, rest, limit, a[i]);
        assert b[j][0] == x;
        assert x !in rest;
      }
      PrependOnce(x, Chains(words, x.elem.End(), limit));
    }
  }

  lemma PrependOnce(x: Indexed, chains: seq<seq<Indexed>>)
    requires NoRepeats(chains)
    ensures NoRepeats(Prepend(x, chains))
  {
    var r := Prepend(x, chains);
    forall i, j | 0 <= i < j < |r| ensures r[i] != r[j] {
      assert r[i][1..] == chains[i] && r[j][1..] == chains[j];
    }
  }
}
