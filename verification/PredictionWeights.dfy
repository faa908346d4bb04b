/** The weights of chains: each is filed under the average weight of its words, relative to the heaviest word. */
module PredictionWeights {
  import opened WordElements

  /** An entry of the flattened tree. */
  datatype Pred = Pred(key: int, words: seq<Elem>)

  const UINT16_MAX: real := 65535.0

  predicate Positive(c: seq<Elem>) {
    forall k :: 0 <= k < |c| ==> c[k].weight > 0.0
  }

  // ------------------------------------------------------- the largest weight

  /** The largest weight of the words, and at least `w`. */
  function MaxWeight(w: real, c: seq<Elem>): real {
    if c == [] then w
    else
      var m, x := MaxWeight(w, c[..|c| - 1]), c[|c| - 1];
      if x.weight > m then x.weight else m
  }

  lemma MaxWeightNone(w: real)
    ensures MaxWeight(w, []) == w
  {
  }

  lemma {:induction false} MaxWeightIs(w: real, c: seq<Elem>)
    ensures var m := MaxWeight(w, c);
      && w <= m && (forall k :: 0 <= k < |c| ==> c[k].weight <= m)
      && (m == w || exists k :: 0 <= k < |c| && c[k].weight == m)
  {
    if c != [] {
      var d, m := c[..|c| - 1], MaxWeight(w, c);
      MaxWeightIs(w, d);
      if MaxWeight(w, d) != w && m == MaxWeight(w, d) {
        var k :| 0 <= k < |d| && d[k].weight == m;
        assert c[k].weight == m;
      }
      forall k | 0 <= k < |c| ensures c[k].weight <= m {
        if k < |d| {
          assert d[k] == c[k];
        }
      }
    }
  }

  lemma {:induction false} MaxWeightFront(w: real, x: Elem, c: seq<Elem>)
    ensures MaxWeight(w, [x] + c) == MaxWeight(if x.weight > w then x.weight else w, c)
  {
    if c == [] {
      assert [x] + c == [x] && [x][..0] == [];
    } else {
      MaxWeightFront(w, x, c[..|c| - 1]);
      assert ([x] + c)[..|c|] == [x] + c[..|c| - 1];
    }
  }

  /** The order of the words does not matter. */
  lemma MaxWeightSame(w: real, a: seq<Elem>, b: seq<Elem>)
    requires forall x :: x in a <==> x in b
    ensures MaxWeight(w, a) == MaxWeight(w, b)
  {
    MaxWeightIs(w, a);
    MaxWeightIs(w, b);
    hide MaxWeight;
    forall k | 0 <= k < |a| ensures a[k].weight <= MaxWeight(w, b) {
      assert a[k] in b;
    }
    forall k | 0 <= k < |b| ensures b[k].weight <= MaxWeight(w, a) {
      assert b[k] in a;
    }
  }

  /** The largest weight in all the chains, and at least `w`. */
  function MaxWeights(w: real, cs: seq<seq<Elem>>): real {
    if cs == [] then w else MaxWeight(MaxWeights(w, cs[..|cs| - 1]), cs[|cs| - 1])
  }

  lemma MaxWeightsSnoc(w: real, cs: seq<seq<Elem>>, c: seq<Elem>)
    ensures MaxWeights(w, cs + [c]) == MaxWeight(MaxWeights(w, cs), c)
  {
    assert (cs + [c])[..|cs|] == cs;
  }

  lemma {:induction false} MaxWeightsHolds(w: real, cs: seq<seq<Elem>>, i: nat, k: nat)
    requires i < |cs| && k < |cs[i]|
    ensures cs[i][k].weight <= MaxWeights(w, cs)
  {
    MaxWeightIs(MaxWeights(w, cs[..|cs| - 1]), cs[|cs| - 1]);
    if i < |cs| - 1 {
      MaxWeightsHolds(w, cs[..|cs| - 1], i, k);
    }
  }

  lemma {:induction false} MaxWeightsTaken(w: real, cs: seq<seq<Elem>>)
    ensures MaxWeights(w, cs) == w ||
      exists i, k :: 0 <= i < |cs| && 0 <= k < |cs[i]| && cs[i][k].weight == MaxWeights(w, cs)
  {
    if cs != [] {
      var ds, c, m := cs[..|cs| - 1], cs[|cs| - 1], MaxWeights(w, cs);
      MaxWeightsTaken(w, ds);
      MaxWeightIs(MaxWeights(w, ds), c);
      if MaxWeights(w, ds) != w && m == MaxWeights(w, ds) {
        var i, k :| 0 <= i < |ds| && 0 <= k < |ds[i]| && ds[i][k].weight == m;
        assert cs[i][k].weight == m;
      } else if m != w {
        var k :| 0 <= k < |c| && c[k].weight == m;
        assert cs[|cs| - 1][k].weight == m;
      }
    }
  }

  // ---------------------------------------------------------- share and key

  function WeightSum(c: seq<Elem>): real {
    if c == [] then 0.0 else WeightSum(c[..|c| - 1]) + c[|c| - 1].weight
  }

  function Times(n: nat, m: real): real {
    n as real * m
  }

  lemma TimesNext(n: nat, m: real)
    ensures Times(0, m) == 0.0 && Times(n + 1, m) == Times(n, m) + m
  {
  }

  lemma {:induction false} WeightSumBounds(c: seq<Elem>, m: real)
    requires Positive(c) && forall k :: 0 <= k < |c| ==> c[k].weight <= m
    ensures 0.0 <= WeightSum(c) <= Times(|c|, m) && (c != [] ==> WeightSum(c) > 0.0)
    ensures WeightSum(c) == Times(|c|, m) <==> forall k :: 0 <= k < |c| ==> c[k].weight == m
  {
    hide Times;
    if c == [] {
      TimesNext(0, m);
    } else {
      var d := c[..|c| - 1];
      assert forall k :: 0 <= k < |d| ==> d[k] == c[k];
      WeightSumBounds(d, m);
      TimesNext(|d|, m);
    }
  }

  /** The average weight of the words, on the scale on which `m` is 65535. */
  function Share(c: seq<Elem>, m: real): real
    requires c != [] && m > 0.0
  {
    UINT16_MAX * (WeightSum(c) / |c| as real) / m
  }

  lemma Cancel(x: real, y: real, n: real)
    requires n > 0.0
    ensures x <= y <==> x * n <= y * n
    ensures x < y <==> x * n < y * n
  {
    var d := y - x;
    assert y * n == x * n + d * n;
    assert d > 0.0 ==> d * n > 0.0;
    assert d < 0.0 ==> d * n < 0.0;
  }

  /** A quotient of two that differ by at most the factor `k`. */
  lemma QuotientUpTo(a: real, m: real, k: real)
    requires m > 0.0
    ensures a / m <= k <==> a <= k * m
    ensures a / m == k <==> a == k * m
    ensures a / m > 0.0 <==> a > 0.0
  {
    assert a / m * m == a;
    Cancel(a / m, k, m);
    Cancel(0.0, a / m, m);
  }

  lemma ShareIs(sum: real, n: real, m: real)
    requires 0.0 < sum <= n * m && n > 0.0 && m > 0.0
    ensures var share := UINT16_MAX * (sum / n) / m;
      0.0 < share <= UINT16_MAX && (share == UINT16_MAX <==> sum == n * m)
  {
    QuotientUpTo(sum, n, m);
    var a := sum / n;
    Cancel(a, m, UINT16_MAX);
    assert UINT16_MAX * a == a * UINT16_MAX && UINT16_MAX * m == m * UINT16_MAX && n * m == m * n;
    QuotientUpTo(UINT16_MAX * a, m, UINT16_MAX);
  }

  lemma ShareBounds(c: seq<Elem>, m: real)
    requires c != [] && Positive(c) && forall k :: 0 <= k < |c| ==> c[k].weight <= m
    ensures m > 0.0 && 0.0 < Share(c, m) <= UINT16_MAX
    ensures Share(c, m) == UINT16_MAX <==> forall k :: 0 <= k < |c| ==> c[k].weight == m
  {
    assert c[0].weight > 0.0;
    WeightSumBounds(c, m);
    hide WeightSum, Positive;
    ShareIs(WeightSum(c), |c| as real, m);
  }

  lemma FloorUpTo(x: real, top: int)
    requires 0.0 < x <= top as real
    ensures 0 <= x.Floor <= top && (x.Floor == top <==> x == top as real)
  {
  }

  /** Keys are at most 65535, and that only for a chain of words that all weigh the most. */
  lemma KeyTopIff(c: seq<Elem>, m: real)
    requires c != [] && Positive(c) && forall k :: 0 <= k < |c| ==> c[k].weight <= m
    ensures m > 0.0 && 0.0 < Share(c, m) <= UINT16_MAX
    ensures 0 <= Share(c, m).Floor <= 65535
    ensures Share(c, m).Floor == 65535 <==> forall k :: 0 <= k < |c| ==> c[k].weight == m
  {
    hide Share, Positive;
    ShareBounds(c, m);
    FloorUpTo(Share(c, m), 65535);
  }

  // --------------------------------------------------------- the multimap

  /** Insertion into a `multimap<int, ...>`: behind equal keys. */
  function InsertPred(f: seq<Pred>, p: Pred): seq<Pred> {
    if f == [] || f[|f| - 1].key <= p.key then f + [p]
    else InsertPred(f[..|f| - 1], p) + [f[|f| - 1]]
  }

  predicate RisingKeys(f: seq<Pred>) {
    forall i, j :: 0 <= i < j < |f| ==> f[i].key <= f[j].key
  }

  lemma LastApart(a: seq<Pred>, b: seq<Pred>)
    requires b != []
    ensures (a + b)[..|a + b| - 1] == a + b[..|b| - 1] && (a + b)[|a + b| - 1] == b[|b| - 1]
    ensures a + b[..|b| - 1] + [b[|b| - 1]] == a + b
  {
    assert b[..|b| - 1] + [b[|b| - 1]] == b;
  }

  /** An entry goes behind those with its key and before those with a larger one. */
  lemma {:induction false} InsertPredBetween(a: seq<Pred>, p: Pred, b: seq<Pred>)
    requires a == [] || a[|a| - 1].key <= p.key
    requires forall i :: 0 <= i < |b| ==> b[i].key > p.key
    ensures InsertPred(a + b, p) == a + [p] + b
  {
    if b == [] {
      assert a + b == a;
    } else {
      var c := b[..|b| - 1];
      LastApart(a, b);
      LastApart(a + [p], b);
      InsertPredBetween(a, p, c);
    }
  }

  lemma {:induction false} InsertPredAdds(f: seq<Pred>, p: Pred)
    ensures multiset(InsertPred(f, p)) == multiset(f) + multiset{p}
  {
    if f != [] && f[|f| - 1].key > p.key {
      InsertPredAdds(f[..|f| - 1], p);
      assert f == f[..|f| - 1] + [f[|f| - 1]];
    }
  }

  lemma {:induction false} InsertPredKeeps(f: seq<Pred>, p: Pred)
    requires RisingKeys(f)
    ensures RisingKeys(InsertPred(f, p))
    ensures forall x :: x in InsertPred(f, p) ==> x == p || x in f
  {
    if f != [] && f[|f| - 1].key > p.key {
      var k := |f| - 1;
      InsertPredKeeps(f[..k], p);
      var r := InsertPred(f[..k], p);
      forall i | 0 <= i < |r| ensures r[i].key <= f[k].key {
        assert r[i] in r;
      }
    }
  }

  predicate Weighable(cs: seq<seq<Elem>>, m: real) {
    forall k :: 0 <= k < |cs| && cs[k] != [] ==> m > 0.0
  }

  /** The chains with their keys; a chain of no words has none. */
  function Keyed(cs: seq<seq<Elem>>, m: real): seq<Pred>
    requires Weighable(cs, m)
  {
    if cs == [] then []
    else
      var ds, c := cs[..|cs| - 1], cs[|cs| - 1];
      assert forall k :: 0 <= k < |ds| ==> ds[k] == cs[k];
      Keyed(ds, m) + (if c == [] then [] else [Pred(Share(c, m).Floor, c)])
  }

  /** The entries `ps` inserted one after the other. */
  function InsertPreds(f: seq<Pred>, ps: seq<Pred>): seq<Pred> {
    if ps == [] then f else InsertPred(InsertPreds(f, ps[..|ps| - 1]), ps[|ps| - 1])
  }

  function ShareSum(cs: seq<seq<Elem>>, m: real): real
    requires Weighable(cs, m)
  {
    if cs == [] then 0.0
    else
      var ds, c := cs[..|cs| - 1], cs[|cs| - 1];
      assert forall k :: 0 <= k < |ds| ==> ds[k] == cs[k];
      ShareSum(ds, m) + (if c == [] then 0.0 else Share(c, m))
  }

  lemma {:induction false} InsertPredsKeep(ps: seq<Pred>)
    ensures multiset(InsertPreds([], ps)) == multiset(ps) && RisingKeys(InsertPreds([], ps))
  {
    if ps == [] {
      InsertPredsSnoc([], [], Pred(0, []));
    } else {
      hide InsertPred, InsertPreds, RisingKeys;
      var qs, p := ps[..|ps| - 1], ps[|ps| - 1];
      assert ps == qs + [p];
      InsertPredsKeep(qs);
      InsertPredsSnoc([], qs, p);
      InsertPredAdds(InsertPreds([], qs), p);
      InsertPredKeeps(InsertPreds([], qs), p);
    }
  }

  lemma InsertPredsSnoc(f: seq<Pred>, ps: seq<Pred>, p: Pred)
    ensures InsertPreds(f, ps + [p]) == InsertPred(InsertPreds(f, ps), p)
    ensures InsertPreds(f, []) == f
  {
    assert (ps + [p])[..|ps|] == ps;
  }

  /** The loop of `flatPredSeq`, one chain further. */
  lemma KeyedNext(f: seq<Pred>, cs: seq<seq<Elem>>, i: nat, m: real)
    requires i < |cs| && Weighable(cs, m)
    ensures Weighable(cs[..i], m) && Weighable(cs[..i + 1], m)
    ensures var c, before := cs[i], InsertPreds(f, Keyed(cs[..i], m));
      InsertPreds(f, Keyed(cs[..i + 1], m)) ==
        if c == [] then before else InsertPred(before, Pred(Share(c, m).Floor, c))
    ensures var c, before := cs[i], ShareSum(cs[..i], m);
      ShareSum(cs[..i + 1], m) == if c == [] then before else before + Share(c, m)
  {
    hide Share, InsertPred, InsertPreds;
    var c := cs[i];
    assert cs[..i + 1][..i] == cs[..i];
    assert Weighable(cs[..i], m) && Weighable(cs[..i + 1], m);
    if c == [] {
      assert Keyed(cs[..i], m) + [] == Keyed(cs[..i], m);
    } else {
      InsertPredsSnoc(f, Keyed(cs[..i], m), Pred(Share(c, m).Floor, c));
    }
  }

  /** Chains whose words all have a weight can be put on the scale of the heaviest word. */
  lemma PositiveIsWeighable(cs: seq<seq<Elem>>)
    requires forall c :: c in cs ==> Positive(c)
    ensures Weighable(cs, MaxWeights(0.0, cs))
  {
    forall i | 0 <= i < |cs| && cs[i] != [] ensures MaxWeights(0.0, cs) > 0.0 {
      MaxWeightsHolds(0.0, cs, i, 0);
      assert cs[i] in cs && cs[i][0].weight > 0.0;
    }
  }

  lemma {:induction false} KeyedChains(cs: seq<seq<Elem>>, m: real)
    requires m > 0.0 && forall k :: 0 <= k < |cs| ==> cs[k] != []
    ensures |Keyed(cs, m)| == |cs|
    ensures forall k :: 0 <= k < |cs| ==> Keyed(cs, m)[k] == Pred(Share(cs[k], m).Floor, cs[k])
  {
    hide Share;
    if cs != [] {
      var ds := cs[..|cs| - 1];
      assert forall k :: 0 <= k < |ds| ==> ds[k] == cs[k];
      KeyedChains(ds, m);
    }
  }

  /** The flattened form of a tree with the given chains. */
  function Flattened(cs: seq<seq<Elem>>): seq<Pred>
    requires forall c :: c in cs ==> Positive(c)
  {
    PositiveIsWeighable(cs);
    InsertPreds([], Keyed(cs, MaxWeights(0.0, cs)))
  }


  /** The sum of the shares of all the chains. */
  function ShareTotal(cs: seq<seq<Elem>>): real
    requires forall c :: c in cs ==> Positive(c)
  {
    PositiveIsWeighable(cs);
    ShareSum(cs, MaxWeights(0.0, cs))
  }

  lemma NothingFlattened()
    ensures Flattened([]) == []
  {
  }

  /**
   * Flattening keeps every chain as often as it occurs, in order of its key; and
   * the key is its share of the heaviest word's weight.
   */
  lemma FlattenedIs(cs: seq<seq<Elem>>)
    requires forall c :: c in cs ==> c != [] && Positive(c)
    ensures var f, m := Flattened(cs), MaxWeights(0.0, cs);
      && |f| == |cs| && RisingKeys(f)
      && (cs != [] ==> exists i, k :: 0 <= i < |cs| && 0 <= k < |cs[i]| && cs[i][k].weight == m)
      && (exists keyed: seq<Pred> :: |keyed| == |cs| && multiset(f) == multiset(keyed)
           && forall k :: 0 <= k < |cs| ==> keyed[k].words == cs[k])
      && forall p :: p in f ==> p.words in cs && m > 0.0 && p.key == Share(p.words, m).Floor
  {
    hide Share, InsertPreds, Keyed;
    var m := MaxWeights(0.0, cs);
    if cs == [] {
      NothingFlattened();
      return;
    }
    PositiveIsWeighable(cs);
    var keyed := Keyed(cs, m);
    assert forall k :: 0 <= k < |cs| ==> cs[k] in cs;
    KeyedChains(cs, m);
    MaxWeightsTaken(0.0, cs);
    InsertPredsKeep(keyed);
    var f := Flattened(cs);
    assert multiset(f) == multiset(keyed);
    assert |multiset(f)| == |multiset(keyed)|;
    forall p | p in f ensures p.words in cs && m > 0.0 && p.key == Share(p.words, m).Floor {
      assert p in multiset(keyed);
      var k :| 0 <= k < |keyed| && keyed[k] == p;
      assert cs[k] in cs;
    }
  }

  /** Keys are between 0 and 65535, and 65535 is for the chains of words that all weigh the most. */
  lemma FlattenedKeys(cs: seq<seq<Elem>>, p: Pred)
    requires (forall c :: c in cs ==> c != [] && Positive(c)) && p in Flattened(cs)
    ensures 0 <= p.key <= 65535
    ensures p.key == 65535 <==> forall k :: 0 <= k < |p.words| ==> p.words[k].weight == MaxWeights(0.0, cs)
  {
    hide Flattened, Share;
    FlattenedIs(cs);
    var i :| 0 <= i < |cs| && cs[i] == p.words;
    forall k | 0 <= k < |p.words| ensures p.words[k].weight <= MaxWeights(0.0, cs) {
      MaxWeightsHolds(0.0, cs, i, k);
    }
    KeyTopIff(p.words, MaxWeights(0.0, cs));
  }
}
