/**
 * `PredictionTree`: the tree of all ways to continue a chain of words.  Its
 * leaves, read back to the top, are the maximal chains.
 */
module PredictionTrees {
  import opened WordElements
  import opened WordChains
  import opened PredictionWeights

  /** iConstLeavesWidthMax */
  const LEAVES_WIDTH_MAX: nat := 1024

  /** A node.  Nodes never change their parent or their word. */
  class PredictionTree {
    const root: PredictionTree?        // the parent; none at the top
    const index: int                   // the number of the node's word
    ghost const chain: seq<Indexed>    // the words from the top down to this node
    var nodes: seq<PredictionTree>

    constructor Top()
      ensures root == null && chain == [] && nodes == []
    {
      root, index, chain, nodes := null, 0, [], [];
    }

    constructor Under(parent: PredictionTree, index: int, ghost word: Indexed)
      requires word.index == index
      ensures root == parent && this.index == index && chain == parent.chain + [word] && nodes == []
    {
      root, this.index, chain, nodes := parent, index, parent.chain + [word], [];
    }

    /** The parents spell the chain. */
    ghost predicate Linked()
      decreases |chain|
    {
      if root == null then chain == [] else
        && |chain| == |root.chain| + 1 && chain == root.chain + [chain[|chain| - 1]]
        && chain[|chain| - 1].index == index
        && root.Linked()
    }

    /** `getPredSeq`: appends the words from this node up to the top, and raises the largest weight. */
    method GetPredSeq(forest: Forest, seq0: seq<Elem>, weightMax0: real)
      returns (preds: seq<Elem>, weightMax: real)
      requires Linked() && forest.Registers(chain)
      ensures preds == seq0 + Backwards(chain)
      ensures weightMax == MaxWeight(weightMax0, Backwards(chain))
      decreases |chain|
    {
      hide MaxWeight;
      MaxWeightNone(weightMax0);
      preds, weightMax := seq0, weightMax0;
      if root != null {
        assert chain[..|chain| - 1] == root.chain;
        if index in forest.uniqueWords {
          var word := forest.uniqueWords[index];
          preds := preds + [word];
          if word.weight > weightMax {
            weightMax := word.weight;
          }
          MaxWeightFront(weightMax0, word, Backwards(root.chain));
        }
        preds, weightMax := root.GetPredSeq(forest, preds, weightMax);
      }
    }
  }

  /** The words of a chain from its last to its first. */
  function Backwards(chain: seq<Indexed>): seq<Elem> {
    if chain == [] then [] else [chain[|chain| - 1].elem] + Backwards(chain[..|chain| - 1])
  }

  function Elems(chain: seq<Indexed>): seq<Elem> {
    seq(|chain|, k requires 0 <= k < |chain| => chain[k].elem)
  }

  /** `std::reverse` */
  function Reverse(s: seq<Elem>): seq<Elem> {
    seq(|s|, k requires 0 <= k < |s| => s[|s| - 1 - k])
  }

  lemma ReverseHolds(s: seq<Elem>)
    ensures forall x :: x in s <==> x in Reverse(s)
  {
    var r := Reverse(s);
    forall x | x in s ensures x in r {
      var k :| 0 <= k < |s| && s[k] == x;
      assert r[|s| - 1 - k] == x;
    }
  }

  lemma {:induction false} BackwardsReversed(chain: seq<Indexed>)
    ensures |Backwards(chain)| == |chain| && Reverse(Backwards(chain)) == Elems(chain)
  {
    if chain != [] {
      var rest := chain[..|chain| - 1];
      BackwardsReversed(rest);
      var b, r := Backwards(rest), Reverse(Backwards(chain));
      forall k | 0 <= k < |chain| ensures r[k] == chain[k].elem {
        if k < |rest| {
          assert Reverse(b)[k] == Elems(rest)[k];
        }
      }
    }
  }

  /** The statics shared by all nodes of a tree. */
  class Forest {
    var uniqueWords: map<int, Elem>
    var leaves: seq<PredictionTree>
    var uniqIndex: int

    constructor ()
      ensures uniqueWords == map[] && leaves == []
    {
      uniqueWords, leaves, uniqIndex := map[], [], 0;
    }

    /** The words of a chain are registered under their numbers. */
    ghost predicate Registers(chain: seq<Indexed>)
      reads `uniqueWords
    {
      forall k :: 0 <= k < |chain| ==> chain[k].index in uniqueWords && uniqueWords[chain[k].index] == chain[k].elem
    }

    /**
     * The recursive `setWordSeq`.  It succeeds exactly when the leaves found so
     * far and the maximal chains from `pos` together are at most 1025; then every
     * such chain has become a leaf, once and in order.
     */
    method SetWordSeqFrom(node: PredictionTree, words: seq<Indexed>, pos: int, ghost limit: int) returns (ok: bool)
      requires Bounded(words, limit) && node.Linked()
      modifies `leaves, node`nodes
      ensures ok <==> |old(leaves)| + |Chains(words, pos, limit)| <= LEAVES_WIDTH_MAX + 1
      ensures old(leaves) <= leaves
      ensures ok ==> LeavesAre(leaves, |old(leaves)|, node.chain, Chains(words, pos, limit))
      ensures !ok ==> |leaves| > LEAVES_WIDTH_MAX
      decreases Distance(pos, limit), 1
    {
      hide Chains, ChainsOver, Prepend, LeavesAre, Bounded, PredictionTree.Linked;
      if |leaves| > LEAVES_WIDTH_MAX {
        return false;
      }
      var sameKey := At(words, pos);
      ChainsUnfold(words, pos, limit);
      NoLeaves(leaves, node.chain);
      var i := 0;
      ghost var from, found := |leaves|, ChainsOver(words, pos, [], limit);
      assert sameKey[..0] == [];
      while i < |sameKey|
        invariant 0 <= i <= |sameKey|
        invariant old(leaves) <= leaves && from + |found| == |leaves| <= LEAVES_WIDTH_MAX + 1
        invariant found == ChainsOver(words, pos, sameKey[..i], limit)
        invariant LeavesAre(leaves, from, node.chain, found)
      {
        ghost var before := leaves;
        OverSnoc(words, pos, sameKey, i, limit);
        OverGrows(words, pos, sameKey, i + 1, limit);
        var retSub := VisitChild(node, sameKey[i], words, limit);
        if !retSub {
          return false;
        }
        LeavesAppend(before, leaves, from, node.chain, found, sameKey[i], Chains(words, sameKey[i].elem.End(), limit));
        found := ChainsOver(words, pos, sameKey[..i + 1], limit);
        LeavesCount(leaves, from, node.chain, found);
        i := i + 1;
      }
      assert sameKey[..|sameKey|] == sameKey;
      if i == 0 {
        OneLeaf(leaves, node);
        leaves := leaves + [node];
      }
      ok := true;
    }

    /** The body of the loop: one child node, and the subtree below it. */
    method VisitChild(node: PredictionTree, x: Indexed, words: seq<Indexed>, ghost limit: int) returns (ok: bool)
      requires Bounded(words, limit) && node.Linked() && x in words
      modifies `leaves, node`nodes
      ensures ok <==> |old(leaves)| + |Chains(words, x.elem.End(), limit)| <= LEAVES_WIDTH_MAX + 1
      ensures old(leaves) <= leaves
      ensures ok ==> LeavesAre(leaves, |old(leaves)|, node.chain + [x], Chains(words, x.elem.End(), limit))
      ensures !ok ==> |leaves| > LEAVES_WIDTH_MAX
      decreases Distance(x.elem.pos, limit), 0
    {
      hide Chains, LeavesAre;
      var predNode := new PredictionTree.Under(node, x.index, x);
      node.nodes := node.nodes + [predNode];
      ok := SetWordSeqFrom(predNode, words, x.elem.pos + x.elem.range, limit);
    }

    /** The public `setWordSeq`: numbers the words, then grows the tree from the first position. */
    method SetWordSeq(top: PredictionTree, clearWordSeq: seq<Elem>) returns (ok: bool)
      requires top.Linked() && top.chain == []
      requires forall k :: 0 <= k < |clearWordSeq| ==> clearWordSeq[k].range > 0
      modifies this, top
      ensures uniqIndex == old(uniqIndex) + |clearWordSeq|
      ensures Registers(Numbered(clearWordSeq, old(uniqIndex)))
      ensures old(leaves) <= leaves
      ensures var cs := AllChains(clearWordSeq, old(uniqIndex));
        && (ok <==> |old(leaves)| + |cs| <= LEAVES_WIDTH_MAX + 1 || clearWordSeq == [])
        && (ok ==> LeavesAre(leaves, |old(leaves)|, [], cs))
        && (!ok ==> |leaves| > LEAVES_WIDTH_MAX)
    {
      hide LeavesAre, Chains;
      var first := uniqIndex;
      var indexWordSeq: seq<Indexed> := [];
      var i := 0;
      while i < |clearWordSeq|
        invariant 0 <= i <= |clearWordSeq| && uniqIndex == first + i
        invariant indexWordSeq == Numbered(clearWordSeq, first)[..i]
        invariant Registers(indexWordSeq)
        invariant leaves == old(leaves)
      {
        uniqueWords := uniqueWords[uniqIndex := clearWordSeq[i]];
        // the words come in order of position, so that the insertion appends
        indexWordSeq := indexWordSeq + [Indexed(clearWordSeq[i], uniqIndex)];
        uniqIndex := uniqIndex + 1;
        i := i + 1;
      }
      NoLeaves(leaves, []);
      if clearWordSeq == [] {
        return true;
      }
      NumberedBounded(clearWordSeq, first);
      ok := SetWordSeqFrom(top, indexWordSeq, clearWordSeq[0].pos, Limit(clearWordSeq));
    }

    /** `flatPredSeqInside`: every leaf read back to the top, and reversed. */
    method FlatPredSeqInside(weightMax0: real) returns (flat: seq<seq<Elem>>, weightMax: real)
      requires forall k :: 0 <= k < |leaves| ==> leaves[k].Linked() && Registers(leaves[k].chain)
      ensures flat == LeafChains(leaves)
      ensures weightMax == MaxWeights(weightMax0, flat)
    {
      hide PredictionTree.Linked, Forest.Registers;
      flat, weightMax := [], weightMax0;
      var i := 0;
      while i < |leaves|
        invariant 0 <= i <= |leaves| && flat == LeafChains(leaves)[..i]
        invariant weightMax == MaxWeights(weightMax0, flat)
      {
        var preds;
        preds, weightMax := leaves[i].GetPredSeq(this, [], weightMax);
        assert preds == Backwards(leaves[i].chain);
        BackwardsReversed(leaves[i].chain);
        ReverseHolds(preds);
        MaxWeightSame(MaxWeights(weightMax0, flat), preds, Reverse(preds));
        MaxWeightsSnoc(weightMax0, flat, Reverse(preds));
        flat := flat + [Reverse(preds)];
        i := i + 1;
      }
    }

    /**
     * `flatPredSeq`: adds every chain under its share of the largest weight, and
     * sums the shares; but leaves everything as it was when the tree is too wide.
     */
    method FlatPredSeq(flat0: seq<Pred>, weightSum0: real) returns (flat: seq<Pred>, weightSum: real)
      requires forall k :: 0 <= k < |leaves| ==> leaves[k].Linked() && Registers(leaves[k].chain)
      requires forall c :: c in LeafChains(leaves) ==> Positive(c)
      ensures |leaves| > LEAVES_WIDTH_MAX ==> flat == flat0 && weightSum == weightSum0
      ensures |leaves| <= LEAVES_WIDTH_MAX ==>
        var cs, m := LeafChains(leaves), MaxWeights(0.0, LeafChains(leaves));
        Weighable(cs, m) && flat == InsertPreds(flat0, Keyed(cs, m)) && weightSum == ShareSum(cs, m)
    {
      if |leaves| > LEAVES_WIDTH_MAX {
        return flat0, weightSum0;
      }
      var flatDummy, weightMaxDummy := FlatPredSeqInside(0.0);
      PositiveIsWeighable(flatDummy);
      flat, weightSum := FileChains(flat0, flatDummy, weightMaxDummy);
    }
  }

  /** The chains of the leaves, from the top down. */
  ghost function LeafChains(leaves: seq<PredictionTree>): (cs: seq<seq<Elem>>)
    ensures |cs| == |leaves|
  {
    seq(|leaves|, k requires 0 <= k < |leaves| => Elems(leaves[k].chain))
  }

  /** The loop of `flatPredSeq`. */
  method FileChains(flat0: seq<Pred>, chains: seq<seq<Elem>>, m: real) returns (flat: seq<Pred>, weightSum: real)
    requires Weighable(chains, m)
    ensures flat == InsertPreds(flat0, Keyed(chains, m)) && weightSum == ShareSum(chains, m)
  {
    hide InsertPred, InsertPreds, Keyed, ShareSum, Weighable;
    flat, weightSum := flat0, 0.0;
    NothingFiled(flat0, chains, m);
    var i := 0;
    while i < |chains|
      invariant 0 <= i <= |chains| && Weighable(chains[..i], m)
      invariant flat == InsertPreds(flat0, Keyed(chains[..i], m)) && weightSum == ShareSum(chains[..i], m)
    {
      KeyedNext(flat0, chains, i, m);
      assert chains[i] != [] ==> m > 0.0 by { WeighableAt(chains, i, m); }
      flat, weightSum := FileChain(flat, weightSum, chains[i], m);
      i := i + 1;
    }
    assert chains[..|chains|] == chains;
  }

  /** The body of the loop: nothing for an empty chain. */
  method FileChain(flat0: seq<Pred>, weightSum0: real, chain: seq<Elem>, m: real)
    returns (flat: seq<Pred>, weightSum: real)
    requires chain != [] ==> m > 0.0
    ensures chain == [] ==> flat == flat0 && weightSum == weightSum0
    ensures chain != [] ==>
      flat == InsertPred(flat0, Pred(Share(chain, m).Floor, chain)) && weightSum == weightSum0 + Share(chain, m)
  {
    flat, weightSum := flat0, weightSum0;
    var predWeightSum := 0.0;
    var i := 0;
    while i < |chain|
      invariant 0 <= i <= |chain| && predWeightSum == WeightSum(chain[..i])
    {
      assert chain[..i + 1][..i] == chain[..i];
      predWeightSum := predWeightSum + chain[i].weight;
      i := i + 1;
    }
    assert chain[..|chain|] == chain;
    if chain != [] {
      var divPredWeight := predWeightSum / |chain| as real;
      var divPredWeight2 := UINT16_MAX * divPredWeight / m;
      weightSum := weightSum + divPredWeight2;
      flat := InsertPred(flat, Pred(divPredWeight2.Floor, chain));
    }
  }

  lemma WeighableAt(chains: seq<seq<Elem>>, i: nat, m: real)
    requires Weighable(chains, m) && i < |chains|
    ensures chains[i] != [] ==> m > 0.0
  {
  }

  lemma NothingFiled(flat0: seq<Pred>, chains: seq<seq<Elem>>, m: real)
    ensures Weighable(chains[..0], m)
    ensures InsertPreds(flat0, Keyed(chains[..0], m)) == flat0 && ShareSum(chains[..0], m) == 0.0
  {
  }

  /** The words under consecutive numbers. */
  function Numbered(words: seq<Elem>, first: int): (r: seq<Indexed>)
    ensures |r| == |words|
  {
    seq(|words|, k requires 0 <= k < |words| => Indexed(words[k], first + k))
  }

  /** A position behind the start of every word. */
  function Limit(words: seq<Elem>): (l: int)
    ensures forall k :: 0 <= k < |words| ==> words[k].pos < l
  {
    if words == [] then 0
    else
      var rest, e := Limit(words[..|words| - 1]), words[|words| - 1];
      if rest <= e.pos then e.pos + 1 else rest
  }

  lemma NumberedBounded(words: seq<Elem>, first: int)
    requires forall k :: 0 <= k < |words| ==> words[k].range > 0
    ensures Bounded(Numbered(words, first), Limit(words))
    ensures NoRepeats(Numbered(words, first))
    ensures Numbered(words, first)[..|words|] == Numbered(words, first)
  {
  }

  /** All maximal chains from the first word's position; none if there are no words. */
  function AllChains(words: seq<Elem>, first: int): seq<seq<Indexed>>
    requires forall k :: 0 <= k < |words| ==> words[k].range > 0
  {
    NumberedBounded(words, first);
    if words == [] then [] else Chains(Numbered(words, first), words[0].pos, Limit(words))
  }

  /** The leaves from number `from` on are the ends of `chains`, one each and in order. */
  ghost predicate LeavesAre(leaves: seq<PredictionTree>, from: nat, prefix: seq<Indexed>, chains: seq<seq<Indexed>>) {
    && |leaves| == from + |chains|
    && forall i :: from <= i < |leaves| ==> leaves[i].Linked() && leaves[i].chain == prefix + chains[i - from]
  }

  lemma OneLeaf(leaves: seq<PredictionTree>, node: PredictionTree)
    requires node.Linked()
    ensures LeavesAre(leaves + [node], |leaves|, node.chain, [[]])
  {
    assert node.chain + [] == node.chain;
  }

  lemma NoLeaves(leaves: seq<PredictionTree>, prefix: seq<Indexed>)
    ensures LeavesAre(leaves, |leaves|, prefix, [])
  {
  }

  lemma ChainsUnfold(words: seq<Indexed>, pos: int, limit: int)
    requires Bounded(words, limit)
    ensures Chains(words, pos, limit) ==
      if At(words, pos) == [] then [[]] else ChainsOver(words, pos, At(words, pos), limit)
    ensures ChainsOver(words, pos, [], limit) == []
  {
  }

  lemma LeavesCount(leaves: seq<PredictionTree>, from: nat, prefix: seq<Indexed>, chains: seq<seq<Indexed>>)
    requires LeavesAre(leaves, from, prefix, chains)
    ensures |leaves| == from + |chains|
  {
  }

  lemma OverSnoc(words: seq<Indexed>, pos: int, heads: seq<Indexed>, i: nat, limit: int)
    requires Bounded(words, limit) && i < |heads|
    requires forall k :: 0 <= k < |heads| ==> heads[k] in words && heads[k].elem.pos == pos
    ensures ChainsOver(words, pos, heads[..i + 1], limit)
      == ChainsOver(words, pos, heads[..i], limit) + Prepend(heads[i], Chains(words, heads[i].elem.End(), limit))
  {
    assert heads[..i + 1][..i] == heads[..i];
  }

  lemma {:induction false} OverGrows(words: seq<Indexed>, pos: int, heads: seq<Indexed>, i: nat, limit: int)
    requires Bounded(words, limit) && i <= |heads|
    requires forall k :: 0 <= k < |heads| ==> heads[k] in words && heads[k].elem.pos == pos
    ensures |ChainsOver(words, pos, heads[..i], limit)| <= |ChainsOver(words, pos, heads, limit)|
    decreases |heads| - i
  {
    if i < |heads| {
      OverSnoc(words, pos, heads, i, limit);
      OverGrows(words, pos, heads, i + 1, limit);
    } else {
      assert heads[..i] == heads;
    }
  }

  /** The leaves of a child continue those of its elder siblings. */
  lemma LeavesAppend(before: seq<PredictionTree>, after: seq<PredictionTree>, from: nat, prefix: seq<Indexed>,
                     found: seq<seq<Indexed>>, x: Indexed, more: seq<seq<Indexed>>)
    requires before <= after && LeavesAre(before, from, prefix, found)
    requires LeavesAre(after, |before|, prefix + [x], more)
    ensures LeavesAre(after, from, prefix, found + Prepend(x, more))
  {
    var all := found + Prepend(x, more);
    forall i | from <= i < |after| ensures after[i].Linked() && after[i].chain == prefix + all[i - from] {
      if i < |before| {
        assert after[i] == before[i];
      } else {
        assert all[i - from] == Prepend(x, more)[i - |before|];
        assert prefix + [x] + more[i - |before|] == prefix + ([x] + more[i - |before|]);
      }
    }
  }

  // ------------------------------------------------------------- the whole tree

  function ElemsOf(cs: seq<seq<Indexed>>): (r: seq<seq<Elem>>)
    ensures |r| == |cs|
  {
    seq(|cs|, k requires 0 <= k < |cs| => Elems(cs[k]))
  }

  /** Chains consist of registered words. */
  lemma ChainsRegistered(forest: Forest, words: seq<Elem>, first: int)
    requires forall k :: 0 <= k < |words| ==> words[k].range > 0
    requires forest.Registers(Numbered(words, first))
    ensures forall c :: c in AllChains(words, first) ==> forest.Registers(c)
  {
    hide Chains;
    forall c: seq<Indexed> | c in AllChains(words, first) ensures forest.Registers(c) {
      NumberedBounded(words, first);
      ChainsExactly(Numbered(words, first), words[0].pos, Limit(words), c);
      forall k | 0 <= k < |c|
        ensures c[k].index in forest.uniqueWords && forest.uniqueWords[c[k].index] == c[k].elem
      {
        var m :| 0 <= m < |words| && Numbered(words, first)[m] == c[k];
      }
    }
  }

  /**
   * A fresh tree, grown and flattened.  With at most 1024 maximal chains the
   * result is all of them, each once and filed under its share; with more it is
   * empty, although growing the tree reports failure only from 1026 chains on.
   */
  method Enumerate(clearWordSeq: seq<Elem>) returns (ok: bool, flat: seq<Pred>, weightSum: real)
    requires forall k :: 0 <= k < |clearWordSeq| ==> clearWordSeq[k].range > 0
    requires Positive(clearWordSeq)
    ensures exists first :: var cs := AllChains(clearWordSeq, first);
      && NoRepeats(cs)
      && (ok <==> |cs| <= 1025)
      && (forall c :: c in ElemsOf(cs) ==> c != [] && Positive(c))
      && flat == (if |cs| <= 1024 then Flattened(ElemsOf(cs)) else [])
      && weightSum == (if |cs| <= 1024 then ShareTotal(ElemsOf(cs)) else 0.0)
  {
    hide Chains, LeavesAre, AllChains, Flattened, ShareTotal, Keyed, InsertPreds, ShareSum, MaxWeights, Positive;
    var forest := new Forest();
    var top := new PredictionTree.Top();
    ghost var first := forest.uniqIndex;
    ghost var cs := AllChains(clearWordSeq, first);
    AllChainsOnce(clearWordSeq, first);
    AllChainsWeigh(clearWordSeq, first);
    ok := forest.SetWordSeq(top, clearWordSeq);
    flat, weightSum := [], 0.0;
    if ok {
      LeavesChains(forest.leaves, cs);
      ChainsRegistered(forest, clearWordSeq, first);
      assert LeafChains(forest.leaves) == ElemsOf(cs);
      flat, weightSum := forest.FlatPredSeq([], 0.0);
      FlattenedAs(ElemsOf(cs));
    }
    assert NoRepeats(cs) && (ok <==> |cs| <= LEAVES_WIDTH_MAX + 1)
      && (forall c :: c in ElemsOf(cs) ==> c != [] && Positive(c))
      && flat == (if |cs| <= LEAVES_WIDTH_MAX then Flattened(ElemsOf(cs)) else [])
      && weightSum == (if |cs| <= LEAVES_WIDTH_MAX then ShareTotal(ElemsOf(cs)) else 0.0);
  }

  lemma FlattenedAs(cs: seq<seq<Elem>>)
    requires forall c :: c in cs ==> Positive(c)
    ensures Weighable(cs, MaxWeights(0.0, cs))
    ensures Flattened(cs) == InsertPreds([], Keyed(cs, MaxWeights(0.0, cs)))
    ensures ShareTotal(cs) == ShareSum(cs, MaxWeights(0.0, cs))
  {
    PositiveIsWeighable(cs);
  }

  /** No chain is empty, and all its words have a weight. */
  lemma AllChainsWeigh(words: seq<Elem>, first: int)
    requires forall k :: 0 <= k < |words| ==> words[k].range > 0
    requires Positive(words)
    ensures forall c :: c in ElemsOf(AllChains(words, first)) ==> c != [] && Positive(c)
  {
    hide Chains;
    forall c: seq<Indexed> | c in AllChains(words, first) ensures c != [] && Positive(Elems(c)) {
      var ws := Numbered(words, first);
      NumberedBounded(words, first);
      ChainsExactly(ws, words[0].pos, Limit(words), c);
      assert ws[0] in At(ws, words[0].pos);
      forall k | 0 <= k < |c| ensures c[k].elem.weight > 0.0 {
        var m :| 0 <= m < |words| && ws[m] == c[k];
      }
    }
  }

  lemma AllChainsOnce(words: seq<Elem>, first: int)
    requires forall k :: 0 <= k < |words| ==> words[k].range > 0
    ensures NoRepeats(AllChains(words, first))
    ensures words == [] ==> AllChains(words, first) == []
  {
    hide Chains;
    if words != [] {
      NumberedBounded(words, first);
      ChainsOnce(Numbered(words, first), words[0].pos, Limit(words));
    }
  }

  lemma LeavesChains(leaves: seq<PredictionTree>, cs: seq<seq<Indexed>>)
    requires LeavesAre(leaves, 0, [], cs)
    ensures |leaves| == |cs|
    ensures forall k :: 0 <= k < |leaves| ==> leaves[k].Linked() && leaves[k].chain == cs[k] && cs[k] in cs
  {
    forall k | 0 <= k < |leaves| ensures leaves[k].chain == cs[k] {
      assert leaves[k].chain == [] + cs[k];
    }
  }

  /** `n` words side by side: each is a maximal chain. */
  function SideBySide(n: nat): (r: seq<Elem>)
    ensures |r| == n && forall k :: 0 <= k < n ==> r[k] == Elem([65], 0, 1, 1.0, 1.0)
  {
    seq(n, k => Elem([65], 0, 1, 1.0, 1.0))
  }

  lemma {:induction false} SideBySideOver(words: seq<Indexed>, heads: seq<Indexed>, limit: int)
    requires Bounded(words, limit) && At(words, 1) == []
    requires forall k :: 0 <= k < |heads| ==> heads[k] in words && heads[k].elem.pos == 0 && heads[k].elem.range == 1
    ensures |ChainsOver(words, 0, heads, limit)| == |heads|
  {
    if heads != [] {
      SideBySideOver(words, heads[..|heads| - 1], limit);
    }
  }

  lemma {:induction false} AtAll(words: seq<Indexed>, pos: int)
    requires forall k :: 0 <= k < |words| ==> words[k].elem.pos == pos
    ensures At(words, pos) == words
  {
    if words != [] {
      AtAll(words[..|words| - 1], pos);
    }
  }

  lemma {:induction false} AtNone(words: seq<Indexed>, pos: int)
    requires forall k :: 0 <= k < |words| ==> words[k].elem.pos != pos
    ensures At(words, pos) == []
  {
    if words != [] {
      AtNone(words[..|words| - 1], pos);
    }
  }

  /** Exactly at the limit the tree reports success and the flattening is empty:
      1025 words at one position have 1025 maximal chains. */
  lemma WidthLimitMismatch(n: nat, first: int)
    requires n > 0
    ensures |AllChains(SideBySide(n), first)| == n
  {
    var words := Numbered(SideBySide(n), first);
    NumberedBounded(SideBySide(n), first);
    AtAll(words, 0);
    AtNone(words, 1);
    SideBySideOver(words, words, Limit(SideBySide(n)));
  }
}
