/**
 * The lattice of a group of words: a vertex per word, a start and an end
 * vertex, an edge wherever one word ends and another begins.  Its paths are the
 * tilings of the group's stretch of text.
 */
module WordLattice {
  import opened Bytes
  import opened WordElements
  import opened WordGroups

  datatype Edge = Edge(from: nat, to: nat, cost: real)

  /** What the lattice needs of a group: nonempty words at nonnegative places, in
      order, no place twice, positive weights. */
  predicate GroupOk(g: seq<Elem>) {
    && g != [] && Sorted(g) && DistinctPlaces(g)
    && forall i :: 0 <= i < |g| ==> 0 <= g[i].pos && 0 < g[i].range == |g[i].word| && g[i].weight > 0.0
  }

  // Vertex 0 is the start, vertex i + 1 is word i, and the last vertex is the end.

  const START: nat := 0

  function EndVertex(g: seq<Elem>): nat {
    |g| + 1
  }

  predicate IsWordVertex(g: seq<Elem>, v: nat) {
    1 <= v <= |g|
  }

  function WordAt(g: seq<Elem>, v: nat): Elem
    requires IsWordVertex(g, v)
  {
    g[v - 1]
  }

  /** The edges of the lattice of `g`; a last word has two edges to the end. */
  predicate IsEdge(g: seq<Elem>, e: Edge)
    requires GroupOk(g)
  {
    if e.from == START then
      IsWordVertex(g, e.to) && WordAt(g, e.to).pos == g[0].pos && e.cost == 1.0 / WordAt(g, e.to).weight
    else
      IsWordVertex(g, e.from) &&
      var w := WordAt(g, e.from);
      if e.to == EndVertex(g) then w.End() == PosLast(g) && (e.cost == 0.0 || e.cost == 1.0 / w.weight)
      else IsWordVertex(g, e.to) && w.End() == WordAt(g, e.to).pos && e.cost == 1.0 / w.weight
  }

  lemma EdgeGoesForward(g: seq<Elem>, e: Edge)
    requires GroupOk(g) && IsEdge(g, e)
    ensures e.from < e.to <= EndVertex(g)
  {
  }

  lemma EdgeCostsNothingLess(g: seq<Elem>, e: Edge)
    requires GroupOk(g) && IsEdge(g, e)
    ensures e.cost >= 0.0
  {
    if IsWordVertex(g, e.from) {
      assert WordAt(g, e.from).weight > 0.0;
    }
  }

  // ----------------------------------------------------------------- tilings

  /** Vertices of words that follow each other from the start of the group. */
  predicate IsChain(g: seq<Elem>, p: seq<nat>)
    requires g != []
  {
    && p != [] && (forall i :: 0 <= i < |p| ==> IsWordVertex(g, p[i]))
    && WordAt(g, p[0]).pos == g[0].pos
    && forall i :: 0 < i < |p| ==> WordAt(g, p[i - 1]).End() == WordAt(g, p[i]).pos
  }

  /** The words tile the group's stretch of text, from its first to its last position. */
  predicate IsTiling(g: seq<Elem>, p: seq<nat>)
    requires g != []
  {
    IsChain(g, p) && WordAt(g, p[|p| - 1]).End() == PosLast(g)
  }

  /** The sum of 1/weight over all words but the last. */
  function Steps(g: seq<Elem>, p: seq<nat>): real
    requires GroupOk(g) && forall i :: 0 <= i < |p| ==> IsWordVertex(g, p[i])
  {
    if |p| <= 1 then 0.0 else Steps(g, p[..|p| - 1]) + 1.0 / WordAt(g, p[|p| - 2]).weight
  }

  /** The cost of a chain: 1/weight of its first word, and of every word but the last. */
  function Cost(g: seq<Elem>, p: seq<nat>): real
    requires GroupOk(g) && IsChain(g, p)
  {
    1.0 / WordAt(g, p[0]).weight + Steps(g, p)
  }

  function WordsOf(g: seq<Elem>, p: seq<nat>): seq<Elem>
    requires forall i :: 0 <= i < |p| ==> IsWordVertex(g, p[i])
  {
    seq(|p|, i requires 0 <= i < |p| => WordAt(g, p[i]))
  }

  function Texts(m: seq<Elem>): seq<Word> {
    seq(|m|, i requires 0 <= i < |m| => m[i].word)
  }

  lemma ChainPrefix(g: seq<Elem>, p: seq<nat>, k: nat)
    requires g != [] && IsChain(g, p) && 0 < k <= |p|
    ensures IsChain(g, p[..k])
  {
  }

  /** The words of a chain spell the text from the group's start to the chain's end. */
  lemma {:induction false} ChainSpells(g: seq<Elem>, p: seq<nat>, text: Word)
    requires g != [] && AllCover(g, text) && IsChain(g, p)
    ensures var e := WordAt(g, p[|p| - 1]);
      && 0 <= g[0].pos <= e.pos < e.End() <= |text|
      && Join(Texts(WordsOf(g, p))) == text[g[0].pos..e.End()]
  {
    var k := |p| - 1;
    var e := WordAt(g, p[k]);
    assert Covers(e, text);
    var ws := Texts(WordsOf(g, p));
    assert ws == Texts(WordsOf(g, p[..k])) + [e.word];
    JoinSnoc(Texts(WordsOf(g, p[..k])), e.word);
    assert Covers(g[0], text);
    if k > 0 {
      ChainPrefix(g, p, k);
      ChainSpells(g, p[..k], text);
    } else {
      assert Texts(WordsOf(g, p[..k])) == [];
    }
  }

  /** A tiling is lossless: its words concatenate to the group's slice of the text. */
  lemma TilingSpells(g: seq<Elem>, p: seq<nat>, text: Word)
    requires g != [] && AllCover(g, text) && IsTiling(g, p)
    ensures 0 <= g[0].pos <= PosLast(g) <= |text|
    ensures Join(Texts(WordsOf(g, p))) == text[g[0].pos..PosLast(g)]
  {
    ChainSpells(g, p, text);
  }

  // ------------------------------------------------------------------- paths

  /** The edge list holds exactly the edges of the lattice. */
  ghost predicate IsGraph(g: seq<Elem>, edges: seq<Edge>)
    requires GroupOk(g)
  {
    forall e :: e in edges <==> IsEdge(g, e)
  }

  predicate HasEdge(edges: seq<Edge>, u: nat, v: nat) {
    exists e :: e in edges && e.from == u && e.to == v
  }

  predicate IsPath(edges: seq<Edge>, vs: seq<nat>) {
    forall i :: 0 < i < |vs| ==> HasEdge(edges, vs[i - 1], vs[i])
  }

  /** Vertex `v` comes next behind vertex `u`. */
  predicate Follows(g: seq<Elem>, u: nat, v: nat)
    requires g != []
  {
    if u == START then IsWordVertex(g, v) && WordAt(g, v).pos == g[0].pos
    else if !IsWordVertex(g, u) then false
    else if v == EndVertex(g) then WordAt(g, u).End() == PosLast(g)
    else IsWordVertex(g, v) && WordAt(g, u).End() == WordAt(g, v).pos
  }

  lemma HasEdgeIff(g: seq<Elem>, edges: seq<Edge>, u: nat, v: nat)
    requires GroupOk(g) && IsGraph(g, edges)
    ensures HasEdge(edges, u, v) <==> Follows(g, u, v)
  {
    if u == START && IsWordVertex(g, v) {
      assert IsEdge(g, Edge(u, v, 1.0 / WordAt(g, v).weight)) <==> WordAt(g, v).pos == g[0].pos;
    } else if IsWordVertex(g, u) {
      var e := Edge(u, v, 1.0 / WordAt(g, u).weight);
      assert IsEdge(g, e) <==> e in edges;
    }
  }

  lemma StepInside(g: seq<Elem>, edges: seq<Edge>, u: nat, v: nat)
    requires GroupOk(g) && IsGraph(g, edges) && HasEdge(edges, u, v)
    ensures u < v <= EndVertex(g)
  {
    var e :| e in edges && e.from == u && e.to == v;
    EdgeGoesForward(g, e);
  }

  lemma {:induction false} PathGrows(g: seq<Elem>, edges: seq<Edge>, vs: seq<nat>, i: nat, j: nat)
    requires GroupOk(g) && IsGraph(g, edges) && IsPath(edges, vs) && i < j < |vs|
    ensures vs[i] < vs[j] <= EndVertex(g)
  {
    assert HasEdge(edges, vs[j - 1], vs[j]);
    StepInside(g, edges, vs[j - 1], vs[j]);
    if i < j - 1 {
      PathGrows(g, edges, vs, i, j - 1);
    }
  }

  /** Every path from start to end runs through a tiling. */
  lemma PathIsTiling(g: seq<Elem>, edges: seq<Edge>, vs: seq<nat>)
    requires GroupOk(g) && IsGraph(g, edges) && IsPath(edges, vs)
    requires |vs| >= 2 && vs[0] == START && vs[|vs| - 1] == EndVertex(g)
    ensures IsTiling(g, vs[1..|vs| - 1])
  {
    var p := vs[1..|vs| - 1];
    HasEdgeIff(g, edges, vs[0], vs[1]);
    assert HasEdge(edges, vs[0], vs[1]);
    forall i | 0 <= i < |p| ensures IsWordVertex(g, p[i]) {
      PathGrows(g, edges, vs, 0, i + 1);
      PathGrows(g, edges, vs, i + 1, |vs| - 1);
    }
    forall i | 0 < i < |p| ensures WordAt(g, p[i - 1]).End() == WordAt(g, p[i]).pos {
      assert HasEdge(edges, vs[i], vs[i + 1]);
      HasEdgeIff(g, edges, vs[i], vs[i + 1]);
    }
    assert HasEdge(edges, vs[|vs| - 2], vs[|vs| - 1]);
    HasEdgeIff(g, edges, vs[|vs| - 2], vs[|vs| - 1]);
  }

  /** Every tiling is a path from start to end. */
  lemma TilingIsPath(g: seq<Elem>, edges: seq<Edge>, p: seq<nat>)
    requires GroupOk(g) && IsGraph(g, edges) && IsTiling(g, p)
    ensures IsPath(edges, [START] + p + [EndVertex(g)])
  {
    var vs := [START] + p + [EndVertex(g)];
    forall i | 0 < i < |vs| ensures HasEdge(edges, vs[i - 1], vs[i]) {
      HasEdgeIff(g, edges, vs[i - 1], vs[i]);
      assert i > 1 ==> vs[i - 1] == p[i - 2];
    }
  }

  // ---------------------------------------------------------- shortest paths

  datatype Distance = Infinite | Finite(d: real)

  predicate Forward(edges: seq<Edge>, n: nat) {
    forall e :: e in edges ==> e.from < e.to < n
  }

  /** `v` was reached last over one of the edges, at the distance recorded. */
  predicate Reached(edges: seq<Edge>, dist: seq<Distance>, v: nat, parent: nat, d: Distance) {
    exists e :: e in edges && e.to == v && e.from == parent && e.from < |dist|
      && dist[e.from].Finite? && d == Finite(dist[e.from].d + e.cost)
  }

  /** No edge leads to its target more cheaply than recorded. */
  predicate Settled(e: Edge, dist: seq<Distance>, d: Distance) {
    e.from < |dist| && dist[e.from].Finite? ==> d.Finite? && d.d <= dist[e.from].d + e.cost
  }

  /** What `dijkstra_shortest_paths` promises about its two maps. */
  predicate ShortestTree(edges: seq<Edge>, n: nat, parents: seq<nat>, dist: seq<Distance>) {
    && |parents| == |dist| == n && n > 0
    && parents[0] == 0 && dist[0] == Finite(0.0)
    && (forall v :: 0 < v < n ==>
          if dist[v].Infinite? then parents[v] == v else Reached(edges, dist, v, parents[v], dist[v]))
    && (forall e :: e in edges && e.to < n ==> Settled(e, dist, dist[e.to]))
  }

  /** The vertices from the start to `v`, the start left out. */
  function WalkBack(parents: seq<nat>, v: nat): seq<nat>
    requires forall u :: 0 < u < |parents| ==> parents[u] <= u
    requires v < |parents|
  {
    if v == START || parents[v] == v then [] else WalkBack(parents, parents[v]) + [v]
  }

  /** An edge between words extends a chain by its cost. */
  lemma ChainGrows(g: seq<Elem>, q: seq<nat>, e: Edge)
    requires GroupOk(g) && IsChain(g, q) && IsEdge(g, e)
    requires e.from == q[|q| - 1] && IsWordVertex(g, e.to)
    ensures IsChain(g, q + [e.to]) && Cost(g, q + [e.to]) == Cost(g, q) + e.cost
  {
    assert (q + [e.to])[..|q|] == q;
  }

  lemma ChainStarts(g: seq<Elem>, e: Edge)
    requires GroupOk(g) && IsEdge(g, e) && e.from == START
    ensures IsChain(g, [e.to]) && Cost(g, [e.to]) == e.cost
  {
  }

  /** The edge through which the tree reaches a word vertex. */
  lemma ParentEdge(g: seq<Elem>, edges: seq<Edge>, parents: seq<nat>, dist: seq<Distance>, v: nat) returns (e: Edge)
    requires GroupOk(g) && IsGraph(g, edges) && Forward(edges, |g| + 2)
    requires ShortestTree(edges, |g| + 2, parents, dist)
    requires IsWordVertex(g, v) && dist[v].Finite?
    ensures IsEdge(g, e) && e.to == v && e.from == parents[v] < v && dist[e.from].Finite?
    ensures dist[v] == Finite(dist[e.from].d + e.cost) && (e.from == START ==> dist[e.from].d == 0.0)
    ensures e.from != START ==> IsWordVertex(g, e.from)
  {
    e :| e in edges && e.to == v && e.from == parents[v] && dist[e.from].Finite?
      && dist[v] == Finite(dist[e.from].d + e.cost);
  }

  /** The tree path to a word vertex is a chain whose cost is the recorded distance. */
  lemma {:induction false} TreePathIsChain(g: seq<Elem>, edges: seq<Edge>, parents: seq<nat>,
                                           dist: seq<Distance>, v: nat)
    requires GroupOk(g) && IsGraph(g, edges) && Forward(edges, |g| + 2)
    requires ShortestTree(edges, |g| + 2, parents, dist)
    requires IsWordVertex(g, v) && dist[v].Finite?
    requires forall u :: 0 < u < |parents| ==> parents[u] <= u
    ensures var p := WalkBack(parents, v);
      IsChain(g, p) && p[|p| - 1] == v && dist[v] == Finite(Cost(g, p))
    decreases v
  {
    assert v < |parents|;
    hide Cost, Steps, IsChain, IsEdge, IsGraph, Forward, ShortestTree;
    var e := ParentEdge(g, edges, parents, dist, v);
    if e.from == START {
      assert WalkBack(parents, e.from) == [];
      assert WalkBack(parents, v) == [v];
      ChainStarts(g, e);
    } else {
      TreePathIsChain(g, edges, parents, dist, e.from);
      assert WalkBack(parents, v) == WalkBack(parents, e.from) + [v];
      ChainGrows(g, WalkBack(parents, e.from), e);
    }
  }

  /** Along every chain the recorded distance is at most the chain's cost. */
  lemma {:induction false} ChainCostsAtLeast(g: seq<Elem>, edges: seq<Edge>, parents: seq<nat>,
                                             dist: seq<Distance>, p: seq<nat>)
    requires GroupOk(g) && IsGraph(g, edges)
    requires ShortestTree(edges, |g| + 2, parents, dist) && IsChain(g, p)
    ensures var d := dist[p[|p| - 1]]; d.Finite? && d.d <= Cost(g, p)
  {
    var k := |p| - 1;
    if k == 0 {
      var e := Edge(START, p[0], 1.0 / WordAt(g, p[0]).weight);
      assert IsEdge(g, e);
      assert Settled(e, dist, dist[e.to]);
    } else {
      ChainPrefix(g, p, k);
      ChainCostsAtLeast(g, edges, parents, dist, p[..k]);
      var e := Edge(p[k - 1], p[k], 1.0 / WordAt(g, p[k - 1]).weight);
      assert IsEdge(g, e);
      assert Settled(e, dist, dist[e.to]);
    }
  }

  ghost predicate HasTiling(g: seq<Elem>)
    requires g != []
  {
    exists p: seq<nat> :: IsTiling(g, p)
  }

  /** A tiling that no other tiling undercuts. */
  ghost predicate IsBestTiling(g: seq<Elem>, p: seq<nat>)
    requires GroupOk(g)
  {
    IsTiling(g, p) && forall q: seq<nat> :: IsTiling(g, q) ==> Cost(g, p) <= Cost(g, q)
  }

  /** A tiling makes the end reachable, at no more than the tiling's cost. */
  lemma TilingReachesEnd(g: seq<Elem>, edges: seq<Edge>, parents: seq<nat>, dist: seq<Distance>, q: seq<nat>)
    requires GroupOk(g) && IsGraph(g, edges)
    requires ShortestTree(edges, |g| + 2, parents, dist) && IsTiling(g, q)
    ensures var d := dist[EndVertex(g)]; d.Finite? && d.d <= Cost(g, q)
  {
    ChainCostsAtLeast(g, edges, parents, dist, q);
    var e := Edge(q[|q| - 1], EndVertex(g), 0.0);
    assert IsEdge(g, e);
    assert Settled(e, dist, dist[e.to]);
  }

  lemma EndIsReachedFromWord(g: seq<Elem>, edges: seq<Edge>, parents: seq<nat>, dist: seq<Distance>)
    requires GroupOk(g) && IsGraph(g, edges)
    requires ShortestTree(edges, |g| + 2, parents, dist) && dist[EndVertex(g)].Finite?
    ensures var v := EndVertex(g); var u := parents[v];
      && IsWordVertex(g, u) && WordAt(g, u).End() == PosLast(g)
      && dist[u].Finite? && dist[u].d <= dist[v].d
  {
    var v := EndVertex(g);
    assert Reached(edges, dist, v, parents[v], dist[v]);
    var e :| e in edges && e.to == v && e.from == parents[v] && dist[e.from].Finite?
      && dist[v] == Finite(dist[e.from].d + e.cost);
    EdgeCostsNothingLess(g, e);
  }

  /** The tree path to the end vertex is a tiling of at most the recorded cost. */
  lemma EndPathIsTiling(g: seq<Elem>, edges: seq<Edge>, parents: seq<nat>, dist: seq<Distance>)
    requires GroupOk(g) && IsGraph(g, edges) && Forward(edges, |g| + 2)
    requires ShortestTree(edges, |g| + 2, parents, dist) && dist[EndVertex(g)].Finite?
    requires forall u :: 0 < u < |parents| ==> parents[u] <= u
    ensures parents[EndVertex(g)] <= |g|
    ensures var p := WalkBack(parents, parents[EndVertex(g)]);
      IsTiling(g, p) && Cost(g, p) <= dist[EndVertex(g)].d
  {
    EndIsReachedFromWord(g, edges, parents, dist);
    TreePathIsChain(g, edges, parents, dist, parents[EndVertex(g)]);
  }

  /**
   * The shortest path selects a cheapest tiling, and the end vertex is its own
   * parent exactly when the group has no tiling.
   */
  lemma ShortestPathIsBestTiling(g: seq<Elem>, edges: seq<Edge>, parents: seq<nat>, dist: seq<Distance>)
    requires GroupOk(g) && IsGraph(g, edges) && Forward(edges, |g| + 2)
    requires ShortestTree(edges, |g| + 2, parents, dist)
    requires forall u :: 0 < u < |parents| ==> parents[u] <= u
    ensures HasTiling(g) <==> parents[EndVertex(g)] != EndVertex(g)
    ensures HasTiling(g) ==> IsBestTiling(g, WalkBack(parents, parents[EndVertex(g)]))
  {
    var v := EndVertex(g);
    forall q: seq<nat> | IsTiling(g, q)
      ensures dist[v].Finite? && dist[v].d <= Cost(g, q)
    {
      TilingReachesEnd(g, edges, parents, dist, q);
    }
    if dist[v].Finite? {
      EndPathIsTiling(g, edges, parents, dist);
    }
  }
}
