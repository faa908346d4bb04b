/** Building the lattice of a group the way `calcPrediction` does, and finding a
    shortest path through it. */
module LatticeBuilder {
  import opened Bytes
  import opened WordElements
  import opened WordGroups
  import opened WordLattice

  /** An entry of `vertexWator`: a vertex, filed under the position where it starts. */
  datatype Entry = Entry(key: int, word: Word, vertex: nat, weight: real)

  const START_LABEL: Word := [83]  // "S"
  const END_LABEL: Word := [69]    // "E"

  function WordEntry(g: seq<Elem>, i: nat): Entry
    requires i < |g|
  {
    Entry(g[i].pos, g[i].word, i + 1, g[i].weight)
  }

  function Table(g: seq<Elem>): seq<Entry>
    requires g != []
  {
    [Entry(-1, START_LABEL, START, 1.0)]
    + seq(|g|, i requires 0 <= i < |g| => WordEntry(g, i))
    + [Entry(PosLast(g), END_LABEL, EndVertex(g), 1.0)]
  }

  /** `equal_range`: the entries under a key, in the order they were inserted. */
  function EqualRange(table: seq<Entry>, key: int): seq<Entry> {
    if table == [] then []
    else
      var rest, last := table[..|table| - 1], table[|table| - 1];
      EqualRange(rest, key) + (if last.key == key then [last] else [])
  }

  lemma {:induction false} InEqualRange(table: seq<Entry>, key: int, x: Entry)
    ensures x in EqualRange(table, key) <==> x in table && x.key == key
  {
    if table != [] {
      InEqualRange(table[..|table| - 1], key, x);
      assert table == table[..|table| - 1] + [table[|table| - 1]];
    }
  }

  /** The vertices that start at a place: words there, and the end vertex at the last position. */
  lemma VerticesAt(g: seq<Elem>, key: int, x: Entry)
    requires GroupOk(g) && key >= 0
    ensures x in EqualRange(Table(g), key) <==>
      || (IsWordVertex(g, x.vertex) && x == WordEntry(g, x.vertex - 1) && x.key == key)
      || (x == Entry(PosLast(g), END_LABEL, EndVertex(g), 1.0) && key == PosLast(g))
  {
    InEqualRange(Table(g), key, x);
    if IsWordVertex(g, x.vertex) && x == WordEntry(g, x.vertex - 1) {
      assert Table(g)[x.vertex] == x;
    }
    if x == Entry(PosLast(g), END_LABEL, EndVertex(g), 1.0) {
      assert Table(g)[|g| + 1] == x;
    }
  }

  lemma NothingBehindLast(g: seq<Elem>, key: int)
    requires GroupOk(g) && key > PosLast(g)
    ensures EqualRange(Table(g), key) == []
  {
    var r := EqualRange(Table(g), key);
    if r != [] {
      VerticesAt(g, key, r[0]);
      assert false;
    }
  }

  /** The first loop of `calcPrediction`: one vertex per word, and the last position. */
  method BuildTable(g: seq<Elem>) returns (table: seq<Entry>, posLast: int)
    requires GroupOk(g)
    ensures table == Table(g) && posLast == PosLast(g)
  {
    table := [Entry(-1, START_LABEL, START, 1.0)];
    posLast := 0;
    var i := 0;
    while i < |g|
      invariant 0 <= i <= |g|
      invariant table == Table(g)[..i + 1]
      invariant i > 0 ==> posLast == g[i - 1].End()
    {
      table := table + [Entry(g[i].pos, g[i].word, i + 1, g[i].weight)];
      posLast := g[i].pos + |g[i].word|;
      i := i + 1;
    }
    table := table + [Entry(posLast, END_LABEL, i + 1, 1.0)];
  }

  lemma RangePositive(g: seq<Elem>, key: int)
    requires GroupOk(g) && key >= 0
    ensures forall k :: 0 <= k < |EqualRange(Table(g), key)| ==> EqualRange(Table(g), key)[k].weight > 0.0
  {
    forall k | 0 <= k < |EqualRange(Table(g), key)| ensures EqualRange(Table(g), key)[k].weight > 0.0 {
      VerticesAt(g, key, EqualRange(Table(g), key)[k]);
    }
  }

  /** "add dummy start": edges from the start vertex to every word at the first position. */
  method AddStart(g: seq<Elem>, table: seq<Entry>) returns (edges: seq<Edge>)
    requires GroupOk(g) && table == Table(g)
    ensures forall e :: e in edges <==> e.from == START && IsEdge(g, e)
  {
    var range := EqualRange(table, g[0].pos);
    RangePositive(g, g[0].pos);
    edges := [];
    var i := 0;
    while i < |range|
      invariant 0 <= i <= |range| == |EqualRange(table, g[0].pos)|
      invariant |edges| == i
      invariant forall k :: 0 <= k < i ==> edges[k] == Edge(START, range[k].vertex, 1.0 / range[k].weight)
    {
      edges := edges + [Edge(START, range[i].vertex, 1.0 / range[i].weight)];
      i := i + 1;
    }
    assert g[0].pos <= g[|g| - 1].pos < PosLast(g);
    forall e ensures e in edges <==> e.from == START && IsEdge(g, e) {
      if e in edges {
        var k :| 0 <= k < |edges| && edges[k] == e;
        VerticesAt(g, g[0].pos, range[k]);
      }
      if e.from == START && IsEdge(g, e) {
        var x := WordEntry(g, e.to - 1);
        VerticesAt(g, g[0].pos, x);
        var k :| 0 <= k < |range| && range[k] == x;
        assert edges[k] == e;
      }
    }
  }

  // ------------------------------------------------------- edges of the hints

  /** The hint names the same word at the same position. */
  predicate Matches(hint: Elem, w: Elem) {
    hint.word == w.word && hint.pos == w.pos
  }

  predicate HintOk(h: Elem) {
    0 <= h.pos && 0 < h.range == |h.word|
  }

  lemma MatchIsUnique(g: seq<Elem>, hint: Elem, u: nat, v: nat)
    requires GroupOk(g) && IsWordVertex(g, u) && IsWordVertex(g, v)
    requires Matches(hint, WordAt(g, u)) && Matches(hint, WordAt(g, v))
    ensures u == v
  {
  }

  /** The scan for a vertex with the hint's word, up to its `break`. */
  method FindVertex(range: seq<Entry>, word: Word) returns (found: bool, x: Entry)
    ensures found ==> x in range && x.word == word
    ensures !found ==> forall y :: y in range ==> y.word != word
  {
    found, x := false, Entry(0, [], 0, 0.0);
    var i := 0;
    while i < |range|
      invariant 0 <= i <= |range|
      invariant forall k :: 0 <= k < i ==> range[k].word != word
    {
      if range[i].word == word {
        return true, range[i];
      }
      i := i + 1;
    }
  }

  ghost predicate InFan(e: Edge, from: nat, range: seq<Entry>, cost: real) {
    e.from == from && e.cost == cost && exists x :: x in range && x.vertex == e.to
  }

  /** Edges of one cost from a vertex to every vertex in a range. */
  method Fan(from: nat, range: seq<Entry>, cost: real) returns (edges: seq<Edge>)
    ensures forall e :: e in edges <==> InFan(e, from, range, cost)
  {
    edges := [];
    var i := 0;
    while i < |range|
      invariant 0 <= i <= |range| && |edges| == i
      invariant forall k :: 0 <= k < i ==> edges[k] == Edge(from, range[k].vertex, cost)
    {
      edges := edges + [Edge(from, range[i].vertex, cost)];
      i := i + 1;
    }
    forall e: Edge | InFan(e, from, range, cost)
      ensures e in edges
    {
      var x :| x in range && x.vertex == e.to;
      var k :| 0 <= k < |range| && range[k] == x;
      assert edges[k] == e;
    }
  }

  /** The edges that leave the word a hint names. */
  predicate FromHint(g: seq<Elem>, hint: Elem, e: Edge)
    requires GroupOk(g)
  {
    IsEdge(g, e) && e.from != START && Matches(hint, WordAt(g, e.from))
  }

  lemma NoVertexNoEdge(g: seq<Elem>, hint: Elem, e: Edge)
    requires GroupOk(g) && HintOk(hint) && FromHint(g, hint, e)
    ensures WordEntry(g, e.from - 1) in EqualRange(Table(g), hint.pos) && hint.pos < PosLast(g)
  {
    VerticesAt(g, hint.pos, WordEntry(g, e.from - 1));
    assert g[e.from - 1].pos <= g[|g| - 1].pos;
  }

  lemma WordEdges(g: seq<Elem>, hint: Elem, v: nat, e: Edge)
    requires GroupOk(g) && HintOk(hint) && IsWordVertex(g, v) && Matches(hint, WordAt(g, v))
    ensures FromHint(g, hint, e) <==>
      || InFan(e, v, EqualRange(Table(g), hint.pos + hint.range), 1.0 / WordAt(g, v).weight)
      || (PosLast(g) == hint.pos + hint.range && e == Edge(v, EndVertex(g), 0.0))
  {
    var next := hint.pos + hint.range;
    var r := EqualRange(Table(g), next);
    if FromHint(g, hint, e) {
      MatchIsUnique(g, hint, e.from, v);
      if e.to == EndVertex(g) {
        VerticesAt(g, next, Entry(PosLast(g), END_LABEL, EndVertex(g), 1.0));
      } else {
        VerticesAt(g, next, WordEntry(g, e.to - 1));
      }
    }
    if InFan(e, v, r, 1.0 / WordAt(g, v).weight) {
      var x :| x in r && x.vertex == e.to;
      VerticesAt(g, next, x);
    }
  }

  /** The body of the loop over `wordHintSeq_`: all edges that leave the word the
      hint names, if the group has it. */
  method AddHint(g: seq<Elem>, table: seq<Entry>, posLast: int, hint: Elem) returns (edges: seq<Edge>)
    requires GroupOk(g) && table == Table(g) && posLast == PosLast(g) && HintOk(hint)
    ensures forall e :: e in edges <==> FromHint(g, hint, e)
  {
    hide EqualRange, Table, FromHint;
    edges := [];
    var next := hint.pos + hint.range;
    var found, x := FindVertex(EqualRange(table, hint.pos), hint.word);
    if found {
      VerticesAt(g, hint.pos, x);
      edges := Fan(x.vertex, EqualRange(table, next), 1.0 / x.weight);
    }
    if posLast == next {
      // "add dummy end"
      if found {
        edges := edges + [Edge(x.vertex, EndVertex(g), 0.0)];
      }
    }
    if found && IsWordVertex(g, x.vertex) {
      WordEdgesAll(g, hint, x.vertex);
    } else {
      NoWordEdges(g, hint);
    }
  }

  lemma WordEdgesAll(g: seq<Elem>, hint: Elem, v: nat)
    requires GroupOk(g) && HintOk(hint) && IsWordVertex(g, v) && Matches(hint, WordAt(g, v))
    ensures forall e: Edge :: FromHint(g, hint, e) <==>
      || InFan(e, v, EqualRange(Table(g), hint.pos + hint.range), 1.0 / WordAt(g, v).weight)
      || (PosLast(g) == hint.pos + hint.range && e == Edge(v, EndVertex(g), 0.0))
  {
    forall e: Edge ensures FromHint(g, hint, e) <==>
      || InFan(e, v, EqualRange(Table(g), hint.pos + hint.range), 1.0 / WordAt(g, v).weight)
      || (PosLast(g) == hint.pos + hint.range && e == Edge(v, EndVertex(g), 0.0))
    {
      WordEdges(g, hint, v, e);
    }
  }

  /** A hint that names no word of the group leaves no edge; it may name the end
      vertex, but behind that nothing starts. */
  lemma NoWordEdges(g: seq<Elem>, hint: Elem)
    requires GroupOk(g) && HintOk(hint)
    requires hint.pos == PosLast(g) || forall x :: x in EqualRange(Table(g), hint.pos) ==> x.word != hint.word
    ensures forall e: Edge :: !FromHint(g, hint, e)
    ensures hint.pos == PosLast(g) ==> EqualRange(Table(g), hint.pos + hint.range) == []
  {
    forall e: Edge ensures !FromHint(g, hint, e) {
      if FromHint(g, hint, e) {
        NoVertexNoEdge(g, hint, e);
      }
    }
    if hint.pos == PosLast(g) {
      NothingBehindLast(g, hint.pos + hint.range);
    }
  }

  predicate Named(g: seq<Elem>, hints: seq<Elem>, v: nat) {
    IsWordVertex(g, v) && exists k :: 0 <= k < |hints| && Matches(hints[k], WordAt(g, v))
  }

  /**
   * The graph of `calcPrediction`.  When every word of the group is among the
   * hints, its edges are exactly those of the lattice.
   */
  method BuildGraph(g: seq<Elem>, hints: seq<Elem>) returns (edges: seq<Edge>)
    requires GroupOk(g)
    requires forall k :: 0 <= k < |hints| ==> HintOk(hints[k])
    requires forall v: nat :: IsWordVertex(g, v) ==> Named(g, hints, v)
    ensures IsGraph(g, edges)
  {
    var table, posLast := BuildTable(g);
    edges := AddStart(g, table);
    var i := 0;
    while i < |hints|
      invariant 0 <= i <= |hints|
      invariant forall e :: e in edges <==> IsEdge(g, e) && (e.from == START || Named(g, hints[..i], e.from))
    {
      var more := AddHint(g, table, posLast, hints[i]);
      NamedSnoc(g, hints, i);
      edges := edges + more;
      i := i + 1;
    }
    assert hints[..|hints|] == hints;
  }

  lemma NamedSnoc(g: seq<Elem>, hints: seq<Elem>, i: nat)
    requires i < |hints|
    ensures forall v :: Named(g, hints[..i + 1], v) <==>
      Named(g, hints[..i], v) || (IsWordVertex(g, v) && Matches(hints[i], WordAt(g, v)))
  {
    var a, b := hints[..i], hints[..i + 1];
    assert b == a + [hints[i]];
    forall v | Named(g, b, v) ensures Named(g, a, v) || Matches(hints[i], WordAt(g, v)) {
      var k :| 0 <= k < |b| && Matches(b[k], WordAt(g, v));
      assert k < i ==> a[k] == b[k];
    }
    forall v | Named(g, a, v) ensures Named(g, b, v) {
      var k :| 0 <= k < |a| && Matches(a[k], WordAt(g, v));
      assert b[k] == a[k];
    }
    forall v | IsWordVertex(g, v) && Matches(hints[i], WordAt(g, v)) ensures Named(g, b, v) {
      assert b[i] == hints[i];
    }
  }

  // ------------------------------------------------------------ shortest path

  /** The cheapest way into `v` from vertices that are settled already. */
  method BestEdge(edges: seq<Edge>, dist: seq<Distance>, v: nat) returns (parent: nat, best: Distance)
    requires v == |dist| && forall e :: e in edges ==> e.from < e.to
    ensures if best.Infinite? then parent == v else parent < v && Reached(edges, dist, v, parent, best)
    ensures forall e :: e in edges && e.to == v ==> Settled(e, dist, best)
  {
    parent, best := v, Infinite;
    var i := 0;
    while i < |edges|
      invariant 0 <= i <= |edges|
      invariant if best.Infinite? then parent == v else parent < v && Reached(edges, dist, v, parent, best)
      invariant forall k :: 0 <= k < i && edges[k].to == v ==> Settled(edges[k], dist, best)
    {
      var e := edges[i];
      if e.to == v && dist[e.from].Finite? {
        var d := dist[e.from].d + e.cost;
        if best.Infinite? || d < best.d {
          parent, best := e.from, Finite(d);
        }
      }
      i := i + 1;
    }
  }

  /** A shortest-path tree, found by settling the vertices in topological order. */
  method ShortestPaths(edges: seq<Edge>, n: nat) returns (parents: seq<nat>, dist: seq<Distance>)
    requires n > 0 && Forward(edges, n)
    ensures ShortestTree(edges, n, parents, dist)
    ensures forall u :: 0 < u < n ==> parents[u] <= u
  {
    parents, dist := [0], [Finite(0.0)];
    var v := 1;
    while v < n
      invariant 1 <= v <= n
      invariant ShortestTree(edges, v, parents, dist)
      invariant forall u :: 0 < u < v ==> parents[u] <= u
    {
      var parent, best := BestEdge(edges, dist, v);
      TreeGrows(edges, v, parents, dist, parent, best);
      parents, dist := parents + [parent], dist + [best];
      v := v + 1;
    }
  }

  lemma TreeGrows(edges: seq<Edge>, v: nat, parents: seq<nat>, dist: seq<Distance>, parent: nat, best: Distance)
    requires v > 0 && ShortestTree(edges, v, parents, dist)
    requires forall e :: e in edges ==> e.from < e.to
    requires if best.Infinite? then parent == v else parent < v && Reached(edges, dist, v, parent, best)
    requires forall e :: e in edges && e.to == v ==> Settled(e, dist, best)
    ensures ShortestTree(edges, v + 1, parents + [parent], dist + [best])
  {
    var ps, ds := parents + [parent], dist + [best];
    forall u | 0 < u <= v && ds[u].Finite? ensures Reached(edges, ds, u, ps[u], ds[u]) {
      assert u < v ==> Reached(edges, dist, u, parents[u], dist[u]);
      assert Reached(edges, dist, u, ps[u], ds[u]);
    }
    forall e | e in edges && e.to <= v ensures Settled(e, ds, ds[e.to]) {
      assert e.to < v ==> Settled(e, dist, dist[e.to]);
    }
  }

  function Reversed(s: seq<nat>): (r: seq<nat>)
    ensures |r| == |s|
  {
    seq(|s|, i requires 0 <= i < |s| => s[|s| - 1 - i])
  }

  /** Following the parents from `v` leads back to the start vertex. */
  predicate Rooted(parents: seq<nat>, v: nat) {
    v == START || (v < |parents| && parents[v] < v && Rooted(parents, parents[v]))
  }

  lemma {:induction false} FiniteIsRooted(edges: seq<Edge>, n: nat, parents: seq<nat>, dist: seq<Distance>, v: nat)
    requires Forward(edges, n) && ShortestTree(edges, n, parents, dist) && v < n && dist[v].Finite?
    ensures Rooted(parents, v)
  {
    if v != START {
      assert Reached(edges, dist, v, parents[v], dist[v]);
      FiniteIsRooted(edges, n, parents, dist, parents[v]);
    }
  }

  /** The walk from the end vertex over the parents, which fills `path` back to front. */
  method CollectPath(parents: seq<nat>, end: nat) returns (path: seq<nat>)
    requires 0 < end < |parents| && Rooted(parents, end)
    requires forall u :: 0 < u < |parents| ==> parents[u] <= u
    ensures Reversed(path) == WalkBack(parents, parents[end])
  {
    path := [];
    var v: nat := end;
    while v != START
      invariant v <= end && Rooted(parents, v)
      invariant v == end ==> path == []
      invariant v < end ==> WalkBack(parents, parents[end]) == WalkBack(parents, v) + Reversed(path)
      decreases v
    {
      if v != end {
        assert Reversed(path + [v]) == [v] + Reversed(path);
        path := path + [v];
      }
      v := parents[v];
    }
  }
}
