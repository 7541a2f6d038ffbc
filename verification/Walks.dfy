/** Directed graphs with weighted adjacency lists, their walks, and what a shortest distance is. */
module Walks {

  const INT32_MAX := 0x7fff_ffff

  /** `g[u]` lists the pairs (target, weight) of the edges that leave `u`. */
  type Graph = seq<seq<(int, int)>>

  /** An edge by its ends and weight: parallel edges of the same weight are the same arc. */
  datatype Arc = Arc(src: int, dst: int, weight: int)

  ghost predicate ArcOf(g: Graph, a: Arc) {
    0 <= a.src < |g| && (a.dst, a.weight) in g[a.src]
  }

  /** Every edge stays inside the graph and has a weight that is not negative. */
  ghost predicate WellFormed(g: Graph) {
    forall u, k :: 0 <= u < |g| && 0 <= k < |g[u]| ==> 0 <= g[u][k].0 < |g| && 0 <= g[u][k].1
  }

  ghost predicate Walk(g: Graph, from: int, arcs: seq<Arc>, to: int)
    decreases |arcs|
  {
    if arcs == [] then from == to
    else
      var last := arcs[|arcs| - 1];
      ArcOf(g, last) && last.dst == to && Walk(g, from, arcs[..|arcs| - 1], last.src)
  }

  ghost function Weight(arcs: seq<Arc>): int
    decreases |arcs|
  {
    if arcs == [] then 0 else Weight(arcs[..|arcs| - 1]) + arcs[|arcs| - 1].weight
  }

  /** The vertices a walk from `from` visits, in order. */
  ghost function Nodes(from: int, arcs: seq<Arc>): (nodes: seq<int>)
    ensures |nodes| == |arcs| + 1
    decreases |arcs|
  {
    if arcs == [] then [from] else Nodes(from, arcs[..|arcs| - 1]) + [arcs[|arcs| - 1].dst]
  }

  /** `d` is the least weight of a walk from `from` to `to`, or INT32_MAX exactly when there is none. */
  ghost predicate ShortestDistance(g: Graph, from: int, to: int, d: int) {
    && (d == INT32_MAX <==> !exists arcs :: Walk(g, from, arcs, to))
    && (d != INT32_MAX ==> exists arcs :: Walk(g, from, arcs, to) && Weight(arcs) == d)
    && (forall arcs :: Walk(g, from, arcs, to) ==> d <= Weight(arcs))
  }

  /**
   * No distance, and no distance plus the weight of an edge from there, is too much for 32 bits; and no distance is
   * INT32_MAX, which stands for infinity.
   */
  ghost predicate Fits(g: Graph, from: int) {
    && (forall arcs, v :: Walk(g, from, arcs, v) ==>
          exists light :: Walk(g, from, light, v) && Weight(light) < INT32_MAX)
    && (forall arcs, a: Arc :: Walk(g, from, arcs, a.src) && ArcOf(g, a) ==>
          exists light :: Walk(g, from, light, a.src) && Weight(light) + a.weight <= INT32_MAX)
  }

  ghost predicate Distinct<T(!new)>(s: seq<T>) {
    forall i, j :: 0 <= i < j < |s| ==> s[i] != s[j]
  }

  lemma DistinctBound(s: seq<int>, n: nat)
    requires Distinct(s) && forall i :: 0 <= i < |s| ==> 0 <= s[i] < n
    ensures |s| <= n
  {
    DistinctCardinality(s);
    BelowIs(n);
    SubsetCardinality((set x | x in s), Below(n));
  }

  ghost function Below(n: nat): set<int> {
    if n == 0 then {} else Below(n - 1) + {n - 1}
  }

  lemma {:induction false} BelowIs(n: nat)
    ensures |Below(n)| == n && forall x :: x in Below(n) <==> 0 <= x < n
  {
    if n > 0 {
      BelowIs(n - 1);
    }
  }

  lemma {:induction false} DistinctCardinality<T(!new)>(s: seq<T>)
    requires Distinct(s)
    ensures |set x | x in s| == |s|
  {
    if s != [] {
      var init := s[..|s| - 1];
      DistinctCardinality(init);
      assert (set x | x in s) == (set x | x in init) + {s[|s| - 1]};
    }
  }

  lemma {:induction false} SubsetCardinality<T>(a: set<T>, b: set<T>)
    requires a <= b
    ensures |a| <= |b|
  {
    if a != {} {
      var x :| x in a;
      SubsetCardinality(a - {x}, b - {x});
    }
  }

  /** Number of edges of the graph. */
  ghost function EdgeCount(g: Graph): nat {
    if g == [] then 0 else |g[|g| - 1]| + EdgeCount(g[..|g| - 1])
  }

  /** Number of edges that leave the vertices listed in `s`. */
  ghost function OutEdges(g: Graph, s: seq<int>): nat
    requires forall i :: 0 <= i < |s| ==> 0 <= s[i] < |g|
  {
    if s == [] then 0 else OutEdges(g, s[..|s| - 1]) + |g[s[|s| - 1]]|
  }

  lemma {:induction false} EdgeCountWithout(g: Graph, u: int)
    requires 0 <= u < |g|
    ensures EdgeCount(g) == EdgeCount(g[u := []]) + |g[u]|
  {
    var n := |g| - 1;
    if u == n {
      assert g[u := []][..n] == g[..n];
    } else {
      EdgeCountWithout(g[..n], u);
      assert g[u := []][..n] == g[..n][u := []];
    }
  }

  lemma {:induction false} OutEdgesWithout(g: Graph, u: int, s: seq<int>)
    requires 0 <= u < |g| && u !in s
    requires forall i :: 0 <= i < |s| ==> 0 <= s[i] < |g|
    ensures OutEdges(g, s) == OutEdges(g[u := []], s)
  {
    if s != [] {
      assert s[|s| - 1] in s;
      OutEdgesWithout(g, u, s[..|s| - 1]);
    }
  }

  lemma {:induction false} OutEdgesBound(g: Graph, s: seq<int>)
    requires Distinct(s) && forall i :: 0 <= i < |s| ==> 0 <= s[i] < |g|
    ensures OutEdges(g, s) <= EdgeCount(g)
    decreases |s|
  {
    if s != [] {
      var u, init := s[|s| - 1], s[..|s| - 1];
      OutEdgesWithout(g, u, init);
      OutEdgesBound(g[u := []], init);
      EdgeCountWithout(g, u);
    }
  }

  // ---------------------------------------------------------------- when distances fit into 32 bits

  lemma NotNegative(g: Graph, a: Arc)
    requires WellFormed(g) && ArcOf(g, a)
    ensures 0 <= a.dst < |g| && 0 <= a.weight
  {
    var k :| 0 <= k < |g[a.src]| && g[a.src][k] == (a.dst, a.weight);
  }

  lemma {:induction false} WeightNotNegative(g: Graph, from: int, arcs: seq<Arc>, to: int)
    requires WellFormed(g) && Walk(g, from, arcs, to)
    ensures 0 <= Weight(arcs)
    decreases |arcs|
  {
    if arcs != [] {
      var last := arcs[|arcs| - 1];
      NotNegative(g, last);
      WeightNotNegative(g, from, arcs[..|arcs| - 1], last.src);
    }
  }

  /** Among the walks to a vertex there is a lightest one. */
  lemma {:induction false} LightestWalk(g: Graph, from: int, arcs: seq<Arc>, to: int) returns (light: seq<Arc>)
    requires WellFormed(g) && Walk(g, from, arcs, to)
    ensures Walk(g, from, light, to) && forall other :: Walk(g, from, other, to) ==> Weight(light) <= Weight(other)
    decreases Weight(arcs)
  {
    WeightNotNegative(g, from, arcs, to);
    if other :| Walk(g, from, other, to) && Weight(other) < Weight(arcs) {
      WeightNotNegative(g, from, other, to);
      light := LightestWalk(g, from, other, to);
    } else {
      light := arcs;
    }
  }

  /** `dist` is right, and what the search adds up from it does not overflow. */
  ghost predicate Representable(g: Graph, from: int, dist: seq<int>) {
    && |dist| == |g|
    && (forall v :: 0 <= v < |g| ==> dist[v] <= INT32_MAX && ShortestDistance(g, from, v, dist[v]))
    && (forall a :: ArcOf(g, a) && dist[a.src] != INT32_MAX ==> dist[a.src] + a.weight <= INT32_MAX)
  }

  ghost function DistanceTo(g: Graph, from: int, v: int): (d: int)
    requires WellFormed(g) && Fits(g, from)
    ensures d <= INT32_MAX && ShortestDistance(g, from, v, d)
  {
    if arcs :| Walk(g, from, arcs, v) then
      DistanceExists(g, from, arcs, v);
      var d :| d <= INT32_MAX && ShortestDistance(g, from, v, d);
      d
    else INT32_MAX
  }

  lemma DistanceExists(g: Graph, from: int, arcs: seq<Arc>, v: int)
    requires WellFormed(g) && Fits(g, from) && Walk(g, from, arcs, v)
    ensures exists d :: d <= INT32_MAX && ShortestDistance(g, from, v, d)
  {
    var light := LightestWalk(g, from, arcs, v);
    var lighter :| Walk(g, from, lighter, v) && Weight(lighter) < INT32_MAX;
    assert ShortestDistance(g, from, v, Weight(light));
  }

  /** The condition is exact: a graph fits exactly when a right answer exists that the search can reach in 32 bits. */
  lemma FitsExactly(g: Graph, from: int)
    requires WellFormed(g) && 0 <= from < |g|
    ensures Fits(g, from) <==> exists dist :: Representable(g, from, dist)
  {
    if Fits(g, from) {
      var dist := seq(|g|, v requires 0 <= v < |g| => DistanceTo(g, from, v));
      forall a | ArcOf(g, a) && dist[a.src] != INT32_MAX ensures dist[a.src] + a.weight <= INT32_MAX {
        var arcs :| Walk(g, from, arcs, a.src);
        var light :| Walk(g, from, light, a.src) && Weight(light) + a.weight <= INT32_MAX;
      }
      assert Representable(g, from, dist);
    }
    if dist :| Representable(g, from, dist) {
      forall arcs, v | Walk(g, from, arcs, v)
        ensures exists light :: Walk(g, from, light, v) && Weight(light) < INT32_MAX
      {
        WalkInside(g, from, arcs, v);
        var light :| Walk(g, from, light, v) && Weight(light) == dist[v];
      }
      forall arcs, a: Arc | Walk(g, from, arcs, a.src) && ArcOf(g, a)
        ensures exists light :: Walk(g, from, light, a.src) && Weight(light) + a.weight <= INT32_MAX
      {
        var light :| Walk(g, from, light, a.src) && Weight(light) == dist[a.src];
      }
    }
  }

  lemma {:induction false} WalkInside(g: Graph, from: int, arcs: seq<Arc>, to: int)
    requires WellFormed(g) && 0 <= from < |g| && Walk(g, from, arcs, to)
    ensures 0 <= to < |g|
    ensures forall i :: 0 <= i < |Nodes(from, arcs)| ==> 0 <= Nodes(from, arcs)[i] < |g|
    decreases |arcs|
  {
    if arcs != [] {
      var last := arcs[|arcs| - 1];
      NotNegative(g, last);
      WalkInside(g, from, arcs[..|arcs| - 1], last.src);
    }
  }

  lemma {:induction false} PrefixWalk(g: Graph, from: int, arcs: seq<Arc>, to: int, i: nat)
    requires Walk(g, from, arcs, to) && i < |Nodes(from, arcs)|
    ensures Walk(g, from, arcs[..i], Nodes(from, arcs)[i]) && Nodes(from, arcs[..i]) == Nodes(from, arcs)[..i + 1]
    decreases |arcs|
  {
    if arcs != [] {
      var n, init := |arcs| - 1, arcs[..|arcs| - 1];
      PrefixWalk(g, from, init, arcs[n].src, if i < |arcs| then i else 0);
      if i < |arcs| {
        assert init[..i] == arcs[..i];
      } else {
        assert arcs[..i] == arcs;
      }
    }
  }

  lemma AppendArc(g: Graph, from: int, arcs: seq<Arc>, a: Arc)
    requires Walk(g, from, arcs, a.src) && ArcOf(g, a)
    ensures Walk(g, from, arcs + [a], a.dst) && Weight(arcs + [a]) == Weight(arcs) + a.weight
    ensures Nodes(from, arcs + [a]) == Nodes(from, arcs) + [a.dst]
  {
    assert (arcs + [a])[..|arcs|] == arcs;
  }

  lemma NoArcs(from: int)
    ensures Nodes(from, []) == [from]
  {
  }

  /** What a walk reaches, a walk reaches that visits no vertex twice. */
  lemma {:induction false} SimpleWalk(g: Graph, from: int, arcs: seq<Arc>, to: int) returns (simple: seq<Arc>)
    requires Walk(g, from, arcs, to)
    ensures Walk(g, from, simple, to) && Distinct(Nodes(from, simple))
    decreases |arcs|
  {
    hide Nodes, ArcOf;
    if arcs == [] {
      simple := [];
      NoArcs(from);
    } else {
      var last := arcs[|arcs| - 1];
      var init := SimpleWalk(g, from, arcs[..|arcs| - 1], last.src);
      var nodes := Nodes(from, init);
      if i :| 0 <= i < |nodes| && nodes[i] == to {
        PrefixWalk(g, from, init, last.src, i);
        simple := init[..i];
      } else {
        simple := init + [last];
        AppendArc(g, from, init, last);
      }
    }
  }

  lemma {:induction false} WeightAtMost(g: Graph, from: int, arcs: seq<Arc>, to: int, maxWeight: nat)
    requires Walk(g, from, arcs, to) && forall a :: ArcOf(g, a) ==> a.weight <= maxWeight
    ensures Weight(arcs) <= |arcs| * maxWeight
    decreases |arcs|
  {
    if arcs != [] {
      WeightAtMost(g, from, arcs[..|arcs| - 1], arcs[|arcs| - 1].src, maxWeight);
      assert |arcs| * maxWeight == (|arcs| - 1) * maxWeight + maxWeight;
    }
  }

  lemma LightWalk(g: Graph, from: int, arcs: seq<Arc>, v: int, maxWeight: nat) returns (light: seq<Arc>)
    requires WellFormed(g) && 0 <= from < |g| && |g| * maxWeight < INT32_MAX && Walk(g, from, arcs, v)
    requires forall a :: ArcOf(g, a) ==> a.weight <= maxWeight
    ensures Walk(g, from, light, v) && Weight(light) + maxWeight < INT32_MAX
  {
    light := SimpleWalk(g, from, arcs, v);
    WalkInside(g, from, light, v);
    DistinctBound(Nodes(from, light), |g|);
    WeightAtMost(g, from, light, v, maxWeight);
    OneMoreEdge(|light|, |g|, maxWeight);
  }

  lemma OneMoreEdge(n: nat, m: nat, maxWeight: nat)
    requires n < m
    ensures n * maxWeight + maxWeight <= m * maxWeight
  {
    assert n * maxWeight + maxWeight == (n + 1) * maxWeight;
  }

  /** A simple sufficient condition. */
  lemma SmallGraphFits(g: Graph, from: int, maxWeight: nat)
    requires WellFormed(g) && 0 <= from < |g| && |g| * maxWeight < INT32_MAX
    requires forall a :: ArcOf(g, a) ==> a.weight <= maxWeight
    ensures Fits(g, from)
  {
    hide WellFormed;
    forall arcs, v | Walk(g, from, arcs, v)
      ensures exists light :: Walk(g, from, light, v) && Weight(light) + maxWeight < INT32_MAX
    {
      var light := LightWalk(g, from, arcs, v, maxWeight);
    }
    forall arcs, a: Arc | Walk(g, from, arcs, a.src) && ArcOf(g, a)
      ensures exists light :: Walk(g, from, light, a.src) && Weight(light) + a.weight <= INT32_MAX
    {
      var light := LightWalk(g, from, arcs, a.src, maxWeight);
    }
  }
}
