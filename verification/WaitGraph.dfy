/** Directed graphs given by adjacency lists of indices, and the walks that decide what the cycle search reports. */
module WaitGraph {

  type Adjacency = seq<seq<int>>

  /** The edge at position `pos` of the adjacency list of `src`; parallel edges are different arcs. */
  datatype Arc = Arc(src: int, pos: int)

  ghost predicate Closed(g: Adjacency) {
    forall u, j :: 0 <= u < |g| && 0 <= j < |g[u]| ==> 0 <= g[u][j] < |g|
  }

  ghost predicate IsArc(g: Adjacency, a: Arc) {
    0 <= a.src < |g| && 0 <= a.pos < |g[a.src]|
  }

  ghost function Target(g: Adjacency, a: Arc): int
    requires IsArc(g, a)
  {
    g[a.src][a.pos]
  }

  ghost predicate Walk(g: Adjacency, from: int, arcs: seq<Arc>, to: int)
    decreases |arcs|
  {
    if arcs == [] then from == to
    else
      var last := arcs[|arcs| - 1];
      IsArc(g, last) && Target(g, last) == to && Walk(g, from, arcs[..|arcs| - 1], last.src)
  }

  ghost predicate Reach(g: Adjacency, from: int, to: int) {
    exists arcs :: Walk(g, from, arcs, to)
  }

  ghost predicate Edge(g: Adjacency, from: int, to: int) {
    exists j :: IsArc(g, Arc(from, j)) && Target(g, Arc(from, j)) == to
  }

  /** No vertex can be reached from `v` in two ways. */
  ghost predicate UniqueFrom(g: Adjacency, v: int) {
    forall x, w1, w2 :: Walk(g, v, w1, x) && Walk(g, v, w2, x) ==> w1 == w2
  }

  ghost predicate HasCycle(g: Adjacency) {
    exists x, arcs :: arcs != [] && Walk(g, x, arcs, x)
  }

  /** Some vertex that has a predecessor reaches some vertex in two different ways. */
  ghost predicate Reconverges(g: Adjacency) {
    exists s, v :: Edge(g, s, v) && !UniqueFrom(g, v)
  }

  ghost predicate OutDegreeAtMostOne(g: Adjacency) {
    forall u :: 0 <= u < |g| ==> |g[u]| <= 1
  }

  // ---------------------------------------------------------------- walks

  lemma {:induction false} WalkConcat(g: Adjacency, a: int, w1: seq<Arc>, b: int, w2: seq<Arc>, c: int)
    requires Walk(g, a, w1, b) && Walk(g, b, w2, c)
    ensures Walk(g, a, w1 + w2, c)
    decreases |w2|
  {
    if w2 == [] {
      assert w1 + w2 == w1;
    } else {
      var last := w2[|w2| - 1];
      WalkConcat(g, a, w1, b, w2[..|w2| - 1], last.src);
      assert (w1 + w2)[..|w1 + w2| - 1] == w1 + w2[..|w2| - 1];
    }
  }

  lemma WalkOne(g: Adjacency, a: Arc)
    requires IsArc(g, a)
    ensures Walk(g, a.src, [a], Target(g, a))
  {
    assert [a][..0] == [];
  }

  /** A nonempty walk starts with an arc from its origin, and goes on from the target of that arc. */
  lemma {:induction false} WalkFirst(g: Adjacency, a: int, w: seq<Arc>, c: int)
    requires Walk(g, a, w, c) && w != []
    ensures IsArc(g, w[0]) && w[0].src == a && Walk(g, Target(g, w[0]), w[1..], c)
    decreases |w|
  {
    var n := |w| - 1;
    if n > 0 {
      WalkFirst(g, a, w[..n], w[n].src);
      assert w[1..][..n - 1] == w[..n][1..];
      assert w[..n][0] == w[0];
    } else {
      assert w[..0] == [] && w[1..] == [];
    }
  }

  lemma ReachVia(g: Adjacency, a: Arc, x: int)
    requires IsArc(g, a) && Reach(g, Target(g, a), x)
    ensures Reach(g, a.src, x)
  {
    var w :| Walk(g, Target(g, a), w, x);
    WalkOne(g, a);
    WalkConcat(g, a.src, [a], Target(g, a), w, x);
  }

  // ---------------------------------------------------------------- what a silent search leaves behind

  /** No vertex of `n` has an arc that leaves `n` or enters `root`, and no two of its arcs meet. */
  ghost predicate Forest(g: Adjacency, n: set<int>, root: int) {
    && (forall a :: IsArc(g, a) && a.src in n ==> Target(g, a) in n && Target(g, a) != root)
    && (forall a, b ::
          IsArc(g, a) && IsArc(g, b) && a.src in n && b.src in n && Target(g, a) == Target(g, b) ==> a == b)
  }

  lemma {:induction false} ForestClosed(g: Adjacency, n: set<int>, root: int, w: seq<Arc>, x: int)
    requires Forest(g, n, root) && root in n && Walk(g, root, w, x)
    ensures x in n
    decreases |w|
  {
    if w != [] {
      ForestClosed(g, n, root, w[..|w| - 1], w[|w| - 1].src);
    }
  }

  lemma {:induction false} ForestWalkUnique(g: Adjacency, n: set<int>, root: int, w1: seq<Arc>, w2: seq<Arc>, x: int)
    requires Forest(g, n, root) && root in n && Walk(g, root, w1, x) && Walk(g, root, w2, x)
    ensures w1 == w2
    decreases |w1|
  {
    if w1 != [] && w2 != [] {
      var a, b := w1[|w1| - 1], w2[|w2| - 1];
      ForestClosed(g, n, root, w1[..|w1| - 1], a.src);
      ForestClosed(g, n, root, w2[..|w2| - 1], b.src);
      assert a == b;
      ForestWalkUnique(g, n, root, w1[..|w1| - 1], w2[..|w2| - 1], a.src);
      assert w1 == w1[..|w1| - 1] + [a] && w2 == w2[..|w2| - 1] + [b];
    } else if w1 != [] {
      ForestClosed(g, n, root, w1[..|w1| - 1], w1[|w1| - 1].src);
    } else if w2 != [] {
      ForestClosed(g, n, root, w2[..|w2| - 1], w2[|w2| - 1].src);
    }
  }

  /** If the search below `root` meets no vertex twice, every vertex is reached from `root` in one way only. */
  lemma ForestIsUnique(g: Adjacency, n: set<int>, root: int)
    requires Forest(g, n, root) && root in n
    ensures UniqueFrom(g, root) && forall x :: Reach(g, root, x) ==> x in n
  {
    forall x, w1, w2 | Walk(g, root, w1, x) && Walk(g, root, w2, x) ensures w1 == w2 {
      ForestWalkUnique(g, n, root, w1, w2, x);
    }
    forall x | Reach(g, root, x) ensures x in n {
      var w :| Walk(g, root, w, x);
      ForestClosed(g, n, root, w, x);
    }
  }

  /** `m` is what was explored below the first `j` arcs of `v`: it is closed, and no two of its arcs meet. */
  ghost predicate Explored(g: Adjacency, v: int, j: nat, m: set<int>) {
    && v !in m
    && (forall a :: IsArc(g, a) && Traversed(v, j, m, a) ==> Target(g, a) in m)
    && (forall a, b ::
          IsArc(g, a) && IsArc(g, b) && Traversed(v, j, m, a) && Traversed(v, j, m, b) && Target(g, a) == Target(g, b)
          ==> a == b)
  }

  ghost predicate Traversed(v: int, j: nat, m: set<int>, a: Arc) {
    a.src in m || (a.src == v && a.pos < j)
  }

  lemma ExploredStep(g: Adjacency, v: int, j: nat, m: set<int>, n: set<int>)
    requires Explored(g, v, j, m) && IsArc(g, Arc(v, j))
    requires Forest(g, n, g[v][j]) && g[v][j] in n && n !! m + {v}
    ensures Explored(g, v, j + 1, m + n)
  {
    forall a | IsArc(g, a) && Traversed(v, j + 1, m + n, a)
      ensures a.src in n || a == Arc(v, j) || Traversed(v, j, m, a)
    {}
  }

  lemma ExploredAll(g: Adjacency, v: int, m: set<int>)
    requires 0 <= v < |g| && Explored(g, v, |g[v]|, m)
    ensures Forest(g, m + {v}, v)
  {
    forall a | IsArc(g, a) && a.src in m + {v} ensures Traversed(v, |g[v]|, m, a) {}
  }

  // ---------------------------------------------------------------- consequences of unique walks

  lemma UniqueBelow(g: Adjacency, a: Arc)
    requires IsArc(g, a) && UniqueFrom(g, a.src)
    ensures UniqueFrom(g, Target(g, a))
  {
    forall x, w1, w2 | Walk(g, Target(g, a), w1, x) && Walk(g, Target(g, a), w2, x) ensures w1 == w2 {
      WalkOne(g, a);
      WalkConcat(g, a.src, [a], Target(g, a), w1, x);
      WalkConcat(g, a.src, [a], Target(g, a), w2, x);
      assert ([a] + w1)[1..] == w1 && ([a] + w2)[1..] == w2;
    }
  }

  lemma UniqueNotBack(g: Adjacency, a: Arc)
    requires IsArc(g, a) && UniqueFrom(g, a.src)
    ensures !Reach(g, Target(g, a), a.src)
  {
    assert Walk(g, a.src, [], a.src);
    if Reach(g, Target(g, a), a.src) {
      var w :| Walk(g, Target(g, a), w, a.src);
      WalkOne(g, a);
      assert [a] + w != [];
      WalkConcat(g, a.src, [a], Target(g, a), w, a.src);
    }
  }

  lemma UniqueApart(g: Adjacency, a: Arc, b: Arc, x: int)
    requires IsArc(g, a) && IsArc(g, b) && a.src == b.src && a != b && UniqueFrom(g, a.src)
    ensures !(Reach(g, Target(g, a), x) && Reach(g, Target(g, b), x))
  {
    if Reach(g, Target(g, a), x) && Reach(g, Target(g, b), x) {
      var w1 :| Walk(g, Target(g, a), w1, x);
      var w2 :| Walk(g, Target(g, b), w2, x);
      WalkOne(g, a);
      WalkOne(g, b);
      assert ([a] + w1)[0] == a && ([b] + w2)[0] == b;
      WalkConcat(g, a.src, [a], Target(g, a), w1, x);
      WalkConcat(g, a.src, [b], Target(g, b), w2, x);
    }
  }

  /** Everything in `m` is reached through one of the first `j` arcs of `v`. */
  ghost predicate Through(g: Adjacency, v: int, j: nat, m: set<int>) {
    0 <= v < |g| && j <= |g[v]| && forall x :: x in m ==> exists p :: 0 <= p < j && Reach(g, g[v][p], x)
  }

  /** If walks from `v` are unique and reach nothing visited before, the next arc of `v` leads to unvisited ground. */
  lemma NextIsFresh(g: Adjacency, v: int, j: nat, before: set<int>, m: set<int>)
    requires UniqueFrom(g, v) && (forall x :: x in before ==> !Reach(g, v, x))
    requires Through(g, v, j, m) && j < |g[v]|
    ensures UniqueFrom(g, g[v][j])
    ensures forall x :: x in before + {v} + m ==> !Reach(g, g[v][j], x)
  {
    var a := Arc(v, j);
    UniqueBelow(g, a);
    UniqueNotBack(g, a);
    forall x | x in before + {v} + m ensures !Reach(g, g[v][j], x) {
      if x in before {
        if Reach(g, g[v][j], x) { ReachVia(g, a, x); }
      } else if x in m {
        var p :| 0 <= p < j && Reach(g, g[v][p], x);
        UniqueApart(g, Arc(v, p), a, x);
      }
    }
  }

  // ---------------------------------------------------------------- the depth-first search, as sets of marked vertices

  /**
   * What a search from `v` does to the marked vertices and to the report flag: it marks only what `v` reaches, never
   * withdraws a report, and stays silent only if it met no vertex twice; it does stay silent when walks from `v` are
   * unique and lead to nothing marked before.
   */
  ghost predicate Searched(g: Adjacency, v: int, before: set<int>, after: set<int>, was: bool, now: bool) {
    && before + {v} <= after
    && (forall x :: x in after && x !in before ==> Reach(g, v, x))
    && (was ==> now)
    && (!now ==> v !in before && Forest(g, after - before, v))
    && (Clean(g, v, before, was) ==> !now)
  }

  ghost predicate Clean(g: Adjacency, v: int, before: set<int>, was: bool) {
    !was && UniqueFrom(g, v) && forall x :: x in before ==> !Reach(g, v, x)
  }

  /** The same after the first `j` arcs of `v`. */
  ghost predicate Searching(g: Adjacency, v: int, j: nat, before: set<int>, after: set<int>, was: bool, now: bool) {
    && 0 <= v < |g| && j <= |g[v]| && v !in before && before + {v} <= after
    && (forall x :: x in after && x !in before ==> Reach(g, v, x))
    && (was ==> now)
    && (!now ==> Explored(g, v, j, after - before - {v}))
    && (Clean(g, v, before, was) ==> !now && Through(g, v, j, after - before - {v}))
  }

  lemma SearchRevisits(g: Adjacency, v: int, before: set<int>, was: bool)
    requires v in before
    ensures Searched(g, v, before, before, was, true)
  {
    assert Walk(g, v, [], v);
    assert Reach(g, v, v);
  }

  lemma SearchStarts(g: Adjacency, v: int, before: set<int>, was: bool)
    requires 0 <= v < |g| && v !in before
    ensures Searching(g, v, 0, before, before + {v}, was, was)
  {
    assert Walk(g, v, [], v);
    assert before + {v} - before - {v} == {};
  }

  lemma SearchContinues(g: Adjacency, v: int, j: nat, before: set<int>, mid: set<int>, after: set<int>,
                        was: bool, now: bool, later: bool)
    requires Searching(g, v, j, before, mid, was, now) && j < |g[v]|
    requires Searched(g, g[v][j], mid, after, now, later)
    ensures mid <= after && Searching(g, v, j + 1, before, after, was, later)
  {
    var m, n := mid - before - {v}, after - mid;
    assert after - before - {v} == m + n;
    forall x | x in n ensures Reach(g, v, x) {
      ReachVia(g, Arc(v, j), x);
    }
    if !later {
      ExploredStep(g, v, j, m, n);
    }
    if Clean(g, v, before, was) {
      NextIsFresh(g, v, j, before, m);
      assert mid == before + {v} + m;
    }
  }

  lemma SearchEnds(g: Adjacency, v: int, before: set<int>, after: set<int>, was: bool, now: bool)
    requires 0 <= v < |g| && Searching(g, v, |g[v]|, before, after, was, now)
    ensures Searched(g, v, before, after, was, now)
  {
    if !now {
      ExploredAll(g, v, after - before - {v});
      assert after - before - {v} + {v} == after - before;
    }
  }

  // ---------------------------------------------------------------- the trail of the search

  /** `trail` is a walk along edges through marked vertices, none twice, and `next` may follow it. */
  ghost predicate Trail(g: Adjacency, trail: seq<int>, marked: set<int>, next: int) {
    && (forall i, j :: 0 <= i < j < |trail| ==> trail[i] != trail[j])
    && (forall i :: 0 <= i < |trail| ==> trail[i] in marked)
    && (forall i :: 0 < i < |trail| ==> Edge(g, trail[i - 1], trail[i]))
    && (trail != [] ==> Edge(g, trail[|trail| - 1], next))
  }

  lemma TrailExtends(g: Adjacency, trail: seq<int>, before: set<int>, v: int, j: int, after: set<int>)
    requires Trail(g, trail, before, v) && v !in before && before + {v} <= after && IsArc(g, Arc(v, j))
    ensures Trail(g, trail + [v], after, g[v][j])
  {
    assert Target(g, Arc(v, j)) == g[v][j];
  }

  /** The root of a cycle search: a successor whose walks are unique cannot lead back to it. */
  lemma NoWayBack(g: Adjacency, a: Arc)
    requires IsArc(g, a) && UniqueFrom(g, Target(g, a))
    ensures !Reach(g, Target(g, a), a.src)
  {
    var v := Target(g, a);
    assert Walk(g, v, [], v);
    if Reach(g, v, a.src) {
      var w :| Walk(g, v, w, a.src);
      WalkOne(g, a);
      assert w + [a] != [];
      WalkConcat(g, v, w, a.src, [a], v);
    }
  }

  // ---------------------------------------------------------------- reconvergence and cycles

  /** Every cycle makes the graph reconverge: the cycle search is complete. */
  lemma CycleReconverges(g: Adjacency)
    requires HasCycle(g)
    ensures Reconverges(g)
  {
    var x, w :| w != [] && Walk(g, x, w, x);
    WalkFirst(g, x, w, x);
    var v := Target(g, w[0]);
    WalkOne(g, w[0]);
    WalkConcat(g, v, w[1..], x, [w[0]], v);
    assert Walk(g, v, [], v) && w[1..] + [w[0]] != [];
    assert Edge(g, x, v);
  }

  /** With at most one out-edge each, of two walks from the same vertex one continues the other. */
  lemma {:induction false} ChainWalks(g: Adjacency, v: int, w1: seq<Arc>, w2: seq<Arc>, x: int)
    requires OutDegreeAtMostOne(g) && Walk(g, v, w1, x) && Walk(g, v, w2, x) && |w1| <= |w2|
    ensures w1 == w2 || HasCycle(g)
    decreases |w1|
  {
    if w1 == [] {
      assert v == x;
    } else {
      WalkFirst(g, v, w1, x);
      WalkFirst(g, v, w2, x);
      assert w1[0] == w2[0];
      ChainWalks(g, Target(g, w1[0]), w1[1..], w2[1..], x);
      assert w1 == [w1[0]] + w1[1..] && w2 == [w2[0]] + w2[1..];
    }
  }

  /** With at most one out-edge each, reconvergence is the same as a cycle: the cycle search is sound. */
  lemma ReconvergesIsCycle(g: Adjacency)
    requires OutDegreeAtMostOne(g)
    ensures Reconverges(g) <==> HasCycle(g)
  {
    if Reconverges(g) {
      var s, v :| Edge(g, s, v) && !UniqueFrom(g, v);
      var x, w1, w2 :| Walk(g, v, w1, x) && Walk(g, v, w2, x) && w1 != w2;
      if |w1| <= |w2| {
        ChainWalks(g, v, w1, w2, x);
      } else {
        ChainWalks(g, v, w2, w1, x);
      }
    }
    if HasCycle(g) {
      CycleReconverges(g);
    }
  }

  /** A diamond below a vertex reconverges although it has no cycle: 0 -> 1, 1 -> 2, 1 -> 3, 2 -> 4, 3 -> 4. */
  lemma DiamondReconverges()
    ensures Reconverges([[1], [2, 3], [4], [4], []]) && !HasCycle([[1], [2, 3], [4], [4], []])
  {
    var g: Adjacency := [[1], [2, 3], [4], [4], []];
    assert Target(g, Arc(0, 0)) == 1 && Edge(g, 0, 1);
    WalkOne(g, Arc(1, 0));
    WalkOne(g, Arc(2, 0));
    WalkOne(g, Arc(1, 1));
    WalkOne(g, Arc(3, 0));
    WalkConcat(g, 1, [Arc(1, 0)], 2, [Arc(2, 0)], 4);
    WalkConcat(g, 1, [Arc(1, 1)], 3, [Arc(3, 0)], 4);
    assert ([Arc(1, 0)] + [Arc(2, 0)])[0] != ([Arc(1, 1)] + [Arc(3, 0)])[0];
    forall x, w | Walk(g, x, w, x) ensures w == [] {
      Upwards(g, x, w, x);
    }
  }

  /** When every edge leads to a larger index, so does every nonempty walk. */
  lemma {:induction false} Upwards(g: Adjacency, a: int, w: seq<Arc>, b: int)
    requires forall u, j :: 0 <= u < |g| && 0 <= j < |g[u]| ==> u < g[u][j]
    requires Walk(g, a, w, b)
    ensures a <= b && (w != [] ==> a < b)
    decreases |w|
  {
    if w != [] {
      Upwards(g, a, w[..|w| - 1], w[|w| - 1].src);
    }
  }
}
