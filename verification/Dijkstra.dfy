/** Single-source shortest paths with a lazy-deletion heap, and path backtracking. */
module ShortestPaths {
  import opened Walks

  // ---------------------------------------------------------------- the min-heap

  /** A heap entry: (tentative distance, node), ordered lexicographically as std::pair is. */
  type Entry = (int, int)

  predicate EntryLeq(a: Entry, b: Entry) {
    a.0 < b.0 || (a.0 == b.0 && a.1 <= b.1)
  }

  ghost predicate IsTop(heap: multiset<Entry>, top: Entry) {
    top in heap && forall e :: e in heap ==> EntryLeq(top, e)
  }

  lemma {:induction false} TopExists(heap: multiset<Entry>)
    requires heap != multiset{}
    ensures exists top :: IsTop(heap, top)
    decreases |heap|
  {
    var e :| e in heap;
    var rest := heap - multiset{e};
    assert forall x :: x in heap <==> x == e || x in rest;
    if rest == multiset{} {
      assert IsTop(heap, e);
    } else {
      TopExists(rest);
      var t :| IsTop(rest, t);
      if EntryLeq(e, t) {
        assert IsTop(heap, e);
      } else {
        assert IsTop(heap, t);
      }
    }
  }

  method Pop(heap: multiset<Entry>) returns (top: Entry, rest: multiset<Entry>)
    requires heap != multiset{}
    ensures IsTop(heap, top) && rest == heap - multiset{top}
    // The nearest entry, and of equally near ones that of the least node.
    ensures top in heap && forall e :: e in heap ==> top.0 < e.0 || (top.0 == e.0 && top.1 <= e.1)
  {
    TopExists(heap);
    assert exists e :: e in heap && forall x :: x in heap ==> EntryLeq(e, x) by {
      var t :| IsTop(heap, t);
    }
    top :| top in heap && forall x :: x in heap ==> EntryLeq(top, x);
    rest := heap - multiset{top};
  }

  /** Signed 32-bit addition: overflow is undefined in the source, so every call must rule it out. */
  function Add32(a: int, b: int): (r: int)
    requires -0x8000_0000 <= a + b <= INT32_MAX
  {
    a + b
  }

  // ---------------------------------------------------------------- the search state

  /** `dist`, `pre` and the heap, with the nodes expanded so far in expansion order. */
  datatype Search = Search(dist: seq<int>, pre: seq<int>, heap: multiset<Entry>, order: seq<int>)

  ghost predicate Shape(g: Graph, start: int, s: Search) {
    && |s.dist| == |s.pre| == |g|
    && 0 <= start < |g| && s.dist[start] == 0 && s.pre[start] == -1
    && (forall v :: 0 <= v < |g| ==> 0 <= s.dist[v] <= INT32_MAX)
    && (forall i :: 0 <= i < |s.order| ==> 0 <= s.order[i] < |g|)
    && Distinct(s.order)
  }

  /** `pre[v]` was expanded at step `i`, before `v` itself, and the edge from it accounts for `dist[v]`. */
  ghost predicate ParentAt(g: Graph, s: Search, v: int, i: int)
    requires |s.dist| == |s.pre| == |g| && 0 <= v < |g|
  {
    && 0 <= i < |s.order| && s.order[i] == s.pre[v] && 0 <= s.pre[v] < |g|
    && (forall j :: 0 <= j < |s.order| && s.order[j] == v ==> i < j)
    && ArcOf(g, Arc(s.pre[v], v, s.dist[v] - s.dist[s.pre[v]]))
    && NoneBefore(g, s, v, i)
  }

  /** No edge from a node expanded before step `i` leads to `v` at its distance. */
  ghost predicate NoneBefore(g: Graph, s: Search, v: int, i: int)
    requires |s.dist| == |g| && 0 <= v < |g|
  {
    forall j, w :: 0 <= j < i && j < |s.order| && 0 <= s.order[j] < |g| && ArcOf(g, Arc(s.order[j], v, w)) ==>
      s.dist[v] < s.dist[s.order[j]] + w
  }

  ghost predicate Tree(g: Graph, start: int, s: Search)
    requires Shape(g, start, s)
  {
    forall v {:trigger Linked(g, start, s, v)} :: 0 <= v < |g| ==> Linked(g, start, s, v)
  }

  /** Every node but `start` has a predecessor as soon as it is discovered, and none before. */
  ghost predicate Linked(g: Graph, start: int, s: Search, v: int)
    requires Shape(g, start, s) && 0 <= v < |g|
  {
    v == start || if s.dist[v] == INT32_MAX then s.pre[v] == -1 else exists i :: ParentAt(g, s, v, i)
  }

  /** Every expanded node has its final distance: no walk is lighter. */
  ghost predicate Settled(g: Graph, start: int, s: Search)
    requires Shape(g, start, s)
  {
    forall i :: 0 <= i < |s.order| ==>
      s.dist[s.order[i]] < INT32_MAX
      && forall arcs :: Walk(g, start, arcs, s.order[i]) ==> s.dist[s.order[i]] <= Weight(arcs)
  }

  ghost predicate Sorted(g: Graph, start: int, s: Search)
    requires Shape(g, start, s)
  {
    forall i, j :: 0 <= i <= j < |s.order| ==> s.dist[s.order[i]] <= s.dist[s.order[j]]
  }

  /**
   * A node at the distance of one expanded before it at step `i`, though its number is less, was only discovered from
   * there on.
   */
  ghost predicate TieOk(g: Graph, start: int, s: Search, v: int, i: int)
    requires Shape(g, start, s) && 0 <= v < |g| && 0 <= i < |s.order|
  {
    v < s.order[i] && s.dist[v] == s.dist[s.order[i]] && (forall j :: 0 <= j < |s.order| && s.order[j] == v ==> i < j)
    ==> exists k :: i <= k < |s.order| && s.order[k] == s.pre[v]
  }

  ghost predicate Ties(g: Graph, start: int, s: Search)
    requires Shape(g, start, s)
  {
    forall v, i {:trigger TieOk(g, start, s, v, i)} :: 0 <= v < |g| && 0 <= i < |s.order| ==> TieOk(g, start, s, v, i)
  }

  /** A heap entry is never better than `dist`, never better than an expanded node, and stale for an expanded one. */
  ghost predicate EntryOk(g: Graph, start: int, s: Search, e: Entry)
    requires Shape(g, start, s)
  {
    && 0 <= e.1 < |g| && s.dist[e.1] <= e.0 < INT32_MAX
    && (forall i :: 0 <= i < |s.order| ==> s.dist[s.order[i]] <= e.0 && (s.order[i] == e.1 ==> s.dist[e.1] < e.0))
  }

  ghost predicate Outdated(g: Graph, start: int, s: Search)
    requires Shape(g, start, s)
  {
    forall e :: e in s.heap ==> EntryOk(g, start, s, e)
  }

  /** A node that is discovered but not expanded has exactly one entry that carries its current distance. */
  ghost predicate Awaits(g: Graph, start: int, s: Search, v: int)
    requires Shape(g, start, s) && 0 <= v < |g|
  {
    v !in s.order && s.dist[v] != INT32_MAX ==> s.heap[(s.dist[v], v)] == 1
  }

  ghost predicate Pending(g: Graph, start: int, s: Search)
    requires Shape(g, start, s)
  {
    forall v {:trigger Awaits(g, start, s, v)} :: 0 <= v < |g| ==> Awaits(g, start, s, v)
  }

  /** The first `k` edges of `u` can no longer improve a distance. */
  ghost predicate Relaxed(g: Graph, dist: seq<int>, u: int, k: nat)
    requires |dist| == |g| && 0 <= u < |g| && k <= |g[u]|
  {
    forall m :: 0 <= m < k ==> 0 <= g[u][m].0 < |g| && dist[g[u][m].0] <= dist[u] + g[u][m].1
  }

  ghost predicate AllRelaxed(g: Graph, start: int, s: Search)
    requires Shape(g, start, s)
  {
    forall i :: 0 <= i < |s.order| ==> Relaxed(g, s.dist, s.order[i], |g[s.order[i]]|)
  }

  /** What holds at every point of the search, whether or not a node is being expanded. */
  ghost predicate Inv(g: Graph, start: int, s: Search) {
    && WellFormed(g) && Shape(g, start, s)
    && Tree(g, start, s) && Settled(g, start, s) && Sorted(g, start, s)
    && Outdated(g, start, s) && Pending(g, start, s) && Ties(g, start, s)
  }

  /** No node is being expanded: every expanded node has had all its edges relaxed. */
  ghost predicate Quiet(g: Graph, start: int, s: Search) {
    Inv(g, start, s) && AllRelaxed(g, start, s)
  }

  /** The last expanded node has had its first `k` edges relaxed, all the others have had them all. */
  ghost predicate Expanding(g: Graph, start: int, s: Search, k: nat) {
    && Inv(g, start, s) && s.order != []
    && AllRelaxed(g, start, s.(order := s.order[..|s.order| - 1]))
    && k <= |g[s.order[|s.order| - 1]]|
    && Relaxed(g, s.dist, s.order[|s.order| - 1], k)
  }

  // ---------------------------------------------------------------- the steps keep the invariant

  /** The predecessor links survive a step that keeps `dist`, `pre` and the order of the nodes already expanded. */
  lemma TreeKept(g: Graph, start: int, s: Search, s': Search)
    requires Shape(g, start, s) && Shape(g, start, s') && Tree(g, start, s)
    requires s'.dist == s.dist && s'.pre == s.pre && s.order <= s'.order
    ensures Tree(g, start, s')
  {
    forall v | 0 <= v < |g| ensures Linked(g, start, s', v) {
      assert Linked(g, start, s, v);
      if v != start && s.dist[v] != INT32_MAX {
        var i :| ParentAt(g, s, v, i);
        assert ParentAt(g, s', v, i);
      }
    }
  }

  /** So does what is known about the nodes expanded before. */
  lemma TieKept(g: Graph, start: int, s: Search, s': Search, v: int, i: int)
    requires Shape(g, start, s) && Shape(g, start, s') && 0 <= v < |g| && 0 <= i < |s.order| && TieOk(g, start, s, v, i)
    requires s'.dist == s.dist && s'.pre == s.pre && s.order <= s'.order
    ensures TieOk(g, start, s', v, i)
  {
    assert forall j :: 0 <= j < |s.order| ==> s'.order[j] == s.order[j];
  }

  /** Popping an outdated entry changes nothing else. */
  lemma SkipKeepsInv(g: Graph, start: int, s: Search, top: Entry)
    requires Quiet(g, start, s) && IsTop(s.heap, top) && top.0 > s.dist[top.1]
    ensures Quiet(g, start, s.(heap := s.heap - multiset{top}))
  {
    var s' := s.(heap := s.heap - multiset{top});
    TreeKept(g, start, s, s');
    forall v, i | 0 <= v < |g| && 0 <= i < |s.order| ensures TieOk(g, start, s', v, i) {
      assert TieOk(g, start, s, v, i);
      TieKept(g, start, s, s', v, i);
    }
    forall e | e in s'.heap ensures EntryOk(g, start, s', e) {
      assert EntryOk(g, start, s, e);
    }
    forall v | 0 <= v < |g| ensures Awaits(g, start, s', v) {
      assert Awaits(g, start, s, v);
    }
  }

  /** An entry that is not outdated belongs to a node that was never expanded, and carries its distance. */
  lemma TopIsNew(g: Graph, start: int, s: Search, top: Entry)
    requires Inv(g, start, s) && IsTop(s.heap, top) && top.0 <= s.dist[top.1]
    ensures 0 <= top.1 < |g| && top.1 !in s.order && top.0 == s.dist[top.1] < INT32_MAX
    ensures s.heap[top] == 1
  {
    assert EntryOk(g, start, s, top);
    assert Awaits(g, start, s, top.1);
  }

  ghost function Expand(s: Search, top: Entry): Search {
    s.(heap := s.heap - multiset{top}, order := s.order + [top.1])
  }

  lemma ExpandKeepsHeap(g: Graph, start: int, s: Search, top: Entry)
    requires Shape(g, start, s) && Outdated(g, start, s) && Pending(g, start, s)
    requires IsTop(s.heap, top) && 0 <= top.1 < |g| && top.0 == s.dist[top.1] && s.heap[top] == 1
    requires Shape(g, start, Expand(s, top))
    ensures Outdated(g, start, Expand(s, top)) && Pending(g, start, Expand(s, top))
  {
    var s' := Expand(s, top);
    forall e | e in s'.heap ensures EntryOk(g, start, s', e) {
      assert e in s.heap && EntryOk(g, start, s, e) && EntryLeq(top, e) && e != top;
    }
    forall v | 0 <= v < |g| ensures Awaits(g, start, s', v) {
      assert Awaits(g, start, s, v);
      assert v !in s'.order ==> v !in s.order && v != top.1 by {
        assert forall i :: 0 <= i < |s.order| ==> s'.order[i] == s.order[i];
        assert s'.order[|s.order|] == top.1;
      }
    }
  }

  lemma ExpandKeepsOrder(g: Graph, start: int, s: Search, top: Entry)
    requires Inv(g, start, s) && IsTop(s.heap, top) && top.0 <= s.dist[top.1]
    ensures Shape(g, start, Expand(s, top)) && Sorted(g, start, Expand(s, top))
  {
    TopIsNew(g, start, s, top);
  }

  /** Every walk ends in a node that is expanded and not farther away, or weighs at least what all entries carry. */
  lemma {:induction false} Frontier(g: Graph, start: int, s: Search, bound: int, arcs: seq<Arc>, x: int)
    requires Quiet(g, start, s) && Walk(g, start, arcs, x)
    requires bound <= INT32_MAX && forall e :: e in s.heap ==> bound <= e.0
    ensures 0 <= x < |g| && ((x in s.order && s.dist[x] <= Weight(arcs)) || bound <= Weight(arcs))
    decreases |arcs|
  {
    hide Tree, Settled, Sorted, Outdated;
    if arcs == [] {
      assert Awaits(g, start, s, start);
    } else {
      var last := arcs[|arcs| - 1];
      Frontier(g, start, s, bound, arcs[..|arcs| - 1], last.src);
      NotNegative(g, last);
      if last.src in s.order {
        RelaxedArc(g, start, s, last);
        assert Awaits(g, start, s, x);
        assert s.heap[(s.dist[x], x)] == 1 ==> (s.dist[x], x) in s.heap;
      }
    }
  }

  /** An edge from an expanded node cannot improve a distance. */
  lemma RelaxedArc(g: Graph, start: int, s: Search, a: Arc)
    requires Quiet(g, start, s) && ArcOf(g, a) && a.src in s.order
    ensures 0 <= a.dst < |g| && s.dist[a.dst] <= s.dist[a.src] + a.weight
  {
    hide Inv;
    InvShape(g, start, s);
    var i :| 0 <= i < |s.order| && s.order[i] == a.src;
    assert Relaxed(g, s.dist, s.order[i], |g[s.order[i]]|);
    var m :| 0 <= m < |g[a.src]| && g[a.src][m] == (a.dst, a.weight);
  }

  /** A node popped with an entry that is not outdated has its final distance. */
  lemma ExpandSettles(g: Graph, start: int, s: Search, top: Entry)
    requires Quiet(g, start, s) && IsTop(s.heap, top) && top.0 <= s.dist[top.1]
    requires Shape(g, start, Expand(s, top))
    ensures Settled(g, start, Expand(s, top))
  {
    TopIsNew(g, start, s, top);
    hide Tree, Sorted, Outdated, Pending, AllRelaxed;
    forall arcs | Walk(g, start, arcs, top.1) ensures top.0 <= Weight(arcs) {
      Frontier(g, start, s, top.0, arcs, top.1);
    }
  }

  /** Of the nodes waiting at the same distance, the one expanded is the least. */
  lemma ExpandKeepsTies(g: Graph, start: int, s: Search, top: Entry)
    requires Inv(g, start, s) && IsTop(s.heap, top) && top.0 <= s.dist[top.1]
    requires Shape(g, start, Expand(s, top))
    ensures Ties(g, start, Expand(s, top))
  {
    TopIsNew(g, start, s, top);
    var s' := Expand(s, top);
    hide Tree, Settled, Sorted, Outdated, Shape;
    forall v, i | 0 <= v < |g| && 0 <= i < |s'.order| ensures TieOk(g, start, s', v, i) {
      if i < |s.order| {
        assert TieOk(g, start, s, v, i);
        TieKept(g, start, s, s', v, i);
      } else {
        TieAtTop(g, start, s, top, v);
      }
    }
  }

  lemma TieAtTop(g: Graph, start: int, s: Search, top: Entry, v: int)
    requires Shape(g, start, s) && Pending(g, start, s) && IsTop(s.heap, top) && 0 <= top.1 < |g|
    requires top.0 == s.dist[top.1] < INT32_MAX && Shape(g, start, Expand(s, top)) && 0 <= v < |g|
    ensures TieOk(g, start, Expand(s, top), v, |s.order|)
  {
    assert Awaits(g, start, s, v);
    if v !in s.order && s.dist[v] == top.0 {
      assert (s.dist[v], v) in s.heap;
    } else if v in s.order {
      var j :| 0 <= j < |s.order| && s.order[j] == v;
      assert Expand(s, top).order[j] == v;
    }
  }

  /** Expanding it settles its distance. */
  lemma ExpandKeepsInv(g: Graph, start: int, s: Search, top: Entry)
    requires Quiet(g, start, s) && IsTop(s.heap, top) && top.0 <= s.dist[top.1]
    ensures top.0 == s.dist[top.1]
    ensures Expanding(g, start, Expand(s, top), 0)
    ensures |s.order| < |g|
  {
    ExpandKeepsOrder(g, start, s, top);
    ExpandSettles(g, start, s, top);
    TopIsNew(g, start, s, top);
    ExpandKeepsHeap(g, start, s, top);
    TreeKept(g, start, s, Expand(s, top));
    ExpandKeepsTies(g, start, s, top);
    assert Expand(s, top).order[..|s.order|] == s.order;
    DistinctBound(Expand(s, top).order, |g|);
  }

  /** Relaxing an edge of weight `w` from the last expanded node into `v`. */
  ghost function Improve(s: Search, v: int, w: int): Search
    requires s.order != [] && 0 <= s.order[|s.order| - 1] < |s.dist| == |s.pre| && 0 <= v < |s.dist|
  {
    var u := s.order[|s.order| - 1];
    var d := s.dist[u] + w;
    s.(dist := s.dist[v := d], pre := s.pre[v := u], heap := s.heap + multiset{(d, v)})
  }

  /** The edge `k` of the node being expanded, when relaxing it improves the distance of its target. */
  ghost predicate Improving(g: Graph, start: int, s: Search, k: nat) {
    && Expanding(g, start, s, k)
    && var u := s.order[|s.order| - 1];
    && k < |g[u]|
    && s.dist[g[u][k].0] > s.dist[u] + g[u][k].1
  }

  /** Only nodes that were never expanded can be improved. */
  lemma ImprovedIsNew(g: Graph, start: int, s: Search, k: nat)
    requires Expanding(g, start, s, k) && k < |g[s.order[|s.order| - 1]]|
    ensures var u := s.order[|s.order| - 1];
            var (v, w) := g[u][k];
            && 0 <= v < |g| && 0 <= w
            && (s.dist[v] > s.dist[u] + w ==> v !in s.order && v != start && v != u)
  {
    hide Tree, Settled, Outdated, Pending, AllRelaxed;
  }

  lemma ImproveKeepsOrder(g: Graph, start: int, s: Search, k: nat)
    requires Improving(g, start, s, k)
    ensures var u := s.order[|s.order| - 1];
            0 <= g[u][k].0 < |g| &&
            var s' := Improve(s, g[u][k].0, g[u][k].1);
            Shape(g, start, s') && Settled(g, start, s') && Sorted(g, start, s')
  {
    ImprovedIsNew(g, start, s, k);
  }

  lemma ImproveKeepsHeap(g: Graph, start: int, s: Search, v: int, w: nat)
    requires Shape(g, start, s) && Sorted(g, start, s) && Outdated(g, start, s) && Pending(g, start, s)
    requires s.order != [] && 0 <= v < |g| && v !in s.order
    requires s.dist[s.order[|s.order| - 1]] + w < s.dist[v]
    requires Shape(g, start, Improve(s, v, w))
    ensures Outdated(g, start, Improve(s, v, w)) && Pending(g, start, Improve(s, v, w))
  {
    var s' := Improve(s, v, w);
    var fresher := (s'.dist[v], v);
    forall e | e in s'.heap ensures EntryOk(g, start, s', e) {
      assert e == fresher || (e in s.heap && EntryOk(g, start, s, e));
    }
    forall e | e in s.heap ensures e != fresher {
      assert EntryOk(g, start, s, e);
    }
    forall x | 0 <= x < |g| ensures Awaits(g, start, s', x) {
      assert Awaits(g, start, s, x);
    }
  }

  lemma ImproveKeepsTree(g: Graph, start: int, s: Search, v: int, w: int)
    requires Shape(g, start, s) && Tree(g, start, s) && s.order != []
    requires 0 <= v < |g| && v != start && v !in s.order
    requires ArcOf(g, Arc(s.order[|s.order| - 1], v, w))
    requires Shape(g, start, Improve(s, v, w)) && s.dist[s.order[|s.order| - 1]] + w < s.dist[v]
    requires AllRelaxed(g, start, s.(order := s.order[..|s.order| - 1]))
    ensures Tree(g, start, Improve(s, v, w))
  {
    var s' := Improve(s, v, w);
    forall x | 0 <= x < |g| ensures Linked(g, start, s', x) {
      assert Linked(g, start, s, x);
      if x == v {
        NoneAtLess(g, start, s, v, w);
        assert ParentAt(g, s', v, |s.order| - 1);
      } else if x != start && s.dist[x] != INT32_MAX {
        var i :| ParentAt(g, s, x, i);
        assert s.pre[x] in s.order;
        assert ParentAt(g, s', x, i);
      }
    }
  }

  /** The nodes expanded before offer no more than the old distance. */
  lemma NoneAtLess(g: Graph, start: int, s: Search, v: int, w: int)
    requires Shape(g, start, s) && s.order != [] && 0 <= v < |g| && v !in s.order
    requires s.dist[s.order[|s.order| - 1]] + w < s.dist[v]
    requires AllRelaxed(g, start, s.(order := s.order[..|s.order| - 1]))
    ensures NoneBefore(g, Improve(s, v, w), v, |s.order| - 1)
  {
    var s', init := Improve(s, v, w), s.order[..|s.order| - 1];
    forall j, x | 0 <= j < |init| && ArcOf(g, Arc(s.order[j], v, x)) ensures s'.dist[v] < s'.dist[s.order[j]] + x {
      assert Relaxed(g, s.dist, init[j], |g[init[j]]|);
      var m :| 0 <= m < |g[init[j]]| && g[init[j]][m] == (v, x);
    }
  }

  lemma ImproveKeepsTies(g: Graph, start: int, s: Search, v: int, w: int)
    requires Shape(g, start, s) && Ties(g, start, s) && s.order != [] && 0 <= v < |g| && v !in s.order
    requires Shape(g, start, Improve(s, v, w))
    ensures Ties(g, start, Improve(s, v, w))
  {
    var s' := Improve(s, v, w);
    forall x, i | 0 <= x < |g| && 0 <= i < |s.order| ensures TieOk(g, start, s', x, i) {
      assert TieOk(g, start, s, x, i);
    }
  }

  lemma ImproveKeepsRelaxed(g: Graph, start: int, s: Search, k: nat)
    requires Improving(g, start, s, k)
    ensures var u := s.order[|s.order| - 1];
            0 <= g[u][k].0 < |g| &&
            var s' := Improve(s, g[u][k].0, g[u][k].1);
            && Shape(g, start, s') && AllRelaxed(g, start, s'.(order := s'.order[..|s'.order| - 1]))
            && Relaxed(g, s'.dist, u, k + 1)
  {
    ImprovedIsNew(g, start, s, k);
    ImproveKeepsOrder(g, start, s, k);
    var u := s.order[|s.order| - 1];
    var s' := Improve(s, g[u][k].0, g[u][k].1);
    forall i | 0 <= i < |s.order| - 1 ensures Relaxed(g, s'.dist, s.order[i], |g[s.order[i]]|) {
      assert Relaxed(g, s.dist, s.order[..|s.order| - 1][i], |g[s.order[i]]|);
    }
  }

  lemma ImproveKeepsInv(g: Graph, start: int, s: Search, k: nat)
    requires Improving(g, start, s, k)
    ensures var u := s.order[|s.order| - 1];
            0 <= g[u][k].0 < |g| && Expanding(g, start, Improve(s, g[u][k].0, g[u][k].1), k + 1)
  {
    ImproveKeepsOrder(g, start, s, k);
    ImprovedIsNew(g, start, s, k);
    var (v, w) := g[s.order[|s.order| - 1]][k];
    ImproveKeepsHeap(g, start, s, v, w);
    ImproveKeepsTree(g, start, s, v, w);
    ImproveKeepsTies(g, start, s, v, w);
    ImproveKeepsRelaxed(g, start, s, k);
  }

  lemma NoImprovement(g: Graph, start: int, s: Search, k: nat)
    requires Expanding(g, start, s, k) && k < |g[s.order[|s.order| - 1]]|
    requires !Improving(g, start, s, k)
    ensures Expanding(g, start, s, k + 1)
  {
  }

  /** Once all the edges of the last expanded node are relaxed, the node is done. */
  lemma ExpansionDone(g: Graph, start: int, s: Search)
    requires s.order != [] && 0 <= s.order[|s.order| - 1] < |g|
    requires Expanding(g, start, s, |g[s.order[|s.order| - 1]]|)
    ensures Quiet(g, start, s)
  {
    forall i | 0 <= i < |s.order| ensures Relaxed(g, s.dist, s.order[i], |g[s.order[i]]|) {
      if i < |s.order| - 1 {
        assert Relaxed(g, s.dist, s.order[..|s.order| - 1][i], |g[s.order[i]]|);
      }
    }
  }

  lemma InvShape(g: Graph, start: int, s: Search)
    requires Inv(g, start, s)
    ensures Shape(g, start, s) && Sorted(g, start, s) && WellFormed(g)
    ensures forall e :: e in s.heap ==> 0 <= e.1 < |g|
  {
  }

  lemma InvStart(g: Graph, start: int, s: Search)
    requires Inv(g, start, s)
    ensures |s.dist| == |s.pre| == |g| && 0 <= start < |g| && s.dist[start] == 0 && s.pre[start] == -1
  {
  }

  lemma InvLinked(g: Graph, start: int, s: Search, v: int)
    requires Inv(g, start, s) && 0 <= v < |g|
    ensures Shape(g, start, s) && Linked(g, start, s, v)
  {
  }

  // ---------------------------------------------------------------- routes along the predecessor links

  /** The step at which the predecessor of the node of step `n` was expanded: strictly before, whatever the weights. */
  ghost function Step(g: Graph, start: int, s: Search, n: nat): (i: nat)
    requires Inv(g, start, s) && n < |s.order| && s.order[n] != start
    ensures i < n && |s.dist| == |s.pre| == |g|
    ensures var v := s.order[n];
            && 0 <= v < |g| && s.order[i] == s.pre[v] && 0 <= s.pre[v] < |g|
            && ArcOf(g, Arc(s.pre[v], v, s.dist[v] - s.dist[s.pre[v]])) && NoneBefore(g, s, v, i)
  {
    assert Linked(g, start, s, s.order[n]);
    var i :| ParentAt(g, s, s.order[n], i);
    i
  }

  /** The route the predecessor links give for the node of step `n`, from `start` on. */
  ghost function Route(g: Graph, start: int, s: Search, n: nat): seq<int>
    requires Inv(g, start, s) && n < |s.order|
    decreases n
  {
    if s.order[n] == start then [start] else Route(g, start, s, Step(g, start, s, n)) + [s.order[n]]
  }

  /** The route is a real walk of the graph whose weight is exactly the distance of its end. */
  lemma {:induction false} RouteIsWalk(g: Graph, start: int, s: Search, n: nat) returns (arcs: seq<Arc>)
    requires Inv(g, start, s) && n < |s.order|
    ensures 0 <= s.order[n] < |g| == |s.dist|
    ensures Walk(g, start, arcs, s.order[n]) && Weight(arcs) == s.dist[s.order[n]]
    ensures Nodes(start, arcs) == Route(g, start, s, n)
    decreases n
  {
    InvShape(g, start, s);
    hide Inv;
    var v := s.order[n];
    if v == start {
      arcs := [];
    } else {
      var i := Step(g, start, s, n);
      var init := RouteIsWalk(g, start, s, i);
      var last := Arc(s.pre[v], v, s.dist[v] - s.dist[s.pre[v]]);
      arcs := init + [last];
      AppendArc(g, start, init, last);
    }
  }

  /** In a graph that fits, no relaxation overflows: the sum is a distance of a reached node plus an edge from there. */
  lemma NoOverflow(g: Graph, start: int, s: Search, k: nat)
    requires Expanding(g, start, s, k) && k < |g[s.order[|s.order| - 1]]| && Fits(g, start)
    ensures var u := s.order[|s.order| - 1];
            var (v, w) := g[u][k];
            0 <= v < |g| && 0 <= s.dist[u] + w <= INT32_MAX
  {
    var n := |s.order| - 1;
    var u := s.order[n];
    var a := Arc(u, g[u][k].0, g[u][k].1);
    assert ArcOf(g, a);
    var arcs := RouteIsWalk(g, start, s, n);
    hide Tree, Outdated, Pending, AllRelaxed, Sorted;
    var light :| Walk(g, start, light, a.src) && Weight(light) + a.weight <= INT32_MAX;
    assert s.dist[s.order[n]] <= Weight(light);
  }

  /** Along the route, the expansion step strictly increases; so no vertex repeats. */
  ghost predicate Climbs(order: seq<int>, path: seq<int>) {
    forall i, j, a, b ::
      0 <= i < j < |path| && 0 <= a < |order| && 0 <= b < |order| && order[a] == path[i] && order[b] == path[j]
      ==> a < b
  }

  /** Everything on the path was expanded by step `n`. */
  ghost predicate ExpandedBy(order: seq<int>, path: seq<int>, n: nat)
    requires n < |order|
  {
    forall k :: 0 <= k < |path| ==> exists a :: 0 <= a <= n && order[a] == path[k]
  }

  lemma {:induction false} RouteClimbs(g: Graph, start: int, s: Search, n: nat)
    requires Inv(g, start, s) && n < |s.order|
    ensures Climbs(s.order, Route(g, start, s, n)) && ExpandedBy(s.order, Route(g, start, s, n), n)
    decreases n
  {
    hide Inv, Climbs, ExpandedBy;
    InvShape(g, start, s);
    if s.order[n] != start {
      var i := Step(g, start, s, n);
      RouteClimbs(g, start, s, i);
      ClimbOn(s.order, Route(g, start, s, i), i, n);
    } else {
      ClimbStart(s.order, n);
    }
  }

  lemma ClimbStart(order: seq<int>, n: nat)
    requires n < |order|
    ensures Climbs(order, [order[n]]) && ExpandedBy(order, [order[n]], n)
  {
  }

  lemma ClimbOn(order: seq<int>, init: seq<int>, i: nat, n: nat)
    requires Distinct(order) && i < n < |order|
    requires Climbs(order, init) && ExpandedBy(order, init, i)
    ensures Climbs(order, init + [order[n]]) && ExpandedBy(order, init + [order[n]], n)
  {
  }

  lemma ClimbsIsDistinct(order: seq<int>, path: seq<int>, n: nat)
    requires n < |order| && Climbs(order, path) && ExpandedBy(order, path, n)
    ensures Distinct(path)
  {
  }

  // ---------------------------------------------------------------- what the final state means

  /** What `Dijkstra` leaves behind: an exhausted search. */
  ghost predicate Solved(g: Graph, start: int, s: Search) {
    Quiet(g, start, s) && s.heap == multiset{} && Fits(g, start)
  }

  lemma ReachedIsExpanded(g: Graph, start: int, s: Search, v: int)
    requires Solved(g, start, s) && 0 <= v < |g|
    ensures |s.dist| == |g| && (s.dist[v] != INT32_MAX <==> v in s.order)
  {
    assert Awaits(g, start, s, v);
  }

  /** No walk beats `dist`. */
  lemma NoShorterWalk(g: Graph, start: int, s: Search, arcs: seq<Arc>, v: int)
    requires Solved(g, start, s) && Walk(g, start, arcs, v)
    ensures 0 <= v < |g| == |s.dist| && s.dist[v] <= Weight(arcs) && s.dist[v] != INT32_MAX
  {
    var light :| Walk(g, start, light, v) && Weight(light) < INT32_MAX;
    Frontier(g, start, s, INT32_MAX, light, v);
    hide Tree, Outdated, Pending, AllRelaxed, Sorted, Fits;
    var i :| 0 <= i < |s.order| && s.order[i] == v;
    assert Walk(g, start, arcs, s.order[i]);
  }

  /** `dist` is correct for every vertex. */
  lemma SolvedIsShortest(g: Graph, start: int, s: Search, v: int)
    requires Solved(g, start, s) && 0 <= v < |g|
    ensures |s.dist| == |g| && ShortestDistance(g, start, v, s.dist[v])
  {
    hide Inv, Fits;
    ReachedIsExpanded(g, start, s, v);
    forall arcs | Walk(g, start, arcs, v) ensures s.dist[v] <= Weight(arcs) && s.dist[v] != INT32_MAX {
      NoShorterWalk(g, start, s, arcs, v);
    }
    if s.dist[v] != INT32_MAX {
      var n :| 0 <= n < |s.order| && s.order[n] == v;
      var arcs := RouteIsWalk(g, start, s, n);
    }
  }

  lemma SolvedFacts(g: Graph, start: int, s: Search)
    requires Solved(g, start, s)
    ensures |s.dist| == |s.pre| == |g| && Distinct(s.order)
    ensures forall v :: 0 <= v < |g| ==> ShortestDistance(g, start, v, s.dist[v])
    ensures forall v :: 0 <= v < |g| ==> (v in s.order <==> s.dist[v] != INT32_MAX)
    ensures forall i :: 0 <= i < |s.order| ==> 0 <= s.order[i] < |g|
    ensures forall i, j :: 0 <= i <= j < |s.order| ==> s.dist[s.order[i]] <= s.dist[s.order[j]]
    ensures OutEdges(g, s.order) <= EdgeCount(g)
  {
    hide Inv, ShortestDistance, Fits;
    InvShape(g, start, s);
    forall v | 0 <= v < |g|
      ensures ShortestDistance(g, start, v, s.dist[v]) && (v in s.order <==> s.dist[v] != INT32_MAX)
    {
      SolvedIsShortest(g, start, s, v);
      ReachedIsExpanded(g, start, s, v);
    }
    OutEdgesBound(g, s.order);
  }

  // ---------------------------------------------------------------- which of several shortest paths is kept

  /** Of the nodes from which an edge reaches a node at its distance, the one expanded first is its predecessor. */
  lemma FirstPredecessor(g: Graph, start: int, s: Search, n: nat, j: nat, w: int)
    requires Inv(g, start, s) && n < |s.order| && j < |s.order| && s.order[n] != start
    requires ArcOf(g, Arc(s.order[j], s.order[n], w)) && |s.dist| == |g| && 0 <= s.order[n] < |g|
    requires s.dist[s.order[n]] == s.dist[s.order[j]] + w
    ensures Step(g, start, s, n) <= j
  {
    InvShape(g, start, s);
    hide Inv;
    assert NoneBefore(g, s, s.order[n], Step(g, start, s, n));
  }

  /** At equal distance the smaller node is expanded first, unless it was only discovered from the larger one on. */
  lemma TieIsBroken(g: Graph, start: int, s: Search, i: nat, j: nat)
    requires Inv(g, start, s) && i < j < |s.order| && s.order[j] < s.order[i]
    requires |s.dist| == |g| && 0 <= s.order[j] && s.order[i] < |g| && s.dist[s.order[i]] == s.dist[s.order[j]]
    ensures s.order[j] != start && i <= Step(g, start, s, j)
  {
    hide Tree, Settled, Sorted, Outdated, Pending;
    var v := s.order[j];
    assert TieOk(g, start, s, v, i);
    var k :| i <= k < |s.order| && s.order[k] == s.pre[v];
    assert s.order[Step(g, start, s, j)] == s.order[k];
  }

  ghost predicate Positive(g: Graph) {
    forall a :: ArcOf(g, a) ==> 0 < a.weight
  }

  /** With positive weights nodes are expanded by distance, and equally near ones by number. */
  lemma PositiveOrder(g: Graph, start: int, s: Search, i: nat, j: nat)
    requires Inv(g, start, s) && Positive(g) && i < j < |s.order|
    ensures 0 <= s.order[i] < |g| == |s.dist| && 0 <= s.order[j] < |g|
    ensures var u, v := s.order[i], s.order[j]; s.dist[u] < s.dist[v] || (s.dist[u] == s.dist[v] && u < v)
  {
    InvShape(g, start, s);
    hide Inv;
    var u, v := s.order[i], s.order[j];
    if s.dist[u] == s.dist[v] && v < u {
      TieIsBroken(g, start, s, i, j);
    }
  }

  /**
   * With positive weights the predecessor of a node is, of all those that lie on a shortest path to it, the nearest,
   * and of equally near ones the least. So the path is determined by the graph alone.
   */
  lemma KeptPredecessor(g: Graph, start: int, s: Search, u: int, v: int, w: int)
    requires Solved(g, start, s) && Positive(g) && 0 <= u < |g| == |s.dist| && v != start && ArcOf(g, Arc(u, v, w))
    requires s.dist[u] != INT32_MAX && 0 <= v < |g| && s.dist[v] == s.dist[u] + w != INT32_MAX
    ensures |s.pre| == |g| && 0 <= s.pre[v] < |g|
    ensures s.dist[s.pre[v]] < s.dist[u] || (s.dist[s.pre[v]] == s.dist[u] && s.pre[v] <= u)
  {
    ReachedIsExpanded(g, start, s, u);
    ReachedIsExpanded(g, start, s, v);
    hide Inv, Fits;
    var n :| 0 <= n < |s.order| && s.order[n] == v;
    var j :| 0 <= j < |s.order| && s.order[j] == u;
    FirstPredecessor(g, start, s, n, j, w);
    var i := Step(g, start, s, n);
    if i < j {
      PositiveOrder(g, start, s, i, j);
    }
  }

  // ---------------------------------------------------------------- the algorithm

  lemma TopFacts(g: Graph, start: int, s: Search, top: Entry)
    requires Quiet(g, start, s) && IsTop(s.heap, top)
    ensures |s.dist| == |s.pre| == |g| && 0 <= top.1 < |g|
  {
  }

  lemma ExpandingFacts(g: Graph, start: int, s: Search, k: nat)
    requires Expanding(g, start, s, k)
    ensures |s.dist| == |s.pre| == |g| && s.order != [] && Distinct(s.order)
    ensures forall i :: 0 <= i < |s.order| ==> 0 <= s.order[i] < |g|
  {
  }

  lemma InitialInv(g: Graph, start: int, dist: seq<int>, pre: seq<int>)
    requires WellFormed(g) && 0 <= start < |g| == |dist| == |pre|
    requires forall v :: 0 <= v < |g| ==> dist[v] == (if v == start then 0 else INT32_MAX) && pre[v] == -1
    ensures Quiet(g, start, Search(dist, pre, multiset{(0, start)}, []))
  {
    var s := Search(dist, pre, multiset{(0, start)}, []);
    assert forall v :: 0 <= v < |g| ==> Linked(g, start, s, v);
  }

  /** The log of the run so far: what each expanded node was popped with, and how many entries were pushed. */
  ghost predicate Logged(g: Graph, dist: seq<int>, order: seq<int>, settled: seq<int>, pushes: nat) {
    && |dist| == |g| && |settled| == |order|
    && (forall i :: 0 <= i < |order| ==> 0 <= order[i] < |g| && settled[i] == dist[order[i]])
    && pushes <= 1 + OutEdges(g, order)
  }

  lemma LogMore(g: Graph, dist: seq<int>, order: seq<int>, settled: seq<int>, pushes: nat,
                dist': seq<int>, u: int, at: int, pushes': nat)
    requires Logged(g, dist, order, settled, pushes)
    requires |dist'| == |g| && 0 <= u < |g| && at == dist'[u] && pushes' <= pushes + |g[u]|
    requires forall i :: 0 <= i < |order| ==> dist'[order[i]] == dist[order[i]]
    ensures Logged(g, dist', order + [u], settled + [at], pushes')
  {
    assert (order + [u])[..|order|] == order;
  }

  /** The body of the inner loop: the edge `k` of the node being expanded is relaxed. */
  method RelaxEdge(graph: Graph, ghost start: int, dist: array<int>, pre: array<int>, u: int, k: nat,
                   heap: multiset<Entry>, ghost order: seq<int>) returns (minHeap: multiset<Entry>, ghost pushes: nat)
    requires dist != pre && Expanding(graph, start, Search(dist[..], pre[..], heap, order), k) && Fits(graph, start)
    requires order != [] && order[|order| - 1] == u && 0 <= u < |graph| && k < |graph[u]|
    modifies dist, pre
    ensures Expanding(graph, start, Search(dist[..], pre[..], minHeap, order), k + 1)
    ensures forall i :: 0 <= i < |order| ==> 0 <= order[i] < dist.Length && dist[order[i]] == old(dist[order[i]])
    ensures pushes <= 1
  {
    hide Inv, Expanding, Fits;
    minHeap, pushes := heap, 0;
    var (v, w) := graph[u][k];
    ghost var s := Search(dist[..], pre[..], minHeap, order);
    ExpandingFacts(graph, start, s, k);
    ImprovedIsNew(graph, start, s, k);
    NoOverflow(graph, start, s, k);
    if dist[v] > Add32(dist[u], w) {
      ImproveKeepsInv(graph, start, s, k);
      dist[v] := Add32(dist[u], w);
      pre[v] := u;
      minHeap := minHeap + multiset{(dist[v], v)};
      pushes := 1;
      assert Search(dist[..], pre[..], minHeap, order) == Improve(s, v, w);
    } else {
      NoImprovement(graph, start, s, k);
    }
  }

  /** The inner loop: `u`, just popped with an entry that is not outdated, has all its edges relaxed. */
  method RelaxAll(graph: Graph, ghost start: int, dist: array<int>, pre: array<int>, u: int,
                  heap: multiset<Entry>, ghost top: Entry, ghost before: Search, ghost pushed: nat)
    returns (minHeap: multiset<Entry>, ghost pushes: nat)
    requires dist != pre && dist[..] == before.dist && pre[..] == before.pre
    requires Quiet(graph, start, before) && IsTop(before.heap, top) && heap == before.heap - multiset{top}
    requires top.1 == u && top.0 <= before.dist[u] && Fits(graph, start)
    modifies dist, pre
    ensures Quiet(graph, start, Search(dist[..], pre[..], minHeap, before.order + [u]))
    ensures |before.order| < |graph| && top.0 == dist[u]
    ensures forall i :: 0 <= i < |before.order| ==> dist[before.order[i]] == old(dist[before.order[i]])
    ensures pushes <= pushed + |graph[u]|
  {
    hide Inv, Quiet, Expanding, Fits;
    ExpandKeepsInv(graph, start, before, top);
    ghost var order := before.order + [u];
    assert order[|order| - 1] == u;
    minHeap, pushes := heap, pushed;
    assert Expand(before, top) == Search(dist[..], pre[..], minHeap, order);
    ExpandingFacts(graph, start, Expand(before, top), 0);
    for k := 0 to |graph[u]|
      invariant Expanding(graph, start, Search(dist[..], pre[..], minHeap, order), k)
      invariant forall i :: 0 <= i < |order| ==> dist[order[i]] == old(dist[order[i]])
      invariant pushes <= pushed + k
    {
      ghost var pushedNow;
      minHeap, pushedNow := RelaxEdge(graph, start, dist, pre, u, k, minHeap, order);
      pushes := pushes + pushedNow;
    }
    ExpansionDone(graph, start, Search(dist[..], pre[..], minHeap, order));
    forall i | 0 <= i < |before.order| ensures dist[before.order[i]] == old(dist[before.order[i]]) {
      assert order[i] == before.order[i];
    }
    assert dist[order[|order| - 1]] == top.0;
  }

  /**
   * `order` and `settled` log the nodes expanded and the distance each was popped with; `pushes` counts
   * the entries that were ever put on the heap.
   */
  method Dijkstra(graph: Graph, start: int)
    returns (dist: array<int>, pre: array<int>, ghost order: seq<int>, ghost settled: seq<int>, ghost pushes: nat)
    requires WellFormed(graph) && 0 <= start < |graph| && Fits(graph, start)
    ensures dist.Length == pre.Length == |graph|
    ensures forall v :: 0 <= v < |graph| ==> ShortestDistance(graph, start, v, dist[v])
    ensures Solved(graph, start, Search(dist[..], pre[..], multiset{}, order))
    // Every reachable node is expanded exactly once, nearest first, and its distance is final from then on.
    ensures Distinct(order) && forall v :: 0 <= v < |graph| ==> (v in order <==> dist[v] != 0x7fff_ffff)
    ensures |settled| == |order|
    ensures forall i :: 0 <= i < |order| ==> 0 <= order[i] < |graph| && settled[i] == dist[order[i]]
    ensures forall i, j :: 0 <= i <= j < |settled| ==> settled[i] <= settled[j]
    // Heap traffic.
    ensures pushes <= 1 + EdgeCount(graph)
  {
    hide Quiet, Inv, ShortestDistance, IsTop, OutEdges, Fits, WellFormed;
    dist := new int[|graph|](_ => INT32_MAX);
    pre := new int[|graph|](_ => -1);
    dist[start] := 0;
    var minHeap: multiset<Entry> := multiset{(0, start)};
    order, settled, pushes := [], [], 1;
    InitialInv(graph, start, dist[..], pre[..]);

    while minHeap != multiset{}
      invariant Quiet(graph, start, Search(dist[..], pre[..], minHeap, order))
      invariant Logged(graph, dist[..], order, settled, pushes)
      decreases |graph| - |order|, |minHeap|
    {
      ghost var s := Search(dist[..], pre[..], minHeap, order);
      var top;
      top, minHeap := Pop(minHeap);
      TopFacts(graph, start, s, top);
      var (curDist, u) := top;
      if curDist > dist[u] {
        SkipKeepsInv(graph, start, s, top);
        continue;
      }
      ghost var pushed := pushes;
      minHeap, pushes := RelaxAll(graph, start, dist, pre, u, minHeap, top, s, pushed);
      LogMore(graph, s.dist, order, settled, pushed, dist[..], u, curDist, pushes);
      order, settled := order + [u], settled + [curDist];
    }
    SolvedFacts(graph, start, Search(dist[..], pre[..], multiset{}, order));
  }

  /** Two shortest paths from 0 to 3. */
  const DIAMOND: Graph := [[(1, 1), (2, 1)], [(3, 1)], [(3, 1)], []]

  /** Every edge of the diamond. */
  lemma DiamondArcs(a: Arc)
    ensures ArcOf(DIAMOND, a) <==> a in {Arc(0, 1, 1), Arc(0, 2, 1), Arc(1, 3, 1), Arc(2, 3, 1)}
  {
    assert DIAMOND[0] == [(1, 1), (2, 1)] && DIAMOND[1] == [(3, 1)] && DIAMOND[2] == [(3, 1)] && DIAMOND[3] == [];
  }

  /** The path through 1 is kept, not the one through 2. */
  lemma DiamondPath(s: Search)
    requires Solved(DIAMOND, 0, s)
    ensures |s.dist| == |s.pre| == 4 && s.dist == [0, 1, 1, 2] && s.pre[1] == 0 && s.pre[2] == 0 && s.pre[3] == 1
  {
    var g := DIAMOND;
    forall a ensures ArcOf(g, a) <==> a in {Arc(0, 1, 1), Arc(0, 2, 1), Arc(1, 3, 1), Arc(2, 3, 1)} {
      DiamondArcs(a);
    }
    hide Inv, Fits, ArcOf, AllRelaxed;
    InvShape(g, 0, s);
    InvStart(g, 0, s);
    hide Solved, Walk;
    ReachedByArc(g, 0, s, 0, 1, 1);
    ReachedByArc(g, 0, s, 0, 2, 1);
    ReachedByArc(g, 0, s, 1, 3, 1);
    KeptPredecessor(g, 0, s, 1, 3, 1);
  }

  /** The target of an edge from a reached node is reached, over some edge from its predecessor. */
  lemma ReachedByArc(g: Graph, start: int, s: Search, u: int, v: int, w: int)
    requires Solved(g, start, s) && ArcOf(g, Arc(u, v, w)) && |s.dist| == |g| && s.dist[u] != INT32_MAX && v != start
    ensures |s.pre| == |g| && 0 <= v < |g| && s.dist[v] != INT32_MAX && 0 <= s.pre[v] < |g|
    ensures ArcOf(g, Arc(s.pre[v], v, s.dist[v] - s.dist[s.pre[v]]))
  {
    hide Inv, Fits, AllRelaxed, Walk, Weight, Nodes, Route;
    ReachedIsExpanded(g, start, s, u);
    hide ArcOf;
    var j :| 0 <= j < |s.order| && s.order[j] == u;
    var arcs := RouteIsWalk(g, start, s, j);
    AppendArc(g, start, arcs, Arc(u, v, w));
    NoShorterWalk(g, start, s, arcs + [Arc(u, v, w)], v);
    ReachedIsExpanded(g, start, s, v);
    var n :| 0 <= n < |s.order| && s.order[n] == v;
    var i := Step(g, start, s, n);
  }

  // ---------------------------------------------------------------- path backtracking

  function Reverse(s: seq<int>): seq<int> {
    if s == [] then [] else [s[|s| - 1]] + Reverse(s[..|s| - 1])
  }

  lemma ReverseLast(s: seq<int>, x: int)
    ensures Reverse(s + [x]) == [x] + Reverse(s)
  {
    assert (s + [x])[..|s|] == s;
  }

  lemma RouteStep(g: Graph, start: int, s: Search, n: nat, tail: seq<int>)
    requires Inv(g, start, s) && n < |s.order| && s.order[n] != start
    ensures Route(g, start, s, n) + tail == Route(g, start, s, Step(g, start, s, n)) + ([s.order[n]] + tail)
  {
    hide Inv;
  }

  /** Each vertex of the path is the predecessor of the next. */
  ghost predicate Follows(pre: seq<int>, path: seq<int>) {
    forall k :: 0 < k < |path| ==> 0 <= path[k] < |pre| && path[k - 1] == pre[path[k]]
  }

  lemma {:induction false} RouteFollows(g: Graph, start: int, s: Search, n: nat)
    requires Inv(g, start, s) && n < |s.order|
    ensures var r := Route(g, start, s, n); r != [] && r[|r| - 1] == s.order[n] && r[0] == start && Follows(s.pre, r)
    decreases n
  {
    hide Inv;
    if s.order[n] != start {
      RouteFollows(g, start, s, Step(g, start, s, n));
    }
  }

  /** `path` lists the vertices of a least-weight walk from `start` to `end`. */
  ghost predicate IsShortestPath(g: Graph, start: int, end: int, path: seq<int>) {
    exists arcs :: Walk(g, start, arcs, end) && Nodes(start, arcs) == path
      && forall other :: Walk(g, start, other, end) ==> Weight(arcs) <= Weight(other)
  }

  lemma RouteIsShortestPath(g: Graph, start: int, s: Search, n: nat)
    requires Solved(g, start, s) && n < |s.order|
    ensures IsShortestPath(g, start, s.order[n], Route(g, start, s, n))
    ensures Route(g, start, s, n) != []
  {
    hide Inv, Fits;
    var arcs := RouteIsWalk(g, start, s, n);
    forall other | Walk(g, start, other, s.order[n]) ensures Weight(arcs) <= Weight(other) {
      NoShorterWalk(g, start, s, other, s.order[n]);
    }
  }

  method GetShortestPath(pre: array<int>, start: int, end: int, ghost g: Graph, ghost s: Search)
    returns (path: seq<int>)
    requires Solved(g, start, s) && s.pre == pre[..] && 0 <= end < |g|
    ensures path == [] <==> s.dist[end] == INT32_MAX
    ensures path != [] ==> IsShortestPath(g, start, end, path) && Climbs(s.order, path) && Distinct(path)
    ensures path != [] ==> path[0] == start && path[|path| - 1] == end && Follows(pre[..], path)
  {
    hide Inv, Shape, Climbs, Distinct, IsShortestPath, Fits, Follows;
    InvStart(g, start, s);
    path := [];
    var cur := end;
    ghost var reached := s.dist[end] != INT32_MAX;
    ReachedIsExpanded(g, start, s, end);
    ghost var n: nat := if reached then (var i :| 0 <= i < |s.order| && s.order[i] == end; i) else 0;
    ghost var m: nat := n;
    ghost var route := if reached then Route(g, start, s, n) else [];
    while cur != -1
      invariant reached ==> m < |s.order| && s.order[m] == cur && 0 <= cur < |g|
      invariant reached ==> route == Route(g, start, s, m) + Reverse(path)
      invariant !reached ==> (path == [] && cur == end) || (path == [end] && cur == -1)
      decreases if cur == -1 then 0 else 1, m
    {
      ReverseLast(path, cur);
      ghost var tail := Reverse(path);
      path := path + [cur];
      if cur == start {
        break;
      }
      if reached {
        RouteStep(g, start, s, m, tail);
        m := Step(g, start, s, m);
      } else {
        InvLinked(g, start, s, end);
      }
      cur := pre[cur];
    }
    if path[|path| - 1] != start {
      return [];
    }
    path := Reverse(path);
    RouteIsShortestPath(g, start, s, n);
    RouteClimbs(g, start, s, n);
    RouteFollows(g, start, s, n);
    ClimbsIsDistinct(s.order, path, n);
  }
}
