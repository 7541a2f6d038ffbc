/** The wait-for graph as a table of vertices with adjacency lists, and what the graph operations do to it. */
module TaskGraph {
  import WaitGraph

  datatype Kind = Process | Resource

  datatype Source = Source(id: int, kind: Kind)

  /** A table entry: the vertex and the targets of its out-edges, in list order. */
  datatype Vertex = Vertex(s: Source, out: seq<Source>)

  type Table = seq<Vertex>

  /** The index of the first entry for `s`, or -1. */
  function Find(t: Table, s: Source): (r: int)
    ensures -1 <= r < |t|
    ensures r >= 0 ==> t[r].s == s && forall i :: 0 <= i < r ==> t[i].s != s
    ensures r == -1 ==> forall i :: 0 <= i < |t| ==> t[i].s != s
  {
    FindFrom(t, s, 0)
  }

  function FindFrom(t: Table, s: Source, i: nat): (r: int)
    requires i <= |t|
    ensures r == -1 || i <= r < |t|
    ensures r >= 0 ==> t[r].s == s && forall k :: i <= k < r ==> t[k].s != s
    ensures r == -1 ==> forall k :: i <= k < |t| ==> t[k].s != s
    decreases |t| - i
  {
    if i == |t| then -1 else if t[i].s == s then i else FindFrom(t, s, i + 1)
  }

  /** No vertex is listed twice, and every edge target is a listed vertex. */
  ghost predicate Valid(t: Table) {
    && (forall i, j :: 0 <= i < j < |t| ==> t[i].s != t[j].s)
    && (forall i, k :: 0 <= i < |t| && 0 <= k < |t[i].out| ==> Find(t, t[i].out[k]) != -1)
  }

  /** The out-edges of `s`; a vertex that is not listed has none. */
  ghost function Out(t: Table, s: Source): seq<Source> {
    if Find(t, s) == -1 then [] else t[Find(t, s)].out
  }

  /** The table as a graph over indices, which is how the cycle search follows it. */
  ghost function Graph(t: Table): (g: WaitGraph.Adjacency)
    ensures |g| == |t|
    ensures forall i :: 0 <= i < |t| ==> |g[i]| == |t[i].out|
    ensures forall i, k :: 0 <= i < |t| && 0 <= k < |t[i].out| ==> g[i][k] == Find(t, t[i].out[k])
  {
    seq(|t|, i requires 0 <= i < |t| => seq(|t[i].out|, k requires 0 <= k < |t[i].out| => Find(t, t[i].out[k])))
  }

  /** The search never looks up an unlisted vertex. */
  lemma ValidIsClosed(t: Table)
    requires Valid(t)
    ensures WaitGraph.Closed(Graph(t))
  {
  }

  // ---------------------------------------------------------------- operations, as functions on the table

  function WithVertex(t: Table, s: Source): (r: Table)
    ensures t <= r && exists i :: 0 <= i < |r| && r[i].s == s
  {
    if Find(t, s) == -1 then
      var r := t + [Vertex(s, [])];
      assert r[|t|].s == s;
      r
    else t
  }

  function WithEdge(t: Table, from: Source, to: Source): Table {
    var t' := WithVertex(WithVertex(t, from), to);
    var i := Find(t', from);
    t'[i := t'[i].(out := t'[i].out + [to])]
  }

  /** The source's test: it compares identifiers only, and starts with the vertex itself. */
  predicate VerifiesEdge(t: Table, from: Source, to: Source) {
    var i := Find(t, from);
    i != -1 && (from.id == to.id || exists k :: 0 <= k < |t[i].out| && t[i].out[k].id == to.id)
  }

  /** Removes the first target with the given identifier. */
  function RemoveFirst(out: seq<Source>, id: int): (r: seq<Source>)
    ensures forall s :: s in r ==> s in out
  {
    if out == [] then [] else if out[0].id == id then out[1..] else [out[0]] + RemoveFirst(out[1..], id)
  }

  lemma {:induction false} RemoveFirstAt(out: seq<Source>, v: nat, id: int)
    requires v <= |out| && forall k :: 0 <= k < v ==> out[k].id != id
    requires v < |out| ==> out[v].id == id
    ensures RemoveFirst(out, id) == if v < |out| then out[..v] + out[v + 1..] else out
  {
    if v > 0 {
      RemoveFirstAt(out[1..], v - 1, id);
    }
  }

  function WithoutEdge(t: Table, from: Source, to: Source): Table {
    var i := Find(t, from);
    if i != -1 && Find(t, to) != -1 then t[i := t[i].(out := RemoveFirst(t[i].out, to.id))] else t
  }

  // ---------------------------------------------------------------- what they mean for vertices and out-edges

  /** Two tables that list the same vertices in the same places find the same vertices. */
  lemma FindSame(t: Table, t': Table, s: Source)
    requires |t| == |t'| && forall i :: 0 <= i < |t| ==> t[i].s == t'[i].s
    ensures Find(t, s) == Find(t', s)
  {
  }

  lemma WithVertexMeaning(t: Table, s: Source)
    requires Valid(t)
    ensures var t' := WithVertex(t, s);
            && Valid(t') && Find(t', s) != -1
            && (forall x :: Find(t', x) != -1 <==> x == s || Find(t, x) != -1)
            && (forall x :: Out(t', x) == Out(t, x))
  {
    var t' := WithVertex(t, s);
    if Find(t, s) == -1 {
      forall x ensures Find(t', x) == if x == s then |t| else Find(t, x) {
        assert t'[|t|].s == s;
        assert forall i :: 0 <= i < |t| ==> t'[i] == t[i];
      }
    }
  }

  /** Adding an edge lists both ends and appends one out-edge to `from`; every other adjacency list stays as it was. */
  lemma WithEdgeMeaning(t: Table, from: Source, to: Source)
    requires Valid(t)
    ensures var t' := WithEdge(t, from, to);
            && Valid(t')
            && (forall x :: Find(t', x) != -1 <==> x == from || x == to || Find(t, x) != -1)
            && (forall x :: Out(t', x) == if x == from then Out(t, x) + [to] else Out(t, x))
  {
    WithVertexMeaning(t, from);
    WithVertexMeaning(WithVertex(t, from), to);
    var u := WithVertex(WithVertex(t, from), to);
    UpdateMeaning(u, from, Out(u, from) + [to]);
  }

  lemma UpdateMeaning(t: Table, s: Source, out: seq<Source>)
    requires Valid(t) && Find(t, s) != -1 && forall x :: x in out ==> Find(t, x) != -1
    ensures var i := Find(t, s);
            var t' := t[i := t[i].(out := out)];
            && Valid(t')
            && (forall x :: Find(t', x) == Find(t, x))
            && (forall x :: Out(t', x) == if x == s then out else Out(t, x))
  {
    var i := Find(t, s);
    var t' := t[i := t[i].(out := out)];
    forall x ensures Find(t', x) == Find(t, x) {
      FindSame(t, t', x);
    }
  }

  /** The test finds the identifier of the vertex itself or of any of its out-edges, wherever it stands in the list. */
  lemma VerifiesEdgeMeaning(t: Table, from: Source, to: Source)
    ensures VerifiesEdge(t, from, to) <==>
            Find(t, from) != -1 && (to.id == from.id || exists s :: s in Out(t, from) && s.id == to.id)
  {
    if s :| Find(t, from) != -1 && s in Out(t, from) && s.id == to.id {
      var k :| 0 <= k < |Out(t, from)| && Out(t, from)[k] == s;
    }
  }

  /** Removing an edge between listed vertices drops one out-edge of `from` and nothing else. */
  lemma WithoutEdgeMeaning(t: Table, from: Source, to: Source)
    requires Valid(t)
    ensures var t' := WithoutEdge(t, from, to);
            && Valid(t')
            && (forall x :: Find(t', x) == Find(t, x))
            && (forall x :: Out(t', x) ==
                  if x == from && Find(t, to) != -1 then RemoveFirst(Out(t, x), to.id) else Out(t, x))
  {
    if Find(t, from) != -1 {
      forall x | x in Out(t, from) ensures Find(t, x) != -1 {}
      UpdateMeaning(t, from, RemoveFirst(Out(t, from), to.id));
    }
  }

  /** Adding an edge whose target is not yet among the out-edges, then removing it, restores every out-edge. */
  lemma {:induction false} AddThenRemove(t: Table, from: Source, to: Source)
    requires Valid(t) && forall s :: s in Out(t, from) ==> s.id != to.id
    ensures forall x :: Out(WithoutEdge(WithEdge(t, from, to), from, to), x) == Out(t, x)
  {
    WithEdgeMeaning(t, from, to);
    WithoutEdgeMeaning(WithEdge(t, from, to), from, to);
    RemoveAppended(Out(t, from), to);
  }

  lemma {:induction false} RemoveAppended(out: seq<Source>, s: Source)
    requires forall x :: x in out ==> x.id != s.id
    ensures RemoveFirst(out + [s], s.id) == out
  {
    if out != [] {
      RemoveAppended(out[1..], s);
      assert (out + [s])[1..] == out[1..] + [s];
    }
  }

  // ---------------------------------------------------------------- a table with a diamond

  function Task(id: int): Source {
    Source(id, Process)
  }

  /** What five `add_edge` calls on an empty table make: 1 waits for 2, 2 for 3 and 4, and both of them for 5. */
  function DiamondTable(): Table {
    var t1 := WithEdge([], Task(1), Task(2));
    var t2 := WithEdge(t1, Task(2), Task(3));
    var t3 := WithEdge(t2, Task(2), Task(4));
    var t4 := WithEdge(t3, Task(3), Task(5));
    WithEdge(t4, Task(4), Task(5))
  }

  lemma ListedAt(t: Table, s: Source, i: int)
    requires 0 <= i < |t| && t[i].s == s && forall j :: 0 <= j < i ==> t[j].s != s
    ensures Find(t, s) == i
  {
  }

  /** An edge from the vertex at `i` to a vertex that is not listed yet. */
  lemma EdgeToNew(t: Table, i: int, from: Source, to: Source, out: seq<Source>)
    requires Find(t, from) == i && i != -1 && Find(t, to) == -1 && out == t[i].out + [to]
    ensures WithEdge(t, from, to) == t[i := Vertex(from, out)] + [Vertex(to, [])]
  {
    ListedAt(t + [Vertex(to, [])], from, i);
  }

  lemma FirstEdge(from: Source, to: Source)
    requires from != to
    ensures WithEdge([], from, to) == [Vertex(from, [to]), Vertex(to, [])]
  {
    ListedAt([Vertex(from, []), Vertex(to, [])], from, 0);
    assert [] + [to] == [to];
  }

  /** The table is one the cycle search accepts, its graph reconverges, and there is no cycle in it. */
  lemma DiamondTableReconverges()
    ensures Valid(DiamondTable()) && Graph(DiamondTable()) == [[1], [2, 3], [4], [4], []]
    ensures WaitGraph.Reconverges(Graph(DiamondTable())) && !WaitGraph.HasCycle(Graph(DiamondTable()))
  {
    var a, b, c, d, e := Task(1), Task(2), Task(3), Task(4), Task(5);
    hide FindFrom, Find, WithEdge, WaitGraph.Reconverges, WaitGraph.HasCycle;
    FirstEdge(a, b);
    var t1 := [Vertex(a, [b]), Vertex(b, [])];
    ListedAt(t1, b, 1);
    EdgeToNew(t1, 1, b, c, [c]);
    var t2 := [Vertex(a, [b]), Vertex(b, [c]), Vertex(c, [])];
    assert WithEdge(t1, b, c) == t2;
    ListedAt(t2, b, 1);
    EdgeToNew(t2, 1, b, d, [c, d]);
    var t3 := [Vertex(a, [b]), Vertex(b, [c, d]), Vertex(c, []), Vertex(d, [])];
    assert WithEdge(t2, b, d) == t3;
    ListedAt(t3, c, 2);
    EdgeToNew(t3, 2, c, e, [e]);
    var t4 := [Vertex(a, [b]), Vertex(b, [c, d]), Vertex(c, [e]), Vertex(d, []), Vertex(e, [])];
    assert WithEdge(t3, c, e) == t4;
    LastEdge(t4, a, b, c, d, e);
    WaitGraph.DiamondReconverges();
  }

  lemma LastEdge(t: Table, a: Source, b: Source, c: Source, d: Source, e: Source)
    requires t == [Vertex(a, [b]), Vertex(b, [c, d]), Vertex(c, [e]), Vertex(d, []), Vertex(e, [])]
    requires a == Task(1) && b == Task(2) && c == Task(3) && d == Task(4) && e == Task(5)
    ensures var t' := WithEdge(t, d, e); Valid(t') && Graph(t') == [[1], [2, 3], [4], [4], []]
  {
    hide FindFrom, Find;
    ListedAt(t, d, 3);
    ListedAt(t, e, 4);
    var t' := t[3 := Vertex(d, [e])];
    assert [] + [e] == [e];
    assert WithEdge(t, d, e) == t';
    ListedAt(t', b, 1);
    ListedAt(t', c, 2);
    ListedAt(t', d, 3);
    ListedAt(t', e, 4);
    var g := Graph(t');
    assert g[0] == [1] && g[1] == [2, 3] && g[2] == [4] && g[3] == [4] && g[4] == [];
    assert g == [[1], [2, 3], [4], [4], []];
  }
}
