/** The deadlock detector: the table operations, and the cycle search over shared `visited`, `path` and `k`. */
module DeadlockDetector {
  import opened TaskGraph
  import opened WaitGraph
  import Walks
  import LockHooks

  const MAX := 100

  class Detector {
    var list: Table
    const locklist: array<LockHooks.LockEntry>
    var lockidx: int
    const visited: array<int>
    const path: array<int>
    var k: int
    var deadlock: bool

    ghost predicate Valid()
      reads this
    {
      && visited.Length == MAX && path.Length == MAX + 1 && visited != path
      && |list| <= MAX && TaskGraph.Valid(list)
      && locklist.Length == MAX && 0 <= lockidx <= MAX
    }

    /** The slots that were never used are still zeroed. */
    ghost predicate SlotsZeroed()
      requires Valid()
      reads this, locklist
    {
      forall i :: lockidx <= i < MAX ==> locklist[i] == LockHooks.ZEROED
    }

    /** The two tables the hooks keep. */
    ghost function Tables(): LockHooks.Hooks
      requires Valid()
      reads this, locklist
    {
      LockHooks.Hooks(list, locklist[..lockidx])
    }

    ghost function Visited(): set<int>
      requires Valid()
      reads this, visited
    {
      Marked(visited[..], |list|)
    }

    constructor ()
      ensures Valid() && SlotsZeroed() && Tables() == LockHooks.Hooks([], []) && !deadlock
      ensures fresh(visited) && fresh(path) && fresh(locklist)
      ensures visited.Length == 100 && path.Length == 101 && locklist.Length == 100
    {
      list := [];
      locklist := new LockHooks.LockEntry[MAX](_ => LockHooks.ZEROED);
      lockidx := 0;
      visited := new int[MAX](_ => 0);
      path := new int[MAX + 1](_ => 0);
      k := 0;
      deadlock := false;
    }

    method SearchVertex(s: Source) returns (r: int)
      ensures r == Find(list, s)
    {
      for i := 0 to |list|
        invariant forall j :: 0 <= j < i ==> list[j].s != s
      {
        if list[i].s == s {
          return i;
        }
      }
      return -1;
    }

    method AddVertex(s: Source)
      requires Valid() && |WithVertex(list, s)| <= MAX
      modifies `list
      ensures list == WithVertex(old(list), s) && Valid()
    {
      var i := SearchVertex(s);
      WithVertexMeaning(list, s);
      if i == -1 {
        list := list + [Vertex(s, [])];
      }
    }

    method AddEdge(from: Source, to: Source)
      requires Valid() && |WithEdge(list, from, to)| <= MAX
      modifies `list
      ensures list == WithEdge(old(list), from, to) && Valid()
    {
      WithEdgeMeaning(list, from, to);
      AddVertex(from);
      AddVertex(to);
      var v := SearchVertex(from);
      list := list[v := list[v].(out := list[v].out + [to])];
    }

    method VerifyEdge(i: Source, j: Source) returns (r: bool)
      ensures r == VerifiesEdge(list, i, j)
      ensures r <==> Find(list, i) != -1 && (j.id == i.id || exists s :: s in Out(list, i) && s.id == j.id)
    {
      VerifiesEdgeMeaning(list, i, j);
      hide Out;
      if |list| == 0 {
        return false;
      }
      var idx := SearchVertex(i);
      if idx == -1 {
        return false;
      }
      if list[idx].s.id == j.id {
        return true;
      }
      for v := 0 to |list[idx].out|
        invariant forall k :: 0 <= k < v ==> list[idx].out[k].id != j.id
      {
        if list[idx].out[v].id == j.id {
          return true;
        }
      }
      return false;
    }

    method RemoveEdge(from: Source, to: Source)
      requires Valid()
      modifies `list
      ensures list == WithoutEdge(old(list), from, to) && Valid()
    {
      WithoutEdgeMeaning(list, from, to);
      hide TaskGraph.Valid, Find, RemoveFirst;
      var idxi := SearchVertex(from);
      var idxj := SearchVertex(to);
      if idxi != -1 && idxj != -1 {
        var out := list[idxi].out;
        var v := FirstTarget(out, to.id);
        RemoveFirstAt(out, v, to.id);
        if v < |out| {
          list := list[idxi := list[idxi].(out := out[..v] + out[v + 1..])];
        }
      }
    }

    /** The loop of `RemoveEdge`: how many targets come before the first one with the identifier. */
    static method FirstTarget(out: seq<Source>, id: int) returns (v: nat)
      ensures v <= |out| && (v < |out| ==> out[v].id == id) && forall k :: 0 <= k < v ==> out[k].id != id
    {
      v := 0;
      while v < |out| && out[v].id != id
        invariant v <= |out| && forall k :: 0 <= k < v ==> out[k].id != id
      {
        v := v + 1;
      }
    }

    // -------------------------------------------------------------- the lock hooks

    method SearchLock(lock: int) returns (r: int)
      requires Valid()
      ensures r == LockHooks.SearchLock(Tables().locks, lock)
    {
      for i := 0 to lockidx
        invariant forall j :: 0 <= j < i ==> locklist[j].lockId != lock
      {
        if locklist[i].lockId == lock {
          return i;
        }
      }
      return -1;
    }

    method SearchEmptyLock() returns (r: int)
      requires Valid()
      ensures r == LockHooks.SearchEmptyLock(Tables().locks)
    {
      for i := 0 to lockidx
        invariant forall j :: 0 <= j < i ==> locklist[j].lockId != 0
      {
        if locklist[i].lockId == 0 {
          return i;
        }
      }
      return lockidx;
    }

    method LockBefore(tid: int, lockaddr: int)
      // The vertex table has room for what the hook adds to it.
      requires Valid() && |LockHooks.LockBefore(Tables(), tid, lockaddr).list| <= MAX
      modifies `list, locklist
      ensures Valid() && Tables() == LockHooks.LockBefore(old(Tables()), tid, lockaddr)
      ensures forall i :: lockidx <= i < MAX ==> locklist[i] == old(locklist[i])
    {
      hide TaskGraph.Valid, Find, LockHooks.Record;
      for idx := 0 to lockidx
        invariant Valid()
        invariant LockHooks.LockBeforeFrom(Tables(), tid, lockaddr, idx)
               == LockHooks.LockBefore(old(Tables()), tid, lockaddr)
        invariant forall i :: lockidx <= i < MAX ==> locklist[i] == old(locklist[i])
      {
        if locklist[idx].lockId == lockaddr {
          LockHooks.BeforeGrows(LockHooks.Record(Tables(), tid, idx), tid, lockaddr, idx + 1);
          RecordWait(tid, idx);
        }
      }
    }

    /** The body of the loop of `LockBefore` for a slot of the awaited lock. */
    method RecordWait(tid: int, idx: int)
      requires Valid() && 0 <= idx < lockidx && |LockHooks.Record(Tables(), tid, idx).list| <= MAX
      modifies `list, locklist
      ensures Valid() && Tables() == LockHooks.Record(old(Tables()), tid, idx)
      ensures forall i :: lockidx <= i < MAX ==> locklist[i] == old(locklist[i])
    {
      hide TaskGraph.Valid, Find, WithVertex, WithEdge, VerifiesEdge;
      var from, to := LockHooks.Proc(tid), LockHooks.Proc(locklist[idx].id);
      RoomForRecord(list, from, to);
      AddVertex(from);
      AddVertex(to);
      locklist[idx] := locklist[idx].(degress := locklist[idx].degress + 1);
      var known := VerifyEdge(from, to);
      if !known {
        AddEdge(from, to);
      }
    }

    method LockAfter(tid: int, lockaddr: int)
      // A new slot extends the lock table; a lock that has one needs room only for the vertices.
      requires Valid() && SlotsZeroed() && |LockHooks.LockAfter(Tables(), tid, lockaddr).list| <= MAX
      requires LockHooks.SearchLock(Tables().locks, lockaddr) == -1 ==> lockidx < MAX
      modifies `list, `lockidx, locklist
      ensures Valid() && SlotsZeroed() && Tables() == LockHooks.LockAfter(old(Tables()), tid, lockaddr)
    {
      hide TaskGraph.Valid, Find, WithVertex, WithEdge, VerifiesEdge, WithoutEdge;
      var idx := SearchLock(lockaddr);
      if idx == -1 {
        TakeSlot(tid, lockaddr);
      } else {
        var from, to := LockHooks.Proc(tid), LockHooks.Proc(locklist[idx].id);
        RoomForRecord(list, from, to);
        RemoveWait(from, to);
        locklist[idx] := locklist[idx].(degress := locklist[idx].degress - 1);
        locklist[idx] := locklist[idx].(id := tid);
      }
    }

    /** The part of `LockAfter` for a lock without a slot. */
    method TakeSlot(tid: int, lockaddr: int)
      requires Valid() && SlotsZeroed() && lockidx < MAX
      modifies `lockidx, locklist
      ensures Valid() && SlotsZeroed() && lockidx == old(lockidx) + 1
      ensures Tables().locks == LockHooks.Occupy(old(Tables().locks), tid, lockaddr)
    {
      hide TaskGraph.Valid;
      var eidx := SearchEmptyLock();
      locklist[eidx] := locklist[eidx].(id := tid, lockId := lockaddr);
      lockidx := lockidx + 1;
    }

    /** The graph part of `LockAfter` for a lock that has a slot. */
    method RemoveWait(from: Source, to: Source)
      requires Valid() && |WithVertex(WithVertex(list, from), to)| <= MAX
      modifies `list
      ensures Valid()
      ensures var t := WithVertex(WithVertex(old(list), from), to);
              list == if VerifiesEdge(t, from, to) then WithoutEdge(t, from, to) else t
    {
      hide TaskGraph.Valid, Find, WithVertex, WithEdge, VerifiesEdge, WithoutEdge;
      RoomForRecord(list, from, to);
      AddVertex(from);
      AddVertex(to);
      var known := VerifyEdge(from, to);
      if known {
        RemoveEdge(from, to);
      }
    }

    method UnlockAfter(lockaddr: int)
      requires Valid() && SlotsZeroed() && LockHooks.SearchLock(Tables().locks, lockaddr) != -1
      modifies locklist
      ensures Valid() && SlotsZeroed() && Tables() == LockHooks.UnlockAfter(old(Tables()), lockaddr)
    {
      var idx := SearchLock(lockaddr);
      if locklist[idx].degress == 0 {
        locklist[idx] := locklist[idx].(id := 0, lockId := 0);
      }
    }

    // -------------------------------------------------------------- the cycle search

    /** `path[k++] = idx`. */
    method Push(idx: int)
      requires Valid() && 0 <= k <= MAX
      modifies path, `k
      ensures k == old(k) + 1 && path[..k] == old(path[..k]) + [idx] && Visited() == old(Visited())
    {
      hide Marked;
      path[k] := idx;
      k := k + 1;
    }

    /** `visited[idx] = 1`. */
    method Mark(idx: int)
      requires Valid() && 0 <= idx < |list|
      modifies visited
      ensures Visited() == old(Visited()) + {idx}
    {
      MarkOne(visited[..], |list|, idx);
      hide Marked;
      visited[idx] := 1;
    }

    method DFS(idx: int)
      requires Valid() && 0 <= idx < |list| && 0 <= k <= MAX
      requires Trail(Graph(list), path[..k], Visited(), idx)
      modifies visited, path, `k, `deadlock
      // The trail grows by exactly `idx`, and never runs over the buffer.
      ensures k == old(k) + 1 <= |list| + 1 && path[..k] == old(path[..k]) + [idx]
      ensures Searched(Graph(list), idx, old(Visited()), Visited(), old(deadlock), deadlock)
      decreases Walks.Below(|list|) - Visited(), 0
    {
      hide Searched, Searching, Trail, Grown, TaskGraph.Valid, Find, Graph, Marked, Walks.Below;
      ghost var g := Graph(list);
      ghost var before := Visited();
      ghost var trail := path[..k];
      MarkOne(visited[..], |list|, idx);
      TrailBound(g, trail, before, idx, |list|);
      if visited[idx] == 1 {
        Push(idx);
        deadlock := true;
        SearchRevisits(g, idx, before, old(deadlock));
        return;
      }
      Mark(idx);
      Push(idx);
      SearchStarts(g, idx, before, deadlock);
      ghost var grown := path[..k];
      TrailGrows(g, trail, before, idx);
      var ver := 0;
      while ver < |list[idx].out|
        invariant 0 <= ver <= |list[idx].out|
        invariant k == |grown| && path[..k] == grown
        invariant before + {idx} <= Visited()
        invariant Searching(g, idx, ver, before, Visited(), old(deadlock), deadlock)
      {
        FewerLeft(|list|, before, idx, Visited());
        Descend(idx, ver, grown, before, old(deadlock));
        ver := ver + 1;
      }
      SearchEnds(g, idx, before, Visited(), old(deadlock), deadlock);
    }

    /** One turn of the loop of `DFS(idx)`: searches below the out-edge at position `ver` and takes it off the trail. */
    method Descend(idx: int, ver: int, ghost grown: seq<int>, ghost before: set<int>, ghost was: bool)
      requires Valid() && 0 <= idx < |list| && 0 <= ver < |list[idx].out|
      requires k == |grown| <= |list| && path[..k] == grown
      requires before + {idx} <= Visited() && Grown(Graph(list), grown, before, idx)
      requires Searching(Graph(list), idx, ver, before, Visited(), was, deadlock)
      modifies visited, path, `k, `deadlock
      ensures k == old(k) && path[..k] == grown
      ensures before + {idx} <= Visited()
      ensures Searching(Graph(list), idx, ver + 1, before, Visited(), was, deadlock)
      decreases Walks.Below(|list|) - Visited(), 1
    {
      hide Searched, Searching, Trail, Grown, TaskGraph.Valid, Find, Marked, Walks.Below;
      ghost var g, mid, now := Graph(list), Visited(), deadlock;
      var next := SearchVertex(list[idx].out[ver]);
      TargetIsListed(list, idx, ver);
      GrownExtends(g, grown, before, idx, ver, mid);
      DFS(next);
      SearchContinues(g, idx, ver, before, mid, Visited(), was, now, deadlock);
      ghost var longer := path[..k];
      k := k - 1;
      assert path[..k] == longer[..k];
    }

    /** Between two successors of `idx`: only `idx` stays marked, and only `idx` stays on the trail. */
    method Reset(idx: int)
      requires Valid() && 0 <= idx < |list| && visited[idx] == 1 && path[0] == idx
      modifies visited, path, `k
      ensures k == 1 && path[..1] == [idx] && Visited() == {idx}
      ensures forall i :: 1 <= i <= MAX ==> path[i] == -1
    {
      for i := 0 to |list|
        invariant visited[idx] == 1 && path[0] == idx
        invariant forall x :: 0 <= x < i && x != idx ==> visited[x] == 0
      {
        if i == idx {
          continue;
        }
        visited[i] := 0;
      }
      assert Visited() == {idx};
      ghost var marks := visited[..];
      for i := 1 to MAX + 1
        invariant path[0] == idx && visited[..] == marks && forall j :: 1 <= j < i ==> path[j] == -1
      {
        path[i] := -1;
      }
      assert forall x :: 0 <= x < |list| ==> visited[x] == marks[x];
      k := 1;
    }

    /** One turn of the loop of `SearchForCycle`: looks for a way back to `idx`, or twice to any vertex. */
    method SearchBelow(idx: int, ver: int)
      requires Valid() && 0 <= idx < |list| && 0 <= ver < |list[idx].out| && visited[idx] == 1 && path[0] == idx
      modifies visited, path, `k, `deadlock
      ensures k >= 1 && path[0] == idx && visited[idx] == 1
      ensures old(deadlock) ==> deadlock
      ensures !old(deadlock) ==> (deadlock <==> !UniqueFrom(Graph(list), Graph(list)[idx][ver]))
    {
      hide Searched, UniqueFrom, TaskGraph.Valid, Find, Marked, Trail;
      ghost var g := Graph(list);
      Reset(idx);
      var next := SearchVertex(list[idx].out[ver]);
      TargetIsListed(list, idx, ver);
      RootTrail(g, idx, ver);
      DFS(next);
      assert path[0] == path[..k][0];
      RootSearched(g, idx, ver, {idx}, Visited(), old(deadlock), deadlock);
      MarkOne(visited[..], |list|, idx);
    }

    /** Looks below each successor of `idx` in turn. */
    method SearchForCycle(idx: int)
      requires Valid() && 0 <= idx < |list|
      modifies visited, path, `k, `deadlock
      ensures old(deadlock) ==> deadlock
      ensures !old(deadlock) ==>
                (deadlock <==> exists v :: Edge(Graph(list), idx, v) && !UniqueFrom(Graph(list), v))
    {
      hide UniqueFrom, TaskGraph.Valid, Find;
      ghost var g := Graph(list);
      visited[idx] := 1;
      k := 0;
      path[k] := idx;
      k := k + 1;
      for ver := 0 to |list[idx].out|
        invariant k >= 1 && path[0] == idx && visited[idx] == 1
        invariant old(deadlock) ==> deadlock
        invariant !old(deadlock) ==> (deadlock <==> exists j :: 0 <= j < ver && !UniqueFrom(g, g[idx][j]))
      {
        SearchBelow(idx, ver);
      }
      EdgeIsArc(g, idx);
    }

    method CheckDeadLock()
      requires Valid()
      modifies visited, path, `k, `deadlock
      // Exactly what is reported, on any graph.
      ensures deadlock <==> Reconverges(Graph(list))
      // So no cycle is missed, and with at most one out-edge per vertex nothing else is reported.
      ensures HasCycle(Graph(list)) ==> deadlock
      ensures OutDegreeAtMostOne(Graph(list)) ==> (deadlock <==> HasCycle(Graph(list)))
    {
      hide UniqueFrom, HasCycle, Reconverges, OutDegreeAtMostOne, Reports;
      ghost var g := Graph(list);
      deadlock := false;
      ReportsNone(g);
      for i := 0 to |list|
        invariant deadlock <==> Reports(g, i)
      {
        if deadlock {
          break;
        }
        SearchForCycle(i);
        ReportsNext(g, i);
      }
      ReportsAll(g);
      CycleCorollaries(g);
    }
  }

  ghost function Marked(marks: seq<int>, n: nat): set<int>
    requires n <= |marks|
  {
    set i | 0 <= i < n && marks[i] == 1
  }

  lemma MarkOne(marks: seq<int>, n: nat, i: nat)
    requires i < n <= |marks|
    ensures i in Marked(marks, n) <==> marks[i] == 1
    ensures forall x :: x in Marked(marks, n) ==> 0 <= x < n
    ensures Marked(marks[i := 1], n) == Marked(marks, n) + {i}
  {
  }

  /** One of the first `n` vertices has a successor that reaches some vertex in two ways. */
  ghost predicate Reports(g: Adjacency, n: int) {
    exists s, v :: 0 <= s < n && Edge(g, s, v) && !UniqueFrom(g, v)
  }

  /** Recording and dropping an edge need room for its two ends and no more. */
  lemma RoomForRecord(t: Table, from: Source, to: Source)
    requires TaskGraph.Valid(t)
    ensures var t' := WithVertex(WithVertex(t, from), to);
            && |WithVertex(t, from)| <= |t'| && |WithEdge(t', from, to)| == |t'| == |WithoutEdge(t', from, to)|
  {
    WithVertexMeaning(t, from);
    WithVertexMeaning(WithVertex(t, from), to);
    WithEdgeMeaning(WithVertex(WithVertex(t, from), to), from, to);
  }

  lemma TargetIsListed(t: Table, i: int, k: int)
    requires TaskGraph.Valid(t) && 0 <= i < |t| && 0 <= k < |t[i].out|
    ensures 0 <= Find(t, t[i].out[k]) < |t| && Graph(t)[i][k] == Find(t, t[i].out[k])
  {
  }

  lemma ReportsNone(g: Adjacency)
    ensures !Reports(g, 0)
  {
  }

  lemma ReportsNext(g: Adjacency, n: int)
    requires 0 <= n
    ensures Reports(g, n + 1) <==> Reports(g, n) || exists v :: Edge(g, n, v) && !UniqueFrom(g, v)
  {
  }

  lemma ReportsAll(g: Adjacency)
    ensures Reports(g, |g|) <==> Reconverges(g)
    ensures forall n :: 0 <= n <= |g| && Reports(g, n) ==> Reconverges(g)
  {
    if Reconverges(g) {
      var s, v :| Edge(g, s, v) && !UniqueFrom(g, v);
      assert 0 <= s < |g|;
    }
  }

  lemma CycleCorollaries(g: Adjacency)
    ensures HasCycle(g) ==> Reconverges(g)
    ensures OutDegreeAtMostOne(g) ==> (Reconverges(g) <==> HasCycle(g))
  {
    if HasCycle(g) { CycleReconverges(g); }
    if OutDegreeAtMostOne(g) { ReconvergesIsCycle(g); }
  }

  lemma TrailBound(g: Adjacency, trail: seq<int>, marked: set<int>, next: int, n: nat)
    requires Trail(g, trail, marked, next) && forall x :: x in marked ==> 0 <= x < n
    ensures |trail| <= n
    ensures next !in marked && 0 <= next < n ==> |trail| < n
  {
    Walks.DistinctBound(trail, n);
    if next !in marked && 0 <= next < n {
      Walks.DistinctBound(trail + [next], n);
    }
  }

  lemma FewerLeft(n: nat, before: set<int>, i: int, now: set<int>)
    requires 0 <= i < n && i !in before && before + {i} <= now
    ensures Walks.Below(n) - now < Walks.Below(n) - before
  {
    Walks.BelowIs(n);
  }

  /** The trail up to and with `v`, whose out-edges are searched now. */
  ghost predicate Grown(g: Adjacency, grown: seq<int>, before: set<int>, v: int) {
    exists trail :: grown == trail + [v] && v !in before && Trail(g, trail, before, v)
  }

  lemma TrailGrows(g: Adjacency, trail: seq<int>, before: set<int>, v: int)
    requires Trail(g, trail, before, v) && v !in before
    ensures Grown(g, trail + [v], before, v)
  {
  }

  lemma GrownExtends(g: Adjacency, grown: seq<int>, before: set<int>, v: int, j: int, after: set<int>)
    requires Grown(g, grown, before, v) && before + {v} <= after && IsArc(g, Arc(v, j))
    ensures Trail(g, grown, after, g[v][j])
  {
    var trail :| grown == trail + [v] && v !in before && Trail(g, trail, before, v);
    TrailExtends(g, trail, before, v, j, after);
  }

  lemma RootTrail(g: Adjacency, s: int, j: nat)
    requires IsArc(g, Arc(s, j))
    ensures Trail(g, [s], {s}, g[s][j])
  {
    assert Target(g, Arc(s, j)) == g[s][j];
  }

  lemma RootSearched(g: Adjacency, s: int, j: nat, before: set<int>, after: set<int>, was: bool, now: bool)
    requires IsArc(g, Arc(s, j)) && before == {s} && Searched(g, g[s][j], before, after, was, now)
    ensures s in after && (was ==> now) && (!was ==> (now <==> !UniqueFrom(g, g[s][j])))
  {
    var v := g[s][j];
    if !now {
      ForestIsUnique(g, after - {s}, v);
    }
    if UniqueFrom(g, v) {
      NoWayBack(g, Arc(s, j));
    }
  }

  lemma EdgeIsArc(g: Adjacency, s: int)
    requires 0 <= s < |g|
    ensures (exists j :: 0 <= j < |g[s]| && !UniqueFrom(g, g[s][j])) <==> exists v :: Edge(g, s, v) && !UniqueFrom(g, v)
  {
    if j :| 0 <= j < |g[s]| && !UniqueFrom(g, g[s][j]) {
      assert Target(g, Arc(s, j)) == g[s][j];
      assert Edge(g, s, g[s][j]);
    }
  }
}
