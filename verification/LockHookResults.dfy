/** What the detector's graph says about real deadlocks, over every run of the hooks. */
module LockHookResults {
  import opened TaskGraph
  import opened WaitGraph
  import opened LockHooks
  import DeadlockDetector

  /** Thread `t` waits for a lock that thread `u` really holds. */
  ghost predicate WaitsFor(s: System, t: int, u: int) {
    t in s.waiting && s.waiting[t] in s.holder && s.holder[s.waiting[t]] == u
  }

  /** `ring` closes on itself, and each of its threads really waits for the next. */
  ghost predicate RealRing(s: System, ring: seq<int>) {
    |ring| > 1 && ring[0] == ring[|ring| - 1] && forall i :: 0 <= i < |ring| - 1 ==> WaitsFor(s, ring[i], ring[i + 1])
  }

  /** The same in the recorded graph: each thread's only edge goes to the next. */
  ghost predicate RecordedRing(s: System, ring: seq<int>) {
    && |ring| > 1 && ring[0] == ring[|ring| - 1]
    && forall i :: 0 <= i < |ring| - 1 ==> Out(s.h.list, Proc(ring[i])) == [Proc(ring[i + 1])]
  }

  /** A thread has an out-edge only while it waits, and then exactly one: to the holder recorded in the lock's slot. */
  lemma EdgesOfWaiters(events: seq<Event>, s: System, x: Source)
    requires Run(events, s)
    ensures Out(s.h.list, x) != [] ==>
              && x.kind == Process && x.id in s.waiting
              && var i := SearchLock(s.h.locks, s.waiting[x.id]);
              && i != -1 && s.h.locks[i].degress == 1 && Out(s.h.list, x) == [Proc(s.h.locks[i].id)]
  {
    RunKeepsInv(events, s);
    assert Out(s.h.list, x) == Recorded(s, x);
    if Out(s.h.list, x) != [] {
      assert SlotOk(s, SearchLock(s.h.locks, s.waiting[x.id]));
    }
  }

  /** `degress` is the number of threads recorded as waiting for the lock of the slot. */
  lemma DegressCountsWaiters(events: seq<Event>, s: System, i: int)
    requires Run(events, s) && 0 <= i < |s.h.locks|
    ensures s.h.locks[i].degress == |set t | t in s.waiting && s.waiting[t] == s.h.locks[i].lockId|
  {
    RunKeepsInv(events, s);
    assert SlotOk(s, i);
    var l := s.h.locks[i].lockId;
    var waiters := set t | t in s.waiting && s.waiting[t] == l;
    assert WaitersMatch(s);
    if l in s.waiter && l != 0 {
      forall t ensures t in waiters <==> t == s.waiter[l] {}
      assert waiters == {s.waiter[l]};
    } else {
      forall t | t in s.waiting ensures s.waiting[t] != l {}
      assert waiters == {};
    }
  }

  /** So the detector's soundness condition holds in every reachable state. */
  lemma RunsHaveOneOutEdge(events: seq<Event>, s: System)
    requires Run(events, s)
    ensures TaskGraph.Valid(s.h.list) && OutDegreeAtMostOne(Graph(s.h.list))
  {
    RunKeepsInv(events, s);
    forall i | 0 <= i < |s.h.list| ensures |s.h.list[i].out| <= 1 {
      var x := s.h.list[i].s;
      assert Find(s.h.list, x) == i;
      assert Out(s.h.list, x) == Recorded(s, x);
    }
  }

  /** A thread that waits for a held lock has an edge to the thread that really holds it. */
  lemma RealWaitIsRecorded(events: seq<Event>, s: System, t: int, u: int)
    requires Run(events, s) && WaitsFor(s, t, u)
    ensures Out(s.h.list, Proc(t)) == [Proc(u)]
  {
    RunKeepsInv(events, s);
    assert HolderOk(s, s.waiting[t]);
    assert Out(s.h.list, Proc(t)) == Recorded(s, Proc(t));
  }

  /** A recorded edge is real exactly when the awaited lock is held: while the lock is free the edge is stale. */
  lemma EdgeIsRealWhenHeld(events: seq<Event>, s: System, t: int, u: int)
    requires Run(events, s) && Out(s.h.list, Proc(t)) == [Proc(u)]
    ensures t in s.waiting && (WaitsFor(s, t, u) <==> s.waiting[t] in s.holder)
  {
    RunKeepsInv(events, s);
    assert Out(s.h.list, Proc(t)) == Recorded(s, Proc(t));
    assert HolderOk(s, s.waiting[t]);
  }

  // ---------------------------------------------------------------- rings and cycles

  lemma {:induction false} WalkSteps(g: Adjacency, from: int, w: seq<Arc>, to: int)
    requires Walk(g, from, w, to) && w != []
    ensures w[0].src == from && forall i :: 0 <= i < |w| ==> IsArc(g, w[i])
    ensures Target(g, w[|w| - 1]) == to && forall i :: 0 <= i < |w| - 1 ==> Target(g, w[i]) == w[i + 1].src
    decreases |w|
  {
    var n := |w| - 1;
    if n > 0 {
      WalkSteps(g, from, w[..n], w[n].src);
      forall i | 0 <= i < n ensures IsArc(g, w[i]) && Target(g, w[i]) == w[i + 1].src {
        assert w[..n][i] == w[i];
        if i < n - 1 { assert w[..n][i + 1] == w[i + 1]; }
      }
    }
  }

  /** A cycle of the recorded graph is a ring of threads. */
  lemma CycleIsRing(events: seq<Event>, s: System)
    requires Run(events, s) && HasCycle(Graph(s.h.list))
    ensures exists ring :: RecordedRing(s, ring)
  {
    hide Run, Out, Find;
    var g := Graph(s.h.list);
    var x: int, w: seq<Arc> :| w != [] && Walk(g, x, w, x);
    WalkSteps(g, x, w, x);
    var ring := seq(|w| + 1, i requires 0 <= i <= |w| => s.h.list[if i < |w| then w[i].src else x].s.id);
    forall i | 0 <= i < |w| ensures Out(s.h.list, Proc(ring[i])) == [Proc(ring[i + 1])] {
      RingStep(events, s, w[i]);
      assert ring[i] == s.h.list[w[i].src].s.id;
      assert ring[i + 1] == s.h.list[Target(g, w[i])].s.id;
    }
    assert RecordedRing(s, ring);
  }

  lemma RingStep(events: seq<Event>, s: System, a: Arc)
    requires Run(events, s) && IsArc(Graph(s.h.list), a)
    ensures var v := Target(Graph(s.h.list), a);
            && 0 <= a.src < |s.h.list| && 0 <= v < |s.h.list|
            && Out(s.h.list, Proc(s.h.list[a.src].s.id)) == [Proc(s.h.list[v].s.id)]
  {
    RunKeepsInv(events, s);
    var x := s.h.list[a.src].s;
    assert Find(s.h.list, x) == a.src;
    EdgesOfWaiters(events, s, x);
    assert x == Proc(x.id);
    assert s.h.list[a.src].out == Out(s.h.list, x);
  }

  lemma {:induction false} RingWalk(events: seq<Event>, s: System, ring: seq<int>, n: nat)
    requires Run(events, s) && RecordedRing(s, ring) && n < |ring|
    ensures var g, from, to := Graph(s.h.list), Find(s.h.list, Proc(ring[0])), Find(s.h.list, Proc(ring[n]));
            from != -1 && to != -1 && exists w :: |w| == n && Walk(g, from, w, to)
  {
    hide Run, Find, Out, TaskGraph.Valid;
    var g, from := Graph(s.h.list), Find(s.h.list, Proc(ring[0]));
    if n == 0 {
      assert Out(s.h.list, Proc(ring[0])) == [Proc(ring[0 + 1])];
      EdgeOfRing(events, s, ring[0], ring[1]);
      assert Walk(g, from, [], from);
    } else {
      RingWalk(events, s, ring, n - 1);
      var u := Find(s.h.list, Proc(ring[n - 1]));
      var w :| |w| == n - 1 && Walk(g, from, w, u);
      assert Out(s.h.list, Proc(ring[n - 1])) == [Proc(ring[n - 1 + 1])];
      EdgeOfRing(events, s, ring[n - 1], ring[n]);
      hide Walk, Graph;
      WalkOne(g, Arc(u, 0));
      WalkConcat(g, from, w, u, [Arc(u, 0)], Find(s.h.list, Proc(ring[n])));
      assert |w + [Arc(u, 0)]| == n;
    }
  }

  /** A recorded edge is an arc of the searched graph. */
  lemma EdgeOfRing(events: seq<Event>, s: System, t: int, u: int)
    requires Run(events, s) && Out(s.h.list, Proc(t)) == [Proc(u)]
    ensures var g, from, to := Graph(s.h.list), Find(s.h.list, Proc(t)), Find(s.h.list, Proc(u));
            from != -1 && to != -1 && IsArc(g, Arc(from, 0)) && Target(g, Arc(from, 0)) == to
  {
    RunsHaveOneOutEdge(events, s);
    var i := Find(s.h.list, Proc(t));
    assert s.h.list[i].out == [Proc(u)] && s.h.list[i].out[0] == Proc(u);
  }

  /** The graph the detector searches has a cycle exactly when the recorded edges close a ring of threads. */
  lemma CycleIffRing(events: seq<Event>, s: System)
    requires Run(events, s)
    ensures HasCycle(Graph(s.h.list)) <==> exists ring :: RecordedRing(s, ring)
  {
    if HasCycle(Graph(s.h.list)) {
      CycleIsRing(events, s);
    }
    if ring :| RecordedRing(s, ring) {
      RingWalk(events, s, ring, |ring| - 1);
      var x := Find(s.h.list, Proc(ring[0]));
      var w :| |w| == |ring| - 1 && Walk(Graph(s.h.list), x, w, x);
      assert w != [];
    }
  }

  /** Completeness from locks to report: every real circular wait is a cycle the detector searches for. */
  lemma RealDeadlockIsFlagged(events: seq<Event>, s: System, ring: seq<int>)
    requires Run(events, s) && RealRing(s, ring)
    ensures HasCycle(Graph(s.h.list)) && Reconverges(Graph(s.h.list))
  {
    forall i | 0 <= i < |ring| - 1 ensures Out(s.h.list, Proc(ring[i])) == [Proc(ring[i + 1])] {
      RealWaitIsRecorded(events, s, ring[i], ring[i + 1]);
    }
    assert RecordedRing(s, ring);
    CycleIffRing(events, s);
    CycleReconverges(Graph(s.h.list));
  }

  /** Soundness from report to locks: a recorded ring is a real deadlock exactly when every lock it awaits is held. */
  lemma FlaggedRingIsRealWhenHeld(events: seq<Event>, s: System, ring: seq<int>)
    requires Run(events, s) && RecordedRing(s, ring)
    ensures forall i :: 0 <= i < |ring| - 1 ==> ring[i] in s.waiting
    ensures RealRing(s, ring) <==> forall i :: 0 <= i < |ring| - 1 ==> s.waiting[ring[i]] in s.holder
  {
    forall i | 0 <= i < |ring| - 1
      ensures ring[i] in s.waiting
      ensures WaitsFor(s, ring[i], ring[i + 1]) <==> s.waiting[ring[i]] in s.holder
    {
      EdgeIsRealWhenHeld(events, s, ring[i], ring[i + 1]);
    }
    if forall i :: 0 <= i < |ring| - 1 ==> s.waiting[ring[i]] in s.holder {
      assert RealRing(s, ring);
    } else {
      var i :| 0 <= i < |ring| - 1 && s.waiting[ring[i]] !in s.holder;
      assert !WaitsFor(s, ring[i], ring[i + 1]);
    }
  }

  ghost predicate AllAwaitedHeld(s: System) {
    forall t :: t in s.waiting ==> s.waiting[t] in s.holder
  }

  lemma HeldRingIsReal(events: seq<Event>, s: System, ring: seq<int>)
    requires Run(events, s) && RecordedRing(s, ring) && AllAwaitedHeld(s)
    ensures RealRing(s, ring)
  {
    FlaggedRingIsRealWhenHeld(events, s, ring);
    forall i | 0 <= i < |ring| - 1 ensures s.waiting[ring[i]] in s.holder {
      assert ring[i] in s.waiting;
    }
  }

  /**
   * A check of the detector's graph in any reachable state: it reports exactly the recorded rings; so every real
   * circular wait is reported, and with no awaited lock free nothing else is.
   */
  method Detect(d: DeadlockDetector.Detector, ghost events: seq<Event>, ghost s: System)
    requires Run(events, s) && d.Valid() && d.list == s.h.list
    modifies d.visited, d.path, d`k, d`deadlock
    ensures d.deadlock <==> exists ring :: RecordedRing(s, ring)
    ensures (exists ring :: RealRing(s, ring)) ==> d.deadlock
    ensures d.deadlock && AllAwaitedHeld(s) ==> exists ring :: RealRing(s, ring)
  {
    hide RecordedRing, RealRing, OutDegreeAtMostOne, HasCycle, Reconverges, TaskGraph.Valid, Run;
    RunsHaveOneOutEdge(events, s);
    CycleIffRing(events, s);
    d.CheckDeadLock();
    forall ring | RealRing(s, ring) ensures d.deadlock {
      RealDeadlockIsFlagged(events, s, ring);
    }
    forall ring | RecordedRing(s, ring) && AllAwaitedHeld(s) ensures RealRing(s, ring) {
      HeldRingIsReal(events, s, ring);
    }
  }

  // ---------------------------------------------------------------- a real ring is a deadlock

  /** `s'` is reached from `s` by performing `events` in order, each enabled when its turn comes. */
  ghost predicate Continues(s: System, events: seq<Event>, s': System)
    decreases |events|
  {
    if events == [] then s == s'
    else Enabled(s, events[0]) && Continues(Next(s, events[0]), events[1..], s')
  }

  /** No thread of a real ring can do anything, and nothing another thread can do opens the ring. */
  lemma RealRingStands(s: System, ring: seq<int>, e: Event)
    requires RealRing(s, ring) && Enabled(s, e)
    ensures e.t !in ring && RealRing(Next(s, e), ring)
  {
    hide SearchLock, LockBefore, LockAfter, UnlockAfter;
    var n, s' := |ring| - 1, Next(s, e);
    forall i | 0 <= i <= n ensures ring[i] != e.t {
      var j := if i < n then i else 0;
      assert WaitsFor(s, ring[j], ring[j + 1]);
    }
    forall i | 0 <= i < n ensures WaitsFor(s', ring[i], ring[i + 1]) {
      assert WaitsFor(s, ring[i], ring[i + 1]);
    }
  }

  /** Over every continuation of the run the ring stays as it is, and none of its threads ever gets on. */
  lemma {:induction false} RealRingIsDeadlock(s: System, ring: seq<int>, events: seq<Event>, s': System)
    requires RealRing(s, ring) && Continues(s, events, s')
    ensures RealRing(s', ring) && forall k :: 0 <= k < |events| ==> events[k].t !in ring
    decreases |events|
  {
    hide RealRing, Next, Enabled;
    if events != [] {
      RealRingStands(s, ring, events[0]);
      RealRingIsDeadlock(Next(s, events[0]), ring, events[1..], s');
      forall k | 0 <= k < |events| ensures events[k].t !in ring {
        assert k > 0 ==> events[k] == events[1..][k - 1];
      }
    }
  }

  // ---------------------------------------------------------------- a stale edge

  /**
   * Thread 2 releases lock 10 while thread 1 waits for it, then waits for lock 20, which thread 1 holds. The detector
   * sees a cycle, although lock 10 is free and thread 1 can take it.
   */
  lemma StaleEdgeFlagged()
    returns (events: seq<Event>, s: System)
    ensures Run(events, s) && RecordedRing(s, [1, 2, 1])
    ensures Enabled(s, After(1, 10)) && !RealRing(s, [1, 2, 1])
  {
    hide Inv, Run, WithVertex, WithEdge, VerifiesEdge, Out, Find, TaskGraph.Valid, WaitersMatch, Recorded;
    events, s := Start();
    events, s := Perform(events, s, Before(2, 10));
    assert s.h.locks == [];
    events, s := Perform(events, s, After(2, 10));
    assert s.h.locks == [LockEntry(2, 10, 0)];
    events, s := Perform(events, s, Before(1, 20));
    events, s := Perform(events, s, After(1, 20));
    assert s.h.locks == [LockEntry(2, 10, 0), LockEntry(1, 20, 0)];
    var mid := s;
    events, s := StaleSteps(events, mid);
  }

  lemma Start()
    returns (events: seq<Event>, s: System)
    ensures events == [] && s == INITIAL && Run(events, s)
  {
    events, s := [], INITIAL;
  }

  lemma StaleSteps(before: seq<Event>, s0: System)
    returns (events: seq<Event>, s: System)
    requires Run(before, s0) && s0.h.locks == [LockEntry(2, 10, 0), LockEntry(1, 20, 0)]
    requires s0.waiting == map[] && s0.waiter == map[] && s0.holder == map[10 := 2, 20 := 1]
    ensures Run(events, s) && RecordedRing(s, [1, 2, 1])
    ensures Enabled(s, After(1, 10)) && !RealRing(s, [1, 2, 1])
  {
    hide Inv, Run, LockBefore, SearchLockFrom;
    FoundAt(s0.h.locks, 10, 0);
    events, s := Wait(before, s0, 1, 10, 0);
    assert s.h.locks == [LockEntry(2, 10, 1), LockEntry(1, 20, 0)];
    FoundAt(s.h.locks, 10, 0);
    events, s := Perform(events, s, Unlock(2, 10));
    FoundAt(s.h.locks, 20, 1);
    events, s := Wait(events, s, 2, 20, 1);
    assert s.h.locks == [LockEntry(2, 10, 1), LockEntry(1, 20, 1)];
    StaleRing(events, s);
  }

  /** A thread that starts to wait for the lock of slot `j`. */
  lemma Wait(events: seq<Event>, s: System, t: int, l: int, j: int)
    returns (events': seq<Event>, s': System)
    requires Run(events, s) && Enabled(s, Before(t, l)) && UniqueLocks(s.h.locks) && SearchLock(s.h.locks, l) == j != -1
    ensures Run(events', s') && s'.h.locks == s.h.locks[j := s.h.locks[j].(degress := s.h.locks[j].degress + 1)]
    ensures s'.waiting == s.waiting[t := l] && s'.waiter == s.waiter[l := t] && s'.holder == s.holder
  {
    hide Run, SearchLock, UniqueLocks, WithVertex, WithEdge, VerifiesEdge;
    BeforeOnce(s.h, t, l, 0);
    events', s' := Perform(events, s, Before(t, l));
  }

  lemma StaleRing(events: seq<Event>, s: System)
    requires Run(events, s) && s.h.locks == [LockEntry(2, 10, 1), LockEntry(1, 20, 1)]
    requires s.waiting == map[1 := 10, 2 := 20] && s.holder == map[20 := 1]
    ensures RecordedRing(s, [1, 2, 1]) && Enabled(s, After(1, 10)) && !RealRing(s, [1, 2, 1])
  {
    hide Run, Out;
    FoundAt(s.h.locks, 10, 0);
    FoundAt(s.h.locks, 20, 1);
    RecordedOut(events, s, Proc(1));
    RecordedOut(events, s, Proc(2));
    var ring := [1, 2, 1];
    assert !WaitsFor(s, ring[0], ring[0 + 1]);
  }

  lemma RecordedOut(events: seq<Event>, s: System, x: Source)
    requires Run(events, s)
    ensures Out(s.h.list, x) == Recorded(s, x)
  {
    RunKeepsInv(events, s);
  }

  lemma Perform(events: seq<Event>, s: System, e: Event)
    returns (events': seq<Event>, s': System)
    requires Run(events, s) && Enabled(s, e)
    ensures events' == events + [e] && s' == Next(s, e) && Run(events', s')
  {
    events', s' := events + [e], Next(s, e);
    assert events'[..|events'| - 1] == events;
  }
}
