/**
 * The bookkeeping around every mutex call, and all its runs: `lock_before`, the real acquisition with `lock_after`, and
 * the real release with `unlock_after` are the atomic steps of any number of threads.
 */
module LockHooks {
  import opened TaskGraph

  /** A slot of the lock table: who was last recorded as holder, of which lock (0: free slot), and how many wait. */
  datatype LockEntry = LockEntry(id: int, lockId: int, degress: int)

  const ZEROED := LockEntry(0, 0, 0)

  datatype Hooks = Hooks(list: Table, locks: seq<LockEntry>)

  function Proc(id: int): Source {
    Source(id, Process)
  }

  // ---------------------------------------------------------------- the hooks, as functions on their tables

  function SearchLockFrom(locks: seq<LockEntry>, lock: int, i: nat): (r: int)
    requires i <= |locks|
    ensures r == -1 || (i <= r < |locks| && locks[r].lockId == lock)
    ensures forall k :: i <= k < (if r == -1 then |locks| else r) ==> locks[k].lockId != lock
    decreases |locks| - i
  {
    if i == |locks| then -1 else if locks[i].lockId == lock then i else SearchLockFrom(locks, lock, i + 1)
  }

  function SearchLock(locks: seq<LockEntry>, lock: int): (r: int)
    ensures r == -1 || (0 <= r < |locks| && locks[r].lockId == lock)
    ensures forall k :: 0 <= k < (if r == -1 then |locks| else r) ==> locks[k].lockId != lock
  {
    SearchLockFrom(locks, lock, 0)
  }

  /** A free slot, or the one after the last. */
  function SearchEmptyLock(locks: seq<LockEntry>): (r: nat)
    ensures r <= |locks| && (r < |locks| ==> locks[r].lockId == 0)
    ensures forall k :: 0 <= k < r ==> locks[k].lockId != 0
  {
    var r := SearchLock(locks, 0);
    if r == -1 then |locks| else r
  }

  /** `tid` is about to wait for the lock in slot `idx`. */
  function Record(h: Hooks, tid: int, idx: int): Hooks
    requires 0 <= idx < |h.locks|
  {
    var from, to := Proc(tid), Proc(h.locks[idx].id);
    var list := WithVertex(WithVertex(h.list, from), to);
    Hooks(if VerifiesEdge(list, from, to) then list else WithEdge(list, from, to),
          h.locks[idx := h.locks[idx].(degress := h.locks[idx].degress + 1)])
  }

  function LockBeforeFrom(h: Hooks, tid: int, lock: int, idx: nat): (r: Hooks)
    requires idx <= |h.locks|
    ensures |r.locks| == |h.locks|
    decreases |h.locks| - idx
  {
    if idx == |h.locks| then h
    else LockBeforeFrom(if h.locks[idx].lockId == lock then Record(h, tid, idx) else h, tid, lock, idx + 1)
  }

  function LockBefore(h: Hooks, tid: int, lock: int): Hooks {
    LockBeforeFrom(h, tid, lock, 0)
  }

  /** A new slot always extends the table, even when a freed slot is reused; the slots beyond are zeroed. */
  function Occupy(locks: seq<LockEntry>, tid: int, lock: int): seq<LockEntry> {
    var e := SearchEmptyLock(locks);
    (locks + [ZEROED])[e := (locks + [ZEROED])[e].(id := tid, lockId := lock)]
  }

  function LockAfter(h: Hooks, tid: int, lock: int): Hooks {
    var idx := SearchLock(h.locks, lock);
    if idx == -1 then Hooks(h.list, Occupy(h.locks, tid, lock))
    else
      var from, to := Proc(tid), Proc(h.locks[idx].id);
      var list := WithVertex(WithVertex(h.list, from), to);
      Hooks(if VerifiesEdge(list, from, to) then WithoutEdge(list, from, to) else list,
            h.locks[idx := LockEntry(tid, lock, h.locks[idx].degress - 1)])
  }

  /** The source reads the slot it finds; it must find one. */
  function UnlockAfter(h: Hooks, lock: int): Hooks
    requires SearchLock(h.locks, lock) != -1
  {
    var idx := SearchLock(h.locks, lock);
    if h.locks[idx].degress == 0 then h.(locks := h.locks[idx := h.locks[idx].(id := 0, lockId := 0)]) else h
  }

  // ---------------------------------------------------------------- the system

  /**
   * The hooks' tables with what is really going on: which thread holds each lock, and which thread is between
   * `lock_before` and `lock_after` of which lock (`waiter` is the inverse of `waiting`).
   */
  datatype System = System(h: Hooks, holder: map<int, int>, waiting: map<int, int>, waiter: map<int, int>)

  const INITIAL := System(Hooks([], []), map[], map[], map[])

  datatype Event = Before(t: int, l: int) | After(t: int, l: int) | Unlock(t: int, l: int)

  /** At most one waiter per lock, no relocking by the holder, and only holders unlock. */
  ghost predicate Enabled(s: System, e: Event) {
    match e
    case Before(t, l) => l != 0 && t !in s.waiting && l !in s.waiter && (l in s.holder ==> s.holder[l] != t)
    case After(t, l) => t in s.waiting && s.waiting[t] == l && l !in s.holder
    case Unlock(t, l) => l in s.holder && s.holder[l] == t && t !in s.waiting && SearchLock(s.h.locks, l) != -1
  }

  ghost function Next(s: System, e: Event): System
    requires Enabled(s, e)
  {
    match e
    case Before(t, l) => s.(h := LockBefore(s.h, t, l), waiting := s.waiting[t := l], waiter := s.waiter[l := t])
    case After(t, l) =>
      s.(h := LockAfter(s.h, t, l), holder := s.holder[l := t], waiting := s.waiting - {t}, waiter := s.waiter - {l})
    case Unlock(t, l) => s.(h := UnlockAfter(s.h, l), holder := s.holder - {l})
  }

  /** `s` is reached by performing `events` in order, each enabled when its turn comes. */
  ghost predicate Run(events: seq<Event>, s: System)
    decreases |events|
  {
    if events == [] then s == INITIAL
    else
      var n := |events| - 1;
      exists prev :: Run(events[..n], prev) && Enabled(prev, events[n]) && s == Next(prev, events[n])
  }

  // ---------------------------------------------------------------- the invariant

  ghost predicate UniqueLocks(locks: seq<LockEntry>) {
    forall i, j :: 0 <= i < j < |locks| && locks[i].lockId != 0 ==> locks[i].lockId != locks[j].lockId
  }

  lemma FoundAt(locks: seq<LockEntry>, l: int, i: int)
    requires UniqueLocks(locks) && l != 0 && 0 <= i < |locks| && locks[i].lockId == l
    ensures SearchLock(locks, l) == i
  {
  }

  ghost predicate WaitersMatch(s: System) {
    && (forall t :: t in s.waiting ==> s.waiting[t] != 0 && s.waiting[t] in s.waiter && s.waiter[s.waiting[t]] == t)
    && (forall l :: l in s.waiter ==> s.waiter[l] in s.waiting && s.waiting[s.waiter[l]] == l)
  }

  /** A slot belongs to a lock that is held or awaited, and counts its waiters. */
  ghost predicate SlotOk(s: System, i: int)
    requires 0 <= i < |s.h.locks|
  {
    var e := s.h.locks[i];
    if e.lockId == 0 then e == ZEROED
    else
      && (e.lockId in s.holder || e.lockId in s.waiter)
      && e.degress == (if e.lockId in s.waiter then 1 else 0)
      && (e.lockId in s.waiter ==> s.waiter[e.lockId] != e.id)
  }

  /** A held lock has a slot, which names its holder. */
  ghost predicate HolderOk(s: System, l: int) {
    l in s.holder ==>
      var i := SearchLock(s.h.locks, l);
      l != 0 && i != -1 && s.h.locks[i].id == s.holder[l] && (l in s.waiter ==> s.waiter[l] != s.holder[l])
  }

  /** The out-edges recorded for `x`: one to the recorded holder while it waits for a lock with a slot, else none. */
  ghost function Recorded(s: System, x: Source): seq<Source> {
    if x.kind == Process && x.id in s.waiting then
      var i := SearchLock(s.h.locks, s.waiting[x.id]);
      if i == -1 then [] else [Proc(s.h.locks[i].id)]
    else []
  }

  ghost predicate Inv(s: System) {
    && TaskGraph.Valid(s.h.list) && UniqueLocks(s.h.locks) && WaitersMatch(s)
    && (forall i :: 0 <= i < |s.h.locks| ==> SlotOk(s, i))
    && (forall l :: HolderOk(s, l))
    && (forall x :: Out(s.h.list, x) == Recorded(s, x))
  }

  // ---------------------------------------------------------------- the steps keep it

  lemma {:induction false} BeforeSkips(h: Hooks, t: int, l: int, i: nat)
    requires i <= |h.locks| && forall k :: i <= k < |h.locks| ==> h.locks[k].lockId != l
    ensures LockBeforeFrom(h, t, l, i) == h
    decreases |h.locks| - i
  {
    if i < |h.locks| {
      BeforeSkips(h, t, l, i + 1);
    }
  }

  lemma {:induction false} BeforeGrows(h: Hooks, t: int, l: int, i: nat)
    requires i <= |h.locks|
    ensures |h.list| <= |LockBeforeFrom(h, t, l, i).list|
    decreases |h.locks| - i
  {
    hide Record;
    if i < |h.locks| {
      if h.locks[i].lockId == l {
        RecordGrows(h, t, i);
        BeforeGrows(Record(h, t, i), t, l, i + 1);
      } else {
        BeforeGrows(h, t, l, i + 1);
      }
    }
  }

  /** Every slot of the lock, should there be several, counts the waiter, and no other slot changes. */
  lemma {:induction false} BeforeCountsEverywhere(h: Hooks, t: int, l: int, i: nat)
    requires i <= |h.locks|
    ensures var locks := LockBeforeFrom(h, t, l, i).locks;
            forall k :: 0 <= k < |h.locks| ==>
              locks[k] == if k >= i && h.locks[k].lockId == l then h.locks[k].(degress := h.locks[k].degress + 1)
                          else h.locks[k]
    decreases |h.locks| - i
  {
    hide Record;
    if i < |h.locks| {
      RecordGrows(h, t, i);
      BeforeCountsEverywhere(if h.locks[i].lockId == l then Record(h, t, i) else h, t, l, i + 1);
    }
  }

  lemma RecordGrows(h: Hooks, t: int, i: int)
    requires 0 <= i < |h.locks|
    ensures |h.list| <= |Record(h, t, i).list|
    ensures Record(h, t, i).locks == h.locks[i := h.locks[i].(degress := h.locks[i].degress + 1)]
  {
  }

  /** With one slot per lock, `lock_before` records the thread once, or does nothing. */
  lemma {:induction false} BeforeOnce(h: Hooks, t: int, l: int, i: nat)
    requires UniqueLocks(h.locks) && l != 0 && i <= |h.locks|
    requires forall k :: 0 <= k < i ==> h.locks[k].lockId != l
    ensures var j := SearchLock(h.locks, l);
            LockBeforeFrom(h, t, l, i) == if j == -1 then h else Record(h, t, j)
    decreases |h.locks| - i
  {
    if i < |h.locks| {
      if h.locks[i].lockId == l {
        FoundAt(h.locks, l, i);
        BeforeSkips(Record(h, t, i), t, l, i + 1);
      } else {
        BeforeOnce(h, t, l, i + 1);
      }
    }
  }

  /** Changing a slot without changing its lock leaves every lookup where it was. */
  lemma SameLookup(locks: seq<LockEntry>, locks': seq<LockEntry>, l: int)
    requires |locks| == |locks'| && forall k :: 0 <= k < |locks| ==> locks[k].lockId == locks'[k].lockId
    ensures SearchLock(locks, l) == SearchLock(locks', l)
  {
  }

  /**
   * Recording a waiter adds exactly its edge to the recorded holder: unless that is the waiter itself, or one of its
   * out-edges leads there already.
   */
  lemma RecordMeaning(h: Hooks, t: int, i: int)
    requires TaskGraph.Valid(h.list) && 0 <= i < |h.locks|
    ensures var list, u := Record(h, t, i).list, h.locks[i].id;
            && TaskGraph.Valid(list)
            && forall x :: Out(list, x) ==
                 if x == Proc(t) && u != t && (forall s :: s in Out(h.list, x) ==> s.id != u)
                 then Out(h.list, x) + [Proc(u)] else Out(h.list, x)
  {
    var from, to := Proc(t), Proc(h.locks[i].id);
    WithVertexMeaning(h.list, from);
    WithVertexMeaning(WithVertex(h.list, from), to);
    var list := WithVertex(WithVertex(h.list, from), to);
    VerifiesEdgeMeaning(list, from, to);
    hide Out, VerifiesEdge, WithEdge, WithVertex, TaskGraph.Valid;
    assert Out(list, from) == Out(h.list, from);
    WithEdgeMeaning(list, from, to);
  }

  lemma BeforeKeepsInv(s: System, t: int, l: int)
    requires Inv(s) && Enabled(s, Before(t, l))
    ensures Inv(Next(s, Before(t, l)))
  {
    hide TaskGraph.Valid, Out, WithVertex, WithEdge, VerifiesEdge;
    var s' := Next(s, Before(t, l));
    BeforeOnce(s.h, t, l, 0);
    var j := SearchLock(s.h.locks, l);
    if j == -1 {
      assert s'.h == s.h;
    } else {
      assert SlotOk(s, j) && HolderOk(s, l);
      assert Out(s.h.list, Proc(t)) == Recorded(s, Proc(t)) == [];
      RecordMeaning(s.h, t, j);
      assert [] + [Proc(s.h.locks[j].id)] == [Proc(s.h.locks[j].id)];
    }
    BeforeKeepsSlots(s, t, l);
    forall x ensures Out(s'.h.list, x) == Recorded(s', x) {
      assert Out(s.h.list, x) == Recorded(s, x);
      if x.kind == Process && x.id in s'.waiting {
        SameLookup(s.h.locks, s'.h.locks, s'.waiting[x.id]);
      }
    }
  }

  lemma BeforeKeepsSlots(s: System, t: int, l: int)
    requires Inv(s) && Enabled(s, Before(t, l))
    ensures var s' := Next(s, Before(t, l));
            && UniqueLocks(s'.h.locks) && WaitersMatch(s')
            && (forall i :: 0 <= i < |s'.h.locks| ==> SlotOk(s', i)) && (forall k :: HolderOk(s', k))
  {
    hide TaskGraph.Valid, Out, WithVertex, WithEdge, VerifiesEdge, Recorded;
    var s' := Next(s, Before(t, l));
    BeforeOnce(s.h, t, l, 0);
    forall i | 0 <= i < |s'.h.locks| ensures SlotOk(s', i) {
      assert SlotOk(s, i);
      if s.h.locks[i].lockId == l {
        FoundAt(s.h.locks, l, i);
        assert HolderOk(s, l);
      }
    }
    forall k ensures HolderOk(s', k) {
      BeforeKeepsHolder(s, t, l, k);
    }
  }

  lemma BeforeKeepsHolder(s: System, t: int, l: int, k: int)
    requires Inv(s) && Enabled(s, Before(t, l))
    ensures HolderOk(Next(s, Before(t, l)), k)
  {
    assert HolderOk(s, k);
    hide Inv, TaskGraph.Valid, WithVertex, WithEdge, VerifiesEdge;
    assert UniqueLocks(s.h.locks);
    BeforeOnce(s.h, t, l, 0);
    SameLookup(s.h.locks, Next(s, Before(t, l)).h.locks, k);
  }

  /** When a lock has no slot, taking one changes no other lookup. */
  lemma OccupyMeaning(locks: seq<LockEntry>, t: int, l: int)
    requires UniqueLocks(locks) && l != 0 && SearchLock(locks, l) == -1
    ensures var locks' := Occupy(locks, t, l);
            && UniqueLocks(locks') && SearchLock(locks', l) == SearchEmptyLock(locks)
            && |locks'| == |locks| + 1
            && (forall k :: k != 0 && k != l ==> SearchLock(locks', k) == SearchLock(locks, k))
            && (forall i :: 0 <= i < |locks'| ==>
                  if i == SearchEmptyLock(locks) then
                    locks'[i] == LockEntry(t, l, if i < |locks| then locks[i].degress else 0)
                  else if i < |locks| then locks'[i] == locks[i]
                  else locks'[i] == ZEROED)
  {
    var locks' := Occupy(locks, t, l);
    var e := SearchEmptyLock(locks);
    assert locks'[e].lockId == l;
    FoundAt(locks', l, e);
    forall k | k != 0 && k != l ensures SearchLock(locks', k) == SearchLock(locks, k) {
      var i := SearchLock(locks, k);
      if i != -1 {
        FoundAt(locks', k, i);
      }
    }
  }

  /** Acquiring a lock that has a slot drops exactly the edge recorded while waiting. */
  lemma AcquireMeaning(list: Table, t: int, u: int)
    requires TaskGraph.Valid(list) && Out(list, Proc(t)) == [Proc(u)] && t != u
    ensures var from, to := Proc(t), Proc(u);
            var list' := WithVertex(WithVertex(list, from), to);
            && VerifiesEdge(list', from, to)
            && TaskGraph.Valid(WithoutEdge(list', from, to))
            && forall x :: Out(WithoutEdge(list', from, to), x) == if x == from then [] else Out(list, x)
  {
    var from, to := Proc(t), Proc(u);
    WithVertexMeaning(list, from);
    WithVertexMeaning(WithVertex(list, from), to);
    var list' := WithVertex(WithVertex(list, from), to);
    assert Out(list', from)[0].id == to.id;
    WithoutEdgeMeaning(list', from, to);
  }

  lemma AfterKeepsInv(s: System, t: int, l: int)
    requires Inv(s) && Enabled(s, After(t, l))
    ensures Inv(Next(s, After(t, l)))
  {
    hide TaskGraph.Valid, Out, WithVertex, WithoutEdge, VerifiesEdge, Occupy, SearchEmptyLock;
    var s' := Next(s, After(t, l));
    var j := SearchLock(s.h.locks, l);
    AfterKeepsSlots(s, t, l);
    assert Out(s.h.list, Proc(t)) == Recorded(s, Proc(t));
    if j == -1 {
      OccupyMeaning(s.h.locks, t, l);
    } else {
      assert SlotOk(s, j);
      AcquireMeaning(s.h.list, t, s.h.locks[j].id);
    }
    forall x ensures Out(s'.h.list, x) == Recorded(s', x) {
      assert Out(s.h.list, x) == Recorded(s, x);
      if x.kind == Process && x.id in s'.waiting {
        assert s.waiting[x.id] != l;
        if j != -1 {
          SameLookup(s.h.locks, s'.h.locks, s'.waiting[x.id]);
        }
      }
    }
  }

  lemma AfterKeepsSlots(s: System, t: int, l: int)
    requires Inv(s) && Enabled(s, After(t, l))
    ensures var s' := Next(s, After(t, l));
            && UniqueLocks(s'.h.locks) && WaitersMatch(s')
            && (forall i :: 0 <= i < |s'.h.locks| ==> SlotOk(s', i)) && (forall k :: HolderOk(s', k))
  {
    hide TaskGraph.Valid, Out, WithVertex, WithoutEdge, VerifiesEdge, Recorded, Occupy;
    var s' := Next(s, After(t, l));
    var j := SearchLock(s.h.locks, l);
    if j == -1 {
      OccupyMeaning(s.h.locks, t, l);
    }
    forall i | 0 <= i < |s'.h.locks| ensures SlotOk(s', i) {
      if i < |s.h.locks| {
        assert SlotOk(s, i);
        if s.h.locks[i].lockId == l {
          FoundAt(s.h.locks, l, i);
        }
      }
    }
    forall k ensures HolderOk(s', k) {
      assert HolderOk(s, k);
      if j != -1 {
        SameLookup(s.h.locks, s'.h.locks, k);
      }
    }
  }

  /** Freeing a slot changes no other lookup. */
  lemma FreeMeaning(locks: seq<LockEntry>, l: int)
    requires UniqueLocks(locks) && l != 0 && SearchLock(locks, l) != -1
    ensures var j := SearchLock(locks, l);
            var locks' := locks[j := locks[j].(id := 0, lockId := 0)];
            && UniqueLocks(locks') && SearchLock(locks', l) == -1
            && (forall k :: k != 0 && k != l ==> SearchLock(locks', k) == SearchLock(locks, k))
  {
    var j := SearchLock(locks, l);
    var locks' := locks[j := locks[j].(id := 0, lockId := 0)];
    forall k | k != 0 && k != l ensures SearchLock(locks', k) == SearchLock(locks, k) {
      var i := SearchLock(locks, k);
      if i != -1 {
        FoundAt(locks', k, i);
      }
    }
    forall i | 0 <= i < |locks| && locks[i].lockId == l ensures i == j {
      FoundAt(locks, l, i);
    }
  }

  lemma UnlockKeepsInv(s: System, t: int, l: int)
    requires Inv(s) && Enabled(s, Unlock(t, l))
    ensures Inv(Next(s, Unlock(t, l)))
  {
    hide TaskGraph.Valid, Out;
    var s' := Next(s, Unlock(t, l));
    var j := SearchLock(s.h.locks, l);
    assert HolderOk(s, l) && SlotOk(s, j);
    if s.h.locks[j].degress == 0 {
      FreeMeaning(s.h.locks, l);
    }
    forall i | 0 <= i < |s'.h.locks| ensures SlotOk(s', i) {
      assert SlotOk(s, i);
      if s.h.locks[i].lockId == l {
        FoundAt(s.h.locks, l, i);
      }
    }
    forall k ensures HolderOk(s', k) {
      assert HolderOk(s, k);
    }
    forall x ensures Out(s'.h.list, x) == Recorded(s', x) {
      assert Out(s.h.list, x) == Recorded(s, x);
    }
  }

  /** The release hook always finds the slot it reads. */
  lemma HolderHasSlot(s: System, l: int)
    requires Inv(s) && l in s.holder
    ensures SearchLock(s.h.locks, l) != -1
  {
    assert HolderOk(s, l);
  }

  /** The invariant holds over every run. */
  lemma {:induction false} RunKeepsInv(events: seq<Event>, s: System)
    requires Run(events, s)
    ensures Inv(s)
    decreases |events|
  {
    hide Inv, Next;
    if events == [] {
      InitialInv();
    } else {
      var n := |events| - 1;
      var prev :| Run(events[..n], prev) && Enabled(prev, events[n]) && s == Next(prev, events[n]);
      RunKeepsInv(events[..n], prev);
      match events[n]
      case Before(t, l) => BeforeKeepsInv(prev, t, l);
      case After(t, l) => AfterKeepsInv(prev, t, l);
      case Unlock(t, l) => UnlockKeepsInv(prev, t, l);
    }
  }

  lemma InitialInv()
    ensures Inv(INITIAL)
  {
  }
}
