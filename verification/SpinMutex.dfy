/**
 * A user-level mutex that spins on an atomic exchange, then calls futex. A step is one atomic operation or one system
 * call of one thread, in any interleaving; memory is sequentially consistent.
 */
module SpinMutex {

  /** Thread identifiers are never 0, which is what `owner` holds when there is none. */
  type Thread = t: int | t != 0 witness 1

  const MAX_SPIN_COUNT := 100

  /** The operation a thread performs next. `Outside`: it is in neither of the two calls. */
  datatype Pc =
    | Outside
    | Spin(count: nat)
    | Block
    | FutexWait
    | Asleep
    | StoreOwner
    | LoadOwner
    | ClearOwner
    | ClearLock
    | FutexWake

  /**
   * A thread: where it is, whether it is between its successful exchange and its store of 0 to `lock`, and what its
   * last call returned.
   */
  datatype Local = Local(pc: Pc, inside: bool, ret: int)

  const FRESH := Local(Outside, false, 0)

  datatype State = State(lock: int, owner: int, futex: int, threads: map<Thread, Local>)

  const INITIAL := State(0, 0, 0, map[])

  function Of(s: State, t: Thread): Local {
    if t in s.threads then s.threads[t] else FRESH
  }

  function With(s: State, t: Thread, l: Local): State {
    s.(threads := s.threads[t := l])
  }

  datatype Event = CallLock(t: Thread) | CallUnlock(t: Thread) | Step(t: Thread)

  ghost predicate Enabled(s: State, e: Event) {
    match e
    case CallLock(t) => Of(s, t).pc == Outside
    case CallUnlock(t) => Of(s, t).pc == Outside
    case Step(t) => Of(s, t).pc != Outside && Of(s, t).pc != Asleep
  }

  /** `atomic_exchange(&lock, 1)`, and the branch on its result. */
  function Exchange(s: State, t: Thread, failed: Pc): State {
    var l := Of(s, t);
    With(s.(lock := 1), t, if s.lock == 0 then l.(pc := StoreOwner, inside := true) else l.(pc := failed))
  }

  function AfterSpin(count: nat): Pc {
    if count + 1 < MAX_SPIN_COUNT then Spin(count + 1) else Block
  }

  /** FUTEX_WAKE lets one sleeper go on; which one does not matter here. */
  ghost predicate WokenBy(s: State, t: Thread, s': State) {
    var rest := With(s, t, Of(s, t).(pc := Outside, ret := 0));
    s' == rest || exists u :: Of(rest, u).pc == Asleep && s' == With(rest, u, Of(rest, u).(pc := Block))
  }

  ghost predicate Next(s: State, e: Event, s': State) {
    match e
    case CallLock(t) => s' == With(s, t, Of(s, t).(pc := Spin(0)))
    case CallUnlock(t) => s' == With(s, t, Of(s, t).(pc := LoadOwner))
    case Step(t) =>
      var l := Of(s, t);
      match l.pc
      case Outside => false
      case Asleep => false
      case Spin(count) => s' == Exchange(s, t, AfterSpin(count))
      case Block => s' == Exchange(s, t, FutexWait)
      // FUTEX_WAIT puts the caller to sleep only if the futex word equals the expected value 1.
      case FutexWait => s' == With(s, t, l.(pc := if s.futex == 1 then Asleep else Block))
      case StoreOwner => s' == With(s.(owner := t), t, l.(pc := Outside, ret := 0))
      case LoadOwner => s' == With(s, t, if s.owner != t then l.(pc := Outside, ret := -1) else l.(pc := ClearOwner))
      case ClearOwner => s' == With(s.(owner := 0), t, l.(pc := ClearLock))
      case ClearLock => s' == With(s.(lock := 0), t, l.(pc := FutexWake, inside := false))
      case FutexWake => WokenBy(s, t, s')
  }

  ghost predicate Run(events: seq<Event>, s: State)
    decreases |events|
  {
    if events == [] then s == INITIAL
    else
      var n := |events| - 1;
      exists prev :: Run(events[..n], prev) && Enabled(prev, events[n]) && Next(prev, events[n], s)
  }

  // ---------------------------------------------------------------- the invariant

  /** The thread that is inside has put its identifier into `owner`, except just after coming in and before leaving. */
  ghost predicate OwnerOk(s: State, t: Thread) {
    var l := Of(s, t);
    && (l.pc.StoreOwner? || l.pc.ClearOwner? || l.pc.ClearLock? ==> l.inside)
    && (l.inside ==> s.lock == 1 && s.owner == (if l.pc.StoreOwner? || l.pc.ClearLock? then 0 else t))
    && l.pc != Asleep && !(l.pc.FutexWake? && l.inside)
    && (l.pc.Spin? ==> l.pc.count < MAX_SPIN_COUNT)
    && (l.inside && l.pc.Outside? ==> l.ret == 0)
  }

  ghost predicate Inv(s: State) {
    && s.futex == 0 && (s.lock == 0 || s.lock == 1)
    && (forall t, u :: Of(s, t).inside && Of(s, u).inside ==> t == u)
    && ((forall t :: !Of(s, t).inside) ==> s.lock == 0 && s.owner == 0)
    && (forall t :: OwnerOk(s, t))
  }

  /** An operation of `t` that changes neither who is inside nor the shared words. */
  lemma QuietStep(s: State, t: Thread, l: Local)
    requires Inv(s) && l.inside == Of(s, t).inside && OwnerOk(With(s, t, l), t)
    ensures Inv(With(s, t, l))
  {
    var s' := With(s, t, l);
    assert forall u :: Of(s', u) == if u == t then l else Of(s, u);
    forall u ensures OwnerOk(s', u) { assert OwnerOk(s, u); }
  }

  lemma ExchangeKeepsInv(s: State, t: Thread, failed: Pc)
    requires Inv(s) && Of(s, t).pc != FutexWake
    requires failed.FutexWait? || failed.Block? || (failed.Spin? && failed.count < MAX_SPIN_COUNT)
    requires Of(s, t).pc.Spin? || Of(s, t).pc.Block?
    ensures Inv(Exchange(s, t, failed))
  {
    var s' := Exchange(s, t, failed);
    var l' := Of(s', t);
    assert forall u :: Of(s', u) == if u == t then l' else Of(s, u);
    assert OwnerOk(s, t);
    if s.lock == 0 {
      forall u ensures !Of(s, u).inside { assert OwnerOk(s, u); }
    }
    forall u ensures OwnerOk(s', u) { assert OwnerOk(s, u); }
  }

  lemma OwnerStepKeepsInv(s: State, t: Thread)
    requires Inv(s) && (Of(s, t).pc.StoreOwner? || Of(s, t).pc.ClearOwner? || Of(s, t).pc.ClearLock?)
    ensures forall s' :: Next(s, Step(t), s') ==> Inv(s')
  {
    assert OwnerOk(s, t);
    forall s' | Next(s, Step(t), s') ensures Inv(s') {
      var l' := Of(s', t);
      assert forall u :: Of(s', u) == if u == t then l' else Of(s, u);
      forall u ensures OwnerOk(s', u) { assert OwnerOk(s, u); }
    }
  }

  lemma StepKeepsInv(s: State, e: Event, s': State)
    requires Inv(s) && Enabled(s, e) && Next(s, e, s')
    ensures Inv(s')
  {
    hide Inv;
    var t, l := e.t, Of(s, e.t);
    InvOwnerOk(s, t);
    match e
    case CallLock(_) => QuietStep(s, t, l.(pc := Spin(0)));
    case CallUnlock(_) => QuietStep(s, t, l.(pc := LoadOwner));
    case Step(_) =>
      match l.pc {
        case Outside =>
        case Asleep =>
        case Spin(count) => ExchangeKeepsInv(s, t, AfterSpin(count));
        case Block => ExchangeKeepsInv(s, t, FutexWait);
        case FutexWait => QuietStep(s, t, l.(pc := Block));
        case StoreOwner => OwnerStepKeepsInv(s, t);
        case LoadOwner => QuietStep(s, t, if s.owner != t then l.(pc := Outside, ret := -1) else l.(pc := ClearOwner));
        case ClearOwner => OwnerStepKeepsInv(s, t);
        case ClearLock => OwnerStepKeepsInv(s, t);
        case FutexWake =>
          var rest := With(s, t, l.(pc := Outside, ret := 0));
          QuietStep(s, t, l.(pc := Outside, ret := 0));
          forall u ensures Of(rest, u).pc != Asleep { InvOwnerOk(rest, u); }
      }
  }

  lemma InvOwnerOk(s: State, t: Thread)
    requires Inv(s)
    ensures OwnerOk(s, t) && s.futex == 0
    ensures Of(s, t).pc == LoadOwner && s.owner == t ==> Of(s, t).inside
  {
    assert OwnerOk(s, t);
    if s.owner == t {
      if u :| Of(s, u).inside {
        assert OwnerOk(s, u);
      }
    }
  }

  /** The invariant holds over every run. */
  lemma {:induction false} RunKeepsInv(events: seq<Event>, s: State)
    requires Run(events, s)
    ensures Inv(s)
    decreases |events|
  {
    hide Inv, Next, Enabled;
    if events == [] {
      InitialInv();
    } else {
      var n := |events| - 1;
      var prev :| Run(events[..n], prev) && Enabled(prev, events[n]) && Next(prev, events[n], s);
      RunKeepsInv(events[..n], prev);
      StepKeepsInv(prev, events[n], s);
    }
  }

  lemma InitialInv()
    ensures Inv(INITIAL)
  {
    assert forall t :: OwnerOk(INITIAL, t);
  }

  // ---------------------------------------------------------------- what every run guarantees

  /** At most one thread is between its successful exchange and its store of 0 to `lock`. */
  lemma MutualExclusion(events: seq<Event>, s: State, t: Thread, u: Thread)
    requires Run(events, s) && Of(s, t).inside && Of(s, u).inside
    ensures t == u && s.lock == 1
  {
    RunKeepsInv(events, s);
    assert OwnerOk(s, t);
  }

  /** `owner` names nobody but the thread that is inside. */
  lemma OwnerIsInside(events: seq<Event>, s: State, t: Thread)
    requires Run(events, s) && s.owner == t
    ensures Of(s, t).inside && s.lock == 1
  {
    RunKeepsInv(events, s);
    if forall u :: !Of(s, u).inside {
      assert false;
    }
    var u :| Of(s, u).inside;
    assert OwnerOk(s, u);
  }

  /** The test in `unlock` tells exactly whether the caller is inside. */
  lemma UnlockTestIsExact(events: seq<Event>, s: State, t: Thread)
    requires Run(events, s) && Of(s, t).pc == LoadOwner
    ensures s.owner == t <==> Of(s, t).inside
  {
    RunKeepsInv(events, s);
    InvOwnerOk(s, t);
  }

  /** Unlocking without being inside returns -1, and changes nothing but where the caller is. */
  lemma ForeignUnlockFails(events: seq<Event>, s: State, t: Thread, s': State)
    requires Run(events, s) && Of(s, t).pc == LoadOwner && !Of(s, t).inside && Next(s, Step(t), s')
    ensures s' == With(s, t, Local(Outside, false, -1))
    ensures s'.lock == s.lock && s'.owner == s.owner && forall u :: u != t ==> Of(s', u) == Of(s, u)
  {
    UnlockTestIsExact(events, s, t);
  }

  /** The futex word is never written, so nobody ever sleeps in the kernel, and no wakeup can be missed. */
  lemma NobodySleeps(events: seq<Event>, s: State, t: Thread)
    requires Run(events, s)
    ensures s.futex == 0 && Of(s, t).pc != Asleep
    ensures Of(s, t).pc != Outside ==> Enabled(s, Step(t))
  {
    RunKeepsInv(events, s);
    assert OwnerOk(s, t);
  }

  /** The lock is free exactly when nobody is inside; then any contender gets in by at most two steps of its own. */
  lemma FreeLockIsTaken(events: seq<Event>, s: State, t: Thread)
    returns (s1: State, s2: State)
    requires Run(events, s) && (forall u :: !Of(s, u).inside)
    requires Of(s, t).pc.Spin? || Of(s, t).pc.Block? || Of(s, t).pc.FutexWait?
    ensures s.lock == 0
    ensures s1 == s || Next(s, Step(t), s1)
    ensures Next(s1, Step(t), s2) && Of(s2, t).inside
  {
    RunKeepsInv(events, s);
    s1 := if Of(s, t).pc.FutexWait? then With(s, t, Of(s, t).(pc := Block)) else s;
    s2 := match Of(s1, t).pc
      case Spin(count) => Exchange(s1, t, AfterSpin(count))
      case _ => Exchange(s1, t, FutexWait);
  }

  // ---------------------------------------------------------------- what the calls return, over every run

  /** A thread that is inside and in no call was told so: its last call returned 0. */
  lemma InsideWasToldSo(events: seq<Event>, s: State, t: Thread)
    requires Run(events, s) && Of(s, t).inside && Of(s, t).pc == Outside
    ensures Of(s, t).ret == 0
  {
    RunKeepsInv(events, s);
    assert OwnerOk(s, t);
  }

  /** `s'` is reached from `s` by performing `events` in order. */
  ghost predicate Path(s: State, events: seq<Event>, s': State)
    decreases |events|
  {
    if events == [] then s == s'
    else exists mid :: Enabled(s, events[0]) && Next(s, events[0], mid) && Path(mid, events[1..], s')
  }

  lemma PathStep(s: State, events: seq<Event>, s': State)
    requires events != [] && Path(s, events, s')
    ensures exists mid :: Enabled(s, events[0]) && Next(s, events[0], mid) && Path(mid, events[1..], s')
  {
  }

  /** What the thread does is part of the call it made before. */
  ghost predicate NoCallOf(t: Thread, events: seq<Event>) {
    forall i :: 0 <= i < |events| ==> events[i].Step? || events[i].t != t
  }

  /** The course of a call of `lock` by a thread that is not inside. */
  ghost predicate InLock(l: Local) {
    match l.pc
    case Spin(_) => !l.inside
    case Block => !l.inside
    case FutexWait => !l.inside
    case StoreOwner => l.inside
    case Outside => l.inside && l.ret == 0
    case _ => false
  }

  /** The course of a call of `lock` by a thread that is inside already. */
  ghost predicate InRelock(l: Local) {
    l.inside && (l.pc.Spin? || l.pc.Block? || l.pc.FutexWait?)
  }

  /** The course of a call of `unlock`; `was` tells whether the thread was inside when it made the call. */
  ghost predicate InUnlock(l: Local, was: bool) {
    match l.pc
    case LoadOwner => l.inside == was
    case ClearOwner => l.inside && was
    case ClearLock => l.inside && was
    case FutexWake => !l.inside && was
    case Outside => !l.inside && l.ret == if was then 0 else -1
    case _ => false
  }

  lemma StepKeepsCourse(s: State, e: Event, s': State, t: Thread, was: bool)
    requires Inv(s) && Enabled(s, e) && Next(s, e, s') && (e.Step? || e.t != t)
    ensures InLock(Of(s, t)) ==> InLock(Of(s', t))
    ensures InRelock(Of(s, t)) ==> InRelock(Of(s', t))
    ensures InUnlock(Of(s, t), was) ==> InUnlock(Of(s', t), was)
  {
    InvOwnerOk(s, t);
    OthersStay(s, e, s', t);
  }

  /** A thread goes on only by its own steps, since nobody is ever asleep to be woken. */
  lemma OthersStay(s: State, e: Event, s': State, t: Thread)
    requires Inv(s) && Enabled(s, e) && Next(s, e, s')
    ensures e.t != t ==> Of(s', t) == Of(s, t)
  {
    forall u ensures Of(s, u).pc != Asleep { InvOwnerOk(s, u); }
  }

  lemma {:induction false} PathKeepsCourse(s: State, events: seq<Event>, s': State, t: Thread, was: bool)
    requires Inv(s) && Path(s, events, s') && NoCallOf(t, events)
    ensures InLock(Of(s, t)) ==> InLock(Of(s', t))
    ensures InRelock(Of(s, t)) ==> InRelock(Of(s', t))
    ensures InUnlock(Of(s, t), was) ==> InUnlock(Of(s', t), was)
    decreases |events|
  {
    hide Inv, Next, Enabled, InLock, InRelock, InUnlock;
    if events != [] {
      var mid :| Enabled(s, events[0]) && Next(s, events[0], mid) && Path(mid, events[1..], s');
      StepKeepsInv(s, events[0], mid);
      StepKeepsCourse(s, events[0], mid, t, was);
      PathKeepsCourse(mid, events[1..], s', t, was);
    }
  }

  /** A call of `lock` that returns, whatever the other threads do meanwhile, returns 0 and the thread is inside. */
  lemma LockReturnsInside(before: seq<Event>, s: State, events: seq<Event>, s': State, t: Thread)
    requires Run(before, s) && !Of(s, t).inside && events != [] && events[0] == CallLock(t)
    requires Path(s, events, s') && NoCallOf(t, events[1..]) && Of(s', t).pc == Outside
    ensures Of(s', t).inside && Of(s', t).ret == 0
  {
    RunKeepsInv(before, s);
    hide Inv;
    var mid :| Enabled(s, events[0]) && Next(s, events[0], mid) && Path(mid, events[1..], s');
    StepKeepsInv(s, events[0], mid);
    PathKeepsCourse(mid, events[1..], s', t, false);
  }

  /** The mutex is not recursive: a call of `lock` by the thread that is inside never returns. */
  lemma RelockNeverReturns(before: seq<Event>, s: State, events: seq<Event>, s': State, t: Thread)
    requires Run(before, s) && Of(s, t).inside && events != [] && events[0] == CallLock(t)
    requires Path(s, events, s') && NoCallOf(t, events[1..])
    ensures Of(s', t).pc != Outside && Of(s', t).inside
  {
    RunKeepsInv(before, s);
    hide Inv;
    var mid :| Enabled(s, events[0]) && Next(s, events[0], mid) && Path(mid, events[1..], s');
    StepKeepsInv(s, events[0], mid);
    PathKeepsCourse(mid, events[1..], s', t, false);
  }

  /** A call of `unlock` that returns leaves the thread outside; it returns 0 to the holder and -1 to anybody else. */
  lemma UnlockReturns(before: seq<Event>, s: State, events: seq<Event>, s': State, t: Thread)
    requires Run(before, s) && events != [] && events[0] == CallUnlock(t)
    requires Path(s, events, s') && NoCallOf(t, events[1..]) && Of(s', t).pc == Outside
    ensures !Of(s', t).inside && Of(s', t).ret == if Of(s, t).inside then 0 else -1
  {
    RunKeepsInv(before, s);
    hide Inv;
    var mid :| Enabled(s, events[0]) && Next(s, events[0], mid) && Path(mid, events[1..], s');
    StepKeepsInv(s, events[0], mid);
    PathKeepsCourse(mid, events[1..], s', t, Of(s, t).inside);
  }

  /** What a thread does next after `n` operations of a call of `lock` without success. */
  ghost function Contending(n: nat): Pc {
    if n < 100 then Spin(n) else if n % 2 == 0 then Block else FutexWait
  }

  ghost function StepsOf(t: Thread, events: seq<Event>): nat {
    if events == [] then 0 else (if events[0] == Step(t) then 1 else 0) + StepsOf(t, events[1..])
  }

  lemma ContendingStep(s: State, n: nat, e: Event, s': State, t: Thread)
    requires Inv(s) && Enabled(s, e) && Next(s, e, s') && (e.Step? || e.t != t)
    requires Of(s, t).pc == Contending(n) && !Of(s, t).inside
    ensures if Of(s', t).inside then InLock(Of(s', t))
            else Of(s', t).pc == Contending(if e == Step(t) then n + 1 else n)
  {
    InvOwnerOk(s, t);
    OthersStay(s, e, s', t);
  }

  /** A thread that finds the lock taken 100 times stops spinning; from then on every exchange follows a futex call. */
  lemma {:induction false} SpinsThenBlocks(s: State, n: nat, events: seq<Event>, s': State, t: Thread)
    requires Inv(s) && Path(s, events, s') && NoCallOf(t, events)
    requires Of(s, t).pc == Contending(n) && !Of(s, t).inside
    ensures Of(s', t).inside || Of(s', t).pc == Contending(n + StepsOf(t, events))
    decreases |events|
  {
    hide Inv, Next, Enabled, InLock, Contending;
    if events != [] {
      var e := events[0];
      var mid :| Enabled(s, e) && Next(s, e, mid) && Path(mid, events[1..], s');
      StepKeepsInv(s, e, mid);
      ContendingStep(s, n, e, mid, t);
      if Of(mid, t).inside {
        StaysInside(mid, events[1..], s', t);
      } else {
        SpinsThenBlocks(mid, if e == Step(t) then n + 1 else n, events[1..], s', t);
      }
    }
  }

  /** A thread that came in stays inside until it calls `unlock`. */
  lemma {:induction false} StaysInside(s: State, events: seq<Event>, s': State, t: Thread)
    requires Inv(s) && Path(s, events, s') && NoCallOf(t, events) && InLock(Of(s, t)) && Of(s, t).inside
    ensures Of(s', t).inside
    decreases |events|
  {
    if events != [] {
      var e := events[0];
      var mid :| Enabled(s, e) && Next(s, e, mid) && Path(mid, events[1..], s');
      OthersStay(s, e, mid, t);
      hide Inv;
      StepKeepsInv(s, e, mid);
      StepKeepsCourse(s, e, mid, t, false);
      StaysInside(mid, events[1..], s', t);
    }
  }

  /** The same from the call on, over every run. */
  lemma LockSpins(before: seq<Event>, s: State, events: seq<Event>, s': State, t: Thread)
    requires Run(before, s) && !Of(s, t).inside && events != [] && events[0] == CallLock(t)
    requires Path(s, events, s') && NoCallOf(t, events[1..]) && !Of(s', t).inside
    ensures var n := StepsOf(t, events);
            Of(s', t).pc == if n < 100 then Spin(n) else if n % 2 == 0 then Block else FutexWait
  {
    RunKeepsInv(before, s);
    hide Inv;
    var mid :| Enabled(s, events[0]) && Next(s, events[0], mid) && Path(mid, events[1..], s');
    StepKeepsInv(s, events[0], mid);
    SpinsThenBlocks(mid, 0, events[1..], s', t);
  }

  /** Where the holder is after `n` operations of a call of `unlock`, and what the shared words say then. */
  ghost predicate Unlocking(s: State, t: Thread, n: nat) {
    match n
    case 0 => Of(s, t).pc == LoadOwner && Of(s, t).inside && s.owner == t && s.lock == 1
    case 1 => Of(s, t).pc == ClearOwner && Of(s, t).inside && s.owner == t && s.lock == 1
    case 2 => Of(s, t).pc == ClearLock && Of(s, t).inside && s.owner == 0 && s.lock == 1
    case 3 => Of(s, t).pc == FutexWake && !Of(s, t).inside
    case _ => Of(s, t).pc == Outside && !Of(s, t).inside
  }

  lemma UnlockingStep(s: State, n: nat, e: Event, s': State, t: Thread)
    requires Inv(s) && Enabled(s, e) && Next(s, e, s') && (e.Step? || e.t != t) && Unlocking(s, t, n)
    ensures Unlocking(s', t, if e == Step(t) then n + 1 else n)
  {
    InvOwnerOk(s, t);
    OthersStay(s, e, s', t);
    StepKeepsInv(s, e, s');
    InvOwnerOk(s', t);
  }

  lemma {:induction false} PathUnlocks(s: State, n: nat, events: seq<Event>, s': State, t: Thread)
    requires Inv(s) && Path(s, events, s') && NoCallOf(t, events) && Unlocking(s, t, n)
    ensures Unlocking(s', t, n + StepsOf(t, events))
    decreases |events|
  {
    hide Inv, Next, Enabled, Unlocking;
    if events != [] {
      var e := events[0];
      var mid :| Enabled(s, e) && Next(s, e, mid) && Path(mid, events[1..], s');
      StepKeepsInv(s, e, mid);
      UnlockingStep(s, n, e, mid, t);
      PathUnlocks(mid, if e == Step(t) then n + 1 else n, events[1..], s', t);
    }
  }

  /** The holder gives up the ownership, then the lock, then wakes: four operations, whatever others do in between. */
  lemma UnlockInOrder(before: seq<Event>, s: State, events: seq<Event>, s': State, t: Thread)
    requires Run(before, s) && Of(s, t).inside && events != [] && events[0] == CallUnlock(t)
    requires Path(s, events, s') && NoCallOf(t, events[1..])
    ensures Unlocking(s', t, StepsOf(t, events))
  {
    RunKeepsInv(before, s);
    assert OwnerOk(s, t);
    hide Inv, NoCallOf, Path;
    PathStep(s, events, s');
    var mid :| Enabled(s, events[0]) && Next(s, events[0], mid) && Path(mid, events[1..], s');
    StepKeepsInv(s, events[0], mid);
    PathUnlocks(mid, 0, events[1..], s', t);
  }

  /** A sleeper that FUTEX_WAKE releases tests the lock again before anything else; this needs no run. */
  lemma WokenTestsAgain(s: State, t: Thread, s': State, u: Thread)
    requires Of(s, t).pc == FutexWake && Next(s, Step(t), s') && Of(s, u).pc == Asleep
    ensures Of(s', u) == Of(s, u) || Of(s', u) == Of(s, u).(pc := Block)
    ensures s'.lock == s.lock && s'.owner == s.owner
  {
  }

  // ---------------------------------------------------------------- the mutex object

  /** The shared words; each method is one atomic operation. `threads` records where the threads are. */
  class Mutex {
    var lock: int
    var owner: int
    var futex: int
    ghost var threads: map<Thread, Local>

    ghost function Value(): State
      reads this
    {
      State(lock, owner, futex, threads)
    }

    constructor ()
      ensures Value() == INITIAL
    {
      lock := 0;
      owner := 0;
      futex := 0;
      threads := map[];
    }

    /** One turn of the spin loop of `lock`; the caller has failed `spinCount` times before. */
    method SpinOnce(self: Thread, spinCount: nat) returns (acquired: bool)
      requires Of(Value(), self).pc == Spin(spinCount)
      modifies `lock, `threads
      ensures Next(old(Value()), Step(self), Value())
      ensures acquired <==> old(lock) == 0
    {
      var seen := lock;
      lock := 1;
      acquired := seen == 0;
      var l := Of(Value(), self);
      var failed := AfterSpin(spinCount);
      threads := threads[self := if acquired then l.(pc := StoreOwner, inside := true) else l.(pc := failed)];
    }

    /** The exchange that guards the blocking loop of `lock`. */
    method BlockOnce(self: Thread) returns (acquired: bool)
      requires Of(Value(), self).pc == Block
      modifies `lock, `threads
      ensures Next(old(Value()), Step(self), Value())
      ensures acquired <==> old(lock) == 0
    {
      var seen := lock;
      lock := 1;
      acquired := seen == 0;
      var l := Of(Value(), self);
      threads := threads[self := if acquired then l.(pc := StoreOwner, inside := true) else l.(pc := FutexWait)];
    }

    /** The end of `lock`. */
    method RecordOwner(self: Thread) returns (ret: int)
      requires Of(Value(), self).pc == StoreOwner
      modifies `owner, `threads
      ensures Next(old(Value()), Step(self), Value())
      ensures ret == 0 == Of(Value(), self).ret && owner == self
    {
      owner := self;
      threads := threads[self := Of(Value(), self).(pc := Outside, ret := 0)];
      return 0;
    }

    /** The test at the start of `unlock`. */
    method CheckOwner(self: Thread) returns (ret: int)
      requires Of(Value(), self).pc == LoadOwner
      modifies `threads
      ensures Next(old(Value()), Step(self), Value())
      ensures ret == if owner == self then 0 else -1
    {
      if owner != self {
        threads := threads[self := Of(Value(), self).(pc := Outside, ret := -1)];
        return -1;
      }
      threads := threads[self := Of(Value(), self).(pc := ClearOwner)];
      return 0;
    }

    method ResetOwner(self: Thread)
      requires Of(Value(), self).pc == ClearOwner
      modifies `owner, `threads
      ensures Next(old(Value()), Step(self), Value())
    {
      owner := 0;
      threads := threads[self := Of(Value(), self).(pc := ClearLock)];
    }

    method ResetLock(self: Thread)
      requires Of(Value(), self).pc == ClearLock
      modifies `lock, `threads
      ensures Next(old(Value()), Step(self), Value())
    {
      lock := 0;
      threads := threads[self := Of(Value(), self).(pc := FutexWake, inside := false)];
    }
  }
}
