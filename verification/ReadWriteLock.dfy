/**
 * A writer-preferring read/write lock built on a mutex and a condition variable. A step is what one thread does between
 * taking the mutex and giving it up again, in any interleaving of any number of threads, with spurious wakeups.
 */
module ReadWriteLock {

  type Thread = int

  /**
   * Where a thread is; threads that are nowhere in the lock are absent from the map. `Notifying` is the gap in
   * `readUnlock` between giving up the mutex and `notify_all`.
   */
  datatype Phase = ReadSleeping | ReadWoken | Reading | Notifying | WriteSleeping | WriteWoken | Writing

  datatype State = State(readCount: int, writeFlag: bool, writeWaitCount: int, phase: map<Thread, Phase>)

  const INITIAL := State(0, false, 0, map[])

  datatype Event =
    | ReadEnter(t: Thread)
    | ReadResume(t: Thread)
    | ReadUnlock(t: Thread)
    | NotifyAll(t: Thread)
    | WriteEnter(t: Thread)
    | WriteResume(t: Thread)
    | WriteUnlock(t: Thread)
    | Spurious(t: Thread)

  ghost function In(m: map<Thread, Phase>, p: Phase): set<Thread> {
    set t | t in m && m[t] == p
  }

  ghost function Readers(s: State): set<Thread> { In(s.phase, Reading) }

  ghost function Writers(s: State): set<Thread> { In(s.phase, Writing) }

  ghost function WaitingWriters(s: State): set<Thread> { In(s.phase, WriteSleeping) + In(s.phase, WriteWoken) }

  ghost function WaitingReaders(s: State): set<Thread> { In(s.phase, ReadSleeping) + In(s.phase, ReadWoken) }

  /** What `notify_all` does to a thread. */
  function Woken(p: Phase): Phase {
    match p
    case ReadSleeping => ReadWoken
    case WriteSleeping => WriteWoken
    case _ => p
  }

  function WakeAll(phase: map<Thread, Phase>): map<Thread, Phase> {
    map t | t in phase :: Woken(phase[t])
  }

  ghost predicate Enabled(s: State, e: Event) {
    match e
    case ReadEnter(t) => t !in s.phase
    case WriteEnter(t) => t !in s.phase
    case ReadResume(t) => t in In(s.phase, ReadWoken)
    case WriteResume(t) => t in In(s.phase, WriteWoken)
    case ReadUnlock(t) => t in In(s.phase, Reading)
    case WriteUnlock(t) => t in In(s.phase, Writing)
    case NotifyAll(t) => t in In(s.phase, Notifying)
    case Spurious(t) => t in In(s.phase, ReadSleeping) + In(s.phase, WriteSleeping)
  }

  /** A reader that has the mutex tests its guard: it goes to sleep, or comes in. */
  function TryRead(s: State, t: Thread): State {
    if s.writeFlag || s.writeWaitCount > 0 then s.(phase := s.phase[t := ReadSleeping])
    else s.(readCount := s.readCount + 1, phase := s.phase[t := Reading])
  }

  /** A writer that is already counted as waiting tests its guard. */
  function TryWrite(s: State, t: Thread): State {
    if s.writeFlag || s.readCount > 0 then s.(phase := s.phase[t := WriteSleeping])
    else s.(writeFlag := true, writeWaitCount := s.writeWaitCount - 1, phase := s.phase[t := Writing])
  }

  function Next(s: State, e: Event): State {
    match e
    case ReadEnter(t) => TryRead(s, t)
    case ReadResume(t) => TryRead(s, t)
    case WriteEnter(t) => TryWrite(s.(writeWaitCount := s.writeWaitCount + 1), t)
    case WriteResume(t) => TryWrite(s, t)
    case ReadUnlock(t) =>
      s.(readCount := s.readCount - 1, phase := if s.readCount == 1 then s.phase[t := Notifying] else s.phase - {t})
    case NotifyAll(t) => s.(phase := WakeAll(s.phase - {t}))
    case WriteUnlock(t) => s.(writeFlag := false, phase := WakeAll(s.phase - {t}))
    case Spurious(t) => s.(phase := if t in s.phase then s.phase[t := Woken(s.phase[t])] else s.phase)
  }

  /** `s'` is reached from `s` by performing `events` in order, each enabled when its turn comes. */
  ghost predicate Path(s: State, events: seq<Event>, s': State)
    decreases |events|
  {
    if events == [] then s == s'
    else Enabled(s, events[0]) && Path(Next(s, events[0]), events[1..], s')
  }

  ghost predicate Reachable(s: State) {
    exists events :: Path(INITIAL, events, s)
  }

  // ---------------------------------------------------------------- the invariant

  ghost function Count(m: map<Thread, Phase>, p: Phase): nat {
    |In(m, p)|
  }

  /** The three fields count what the threads are really doing, and a writer excludes everybody else. */
  ghost predicate FieldsTrue(s: State) {
    && s.readCount == Count(s.phase, Reading)
    && s.writeWaitCount == Count(s.phase, WriteSleeping) + Count(s.phase, WriteWoken)
    && Count(s.phase, Writing) == (if s.writeFlag then 1 else 0)
    && (s.writeFlag ==> s.readCount == 0)
  }

  /** A reader never sleeps on a false guard; a writer does so only while some thread is about to notify. */
  ghost predicate NoLostWakeup(s: State) {
    && (Count(s.phase, ReadSleeping) > 0 ==> s.writeFlag || s.writeWaitCount > 0)
    && (Count(s.phase, WriteSleeping) > 0 && !s.writeFlag && s.readCount == 0 ==> Count(s.phase, Notifying) > 0)
  }

  ghost predicate Inv(s: State) {
    FieldsTrue(s) && NoLostWakeup(s)
  }

  // ---------------------------------------------------------------- how the steps move threads between phases

  ghost function One(b: bool): int {
    if b then 1 else 0
  }

  /** Moving a thread takes it out of the phase it was in, if any, and puts it into the new one. */
  lemma Moved(m: map<Thread, Phase>, t: Thread, p: Phase)
    ensures forall q :: Count(m[t := p], q) == Count(m, q) - One(t in m && m[t] == q) + One(p == q)
    ensures Count(m[t := p], p) > 0
  {
    assert t in In(m[t := p], p);
    Counted(m[t := p], t, p);
    forall q ensures Count(m[t := p], q) == Count(m, q) - One(t in m && m[t] == q) + One(p == q) {
      MovedIn(m, t, p, q);
    }
  }

  lemma MovedIn(m: map<Thread, Phase>, t: Thread, p: Phase, q: Phase)
    ensures Count(m[t := p], q) == Count(m, q) - One(t in m && m[t] == q) + One(p == q)
  {
    MovedSet(m, t, p, q);
    hide In;
    SetSizes(In(m, q), t);
  }

  lemma MovedSet(m: map<Thread, Phase>, t: Thread, p: Phase, q: Phase)
    ensures In(m[t := p], q) == if q == p then In(m, q) + {t} else In(m, q) - {t}
    ensures t in In(m, q) <==> t in m && m[t] == q
  {
  }

  lemma SetSizes(threads: set<Thread>, t: Thread)
    ensures |threads + {t}| == |threads| + 1 - One(t in threads)
    ensures |threads - {t}| == |threads| - One(t in threads)
  {
    assert t in threads ==> threads + {t} == threads;
    assert t !in threads ==> threads - {t} == threads;
  }

  lemma Left(m: map<Thread, Phase>, t: Thread)
    ensures forall q :: Count(m - {t}, q) == Count(m, q) - One(t in m && m[t] == q)
  {
    forall q ensures Count(m - {t}, q) == Count(m, q) - One(t in m && m[t] == q) {
      assert In(m - {t}, q) == In(m, q) - {t};
    }
  }

  /** Waking everybody empties the sleeping phases into the woken ones. */
  lemma Awake(m: map<Thread, Phase>)
    ensures Count(WakeAll(m), ReadSleeping) == 0 == Count(WakeAll(m), WriteSleeping)
    ensures Count(WakeAll(m), ReadWoken) == Count(m, ReadSleeping) + Count(m, ReadWoken)
    ensures Count(WakeAll(m), WriteWoken) == Count(m, WriteSleeping) + Count(m, WriteWoken)
    ensures Count(WakeAll(m), Reading) == Count(m, Reading) && Count(WakeAll(m), Writing) == Count(m, Writing)
    ensures Count(WakeAll(m), Notifying) == Count(m, Notifying)
  {
    AwakeIn(m, ReadWoken, In(m, ReadSleeping) + In(m, ReadWoken));
    AwakeIn(m, WriteWoken, In(m, WriteSleeping) + In(m, WriteWoken));
    AwakeIn(m, Reading, In(m, Reading));
    AwakeIn(m, Writing, In(m, Writing));
    AwakeIn(m, Notifying, In(m, Notifying));
    AwakeIn(m, ReadSleeping, {});
    AwakeIn(m, WriteSleeping, {});
  }

  lemma AwakeIn(m: map<Thread, Phase>, q: Phase, threads: set<Thread>)
    requires forall t :: t in threads <==> t in m && Woken(m[t]) == q
    ensures In(WakeAll(m), q) == threads
  {
    forall t ensures t in In(WakeAll(m), q) <==> t in threads {}
  }

  lemma Pick(threads: set<Thread>) returns (t: Thread)
    requires threads != {}
    ensures t in threads
  {
    assert (forall t :: t !in threads) ==> threads == {};
    t :| t in threads;
  }

  lemma Counted(m: map<Thread, Phase>, t: Thread, p: Phase)
    requires t in In(m, p)
    ensures t in m && m[t] == p && Count(m, p) > 0
  {
    assert In(m, p) - {t} + {t} == In(m, p);
  }

  // ---------------------------------------------------------------- every step keeps the invariant

  /** A thread that is not in the lock, or was woken in `readLock`. */
  lemma TryReadKeepsInv(s: State, t: Thread)
    requires Inv(s) && (t !in s.phase || s.phase[t] == ReadWoken)
    ensures Inv(TryRead(s, t))
  {
    hide Count;
    Moved(s.phase, t, ReadSleeping);
    Moved(s.phase, t, Reading);
  }

  /** A thread that is being counted as a waiting writer. */
  lemma EnterWriteKeepsInv(s: State, t: Thread)
    requires Inv(s) && t !in s.phase
    ensures Inv(TryWrite(s.(writeWaitCount := s.writeWaitCount + 1), t))
  {
    hide Count;
    Moved(s.phase, t, WriteSleeping);
    Moved(s.phase, t, Writing);
  }

  /** A thread that was woken in `writeLock`. */
  lemma ResumeWriteKeepsInv(s: State, t: Thread)
    requires Inv(s) && t in s.phase && s.phase[t] == WriteWoken
    ensures Inv(TryWrite(s, t))
  {
    hide Count;
    Moved(s.phase, t, WriteSleeping);
    Moved(s.phase, t, Writing);
  }

  lemma ReadUnlockKeepsInv(s: State, t: Thread)
    requires Inv(s) && Enabled(s, ReadUnlock(t))
    ensures Inv(Next(s, ReadUnlock(t)))
  {
    hide Count;
    Counted(s.phase, t, Reading);
    Moved(s.phase, t, Notifying);
    Left(s.phase, t);
    var s' := Next(s, ReadUnlock(t));
    assert s'.phase == if s.readCount == 1 then s.phase[t := Notifying] else s.phase - {t};
    assert FieldsTrue(s');
    assert Count(s'.phase, WriteSleeping) == Count(s.phase, WriteSleeping);
    assert s.readCount == 1 ==> Count(s'.phase, Notifying) > 0;
  }

  lemma NotifyKeepsInv(s: State, t: Thread)
    requires Inv(s)
    ensures Enabled(s, NotifyAll(t)) ==> Inv(Next(s, NotifyAll(t)))
    ensures Enabled(s, WriteUnlock(t)) ==> Inv(Next(s, WriteUnlock(t)))
  {
    hide Count;
    Left(s.phase, t);
    Awake(s.phase - {t});
    if Enabled(s, NotifyAll(t)) {
      Counted(s.phase, t, Notifying);
    }
    if Enabled(s, WriteUnlock(t)) {
      Counted(s.phase, t, Writing);
    }
  }

  lemma SpuriousKeepsInv(s: State, t: Thread)
    requires Inv(s) && Enabled(s, Spurious(t))
    ensures Inv(Next(s, Spurious(t)))
  {
    hide Count;
    Moved(s.phase, t, Woken(s.phase[t]));
  }

  lemma StepKeepsInv(s: State, e: Event)
    requires Inv(s) && Enabled(s, e)
    ensures Inv(Next(s, e))
  {
    hide Inv, TryRead, TryWrite;
    match e
    case ReadEnter(t) => TryReadKeepsInv(s, t);
    case WriteEnter(t) => EnterWriteKeepsInv(s, t);
    case ReadResume(t) => TryReadKeepsInv(s, t);
    case WriteResume(t) => ResumeWriteKeepsInv(s, t);
    case ReadUnlock(t) => ReadUnlockKeepsInv(s, t);
    case NotifyAll(t) => NotifyKeepsInv(s, t);
    case WriteUnlock(t) => NotifyKeepsInv(s, t);
    case Spurious(t) => SpuriousKeepsInv(s, t);
  }

  lemma {:induction false} PathKeepsInv(s: State, events: seq<Event>, s': State)
    requires Inv(s) && Path(s, events, s')
    ensures Inv(s')
    decreases |events|
  {
    hide Inv, Next, Enabled;
    if events != [] {
      StepKeepsInv(s, events[0]);
      PathKeepsInv(Next(s, events[0]), events[1..], s');
    }
  }

  lemma InitialInv()
    ensures Inv(INITIAL)
  {
    forall p ensures Count(map[], p) == 0 {
      assert In(map[], p) == {};
    }
  }

  lemma ReachableInv(s: State)
    requires Reachable(s)
    ensures Inv(s)
  {
    InitialInv();
    hide Inv;
    var events :| Path(INITIAL, events, s);
    PathKeepsInv(INITIAL, events, s);
  }

  // ---------------------------------------------------------------- what every run guarantees

  /** A writer excludes readers and other writers, and the counters are the true numbers of threads. */
  lemma MutualExclusion(s: State)
    requires Reachable(s)
    ensures forall t, u :: t in Writers(s) && u in Writers(s) ==> t == u
    ensures Writers(s) == {} || Readers(s) == {}
    ensures s.writeFlag <==> Writers(s) != {}
    ensures s.readCount == |Readers(s)| && s.writeWaitCount == |WaitingWriters(s)|
  {
    ReachableInv(s);
    CountBoth(s.phase, WriteSleeping, WriteWoken);
    CountNone(s.phase, Reading);
    CountNone(s.phase, Writing);
    hide In;
    forall t, u | t in Writers(s) && u in Writers(s) ensures t == u {
      AtMostOne(Writers(s), t, u);
    }
  }

  lemma CountBoth(m: map<Thread, Phase>, p: Phase, q: Phase)
    requires p != q
    ensures |In(m, p) + In(m, q)| == Count(m, p) + Count(m, q)
  {
    assert In(m, p) !! In(m, q);
  }

  lemma CountNone(m: map<Thread, Phase>, p: Phase)
    ensures Count(m, p) == 0 <==> In(m, p) == {}
  {
  }

  lemma AtMostOne<T>(s: set<T>, t: T, u: T)
    requires |s| <= 1 && t in s && u in s
    ensures t == u
  {
    assert |s - {t}| == 0;
    assert s - {t} == {};
  }

  /** Every thread but `t` is where it was. */
  ghost predicate OthersStay(s: State, s': State, t: Thread) {
    forall u :: u != t ==> (u in s.phase <==> u in s'.phase) && (u in s.phase ==> s.phase[u] == s'.phase[u])
  }

  /** Who holds and who waits, read off the fields by which the code decides. */
  lemma GuardsTrue(s: State)
    requires Inv(s)
    ensures s.writeFlag <==> Writers(s) != {}
    ensures s.readCount > 0 <==> Readers(s) != {}
    ensures s.writeWaitCount > 0 <==> WaitingWriters(s) != {}
  {
    WaitersCounted(s);
    CountNone(s.phase, Reading);
    CountNone(s.phase, Writing);
  }

  /** A thread is where it was put, and the others are where they were. */
  lemma PutAt(m: map<Thread, Phase>, t: Thread, p: Phase)
    ensures In(m[t := p], p) == In(m, p) + {t}
    ensures forall q :: q != p ==> In(m[t := p], q) == In(m, q) - {t}
    ensures forall q :: In(m - {t}, q) == In(m, q) - {t}
  {
  }

  /** A reader that tests its guard comes in if no writer is active or waiting, and is put to sleep otherwise. */
  lemma ReaderEntersOrSleeps(s: State, e: Event)
    requires Reachable(s) && Enabled(s, e) && (e.ReadEnter? || e.ReadResume?)
    ensures e.t in Readers(Next(s, e)) <==> Writers(s) == {} && WaitingWriters(s) == {}
    ensures e.t in In(Next(s, e).phase, ReadSleeping) <==> Writers(s) != {} || WaitingWriters(s) != {}
    ensures OthersStay(s, Next(s, e), e.t)
  {
    hide In, Inv, Reachable, Enabled, Writers, WaitingWriters;
    ReachableInv(s);
    GuardsTrue(s);
    PutAt(s.phase, e.t, ReadSleeping);
    PutAt(s.phase, e.t, Reading);
  }

  /** A writer that tests its guard comes in if nobody is active, and is put to sleep otherwise. */
  lemma WriterEntersOrSleeps(s: State, e: Event)
    requires Reachable(s) && Enabled(s, e) && (e.WriteEnter? || e.WriteResume?)
    ensures e.t in Writers(Next(s, e)) <==> Readers(s) == {} && Writers(s) == {}
    ensures e.t in In(Next(s, e).phase, WriteSleeping) <==> Readers(s) != {} || Writers(s) != {}
    ensures OthersStay(s, Next(s, e), e.t)
  {
    hide In, Inv, Reachable, Enabled, Readers;
    ReachableInv(s);
    GuardsTrue(s);
    PutAt(s.phase, e.t, WriteSleeping);
    PutAt(s.phase, e.t, Writing);
  }

  /** A reader that unlocks is gone, unless it was the last one: then it still has to notify everybody. */
  lemma LastReaderNotifies(s: State, t: Thread)
    requires Reachable(s) && Enabled(s, ReadUnlock(t))
    ensures var s' := Next(s, ReadUnlock(t));
            && OthersStay(s, s', t) && t !in Readers(s')
            && if |Readers(s)| == 1 then t in In(s'.phase, Notifying) else t !in s'.phase
  {
    hide In, Inv, Reachable;
    ReachableInv(s);
    ReadersCounted(s);
    PutAt(s.phase, t, Notifying);
  }

  lemma ReadersCounted(s: State)
    requires Inv(s)
    ensures s.readCount == |Readers(s)|
  {
    hide In;
  }

  /** A notification, of a last reader or a writer that leaves, wakes every sleeper; that thread is gone then. */
  lemma EverybodyWakes(s: State, e: Event)
    requires Enabled(s, e) && (e.NotifyAll? || e.WriteUnlock?)
    ensures var s' := Next(s, e);
            && e.t !in s'.phase
            && In(s'.phase, ReadSleeping) == {} && In(s'.phase, WriteSleeping) == {}
            && WaitingReaders(s') == WaitingReaders(s) && WaitingWriters(s') == WaitingWriters(s)
            && Readers(s') == Readers(s) && Writers(s') == Writers(s) - {e.t}
            && In(s'.phase, Notifying) == In(s.phase, Notifying) - {e.t}
  {
    var m := s.phase - {e.t};
    assert s.phase[e.t] == if e.NotifyAll? then Notifying else Writing;
    assert forall q :: e.t in In(s.phase, q) <==> s.phase[e.t] == q;
    Sleepless(m);
    WokenFrom(m);
    PutAt(s.phase, e.t, Notifying);
    hide WakeAll, In, Enabled;
  }

  lemma Sleepless(m: map<Thread, Phase>)
    ensures In(WakeAll(m), ReadSleeping) == {} && In(WakeAll(m), WriteSleeping) == {}
  {
    AwakeIn(m, ReadSleeping, {});
    AwakeIn(m, WriteSleeping, {});
  }

  lemma WokenFrom(m: map<Thread, Phase>)
    ensures In(WakeAll(m), ReadWoken) == In(m, ReadSleeping) + In(m, ReadWoken)
    ensures In(WakeAll(m), WriteWoken) == In(m, WriteSleeping) + In(m, WriteWoken)
    ensures In(WakeAll(m), Reading) == In(m, Reading) && In(WakeAll(m), Writing) == In(m, Writing)
    ensures In(WakeAll(m), Notifying) == In(m, Notifying) && WakeAll(m).Keys == m.Keys
  {
    AwakeIn(m, ReadWoken, In(m, ReadSleeping) + In(m, ReadWoken));
    AwakeIn(m, WriteWoken, In(m, WriteSleeping) + In(m, WriteWoken));
    AwakeIn(m, Reading, In(m, Reading));
    AwakeIn(m, Writing, In(m, Writing));
    AwakeIn(m, Notifying, In(m, Notifying));
  }

  /** A spurious wakeup wakes its thread, and lets nobody in or out. */
  lemma SpuriousOnlyWakes(s: State, t: Thread)
    requires Enabled(s, Spurious(t))
    ensures var s' := Next(s, Spurious(t));
            && OthersStay(s, s', t) && s' == s.(phase := s'.phase)
            && (t in In(s.phase, ReadSleeping) ==> t in In(s'.phase, ReadWoken))
            && (t in In(s.phase, WriteSleeping) ==> t in In(s'.phase, WriteWoken))
  {
  }

  /** A sleeper whose guard has become false has not been forgotten: some thread is about to notify everybody. */
  lemma SleepersAreNotified(s: State, t: Thread)
    requires Reachable(s)
    ensures t in In(s.phase, ReadSleeping) && !(s.writeFlag || s.writeWaitCount > 0) ==> In(s.phase, Notifying) != {}
    ensures t in In(s.phase, WriteSleeping) && !(s.writeFlag || s.readCount > 0) ==> In(s.phase, Notifying) != {}
  {
    ReachableInv(s);
    forall p | t in In(s.phase, p) ensures Count(s.phase, p) > 0 {
      Counted(s.phase, t, p);
    }
  }

  /** Readers are never left asleep with their guard false at all. */
  lemma SleepingReadersMustWait(s: State, t: Thread)
    requires Reachable(s) && t in In(s.phase, ReadSleeping)
    ensures Writers(s) != {} || WaitingWriters(s) != {}
  {
    ReachableInv(s);
    Counted(s.phase, t, ReadSleeping);
    assert s.writeFlag ==> Writers(s) != {};
  }

  /** The steps by which threads already in the lock get on by themselves: no newcomer, no spurious wakeup. */
  ghost predicate Owed(e: Event) {
    e.NotifyAll? || e.ReadResume? || e.WriteResume?
  }

  /**
   * With waiters but no holder the lock never stalls: at most two owed steps, each enabled, let a thread that is
   * waiting now hold the lock; a writer if any is waiting.
   */
  lemma Progress(s: State)
    returns (events: seq<Event>, s': State, t: Thread)
    requires Reachable(s) && Readers(s) == {} && Writers(s) == {}
    requires WaitingReaders(s) + WaitingWriters(s) != {}
    ensures |events| <= 2 && (forall e :: e in events ==> Owed(e)) && Path(s, events, s')
    ensures if WaitingWriters(s) != {} then t in WaitingWriters(s) && t in Writers(s')
            else t in WaitingReaders(s) && t in Readers(s')
  {
    ReachableInv(s);
    NoHolders(s);
    hide Inv, In, Reachable, Enabled, Path, Next;
    if WaitingWriters(s) != {} {
      t := Pick(WaitingWriters(s));
      if t in In(s.phase, WriteWoken) {
        events, s' := [WriteResume(t)], Next(s, WriteResume(t));
        WokenWriterEnters(s, t);
      } else {
        SleepersAreNotified(s, t);
        var n := Pick(In(s.phase, Notifying));
        events, s' := [NotifyAll(n), WriteResume(t)], Next(Next(s, NotifyAll(n)), WriteResume(t));
        NotifiedWriterEnters(s, n, t);
      }
    } else {
      t := Pick(WaitingReaders(s));
      if t in In(s.phase, ReadSleeping) {
        SleepingReadersMustWait(s, t);
      }
      WaitersCounted(s);
      events, s' := [ReadResume(t)], Next(s, ReadResume(t));
      WokenReaderEnters(s, t);
    }
  }

  lemma WokenWriterEnters(s: State, t: Thread)
    requires t in In(s.phase, WriteWoken) && !s.writeFlag && s.readCount == 0
    ensures Path(s, [WriteResume(t)], Next(s, WriteResume(t))) && t in Writers(Next(s, WriteResume(t)))
  {
    OneStep(s, WriteResume(t));
  }

  lemma WokenReaderEnters(s: State, t: Thread)
    requires t in In(s.phase, ReadWoken) && !s.writeFlag && s.writeWaitCount <= 0
    ensures Path(s, [ReadResume(t)], Next(s, ReadResume(t))) && t in Readers(Next(s, ReadResume(t)))
  {
    OneStep(s, ReadResume(t));
  }

  lemma NoHolders(s: State)
    requires Inv(s) && Readers(s) == {} && Writers(s) == {}
    ensures !s.writeFlag && s.readCount == 0
  {
  }

  lemma NotifiedWriterEnters(s: State, n: Thread, t: Thread)
    requires n in In(s.phase, Notifying) && t in In(s.phase, WriteSleeping) && !s.writeFlag && s.readCount == 0
    ensures var s' := Next(Next(s, NotifyAll(n)), WriteResume(t));
            Path(s, [NotifyAll(n), WriteResume(t)], s') && t in Writers(s')
  {
    var mid := Next(s, NotifyAll(n));
    assert t in In(mid.phase, WriteWoken);
    OneStep(mid, WriteResume(t));
    assert [NotifyAll(n), WriteResume(t)][1..] == [WriteResume(t)];
  }

  lemma OneStep(s: State, e: Event)
    requires Enabled(s, e)
    ensures Path(s, [e], Next(s, e))
  {
    assert [e][1..] == [];
  }

  /** Some writer is waiting in every state of the run but, possibly, the last. */
  ghost predicate WriterWaits(s: State, events: seq<Event>)
    decreases |events|
  {
    events != [] ==> WaitingWriters(s) != {} && WriterWaits(Next(s, events[0]), events[1..])
  }

  lemma ReadersShrink(s: State, e: Event)
    requires Inv(s) && Enabled(s, e) && WaitingWriters(s) != {}
    ensures Readers(Next(s, e)) <= Readers(s)
  {
    WaitersCounted(s);
    hide Inv, Enabled, In, WaitingWriters, WakeAll;
    match e
    case ReadEnter(t) => NotReading(s.phase, t, ReadSleeping);
    case ReadResume(t) => NotReading(s.phase, t, ReadSleeping);
    case WriteEnter(t) => NotReading(s.phase, t, WriteSleeping); NotReading(s.phase, t, Writing);
    case WriteResume(t) => NotReading(s.phase, t, WriteSleeping); NotReading(s.phase, t, Writing);
    case ReadUnlock(t) => NotReading(s.phase, t, Notifying);
    case NotifyAll(t) => NotReading(s.phase, t, Notifying);
    case WriteUnlock(t) => NotReading(s.phase, t, Notifying);
    case Spurious(t) => WakesNoReader(s.phase, t);
  }

  /** A thread that moves elsewhere or leaves, and a wakeup, add no reader. */
  lemma NotReading(m: map<Thread, Phase>, t: Thread, p: Phase)
    requires p != Reading
    ensures In(m[t := p], Reading) <= In(m, Reading)
    ensures In(m - {t}, Reading) <= In(m, Reading) && In(WakeAll(m - {t}), Reading) <= In(m, Reading)
  {
    forall x | x in In(WakeAll(m - {t}), Reading) ensures x in In(m, Reading) {
      assert Woken(m[x]) == Reading;
    }
  }

  lemma WakesNoReader(m: map<Thread, Phase>, t: Thread)
    ensures t in m ==> In(m[t := Woken(m[t])], Reading) <= In(m, Reading)
  {
  }

  lemma WaitersCounted(s: State)
    requires Inv(s)
    ensures s.writeWaitCount > 0 <==> WaitingWriters(s) != {}
  {
    CountBoth(s.phase, WriteSleeping, WriteWoken);
    hide In;
  }

  /** Writers come first: while a writer waits, no reader gets in. */
  lemma {:induction false} WriterPreference(s: State, events: seq<Event>, s': State)
    requires Reachable(s) && Path(s, events, s') && WriterWaits(s, events)
    ensures Readers(s') <= Readers(s)
  {
    ReachableInv(s);
    ReadersOnlyShrink(s, events, s');
  }

  lemma {:induction false} ReadersOnlyShrink(s: State, events: seq<Event>, s': State)
    requires Inv(s) && Path(s, events, s') && WriterWaits(s, events)
    ensures Readers(s') <= Readers(s)
    decreases |events|
  {
    hide Inv, Next, Enabled;
    if events != [] {
      StepKeepsInv(s, events[0]);
      ReadersShrink(s, events[0]);
      ReadersOnlyShrink(Next(s, events[0]), events[1..], s');
    }
  }

  // ---------------------------------------------------------------- the lock itself

  /**
   * The lock object. Each method is one critical section: from taking the mutex to `wait`, to the end of the call, or
   * to the explicit `unlock` in `readUnlock`. `phase` records where the threads are.
   */
  class Lock {
    var readCount: int
    var writeFlag: bool
    var writeWaitCount: int
    ghost var phase: map<Thread, Phase>

    ghost function Value(): State
      reads this
    {
      State(readCount, writeFlag, writeWaitCount, phase)
    }

    constructor ()
      ensures Value() == INITIAL
    {
      readCount := 0;
      writeFlag := false;
      writeWaitCount := 0;
      phase := map[];
    }

    /** From the start of `readLock`, or from a wakeup inside it. */
    method ReadLock(t: Thread) returns (entered: bool)
      modifies this
      ensures Value() == TryRead(old(Value()), t)
      ensures entered <==> t in Readers(Value())
      ensures !entered <==> t in In(phase, ReadSleeping)
    {
      if writeFlag || writeWaitCount > 0 {
        phase := phase[t := ReadSleeping];
        return false;
      }
      readCount := readCount + 1;
      phase := phase[t := Reading];
      return true;
    }

    method ReadUnlock(t: Thread) returns (mustNotify: bool)
      requires t in Readers(Value())
      modifies this
      ensures Value() == Next(old(Value()), Event.ReadUnlock(t))
      ensures mustNotify <==> t in In(phase, Notifying)
    {
      readCount := readCount - 1;
      if readCount == 0 {
        phase := phase[t := Notifying];
        return true;
      }
      phase := phase - {t};
      return false;
    }

    /** The `notify_all` of `readUnlock`, outside the mutex. */
    method ReadNotify(t: Thread)
      requires t in In(phase, Notifying)
      modifies `phase
      ensures Value() == Next(old(Value()), NotifyAll(t))
      ensures In(phase, ReadSleeping) == {} && In(phase, WriteSleeping) == {}
    {
      Sleepless(phase - {t});
      phase := WakeAll(phase - {t});
    }

    /** The first critical section of `writeLock`. */
    method WriteLock(t: Thread) returns (entered: bool)
      modifies this
      ensures Value() == Next(old(Value()), WriteEnter(t))
      ensures entered <==> t in Writers(Value())
      ensures !entered <==> t in In(phase, WriteSleeping)
    {
      writeWaitCount := writeWaitCount + 1;
      entered := WriteResume(t);
    }

    /** The loop test of `writeLock`, and what follows when it fails. */
    method WriteResume(t: Thread) returns (entered: bool)
      modifies this
      ensures Value() == TryWrite(old(Value()), t)
      ensures entered <==> t in Writers(Value())
      ensures !entered <==> t in In(phase, WriteSleeping)
    {
      if writeFlag || readCount > 0 {
        phase := phase[t := WriteSleeping];
        return false;
      }
      writeFlag := true;
      writeWaitCount := writeWaitCount - 1;
      phase := phase[t := Writing];
      return true;
    }

    method WriteUnlock(t: Thread)
      requires t in Writers(Value())
      modifies this
      ensures Value() == Next(old(Value()), Event.WriteUnlock(t))
      ensures In(phase, ReadSleeping) == {} && In(phase, WriteSleeping) == {}
    {
      writeFlag := false;
      Sleepless(phase - {t});
      phase := WakeAll(phase - {t});
    }
  }
}
