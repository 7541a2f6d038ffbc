/**
 * The job queue of a pool of worker threads: a list of waiting jobs under a mutex, and a condition variable on which
 * idle workers sleep. A step is what one thread does while it has the mutex, or the end of a job.
 */
module WorkQueue {

  type Worker = int

  class Job {
    var prev: Job?
    var next: Job?

    constructor () {
      prev, next := null, null;
    }
  }

  /** A worker is about to look for a job (or was just woken), asleep, or running a job. */
  datatype Phase = Awake | Asleep | Running(job: Job)

  /** `stack`: the waiting jobs, next one first. */
  datatype State = State(stack: seq<Job>, workers: map<Worker, Phase>, done: set<Job>)

  datatype Event = Add(job: Job, woken: set<Worker>) | Look(w: Worker) | Finish(w: Worker) | Spurious(w: Worker)

  ghost function Sleepers(s: State): set<Worker> {
    set w | w in s.workers && s.workers[w] == Asleep
  }

  ghost function AwakeWorkers(s: State): set<Worker> {
    set w | w in s.workers && s.workers[w] != Asleep
  }

  ghost function RunningJobs(s: State): set<Job> {
    set w | w in s.workers && s.workers[w].Running? :: s.workers[w].job
  }

  function Wake(workers: map<Worker, Phase>, woken: set<Worker>): map<Worker, Phase> {
    map w | w in workers :: if w in woken then Awake else workers[w]
  }

  /** `pthread_cond_signal` wakes at least one sleeper if there is any. */
  ghost predicate Enabled(s: State, e: Event) {
    match e
    case Add(j, woken) =>
      && j !in s.stack && j !in RunningJobs(s) && j !in s.done
      && woken <= Sleepers(s) && (Sleepers(s) != {} ==> woken != {})
    case Look(w) => w in s.workers && s.workers[w] == Awake
    case Finish(w) => w in s.workers && s.workers[w].Running?
    case Spurious(w) => w in Sleepers(s)
  }

  function Next(s: State, e: Event): State {
    match e
    case Add(j, woken) => s.(stack := [j] + s.stack, workers := Wake(s.workers, woken))
    case Look(w) =>
      if s.stack == [] then s.(workers := s.workers[w := Asleep])
      else s.(stack := s.stack[1..], workers := s.workers[w := Running(s.stack[0])])
    case Finish(w) =>
      if w in s.workers && s.workers[w].Running? then
        s.(workers := s.workers[w := Awake], done := s.done + {s.workers[w].job})
      else s
    case Spurious(w) => s.(workers := s.workers[w := Awake])
  }

  ghost predicate Path(s: State, events: seq<Event>, s': State)
    decreases |events|
  {
    if events == [] then s == s'
    else Enabled(s, events[0]) && Path(Next(s, events[0]), events[1..], s')
  }

  ghost predicate Initial(s: State) {
    s.stack == [] && s.done == {} && s.workers.Keys != {} && forall w :: w in s.workers ==> s.workers[w] == Awake
  }

  /** The jobs handed to the queue in a run. */
  ghost function Added(events: seq<Event>): set<Job> {
    if events == [] then {} else (if events[0].Add? then {events[0].job} else {}) + Added(events[1..])
  }

  // ---------------------------------------------------------------- the invariant

  /** No job is in two places: waiting twice, running twice, or waiting, running and done at once. */
  ghost predicate Once(s: State) {
    && (forall i, j :: 0 <= i < j < |s.stack| ==> s.stack[i] != s.stack[j])
    && (forall j :: j in s.stack ==> j !in RunningJobs(s) && j !in s.done)
    && (forall j :: j in RunningJobs(s) ==> j !in s.done)
    && (forall v, w ::
          v in s.workers && w in s.workers && s.workers[v].Running? && s.workers[v] == s.workers[w] ==> v == w)
  }

  /** Nobody sleeps, or there are enough awake workers for the waiting jobs. */
  ghost predicate Served(s: State) {
    s.workers.Keys != {} && (Sleepers(s) == {} || |s.stack| <= |AwakeWorkers(s)|)
  }

  ghost predicate Inv(s: State) {
    Once(s) && Served(s)
  }

  ghost function Jobs(s: State): set<Job> {
    (set j | j in s.stack) + RunningJobs(s) + s.done
  }

  lemma RunningAfter(s: State, w: Worker, p: Phase)
    requires w in s.workers
    ensures var s' := s.(workers := s.workers[w := p]);
            forall j :: j in RunningJobs(s') <==>
                          (p.Running? && j == p.job)
                          || exists v :: v in s.workers && v != w && s.workers[v] == Running(j)
  {
    var s' := s.(workers := s.workers[w := p]);
    forall j | j in RunningJobs(s')
      ensures (p.Running? && j == p.job) || exists v :: v in s.workers && v != w && s.workers[v] == Running(j)
    {
      var v :| v in s'.workers && s'.workers[v].Running? && s'.workers[v].job == j;
      assert v != w ==> s.workers[v] == Running(j);
    }
    forall j | exists v :: v in s.workers && v != w && s.workers[v] == Running(j) ensures j in RunningJobs(s') {
      var v :| v in s.workers && v != w && s.workers[v] == Running(j);
      assert s'.workers[v] == Running(j);
    }
    if p.Running? {
      assert s'.workers[w] == p;
    }
  }

  /** Waking sleepers stops nobody. */
  lemma AddMovesSleepers(s: State, j: Job, woken: set<Worker>)
    requires woken <= Sleepers(s)
    ensures var s' := Next(s, Add(j, woken));
            && s'.workers.Keys == s.workers.Keys && RunningJobs(s') == RunningJobs(s)
            && AwakeWorkers(s') == AwakeWorkers(s) + woken && Sleepers(s') == Sleepers(s) - woken
            && forall w :: w in s.workers && s'.workers[w].Running? ==> s'.workers[w] == s.workers[w]
  {
    var s' := Next(s, Add(j, woken));
    forall w | w in s.workers ensures s'.workers[w].Running? <==> s.workers[w].Running? {}
  }

  lemma AddKeepsOnce(s: State, j: Job, woken: set<Worker>)
    requires Once(s) && Enabled(s, Add(j, woken))
    ensures Once(Next(s, Add(j, woken)))
    ensures Jobs(Next(s, Add(j, woken))) == Jobs(s) + {j}
  {
    AddMovesSleepers(s, j, woken);
    hide RunningJobs, Sleepers, AwakeWorkers, Wake;
  }

  lemma AddKeepsServed(s: State, j: Job, woken: set<Worker>)
    requires Served(s) && Enabled(s, Add(j, woken))
    ensures Served(Next(s, Add(j, woken)))
  {
    AddMovesSleepers(s, j, woken);
    assert AwakeWorkers(s) !! Sleepers(s);
    hide RunningJobs, Sleepers, AwakeWorkers, Wake;
    assert |AwakeWorkers(s) + woken| == |AwakeWorkers(s)| + |woken|;
  }

  lemma AddKeepsInv(s: State, j: Job, woken: set<Worker>)
    requires Inv(s) && Enabled(s, Add(j, woken))
    ensures Inv(Next(s, Add(j, woken)))
    ensures Jobs(Next(s, Add(j, woken))) == Jobs(s) + {j}
  {
    hide Once, Served, Jobs, Next, Enabled;
    AddKeepsOnce(s, j, woken);
    AddKeepsServed(s, j, woken);
  }

  lemma LookKeepsInv(s: State, w: Worker)
    requires Inv(s) && Enabled(s, Look(w))
    ensures Inv(Next(s, Look(w))) && Jobs(Next(s, Look(w))) == Jobs(s)
  {
    var s' := Next(s, Look(w));
    RunningAfter(s, w, s'.workers[w]);
    RunningAfter(s, w, Awake);
    if s.stack == [] {
      assert RunningJobs(s') == RunningJobs(s);
    } else {
      assert RunningJobs(s') == RunningJobs(s) + {s.stack[0]};
      assert forall j :: j in s.stack <==> j == s.stack[0] || j in s'.stack;
      assert Sleepers(s') == Sleepers(s) && AwakeWorkers(s') == AwakeWorkers(s);
    }
  }

  lemma FinishKeepsInv(s: State, w: Worker)
    requires Inv(s) && Enabled(s, Finish(w))
    ensures Inv(Next(s, Finish(w))) && Jobs(Next(s, Finish(w))) == Jobs(s)
  {
    var s' := Next(s, Finish(w));
    RunningAfter(s, w, Awake);
    assert s.workers[w].job in RunningJobs(s);
    assert RunningJobs(s') == RunningJobs(s) - {s.workers[w].job};
    assert Sleepers(s') == Sleepers(s) && AwakeWorkers(s') == AwakeWorkers(s);
  }

  lemma SpuriousKeepsInv(s: State, w: Worker)
    requires Inv(s) && Enabled(s, Spurious(w))
    ensures Inv(Next(s, Spurious(w))) && Jobs(Next(s, Spurious(w))) == Jobs(s)
  {
    var s' := Next(s, Spurious(w));
    RunningAfter(s, w, Awake);
    assert RunningJobs(s') == RunningJobs(s);
    assert AwakeWorkers(s') == AwakeWorkers(s) + {w};
  }

  lemma {:induction false} PathKeepsInv(s: State, events: seq<Event>, s': State)
    requires Inv(s) && Path(s, events, s')
    ensures Inv(s') && Jobs(s') == Jobs(s) + Added(events)
    decreases |events|
  {
    hide Inv, Next, Jobs;
    if events != [] {
      var e := events[0];
      match e {
        case Add(j, woken) => AddKeepsInv(s, j, woken);
        case Look(w) => LookKeepsInv(s, w);
        case Finish(w) => FinishKeepsInv(s, w);
        case Spurious(w) => SpuriousKeepsInv(s, w);
      }
      PathKeepsInv(Next(s, e), events[1..], s');
    }
  }

  lemma InitialInv(s: State)
    requires Initial(s)
    ensures Inv(s) && Jobs(s) == {}
  {
    assert forall w :: w !in Sleepers(s);
    assert RunningJobs(s) == {} && Sleepers(s) == {};
  }

  // ---------------------------------------------------------------- what every run guarantees

  /** The jobs added so far are exactly those waiting, running or done, and each is in one of these places only. */
  lemma EveryJobExactlyOnce(init: State, events: seq<Event>, s: State)
    requires Initial(init) && Path(init, events, s)
    ensures Added(events) == (set j | j in s.stack) + RunningJobs(s) + s.done
    ensures Once(s)
  {
    InitialInv(init);
    PathKeepsInv(init, events, s);
  }

  /** Waiting jobs are never left with every worker asleep: there is an awake worker for each, or all are awake. */
  lemma WaitingJobsAreServed(init: State, events: seq<Event>, s: State)
    requires Initial(init) && Path(init, events, s)
    ensures Sleepers(s) == {} || |s.stack| <= |AwakeWorkers(s)|
    ensures s.stack != [] ==> AwakeWorkers(s) != {}
  {
    InitialInv(init);
    PathKeepsInv(init, events, s);
    if Sleepers(s) == {} {
      assert AwakeWorkers(s) == s.workers.Keys by {
        assert forall w :: w in s.workers ==> w in Sleepers(s) || w in AwakeWorkers(s);
      }
    }
  }

  // ---------------------------------------------------------------- what each step does, over every run

  /** Every worker but `w` does what it did. */
  ghost predicate OthersStay(s: State, s': State, w: Worker) {
    && s'.workers.Keys == s.workers.Keys
    && forall v :: v in s.workers && v != w ==> s'.workers[v] == s.workers[v]
  }

  /** A worker that looks for a job sleeps exactly if none waits; otherwise it runs the one in front. */
  lemma LookRunsOrSleeps(s: State, w: Worker)
    requires Enabled(s, Look(w))
    ensures var s' := Next(s, Look(w));
            && OthersStay(s, s', w) && s'.done == s.done
            && (w in Sleepers(s') <==> s.stack == [])
            && (s.stack != [] ==> s'.workers[w] == Running(s.stack[0]))
            && (s.stack != [] ==> s.stack == [s.stack[0]] + s'.stack)
            && (s.stack == [] ==> s'.stack == [])
  {
  }

  /** The job `a` was added after the job `b`. */
  ghost predicate AddedAfter(events: seq<Event>, a: Job, b: Job) {
    exists i, j :: 0 <= j < i < |events| && events[i].Add? && events[i].job == a && events[j].Add? && events[j].job == b
  }

  ghost predicate WasAdded(events: seq<Event>, j: Job) {
    exists i :: 0 <= i < |events| && events[i].Add? && events[i].job == j
  }

  /** The waiting jobs in the reverse order of their being added. */
  ghost predicate LastAddedFirst(events: seq<Event>, stack: seq<Job>) {
    && (forall j :: j in stack ==> WasAdded(events, j))
    && forall i, j :: 0 <= i < j < |stack| ==> AddedAfter(events, stack[i], stack[j])
  }

  lemma StepKeepsLifo(past: seq<Event>, s: State, e: Event)
    requires LastAddedFirst(past, s.stack) && Enabled(s, e)
    ensures LastAddedFirst(past + [e], Next(s, e).stack)
  {
    var now, stack' := past + [e], Next(s, e).stack;
    forall j | WasAdded(past, j) ensures WasAdded(now, j) {
      var i :| 0 <= i < |past| && past[i].Add? && past[i].job == j;
      assert now[i] == past[i];
    }
    forall a, b | AddedAfter(past, a, b) ensures AddedAfter(now, a, b) {
      var i, j :| 0 <= j < i < |past| && past[i].Add? && past[i].job == a && past[j].Add? && past[j].job == b;
      assert now[i] == past[i] && now[j] == past[j];
    }
    if e.Add? {
      assert now[|past|] == e;
      forall b | b in s.stack ensures AddedAfter(now, e.job, b) {
        var j :| 0 <= j < |past| && past[j].Add? && past[j].job == b;
        assert now[j] == past[j];
      }
    }
  }

  lemma {:induction false} PathIsLifo(past: seq<Event>, s: State, events: seq<Event>, s': State)
    requires LastAddedFirst(past, s.stack) && Path(s, events, s')
    ensures LastAddedFirst(past + events, s'.stack)
    decreases |events|
  {
    hide LastAddedFirst, Next, Enabled;
    if events == [] {
      assert past + events == past;
    } else {
      StepKeepsLifo(past, s, events[0]);
      assert past + events == past + [events[0]] + events[1..];
      PathIsLifo(past + [events[0]], Next(s, events[0]), events[1..], s');
    }
  }

  /** Over every run the job that is taken next is, of those waiting, the one added last. */
  lemma LastAddedIsNext(init: State, events: seq<Event>, s: State, j: Job)
    requires Initial(init) && Path(init, events, s) && s.stack != [] && j in s.stack
    ensures j == s.stack[0] || AddedAfter(events, s.stack[0], j)
  {
    PathIsLifo([], init, events, s);
    assert [] + events == events;
  }

  /** An added job waits in front; it wakes sleepers only, at least one if there is any, and nobody stops running. */
  lemma AddWakesOne(s: State, j: Job, woken: set<Worker>)
    requires Enabled(s, Add(j, woken))
    ensures var s' := Next(s, Add(j, woken));
            && s'.stack == [j] + s.stack && s'.done == s.done && RunningJobs(s') == RunningJobs(s)
            && s'.workers.Keys == s.workers.Keys && Sleepers(s') == Sleepers(s) - woken
            && (Sleepers(s) != {} ==> Sleepers(s') < Sleepers(s))
            && forall w :: w in s.workers && w !in woken ==> s'.workers[w] == s.workers[w]
  {
    AddMovesSleepers(s, j, woken);
    if Sleepers(s) != {} {
      assert (forall w :: w !in woken) ==> woken == {};
      var w :| w in woken;
      assert w in Sleepers(s) && w !in Sleepers(s) - woken;
    }
  }

  /** A finished job is done, and its worker looks again. */
  lemma FinishIsDone(s: State, w: Worker)
    requires Enabled(s, Finish(w))
    ensures var s' := Next(s, Finish(w));
            && OthersStay(s, s', w) && s'.stack == s.stack && s.workers[w].job in s'.done
            && s'.done == s.done + {s.workers[w].job} && s'.workers[w] == Awake
  {
  }

  // ---------------------------------------------------------------- the linked queue

  ghost function Follower(stack: seq<Job>, i: int): Job?
    requires 0 <= i < |stack|
  {
    if i + 1 < |stack| then stack[i + 1] else null
  }

  /** LL_REMOVE: unlinks `item` from its neighbours and from the head of the list. */
  method Unlink(item: Job, list: Job?) returns (rest: Job?)
    requires item.prev != item && item.next != item
    modifies item, item.prev, item.next
    ensures rest == if list == item then old(item.next) else list
    ensures item.prev == null && item.next == null
    ensures old(item.prev) != null ==> old(item.prev).next == old(item.next)
    ensures old(item.next) != null ==> old(item.next).prev == old(item.prev)
    ensures old(item.next) != null && old(item.next) != old(item.prev) ==> old(item.next).next == old(item.next.next)
    ensures old(item.prev) != null && old(item.prev) != old(item.next) ==> old(item.prev).prev == old(item.prev.prev)
  {
    rest := list;
    if item.prev != null {
      item.prev.next := item.next;
    }
    if item.next != null {
      item.next.prev := item.prev;
    }
    if rest == item {
      rest := item.next;
    }
    item.prev, item.next := null, null;
  }

  /** `stack` lists the jobs that `next` links from `waitingJobs`; no `prev` pointer is ever set. */
  class Queue {
    var waitingJobs: Job?
    ghost var stack: seq<Job>
    ghost var workers: map<Worker, Phase>
    ghost var done: set<Job>

    ghost predicate Valid()
      reads this, stack
    {
      && waitingJobs == (if stack == [] then null else stack[0])
      && (forall i :: 0 <= i < |stack| ==> stack[i].prev == null)
      && (forall i {:trigger Follower(stack, i)} :: 0 <= i < |stack| ==> stack[i].next == Follower(stack, i))
      && (forall i, j :: 0 <= i < j < |stack| ==> stack[i] != stack[j])
    }

    ghost function Value(): State
      reads this
    {
      State(stack, workers, done)
    }

    constructor (ghost pool: set<Worker>)
      requires pool != {}
      ensures Valid() && Initial(Value()) && workers.Keys == pool
    {
      waitingJobs := null;
      stack := [];
      workers := map w | w in pool :: Awake;
      done := {};
    }

    /** LL_ADD in front, then the signal. */
    method AddJob(job: Job, ghost woken: set<Worker>)
      requires Valid() && Enabled(Value(), Add(job, woken))
      modifies this, job
      ensures Valid() && Value() == Next(old(Value()), Add(job, woken))
      ensures waitingJobs == job && stack == [job] + old(stack)
    {
      hide RunningJobs, Sleepers, Wake;
      ghost var before := stack;
      job.prev := null;
      job.next := waitingJobs;
      waitingJobs := job;
      stack := [job] + stack;
      forall i | 0 <= i < |stack| ensures stack[i].prev == null && stack[i].next == Follower(stack, i) {
        if i > 0 {
          assert stack[i] == before[i - 1] && old(before[i - 1].next) == Follower(before, i - 1);
        }
      }
      workers := Wake(workers, woken);
    }

    /** A worker with the mutex: it takes the job in front, by LL_REMOVE, or goes to sleep. */
    method TakeJob(w: Worker) returns (job: Job?)
      requires Valid() && Enabled(Value(), Look(w))
      modifies this, stack
      ensures Valid() && Value() == Next(old(Value()), Look(w))
      ensures job == if old(stack) == [] then null else old(stack)[0]
      ensures w in workers && workers[w] == if job == null then Asleep else Running(job)
      ensures job != null ==> job.prev == null && job.next == null
    {
      job := waitingJobs;
      if job == null {
        workers := workers[w := Asleep];
        return;
      }
      ghost var before := stack;
      assert job.next == Follower(before, 0);
      assert |before| > 1 ==> job.next == before[1];
      waitingJobs := Unlink(job, waitingJobs);
      workers := workers[w := Running(job)];
      stack := stack[1..];
      forall i | 0 <= i < |stack| ensures stack[i].prev == null && stack[i].next == Follower(stack, i) {
        assert stack[i] == before[i + 1] && old(before[i + 1].next) == Follower(before, i + 1);
      }
    }

    /** The job function has returned. */
    ghost method FinishJob(w: Worker)
      requires Valid() && Enabled(Value(), Finish(w))
      modifies this
      ensures Valid() && Value() == Next(old(Value()), Finish(w))
      ensures old(workers[w].job) in done && workers[w] == Awake && stack == old(stack)
    {
      done := done + {workers[w].job};
      workers := workers[w := Awake];
    }
  }
}
