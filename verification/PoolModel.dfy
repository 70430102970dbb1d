/** The thread pool as a transition system. Every step is one atomic action: what a thread does
    while it holds the queue mutex, a notification, or the end of a task. */
module PoolModel {
  import opened Strings

  /** Tasks are opaque to the pool; a number stands for one. */
  type Task = nat

  /** `Ready`: about to take the mutex and evaluate the wait predicate. `Asleep`: blocked on the
      condition variable. `Running`: executing a task, without the mutex. */
  datatype Worker = Ready | Asleep | Running(task: Task) | Exited

  /** The shared state, followed by the history of the run: all tasks ever enqueued, those taken from
      the queue, both in order, and those that have finished. `notified` says whether the final
      `notify_all` has happened. */
  datatype State = State(
    workers: seq<Worker>,
    tasks: seq<Task>,
    stop: bool,
    notified: bool,
    enqueued: seq<Task>,
    taken: seq<Task>,
    finished: multiset<Task>)

  datatype Event =
    | Enqueue(task: Task, source: Option<nat>, wakes: Option<nat>)
    | Take(w: nat)
    | Sleep(w: nat)
    | Exit(w: nat)
    | Wake(w: nat)
    | Finish(w: nat)
    | Stop
    | NotifyAll

  function Init(n: nat): State {
    State(seq(n, _ => Ready), [], false, false, [], [], multiset{})
  }

  predicate HasWorker(s: State, w: nat, kind: Worker) {
    w < |s.workers| && s.workers[w] == kind
  }

  predicate NoneAsleep(s: State) {
    forall w | 0 <= w < |s.workers| :: s.workers[w] != Asleep
  }

  predicate AllExited(s: State) {
    forall w | 0 <= w < |s.workers| :: s.workers[w] == Exited
  }

  /** An enqueue comes from outside the pool or from a task running on one of its workers; its
      `notify_one` wakes one sleeping worker, any of them, if there is one. A ready worker takes a
      task, sleeps or exits according to the wait predicate and the check after it. A sleeping worker
      may wake up for no reason. */
  predicate Enabled(s: State, e: Event) {
    match e
    case Enqueue(_, source, wakes) =>
      && (source.Some? ==> source.value < |s.workers| && s.workers[source.value].Running?)
      && (if wakes.Some? then HasWorker(s, wakes.value, Asleep) else NoneAsleep(s))
    case Take(w) => HasWorker(s, w, Ready) && s.tasks != []
    case Sleep(w) => HasWorker(s, w, Ready) && !s.stop && s.tasks == []
    case Exit(w) => HasWorker(s, w, Ready) && s.stop && s.tasks == []
    case Wake(w) => HasWorker(s, w, Asleep)
    case Finish(w) => w < |s.workers| && s.workers[w].Running?
    case Stop => !s.stop
    case NotifyAll => s.stop && !s.notified
  }

  function SetWorker(s: State, w: nat, worker: Worker): State
    requires w < |s.workers|
  {
    s.(workers := s.workers[w := worker])
  }

  function WakeAll(workers: seq<Worker>): (woken: seq<Worker>)
    ensures |woken| == |workers|
    ensures forall w | 0 <= w < |workers| :: woken[w] == if workers[w] == Asleep then Ready else workers[w]
  {
    seq(|workers|, w requires 0 <= w < |workers| => if workers[w] == Asleep then Ready else workers[w])
  }

  function Apply(s: State, e: Event): State
    requires Enabled(s, e)
  {
    match e
    case Enqueue(task, _, wakes) =>
      var pushed := s.(tasks := s.tasks + [task], enqueued := s.enqueued + [task]);
      if wakes.Some? then SetWorker(pushed, wakes.value, Ready) else pushed
    case Take(w) =>
      SetWorker(s, w, Running(s.tasks[0])).(tasks := s.tasks[1..], taken := s.taken + [s.tasks[0]])
    case Sleep(w) => SetWorker(s, w, Asleep)
    case Exit(w) => SetWorker(s, w, Exited)
    case Wake(w) => SetWorker(s, w, Ready)
    case Finish(w) =>
      SetWorker(s, w, Ready).(finished := s.finished + multiset{s.workers[w].task})
    case Stop => s.(stop := true)
    case NotifyAll => s.(workers := WakeAll(s.workers), notified := true)
  }

  predicate ValidRun(s: State, events: seq<Event>)
    decreases |events|
  {
    events == [] || (Enabled(s, events[0]) && ValidRun(Apply(s, events[0]), events[1..]))
  }

  function Execute(s: State, events: seq<Event>): State
    requires ValidRun(s, events)
    decreases |events|
  {
    if events == [] then s else Execute(Apply(s, events[0]), events[1..])
  }

  /** The number of ready workers times `ready`, plus the number of running ones times `running`. */
  function Weigh(workers: seq<Worker>, ready: nat, running: nat): nat {
    if workers == [] then 0
    else WeighOne(workers[0], ready, running) + Weigh(workers[1..], ready, running)
  }

  function WeighOne(worker: Worker, ready: nat, running: nat): nat {
    match worker
    case Ready => ready
    case Running(_) => running
    case _ => 0
  }

  function ReadyCount(s: State): nat {
    Weigh(s.workers, 1, 0)
  }

  /** The tasks that are being executed. */
  function RunningTasks(workers: seq<Worker>): multiset<Task> {
    if workers == [] then multiset{}
    else RunningOne(workers[0]) + RunningTasks(workers[1..])
  }

  function RunningOne(worker: Worker): multiset<Task> {
    if worker.Running? then multiset{worker.task} else multiset{}
  }

  lemma {:induction false} WeighUpdate(workers: seq<Worker>, w: nat, worker: Worker, ready: nat, running: nat)
    requires w < |workers|
    ensures Weigh(workers[w := worker], ready, running) + WeighOne(workers[w], ready, running)
         == Weigh(workers, ready, running) + WeighOne(worker, ready, running)
  {
    if w > 0 {
      WeighUpdate(workers[1..], w - 1, worker, ready, running);
      assert workers[w := worker][1..] == workers[1..][w - 1 := worker];
    } else {
      assert workers[w := worker][1..] == workers[1..];
    }
  }

  lemma {:induction false} CopiesUpdate(workers: seq<Worker>, w: nat, worker: Worker, task: Task)
    requires w < |workers|
    ensures RunningTasks(workers[w := worker])[task] + RunningOne(workers[w])[task]
         == RunningTasks(workers)[task] + RunningOne(worker)[task]
  {
    if w > 0 {
      CopiesUpdate(workers[1..], w - 1, worker, task);
      assert workers[w := worker][1..] == workers[1..][w - 1 := worker];
    } else {
      assert workers[w := worker][1..] == workers[1..];
    }
  }

  lemma RunningUpdate(workers: seq<Worker>, w: nat, worker: Worker)
    requires w < |workers|
    ensures RunningTasks(workers[w := worker]) + RunningOne(workers[w])
         == RunningTasks(workers) + RunningOne(worker)
  {
    forall task: Task {
      CopiesUpdate(workers, w, worker, task);
    }
  }

  lemma {:induction false} WakeAllRunning(workers: seq<Worker>)
    ensures RunningTasks(WakeAll(workers)) == RunningTasks(workers)
  {
    if workers != [] {
      var woken := WakeAll(workers);
      assert woken[1..] == WakeAll(workers[1..]);
      calc {
        RunningTasks(woken);
        RunningOne(woken[0]) + RunningTasks(woken[1..]);
        { WakeAllRunning(workers[1..]); }
        RunningOne(workers[0]) + RunningTasks(workers[1..]);
        RunningTasks(workers);
      }
    }
  }

  lemma {:induction false} WeighPositive(workers: seq<Worker>, w: nat, ready: nat, running: nat)
    requires w < |workers|
    ensures Weigh(workers, ready, running) >= WeighOne(workers[w], ready, running)
  {
    if w > 0 {
      WeighPositive(workers[1..], w - 1, ready, running);
    }
  }

  lemma {:induction false} WeighZero(workers: seq<Worker>, ready: nat, running: nat)
    requires forall w | 0 <= w < |workers| :: WeighOne(workers[w], ready, running) == 0
    ensures Weigh(workers, ready, running) == 0
  {
    if workers != [] {
      WeighZero(workers[1..], ready, running);
    }
  }

  lemma {:induction false} NoneRunning(workers: seq<Worker>)
    requires forall w | 0 <= w < |workers| :: !workers[w].Running?
    ensures RunningTasks(workers) == multiset{}
  {
    if workers != [] {
      NoneRunning(workers[1..]);
    }
  }
}
