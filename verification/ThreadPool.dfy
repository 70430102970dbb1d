/** The thread pool class. Each method is one atomic action of the transition system, proved to be
    the corresponding step; the destructor is a whole run. */
module ThreadPool {
  import opened Strings
  import opened PoolModel
  import opened PoolTheorems

  class ThreadPool {
    var threads: seq<Worker>
    var tasks: seq<Task>
    var stop: bool
    ghost var notified: bool
    ghost var enqueued: seq<Task>
    ghost var taken: seq<Task>
    ghost var finished: multiset<Task>

    ghost function View(): State
      reads this
    {
      State(threads, tasks, stop, notified, enqueued, taken, finished)
    }

    constructor (hardwareConcurrency: nat)
      ensures View() == Init(hardwareConcurrency) && Inv(View())
      ensures threads == seq(hardwareConcurrency, _ => Ready) && tasks == [] && !stop
    {
      threads, tasks, stop := [], [], false;
      notified, enqueued, taken, finished := false, [], [], multiset{};
      new;
      StartPool(hardwareConcurrency);
      InitInv(hardwareConcurrency);
    }

    method StartPool(numThreads: nat)
      requires threads == []
      modifies this`threads
      ensures threads == seq(numThreads, _ => Ready)
    {
      var i := 0;
      while i < numThreads
        invariant i <= numThreads
        invariant threads == seq(i, _ => Ready)
      {
        threads := threads + [Ready];
        i := i + 1;
      }
    }

    /** Pushes a task and notifies one waiting worker; which one is not determined. */
    method EnqueueTask(task: Task, ghost source: Option<nat>) returns (ghost e: Event)
      requires source.Some? ==> source.value < |threads| && threads[source.value].Running?
      modifies this
      ensures e.Enqueue? && e.task == task && e.source == source
      ensures Enabled(old(View()), e) && View() == Apply(old(View()), e)
      ensures tasks == old(tasks) + [task] && enqueued == old(enqueued) + [task]
      ensures unchanged(`stop) && unchanged(`taken) && unchanged(`finished)
      ensures if forall w | 0 <= w < |threads| :: old(threads[w]) != Asleep then threads == old(threads)
              else exists w | 0 <= w < |threads| :: old(threads[w]) == Asleep && threads == old(threads)[w := Ready]
    {
      tasks := tasks + [task];
      enqueued := enqueued + [task];
      if w: nat :| w < |threads| && threads[w] == Asleep {
        threads := threads[w := Ready];
        e := Enqueue(task, source, Some(w));
      } else {
        e := Enqueue(task, source, None);
      }
    }

    /** What a ready worker does under the mutex: it waits, returns, or takes the front task. */
    method Turn(w: nat) returns (ghost e: Event)
      requires w < |threads| && threads[w] == Ready
      modifies this
      ensures e == if old(tasks) != [] then Take(w) else if stop then Exit(w) else Sleep(w)
      ensures Enabled(old(View()), e) && View() == Apply(old(View()), e)
      ensures if old(tasks) != [] then
                && threads == old(threads)[w := Running(old(tasks)[0])]
                && tasks == old(tasks)[1..] && taken == old(taken) + [old(tasks)[0]]
              else
                && threads == old(threads)[w := if stop then Exited else Asleep]
                && tasks == [] && taken == old(taken)
      ensures unchanged(`stop) && unchanged(`enqueued) && unchanged(`finished)
    {
      if !(stop || tasks != []) {
        threads := threads[w := Asleep];
        return Sleep(w);
      }
      if stop && tasks == [] {
        threads := threads[w := Exited];
        return Exit(w);
      }
      var task := tasks[0];
      tasks := tasks[1..];
      taken := taken + [task];
      threads := threads[w := Running(task)];
      e := Take(w);
    }

    /** A task returns, and its worker goes back to the head of its loop. */
    method TaskDone(w: nat)
      requires w < |threads| && threads[w].Running?
      modifies this`threads, this`finished
      ensures View() == Apply(old(View()), Finish(w))
      ensures threads == old(threads)[w := Ready] && finished == old(finished) + multiset{old(threads)[w].task}
    {
      finished := finished + multiset{threads[w].task};
      threads := threads[w := Ready];
    }

    /** A sleeping worker wakes up for no reason. */
    method WakeUp(w: nat)
      requires w < |threads| && threads[w] == Asleep
      modifies this`threads
      ensures View() == Apply(old(View()), Wake(w))
      ensures threads == old(threads)[w := Ready]
    {
      threads := threads[w := Ready];
    }

    method StopPool()
      requires !stop
      modifies this`stop
      ensures View() == Apply(old(View()), Stop) && stop
    {
      stop := true;
    }

    method NotifyEveryone()
      requires stop && !notified
      modifies this`threads, this`notified
      ensures View() == Apply(old(View()), NotifyAll)
      ensures notified && |threads| == old(|threads|)
      ensures forall w | 0 <= w < |threads| ::
                threads[w] == if old(threads)[w] == Asleep then Ready else old(threads)[w]
    {
      threads := WakeAll(threads);
      notified := true;
    }

    /** The destructor: stop, notify all, and join. Before the notification, after which nobody sleeps,
        the workers take any number of steps; then they run until all have exited. The scheduler lets
        any worker that has not exited take the next step, sleepers wake for no reason, and running
        tasks enqueue up to any number of new tasks. Every schedule ends, with every worker gone; a
        pool that has workers leaves no task unfinished, old or new. */
    method Destroy()
      requires Inv(View()) && !stop
      modifies this
      ensures Inv(View()) && AllExited(View()) && |threads| == old(|threads|)
      ensures old(enqueued) <= enqueued
      ensures threads != [] ==> tasks == [] && taken == enqueued && finished == multiset(enqueued)
    {
      hide Inv, LeftBehind, Measure;
      var window: nat := *;
      var enqueues: nat := *;
      StopStep(View());
      StopPool();
      while window > 0 && exists w: nat :: w < |threads| && threads[w] != Exited
        invariant Inv(View()) && stop && !notified && |threads| == old(|threads|) && old(enqueued) <= enqueued
        invariant threads != [] ==> LeftBehind(View(), [])
      {
        var w: nat :| w < |threads| && threads[w] != Exited;
        enqueues := WorkerStep(w, enqueues);
        window := window - 1;
      }
      NotifyStep(View());
      NotifyEveryone();
      while exists w: nat :: w < |threads| && threads[w] != Exited
        invariant Inv(View()) && stop && notified && |threads| == old(|threads|) && old(enqueued) <= enqueued
        invariant threads != [] ==> LeftBehind(View(), [])
        decreases enqueues, Measure(View())
      {
        var w: nat :| w < |threads| && threads[w] != Exited;
        enqueues := WorkerStep(w, enqueues);
      }
      if threads != [] {
        AllDone(View());
      }
    }

    /** One step of a worker that has not exited, after stop; `enqueues` tasks may still be enqueued. */
    method WorkerStep(w: nat, enqueues: nat) returns (left: nat)
      requires Inv(View()) && stop && w < |threads| && threads[w] != Exited && LeftBehind(View(), [])
      modifies this
      ensures Inv(View()) && stop && LeftBehind(View(), [])
      ensures notified == old(notified) && |threads| == old(|threads|) && old(enqueued) <= enqueued
      ensures left < enqueues || (left == enqueues && (notified ==> Measure(View()) < old(Measure(View()))))
    {
      hide Inv, LeftBehind, Measure, Apply;
      ghost var s, e := View(), Wake(w);
      left := enqueues;
      match threads[w] {
        case Ready =>
          e := Turn(w);
        case Asleep =>
          WakeUp(w);
        case Running(_) =>
          var another: bool := *;
          if another && enqueues > 0 {
            var task: Task := *;
            e := EnqueueTask(task, Some(w));
            left := enqueues - 1;
          } else {
            e := Finish(w);
            TaskDone(w);
          }
      }
      assert View() == Apply(s, e);
      StepAfterStop(s, e);
    }
  }
}
