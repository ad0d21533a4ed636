/**
 * The bounded-concurrency sequential task executor and the FIFO task queue it
 * owns.
 *
 * The executor's bookkeeping is mutated in place, as in the original: the
 * ceiling `maxExecutingTasksCount`, the `executingTasks` array with its cached
 * count, and the queue object handed over at construction. Each mutating
 * method is proved to move the executor's schedule exactly as the
 * corresponding function of module Admission does. Two ghost logs record what
 * the original only makes observable: `countLog` holds every value the count
 * signal has emitted, and `startedTasks` holds the tasks handed to the
 * underlying executor, in order.
 */
module Scheduling {
  import opened Wrappers
  import opened Sequences
  import opened Admission

  /** The pending-task queue: first in, first out, with removal of a task that is still waiting. */
  class TaskQueue<T(==)> {
    var items: seq<T>

    constructor ()
      ensures items == []
    {
      items := [];
    }

    method Enqueue(task: T)
      modifies this
      ensures items == old(items) + [task]
    {
      items := items + [task];
    }

    /** The front task, or None when nothing is waiting; never fails. */
    method DequeueNext() returns (next: Option<T>)
      modifies this
      ensures old(items) == [] ==> next == None && items == []
      ensures old(items) != [] ==> next == Some(old(items)[0]) && items == old(items)[1..]
    {
      if items == [] {
        next := None;
      } else {
        next := Some(items[0]);
        items := items[1..];
      }
    }

    /** Withdraws a task that has not been started; reports whether it was waiting. */
    method Remove(task: T) returns (removed: bool)
      modifies this
      ensures removed <==> task in old(items)
      ensures items == Erase(old(items), task)
    {
      removed := task in items;
      items := Erase(items, task);
    }

    method Size() returns (n: nat)
      ensures n == |items|
    {
      n := |items|;
    }
  }

  class SequentialTaskExecutor<T(==)> {
    /** The ceiling on simultaneously executing tasks; the original's NSInteger, so any integer. */
    var maxExecutingTasksCount: int
    var executingTasks: seq<T>
    /** Cached length of `executingTasks`. */
    var executingTasksCount: nat
    const taskQueue: TaskQueue<T>
    /** Every value the count signal has emitted; its last element is the value replayed to a new subscriber. */
    ghost var countLog: seq<nat>
    /** The tasks handed to the underlying executor's run step, in order. */
    ghost var startedTasks: seq<T>

    ghost predicate Valid()
      reads this, taskQueue
    {
      && executingTasksCount == |executingTasks|
      && countLog != []
      && countLog[|countLog| - 1] == executingTasksCount
      && NoDuplicates(executingTasks + taskQueue.items)
    }

    /** The executor's bookkeeping as a value. */
    ghost function Snapshot(): Schedule<T>
      reads this, taskQueue
    {
      Schedule(executingTasks, taskQueue.items)
    }

    constructor (queue: TaskQueue<T>)
      requires NoDuplicates(queue.items)
      ensures Valid()
      ensures taskQueue == queue && queue.items == old(queue.items)
      ensures maxExecutingTasksCount == 1
      ensures executingTasks == [] && executingTasksCount == 0
      ensures countLog == [0] && startedTasks == []
    {
      maxExecutingTasksCount := 1;
      executingTasks := [];
      executingTasksCount := 0;
      taskQueue := queue;
      countLog := [0];
      startedTasks := [];
    }

    /** The count a new subscriber to the count signal receives first. */
    ghost function ReplayedCount(): (n: nat)
      reads this, taskQueue
      requires Valid()
      ensures n == |executingTasks|
    {
      countLog[|countLog| - 1]
    }

    method ExecutingTasksCount() returns (n: nat)
      requires Valid()
      ensures n == |executingTasks|
    {
      n := executingTasksCount;
    }

    /** A copy of the executing tasks, in the order they were started. */
    method ExecutingTasks() returns (tasks: seq<T>)
      requires Valid()
      ensures tasks == executingTasks && |tasks| == executingTasksCount
    {
      tasks := executingTasks;
    }

    /** Changes the ceiling only: running tasks are never preempted and nothing is started. */
    method SetMaxExecutingTasksCount(limit: int)
      requires Valid()
      modifies this`maxExecutingTasksCount
      ensures Valid()
      ensures maxExecutingTasksCount == limit
      ensures executingTasks == old(executingTasks) && executingTasksCount == old(executingTasksCount)
      ensures unchanged(taskQueue) && countLog == old(countLog) && startedTasks == old(startedTasks)
    {
      maxExecutingTasksCount := limit;
    }

    /** Admission: track the task, emit the new count and start it on the underlying executor. */
    method Admit(task: T)
      requires executingTasksCount == |executingTasks|
      modifies this
      ensures executingTasks == old(executingTasks) + [task]
      ensures executingTasksCount == old(executingTasksCount) + 1
      ensures countLog == old(countLog) + [executingTasksCount]
      ensures startedTasks == old(startedTasks) + [task]
      ensures maxExecutingTasksCount == old(maxExecutingTasksCount)
    {
      executingTasks := executingTasks + [task];
      executingTasksCount := executingTasksCount + 1;
      countLog := countLog + [executingTasksCount];
      startedTasks := startedTasks + [task];
    }

    /** Submission: the task joins the back of the queue and the queue is drained. */
    method SubmitTask(task: T)
      requires Valid()
      requires task !in executingTasks && task !in taskQueue.items
      modifies this, taskQueue
      ensures Valid()
      ensures Snapshot() == Submit(maxExecutingTasksCount, old(Snapshot()), task)
      ensures maxExecutingTasksCount == old(maxExecutingTasksCount)
      ensures countLog == old(countLog) + Rising(old(executingTasksCount), executingTasksCount)
      ensures startedTasks == old(startedTasks) + executingTasks[|old(executingTasks)|..]
    {
      AppendFresh(executingTasks + taskQueue.items, task);
      taskQueue.Enqueue(task);
      assert executingTasks + taskQueue.items == old(executingTasks + taskQueue.items) + [task];
      ExecutePendingTasks();
    }

    /** Fills the free slots from the front of the queue. */
    method ExecutePendingTasks()
      requires Valid()
      modifies this, taskQueue
      ensures Valid()
      ensures Snapshot() == Drain(maxExecutingTasksCount, old(Snapshot()))
      ensures maxExecutingTasksCount == old(maxExecutingTasksCount)
      ensures countLog == old(countLog) + Rising(old(executingTasksCount), executingTasksCount)
      ensures startedTasks == old(startedTasks) + executingTasks[|old(executingTasks)|..]
    {
      ghost var start := Snapshot();
      ghost var limit := maxExecutingTasksCount;
      ghost var count0, log0, started0 := executingTasksCount, countLog, startedTasks;
      ghost var admitted: seq<T> := [];
      while executingTasksCount < maxExecutingTasksCount
        invariant executingTasksCount == |executingTasks|
        invariant maxExecutingTasksCount == limit
        invariant Drain(limit, Snapshot()) == Drain(limit, start)
        invariant executingTasks == start.executing + admitted
        invariant countLog == log0 + Rising(count0, executingTasksCount)
        invariant startedTasks == started0 + admitted
        decreases |taskQueue.items|
      {
        ghost var before := Snapshot();
        var next := taskQueue.DequeueNext();
        if next.None? {
          break;
        }
        DrainStep(limit, before);
        Admit(next.value);
        admitted := admitted + [next.value];
        assert countLog == log0 + Rising(count0, executingTasksCount);
      }
      DrainIsNoOpIff(limit, Snapshot());
      assert executingTasks[count0..] == admitted;
    }

    /**
     * The completion hook: an executing task that finished leaves the
     * executing tasks, the lowered count is emitted, and the freed slot is
     * backfilled. A repeated completion signal is ignored.
     */
    method CompleteTask(task: T)
      requires Valid()
      modifies this, taskQueue
      ensures Valid()
      ensures Snapshot() == Complete(maxExecutingTasksCount, old(Snapshot()), task)
      ensures maxExecutingTasksCount == old(maxExecutingTasksCount)
      ensures task in old(executingTasks) ==>
        countLog == old(countLog) + [old(executingTasksCount) - 1] + Rising(old(executingTasksCount) - 1, executingTasksCount)
      ensures task in old(executingTasks) ==>
        startedTasks == old(startedTasks) + executingTasks[|old(executingTasks)| - 1..]
      ensures task !in old(executingTasks) ==> countLog == old(countLog) && startedTasks == old(startedTasks)
    {
      if task in executingTasks {
        CompleteReleasesTask(maxExecutingTasksCount, Snapshot(), task);
        DistinctHalves(executingTasks, taskQueue.items);
        EraseDistinct(executingTasks, task);
        executingTasks := Erase(executingTasks, task);
        executingTasksCount := executingTasksCount - 1;
        countLog := countLog + [executingTasksCount];
        ExecutePendingTasks();
      }
    }
  }

  /** Raising the ceiling from 1 to 3 with two tasks queued starts both of them. */
  method RaiseCeiling()
  {
    var queue := new TaskQueue<char>();
    var executor := new SequentialTaskExecutor<char>(queue);
    SubmitThreeUnderOne();
    executor.SubmitTask('A');
    executor.SubmitTask('B');
    executor.SubmitTask('C');
    executor.SetMaxExecutingTasksCount(3);
    assert executor.executingTasks == ['A'] && queue.items == ['B', 'C'];
    DrainAdmitsFront(3, Schedule(['A'], ['B', 'C']));
    executor.ExecutePendingTasks();
    assert executor.executingTasks == ['A', 'B', 'C'] && executor.executingTasksCount == 3;
    assert executor.countLog == [0, 1, 2, 3];
  }
}
