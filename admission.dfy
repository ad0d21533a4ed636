/**
 * The admission policy of the sequential task executor, stated on values.
 *
 * A schedule is the executor's bookkeeping: the tasks it has admitted (in the
 * order they were started) and the tasks waiting in its queue (in the order
 * they will be dequeued). The functions here say what submission, draining
 * and completion do to a schedule under a ceiling `limit`; the executor class
 * in module Scheduling is proved to follow them, and the lemmas below state
 * what the header promises about them.
 */
module Admission {
  import opened Sequences

  datatype Schedule<T> = Schedule(executing: seq<T>, pending: seq<T>)

  /** Every task the executor tracks: first the executing ones, then the queued ones. */
  function Tracked<T>(s: Schedule<T>): seq<T> {
    s.executing + s.pending
  }

  /** The state `executePendingTasks` stops in: nothing is waiting, or no slot is free. */
  predicate Drained<T>(limit: int, s: Schedule<T>) {
    s.pending == [] || |s.executing| >= limit
  }

  /** The number of queued tasks that fit into the free slots below `limit`. */
  function Admissible<T>(limit: int, s: Schedule<T>): (k: nat)
    ensures k <= |s.pending|
  {
    var free := limit - |s.executing|;
    if free <= 0 then 0 else if free < |s.pending| then free else |s.pending|
  }

  /**
   * `executePendingTasks`: while a slot is free and the queue is not empty,
   * dequeue the front task and admit it.
   */
  function Drain<T>(limit: int, s: Schedule<T>): (r: Schedule<T>)
    ensures Tracked(r) == Tracked(s)
    ensures Drained(limit, r)
    ensures |s.executing| <= limit ==> |r.executing| <= limit
    decreases |s.pending|
  {
    if |s.executing| < limit && s.pending != [] then
      var next := Schedule(s.executing + [s.pending[0]], s.pending[1..]);
      assert Tracked(next) == Tracked(s);
      Drain(limit, next)
    else
      s
  }

  /**
   * Draining admits exactly the first `Admissible(limit, s)` queued tasks, in
   * queue order, and leaves the rest queued in order.
   */
  lemma {:induction false} DrainAdmitsFront<T>(limit: int, s: Schedule<T>)
    ensures Drain(limit, s).executing == s.executing + s.pending[..Admissible(limit, s)]
    ensures Drain(limit, s).pending == s.pending[Admissible(limit, s)..]
    decreases |s.pending|
  {
    if |s.executing| < limit && s.pending != [] {
      var next := Schedule(s.executing + [s.pending[0]], s.pending[1..]);
      DrainAdmitsFront(limit, next);
      assert s.pending[..Admissible(limit, s)] == [s.pending[0]] + next.pending[..Admissible(limit, next)];
      assert s.pending[Admissible(limit, s)..] == next.pending[Admissible(limit, next)..];
    }
  }

  /**
   * Submitting a task: it joins the back of the queue and the queue is
   * drained, so it starts only once every task queued before it has started
   * and a slot is still free.
   */
  function Submit<T>(limit: int, s: Schedule<T>, task: T): Schedule<T> {
    Drain(limit, Schedule(s.executing, s.pending + [task]))
  }

  /**
   * The completion hook: a finished task leaves the executing tasks and the
   * free slot is backfilled from the queue. A task that is not executing (one
   * that already completed) changes nothing.
   */
  function Complete<T(==)>(limit: int, s: Schedule<T>, task: T): Schedule<T> {
    if task in s.executing then Drain(limit, Schedule(Erase(s.executing, task), s.pending))
    else s
  }

  /**
   * The values the count signal emits while the count climbs one admission at a
   * time from `low` to `high`.
   */
  function Rising(low: nat, high: nat): (r: seq<nat>)
    ensures low <= high ==> |r| == high - low
    ensures r != [] ==> r[|r| - 1] == high
    decreases high
  {
    if high <= low then [] else Rising(low, high - 1) + [high]
  }

  /** The count signal reports every intermediate count, one step at a time. */
  lemma {:induction false} RisingCountsByOne(low: nat, high: nat, i: nat)
    requires low <= high && i < high - low
    ensures Rising(low, high)[i] == low + 1 + i
    decreases high
  {
    if i < high - 1 - low {
      RisingCountsByOne(low, high - 1, i);
    }
  }

  // ---------------------------------------------------------------------------
  // executePendingTasks

  /**
   * Admitting the first `k` queued tasks is what draining does exactly when it
   * stops there: the queue ran empty or the ceiling was reached, and the
   * ceiling was not overshot.
   */
  lemma DrainAdmitsPrefix<T>(limit: int, s: Schedule<T>, k: nat)
    requires k <= |s.pending|
    requires k == |s.pending| || |s.executing| + k >= limit
    requires k == 0 || |s.executing| + k <= limit
    ensures Drain(limit, s) == Schedule(s.executing + s.pending[..k], s.pending[k..])
  {
    var r := Drain(limit, s);
    assert Admissible(limit, s) == k;
    assert s.executing + s.pending == r.executing + r.pending;
    assert r.pending == (s.executing + s.pending)[|r.executing|..];
    assert s.pending[k..] == (s.executing + s.pending)[|s.executing| + k..];
  }

  /** One round of the draining loop: admitting the front task leaves the final result unchanged. */
  lemma DrainStep<T>(limit: int, s: Schedule<T>)
    requires |s.executing| < limit && s.pending != []
    ensures var next := Schedule(s.executing + [s.pending[0]], s.pending[1..]);
      Drain(limit, next) == Drain(limit, s) && Tracked(next) == Tracked(s)
  {
  }

  /** Draining changes nothing exactly when the queue is empty or every slot is taken. */
  lemma DrainIsNoOpIff<T>(limit: int, s: Schedule<T>)
    ensures Drain(limit, s) == s <==> Drained(limit, s)
  {
    var r := Drain(limit, s);
    if Drained(limit, s) {
      assert Admissible(limit, s) == 0;
      assert r.executing == s.executing;
      assert r.executing + r.pending == s.executing + s.pending;
      assert r.pending == (r.executing + r.pending)[|r.executing|..];
    }
  }

  /** Calling `executePendingTasks` twice in a row is the same as calling it once. */
  lemma DrainIdempotent<T>(limit: int, s: Schedule<T>)
    ensures Drain(limit, Drain(limit, s)) == Drain(limit, s)
  {
    DrainIsNoOpIff(limit, Drain(limit, s));
  }

  /**
   * Draining admits the queue's front tasks in queue order and keeps the rest
   * queued in order; no task is lost or duplicated.
   */
  lemma DrainKeepsTasks<T>(limit: int, s: Schedule<T>)
    ensures multiset(Tracked(Drain(limit, s))) == multiset(Tracked(s))
    ensures Drain(limit, s).pending == s.pending[Admissible(limit, s)..]
    ensures NoDuplicates(Tracked(s)) ==> NoDuplicates(Tracked(Drain(limit, s)))
  {
    var r := Drain(limit, s);
    var k := Admissible(limit, s);
    assert s.pending == s.pending[..k] + s.pending[k..];
    assert Tracked(s) == r.executing + s.pending[k..];
    assert r.pending == Tracked(r)[|r.executing|..];
  }

  /** With capacity raised, every queued task that now fits is started. */
  lemma {:induction false} DrainFillsFreeSlots<T>(limit: int, s: Schedule<T>)
    requires |s.executing| <= limit
    ensures |Drain(limit, s).executing| == if |s.executing| + |s.pending| <= limit then |s.executing| + |s.pending| else limit
  {
    DrainAdmitsFront(limit, s);
  }

  // ---------------------------------------------------------------------------
  // Submission

  /**
   * A fresh task is either started or queued, never both and never neither.
   * It is tracked after every task already tracked, so it never overtakes
   * queued work, and it starts exactly when it fits behind all of them. The
   * tracked tasks grow by exactly that task and the ceiling is respected.
   */
  lemma SubmitPlacesTaskOnce<T>(limit: int, s: Schedule<T>, task: T)
    requires task !in Tracked(s)
    ensures var r := Submit(limit, s, task);
      && Tracked(r) == Tracked(s) + [task]
      && (task in r.executing <==> task !in r.pending)
      && (task in r.executing <==> |s.executing| + |s.pending| < limit)
      && multiset(Tracked(r)) == multiset(Tracked(s)) + multiset{task}
      && (NoDuplicates(Tracked(s)) ==> NoDuplicates(Tracked(r)))
      && (|s.executing| <= limit ==> |r.executing| <= limit)
  {
    var q := Schedule(s.executing, s.pending + [task]);
    var r := Drain(limit, q);
    var k := Admissible(limit, q);
    DrainAdmitsFront(limit, q);
    assert Tracked(q) == Tracked(s) + [task];
    assert task !in s.executing && task !in s.pending;
    if |s.executing| + |s.pending| < limit {
      assert k == |q.pending|;
      assert r.executing == s.executing + (s.pending + [task]);
      assert r.pending == [];
    } else {
      assert k <= |s.pending|;
      assert q.pending[..k] == s.pending[..k];
      assert task !in r.executing;
      assert r.pending[|r.pending| - 1] == task;
    }
    if NoDuplicates(Tracked(s)) {
      AppendFresh(Tracked(s), task);
    }
  }

  /**
   * On an executor whose queue has already been drained, submission starts the
   * task at once when a slot is free and queues it otherwise.
   */
  lemma SubmitOnDrainedSchedule<T>(limit: int, s: Schedule<T>, task: T)
    requires Drained(limit, s)
    ensures Submit(limit, s, task) ==
      if |s.executing| < limit then Schedule(s.executing + [task], s.pending)
      else Schedule(s.executing, s.pending + [task])
  {
    var q := Schedule(s.executing, s.pending + [task]);
    DrainKeepsTasks(limit, q);
    if |s.executing| < limit {
      assert s.pending == [];
      assert Admissible(limit, q) == 1;
      assert q.pending[..1] == [task];
    } else {
      assert Admissible(limit, q) == 0;
    }
  }

  /**
   * A task submitted while older work still waits queues behind it: after the
   * ceiling is raised from 1 to 2 with B waiting, submitting C starts B; and on
   * a queue handed over with B already in it, submitting A starts B.
   */
  lemma SubmitBehindQueuedWork()
    ensures Submit(2, Schedule(['A'], ['B']), 'C') == Schedule(['A', 'B'], ['C'])
    ensures Submit(1, Schedule([], ['B']), 'A') == Schedule(['B'], ['A'])
  {
    DrainAdmitsFront(2, Schedule(['A'], ['B', 'C']));
    DrainAdmitsFront(1, Schedule([], ['B', 'A']));
  }

  // ---------------------------------------------------------------------------
  // Completion

  /**
   * Completing an executing task removes exactly that task and then backfills
   * from the queue; the ceiling is still respected and nothing else is lost.
   */
  lemma CompleteReleasesTask<T>(limit: int, s: Schedule<T>, task: T)
    requires NoDuplicates(Tracked(s)) && task in s.executing
    ensures var r := Complete(limit, s, task);
      && task !in Tracked(r)
      && multiset(Tracked(r)) == multiset(Tracked(s)) - multiset{task}
      && NoDuplicates(Tracked(r))
      && (|s.executing| <= limit ==> |r.executing| <= limit)
      && (s.pending == [] ==> r.executing == Erase(s.executing, task))
  {
    var erased := Schedule(Erase(s.executing, task), s.pending);
    var r := Drain(limit, erased);
    DrainKeepsTasks(limit, erased);
    assert multiset(Tracked(s))[task] == 1;
    assert multiset(s.executing)[task] == 1 by {
      assert multiset(Tracked(s)) == multiset(s.executing) + multiset(s.pending);
    }
    assert multiset(s.pending)[task] == 0;
    assert multiset(Tracked(erased)) == multiset(Tracked(s)) - multiset{task};
    assert NoDuplicates(Tracked(erased)) by {
      forall x | x in Tracked(erased) ensures multiset(Tracked(erased))[x] == 1 {
        assert x in Tracked(s);
      }
    }
    assert task !in multiset(Tracked(r));
    if |s.executing| <= limit {
      EraseDistinct(Tracked(s), task);
      assert |Erase(s.executing, task)| < |s.executing| by {
        assert |multiset(Erase(s.executing, task))| == |multiset(s.executing)| - 1;
      }
    }
    if s.pending == [] {
      assert Admissible(limit, erased) == 0;
    }
  }

  /** With nothing queued, a completion lowers the count by exactly one. */
  lemma CompleteLowersCount<T>(limit: int, s: Schedule<T>, task: T)
    requires NoDuplicates(Tracked(s)) && task in s.executing && s.pending == []
    ensures |Complete(limit, s, task).executing| == |s.executing| - 1
  {
    CompleteReleasesTask(limit, s, task);
    assert NoDuplicates(s.executing) by {
      assert Tracked(s) == s.executing;
    }
    EraseDistinct(s.executing, task);
  }

  /** A task that is not executing (already completed, or never admitted) changes nothing. */
  lemma CompleteUnknownIsNoOp<T>(limit: int, s: Schedule<T>, task: T)
    requires task !in s.executing
    ensures Complete(limit, s, task) == s
  {
  }

  /** A second completion signal from the same task is ignored. */
  lemma CompleteTwiceIsOnce<T>(limit: int, s: Schedule<T>, task: T)
    requires NoDuplicates(Tracked(s))
    ensures Complete(limit, Complete(limit, s, task), task) == Complete(limit, s, task)
  {
    if task in s.executing {
      CompleteReleasesTask(limit, s, task);
    }
  }

  // ---------------------------------------------------------------------------
  // Worked runs

  /** Under the default ceiling of one, A starts at once and B and C queue behind it in order. */
  lemma SubmitThreeUnderOne()
    ensures Submit(1, Schedule([], []), 'A') == Schedule(['A'], [])
    ensures Submit(1, Schedule(['A'], []), 'B') == Schedule(['A'], ['B'])
    ensures Submit(1, Schedule(['A'], ['B']), 'C') == Schedule(['A'], ['B', 'C'])
  {
    SubmitOnDrainedSchedule(1, Schedule([], []), 'A');
    SubmitOnDrainedSchedule(1, Schedule(['A'], []), 'B');
    SubmitOnDrainedSchedule(1, Schedule(['A'], ['B']), 'C');
  }

  /** Under the default ceiling of one, A, B and C run one at a time in submission order. */
  lemma SequentialRun()
    ensures var s1 := Submit(1, Submit(1, Submit(1, Schedule([], []), 'A'), 'B'), 'C');
      && s1 == Schedule(['A'], ['B', 'C'])
      && Complete(1, s1, 'A') == Schedule(['B'], ['C'])
      && Complete(1, Complete(1, s1, 'A'), 'B') == Schedule(['C'], [])
      && Complete(1, Complete(1, Complete(1, s1, 'A'), 'B'), 'C') == Schedule([], [])
  {
    SubmitThreeUnderOne();
    assert Erase(['A'], 'A') == [] && Erase(['B'], 'B') == [] && Erase(['C'], 'C') == [];
    DrainAdmitsFront(1, Schedule([], ['B', 'C']));
    DrainAdmitsFront(1, Schedule([], ['C']));
  }

  /** A task withdrawn from the queue is never started; the one behind it runs next. */
  lemma CancelWhileQueued()
    ensures var s1 := Schedule(['A'], Erase(['B', 'C'], 'B'));
      && Complete(1, s1, 'A') == Schedule(['C'], [])
      && Complete(1, Complete(1, s1, 'A'), 'A') == Schedule(['C'], [])
  {
    assert Erase(['C'], 'B') == ['C'] && Erase(['A'], 'A') == [];
    DrainAdmitsFront(1, Schedule([], ['C']));
  }
}
