/**
 * Background-task bookkeeping of kupfer/task.py.
 *
 * A `TaskRunner` tracks the set of tasks in flight; a `ThreadTask` runs its
 * work on a worker thread and hands its two follow-ups (`thread_finish` and
 * `_thread_finally`) to the GUI main loop with `gobject.idle_add`.
 *
 * Threads and the main loop are modelled sequentially: `MainLoop.workers`
 * holds the threads that `start` spawned and that have not run yet,
 * `MainLoop.idle` the callbacks queued with `idle_add` (first in, first out),
 * and `MainLoop.trace` the main-thread calls made so far, in order. One worker
 * run is one step whose outcome is a parameter; draining the queue runs the
 * callbacks in order.
 */
module Tasks {
  import opened Wrappers

  /** The exception information captured when the work raises; only the exception type is kept. */
  datatype ExcInfo = ExcInfo(excType: string)

  const NotImplementedError: ExcInfo := ExcInfo("NotImplementedError")
  const KeyError: ExcInfo := ExcInfo("KeyError")

  /** How a call into an overridable hook (`thread_do`, `thread_finish`, `thread_finally`) ends. */
  datatype Outcome = Returned | Raised(exc: ExcInfo)

  /** The exception information an outcome carries: `None` when the hook returned. */
  function ExcOf(o: Outcome): Option<ExcInfo>
  {
    if o.Raised? then Some(o.exc) else None
  }

  /** The base class `Task`, whose `start` is abstract, or its subclass `ThreadTask`. */
  datatype TaskKind = BaseTask | ThreadTask

  /** A callback waiting in the main loop's idle queue. */
  datatype IdleCall =
    | CallThreadFinish(task: Task)
    | CallThreadFinally(task: Task, excInfo: Option<ExcInfo>)

  /** A call the main thread has made. */
  datatype Event =
    | RanThreadFinish(task: Task)
    | RanThreadFinally(task: Task, excInfo: Option<ExcInfo>)
    | InvokedFinishCallback(task: Task)

  /*
   * What one run of `_run_thread` queues, and what the main loop then does.
   */

  /** A queued finalizer's task is among the finalizer tasks. */
  lemma {:induction false} FinalizerMember(q: seq<IdleCall>, c: IdleCall)
    requires c in q && c.CallThreadFinally?
    ensures c.task in FinalizerTasks(q)
  {
    if q[0] != c {
      FinalizerMember(q[1..], c);
    }
  }

  /** The tasks whose `_thread_finally` is queued in `q`, one per queued call. */
  ghost function FinalizerTasks(q: seq<IdleCall>): multiset<Task>
  {
    if q == [] then multiset{}
    else (if q[0].CallThreadFinally? then multiset{q[0].task} else multiset{}) + FinalizerTasks(q[1..])
  }

  /** The tasks for which `finish_callback(self)` was invoked in `trace`, one per invocation. */
  ghost function CallbackTasks(trace: seq<Event>): multiset<Task>
  {
    if trace == [] then multiset{}
    else (if trace[0].InvokedFinishCallback? then multiset{trace[0].task} else multiset{}) + CallbackTasks(trace[1..])
  }

  /**
   * The idle callbacks one run of `_run_thread` queues, in order, when
   * `thread_do` ends with `threadDo`.
   */
  function WorkerCalls(t: Task, threadDo: Outcome): (q: seq<IdleCall>)
    // the finalizer is queued last, once, and carries the exception exactly when thread_do raised
    ensures q != [] && q[|q| - 1] == CallThreadFinally(t, ExcOf(threadDo))
    ensures FinalizerTasks(q) == multiset{t}
    // thread_finish is queued only on success, and then strictly before the finalizer
    ensures CallThreadFinish(t) in q <==> threadDo.Returned?
    ensures threadDo.Returned? ==> q[0] == CallThreadFinish(t) && |q| == 2
    ensures forall c | c in q :: c.task == t
  {
    if threadDo.Returned? then
      var q := [CallThreadFinish(t), CallThreadFinally(t, None)];
      assert q[1..] == [q[1]] && q[1..][1..] == [];
      assert FinalizerTasks(q[1..]) == multiset{t};
      q
    else
      [CallThreadFinally(t, Some(threadDo.exc))]
  }

  /**
   * The main-thread calls made when the main loop runs `c`. `_thread_finally`
   * calls `thread_finally` and then, in its `finally` clause,
   * `finish_callback(self)`: the callback is made whatever the hook did.
   */
  function Dispatched(c: IdleCall): (r: seq<Event>)
    // the hook of the queued call runs first, on the call's own task and exception information
    ensures r != [] && r[0] == (if c.CallThreadFinish? then RanThreadFinish(c.task) else RanThreadFinally(c.task, c.excInfo))
    // a finalizer ends with the callback, whatever the hook did; `thread_finish` makes no callback
    ensures c.CallThreadFinally? <==> InvokedFinishCallback(c.task) in r
    ensures c.CallThreadFinally? ==> r[|r| - 1] == InvokedFinishCallback(c.task)
  {
    match c
    case CallThreadFinish(t) => [RanThreadFinish(t)]
    case CallThreadFinally(t, e) => [RanThreadFinally(t, e), InvokedFinishCallback(t)]
  }

  /** The main-thread calls made when the main loop drains `q` in order. */
  function DrainTrace(q: seq<IdleCall>): seq<Event>
  {
    if q == [] then [] else Dispatched(q[0]) + DrainTrace(q[1..])
  }

  lemma {:induction false} FinalizerTasksAppend(a: seq<IdleCall>, b: seq<IdleCall>)
    ensures FinalizerTasks(a + b) == FinalizerTasks(a) + FinalizerTasks(b)
  {
    if a == [] {
      assert a + b == b;
    } else {
      assert (a + b)[1..] == a[1..] + b;
      FinalizerTasksAppend(a[1..], b);
    }
  }

  lemma {:induction false} CallbackTasksAppend(a: seq<Event>, b: seq<Event>)
    ensures CallbackTasks(a + b) == CallbackTasks(a) + CallbackTasks(b)
  {
    if a == [] {
      assert a + b == b;
    } else {
      assert (a + b)[1..] == a[1..] + b;
      CallbackTasksAppend(a[1..], b);
    }
  }

  /** Draining a queue in two parts makes the calls of the first part, then those of the second. */
  lemma {:induction false} DrainTraceAppend(a: seq<IdleCall>, b: seq<IdleCall>)
    ensures DrainTrace(a + b) == DrainTrace(a) + DrainTrace(b)
  {
    if a == [] {
      assert a + b == b;
    } else {
      assert (a + b)[1..] == a[1..] + b;
      DrainTraceAppend(a[1..], b);
    }
  }

  /**
   * Draining any queue invokes `finish_callback` exactly once per queued
   * `_thread_finally` call, for the same task, and at no other time.
   */
  lemma {:induction false} CallbacksMatchFinalizers(q: seq<IdleCall>)
    ensures CallbackTasks(DrainTrace(q)) == FinalizerTasks(q)
  {
    if q != [] {
      CallbackTasksAppend(Dispatched(q[0]), DrainTrace(q[1..]));
      CallbacksMatchFinalizers(q[1..]);
    }
  }

  /**
   * Whatever else is queued before and after it, draining the queue that holds
   * one run of `_run_thread` for `t` invokes `t`'s `finish_callback` exactly
   * once, on success and on failure alike.
   */
  lemma ExactlyOneCallback(before: seq<IdleCall>, t: Task, threadDo: Outcome, after: seq<IdleCall>)
    requires t !in FinalizerTasks(before) && t !in FinalizerTasks(after)
    ensures CallbackTasks(DrainTrace(before + WorkerCalls(t, threadDo) + after))[t] == 1
  {
    var q := before + WorkerCalls(t, threadDo) + after;
    CallbacksMatchFinalizers(q);
    FinalizerTasksAppend(before + WorkerCalls(t, threadDo), after);
    FinalizerTasksAppend(before, WorkerCalls(t, threadDo));
  }

  /** The main-thread calls made when the main loop drains what one `_run_thread` queued. */
  lemma WorkerTrace(t: Task, threadDo: Outcome)
    ensures threadDo.Returned? ==>
      DrainTrace(WorkerCalls(t, threadDo)) == [RanThreadFinish(t), RanThreadFinally(t, None), InvokedFinishCallback(t)]
    ensures threadDo.Raised? ==>
      DrainTrace(WorkerCalls(t, threadDo)) == [RanThreadFinally(t, Some(threadDo.exc)), InvokedFinishCallback(t)]
  {
    var q := WorkerCalls(t, threadDo);
    if threadDo.Returned? {
      assert q[1..] == [q[1]] && q[1..][1..] == [];
      assert DrainTrace(q[1..]) == [RanThreadFinally(t, None), InvokedFinishCallback(t)];
    } else {
      assert q[1..] == [];
    }
  }

  /**
   * On success the main loop runs `thread_finish`, then `thread_finally` with
   * no exception, then `finish_callback`, one straight after the other.
   */
  lemma SuccessOrder(before: seq<IdleCall>, t: Task, after: seq<IdleCall>)
    ensures DrainTrace(before + WorkerCalls(t, Returned) + after)
         == DrainTrace(before) + [RanThreadFinish(t), RanThreadFinally(t, None), InvokedFinishCallback(t)] + DrainTrace(after)
  {
    DrainTraceAppend(before + WorkerCalls(t, Returned), after);
    DrainTraceAppend(before, WorkerCalls(t, Returned));
    WorkerTrace(t, Returned);
  }

  /**
   * When `thread_do` raises, the main loop runs `thread_finally` with the
   * captured exception and then `finish_callback`.
   */
  lemma FailureOrder(before: seq<IdleCall>, t: Task, e: ExcInfo, after: seq<IdleCall>)
    ensures DrainTrace(before + WorkerCalls(t, Raised(e)) + after)
         == DrainTrace(before) + [RanThreadFinally(t, Some(e)), InvokedFinishCallback(t)] + DrainTrace(after)
  {
    DrainTraceAppend(before + WorkerCalls(t, Raised(e)), after);
    DrainTraceAppend(before, WorkerCalls(t, Raised(e)));
    WorkerTrace(t, Raised(e));
  }

  /** The main loop runs `thread_finish` for `t` exactly when it was queued. */
  lemma {:induction false} FinishRunIffQueued(q: seq<IdleCall>, t: Task)
    ensures RanThreadFinish(t) in DrainTrace(q) <==> CallThreadFinish(t) in q
  {
    if q != [] {
      FinishRunIffQueued(q[1..], t);
      assert DrainTrace(q) == Dispatched(q[0]) + DrainTrace(q[1..]);
      assert q == [q[0]] + q[1..];
    }
  }

  /**
   * When `thread_do` raises and nothing else queued `thread_finish` for `t`,
   * the main loop never runs it; it still runs `thread_finally` with the
   * exception.
   */
  lemma FailureSkipsFinish(before: seq<IdleCall>, t: Task, e: ExcInfo, after: seq<IdleCall>)
    requires CallThreadFinish(t) !in before && CallThreadFinish(t) !in after
    ensures RanThreadFinish(t) !in DrainTrace(before + WorkerCalls(t, Raised(e)) + after)
    ensures RanThreadFinally(t, Some(e)) in DrainTrace(before + WorkerCalls(t, Raised(e)) + after)
  {
    var q := before + WorkerCalls(t, Raised(e)) + after;
    FinishRunIffQueued(q, t);
    FailureOrder(before, t, e, after);
    assert RanThreadFinally(t, Some(e)) == DrainTrace(q)[|DrainTrace(before)|];
  }

  /*
   * The objects.
   */

  /** A task: kupfer's `Task`, or its subclass `ThreadTask` when `kind` says so. */
  class Task {
    const name: Option<string>
    const kind: TaskKind
    /** `ThreadTask.finish_callback`: the runner whose `_task_finished` `start` was given. */
    var finishCallback: Option<TaskRunner>

    constructor (name: Option<string>, kind: TaskKind)
      ensures this.name == name && this.kind == kind && finishCallback == None
    {
      this.name := name;
      this.kind := kind;
      finishCallback := None;
    }

    /**
     * `start(finish_callback)`. The base class raises NotImplementedError; a
     * ThreadTask records the callback and then spawns its worker thread.
     */
    method Start(callback: TaskRunner, loop: MainLoop) returns (err: Option<ExcInfo>)
      modifies this, loop
      ensures kind == BaseTask ==> err == Some(NotImplementedError) && finishCallback == old(finishCallback)
      ensures kind == BaseTask ==> loop.workers == old(loop.workers)
      ensures kind == ThreadTask ==> err == None && finishCallback == Some(callback)
      ensures kind == ThreadTask ==> loop.workers == old(loop.workers) + [this]
      ensures loop.idle == old(loop.idle) && loop.trace == old(loop.trace)
    {
      if kind == BaseTask {
        err := Some(NotImplementedError);
        return;
      }
      finishCallback := Some(callback);
      loop.Spawn(this);
      err := None;
    }

    /**
     * `_run_thread`, the worker thread's body, when `thread_do` ends with
     * `threadDo`. Its result is the exception re-raised on the worker thread.
     */
    method RunThread(loop: MainLoop, threadDo: Outcome) returns (reraised: Option<ExcInfo>)
      requires kind == ThreadTask
      modifies loop
      ensures loop.idle == old(loop.idle) + WorkerCalls(this, threadDo)
      ensures reraised == ExcOf(threadDo)
      ensures loop.workers == old(loop.workers) && loop.trace == old(loop.trace)
    {
      var excInfo: Option<ExcInfo>;
      if threadDo.Returned? {
        // the work returned: queue the success hook
        loop.IdleAdd(CallThreadFinish(this));
        // and the finalizer will report no exception
        excInfo := None;
        reraised := None;
      } else {
        // the work raised: keep the exception for the finalizer and re-raise it
        excInfo := Some(threadDo.exc);
        reraised := Some(threadDo.exc);
      }
      // in both cases, queue the finalizer
      loop.IdleAdd(CallThreadFinally(this, excInfo));
    }

    /**
     * `_thread_finally(exc_info)` on the main thread, when the `thread_finally`
     * hook ends with `hook`. `finish_callback(self)` runs in the `finally`
     * clause; an exception it raises replaces the hook's. The result is the
     * exception that escapes to the main loop.
     */
    method Finalize(excInfo: Option<ExcInfo>, hook: Outcome, loop: MainLoop) returns (escaped: Option<ExcInfo>)
      requires finishCallback.Some?
      modifies loop, finishCallback.value
      ensures loop.trace == old(loop.trace) + [RanThreadFinally(this, excInfo), InvokedFinishCallback(this)]
      ensures loop.idle == old(loop.idle) && loop.workers == old(loop.workers)
      ensures finishCallback.value.tasks == old(finishCallback.value.tasks) - {this}
      ensures escaped == if this in old(finishCallback.value.tasks) then ExcOf(hook) else Some(KeyError)
    {
      // the finalizer hook runs first
      loop.Record(RanThreadFinally(this, excInfo));
      // then, whatever the hook did, the task is reported finished to its runner
      loop.Record(InvokedFinishCallback(this));
      var callbackErr := finishCallback.value.TaskFinished(this);
      escaped := if callbackErr.Some? then callbackErr else ExcOf(hook);
    }
  }

  /** `TaskRunner`: the tasks in flight and what to do with them at shutdown. */
  class TaskRunner {
    var tasks: set<Task>
    const endOnFinish: bool

    constructor (endOnFinish: bool)
      ensures tasks == {} && this.endOnFinish == endOnFinish
    {
      tasks := {};
      this.endOnFinish := endOnFinish;
    }

    /**
     * `_task_finished(task)`: removes exactly `t`. `set.remove` raises
     * KeyError, and changes nothing, when `t` is not tracked.
     */
    method TaskFinished(t: Task) returns (err: Option<ExcInfo>)
      modifies this
      ensures tasks == old(tasks) - {t}
      ensures err == if t in old(tasks) then None else Some(KeyError)
    {
      if t !in tasks {
        return Some(KeyError);
      }
      tasks := tasks - {t};
      err := None;
    }

    /**
     * `add_task(task)`: tracks `t` first, then starts it, so `t` is tracked
     * while it runs. A base-class task stays tracked although its `start`
     * raised.
     */
    method AddTask(t: Task, loop: MainLoop) returns (err: Option<ExcInfo>)
      modifies this, t, loop
      ensures tasks == old(tasks) + {t}
      ensures t.kind == BaseTask ==> err == Some(NotImplementedError) && loop.workers == old(loop.workers)
      ensures t.kind == BaseTask ==> t.finishCallback == old(t.finishCallback)
      ensures t.kind == ThreadTask ==> err == None && t.finishCallback == Some(this)
      ensures t.kind == ThreadTask ==> loop.workers == old(loop.workers) + [t]
      ensures loop.idle == old(loop.idle) && loop.trace == old(loop.trace)
      ensures old(loop.Valid()) ==> loop.Valid()
      ensures old(loop.Bookkept()) && t !in old(loop.Pending()) ==> loop.Bookkept()
    {
      tasks := tasks + {t};
      err := t.Start(this, loop);
      if old(loop.Bookkept()) && t !in old(loop.Pending()) {
        assert loop.Pending() == old(loop.Pending()) + if t.kind == ThreadTask then multiset{t} else multiset{};
        forall w | w in loop.workers
          ensures w in w.finishCallback.value.tasks
        {
          if w != t {
            assert w in old(loop.workers);
          }
        }
        forall c | c in loop.idle && c.CallThreadFinally?
          ensures c.task in c.task.finishCallback.value.tasks
        {
          assert c in old(loop.idle);
          assert c.task in old(loop.Pending()) by { FinalizerMember(old(loop.idle), c); }
        }
      }
    }

    /**
     * `_finish_cleanup`, on the scheduler's "finish" signal. The result is the
     * set of tasks reported as uncompleted.
     */
    method FinishCleanup() returns (reported: set<Task>)
      modifies this
      ensures endOnFinish ==> tasks == {} && reported == {}
      ensures !endOnFinish ==> tasks == old(tasks) && reported == old(tasks)
    {
      if endOnFinish {
        tasks := {};
        return {};
      }
      reported := tasks;
    }
  }

  /**
   * One exception per completed callback, each escaping only from its hook,
   * or as the KeyError of completing a task its runner no longer tracks.
   */
  ghost predicate EscapesOnlyFrom(escaped: seq<Option<ExcInfo>>, hooks: seq<Outcome>, q: seq<IdleCall>)
  {
    && |escaped| == |hooks| == |q|
    && forall i | 0 <= i < |q| ::
      escaped[i] == ExcOf(hooks[i]) || (q[i].CallThreadFinally? && escaped[i] == Some(KeyError))
  }

  lemma EscapesOnlyFromConcat(e1: seq<Option<ExcInfo>>, e2: seq<Option<ExcInfo>>, h1: seq<Outcome>, h2: seq<Outcome>,
                              q1: seq<IdleCall>, q2: seq<IdleCall>)
    requires EscapesOnlyFrom(e1, h1, q1) && EscapesOnlyFrom(e2, h2, q2)
    ensures EscapesOnlyFrom(e1 + e2, h1 + h2, q1 + q2)
  {
    forall i | |q1| <= i < |q1| + |q2|
      ensures (e1 + e2)[i] == ExcOf((h1 + h2)[i]) || ((q1 + q2)[i].CallThreadFinally? && (e1 + e2)[i] == Some(KeyError))
    {
      assert (e1 + e2)[i] == e2[i - |q1|] && (h1 + h2)[i] == h2[i - |q1|] && (q1 + q2)[i] == q2[i - |q1|];
    }
  }

  /** One more completed call extends the escaped exceptions by the one it let escape. */
  lemma EscapesOnlyFromSnoc(escaped: seq<Option<ExcInfo>>, e: Option<ExcInfo>, hooks: seq<Outcome>, q: seq<IdleCall>, k: nat)
    requires k < |hooks| && k < |q| && EscapesOnlyFrom(escaped, hooks[..k], q[..k])
    requires e == ExcOf(hooks[k]) || (q[k].CallThreadFinally? && e == Some(KeyError))
    ensures EscapesOnlyFrom(escaped + [e], hooks[..k + 1], q[..k + 1])
  {
    EscapesOnlyFromConcat(escaped, [e], hooks[..k], [hooks[k]], q[..k], [q[k]]);
    assert hooks[..k + 1] == hooks[..k] + [hooks[k]] && q[..k + 1] == q[..k] + [q[k]];
  }

  /** The tasks of the calls in `q`. */
  ghost function IdleTasks(q: seq<IdleCall>): set<Task>
  {
    set c | c in q :: c.task
  }

  /** The runner a queued finalizer will call back, if any. */
  ghost function RunnerOf(c: IdleCall): set<TaskRunner>
    reads c.task
  {
    if c.CallThreadFinally? && c.task.finishCallback.Some? then {c.task.finishCallback.value} else {}
  }

  /** The runners that draining `q` calls back. */
  ghost function Runners(q: seq<IdleCall>): set<TaskRunner>
    reads IdleTasks(q)
  {
    set c | c in q && c.task.finishCallback.Some? :: c.task.finishCallback.value
  }

  /** The task whose finalizer `c` calls back `r`, if it does. */
  ghost function FinishedBy(c: IdleCall, r: TaskRunner): set<Task>
    reads c.task
  {
    if c.CallThreadFinally? && c.task.finishCallback == Some(r) then {c.task} else {}
  }

  /** The tasks whose finalizer in `q` calls back `r`. */
  ghost function FinishedVia(q: seq<IdleCall>, r: TaskRunner): set<Task>
    reads IdleTasks(q)
  {
    set c | c in q && c.CallThreadFinally? && c.task.finishCallback == Some(r) :: c.task
  }

  /** The tasks whose completion is still owed: worker not run, or finalizer still queued. */
  ghost function PendingOf(workers: seq<Task>, idle: seq<IdleCall>): multiset<Task>
  {
    multiset(workers) + FinalizerTasks(idle)
  }

  /** Every thread and every queued call belongs to a task whose `start` recorded a callback. */
  ghost predicate CallbacksRecorded(workers: seq<Task>, idle: seq<IdleCall>)
    reads workers, IdleTasks(idle)
  {
    && (forall t | t in workers :: t.kind == ThreadTask && t.finishCallback.Some?)
    && (forall c | c in idle :: c.task.finishCallback.Some?)
  }

  /** The runners that the tasks with a pending completion will call back. */
  ghost function PendingRunners(workers: seq<Task>, idle: seq<IdleCall>): set<TaskRunner>
    reads workers, IdleTasks(idle)
  {
    (set t | t in workers && t.finishCallback.Some? :: t.finishCallback.value) + Runners(idle)
  }

  /**
   * A task is tracked by its runner for as long as its completion is owed,
   * and each task owes at most one completion.
   */
  ghost predicate TrackedWhilePending(workers: seq<Task>, idle: seq<IdleCall>)
    reads workers, IdleTasks(idle), PendingRunners(workers, idle)
  {
    && CallbacksRecorded(workers, idle)
    && (forall t | t in PendingOf(workers, idle) :: PendingOf(workers, idle)[t] == 1)
    && (forall t | t in workers :: t in t.finishCallback.value.tasks)
    && (forall c | c in idle && c.CallThreadFinally? :: c.task in c.task.finishCallback.value.tasks)
  }

  /**
   * A worker thread that runs to its end hands its task's owed completion over
   * to the idle queue: nothing is owed twice or lost, and the bookkeeping holds.
   */
  lemma RunWorkerKeepsBookkeeping(workers: seq<Task>, idle: seq<IdleCall>, i: nat, threadDo: Outcome)
    requires i < |workers|
    ensures PendingOf(workers[..i] + workers[i + 1..], idle + WorkerCalls(workers[i], threadDo)) == PendingOf(workers, idle)
    ensures CallbacksRecorded(workers, idle) ==>
      CallbacksRecorded(workers[..i] + workers[i + 1..], idle + WorkerCalls(workers[i], threadDo))
    ensures TrackedWhilePending(workers, idle) ==>
      TrackedWhilePending(workers[..i] + workers[i + 1..], idle + WorkerCalls(workers[i], threadDo))
  {
    var t := workers[i];
    var workers', idle' := workers[..i] + workers[i + 1..], idle + WorkerCalls(t, threadDo);
    assert workers == workers[..i] + [t] + workers[i + 1..];
    FinalizerTasksAppend(idle, WorkerCalls(t, threadDo));
    assert PendingOf(workers', idle') == PendingOf(workers, idle);
    if TrackedWhilePending(workers, idle) {
      forall w | w in workers'
        ensures w in w.finishCallback.value.tasks
      {
        assert w in workers;
      }
      forall c | c in idle' && c.CallThreadFinally?
        ensures c.task in c.task.finishCallback.value.tasks
      {
        if c !in idle {
          assert c.task == t && t in workers;
        }
      }
    }
  }

  /**
   * Taking a finalizer off the front of the queue discharges its task's owed
   * completion: when nothing was owed twice before, nothing is owed twice
   * after, and that task is owed nothing any more.
   */
  lemma {:induction false} PopFinalizerPending(workers: seq<Task>, idle: seq<IdleCall>)
    requires idle != [] && idle[0].CallThreadFinally?
    ensures PendingOf(workers, idle) == PendingOf(workers, idle[1..]) + multiset{idle[0].task}
    ensures (forall x | x in PendingOf(workers, idle) :: PendingOf(workers, idle)[x] == 1) ==>
      && idle[0].task !in PendingOf(workers, idle[1..])
      && (forall x | x in PendingOf(workers, idle[1..]) :: PendingOf(workers, idle[1..])[x] == 1)
  {
    var t := idle[0].task;
    var before, after := PendingOf(workers, idle), PendingOf(workers, idle[1..]);
    assert before == after + multiset{t};
    if forall x | x in before :: before[x] == 1 {
      assert before[t] == after[t] + 1 && t in before;
      assert after[t] == 0;
      forall x | x in PendingOf(workers, idle[1..])
        ensures PendingOf(workers, idle[1..])[x] == 1
      {
        assert PendingOf(workers, idle)[x] == PendingOf(workers, idle[1..])[x] + (if x == t then 1 else 0);
      }
    }
  }

  /** Draining one more queued call finishes, via `r`, that call's task if its finalizer calls `r` back. */
  lemma FinishedViaSnoc(q: seq<IdleCall>, k: nat, r: TaskRunner)
    requires k < |q|
    ensures FinishedVia(q[..k + 1], r) == FinishedVia(q[..k], r) + FinishedBy(q[k], r)
  {
    assert q[..k + 1] == q[..k] + [q[k]];
  }

  /** One more main-loop turn extends the trace by the calls of the next queued callback. */
  lemma DrainStep(q: seq<IdleCall>, k: nat, start: seq<Event>, trace: seq<Event>)
    requires k < |q|
    requires trace == start + DrainTrace(q[..k]) + Dispatched(q[k])
    ensures trace == start + DrainTrace(q[..k + 1])
  {
    assert q[..k + 1] == q[..k] + [q[k]];
    DrainTraceAppend(q[..k], [q[k]]);
    assert DrainTrace([q[k]]) == Dispatched(q[k]);
    ConcatAssoc(start, DrainTrace(q[..k]), Dispatched(q[k]));
  }

  /** The GUI main loop with its idle queue, and the worker threads not yet run. */
  class MainLoop {
    var workers: seq<Task>
    var idle: seq<IdleCall>
    var trace: seq<Event>

    constructor ()
      ensures workers == [] && idle == [] && trace == []
    {
      workers, idle, trace := [], [], [];
    }

    /** The tasks whose completion is still owed: worker not run, or finalizer still queued. */
    ghost function Pending(): multiset<Task>
      reads this
    {
      PendingOf(workers, idle)
    }

    ghost predicate Valid()
      reads this, workers, IdleTasks(idle)
    {
      CallbacksRecorded(workers, idle)
    }

    ghost predicate Bookkept()
      reads this, workers, IdleTasks(idle), PendingRunners(workers, idle)
    {
      TrackedWhilePending(workers, idle)
    }

    /** Starting the worker thread: the worker is ready to run. */
    method Spawn(t: Task)
      modifies this
      ensures workers == old(workers) + [t] && idle == old(idle) && trace == old(trace)
    {
      workers := workers + [t];
    }

    /** `gobject.idle_add`: the call goes to the back of the idle queue. */
    method IdleAdd(c: IdleCall)
      modifies this
      ensures idle == old(idle) + [c] && workers == old(workers) && trace == old(trace)
    {
      idle := idle + [c];
    }

    /** The main thread makes call `e`. */
    method Record(e: Event)
      modifies this
      ensures trace == old(trace) + [e] && workers == old(workers) && idle == old(idle)
    {
      trace := trace + [e];
    }

    /**
     * The `i`-th waiting worker thread runs `_run_thread` to its end, with
     * `thread_do` ending as `threadDo`. Workers may run in any order.
     */
    method RunWorker(i: nat, threadDo: Outcome) returns (reraised: Option<ExcInfo>)
      requires i < |workers| && workers[i].kind == ThreadTask
      modifies this
      ensures workers == old(workers[..i] + workers[i + 1..])
      ensures idle == old(idle) + WorkerCalls(old(workers[i]), threadDo)
      ensures trace == old(trace)
      ensures reraised == ExcOf(threadDo)
      ensures old(Valid()) ==> Valid()
      ensures old(Bookkept()) ==> Bookkept()
    {
      ghost var ws, q := workers, idle;
      var t := workers[i];
      workers := workers[..i] + workers[i + 1..];
      reraised := t.RunThread(this, threadDo);
      RunWorkerKeepsBookkeeping(ws, q, i, threadDo);
    }

    /**
     * One turn of the main loop: it runs the oldest idle callback, whose hook
     * (`thread_finish` or `thread_finally`) ends with `hook`. The result is the
     * exception that escapes to the main loop's handler.
     */
    method RunIdle(hook: Outcome) returns (escaped: Option<ExcInfo>)
      requires Valid() && idle != []
      modifies this, RunnerOf(idle[0])
      ensures idle == old(idle[1..]) && workers == old(workers)
      ensures trace == old(trace) + Dispatched(old(idle[0]))
      ensures old(idle[0]).CallThreadFinish? ==> escaped == ExcOf(hook)
      ensures old(idle[0]).CallThreadFinally? ==>
        var t := old(idle[0].task);
        var r := old(idle[0].task.finishCallback.value);
        && r.tasks == old(r.tasks) - {t}
        && escaped == (if t in old(r.tasks) then ExcOf(hook) else Some(KeyError))
      ensures Valid()
      // while the bookkeeping holds, it keeps holding, and completing a task never hits the KeyError
      ensures old(Bookkept()) ==> Bookkept() && escaped == ExcOf(hook)
    {
      if idle[0].CallThreadFinish? {
        escaped := RunThreadFinish(hook);
      } else {
        escaped := RunThreadFinally(hook);
      }
    }

    /** The oldest idle callback is `_thread_finish`: it calls the `thread_finish` hook. */
    method RunThreadFinish(hook: Outcome) returns (escaped: Option<ExcInfo>)
      requires Valid() && idle != [] && idle[0].CallThreadFinish?
      modifies this
      ensures idle == old(idle[1..]) && workers == old(workers)
      ensures trace == old(trace) + [RanThreadFinish(old(idle[0].task))]
      ensures escaped == ExcOf(hook)
      ensures Valid()
      ensures old(Bookkept()) ==> Bookkept()
    {
      var t := idle[0].task;
      assert CallbacksRecorded(workers, idle[1..]) by {
        forall d | d in idle[1..] ensures d.task.finishCallback.Some? {
          assert d in idle;
        }
      }
      idle := idle[1..];
      Record(RanThreadFinish(t));
      escaped := ExcOf(hook);
      assert old(Pending()) == Pending();
    }

    /**
     * The oldest idle callback is `_thread_finally`: it runs the task's
     * finalizer, which completes the task with its runner.
     */
    method RunThreadFinally(hook: Outcome) returns (escaped: Option<ExcInfo>)
      requires Valid() && idle != [] && idle[0].CallThreadFinally?
      modifies this, idle[0].task.finishCallback.value
      ensures idle == old(idle[1..]) && workers == old(workers)
      ensures trace == old(trace) + Dispatched(old(idle[0]))
      ensures
        var t := old(idle[0].task);
        var r := old(idle[0].task.finishCallback.value);
        && r.tasks == old(r.tasks) - {t}
        && escaped == (if t in old(r.tasks) then ExcOf(hook) else Some(KeyError))
      ensures Valid()
      ensures old(Bookkept()) ==> Bookkept() && escaped == ExcOf(hook)
    {
      var t, e := idle[0].task, idle[0].excInfo;
      assert CallbacksRecorded(workers, idle[1..]) by {
        forall d | d in idle[1..] ensures d.task.finishCallback.Some? {
          assert d in idle;
        }
      }
      idle := idle[1..];
      escaped := t.Finalize(e, hook, this);
      if old(Bookkept()) {
        PopFinalizerPending(workers, old(idle));
        forall w | w in workers
          ensures w in w.finishCallback.value.tasks
        {
          assert w != t && w in old(workers);
        }
        forall d | d in idle && d.CallThreadFinally?
          ensures d.task in d.task.finishCallback.value.tasks
        {
          FinalizerMember(idle, d);
          assert d.task != t && d in old(idle);
        }
      }
    }

    /**
     * One main-loop turn as every runner sees it: each runner in `runners`
     * loses the task whose finalizer runs, if that finalizer calls it back,
     * and nothing else.
     */
    method Turn(hook: Outcome, ghost runners: set<TaskRunner>) returns (escaped: Option<ExcInfo>)
      requires Valid() && idle != [] && RunnerOf(idle[0]) <= runners
      modifies this, runners
      ensures idle == old(idle[1..]) && workers == old(workers)
      ensures trace == old(trace) + Dispatched(old(idle[0]))
      ensures forall r | r in runners :: r.tasks == old(r.tasks) - FinishedBy(old(idle[0]), r)
      ensures escaped == ExcOf(hook) || (old(idle[0]).CallThreadFinally? && escaped == Some(KeyError))
      ensures Valid()
    {
      ghost var c := idle[0];
      escaped := RunIdle(hook);
      forall r | r in runners
        ensures r.tasks == old(r.tasks) - FinishedBy(c, r)
      {
        if r !in RunnerOf(c) {
          assert FinishedBy(c, r) == {};
        }
      }
    }

    /**
     * The main loop runs every queued callback in order; `hooks[i]` is how the
     * hook of the `i`-th one ends. Each runner loses exactly the tasks whose
     * queued finalizers call it back.
     */
    method Drain(hooks: seq<Outcome>, ghost runners: set<TaskRunner>) returns (escaped: seq<Option<ExcInfo>>)
      requires Valid() && |hooks| == |idle| && Runners(idle) <= runners
      modifies this, runners
      ensures idle == [] && workers == old(workers) && Valid()
      ensures trace == old(trace) + DrainTrace(old(idle))
      ensures forall r | r in runners :: r.tasks == old(r.tasks) - old(FinishedVia(idle, r))
      ensures EscapesOnlyFrom(escaped, hooks, old(idle))
    {
      ghost var q := idle;
      escaped := [];
      var k := 0;
      while idle != []
        invariant k <= |q| && idle == q[k..] && Valid() && workers == old(workers)
        invariant trace == old(trace) + DrainTrace(q[..k])
        invariant forall r | r in runners :: r.tasks == old(r.tasks) - FinishedVia(q[..k], r)
        invariant EscapesOnlyFrom(escaped, hooks[..k], q[..k])
        decreases |idle|
      {
        ghost var c := idle[0];
        assert c == q[k];
        assert RunnerOf(c) <= runners by { assert c in q; }
        label Before:
        var e := Turn(hooks[k], runners);
        DrainStep(q, k, old(trace), trace);
        forall r | r in runners
          ensures r.tasks == old(r.tasks) - FinishedVia(q[..k + 1], r)
        {
          assert old@Before(r.tasks) == old(r.tasks) - old@Before(FinishedVia(q[..k], r));
          assert old@Before(FinishedVia(q[..k], r)) == FinishedVia(q[..k], r);
          assert r.tasks == old@Before(r.tasks) - FinishedBy(c, r);
          FinishedViaSnoc(q, k, r);
        }
        EscapesOnlyFromSnoc(escaped, e, hooks, q, k);
        escaped := escaped + [e];
        k := k + 1;
      }
      assert q[..k] == q && hooks[..k] == hooks;
      forall r | r in runners
        ensures r.tasks == old(r.tasks) - old(FinishedVia(q, r))
      {
      }
    }
  }

  /*
   * Scenarios.
   */

  /**
   * Adding an untracked thread task and letting it run to completion, on a
   * quiet main loop, leaves its runner tracking what it tracked before.
   */
  method AddThenComplete(runner: TaskRunner, t: Task, loop: MainLoop, threadDo: Outcome, hooks: seq<Outcome>)
    returns (escaped: seq<Option<ExcInfo>>)
    requires loop.workers == [] && loop.idle == []
    requires t.kind == ThreadTask && t !in runner.tasks
    requires |hooks| == |WorkerCalls(t, threadDo)|
    modifies runner, t, loop
    ensures runner.tasks == old(runner.tasks)
    ensures loop.trace == old(loop.trace) + DrainTrace(WorkerCalls(t, threadDo))
    ensures loop.workers == [] && loop.idle == []
    ensures EscapesOnlyFrom(escaped, hooks, WorkerCalls(t, threadDo))
  {
    var err := runner.AddTask(t, loop);
    var reraised := loop.RunWorker(0, threadDo);
    ghost var q := loop.idle;
    assert q == WorkerCalls(t, threadDo);
    assert Runners(q) == {runner};
    assert FinishedVia(q, runner) == {t} by {
      assert q[|q| - 1] in q;
    }
    escaped := loop.Drain(hooks, {runner});
  }

  /** Two thread tasks are added to a runner without `end_on_finish`. */
  method TwoTasksAdded() returns (loop: MainLoop, runner: TaskRunner, a: Task, b: Task)
    ensures fresh(loop) && fresh(runner) && fresh(a) && fresh(b)
    ensures a.kind == ThreadTask && b.kind == ThreadTask
    ensures a.finishCallback == Some(runner) && b.finishCallback == Some(runner)
    ensures loop.workers == [a, b] && loop.idle == [] && runner.tasks == {a, b}
  {
    loop := new MainLoop();
    runner := new TaskRunner(false);
    a := new Task(Some("a"), ThreadTask);
    b := new Task(Some("b"), ThreadTask);
    var err := runner.AddTask(a, loop);
    err := runner.AddTask(b, loop);
  }

  /**
   * The second task's worker finishes first and the first one's worker
   * raises; both completions are then queued for the main loop.
   */
  method TwoTasksQueued() returns (loop: MainLoop, runner: TaskRunner, a: Task, b: Task)
    ensures fresh(loop) && fresh(runner)
    ensures a.finishCallback == Some(runner) && b.finishCallback == Some(runner) && runner.tasks == {a, b}
    ensures loop.workers == [] && loop.idle == [CallThreadFinish(b), CallThreadFinally(b, None), CallThreadFinally(a, Some(ExcInfo("OSError")))]
  {
    loop, runner, a, b := TwoTasksAdded();
    var err := loop.RunWorker(1, Returned);
    err := loop.RunWorker(0, Raised(ExcInfo("OSError")));
  }

  /** Once the main loop has drained that queue, no task is tracked any more. */
  method TwoTasksComplete() returns (remaining: set<Task>)
    ensures remaining == {}
  {
    var loop, runner, a, b := TwoTasksQueued();
    ghost var q := loop.idle;
    assert Runners(q) == {runner};
    assert FinishedVia(q, runner) == {a, b};
    var escaped := loop.Drain([Returned, Returned, Returned], {runner});
    remaining := runner.tasks;
  }

  /**
   * A task whose `thread_do` raises ValueError: `thread_finish` never runs,
   * `thread_finally` receives the exception, the callback still fires, and the
   * task is no longer tracked.
   */
  method RaisingTaskCompletes() returns (t: Task, trace: seq<Event>, remaining: set<Task>)
    ensures trace == [RanThreadFinally(t, Some(ExcInfo("ValueError"))), InvokedFinishCallback(t)]
    ensures remaining == {}
  {
    var loop := new MainLoop();
    var runner := new TaskRunner(false);
    t := new Task(None, ThreadTask);
    var err := runner.AddTask(t, loop);
    var reraised := loop.RunWorker(0, Raised(ExcInfo("ValueError")));
    var escaped := loop.RunIdle(Returned);
    trace := loop.trace;
    remaining := runner.tasks;
  }

  /**
   * With `end_on_finish`, the shutdown cleanup forgets a task whose thread is
   * still running; when that thread completes, `_task_finished` raises KeyError
   * out of `set.remove`.
   */
  method CompletionAfterCleanup() returns (escaped: Option<ExcInfo>)
    ensures escaped == Some(KeyError)
  {
    var loop := new MainLoop();
    var runner := new TaskRunner(true);
    var t := new Task(None, ThreadTask);
    var err := runner.AddTask(t, loop);
    var reported := runner.FinishCleanup();
    err := loop.RunWorker(0, Returned);
    escaped := loop.RunIdle(Returned);
    escaped := loop.RunIdle(Returned);
  }
}
