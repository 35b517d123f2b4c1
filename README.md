# kupfer background tasks and directory listing, in Dafny

This project models two pieces of the kupfer launcher and proves properties of them.

**Background tasks** (`tasks.dfy`, module `Tasks`) model `kupfer/task.py`:

- A `TaskRunner` keeps the set of tasks in flight. `add_task` adds a task to the set before starting it. `_task_finished` removes it again. `_finish_cleanup` runs at shutdown and either clears the set or reports what is left.
- A `ThreadTask` runs `thread_do` on a worker thread. It then uses `gobject.idle_add` to queue `thread_finish` (only on success) and `_thread_finally` (always) for the GUI main loop. `_thread_finally` calls the `thread_finally` hook and then, in a `finally` clause, the runner's callback.

Threads and the main loop are modelled sequentially by the class `MainLoop`:

- `workers` holds the started threads that have not run yet. Running one, in any order, appends its idle calls.
- `idle` is the first-in, first-out idle queue. The main loop takes calls from its front.
- `trace` records the calls the main thread makes.

How a hook ends (returns or raises) is a parameter of the step that runs it. The base class `Task` and its subclass `ThreadTask` are one class, `Task`, whose `kind` field tells them apart.

**Directory listing** (`dirlist.dfy`, module `DirList`) models `get_dirlist` of `kupfer/utils.py`:

- The file system is a finite tree of `Dir` values. A path is a sequence of name components, so `path.join` appends a component, and `path.samefile` on the paths `os.walk` yields is path equality.
- `os.walk(folder)` (top-down, links not followed) is the recursive method `Walk`. It runs the body of `get_dirlist`'s `for` loop (`VisitDir`) at each directory. It then descends into the names still left in `dirnames` after the body has pruned that list in place. In the model, the body returns the pruned list.
- The body's three loops and its depth loop are separate methods. `ListSubdirs`, `ListFiles` and `Prune` are each proved against the function `Keep` ("the names of a list that pass a test, in order"). `DepthBelow` is proved to count the levels between `folder` and `dirname`. The whole listing is proved equal to the function `Listing`.
- Lemmas characterise `Listing` and the directories the walk visits (`Visited`) without reference to the walk order.

`wrappers.dfy` (module `Wrappers`) holds the `Option` type and one sequence lemma used by both models.

Three behaviours of the task runner's code are worth naming, and the model keeps each of them:

- `_task_finished` on a task the runner does not track raises KeyError from `set.remove` (`TaskFinished`).
- `add_task` adds a task to the set before calling its `start`. A base-class `Task`, whose `start` raises NotImplementedError, therefore stays tracked (`AddTask`).
- With `end_on_finish`, `_finish_cleanup` empties the set while worker threads may still run. When such a task later completes, `_task_finished` raises KeyError (`CompletionAfterCleanup`).

The bookkeeping invariant `MainLoop.Bookkept` states one direction only: every thread task whose completion is still owed (its worker has not run, or its `_thread_finally` is still queued) is tracked by its runner, and owes at most one completion. The converse, "tracked implies owed", is not stated. The second point above shows that it can fail: a base-class task stays tracked although it owes nothing. The cleanup in the third point breaks `Bookkept` itself. `AddTask` (for a task not already owed), `RunWorker` and `RunIdle` preserve `Bookkept`, and while it holds no KeyError escapes from a completion.

## Model

| member | source | states |
|---|---|---|
| Tasks.WorkerCalls | kupfer/task.py:45-55 | one run of `_run_thread` queues the finalizer exactly once and last, carrying the exception exactly when `thread_do` raised; it queues `thread_finish` exactly when `thread_do` returned, and then first, with nothing else queued |
| Tasks.Dispatched | kupfer/task.py:29-43 | a queued call runs its own hook first, on its task and exception information; a `_thread_finally` call ends with `finish_callback(self)` whatever the hook did, and a `thread_finish` call makes no callback |
| Tasks.CallbacksMatchFinalizers | kupfer/task.py:39-43 | draining any idle queue invokes `finish_callback(task)` exactly once per queued `_thread_finally`, for that task, and at no other time |
| Tasks.ExactlyOneCallback | kupfer/task.py:39-55 | whatever else is queued around it, a task's `finish_callback` runs exactly once after its worker, on success and on failure |
| Tasks.WorkerTrace | kupfer/task.py:39-55 | the main-thread calls for one worker run: `thread_finish`, `thread_finally(None)`, callback on success; `thread_finally(exc)`, callback on failure |
| Tasks.SuccessOrder | kupfer/task.py:45-55 | on success `thread_finish` runs strictly before `thread_finally(None)`, which is followed straight away by the callback |
| Tasks.FailureOrder | kupfer/task.py:45-55 | on failure the main loop runs `thread_finally` with the captured exception and then the callback, and nothing in between |
| Tasks.FinishRunIffQueued | kupfer/task.py:47-48 | the main loop runs `thread_finish` for a task exactly when it was queued for it |
| Tasks.FailureSkipsFinish | kupfer/task.py:45-55 | when `thread_do` raises, `thread_finish` never runs for that task, but `thread_finally` still runs with the exception |
| Tasks.Task.constructor | kupfer/task.py:19-23 | a new task has its name and no `finish_callback` |
| Tasks.Task.Start | kupfer/task.py:16-60 | the base class's `start` (lines 16-17) raises NotImplementedError and records nothing; a thread task's `start` (lines 57-60) records the callback before spawning exactly one worker, and queues nothing yet |
| Tasks.Task.RunThread | kupfer/task.py:45-55 | the worker body appends exactly `WorkerCalls` to the idle queue and re-raises the exception `thread_do` raised |
| Tasks.Task.Finalize | kupfer/task.py:39-43 | `_thread_finally` runs `thread_finally`, then the callback even if the hook raised; the runner loses exactly this task; a KeyError from the callback replaces the hook's exception |
| Tasks.TaskRunner.constructor | kupfer/task.py:65-67 | a new runner tracks no task |
| Tasks.TaskRunner.TaskFinished | kupfer/task.py:70-72 | removes exactly the task; KeyError, and no change, when it was not tracked |
| Tasks.TaskRunner.AddTask | kupfer/task.py:74-77 | the task is tracked (even when `start` raises), then started; a base-class task's callback is left as it was; the queue bookkeeping stays valid |
| Tasks.TaskRunner.FinishCleanup | kupfer/task.py:79-86 | with `end_on_finish` the set becomes empty; without it the set is unchanged and exactly its tasks are reported |
| Tasks.MainLoop.Spawn | kupfer/task.py:59-60 | starting a thread adds one waiting worker and changes nothing else |
| Tasks.MainLoop.IdleAdd | kupfer/task.py:55 | `idle_add` appends to the back of the idle queue |
| Tasks.MainLoop.RunWorker | kupfer/task.py:45-55 | any waiting worker may run next; it leaves the waiting set, its calls are appended to the queue, and `Valid` and `Bookkept` are preserved |
| Tasks.RunWorkerKeepsBookkeeping | kupfer/task.py:45-55 | a worker run hands its task's owed completion to the idle queue: the multiset of owed completions is unchanged and "tracked while owed, owed at most once" is kept |
| Tasks.PopFinalizerPending | kupfer/task.py:39-43 | running a queued finalizer discharges exactly that task's owed completion |
| Tasks.MainLoop.RunIdle | kupfer/task.py:39-43 | one main-loop turn runs the oldest idle call; a finalizer removes its task from its runner, and while the bookkeeping holds it keeps holding and no KeyError escapes |
| Tasks.MainLoop.RunThreadFinish | kupfer/task.py:29-33 | running `thread_finish` records it and lets only the hook's exception escape |
| Tasks.MainLoop.RunThreadFinally | kupfer/task.py:39-43 | running `_thread_finally` records the hook and the callback, removes the task from its runner, and keeps the bookkeeping |
| Tasks.MainLoop.Turn | kupfer/task.py:39-43 | one main-loop turn as every runner sees it: each runner loses the task whose finalizer runs if that finalizer calls it back, and nothing else; only the hook's exception or a finalizer's KeyError escapes |
| Tasks.MainLoop.Drain | kupfer/task.py:39-55 | draining the queue makes exactly `DrainTrace` of it and keeps `Valid`; every runner given loses exactly the tasks whose queued finalizers call it back; only hook exceptions or a finalizer's KeyError escape |
| Tasks.AddThenComplete | kupfer/task.py:70-77 | adding an untracked task and running it to completion leaves its runner's set as it was |
| Tasks.TwoTasksAdded | kupfer/task.py:74-77 | two added thread tasks are tracked, each with the runner as callback, with one waiting worker each |
| Tasks.TwoTasksQueued | kupfer/task.py:45-55 | workers finishing out of order queue their calls in the order they finish |
| Tasks.TwoTasksComplete | kupfer/task.py:70-72 | after the main loop drains both tasks' calls, no task is tracked |
| Tasks.RaisingTaskCompletes | kupfer/task.py:39-55 | a task whose `thread_do` raises ValueError gets only `thread_finally(ValueError)` and the callback, and is no longer tracked |
| Tasks.CompletionAfterCleanup | kupfer/task.py:79-82 | with `end_on_finish`, a task completing after the shutdown cleanup hits KeyError in `_task_finished` |
| DirList.IncludeFile | kupfer/utils.py:15-16 | with neither filter every name is accepted; a name `include` refuses, or `exclude` matches, is rejected whatever the other filter says |
| DirList.KeepMember | kupfer/utils.py:29-40 | a name survives filtering exactly when it is in the list and passes the test |
| DirList.RemoveFirst | kupfer/utils.py:43 | `list.remove` takes out one occurrence: one element fewer, the same multiset less that name |
| DirList.RemoveFirstShape | kupfer/utils.py:43 | `list.remove` takes out the first occurrence of the name and keeps the names before and after it in their order |
| DirList.KeepDistinct | kupfer/utils.py:28-31 | the rejected names collected from a list of distinct names are distinct |
| DirList.RemoveFirstKeep | kupfer/utils.py:42-43 | removing one more rejected name from the partly pruned list leaves the names outside the larger rejected set, in order |
| DirList.DepthBelow | kupfer/utils.py:20-23 | the `split` loop counts exactly how many levels `dirname` lies below `folder` |
| DirList.ListSubdirs | kupfer/utils.py:28-34 | the accepted subdirectories are appended joined with `dirname`, in order; exactly the rejected ones go to `excl_dir`, in order |
| DirList.ListFiles | kupfer/utils.py:36-40 | the accepted files are appended joined with `dirname`, in order |
| DirList.Prune | kupfer/utils.py:42-43 | removing each name of `excl_dir` from `dirnames` leaves exactly the other names, in order |
| DirList.VisitDir | kupfer/utils.py:19-43 | a directory too deep adds nothing and empties `dirnames`; otherwise its accepted subdirectories, then its accepted files, are appended, and exactly the rejected subdirectories are pruned |
| DirList.Walk | kupfer/utils.py:18 | walking from a directory appends exactly its `Listing` and yields exactly its `Visited` directories |
| DirList.GetDirlist | kupfer/utils.py:6-45 | the result is `Listing` of the tree, and a path is in it exactly when it is an entry reached through accepted names only and lies at most `depth + 1` levels below `folder` |
| DirList.ListingIff | kupfer/utils.py:18-43 | a path is listed exactly when it is `dirname` joined with an entry of the tree, every component of which is accepted, at most `depth + 1` levels below `folder` |
| DirList.VisitedIff | kupfer/utils.py:18-26 | the walk yields exactly the start directory and the directories below it reached through accepted names, at most `depth + 1` levels below `folder` |
| DirList.UnfilteredComplete | kupfer/utils.py:15-16 | with no `include` and no `exclude`, every entry down to `depth + 1` levels is listed |
| DirList.ExcludedSubtreeSkipped | kupfer/utils.py:28-43 | nothing at or below a rejected name is listed or visited |
| DirList.DepthBound | kupfer/utils.py:20-26 | every listed path lies 1 to `depth + 1` levels below `folder`, and no visited directory lies deeper than `depth + 1` levels, so those at that depth are not descended into |
| DirList.TopDown | kupfer/utils.py:18-34 | a path two or more levels below the start is listed after its parent directory's path |
| DirList.DepthZeroListsTopLevel | kupfer/utils.py:24-26 | with depth 0, a folder holding one subdirectory and one file lists just those two, the subdirectory first, and nothing inside the subdirectory |

## Left out

- `kupfer/kupferui.py` (the About dialog and the help viewer) is GUI code and is not part of this model.
- `spawn_async`, `app_info_for_commandline`, `launch_commandline`, `launch_app`, `show_path` and `show_url` call platform services and are not part of this model.
- `locale_sort` depends on the C library's locale collation and is not part of this model.
- Real threads are not modelled. Worker runs and main-loop turns are atomic steps, and the only interleaving captured is which waiting worker runs next and when the main loop takes a call.
- `idle_add` runs a callback again when it returns a true value. `_thread_finally` and the default `thread_finish` return `None`, but an overriding `thread_finish` that returns a true value would run again; the model runs each queued call once.
- `finish_callback` is modelled only as a runner's `_task_finished`: `Task.Start` takes the `TaskRunner` whose callback it records, whereas `start` accepts any callable.
- `exc_info` keeps only the exception type (`ExcInfo`); the value and the traceback that `sys.exc_info()` also returns are not modelled.
- The subscription to the scheduler's "finish" signal (`kupfer/task.py:68`) is not modelled; `FinishCleanup` is called directly.
- Debug and info logging (`output_debug`, `output_info`) are not modelled; `FinishCleanup` returns the set it would log.
- `Task.name` is carried but nothing is proved about it. `__unicode__` only returns `name` and is not modelled.
- Hooks (`thread_do`, `thread_finish`, `thread_finally`) are outcomes given as parameters. What they compute is caller code.
- Starting the same task twice is not guarded in the source and is not modelled beyond what `Start` does each time.
- Tasks.MainLoop.Drain: it does not carry `Bookkept` across the whole drain, so it states the escaped exceptions only as "the hook's, or a finalizer's KeyError"; `RunIdle` states per turn that under `Bookkept` no KeyError escapes.
- `os.walk` I/O is not modelled. The tree is a parameter and `listdir` errors (skipped silently by `os.walk`) cannot occur.
- Symbolic links are not modelled: `os.walk` lists a link to a directory among `dirnames` but does not descend into it, whereas every `Dir` here is descended into.
- `path.samefile` and `path.split` are modelled as path equality and dropping the last component. `..`, trailing separators and links in `folder` are not modelled.
- `include` and `exclude` are total functions here. An exception they raise, and Python truthiness of a callable other than `None`, are not modelled.
- DirList.GetDirlist and DirList.Walk require `WellFormed`: names within one directory are distinct, and no name is both a file and a subdirectory. A real file system guarantees this; the proof of `Prune` uses it. The source itself does not need it: a rejected name listed twice would be collected twice and removed twice.
