/**
 * The launcher's task scheduler: a queue of optional tasks (a slot is blanked
 * instead of removed when a duplicate is enqueued) and a bounded list of
 * active tasks promoted from the front of the queue.
 *
 * The mutex around the state is left out: every operation runs alone. A
 * task's random UUID handle is modelled as a counter, which keeps the one
 * thing the scheduler relies on: handles are distinct.
 */
module LauncherState {
  import opened Wrappers

  datatype Cargo = CleanWraps | BuildWraps
  datatype Dev = Cargo(kind: Cargo) | CompileWrap(name: string)
  datatype Task = Dev(dev: Dev)

  type Handle = nat
  datatype ActiveTask = ActiveTask(handle: Handle, task: Task)

  const MAX_CONCURRENT_TASKS: nat := 3

  /** Starting a `CompileWrap` task is unimplemented in the source and
      panics; only cargo tasks can become active. */
  predicate Startable(t: Task)
  {
    t.dev.Cargo?
  }

  /** What promotion does to a queue when `active` tasks are running: the
      queue left over and the tasks started, in order. */
  function Promote(queue: seq<Option<Task>>, active: nat): (seq<Option<Task>>, seq<Task>)
  {
    if active >= MAX_CONCURRENT_TASKS || queue == [] then (queue, [])
    else match queue[0]
      case None => Promote(queue[1..], active)
      case Some(t) =>
        var (rest, started) := Promote(queue[1..], active + 1);
        (rest, [t] + started)
  }

  /** The tasks held by a sequence of slots, in order. */
  function Tasks(slots: seq<Option<Task>>): seq<Task>
  {
    if slots == [] then []
    else (if slots[0].Some? then [slots[0].value] else []) + Tasks(slots[1..])
  }

  /** Promotion pops a prefix of the queue and starts exactly the tasks in
      that prefix, in queue order. Afterwards the queue is empty or the
      limit is reached, and the limit is never exceeded. */
  lemma {:induction false} PromoteSpec(queue: seq<Option<Task>>, active: nat)
    ensures var (rest, started) := Promote(queue, active);
      && |rest| <= |queue| && queue[|queue| - |rest|..] == rest
      && started == Tasks(queue[..|queue| - |rest|])
      && (rest == [] || active + |started| >= MAX_CONCURRENT_TASKS)
      && (active < MAX_CONCURRENT_TASKS ==> active + |started| <= MAX_CONCURRENT_TASKS)
      && (active >= MAX_CONCURRENT_TASKS ==> started == [] && rest == queue)
  {
    if active >= MAX_CONCURRENT_TASKS || queue == [] {
      assert queue[..0] == [];
    } else {
      var next := if queue[0].Some? then active + 1 else active;
      PromoteSpec(queue[1..], next);
      var (rest, started) := Promote(queue[1..], next);
      var popped := queue[1..][..|queue[1..]| - |rest|];
      assert queue[..|queue| - |rest|] == [queue[0]] + popped;
      assert ([queue[0]] + popped)[1..] == popped;
    }
  }

  /** The slots `Promote` would start are all startable (otherwise the
      source panics). */
  predicate CanPromote(queue: seq<Option<Task>>, active: nat)
  {
    forall k :: 0 <= k < |Promote(queue, active).1| ==> Startable(Promote(queue, active).1[k])
  }

  /** What remains to be started after one pop is still startable. */
  lemma CanPromoteTail(queue: seq<Option<Task>>, active: nat)
    requires active < MAX_CONCURRENT_TASKS && queue != [] && CanPromote(queue, active)
    ensures CanPromote(queue[1..], if queue[0].Some? then active + 1 else active)
  {
    var next := if queue[0].Some? then active + 1 else active;
    var tail := Promote(queue[1..], next).1;
    var shift := if queue[0].Some? then 1 else 0;
    forall k | 0 <= k < |tail|
      ensures Startable(tail[k])
    {
      assert Promote(queue, active).1[k + shift] == tail[k];
    }
  }

  /** The queue with every slot equal to `Some(task)` blanked. */
  function Blank(queue: seq<Option<Task>>, task: Task): (r: seq<Option<Task>>)
    ensures |r| == |queue|
    ensures forall k :: 0 <= k < |queue| ==> r[k] == if queue[k] == Some(task) then None else queue[k]
  {
    seq(|queue|, k requires 0 <= k < |queue| => if queue[k] == Some(task) then None else queue[k])
  }

  /** No task is queued twice. */
  predicate NoDuplicates(queue: seq<Option<Task>>)
  {
    forall i, j :: 0 <= i < j < |queue| && queue[i].Some? ==> queue[i] != queue[j]
  }

  /** The active tasks after `retain` with a completed handle. */
  function Without(tasks: seq<ActiveTask>, h: Handle): (r: seq<ActiveTask>)
    ensures |r| <= |tasks|
    ensures forall k :: 0 <= k < |r| ==> r[k].handle != h && r[k] in tasks
  {
    if tasks == [] then []
    else (if tasks[0].handle == h then [] else [tasks[0]]) + Without(tasks[1..], h)
  }

  /** Tasks started in order under consecutive handles from `first`. */
  function Activate(tasks: seq<Task>, first: Handle): (r: seq<ActiveTask>)
    ensures |r| == |tasks|
    ensures forall k :: 0 <= k < |tasks| ==> r[k] == ActiveTask(first + k, tasks[k])
  {
    seq(|tasks|, k requires 0 <= k < |tasks| => ActiveTask(first + k, tasks[k]))
  }

  lemma ActivateSnoc(tasks: seq<Task>, t: Task, first: Handle)
    ensures Activate(tasks + [t], first) == Activate(tasks, first) + [ActiveTask(first + |tasks|, t)]
  {
  }

  predicate DistinctHandles(tasks: seq<ActiveTask>)
  {
    forall i, j :: 0 <= i < j < |tasks| ==> tasks[i].handle != tasks[j].handle
  }

  /** Removing a handle keeps every other task, in order: with distinct
      handles, exactly the one task carrying it is gone. */
  lemma {:induction false} WithoutRemovesOne(tasks: seq<ActiveTask>, k: nat)
    requires k < |tasks| && DistinctHandles(tasks)
    ensures Without(tasks, tasks[k].handle) == tasks[..k] + tasks[k + 1..]
  {
    if k == 0 {
      WithoutAbsent(tasks[1..], tasks[0].handle);
      assert tasks[..0] + tasks[1..] == tasks[1..];
    } else {
      WithoutRemovesOne(tasks[1..], k - 1);
      assert tasks[1..][k - 1] == tasks[k];
      assert tasks[..k] == [tasks[0]] + tasks[1..][..k - 1];
      assert tasks[1..][k..] == tasks[k + 1..];
    }
  }

  lemma {:induction false} WithoutAbsent(tasks: seq<ActiveTask>, h: Handle)
    requires forall k :: 0 <= k < |tasks| ==> tasks[k].handle != h
    ensures Without(tasks, h) == tasks
  {
    if tasks != [] {
      WithoutAbsent(tasks[1..], h);
      assert [tasks[0]] + tasks[1..] == tasks;
    }
  }

  class State {
    var taskQueue: seq<Option<Task>>
    var activeTasks: seq<ActiveTask>
    /** `receive_task_update` has been taken by `initiate`. */
    var receiverTaken: bool
    var nextHandle: Handle

    ghost predicate Valid()
      reads this
    {
      && NoDuplicates(taskQueue)
      && DistinctHandles(activeTasks)
      && forall k :: 0 <= k < |activeTasks| ==> activeTasks[k].handle < nextHandle
    }

    constructor ()
      ensures Valid()
      ensures taskQueue == [] && activeTasks == [] && !receiverTaken
    {
      taskQueue := [];
      activeTasks := [];
      receiverTaken := false;
      nextHandle := 0;
    }

    predicate IsInitiated()
      reads this
    {
      receiverTaken
    }

    /** `process_queue`: acts only while the receiver is still present. */
    method ProcessQueue()
      requires Valid()
      requires !IsInitiated() ==> CanPromote(taskQueue, |activeTasks|)
      modifies this
      ensures Valid()
      ensures receiverTaken == old(receiverTaken)
      ensures old(IsInitiated()) ==> taskQueue == old(taskQueue) && activeTasks == old(activeTasks)
      ensures !old(IsInitiated()) ==>
        var (rest, started) := Promote(old(taskQueue), old(|activeTasks|));
        && taskQueue == rest
        && activeTasks == old(activeTasks) + Activate(started, old(nextHandle))
      ensures !old(IsInitiated()) ==> taskQueue == [] || |activeTasks| >= MAX_CONCURRENT_TASKS
      ensures old(|activeTasks|) <= MAX_CONCURRENT_TASKS ==> |activeTasks| <= MAX_CONCURRENT_TASKS
    {
      if IsInitiated() {
        return;
      }
      ghost var queue0 := taskQueue;
      ghost var active0 := activeTasks;
      ghost var started: seq<Task> := [];
      while |activeTasks| < MAX_CONCURRENT_TASKS
        invariant Valid() && !receiverTaken
        invariant CanPromote(taskQueue, |activeTasks|)
        invariant activeTasks == active0 + Activate(started, old(nextHandle))
        invariant nextHandle == old(nextHandle) + |started|
        invariant Promote(taskQueue, |activeTasks|).0 == Promote(queue0, |active0|).0
        invariant started + Promote(taskQueue, |activeTasks|).1 == Promote(queue0, |active0|).1
        decreases |taskQueue|
      {
        if taskQueue == [] {
          break;
        }
        ghost var front := taskQueue[0];
        assert front.Some? ==> Promote(taskQueue, |activeTasks|).1[0] == front.value;
        CanPromoteTail(taskQueue, |activeTasks|);
        PopFront();
        if front.Some? {
          ActivateSnoc(started, front.value, old(nextHandle));
          started := started + [front.value];
        }
      }
      assert Promote(taskQueue, |activeTasks|) == (taskQueue, []);
      PromoteSpec(queue0, |active0|);
    }

    /** One turn of the promotion loop: pop the front slot; a task in it
        becomes active under a new handle, a blank slot is discarded. */
    method PopFront()
      requires Valid() && taskQueue != [] && |activeTasks| < MAX_CONCURRENT_TASKS
      requires taskQueue[0].Some? ==> Startable(taskQueue[0].value)
      modifies this
      ensures Valid() && receiverTaken == old(receiverTaken)
      ensures taskQueue == old(taskQueue)[1..]
      ensures old(taskQueue)[0].None? ==> activeTasks == old(activeTasks) && nextHandle == old(nextHandle)
      ensures old(taskQueue)[0].Some? ==>
        && activeTasks == old(activeTasks) + [ActiveTask(old(nextHandle), old(taskQueue)[0].value)]
        && nextHandle == old(nextHandle) + 1
    {
      var front := taskQueue[0];
      SuffixKeepsNoDuplicates(taskQueue);
      taskQueue := taskQueue[1..];
      if front.Some? {
        activeTasks := activeTasks + [ActiveTask(nextHandle, front.value)];
        nextHandle := nextHandle + 1;
      }
    }

    /** `enqueue_task`: blank the duplicates, append, then process. */
    method EnqueueTask(task: Task)
      requires Valid()
      requires !IsInitiated() ==> CanPromote(Blank(taskQueue, task) + [Some(task)], |activeTasks|)
      modifies this
      ensures Valid()
      ensures receiverTaken == old(receiverTaken)
      ensures old(IsInitiated()) ==>
        taskQueue == Blank(old(taskQueue), task) + [Some(task)] && activeTasks == old(activeTasks)
      ensures !old(IsInitiated()) ==>
        var (rest, started) := Promote(Blank(old(taskQueue), task) + [Some(task)], old(|activeTasks|));
        && taskQueue == rest
        && activeTasks == old(activeTasks) + Activate(started, old(nextHandle))
    {
      var i := 0;
      while i < |taskQueue|
        invariant 0 <= i <= |taskQueue| == |old(taskQueue)|
        invariant forall k :: 0 <= k < |taskQueue| ==>
          taskQueue[k] == if k < i && old(taskQueue)[k] == Some(task) then None else old(taskQueue)[k]
        invariant activeTasks == old(activeTasks) && nextHandle == old(nextHandle)
        invariant receiverTaken == old(receiverTaken)
      {
        if taskQueue[i] == Some(task) {
          taskQueue := taskQueue[i := None];
        }
        i := i + 1;
      }
      assert taskQueue == Blank(old(taskQueue), task);
      BlankThenAppendNoDuplicates(old(taskQueue), task);
      taskQueue := taskQueue + [Some(task)];
      ProcessQueue();
    }

    /** `initiate`: takes the receiver (a second call panics), then calls
        `process_queue`, which from then on never acts. */
    method Initiate()
      requires Valid() && !IsInitiated()
      modifies this
      ensures Valid() && IsInitiated()
      ensures taskQueue == old(taskQueue) && activeTasks == old(activeTasks)
    {
      receiverTaken := true;
      ProcessQueue();
    }

    /** A completed status: the tasks with its handle leave the active list,
        then the queue is processed. */
    method OnCompleted(h: Handle)
      requires Valid()
      requires !IsInitiated() ==> CanPromote(taskQueue, |Without(activeTasks, h)|)
      modifies this
      ensures Valid()
      ensures receiverTaken == old(receiverTaken)
      ensures old(IsInitiated()) ==> activeTasks == Without(old(activeTasks), h) && taskQueue == old(taskQueue)
      ensures !old(IsInitiated()) ==>
        var (rest, started) := Promote(old(taskQueue), |Without(old(activeTasks), h)|);
        && taskQueue == rest
        && activeTasks == Without(old(activeTasks), h) + Activate(started, old(nextHandle))
      ensures !old(IsInitiated()) ==> taskQueue == [] || |activeTasks| >= MAX_CONCURRENT_TASKS
    {
      var remaining := Without(activeTasks, h);
      WithoutKeepsDistinct(activeTasks, h);
      assert DistinctHandles(remaining);
      assert forall k :: 0 <= k < |remaining| ==> remaining[k].handle < nextHandle;
      activeTasks := remaining;
      ProcessQueue();
    }
  }

  lemma SuffixKeepsNoDuplicates(queue: seq<Option<Task>>)
    requires NoDuplicates(queue) && queue != []
    ensures NoDuplicates(queue[1..])
  {
    forall i, j | 0 <= i < j < |queue[1..]| && queue[1..][i].Some?
      ensures queue[1..][i] != queue[1..][j]
    {
      assert queue[1..][i] == queue[i + 1] && queue[1..][j] == queue[j + 1];
    }
  }

  /** After blanking and appending, the new task is held once, by the last
      slot, and no other task is held twice. */
  lemma BlankThenAppendNoDuplicates(queue: seq<Option<Task>>, task: Task)
    requires NoDuplicates(queue)
    ensures NoDuplicates(Blank(queue, task) + [Some(task)])
    ensures forall k :: 0 <= k < |queue| ==> (Blank(queue, task) + [Some(task)])[k] != Some(task)
  {
  }

  lemma {:induction false} WithoutKeepsDistinct(tasks: seq<ActiveTask>, h: Handle)
    requires DistinctHandles(tasks)
    ensures DistinctHandles(Without(tasks, h))
    ensures forall k :: 0 <= k < |Without(tasks, h)| ==>
      exists j :: 0 <= j < |tasks| && Without(tasks, h)[k] == tasks[j]
  {
    if tasks != [] {
      WithoutKeepsDistinct(tasks[1..], h);
      var rest := Without(tasks[1..], h);
      forall k | 0 <= k < |rest|
        ensures rest[k].handle != tasks[0].handle
      {
        var j :| 0 <= j < |tasks[1..]| && rest[k] == tasks[1..][j];
        assert tasks[1..][j] == tasks[j + 1];
      }
      forall k | 0 <= k < |rest|
        ensures exists j :: 0 <= j < |tasks| && rest[k] == tasks[j]
      {
        var j :| 0 <= j < |tasks[1..]| && rest[k] == tasks[1..][j];
        assert tasks[1..][j] == tasks[j + 1];
      }
    }
  }
}
