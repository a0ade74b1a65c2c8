/**
 The fields of class threadpool and the two stretches of code that change them under the mutex,
 shown to make the moves of the protocol on the linked task queue.
 */
module ThreadPool {
  import opened Prelude
  import opened PoolProtocol
  import LinkList
  import Queue

  class ThreadPool {
    const queueMaxSize: int
    var queueSize: int
    const taskQueue: LinkList.LList<Task>

    /** The fields are those of protocol state s. */
    ghost predicate Shows(s: Pool)
      reads this, taskQueue, taskQueue.repr
    {
      && taskQueue.Valid() && this !in taskQueue.repr
      && s.maxSize == queueMaxSize && s.queueSize == queueSize && s.queue == taskQueue.contents
    }

    constructor (threadNum: int, queueMax: int)
      ensures fresh(taskQueue.repr) && queueMaxSize == queueMax
      ensures taskQueue.Valid() && taskQueue.contents == [] && queueSize == 0
      ensures forall s :: Init(s, threadNum) && s.maxSize == queueMax ==> Shows(s)
    {
      queueMaxSize := queueMax;
      queueSize := 0;
      taskQueue := new LinkList.LList<Task>();
    }

    /** The test that decides whether add_task waits. */
    method MustWaitToAdd(ghost s: Pool, ghost i: nat) returns (wait: bool)
      requires Shows(s) && i < |s.submitters| && s.submitters[i].SCheck?
      ensures wait <==> SubmitterStep(s, i, {}).submitters[i].SWaiting?
    {
      wait := queueSize >= queueMaxSize;
    }

    /** add_task from the enqueue to the increment, for the thread that holds the mutex. */
    method AddTask(task: Task, ghost s: Pool, ghost i: nat) returns (ghost s': Pool)
      requires Shows(s) && i < |s.submitters| && s.submitters[i] == SEnq(task)
      modifies this, taskQueue.repr
      ensures s' == SubmitterStep(SubmitterStep(s, i, {}), i, {}) && s'.submitters[i] == SSignal
      ensures Shows(s') && fresh(taskQueue.repr - old(taskQueue.repr))
      ensures taskQueue.contents == old(taskQueue.contents) + [task] && queueSize == old(queueSize) + 1
    {
      var ret := Queue.Enqueue(taskQueue, task);
      queueSize := queueSize + 1;
      s' := SubmitterStep(SubmitterStep(s, i, {}), i, {});
    }

    /** The test that decides whether work() waits. */
    method MustWaitToTake(ghost s: Pool, ghost w: nat) returns (wait: bool)
      requires Shows(s) && w < |s.workers| && s.workers[w].WCheck?
      ensures wait <==> WorkerStep(s, w).workers[w].WWaiting?
    {
      wait := queueSize <= 0;
    }

    /** work() from the dequeue to the decrement; None is the failed dequeue, which skips the decrement. */
    method TakeTask(ghost s: Pool, ghost w: nat) returns (task: Option<Task>, ghost s': Pool)
      requires Shows(s) && w < |s.workers| && s.workers[w].WDeq?
      modifies this, taskQueue.repr
      ensures Shows(s') && taskQueue.repr == old(taskQueue.repr)
      ensures task == None <==> s.queue == []
      ensures task == None ==> s' == WorkerStep(s, w) && s'.workers[w].WStuck? && queueSize == old(queueSize)
      ensures task != None ==>
                && s' == WorkerStep(WorkerStep(s, w), w) && s'.workers[w] == WBroadcast(task.value)
                && old(taskQueue.contents) == [task.value] + taskQueue.contents
                && queueSize == old(queueSize) - 1
    {
      var ret, data := Queue.Dequeue(taskQueue);
      s' := WorkerStep(s, w);
      if ret < 0 {
        return None, s';
      }
      queueSize := queueSize - 1;
      s' := WorkerStep(s', w);
      return data, s';
    }
  }
}
