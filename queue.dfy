/** The bounded task queue between the directory walker and the workers:
    a ring buffer of QUEUE_SIZE slots with head, tail and count indices.
    The mutex and condition variables are not modelled; a call that would
    wait on a condition variable instead reports that it would block. */
module TaskQueue {
  import opened Common

  const QueueSize: nat := 32768

  /** Index i of the ring, taken round once past its end. */
  function Wrap(i: nat): (r: nat)
    requires i < 2 * QueueSize
    ensures r < QueueSize && r == i % QueueSize
  {
    if i < QueueSize then i else i - QueueSize
  }

  /** What one pass through the dequeue block of a worker yields. */
  datatype Taken = Got(task: Task) | WouldBlock | Finished

  class Queue {
    /** The enqueued but not yet dequeued tasks, oldest first. */
    ghost var Contents: seq<Task>

    var slots: array<Task>
    var head: nat
    var tail: nat
    var count: nat

    ghost predicate Valid()
      reads this, slots
    {
      && slots.Length == QueueSize
      && head < QueueSize && tail < QueueSize && count <= QueueSize
      && head == Wrap(tail + count)
      && |Contents| == count
      && forall k :: 0 <= k < count ==> Contents[k] == slots[Wrap(tail + k)]
    }

    constructor ()
      ensures Valid() && fresh(slots)
      ensures Contents == [] && head == 0 && tail == 0
    {
      slots := new Task[QueueSize];
      head, tail, count := 0, 0, 0;
      Contents := [];
    }

    /** enqueue(src, dst, fname). When the queue is full the source waits on
        q_cond_not_full; here the call then reports `ok == false` and
        changes nothing. Otherwise the new task goes into slot `head`, which
        advances; no other slot changes. */
    method Enqueue(src: string, dst: Option<string>, fname: Option<string>) returns (ok: bool)
      requires Valid()
      modifies this, slots
      ensures Valid() && slots == old(slots)
      ensures ok <==> old(count) < QueueSize
      ensures ok ==> && Contents == old(Contents) + [Task(src, dst, fname)]
                     && slots[old(head)] == Task(src, dst, fname)
                     && head == (old(head) + 1) % QueueSize
                     && tail == old(tail) && count == old(count) + 1
      ensures !ok ==> && Contents == old(Contents) && slots[..] == old(slots[..])
                      && head == old(head) && tail == old(tail) && count == old(count)
      ensures forall i :: 0 <= i < QueueSize && i != old(head) ==> slots[i] == old(slots[i])
    {
      if count == QueueSize {
        return false;
      }
      slots[head] := Task(src, dst, fname);
      head := (head + 1) % QueueSize;
      assert head == Wrap(old(head) + 1);
      count := count + 1;
      Contents := Contents + [Task(src, dst, fname)];
      forall k | 0 <= k < count
        ensures Contents[k] == slots[Wrap(tail + k)]
      {
        if k < count - 1 {
          assert Contents[k] == old(Contents)[k];
          assert Wrap(tail + k) != old(head);
        } else {
          assert Wrap(tail + k) == old(head);
        }
      }
      return true;
    }

    /** The dequeue block of worker_routine, given whether the producer has
        set done_producing. An empty queue yields Finished once production is
        done and WouldBlock (the source waits on q_cond_not_empty) before;
        neither changes anything. Otherwise the entry in slot `tail`, the
        oldest one, is returned and `tail` advances. No slot is written. */
    method Dequeue(done: bool) returns (r: Taken)
      requires Valid()
      modifies this
      ensures Valid() && slots == old(slots)
      ensures old(count) == 0 ==> && r == (if done then Finished else WouldBlock)
                                  && Contents == old(Contents)
                                  && head == old(head) && tail == old(tail) && count == 0
      ensures old(count) > 0 ==> && r == Got(old(Contents)[0]) && r.task == slots[old(tail)]
                                 && Contents == old(Contents)[1..]
                                 && tail == (old(tail) + 1) % QueueSize
                                 && head == old(head) && count == old(count) - 1
    {
      if count == 0 {
        return if done then Finished else WouldBlock;
      }
      var task := slots[tail];
      assert task == Contents[0];
      tail := (tail + 1) % QueueSize;
      count := count - 1;
      Contents := Contents[1..];
      return Got(task);
    }
  }

  /** On an otherwise idle queue, a task enqueued and then dequeued comes
      back unchanged, and the queue is empty again. */
  method EnqueueThenDequeue(q: Queue, src: string, dst: Option<string>, fname: Option<string>)
      returns (r: Taken)
    requires q.Valid() && q.Contents == []
    modifies q, q.slots
    ensures q.Valid() && q.Contents == []
    ensures r == Got(Task(src, dst, fname))
  {
    var ok := q.Enqueue(src, dst, fname);
    r := q.Dequeue(false);
  }
}
