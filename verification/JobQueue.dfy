/**
 The linked job queue of the thread pool, and its three operations.
 */
module JobQueue {

  /** A threadpool_job_node; job stands for its function and argument. */
  class JobNode {
    const job: nat
    var prev: JobNode?
    var next: JobNode?

    constructor (job: nat)
      ensures this.job == job
    {
      this.job := job;
      prev, next := null, null;
    }
  }

  /** A threadpool_job_queue without its semaphore. */
  class Queue {
    var jobNum: nat
    var head: JobNode?
    var tail: JobNode?
    ghost var nodes: seq<JobNode>

    ghost predicate Valid()
      reads this, nodes
    {
      && jobNum == |nodes|
      && (forall i, j :: 0 <= i < j < |nodes| ==> nodes[i] != nodes[j])
      && (if nodes == [] then head == null && tail == null
          else head == nodes[0] && tail == nodes[|nodes| - 1] && head.prev == null && tail.next == null)
      && (forall i :: 0 <= i < |nodes| - 1 ==> nodes[i].next == nodes[i + 1])
      && (forall i :: 1 <= i < |nodes| ==> nodes[i].prev == nodes[i - 1])
    }

    /** threadpool_job_queue_init. */
    constructor ()
      ensures Valid() && nodes == []
    {
      jobNum, head, tail := 0, null, null;
      nodes := [];
    }

    /** threadpool_job_queue_add, up to its sem_post. */
    method Add(newNode: JobNode)
      requires Valid() && newNode !in nodes
      modifies this, nodes, newNode
      ensures Valid() && nodes == old(nodes) + [newNode]
    {
      newNode.next := null;
      newNode.prev := null;
      if jobNum == 0 {
        head := newNode;
        tail := newNode;
      } else {
        newNode.prev := tail;
        tail.next := newNode;
        tail := newNode;
      }
      jobNum := jobNum + 1;
      nodes := nodes + [newNode];
      assert forall i :: 0 <= i < |nodes| - 1 ==> nodes[i] == old(nodes)[i];
    }

    /** threadpool_job_queue_remove_first. */
    method RemoveFirst() returns (first: JobNode?)
      requires Valid()
      modifies this, nodes
      ensures Valid()
      ensures if old(nodes) == [] then first == null && nodes == []
        else first == old(nodes)[0] && nodes == old(nodes)[1..]
    {
      first := head;
      match jobNum {
        case 0 => return null;
        case 1 =>
          head := null;
          tail := null;
        case _ =>
          assert nodes[0].next == nodes[1];
          first.next.prev := null;
          head := first.next;
      }
      jobNum := jobNum - 1;
      nodes := nodes[1..];
      assert forall i :: 0 <= i < |nodes| ==> nodes[i] == old(nodes)[i + 1];
    }

    /** threadpool_job_queue_empty: frees every queued node once, front to back; a freed node is not read again. */
    method Empty() returns (freed: seq<JobNode>)
      requires Valid()
      modifies this`jobNum
      ensures freed == nodes && jobNum == 0
    {
      freed := [];
      var current := head;
      while jobNum > 0
        invariant |freed| + jobNum == |nodes| && freed == nodes[..|freed|]
        invariant jobNum > 0 ==> current == nodes[|freed|]
      {
        assert current !in freed;
        assert |freed| + 1 < |nodes| ==> nodes[|freed|].next == nodes[|freed| + 1];
        var head' := current.next;
        freed := freed + [current];
        current := head';
        jobNum := jobNum - 1;
      }
    }
  }
}
