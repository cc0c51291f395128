/** The pool's task list: nodes linked from `head` to `tail`. */
module TaskList {
  import opened ThreadPool

  class Node {
    const task: Task
    var next: Node?

    constructor (task: Task)
      ensures this.task == task && next == null
    {
      this.task := task;
      next := null;
    }
  }

  class Queue {
    var head: Node?
    var tail: Node?
    ghost var nodes: seq<Node>

    /** The node at a position, null behind the last. */
    ghost function At(i: nat): Node?
      reads this
    {
      if i < |nodes| then nodes[i] else null
    }

    ghost predicate Valid()
      reads this, nodes
    {
      && (forall i, j :: 0 <= i < j < |nodes| ==> nodes[i] != nodes[j])
      && (forall i {:trigger nodes[i].next} :: 0 <= i < |nodes| ==> nodes[i].next == At(i + 1))
      && head == At(0)
      && tail == (if nodes == [] then null else nodes[|nodes| - 1])
    }

    ghost function Tasks(): (r: seq<Task>)
      reads this
      ensures |r| == |nodes|
    {
      seq(|nodes|, i requires 0 <= i < |nodes| reads this => nodes[i].task)
    }

    constructor ()
      ensures Valid() && Tasks() == []
    {
      head, tail, nodes := null, null, [];
    }

    /** The append in `abstract_http_thread_pool_push`. */
    method Push(task: Task)
      requires Valid()
      modifies this, nodes
      ensures Valid() && Tasks() == old(Tasks()) + [task]
      ensures forall n :: n in nodes ==> n in old(nodes) || fresh(n)
    {
      var node := new Node(task);
      if head == null {
        head := node;
        tail := node;
      } else {
        tail.next := node;
        tail := node;
      }
      nodes := nodes + [node];
    }

    /** The removal in `worker_thread`. */
    method Pop() returns (task: Task)
      requires Valid() && Tasks() != []
      modifies this
      ensures Valid() && [task] + Tasks() == old(Tasks())
      ensures nodes == old(nodes)[1..]
    {
      ghost var before := nodes;
      assert |before| == |Tasks()| > 0;
      assert nodes[0].next == At(1);
      task := head.task;
      head := head.next;
      if head == null {
        tail := null;
      }
      nodes := nodes[1..];
      assert forall i :: 0 <= i < |nodes| ==> nodes[i] == before[i + 1];
    }
  }

  /** The append of a pushing client is its step of the step system. */
  method PushStep(list: Queue, ghost s: State, ghost c: nat, task: Task)
    requires list.Valid() && list.Tasks() == s.queue
    requires c < |s.clients| && s.clients[c] == PAppend(task)
    modifies list, list.nodes
    ensures list.Valid() && list.Tasks() == Apply(s, ClientStep(c)).queue
    ensures Apply(s, ClientStep(c)).accepted == s.accepted + [task]
  {
    list.Push(task);
  }

  /** The removal by a worker is its step of the step system. */
  method PopStep(list: Queue, ghost s: State, ghost w: nat) returns (task: Task)
    requires list.Valid() && list.Tasks() == s.queue != []
    requires w < |s.workers| && s.workers[w] == WPop
    modifies list
    ensures list.Valid() && list.Tasks() == Apply(s, WorkerStep(w)).queue
    ensures Apply(s, WorkerStep(w)).workers[w] == WUnlock(task, s.popped)
  {
    task := list.Pop();
  }
}
