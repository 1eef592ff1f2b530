/**
  The queue operations of src/proc.c on the intrusive lists of module IntrusiveList: what they do to the links is what
  module Scheduler says they do to sequences of processes.
 */
module ProcessQueues {
  import opened IntrusiveList
  import opened Scheduler

  /** The processes whose `queue` headers are in the list. */
  ghost function Names(nodes: seq<ListHeader>, pid: ListHeader -> Pid): seq<Pid> {
    seq(|nodes|, i requires 0 <= i < |nodes| => pid(nodes[i]))
  }

  /** `proc_queue_dequeue`; a list with other headers is left alone, and the header taken is on neither list. */
  method TakeFirst(list: LinkedList, other: LinkedList) returns (r: ListHeader?)
    requires list.Valid() && other.Valid() && Apart(list, other)
    modifies list, list.Ring()
    ensures list.Valid() && other.Valid() && other.nodes == old(other.nodes)
    ensures if old(list.nodes) == [] then r == null && list.nodes == []
            else r == old(list.nodes)[0] && list.nodes == old(list.nodes)[1..]
    ensures r != null ==> r !in list.Ring() && r !in other.Ring()
  {
    ghost var c, d := other.Ring(), list.Ring();
    assert d[0] == list.head && list.head.next == d[1] && list.head in d && d[1] in d;
    if list.nodes != [] {
      assert d[1] == list.nodes[0] && d[1].next == d[2] && d[2] in d;
    } else {
      assert d[1] == list.head;
    }
    assert forall i :: 0 <= i < |c| ==> c[i] in c && c[i] !in d;
    r := list.Dequeue();
    assert other.Ring() == c;
  }

  /** `proc_queue_enqueue`. */
  method PutLast(node: ListHeader, list: LinkedList, other: LinkedList)
    requires list.Valid() && other.Valid() && Apart(list, other) && node !in list.Ring() && node !in other.Ring()
    modifies list, list.Ring(), node
    ensures list.Valid() && list.nodes == old(list.nodes) + [node]
    ensures other.Valid() && other.nodes == old(other.nodes)
  {
    ghost var c, d := other.Ring(), list.Ring();
    assert d[|d| - 1] == list.head && list.head.prev == d[|d| - 2] && list.head in d && d[|d| - 2] in d;
    assert forall i :: 0 <= i < |c| ==> c[i] in c && c[i] !in d;
    list.Append(node);
    assert other.Ring() == c;
  }

  /** Two queues that share no header. */
  ghost predicate Queues(queue: LinkedList, ready: LinkedList)
    reads queue, ready, queue.Ring(), ready.Ring()
  {
    queue.Valid() && ready.Valid() && Apart(queue, ready) && Apart(ready, queue)
  }

  /** The headers of both queues. */
  ghost function Headers(queue: LinkedList, ready: LinkedList): set<ListHeader>
    reads queue, ready
  {
    (set h | h in queue.Ring()) + (set h | h in ready.Ring())
  }

  /** The first process of one queue becomes the last of the other. */
  method MoveFirst(queue: LinkedList, ready: LinkedList) returns (moved: bool)
    requires Queues(queue, ready)
    modifies queue, ready, Headers(queue, ready)
    ensures Queues(queue, ready) && Headers(queue, ready) <= old(Headers(queue, ready))
    ensures moved <==> old(queue.nodes) != []
    ensures if moved then queue.nodes == old(queue.nodes)[1..] && ready.nodes == old(ready.nodes) + [old(queue.nodes)[0]]
            else queue.nodes == [] && ready.nodes == old(ready.nodes)
  {
    ghost var before := queue.Ring();
    assert queue.nodes != [] ==> queue.nodes[0] == before[1];
    var proc := TakeFirst(queue, ready);
    if proc == null {
      return false;
    }
    assert proc in before;
    PutLast(proc, ready, queue);
    return true;
  }

  /** `PROC_queue_empty`. */
  method IsEmpty(queue: LinkedList, ghost ready: LinkedList) returns (r: bool)
    requires Queues(queue, ready)
    ensures Queues(queue, ready) && (r <==> queue.nodes == [])
  {
    r := queue.Empty();
  }

  lemma {:induction false} NamesSnoc(nodes: seq<ListHeader>, node: ListHeader, pid: ListHeader -> Pid)
    ensures Names(nodes + [node], pid) == Names(nodes, pid) + [pid(node)]
  {
  }

  lemma {:induction false} NamesTail(nodes: seq<ListHeader>, pid: ListHeader -> Pid)
    ensures nodes == [] <==> Names(nodes, pid) == []
    ensures nodes != [] ==> Names(nodes, pid)[0] == pid(nodes[0]) && Names(nodes[1..], pid) == Names(nodes, pid)[1..]
  {
  }

  /** `PROC_unblock_head`. */
  method UnblockHead(queue: LinkedList, ready: LinkedList, ghost pid: ListHeader -> Pid, ghost s: Sched, ghost q: Qid)
    requires Queues(queue, ready) && s.ready == Names(ready.nodes, pid) && Waiting(s, q) == Names(queue.nodes, pid)
    modifies queue, ready, Headers(queue, ready)
    ensures Queues(queue, ready)
    ensures WakeHead(s, q).ready == Names(ready.nodes, pid) && Waiting(WakeHead(s, q), q) == Names(queue.nodes, pid)
  {
    hide Queues, Headers;
    NamesTail(queue.nodes, pid);
    if queue.nodes != [] {
      NamesSnoc(ready.nodes, queue.nodes[0], pid);
    }
    var empty := IsEmpty(queue, ready);
    if !empty {
      var _ := MoveFirst(queue, ready);
    }
  }

  /** `PROC_unblock_all`. */
  method UnblockAll(queue: LinkedList, ready: LinkedList, ghost pid: ListHeader -> Pid, ghost s: Sched, ghost q: Qid)
    requires Queues(queue, ready) && s.ready == Names(ready.nodes, pid) && Waiting(s, q) == Names(queue.nodes, pid)
    modifies queue, ready, Headers(queue, ready)
    ensures Queues(queue, ready)
    ensures WakeAll(s, q).ready == Names(ready.nodes, pid) && Waiting(WakeAll(s, q), q) == Names(queue.nodes, pid)
  {
    hide Queues, Headers;
    var more := true;
    ghost var was, first, n := queue.nodes, ready.nodes, 0;
    while more
      invariant Queues(queue, ready) && Headers(queue, ready) <= old(Headers(queue, ready))
      invariant n <= |was| && queue.nodes == was[n..] && ready.nodes == first + was[..n]
      invariant !more ==> n == |was|
      decreases |was| - n, more
    {
      more := MoveFirst(queue, ready);
      if more {
        n := n + 1;
      }
    }
    assert was[..n] == was;
    assert Names(first + was, pid) == Names(first, pid) + Names(was, pid);
  }

  ghost function HeadersOf(list: LinkedList): set<ListHeader>
    reads list
  {
    set h | h in list.Ring()
  }

  /** `proc_queue_dequeue` of a single queue. */
  method First(list: LinkedList) returns (r: ListHeader?)
    requires list.Valid()
    modifies list, HeadersOf(list)
    ensures list.Valid()
    ensures if old(list.nodes) == [] then r == null && list.nodes == []
            else r == old(list.nodes)[0] && list.nodes == old(list.nodes)[1..]
  {
    ghost var d := list.Ring();
    assert d[0] == list.head && list.head.next == d[1] && d[1] in d;
    if list.nodes != [] {
      assert d[1] == list.nodes[0] && d[1].next == d[2] && d[2] in d;
    } else {
      assert d[1] == list.head;
    }
    r := list.Dequeue();
  }

  /** `proc_queue_enqueue` on a single queue. */
  method Last(node: ListHeader, list: LinkedList)
    requires list.Valid() && node !in HeadersOf(list)
    modifies list, HeadersOf(list), node
    ensures list.Valid() && list.nodes == old(list.nodes) + [node]
    ensures HeadersOf(list) <= old(HeadersOf(list)) + {node}
  {
    ghost var d := list.Ring();
    assert d[|d| - 1] == list.head && list.head.prev == d[|d| - 2] && list.head in d && d[|d| - 2] in d;
    list.Append(node);
  }

  /** The queue part of `PROC_reschedule`: the running process, if it stays awake, goes to the end, and the first one is next. */
  method PickNext(ready: LinkedList, curr: ListHeader?, awake: bool, ghost pid: ListHeader -> Pid) returns (next: ListHeader?)
    requires ready.Valid() && (curr != null && awake ==> curr !in HeadersOf(ready))
    modifies ready, HeadersOf(ready), curr
    ensures ready.Valid()
    ensures var r := old(Names(ready.nodes, pid)) + if curr != null && awake then [pid(curr)] else [];
            if r == [] then next == null && ready.nodes == []
            else next != null && pid(next) == r[0] && Names(ready.nodes, pid) == r[1..]
  {
    hide HeadersOf;
    if curr != null && awake {
      NamesSnoc(ready.nodes, curr, pid);
      Last(curr, ready);
    }
    NamesTail(ready.nodes, pid);
    next := First(ready);
  }
}
