/**
  The circular doubly linked list of src/list.c, whose links are embedded in the listed objects.
  A list with sentinel `head` represents the sequence of headers reached by following `next`.
 */
module IntrusiveList {
  import opened Basics

  class ListHeader {
    var next: ListHeader?
    var prev: ListHeader?
  }

  /** Consecutive headers point at each other. */
  ghost predicate Chained(c: seq<ListHeader>)
    reads c
  {
    && (forall i {:trigger c[i].next} :: 0 <= i < |c| - 1 ==> c[i].next == c[i + 1])
    && (forall i {:trigger c[i].prev} :: 0 < i < |c| ==> c[i].prev == c[i - 1])
  }

  /** `ll_add`. The neighbours may be the same header. */
  method LlAdd(node: ListHeader, prev: ListHeader, next: ListHeader)
    requires node != prev && node != next
    modifies node, prev, next
    ensures node.next == next && node.prev == prev && prev.next == node && next.prev == node
    ensures prev != next ==> prev.prev == old(prev.prev) && next.next == old(next.next)
  {
    node.next := next;
    node.prev := prev;
    prev.next := node;
    next.prev := node;
  }

  /** `ll_del`. */
  method LlDel(del: ListHeader, prev: ListHeader, next: ListHeader)
    requires del != prev && del != next
    modifies del, prev, next
    ensures prev.next == old(del.next) && next.prev == old(del.prev) && del.next == null && del.prev == null
    ensures prev != next ==> prev.prev == old(prev.prev) && next.next == old(next.next)
  {
    prev.next := del.next;
    next.prev := del.prev;
    del.next := null;
    del.prev := null;
  }

  class LinkedList {
    const head: ListHeader
    ghost var nodes: seq<ListHeader>

    /** The sentinel, the listed headers, and the sentinel again. */
    ghost function Ring(): seq<ListHeader>
      reads this
    {
      [head] + nodes + [head]
    }

    ghost predicate Valid()
      reads this, Ring()
    {
      NoDup(nodes) && head !in nodes && Chained(Ring())
    }

    /** `LL_init`. */
    constructor ()
      ensures Valid() && nodes == [] && fresh(head)
    {
      head := new ListHeader;
      nodes := [];
      new;
      head.next := head;
      head.prev := head;
    }

    /** `LL_empty`. */
    method Empty() returns (r: bool)
      requires Valid()
      ensures r <==> nodes == []
    {
      assert Ring()[0] == head && head.next == Ring()[1];
      r := head.next == head;
    }

    /** `LL_head`. */
    method Head() returns (r: ListHeader?)
      requires Valid()
      ensures r == if nodes == [] then null else nodes[0]
    {
      assert Ring()[0] == head && head.next == Ring()[1];
      var e := Empty();
      if e {
        return null;
      }
      r := head.next;
    }

    /** `LL_append`: only the new header, the sentinel and the last header change. */
    method Append(node: ListHeader)
      requires Valid() && node !in Ring()
      modifies this, node, head, head.prev
      ensures Valid() && nodes == old(nodes) + [node]
    {
      ghost var c, n := Ring(), |nodes|;
      assert c[0] == head == c[n + 1] && head.prev == c[n];
      assert n > 0 ==> c[n] == nodes[n - 1];
      label before:
      LlAdd(node, head.prev, head);
      nodes := nodes + [node];
      ghost var d := Ring();
      assert d[n + 1] == node && d[n + 2] == head;
      forall i | 0 <= i < |d| - 1
        ensures d[i].next == d[i + 1] && d[i + 1].prev == d[i]
      {
        assert i <= n ==> d[i] == c[i];
        if i < n {
          assert d[i + 1] == c[i + 1];
          assert old@before(c[i].next) == c[i + 1] && old@before(c[i + 1].prev) == c[i];
        }
      }
    }

    /** `LL_del` of the header at position `k`: only it and its two neighbours change. */
    method Del(node: ListHeader, ghost k: nat)
      requires Valid() && k < |nodes| && nodes[k] == node
      modifies this, node, node.prev, node.next
      ensures Valid() && nodes == old(nodes)[..k] + old(nodes)[k + 1..]
      ensures node.next == null && node.prev == null
    {
      ghost var c, n := Ring(), |nodes|;
      assert c[k + 1] == node && node.prev == c[k] && node.next == c[k + 2];
      assert c[k] == if k == 0 then head else nodes[k - 1];
      assert c[k + 2] == if k + 1 == n then head else nodes[k + 1];
      assert k + 1 < n || k == 0 || c[k] != c[k + 2];
      label before:
      LlDel(node, node.prev, node.next);
      nodes := nodes[..k] + nodes[k + 1..];
      ghost var d := Ring();
      assert forall i :: 0 <= i < |d| ==> d[i] == if i <= k then c[i] else c[i + 1];
      forall i | 0 <= i < |d| - 1
        ensures d[i].next == d[i + 1] && d[i + 1].prev == d[i]
      {
        ghost var j := if i < k then i else i + 1;
        assert old@before(c[j].next) == c[j + 1] && old@before(c[j + 1].prev) == c[j];
      }
    }

    /** `LL_dequeue`. */
    method Dequeue() returns (r: ListHeader?)
      requires Valid()
      modifies this, head, head.next, if head.next == null then {} else {head.next.next}
      ensures Valid()
      ensures old(nodes) == [] ==> r == null && nodes == []
      ensures old(nodes) != [] ==> r == old(nodes)[0] && nodes == old(nodes)[1..]
    {
      var e := Empty();
      if e {
        return null;
      }
      ghost var c := Ring();
      assert c[0].next == c[1] && c[1].prev == c[0] && c[1].next == c[2];
      r := head.next;
      Del(r, 0);
      assert old(nodes)[..0] + old(nodes)[1..] == old(nodes)[1..];
    }

    /** `LL_next`: the cyclic successor in the list, never the sentinel. */
    method Next(curr: ListHeader, ghost k: nat) returns (r: ListHeader?)
      requires Valid() && (nodes == [] || (k < |nodes| && nodes[k] == curr))
      ensures nodes == [] ==> r == null
      ensures nodes != [] ==> r == nodes[if k + 1 == |nodes| then 0 else k + 1]
    {
      var e := Empty();
      if e {
        return null;
      }
      ghost var c := Ring();
      assert c[k + 1] == curr && curr.next == c[k + 2];
      assert c[k + 2] == if k + 1 == |nodes| then head else nodes[k + 1];
      assert c[0].next == c[1] == nodes[0];
      if curr.next == head {
        r := head.next;
      } else {
        r := curr.next;
      }
    }

    /** `LL_next` repeated once per element from position `k`: every header is visited once, the start last. */
    method GoRound(start: ListHeader, ghost k: nat, turns: nat) returns (visited: seq<ListHeader>)
      requires Valid() && k < |nodes| == turns && nodes[k] == start
      ensures visited == nodes[k + 1..] + nodes[..k + 1]
    {
      visited := [];
      var curr := start;
      ghost var rotated := nodes[k + 1..] + nodes[..k + 1];
      for i := 0 to turns
        invariant visited == rotated[..i] && curr == if i == 0 then start else rotated[i - 1]
      {
        var next := Next(curr, if k + i < |nodes| then k + i else k + i - |nodes|);
        assert next == rotated[i];
        curr := next;
        visited := visited + [curr];
      }
    }

    /** `LL_for_each` over the `next` links, and the same over the `prev` links. */
    method Traverse() returns (forward: seq<ListHeader>, backward: seq<ListHeader>)
      requires Valid()
      ensures forward == nodes
      ensures |backward| == |nodes| && forall i :: 0 <= i < |nodes| ==> backward[i] == nodes[|nodes| - 1 - i]
    {
      ghost var c, n := Ring(), |nodes|;
      assert c[0].next == c[1] && c[n + 1].prev == c[n];
      forward := [];
      var curr := head.next;
      while curr != head
        invariant |forward| <= n && forward == nodes[..|forward|] && curr == c[|forward| + 1]
        decreases n - |forward|
      {
        assert |forward| < n && c[|forward| + 1].next == c[|forward| + 2];
        forward := forward + [curr];
        curr := curr.next;
      }
      assert |forward| == n;
      backward := [];
      curr := head.prev;
      while curr != head
        invariant |backward| <= n && curr == c[n - |backward|]
        invariant forall i :: 0 <= i < |backward| ==> backward[i] == nodes[n - 1 - i]
        decreases n - |backward|
      {
        assert |backward| < n && c[n - |backward|].prev == c[n - |backward| - 1];
        backward := backward + [curr];
        curr := curr.prev;
      }
      assert |backward| == n;
    }
  }

  /** A process carries one header for the queue it is in and one for the list of all processes. */
  class Process {
    const queue: ListHeader
    const procs: ListHeader

    constructor ()
      ensures fresh(queue) && fresh(procs) && queue != procs
    {
      queue := new ListHeader;
      procs := new ListHeader;
    }
  }

  /** Two lists that share no header, such as a wait queue and the list of all processes. */
  ghost predicate Apart(list: LinkedList, other: LinkedList)
    reads list, other
  {
    list != other && forall h :: h in other.Ring() ==> h !in list.Ring()
  }

  /** A process enters a list through one header; a list it is on through its other header is unaffected. */
  method Enter(p: Process, list: LinkedList, other: LinkedList)
    requires list.Valid() && other.Valid() && Apart(list, other)
    requires p.queue !in list.Ring() && p.queue !in other.Ring()
    modifies list, list.Ring(), p.queue
    ensures list.Valid() && list.nodes == old(list.nodes) + [p.queue]
    ensures other.Valid() && other.nodes == old(other.nodes)
  {
    ghost var c := other.Ring();
    assert list.Ring()[|list.nodes| + 1] == list.head && list.head.prev == list.Ring()[|list.nodes|];
    assert list.head in list.Ring() && list.head.prev in list.Ring();
    assert forall i :: 0 <= i < |c| ==> c[i] in c && c[i] !in list.Ring();
    list.Append(p.queue);
    assert other.Ring() == c;
  }

  /** And leaves it the same way. */
  method Leave(p: Process, list: LinkedList, ghost k: nat, other: LinkedList)
    requires list.Valid() && other.Valid() && Apart(list, other)
    requires k < |list.nodes| && list.nodes[k] == p.queue
    modifies list, list.Ring()
    ensures list.Valid() && list.nodes == old(list.nodes)[..k] + old(list.nodes)[k + 1..]
    ensures other.Valid() && other.nodes == old(other.nodes)
  {
    ghost var c := other.Ring();
    assert list.Ring()[k + 1] == p.queue && p.queue.prev == list.Ring()[k] && p.queue.next == list.Ring()[k + 2];
    assert p.queue in list.Ring() && p.queue.prev in list.Ring() && p.queue.next in list.Ring();
    assert forall i :: 0 <= i < |c| ==> c[i] in c && c[i] !in list.Ring();
    list.Del(p.queue, k);
    assert other.Ring() == c;
  }
}
