// The linked queue of QueueServiceSystem/queue.h: a header node, a front
// pointer to it, and a back pointer that ordered insertion does not maintain.

module BankQueue {
  import opened BankModel

  class Node<T> {
    var data: T
    var next: Node?<T>

    constructor (data: T)
      ensures this.data == data && next == null
    {
      this.data, next := data, null;
    }
  }

  /** The sequence with x put in at position p. */
  function Splice<T>(xs: seq<T>, p: nat, x: T): seq<T>
    requires p <= |xs|
  {
    xs[..p] + [x] + xs[p..]
  }

  lemma Spliced<T>(xs: seq<T>, p: nat, x: T)
    requires p <= |xs|
    ensures var ys := Splice(xs, p, x);
      && |ys| == |xs| + 1 && ys[p] == x
      && (forall i | 0 <= i < p :: ys[i] == xs[i])
      && (forall i | p < i < |ys| :: ys[i] == xs[i - 1])
  {
  }

  /**
   * nodes is the list in link order, header first; contents are the items
   * behind the header; last is the position that back points to.
   */
  class Queue<T> {
    var front: Node<T>
    var back: Node<T>
    ghost var nodes: seq<Node<T>>
    ghost var contents: seq<T>
    ghost var last: nat
    ghost var repr: set<object>

    /** back is the header or some node still in the list, not necessarily the last one. */
    ghost predicate Valid()
      reads this, repr
      ensures Valid() ==> this in repr
    {
      && this in repr
      && |nodes| == |contents| + 1
      && (forall i | 0 <= i < |nodes| :: nodes[i] in repr && nodes[i] as object != this)
      && (forall i, j | 0 <= i < j < |nodes| :: nodes[i] != nodes[j])
      && (forall i {:trigger nodes[i].next} | 0 <= i < |nodes| ::
            nodes[i].next == if i + 1 < |nodes| then nodes[i + 1] else null)
      && (forall i {:trigger nodes[i].data} | 1 <= i < |nodes| :: nodes[i].data == contents[i - 1])
      && front == nodes[0]
      && last < |nodes| && back == nodes[last]
    }

    constructor (header: T)
      ensures Valid() && fresh(repr) && contents == [] && last == 0
    {
      var n := new Node(header);
      front, back := n, n;
      nodes, contents, last, repr := [n], [], 0, {this, n};
    }

    /** Links the item behind back: whatever was linked behind back before is dropped. */
    method Enqueue(item: T)
      requires Valid()
      modifies repr
      ensures Valid() && fresh(repr - old(repr))
      ensures contents == old(contents)[..old(last)] + [item] && last == |contents|
    {
      var n := new Node(item);
      back.next := n;
      back := n;
      nodes, contents := nodes[..last + 1] + [n], contents[..last] + [item];
      last := last + 1;
      repr := repr + {n};
    }

    /** The first node, unlinked; back moves to the header if it pointed to that node. */
    method Dequeue() returns (r: Node?<T>)
      requires Valid()
      modifies repr
      ensures Valid()
      ensures r == null <==> old(contents) == []
      ensures r == null ==> contents == [] && last == 0 && repr == old(repr)
      ensures r != null ==>
        && r.data == old(contents)[0] && contents == old(contents)[1..]
        && r in old(repr) && repr == old(repr) - {r}
        && last == if old(last) == 0 then 0 else old(last) - 1
    {
      if front.next == null {
        return null;
      }
      r := front.next;
      front.next := r.next;
      if r == back {
        back := front;
      }
      nodes, contents := [front] + nodes[2..], contents[1..];
      last := if last == 0 then 0 else last - 1;
      repr := repr - {r};
    }

    method Length() returns (n: int)
      requires Valid()
      ensures n == |contents|
    {
      var tmp: Node?<T> := front;
      var len := 0;
      while tmp != null
        invariant 0 <= len <= |nodes|
        invariant tmp == if len < |nodes| then nodes[len] else null
        decreases |nodes| - len
      {
        len := len + 1;
        tmp := tmp.next;
      }
      return len - 1;
    }

    /** Links e behind the node at position p.  back stays where it is, so its position may move by one. */
    method LinkBehind(node: Node<T>, e: Node<T>, ghost p: nat)
      requires Valid() && p < |nodes| && node == nodes[p] && e !in repr
      modifies repr, e
      ensures Valid() && repr == old(repr) + {e}
      ensures contents == Splice(old(contents), p, old(e.data))
      ensures last == if p < old(last) then old(last) + 1 else old(last)
    {
      hide Splice;
      ghost var ns, cs := Splice(nodes, p + 1, e), Splice(contents, p, e.data);
      Spliced(nodes, p + 1, e);
      Spliced(contents, p, e.data);
      e.next := node.next;
      node.next := e;
      nodes, contents, repr := ns, cs, repr + {e};
      last := if p < last then last + 1 else last;
    }

    /** deleted lists the nodes as they are deleted: every item's node, once, and not the header. */
    method ClearQueue() returns (ghost deleted: seq<Node<T>>)
      requires Valid()
      modifies repr
      ensures Valid() && repr == old(repr)
      ensures contents == [] && last == 0 && front == old(front)
      ensures deleted == old(nodes)[1..]
    {
      var tmp := front.next;
      deleted := [];
      while tmp != null
        invariant |deleted| < |nodes| && deleted == nodes[1..|deleted| + 1]
        invariant tmp == if |deleted| + 1 < |nodes| then nodes[|deleted| + 1] else null
        decreases |nodes| - |deleted|
      {
        ghost var n := |deleted|;
        deleted := deleted + [tmp];
        tmp := tmp.next;
        assert deleted == nodes[1..n + 2];
      }
      front.next := null;
      back := front;
      nodes, contents, last := [front], [], 0;
    }
  }

  /**
   * `orderEnqueue`, which exists for queues of events.  On an empty list it
   * goes through Enqueue, which is right because back is then the header.
   */
  method OrderEnqueue(q: Queue<Event>, event: Event)
    requires q.Valid()
    modifies q.repr
    ensures q.Valid() && fresh(q.repr - old(q.repr))
    ensures q.contents == OrderInsert(old(q.contents), event)
    ensures q.last == if old(q.contents) == [] then 1
                      else if InsertionPoint(old(q.contents), event.time) < old(q.last) then old(q.last) + 1
                      else old(q.last)
  {
    var e := new Node(event);
    if q.front.next == null {
      q.Enqueue(event);
      return;
    }
    var tmp := q.front;
    ghost var p := 0;
    while tmp.next != null && tmp.next.data.time < event.time
      invariant 0 <= p <= |q.contents| && tmp == q.nodes[p]
      invariant forall i | 0 <= i < p :: q.contents[i].time < event.time
      invariant q.Valid()
      decreases |q.contents| - p
    {
      tmp := tmp.next;
      p := p + 1;
    }
    InsertionPointIs(q.contents, event.time, p);
    q.LinkBehind(tmp, e, p);
  }

  lemma {:induction false} InsertionPointIs(es: seq<Event>, t: int, p: nat)
    requires p <= |es|
    requires forall i | 0 <= i < p :: es[i].time < t
    requires p < |es| ==> t <= es[p].time
    ensures InsertionPoint(es, t) == p
  {
    if p > 0 {
      InsertionPointIs(es[1..], t, p - 1);
    }
  }
}
