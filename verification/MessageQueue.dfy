/** The C client's queue of pub/sub messages: a linked list with a head and a tail pointer. */
module MessageQueue {
  import opened Bytes
  import opened Lists

  /** Topic and payload of an event. */
  type Message = (seq<byte>, seq<byte>)

  class Node {
    var msg: Message
    var next: Node?

    constructor (msg: Message)
      ensures this.msg == msg && next == null
    {
      this.msg, this.next := msg, null;
    }
  }

  class Queue {
    var head: Node?
    var tail: Node?

    /** The messages in the queue, first to last, the nodes that hold them, and all objects involved. */
    ghost var Contents: seq<Message>
    ghost var nodes: seq<Node>
    ghost var Repr: set<object>

    ghost predicate Valid()
      reads this, Repr
    {
      && this in Repr
      && (forall i :: 0 <= i < |nodes| ==> nodes[i] in Repr)
      && (nodes == [] ==> head == null && tail == null)
      && (nodes != [] ==> head == nodes[0] && tail == nodes[|nodes| - 1] && tail.next == null)
      && (forall i :: 0 <= i < |nodes| - 1 ==> nodes[i].next == nodes[i + 1])
      && (forall i, j :: 0 <= i < j < |nodes| ==> nodes[i] != nodes[j])
      && |Contents| == |nodes|
      && (forall i :: 0 <= i < |nodes| ==> nodes[i].msg == Contents[i])
    }

    constructor ()
      ensures Valid() && fresh(Repr) && Contents == []
    {
      head, tail, Contents, nodes, Repr := null, null, [], [], {this};
    }

    /** queue_message. */
    method Enqueue(msg: Message)
      requires Valid()
      modifies Repr
      ensures Valid() && fresh(Repr - old(Repr)) && Contents == old(Contents) + [msg]
    {
      var node := new Node(msg);
      if head == null {
        head := node;
        tail := node;
      } else {
        tail.next := node;
        tail := node;
      }
      Contents, nodes, Repr := Contents + [msg], nodes + [node], Repr + {node};
    }

    /** dequeue_message; None is the null pointer of an empty queue. */
    method Dequeue() returns (msg: Option<Message>)
      requires Valid()
      modifies this
      ensures Valid() && Repr == old(Repr)
      ensures if old(Contents) == [] then msg == None && Contents == []
              else msg == Some(old(Contents)[0]) && Contents == old(Contents)[1..]
    {
      msg := None;
      if head != null {
        var node := head;
        head := node.next;
        if head == null {
          tail := null;
        }
        msg := Some(node.msg);
        Contents, nodes := Contents[1..], nodes[1..];
      }
    }
  }

  /** Taking messages out until the queue is empty returns them first in, first out. */
  method DequeueAll(queue: Queue) returns (msgs: seq<Message>)
    requires queue.Valid()
    modifies queue
    ensures queue.Valid() && queue.Contents == [] && msgs == old(queue.Contents)
  {
    msgs := [];
    var next := queue.Dequeue();
    while next.Some?
      invariant queue.Valid()
      invariant next.Some? ==> msgs + [next.value] + queue.Contents == old(queue.Contents)
      invariant next.None? ==> queue.Contents == [] && msgs == old(queue.Contents)
      decreases |queue.Contents|, next.Some?
    {
      ghost var left := queue.Contents;
      msgs := msgs + [next.value];
      next := queue.Dequeue();
      if next.Some? {
        assert left == [next.value] + queue.Contents;
        Associative(msgs, [next.value], queue.Contents);
      }
    }
  }
}
