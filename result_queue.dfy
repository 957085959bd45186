/** The result queue: a singly linked FIFO of record references with a
    `front` and a `rear` pointer. The ghost `Contents` is the sequence of
    references from front to rear; the ghost `Spine` lists the nodes in the
    same order; `Nodes` holds every node the queue has allocated. */
module ResultQueue {

  class Node {
    var data: nat
    var next: Node?

    constructor (data: nat)
      ensures this.data == data && next == null
    {
      this.data := data;
      next := null;
    }
  }

  class Queue {
    var front: Node?
    var rear: Node?

    ghost var Contents: seq<nat>
    ghost var Spine: seq<Node>
    ghost var Nodes: set<Node>

    /** The nodes form one chain from `front` to `rear` whose data are
        `Contents`; `rear.next` is null; an empty queue has both pointers
        null. */
    ghost predicate Valid()
      reads this, Nodes
    {
      && (forall k :: 0 <= k < |Spine| ==> Spine[k] in Nodes)
      && |Spine| == |Contents|
      && (forall k :: 0 <= k < |Spine| ==> Spine[k].data == Contents[k])
      && (forall k :: 0 <= k < |Spine| - 1 ==> Spine[k].next == Spine[k + 1])
      && (forall p, q :: 0 <= p < q < |Spine| ==> Spine[p] != Spine[q])
      && (if Spine == [] then front == null && rear == null
          else front == Spine[0] && rear == Spine[|Spine| - 1] && rear.next == null)
    }

    /** `Queue()`: a new queue is empty. */
    constructor ()
      ensures Valid() && fresh(Nodes) && Contents == []
    {
      front, rear := null, null;
      Contents, Spine := [], [];
      Nodes := {};
    }

    /** `enqueue`: the reference joins at the rear. */
    method Enqueue(rec: nat)
      requires Valid()
      modifies this, Nodes
      ensures Valid() && fresh(Nodes - old(Nodes))
      ensures Contents == old(Contents) + [rec]
    {
      var node := new Node(rec);
      if rear != null {
        rear.next := node;
      } else {
        front := node;
      }
      rear := node;
      Spine := Spine + [node];
      Contents := Contents + [rec];
      Nodes := Nodes + {node};
    }

    /** `dequeue(rec)`: on an empty queue it reports false and leaves `rec`
        as it was; otherwise it hands out the front reference, removes it,
        and resets `rear` when the last one leaves. */
    method Dequeue(rec: nat) returns (ok: bool, taken: nat)
      requires Valid()
      modifies this
      ensures Valid() && Nodes == old(Nodes)
      ensures ok <==> old(Contents) != []
      ensures ok ==> taken == old(Contents)[0] && Contents == old(Contents)[1..]
      ensures !ok ==> taken == rec && Contents == old(Contents)
      ensures Contents == [] ==> front == null && rear == null
    {
      if front == null {
        return false, rec;
      }
      taken := front.data;
      front := front.next;
      if front == null {
        rear := null;
      }
      Spine := Spine[1..];
      Contents := Contents[1..];
      ok := true;
    }

    /** `isEmpty`: no reference remains. */
    predicate IsEmpty()
      requires Valid()
      reads this, Nodes
      ensures IsEmpty() <==> Contents == []
    {
      front == null
    }
  }

  /** The consumer loop `while (queue.dequeue(rec))` of the search screen:
      it receives the references in exactly the order they were enqueued and
      leaves the queue empty. */
  method Drain(queue: Queue) returns (delivered: seq<nat>)
    requires queue.Valid()
    modifies queue
    ensures queue.Valid() && queue.Contents == []
    ensures delivered == old(queue.Contents)
  {
    delivered := [];
    var rec: nat := 0;
    var ok := true;
    while ok
      invariant queue.Valid()
      invariant delivered + queue.Contents == old(queue.Contents)
      invariant !ok ==> queue.Contents == []
      decreases |queue.Contents| + (if ok then 1 else 0)
    {
      ok, rec := queue.Dequeue(rec);
      if ok {
        delivered := delivered + [rec];
      }
    }
  }
}
