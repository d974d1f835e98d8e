/**
  The circular doubly linked lists all KCP queues are made of. A list is a ring of nodes through its
  head; each macro is a method that relinks nodes in place and is proved to be the sequence operation
  the rest of the model uses.
 */
module IQueue {

  class Node {
    var next: Node?
    var prev: Node?

    constructor () {
      next, prev := null, null;
    }
  }

  /** The ring that starts at the head ring[0]: nodes are distinct and both links go around. */
  ghost predicate Ring(ring: seq<Node>)
    reads ring
  {
    && |ring| >= 1
    && (forall i, j :: 0 <= i < j < |ring| ==> ring[i] != ring[j])
    && (forall i {:trigger ring[i].next} :: 0 <= i < |ring| ==>
      ring[i].next == if i + 1 < |ring| then ring[i + 1] else ring[0])
    && (forall i {:trigger ring[i].prev} :: 0 <= i < |ring| ==>
      ring[i].prev == if i > 0 then ring[i - 1] else ring[|ring| - 1])
  }

  /** IQUEUE_INIT */
  method Init(head: Node)
    modifies head
    ensures Ring([head])
  {
    head.next := head;
    head.prev := head;
  }

  /** IQUEUE_IS_EMPTY */
  method IsEmpty(head: Node, ghost ring: seq<Node>) returns (empty: bool)
    requires Ring(ring) && ring[0] == head
    ensures empty <==> ring[1..] == []
  {
    empty := head == head.next;
    if |ring| > 1 { assert ring[0].next == ring[1]; }
  }

  /** IQUEUE_ADD: the node goes right behind `at`, which may be the head or any entry. */
  method Add(node: Node, at: Node, ghost ring: seq<Node>, ghost i: nat)
    requires Ring(ring) && i < |ring| && ring[i] == at && node !in ring
    modifies node, ring
    ensures Ring(ring[..i + 1] + [node] + ring[i + 1..])
  {
    node.prev := at;
    node.next := at.next;
    at.next.prev := node;
    at.next := node;
  }

  /** IQUEUE_ADD_TAIL */
  method AddTail(node: Node, head: Node, ghost ring: seq<Node>)
    requires Ring(ring) && ring[0] == head && node !in ring
    modifies node, ring
    ensures Ring(ring + [node])
  {
    node.prev := head.prev;
    node.next := head;
    head.prev.next := node;
    head.prev := node;
  }

  /** IQUEUE_DEL: unlinking an entry, which is left with null links. */
  method Del(entry: Node, ghost ring: seq<Node>, ghost i: nat)
    requires Ring(ring) && 1 <= i < |ring| && ring[i] == entry
    modifies ring
    ensures Ring(ring[..i] + ring[i + 1..])
    ensures entry.next == null && entry.prev == null
  {
    entry.next.prev := entry.prev;
    entry.prev.next := entry.next;
    entry.next := null;
    entry.prev := null;
  }

  /** Moving the first entry of one queue to the tail of another, as ikcp_flush does from snd_queue to
      snd_buf and ikcp_recv and ikcp_parse_data from rcv_buf to rcv_queue. */
  method MoveFirst(source: Node, target: Node, ghost a: seq<Node>, ghost b: seq<Node>)
    requires Ring(a) && Ring(b) && a[0] == source && b[0] == target && |a| > 1
    requires forall i, j :: 0 <= i < |a| && 0 <= j < |b| ==> a[i] != b[j]
    modifies a, b
    ensures Ring([a[0]] + a[2..]) && Ring(b + [a[1]])
  {
    var node := source.next;
    assert node == a[1];
    Del(node, a, 1);
    assert a[..1] + a[2..] == [a[0]] + a[2..];
    AddTail(node, target, b);
  }

  /** An entry added and then deleted leaves the ring as it was. */
  method AddThenDel(node: Node, at: Node, ghost ring: seq<Node>, ghost i: nat)
    requires Ring(ring) && i < |ring| && ring[i] == at && node !in ring
    modifies node, ring
    ensures Ring(ring)
  {
    hide Ring;
    ghost var longer := ring[..i + 1] + [node] + ring[i + 1..];
    Add(node, at, ring, i);
    Del(node, longer, i + 1);
    assert longer[..i + 1] + longer[i + 2..] == ring;
  }

  /** A ring is determined by its head: walking the links visits the same nodes in the same order, so
      the queue a head stands for is well defined. */
  lemma {:induction false} SameWalk(a: seq<Node>, b: seq<Node>, k: nat)
    requires Ring(a) && Ring(b) && a[0] == b[0] && k < |a| && k < |b|
    ensures a[k] == b[k]
  {
    if k > 0 {
      SameWalk(a, b, k - 1);
      assert a[k - 1].next == b[k - 1].next;
    }
  }

  lemma RingUnique(a: seq<Node>, b: seq<Node>)
    requires Ring(a) && Ring(b) && a[0] == b[0]
    ensures a == b
  {
    var k := if |a| < |b| then |a| else |b|;
    forall i | 0 <= i < k ensures a[i] == b[i] { SameWalk(a, b, i); }
    assert a[k - 1].next == b[k - 1].next;
  }
}
