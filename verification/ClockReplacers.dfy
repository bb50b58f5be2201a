/** The clock replacer of storage/buffer/clock_replacer.go: which unpinned frame goes next. */
module ClockReplacers {
  import opened Collections
  import opened CircularLists

  /** The cell the clock hand points to: the list's head field, or the `next` field of some node. */
  datatype Cell = HeadCell | NextOf(node: Node)

  class ClockReplacer {
    const list: CircularList
    var clockHand: Cell

    /** What the hand's cell holds. The node the cell lies in may have left the ring. */
    ghost function UnderHand(): Node?
      reads this, list, if clockHand.NextOf? then {clockHand.node} else {}
    {
      if clockHand.HeadCell? then list.head else clockHand.node.next
    }

    /** When there is a frame to evict, the hand leads to one in the ring. */
    ghost predicate Valid()
      reads this, list, list.nodes, if clockHand.NextOf? then {clockHand.node} else {}
    {
      list.Valid() && (list.size > 0 ==> UnderHand() in list.nodes)
    }

    /** The frames that may be evicted. */
    ghost function Frames(): seq<int>
      reads list
    {
      KeysOf(list.nodes)
    }

    ghost function Next(): int
      requires Valid() && list.size > 0
      reads this, list, list.nodes, if clockHand.NextOf? then {clockHand.node} else {}
    {
      UnderHand().key
    }

    constructor (poolSize: nat)
      ensures Valid() && fresh(list) && Frames() == [] && list.capacity == poolSize
    {
      list := new CircularList(poolSize);
      clockHand := HeadCell;
    }

    /** The hand's cell read. */
    method Deref() returns (node: Node?)
      ensures node == UnderHand()
    {
      match clockHand
      case HeadCell => node := list.head;
      case NextOf(n) => node := n.next;
    }

    /** The hand on the frame after place `at`, then the frame there is taken out. */
    method TakeOut(node: Node, ghost at: nat)
      requires Valid() && at < list.size && node == list.nodes[at]
      requires clockHand == NextOf(node) || UnderHand() != node
      modifies list, list.nodes
      ensures Valid() && Frames() == Cut(old(Frames()), at)
      ensures forall f :: f in Frames() <==> f in old(Frames()) && f != node.key
      ensures list.size > 0 ==> UnderHand() == old(UnderHand())
    {
      hide Ring, NoDup, After, Before, Cut;
      if list.size > 1 {
        Neighbours(list.size, at);
      }
      RingAt(list.nodes, at);
      OnlyAt(list.nodes, at);
      assert KeysOf(list.nodes)[at] == node.key;
      StillThere(list.nodes, at);
      CutKeys(list.nodes, at);
      CutMembers(Frames(), at);
      ghost var _ := list.Remove(node.key);
    }

    /** The loop of `Victim` up to a cleared reference bit: it looks at one node only, at most twice. */
    method Sweep(currentNode: Node, ghost at: nat)
      requires Valid() && at < list.size && currentNode == list.nodes[at]
      modifies this`clockHand, currentNode`value
      ensures Valid() && !currentNode.value
    {
      hide Ring, NoDup, Before;
      while currentNode.value
        invariant Valid()
        decreases currentNode.value
      {
        list.SetValue(currentNode, at, false);
        RingAt(list.nodes, at);
        clockHand := NextOf(currentNode);
      }
    }

    /** `Victim`: the frame under the hand goes, whether its reference bit is set or not. */
    method Victim() returns (found: bool, frame: int, ghost at: nat)
      requires Valid()
      modifies this`clockHand, list, list.nodes
      ensures Valid()
      ensures found <==> |old(Frames())| > 0
      ensures found ==>
                frame == old(Next()) && at < |old(Frames())| && old(Frames())[at] == frame
                && Frames() == Cut(old(Frames()), at)
      ensures found ==> forall f :: f in Frames() <==> f in old(Frames()) && f != frame
      ensures found && |Frames()| > 0 ==> Next() == old(Frames())[After(at, |old(Frames())|)]
      ensures !found ==> Frames() == []
    {
      hide Ring, NoDup, Before, Cut;
      if list.size == 0 {
        return false, 0, 0;
      }
      var currentNode := Deref();
      at := PlaceOf(list.nodes, currentNode);
      assert KeysOf(list.nodes)[at] == currentNode.key;
      Sweep(currentNode, at);
      RingAt(list.nodes, at);
      clockHand := NextOf(currentNode);
      frame := currentNode.key;
      CutKeys(list.nodes, at);
      CutMembers(Frames(), at);
      TakeOut(currentNode, at);
      found := true;
    }

    /** `Unpin`. The hand is reset when the frame is the only one. */
    method Unpin(id: int)
      requires Valid()
      modifies this`clockHand, list, list.nodes
      ensures Valid()
      ensures Frames() == if id in old(Frames()) || |old(Frames())| == list.capacity then old(Frames())
              else old(Frames()) + [id]
      ensures |old(Frames())| > 0 ==> Next() == if Frames() == old(Frames()) || old(clockHand != NextOf(list.tail))
              then old(Next()) else id
    {
      hide Ring, NoDup, After, Before;
      var node, at := list.Find(id);
      if node == null {
        var ok := list.Insert(id, true);
        if list.size == 1 {
          clockHand := HeadCell;
        }
      }
    }

    /** `Pin`: the hand moves on before the frame under it goes. */
    method Pin(id: int) returns (ghost at: nat)
      requires Valid()
      modifies this`clockHand, list, list.nodes
      ensures Valid()
      ensures id !in old(Frames()) ==> Frames() == old(Frames())
      ensures id in old(Frames()) ==>
                at < |old(Frames())| && old(Frames())[at] == id && Frames() == Cut(old(Frames()), at)
      ensures forall f :: f in Frames() <==> f in old(Frames()) && f != id
      ensures |Frames()| > 0 ==> Next() == if id == old(Next()) then old(Frames())[After(at, |old(Frames())|)]
              else old(Next())
    {
      hide Ring, NoDup, Before;
      var node;
      node, at := list.Find(id);
      if node == null {
        return;
      }
      assert KeysOf(list.nodes)[at] == id;
      OnlyAt(list.nodes, at);
      RingAt(list.nodes, at);
      var hand := Deref();
      if hand == node {
        clockHand := NextOf(hand);
      }
      TakeOut(node, at);
    }
  }

  lemma PlaceOf(nodes: seq<Node>, node: Node) returns (at: nat)
    requires node in nodes
    ensures at < |nodes| && nodes[at] == node
  {
    at :| 0 <= at < |nodes| && nodes[at] == node;
  }

  lemma CutMembers(keys: seq<int>, at: nat)
    requires NoDup(keys) && at < |keys|
    ensures forall k :: k in Cut(keys, at) <==> k in keys && k != keys[at]
  {
    forall k ensures k in Cut(keys, at) <==> k in keys && k != keys[at] {
      if i :| 0 <= i < |keys| && keys[i] == k && k != keys[at] {
        assert Cut(keys, at)[if i < at then i else i - 1] == k;
      }
    }
  }

  lemma StillThere(nodes: seq<Node>, at: nat)
    requires at < |nodes|
    ensures forall n | n in nodes && n != nodes[at] :: n in Cut(nodes, at)
  {
    forall n | n in nodes && n != nodes[at] ensures n in Cut(nodes, at) {
      var i :| 0 <= i < |nodes| && nodes[i] == n;
      assert Cut(nodes, at)[if i < at then i else i - 1] == n;
    }
  }
}
