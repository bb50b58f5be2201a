/** The doubly linked ring of storage/buffer/circular_list.go. */
module CircularLists {
  import opened Collections

  class Node {
    const key: int
    var value: bool
    var next: Node?
    var prev: Node?

    constructor (key: int, value: bool)
      ensures this.key == key && this.value == value && next == null && prev == null
    {
      this.key, this.value, this.next, this.prev := key, value, null, null;
    }
  }

  /** The keys of the nodes, in order. */
  function KeysOf(nodes: seq<Node>): (keys: seq<int>)
    ensures |keys| == |nodes| && forall i | 0 <= i < |nodes| :: keys[i] == nodes[i].key
  {
    seq(|nodes|, i requires 0 <= i < |nodes| => nodes[i].key)
  }

  function Cut<T>(s: seq<T>, i: nat): (r: seq<T>)
    requires i < |s|
    ensures |r| == |s| - 1 && forall j | 0 <= j < |r| :: r[j] == s[if j < i then j else j + 1]
  {
    s[..i] + s[i + 1..]
  }

  function After(i: nat, n: nat): nat {
    if i + 1 < n then i + 1 else 0
  }

  function Before(i: nat, n: nat): nat
    requires n > 0
  {
    if i > 0 then i - 1 else n - 1
  }

  /** Each node points to the next and to the one before, around the ring. */
  ghost predicate Ring(nodes: seq<Node>)
    reads nodes
  {
    forall i | 0 <= i < |nodes| :: nodes[i].next == nodes[After(i, |nodes|)]
        && nodes[i].prev == nodes[Before(i, |nodes|)]
  }

  lemma RingAt(nodes: seq<Node>, i: nat)
    requires Ring(nodes) && i < |nodes|
    ensures nodes[i].next == nodes[After(i, |nodes|)] && nodes[i].prev == nodes[Before(i, |nodes|)]
  {
  }

  /** A node stands at one place only. */
  lemma OnlyAt(nodes: seq<Node>, k: nat)
    requires NoDup(KeysOf(nodes)) && k < |nodes|
    ensures forall i | 0 <= i < |nodes| :: nodes[i].key == nodes[k].key <==> i == k
    ensures forall i | 0 <= i < |nodes| :: nodes[i] == nodes[k] <==> i == k
  {
    forall i | 0 <= i < |nodes| && i != k ensures nodes[i].key != nodes[k].key {
      assert KeysOf(nodes)[i] != KeysOf(nodes)[k];
    }
  }

  lemma GrownKeys(nodes: seq<Node>, newNode: Node)
    requires NoDup(KeysOf(nodes)) && newNode.key !in KeysOf(nodes)
    ensures NoDup(KeysOf(nodes + [newNode]))
  {
    assert KeysOf(nodes + [newNode]) == KeysOf(nodes) + [newNode.key];
  }

  lemma CutKeys(nodes: seq<Node>, at: nat)
    requires NoDup(KeysOf(nodes)) && at < |nodes|
    ensures NoDup(KeysOf(Cut(nodes, at))) && KeysOf(Cut(nodes, at)) == Cut(KeysOf(nodes), at)
  {
    assert KeysOf(Cut(nodes, at)) == Cut(KeysOf(nodes), at);
  }

  /** Where the neighbours of place `j` are once place `at` is cut out. */
  lemma CutPlaces(n: nat, at: nat, j: nat)
    requires at < n && j < n - 1
    ensures var i := if j < at then j else j + 1;
            var a, b := After(j, n - 1), Before(j, n - 1);
            && (if a < at then a else a + 1) == (if i == Before(at, n) then After(at, n) else After(i, n))
            && (if b < at then b else b + 1) == (if i == After(at, n) then Before(at, n) else Before(i, n))
  {
  }

  lemma Neighbours(n: nat, at: nat)
    requires at < n && n > 1
    ensures Before(at, n) < n && After(at, n) < n && Before(at, n) != at && After(at, n) != at
    ensures After(0, n) == 1 && Before(n - 1, n) == n - 2
  {
  }

  /** One node's neighbours joined: the rest is a ring. */
  twostate lemma CutRing(nodes: seq<Node>, new at: nat)
    requires old(Ring(nodes)) && at < |nodes|
    requires forall i | 0 <= i < |nodes| && i != at ::
               nodes[i].next == if i == Before(at, |nodes|) then old(nodes[at].next) else old(nodes[i].next)
    requires forall i | 0 <= i < |nodes| && i != at ::
               nodes[i].prev == if i == After(at, |nodes|) then old(nodes[at].prev) else old(nodes[i].prev)
    ensures Ring(Cut(nodes, at))
  {
    var rest := Cut(nodes, at);
    forall j | 0 <= j < |rest| ensures rest[j].next == rest[After(j, |rest|)]
        && rest[j].prev == rest[Before(j, |rest|)] {
      CutRingAt(nodes, at, j);
    }
  }

  twostate lemma CutRingAt(nodes: seq<Node>, new at: nat, new j: nat)
    requires old(Ring(nodes)) && at < |nodes| && j < |nodes| - 1
    requires forall i | 0 <= i < |nodes| && i != at ::
               nodes[i].next == if i == Before(at, |nodes|) then old(nodes[at].next) else old(nodes[i].next)
    requires forall i | 0 <= i < |nodes| && i != at ::
               nodes[i].prev == if i == After(at, |nodes|) then old(nodes[at].prev) else old(nodes[i].prev)
    ensures var rest := Cut(nodes, at);
              rest[j].next == rest[After(j, |rest|)] && rest[j].prev == rest[Before(j, |rest|)]
  {
    hide After, Before, Ring;
    var n := |nodes|;
    CutPlaces(n, at, j);
    PlacesInRange(n - 1, j);
    PlacesInRange(n, at);
    LinksAt(nodes, at);
    LinksAt(nodes, if j < at then j else j + 1);
  }

  twostate lemma LinksAt(nodes: seq<Node>, new i: nat)
    requires old(Ring(nodes)) && i < |nodes|
    ensures old(nodes[i].next) == nodes[After(i, |nodes|)] && old(nodes[i].prev) == nodes[Before(i, |nodes|)]
  {
  }

  /** Only the node before points to a node. */
  lemma PointsHere(nodes: seq<Node>, at: nat)
    requires Ring(nodes) && NoDup(KeysOf(nodes)) && at < |nodes|
    ensures Before(at, |nodes|) < |nodes|
    ensures forall n | n in nodes :: n.next == nodes[at] <==> n == nodes[Before(at, |nodes|)]
  {
    OnlyAt(nodes, at);
    OnlyAt(nodes, Before(at, |nodes|));
  }

  lemma PlacesInRange(n: nat, i: nat)
    requires i < n
    ensures After(i, n) < n && Before(i, n) < n
  {
  }

  /** A new node between the last and the first. */
  twostate lemma GrownRing(nodes: seq<Node>, new newNode: Node)
    requires old(Ring(nodes)) && |nodes| > 0
    requires newNode.next == nodes[0] && newNode.prev == nodes[|nodes| - 1]
    requires forall i | 0 <= i < |nodes| :: nodes[i].next == if i == |nodes| - 1 then newNode else old(nodes[i].next)
    requires forall i | 0 <= i < |nodes| :: nodes[i].prev == if i == 0 then newNode else old(nodes[i].prev)
    ensures Ring(nodes + [newNode])
  {
    var all := nodes + [newNode];
    forall i | 0 <= i < |all| ensures all[i].next == all[After(i, |all|)] && all[i].prev == all[Before(i, |all|)] {
      GrownRingAt(nodes, newNode, i);
    }
  }

  twostate lemma GrownRingAt(nodes: seq<Node>, new newNode: Node, new i: nat)
    requires old(Ring(nodes)) && |nodes| > 0 && i <= |nodes|
    requires newNode.next == nodes[0] && newNode.prev == nodes[|nodes| - 1]
    requires forall i | 0 <= i < |nodes| :: nodes[i].next == if i == |nodes| - 1 then newNode else old(nodes[i].next)
    requires forall i | 0 <= i < |nodes| :: nodes[i].prev == if i == 0 then newNode else old(nodes[i].prev)
    ensures var all := nodes + [newNode]; all[i].next == all[After(i, |all|)] && all[i].prev == all[Before(i, |all|)]
  {
    hide After, Before, Ring;
    PlacesInRange(|nodes| + 1, i);
    GrownPlaces(|nodes|, i);
    if i < |nodes| {
      LinksAt(nodes, i);
    }
  }

  lemma GrownPlaces(n: nat, i: nat)
    requires 0 < n && i <= n
    ensures After(i, n + 1) == if i == n then 0 else if i == n - 1 then n else After(i, n)
    ensures Before(i, n + 1) == if i == n then n - 1 else if i == 0 then n else Before(i, n)
    ensures i < n ==> After(i, n) < n && Before(i, n) < n
  {
  }

  /** The two pointer writes that take a node out. */
  method JoinNeighbours(node: Node)
    requires node.next != null && node.prev != null && node.next != node && node.prev != node
    modifies node.next`prev, node.prev`next
    ensures old(node.next).prev == old(node.prev) && old(node.prev).next == old(node.next)
  {
    node.next.prev := node.prev;
    node.prev.next := node.next;
  }

  class CircularList {
    var head: Node?
    var tail: Node?
    var size: nat
    const capacity: nat
    /** The nodes of the ring, from `head` to `tail`. */
    ghost var nodes: seq<Node>

    /** A ring of `size` nodes with distinct keys, linked both ways. */
    ghost predicate Valid()
      reads this, nodes
    {
      && size == |nodes| <= capacity
      && head == (if size == 0 then null else nodes[0])
      && tail == (if size == 0 then null else nodes[size - 1])
      && Ring(nodes) && NoDup(KeysOf(nodes))
    }

    constructor (maxSize: nat)
      ensures Valid() && nodes == [] && capacity == maxSize
    {
      head, tail, size, capacity := null, null, 0, maxSize;
      nodes := [];
    }

    method Find(key: int) returns (found: Node?, ghost at: nat)
      requires Valid()
      ensures found == null ==> key !in KeysOf(nodes)
      ensures found != null ==> at < size && found == nodes[at] && found.key == key
    {
      hide NoDup, Ring;
      var ptr := head;
      for i := 0 to size
        invariant Ring(nodes) && (i < size ==> ptr == nodes[i])
        invariant forall j | 0 <= j < i :: nodes[j].key != key
      {
        if ptr.key == key {
          return ptr, i;
        }
        RingAt(nodes, i);
        ptr := ptr.next;
      }
      return null, 0;
    }

    /** The first node of an empty ring is its own neighbour. */
    method InsertFirst(key: int, value: bool) returns (newNode: Node)
      requires Valid() && size == 0 < capacity
      modifies this
      ensures Valid() && fresh(newNode) && nodes == [newNode] && newNode.key == key && newNode.value == value
    {
      newNode := new Node(key, value);
      newNode.next := newNode;
      newNode.prev := newNode;
      head := newNode;
      tail := newNode;
      size := size + 1;
      nodes := [newNode];
    }

    /** A new last node. */
    method InsertLast(key: int, value: bool) returns (newNode: Node)
      requires Valid() && 0 < size < capacity && key !in KeysOf(nodes)
      modifies this, nodes
      ensures Valid() && fresh(newNode) && nodes == old(nodes) + [newNode] && newNode.key == key
              && newNode.value == value
      ensures forall n | n in old(nodes) ::
                n.value == old(n.value) && n.next == if n == old(tail) then newNode else old(n.next)
    {
      hide Ring, After, Before, NoDup;
      OnlyAt(nodes, 0);
      OnlyAt(nodes, size - 1);
      newNode := new Node(key, value);
      newNode.next := head;
      newNode.prev := tail;
      tail.next := newNode;
      if head == tail {
        head.next := newNode;
      }
      tail := newNode;
      head.prev := tail;
      size := size + 1;
      GrownRing(nodes, newNode);
      GrownKeys(nodes, newNode);
      nodes := nodes + [newNode];
    }

    method SetValue(node: Node, ghost at: nat, value: bool)
      requires Valid() && at < size && node == nodes[at]
      modifies node`value
      ensures Valid() && node.value == value
      ensures forall n | n in nodes :: n.key == node.key <==> n == node
    {
      OnlyAt(nodes, at);
      node.value := value;
    }

    /** Fails when the ring is full; a key that is there only gets a new value. */
    method Insert(key: int, value: bool) returns (ok: bool)
      requires Valid()
      modifies this, nodes
      ensures Valid() && (ok <==> old(size) < capacity)
      ensures !ok || key in KeysOf(old(nodes))
              ==> nodes == old(nodes) && size == old(size) && head == old(head) && tail == old(tail)
      ensures ok && key !in KeysOf(old(nodes)) ==>
                |nodes| == old(size) + 1 && fresh(nodes[old(size)]) && nodes[..old(size)] == old(nodes) &&
                nodes[old(size)].key == key && nodes[old(size)].value == value
      ensures forall n | n in old(nodes) :: n.next == if n == old(tail) && nodes != old(nodes) then nodes[|nodes| - 1]
              else old(n.next)
      ensures forall n | n in old(nodes) :: n.value == if ok && n.key == key then value else old(n.value)
    {
      hide Ring, After, Before, NoDup;
      if size == capacity {
        return false;
      }
      if size == 0 {
        var _ := InsertFirst(key, value);
        return true;
      }
      var found, at := Find(key);
      if found != null {
        SetValue(found, at, value);
        return true;
      }
      var _ := InsertLast(key, value);
      return true;
    }

    /** The only node goes. */
    method RemoveOnly()
      requires Valid() && size == 1
      modifies this
      ensures Valid() && |nodes| == 0 && size == 0
    {
      head := null;
      tail := null;
      size := size - 1;
      nodes := [];
    }

    /** The ends of the ring once the node is gone. */
    method MoveEnds(node: Node, ghost at: nat)
      requires Valid() && size > 1 && at < size && node == nodes[at]
      modifies this`head, this`tail
      ensures head == Cut(nodes, at)[0] && tail == Cut(nodes, at)[size - 2]
    {
      hide Ring, After, Before, NoDup;
      Neighbours(size, at);
      RingAt(nodes, at);
      OnlyAt(nodes, at);
      if node == head {
        head := head.next;
      }
      if node == tail {
        tail := tail.prev;
      }
    }

    /** One node of several goes; it keeps its own links. */
    method Unlink(node: Node, ghost at: nat)
      requires Valid() && size > 1 && at < size && node == nodes[at]
      modifies this, nodes
      ensures Valid() && nodes == Cut(old(nodes), at)
      ensures forall n | n in old(nodes) :: n.value == old(n.value)
      ensures forall n | n in old(nodes) :: n.next == if n != node && old(n.next) == node then old(node.next)
              else old(n.next)
    {
      hide Ring, After, Before, NoDup, Cut;
      Neighbours(size, at);
      RingAt(nodes, at);
      OnlyAt(nodes, at);
      OnlyAt(nodes, After(at, size));
      OnlyAt(nodes, Before(at, size));
      PointsHere(nodes, at);
      MoveEnds(node, at);
      JoinNeighbours(node);
      size := size - 1;
      CutRing(nodes, at);
      CutKeys(nodes, at);
      nodes := Cut(nodes, at);
    }

    /** The node with the key, if there is one, leaves the ring. */
    method Remove(key: int) returns (ghost at: nat)
      requires Valid()
      modifies this, nodes
      ensures Valid()
      ensures key !in KeysOf(old(nodes)) ==>
                nodes == old(nodes) && size == old(size) && head == old(head) && tail == old(tail)
      ensures key in KeysOf(old(nodes)) ==> at < old(size) && old(nodes)[at].key == key && nodes == Cut(old(nodes), at)
      ensures forall n | n in old(nodes) :: n.value == old(n.value)
      ensures forall n | n in old(nodes) ::
                n.next == if key in KeysOf(old(nodes)) && n.key != key && old(n.next) == old(nodes)[at]
                    then old(nodes[at].next) else old(n.next)
    {
      hide Ring, After, Before, NoDup;
      var node;
      node, at := Find(key);
      if node == null {
        return;
      }
      assert KeysOf(nodes)[at] == key;
      OnlyAt(nodes, at);
      if size == 1 {
        RemoveOnly();
      } else {
        Unlink(node, at);
      }
    }
  }
}
