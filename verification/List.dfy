/** The linked list of the program, proved to refine a sequence. */
module List {

  datatype Option<T> = None | Some(value: T)

  class Node<T> {
    var element: T
    var next: Node?<T>

    constructor (element: T)
      ensures this.element == element && next == null
    {
      this.element := element;
      next := null;
    }
  }

  class List<T(==)> {
    var start: Node?<T>
    var count: nat
    ghost var nodes: seq<Node<T>>
    ghost var contents: seq<T>

    ghost predicate Valid()
      reads this, nodes
    {
      && count == |nodes| == |contents|
      && start == (if count == 0 then null else nodes[0])
      && (forall i :: 0 <= i < count ==> nodes[i].element == contents[i])
      && (forall i, j :: 0 <= i < count && j == i + 1 < count ==> nodes[i].next == nodes[j])
      && (count > 0 ==> nodes[count - 1].next == null)
      && (forall i, j :: 0 <= i < j < count ==> nodes[i] != nodes[j])
    }

    /** Nodes are never shared between states: what is not old is new. */
    twostate predicate Grown()
      reads this
    {
      forall i :: 0 <= i < |nodes| ==> nodes[i] in old(nodes) || fresh(nodes[i])
    }

    constructor ()
      ensures Valid() && contents == [] && nodes == []
    {
      start, count := null, 0;
      nodes, contents := [], [];
    }

    method Add(elem: T)
      requires Valid()
      modifies this, nodes
      ensures Valid() && Grown()
      ensures contents == old(contents) + [elem]
    {
      var node := new Node(elem);
      if count == 0 {
        start := node;
      } else {
        var n: Node<T> := start;
        for i := 0 to count - 1
          invariant n == nodes[i]
        {
          assert n.next == nodes[i + 1];
          n := n.next;
        }
        n.next := node;
      }
      count := count + 1;
      nodes, contents := nodes + [node], contents + [elem];
    }

    /** Returns -1 and changes nothing when the index is out of bounds. */
    method Remove(idx: nat) returns (status: int)
      requires Valid()
      modifies this, nodes
      ensures Valid() && Grown()
      ensures idx >= |old(contents)| ==> status == -1 && contents == old(contents)
      ensures idx < |old(contents)| ==> status == 0 && contents == old(contents)[..idx] + old(contents)[idx + 1..]
    {
      if idx >= count {
        return -1;
      }
      if idx == 0 {
        RemoveFirst();
      } else {
        Unlink(idx);
      }
      return 0;
    }

    method RemoveFirst()
      requires Valid() && count > 0
      modifies this
      ensures Valid() && nodes == old(nodes)[1..] && contents == old(contents)[1..]
    {
      assert start == nodes[0];
      start := start.next;
      count := count - 1;
      nodes, contents := nodes[1..], contents[1..];
    }

    /** The node before idx is linked past the node at idx. */
    method Unlink(idx: nat)
      requires Valid() && 0 < idx < count
      modifies this, nodes
      ensures Valid() && nodes == old(nodes)[..idx] + old(nodes)[idx + 1..]
      ensures contents == old(contents)[..idx] + old(contents)[idx + 1..]
    {
      var prev: Node<T> := start;
      for i := 0 to idx - 1
        invariant prev == nodes[i]
      {
        assert prev.next == nodes[i + 1];
        prev := prev.next;
      }
      ghost var before, values := nodes, contents;
      assert prev.next == before[idx];
      prev.next := prev.next.next;
      count := count - 1;
      nodes, contents := before[..idx] + before[idx + 1..], values[..idx] + values[idx + 1..];
      forall i | 0 <= i < |nodes|
        ensures nodes[i].element == contents[i]
      {
        assert contents[i] == values[if i < idx then i else i + 1];
      }
    }

    method Get(idx: nat) returns (r: Option<T>)
      requires Valid()
      ensures r == if idx < |contents| then Some(contents[idx]) else None
    {
      if idx >= count {
        return None;
      }
      var node: Node<T> := start;
      for i := 0 to idx
        invariant node == nodes[i]
      {
        assert node.next == nodes[i + 1];
        node := node.next;
      }
      return Some(node.element);
    }

    /** The first position of an element, or -1. */
    method Index(elem: T) returns (r: int)
      requires Valid()
      ensures r == -1 ==> elem !in contents
      ensures r != -1 ==> 0 <= r < |contents| && contents[r] == elem && elem !in contents[..r]
    {
      if count == 0 {
        return -1;
      }
      var n: Node<T> := start;
      if n.element == elem {
        return 0;
      }
      for i := 1 to count
        invariant n == nodes[i - 1]
        invariant elem !in contents[..i]
      {
        assert n.next == nodes[i];
        n := n.next;
        if n.element == elem {
          return i;
        }
      }
      return -1;
    }
  }
}
