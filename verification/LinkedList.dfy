/** The singly linked list that carries options, pools, messages and list entries. */
module LinkedLists {

  class Node<T> {
    var data: T
    var next: Node?<T>

    constructor (data: T)
      ensures this.data == data && next == null
    {
      this.data, next := data, null;
    }
  }

  class LinkedList<T> {
    var first: Node?<T>
    var last: Node?<T>
    /** The elements, and the nodes that hold them. */
    ghost var Contents: seq<T>
    ghost var nodes: seq<Node<T>>

    ghost predicate Valid()
      reads this, nodes
    {
      && |nodes| == |Contents|
      && (if nodes == [] then first == null && last == null
          else first == nodes[0] && last == nodes[|nodes| - 1] && nodes[|nodes| - 1].next == null)
      && (forall i :: 0 <= i < |nodes| ==> nodes[i].data == Contents[i])
      && (forall i :: 0 <= i < |nodes| - 1 ==> nodes[i].next == nodes[i + 1])
      && (forall i, j :: 0 <= i < j < |nodes| ==> nodes[i] != nodes[j])
    }

    /** llist_new. */
    constructor ()
      ensures Valid() && Contents == [] && nodes == []
    {
      first, last, Contents, nodes := null, null, [], [];
    }

    /** llist_append. */
    method Append(x: T)
      requires Valid()
      modifies this, nodes
      ensures Valid() && Contents == old(Contents) + [x]
      ensures |nodes| == |old(nodes)| + 1 && nodes[..|old(nodes)|] == old(nodes) && fresh(nodes[|old(nodes)|])
    {
      var node := new Node(x);
      if first == null {
        first := node;
      } else {
        last.next := node;
      }
      last := node;
      Contents, nodes := Contents + [x], nodes + [node];
    }

    /** llist_get_index; on an empty list only index 0 and negative ones may be asked for. */
    method GetIndex(index: int) returns (n: Node?<T>)
      requires Valid() && (Contents == [] ==> index <= 0)
      ensures n == if 0 <= index < |nodes| then nodes[index] else null
    {
      if index < 0 {
        return null;
      }
      n := first;
      var i := 0;
      while i < index
        invariant 0 <= i <= index
        invariant n == if nodes == [] then null else if i < |nodes| then nodes[i] else null
        invariant i < |nodes| || nodes == []
      {
        assert i < |nodes| - 1 ==> n.next == nodes[i + 1];
        if n.next == null {
          return null;
        }
        n := n.next;
        i := i + 1;
      }
    }

    /** llist_foreach: index by index, every element exactly once and in order. */
    method ForEach() returns (visited: seq<T>)
      requires Valid()
      ensures visited == Contents
    {
      visited := [];
      var i := 0;
      var node := GetIndex(0);
      while node != null
        invariant 0 <= i <= |nodes| && visited == Contents[..i]
        invariant node == if i < |nodes| then nodes[i] else null
        decreases |nodes| - i
      {
        visited := visited + [node.data];
        i := i + 1;
        node := GetIndex(i);
      }
    }

    /** llist_clear: walks and drops every node. */
    method Clear()
      requires Valid()
      modifies this
      ensures Valid() && Contents == []
    {
      var node := first;
      ghost var i := 0;
      while node != null
        invariant 0 <= i <= |nodes| && node == (if i < |nodes| then nodes[i] else null)
        decreases |nodes| - i
      {
        node := node.next;
        i := i + 1;
      }
      first, last, Contents, nodes := null, null, [], [];
    }
  }
}
