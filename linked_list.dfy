/** `_Node` and `LinkedList` of hash.js: singly linked lists of any
    values, used as the bucket lists of `ChainHash`. Each list keeps, as
    ghost state, the sequence of its nodes in order and the sequence of
    their values. */
module LinkedLists {

  class Node<T> {
    var value: T
    var next: Node?<T>

    constructor (value: T)
      ensures this.value == value && next == null
    {
      this.value := value;
      next := null;
    }
  }

  class LinkedList<T> {
    var head: Node?<T>
    /** The nodes from `head` on, in `next` order. */
    ghost var Nodes: seq<Node<T>>
    /** The values of `Nodes`, in order. */
    ghost var Contents: seq<T>
    ghost var Repr: set<object>

    /** `head` starts the chain of `Nodes`, each node's `next` is the one
        after it, the last one's is `null`, and no node occurs twice. */
    ghost predicate Valid()
      reads this, Repr
    {
      && this in Repr
      && (forall i :: 0 <= i < |Nodes| ==> Nodes[i] in Repr)
      && |Contents| == |Nodes|
      && head == (if Nodes == [] then null else Nodes[0])
      && (forall i :: 0 <= i < |Nodes| ==>
            Nodes[i].value == Contents[i] && (Nodes[i].next == null <==> i + 1 == |Nodes|))
      && (forall i :: 0 <= i < |Nodes| - 1 ==> Nodes[i].next == Nodes[i + 1])
      && (forall i, j :: 0 <= i < j < |Nodes| ==> Nodes[i] != Nodes[j])
    }

    constructor ()
      ensures Valid() && fresh(Repr)
      ensures Contents == [] && Nodes == []
    {
      head := null;
      Nodes := [];
      Contents := [];
      Repr := {this};
    }

    /** `insertLast`: walk to the node whose `next` is `null` and link a new
        node holding `value` after it. */
    method InsertLast(value: T)
      requires Valid()
      modifies Repr
      ensures Valid() && fresh(Repr - old(Repr))
      ensures Contents == old(Contents) + [value]
      ensures |Nodes| == |old(Nodes)| + 1 && Nodes[..|old(Nodes)|] == old(Nodes)
    {
      var node := new Node(value);
      if head == null {
        head := node;
        Nodes, Contents, Repr := [node], [value], Repr + {node};
        return;
      }
      var tempNode := head;
      ghost var i := 0;
      while tempNode.next != null
        invariant Valid() && 0 <= i < |Nodes| && tempNode == Nodes[i]
        decreases |Nodes| - i
      {
        tempNode := tempNode.next;
        i := i + 1;
      }
      tempNode.next := node;
      Nodes, Contents, Repr := Nodes + [node], Contents + [value], Repr + {node};
    }
  }
}
