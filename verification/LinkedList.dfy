/** The mutable singly linked lists of ocaml-eval/src/basic/basic_linkable.ml: insertion after a
    node, in front, and at the back. */
module LinkedList {

  class Node<T> {
    var next: Node?<T>
    var data: T

    constructor (data: T)
      ensures next == null && this.data == data
    {
      this.next, this.data := null, data;
    }
  }

  ghost function At<T>(nodes: seq<Node<T>>, i: int): Node?<T> {
    if 0 <= i < |nodes| then nodes[i] else null
  }

  /** Following the links from head visits exactly these nodes and then ends. */
  ghost predicate Chain<T>(head: Node?<T>, nodes: seq<Node<T>>)
    reads nodes
  {
    && head == At(nodes, 0)
    && forall i {:trigger nodes[i].next} :: 0 <= i < |nodes| ==> nodes[i].next == At(nodes, i + 1)
  }

  /** A list that ends visits no node twice. */
  lemma {:induction false} ChainDistinct<T>(head: Node?<T>, nodes: seq<Node<T>>, i: nat, j: nat)
    requires Chain(head, nodes) && i < j < |nodes|
    ensures nodes[i] != nodes[j]
    decreases |nodes| - j
  {
    assert nodes[i].next == At(nodes, i + 1) && nodes[j].next == At(nodes, j + 1);
    if j + 1 < |nodes| {
      ChainDistinct(head, nodes, i + 1, j + 1);
    }
  }

  /** Two lists that end are the same from a shared node on, so they share their last node. */
  lemma {:induction false} SharedTail<T>(s: seq<Node<T>>, t: seq<Node<T>>, i: nat, j: nat)
    requires Chain(At(s, 0), s) && Chain(At(t, 0), t)
    requires i < |s| && j < |t| && s[i] == t[j]
    ensures s[|s| - 1] == t[|t| - 1]
    decreases |s| - i
  {
    assert s[i].next == At(s, i + 1) && t[j].next == At(t, j + 1);
    if i + 1 < |s| {
      SharedTail(s, t, i + 1, j + 1);
    }
  }

  /** `insert_front`. */
  method InsertFront<T>(newNode: Node<T>, existingHead: Node<T>, ghost nodes: seq<Node<T>>) returns (head: Node<T>)
    requires Chain(existingHead, nodes) && newNode !in nodes
    modifies newNode`next
    ensures head == newNode && Chain(head, [newNode] + nodes)
  {
    newNode.next := existingHead;
    head := newNode;
    ghost var all := [newNode] + nodes;
    assert forall i :: 0 < i < |all| ==> all[i] == nodes[i - 1];
  }

  /** `insert_after`: splices the node in behind nodes[k]; given the node itself it does nothing. */
  method InsertAfter<T>(node: Node<T>, newNode: Node<T>, ghost nodes: seq<Node<T>>, ghost k: nat)
    requires k < |nodes| && nodes[k] == node && Chain(nodes[0], nodes)
    modifies node`next, newNode`next
    ensures newNode !in nodes ==> Chain(nodes[0], nodes[..k + 1] + [newNode] + nodes[k + 1..])
    ensures newNode == node ==> node.next == old(node.next)
  {
    forall i | 0 <= i < |nodes| && i != k
      ensures nodes[i] != node
    {
      ChainDistinct(nodes[0], nodes, if i < k then i else k, if i < k then k else i);
    }
    assert node.next == At(nodes, k + 1);
    ghost var all := nodes[..k + 1] + [newNode] + nodes[k + 1..];
    assert forall i :: 0 <= i <= k ==> all[i] == nodes[i];
    assert forall i :: k + 1 < i < |all| ==> all[i] == nodes[i - 1];
    var nextNode := node.next;
    node.next := newNode;
    newNode.next := nextNode;
  }

  ghost predicate Apart<T>(s: seq<Node<T>>, t: seq<Node<T>>) {
    forall n :: n in s ==> n !in t
  }

  /** Each node but the last links to the next one. */
  ghost predicate Path<T>(nodes: seq<Node<T>>)
    reads nodes
  {
    forall i {:trigger nodes[i].next} :: 0 <= i < |nodes| - 1 ==> nodes[i].next == nodes[i + 1]
  }

  /** A list that ends runs along any path that starts on it. */
  lemma {:induction false} RunsAlong<T>(all: seq<Node<T>>, path: seq<Node<T>>, k: nat, i: nat)
    requires Chain(At(all, 0), all) && Path(path)
    requires i < |path| && k < |all| && all[k] == path[0]
    ensures k + i < |all| && all[k + i] == path[i]
  {
    if i > 0 {
      RunsAlong(all, path, k, i - 1);
      assert all[k + i - 1].next == At(all, k + i);
      assert path[i - 1].next == path[i];
    }
  }

  /** No list that ends can follow a path that comes back to a node. */
  lemma LoopNeverEnds<T>(path: seq<Node<T>>, i: nat, j: nat, all: seq<Node<T>>)
    requires Path(path) && i < j < |path| && path[i] == path[j]
    ensures !Chain(path[0], all)
  {
    if Chain(path[0], all) {
      RunsAlong(all, path, 0, i);
      RunsAlong(all, path, 0, j);
      ChainDistinct(path[0], all, i, j);
    }
  }

  ghost function LastOf<T>(nodes: seq<Node<T>>): set<Node<T>> {
    if nodes == [] then {} else {nodes[|nodes| - 1]}
  }

  /** `insert_back`: links the new node's chain behind the last node and changes no other link.
      The outcome is a list that ends exactly when the two chains share no node. */
  method InsertBack<T>(newNode: Node<T>, list: Node?<T>, ghost nodes: seq<Node<T>>, ghost newNodes: seq<Node<T>>)
    returns (head: Node<T>)
    requires Chain(list, nodes) && Chain(newNode, newNodes)
    modifies LastOf(nodes)`next
    ensures head == if list == null then newNode else list
    ensures nodes != [] ==> nodes[|nodes| - 1].next == newNode
    ensures Apart(nodes, newNodes) ==> Chain(head, nodes + newNodes)
    ensures !Apart(nodes, newNodes) ==> forall all: seq<Node<T>> :: !Chain(head, all)
    decreases |nodes|
  {
    if list == null {
      head := newNode;
      assert nodes + newNodes == newNodes;
      return;
    }
    ghost var last := nodes[|nodes| - 1];
    OnlyLastIsLast(list, nodes);
    OnlyLastIsLast(newNode, newNodes);
    SharedLast(nodes, newNodes);
    assert list.next == At(nodes, 1) && last in nodes && newNodes[|newNodes| - 1] in newNodes;
    if list.next == null {
      list.next := newNode;
    } else {
      assert LastOf(nodes[1..]) == {last};
      var rest := InsertBack(newNode, list.next, nodes[1..], newNodes);
    }
    head := list;
    Joined(head, nodes, newNodes);
  }

  lemma OnlyLastIsLast<T>(head: Node?<T>, nodes: seq<Node<T>>)
    requires Chain(head, nodes)
    ensures forall i :: 0 <= i < |nodes| - 1 ==> nodes[i] != nodes[|nodes| - 1]
    ensures Path(nodes) && (nodes != [] ==> nodes[|nodes| - 1].next == null)
  {
    forall i | 0 <= i < |nodes| - 1
      ensures nodes[i] != nodes[|nodes| - 1]
    {
      ChainDistinct(head, nodes, i, |nodes| - 1);
    }
  }

  lemma SharedLast<T>(s: seq<Node<T>>, t: seq<Node<T>>)
    requires Chain(At(s, 0), s) && Chain(At(t, 0), t) && s != [] && t != []
    ensures s[|s| - 1] == t[|t| - 1] || Apart(s, t)
  {
    if !Apart(s, t) {
      var n :| n in s && n in t;
      var i :| 0 <= i < |s| && s[i] == n;
      var j :| 0 <= j < |t| && t[j] == n;
      SharedTail(s, t, i, j);
    }
  }

  /** Once the last node of one path links to the first of another, the two are one path: a list
      that ends if the second did, a loop if they end in the same node. */
  lemma Joined<T>(head: Node<T>, nodes: seq<Node<T>>, newNodes: seq<Node<T>>)
    requires nodes != [] && newNodes != [] && head == nodes[0]
    requires Path(nodes) && Path(newNodes) && nodes[|nodes| - 1].next == newNodes[0]
    ensures newNodes[|newNodes| - 1].next == null ==> Chain(head, nodes + newNodes)
    ensures newNodes[|newNodes| - 1] == nodes[|nodes| - 1] ==> forall all: seq<Node<T>> :: !Chain(head, all)
  {
    var path := nodes + newNodes;
    forall i | 0 <= i < |path| - 1
      ensures path[i].next == path[i + 1]
    {
      if i < |nodes| - 1 {
        assert path[i] == nodes[i];
      } else if i >= |nodes| {
        assert path[i] == newNodes[i - |nodes|];
      }
    }
    if newNodes[|newNodes| - 1] == nodes[|nodes| - 1] {
      forall all: seq<Node<T>>
        ensures !Chain(head, all)
      {
        LoopNeverEnds(path, |nodes| - 1, |path| - 1, all);
      }
    }
  }
}
