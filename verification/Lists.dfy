/** The singly linked list of list.c, rewired in place. */
module Lists {

  class Node<T> {
    var val: nat
    var data: T
    var next: Node?<T>

    constructor (val: nat, data: T)
      ensures this.val == val && this.data == data && next == null
    {
      this.val, this.data, next := val, data, null;
    }
  }

  /** `ns` are the nodes of the list in order. */
  ghost predicate IsList<T>(ns: seq<Node<T>>)
    reads ns
  {
    && |ns| > 0
    && (forall i, j :: 0 <= i < |ns| && 0 <= j < |ns| && j == i + 1 ==> ns[i].next == ns[j])
    && ns[|ns| - 1].next == null
    && (forall i, j :: 0 <= i < j < |ns| ==> ns[i] != ns[j])
  }

  lemma NextOf<T>(ns: seq<Node<T>>, i: nat)
    requires IsList(ns) && i < |ns|
    ensures ns[i].next == if i + 1 < |ns| then ns[i + 1] else null
  {
  }

  /** The walk to the last node. */
  method Last<T>(head: Node<T>, ghost ns: seq<Node<T>>) returns (last: Node<T>, index: nat)
    requires IsList(ns) && head == ns[0]
    ensures index == |ns| - 1 && last == ns[index]
  {
    last, index := head, 0;
    NextOf(ns, 0);
    while last.next != null
      invariant index < |ns| && last == ns[index]
      invariant last.next == if index + 1 < |ns| then ns[index + 1] else null
      decreases |ns| - index
    {
      last := last.next;
      index := index + 1;
      NextOf(ns, index);
    }
  }

  /** Appends a new node; the result is its position. */
  method ListAddNode<T>(head: Node<T>, val: nat, data: T, ghost ns: seq<Node<T>>) returns (index: nat, ghost ns': seq<Node<T>>)
    requires IsList(ns) && head == ns[0]
    modifies ns
    ensures forall k :: 0 <= k < |ns| ==> ns[k].val == old(ns[k].val) && ns[k].data == old(ns[k].data)
    ensures |ns'| == |ns| + 1 && ns'[..|ns|] == ns && fresh(ns'[|ns|]) && IsList(ns') && index == |ns|
    ensures ns'[|ns|].val == val && ns'[|ns|].data == data
  {
    var current;
    current, index := Last(head, ns);
    var node := new Node<T>(val, data);
    current.next := node;
    index := index + 1;
    ns' := ns + [node];
  }

  method ListAccessNode<T>(head: Node<T>, index: int, ghost ns: seq<Node<T>>) returns (node: Node?<T>)
    requires IsList(ns) && head == ns[0]
    ensures node == if index <= 0 then head else if index < |ns| then ns[index] else null
  {
    var current := head;
    for i := 0 to if index > 0 then index else 0
      invariant i < |ns| && current == ns[i]
    {
      NextOf(ns, i);
      if current.next == null { return null; }
      current := current.next;
    }
    return current;
  }

  ghost function Without<T>(s: seq<T>, index: nat): (r: seq<T>)
    requires index < |s|
    ensures |r| == |s| - 1 && forall i :: 0 <= i < |r| ==> r[i] == if i < index then s[i] else s[i + 1]
  {
    s[..index] + s[index + 1..]
  }

  /** Unlinks the node at `index`; the result is the new head, null for the only node. */
  method ListRemoveNode<T>(head: Node<T>, index: nat, ghost ns: seq<Node<T>>) returns (newHead: Node?<T>)
    requires IsList(ns) && head == ns[0] && index < |ns|
    modifies ns
    ensures forall k :: 0 <= k < |ns| ==> ns[k].val == old(ns[k].val) && ns[k].data == old(ns[k].data)
    ensures var rest := Without(ns, index);
      if rest == [] then newHead == null else newHead == rest[0] && IsList(rest)
  {
    ghost var rest := Without(ns, index);
    if index == 0 {
      newHead := head.next;
      NextOf(ns, 0);
      return;
    }
    newHead := head;
    var current := head;
    var previous := head;
    for i := 0 to index
      invariant IsList(ns) && forall k :: 0 <= k < |ns| ==> ns[k].val == old(ns[k].val) && ns[k].data == old(ns[k].data)
      invariant current == ns[i] && (i > 0 ==> previous == ns[i - 1])
    {
      NextOf(ns, i);
      previous := current;
      current := current.next;
    }
    NextOf(ns, index);
    previous.next := current.next;
    forall i, j | 0 <= i < |rest| && 0 <= j < |rest| && j == i + 1 ensures rest[i].next == rest[j] { }
  }

  /** Moves the head behind the last node; a single node stays. */
  method ListMoveToEnd<T>(head: Node<T>, ghost ns: seq<Node<T>>) returns (newHead: Node<T>)
    requires IsList(ns) && head == ns[0]
    modifies ns
    ensures forall k :: 0 <= k < |ns| ==> ns[k].val == old(ns[k].val) && ns[k].data == old(ns[k].data)
    ensures var moved := ns[1..] + [ns[0]]; newHead == moved[0] && IsList(moved)
  {
    NextOf(ns, 0);
    if head.next == null {
      assert ns[1..] + [ns[0]] == ns;
      return head;
    }
    var current, _ := Last(head, ns);
    current.next := head;
    newHead := head.next;
    head.next := null;
    ghost var moved := ns[1..] + [ns[0]];
    assert forall k :: 0 <= k < |ns| - 1 ==> moved[k] == ns[k + 1];
  }
}
