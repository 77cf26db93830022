/**
 Circular doubly linked lists whose links live in the elements: the operations of
 `SendQueue` and of the `IQUEUE_*` macros.
 */
module CircularList {

  class Node {
    var pre: Node?
    var next: Node?

    constructor ()
      ensures pre == null && next == null
    {
      pre, next := null, null;
    }
  }

  /** Index of the next and of the previous element of a circle of `n`. */
  function After(i: nat, n: nat): nat {
    if i + 1 < n then i + 1 else 0
  }

  function Before(i: nat, n: nat): nat
    requires i < n
  {
    if i > 0 then i - 1 else n - 1
  }

  ghost predicate Distinct<T>(r: seq<T>) {
    forall i, j :: 0 <= i < j < |r| ==> r[i] != r[j]
  }

  /** Node `i` is linked to its neighbours. */
  ghost predicate Linked(r: seq<Node>, i: nat)
    requires i < |r|
    reads r[i]
  {
    r[i].next == r[After(i, |r|)] && r[i].pre == r[Before(i, |r|)]
  }

  /** The nodes of `r`, in this order, form one circle. */
  ghost predicate Circle(r: seq<Node>)
    reads r
  {
    |r| > 0 && Distinct(r) && forall i :: 0 <= i < |r| ==> Linked(r, i)
  }

  /** The sequence read from its element `k`. */
  ghost function Turned<T>(r: seq<T>, k: nat): (s: seq<T>)
    requires k <= |r|
    ensures |s| == |r|
  {
    r[k..] + r[..k]
  }

  lemma TurnedAt<T>(r: seq<T>, k: nat, i: nat)
    requires k <= |r| && i < |r|
    ensures Turned(r, k)[i] == r[if i < |r| - k then i + k else i - (|r| - k)]
  {
  }

  lemma TurnedDistinct<T>(r: seq<T>, k: nat)
    requires k <= |r| && Distinct(r)
    ensures Distinct(Turned(r, k))
  {
    hide Turned;
    forall i, j | 0 <= i < j < |r| ensures Turned(r, k)[i] != Turned(r, k)[j] {
      TurnedAt(r, k, i);
      TurnedAt(r, k, j);
    }
  }

  /** A circle may be read from any of its nodes. */
  lemma Rotate(r: seq<Node>, k: nat)
    requires Circle(r) && k <= |r|
    ensures Circle(Turned(r, k))
  {
    TurnedDistinct(r, k);
    hide Turned, Distinct, Linked;
    forall i | 0 <= i < |r| ensures Linked(Turned(r, k), i) {
      LinkedTurned(r, k, i, if i < |r| - k then i + k else i - (|r| - k));
    }
  }

  lemma LinkedTurned(r: seq<Node>, k: nat, i: nat, j: nat)
    requires k <= |r| && i < |r| && j == (if i < |r| - k then i + k else i - (|r| - k)) && Linked(r, j)
    ensures Linked(Turned(r, k), i)
  {
    hide Turned;
    TurnedAt(r, k, i);
    TurnedAt(r, k, After(i, |r|));
    TurnedAt(r, k, Before(i, |r|));
  }

  lemma LastLinks(s: seq<Node>, node: Node)
    requires Circle(s + [node]) && |s| > 0
    ensures Distinct(s) && node !in s && node.next == s[0] && node.pre == s[|s| - 1]
    ensures forall i :: 0 <= i < |s| - 1 ==> s[i].next == s[i + 1]
    ensures forall i :: 0 < i < |s| ==> s[i].pre == s[i - 1]
  {
    var r := s + [node];
    assert forall i :: 0 <= i < |s| ==> r[i] == s[i];
    assert r[|s|] == node && Linked(r, |s|);
    forall i | 0 <= i < |s| ensures (i < |s| - 1 ==> s[i].next == s[i + 1]) && (i > 0 ==> s[i].pre == s[i - 1]) {
      assert Linked(r, i);
    }
  }

  /** The links of a circle are mutually inverse and stay inside it. */
  lemma Inverse(r: seq<Node>, n: Node)
    requires Circle(r) && n in r
    ensures n.next != null && n.next in r && n.next.pre == n
    ensures n.pre != null && n.pre in r && n.pre.next == n
  {
    var i :| 0 <= i < |r| && r[i] == n;
    assert Linked(r, i) && Linked(r, After(i, |r|)) && Linked(r, Before(i, |r|));
  }

  /** The node reached from `n` in `k` steps along `next`. */
  ghost function Walk(r: seq<Node>, n: Node?, k: nat): Node?
    reads r
  {
    if k == 0 then n
    else
      var m := Walk(r, n, k - 1);
      if m != null && m in r then m.next else null
  }

  /** Following `next` from the first node visits every node in order and comes
      back after as many steps as there are nodes. */
  lemma {:induction false} WalkVisits(r: seq<Node>, k: nat)
    requires Circle(r) && k <= |r|
    ensures Walk(r, r[0], k) == r[if k < |r| then k else 0]
  {
    if k > 0 {
      WalkVisits(r, k - 1);
      assert Linked(r, k - 1);
    }
  }

  // ------------------------------------------------------------ operations

  ghost function Inserted<T>(r: seq<T>, k: nat, x: T): seq<T>
    requires k <= |r|
  {
    r[..k] + [x] + r[k..]
  }

  ghost function Removed<T>(r: seq<T>, k: nat): seq<T>
    requires k < |r|
  {
    r[..k] + r[k + 1..]
  }

  /** Insertion at any place is insertion at the end, seen from another element. */
  lemma InsertedTurned<T>(r: seq<T>, k: nat, x: T)
    requires k < |r|
    ensures Turned(Turned(r, k + 1) + [x], |r| - (k + 1)) == Inserted(r, k + 1, x)
  {
    var s := Turned(r, k + 1);
    assert (s + [x])[|r| - (k + 1)..] == r[..k + 1] + [x];
    assert (s + [x])[..|r| - (k + 1)] == r[k + 1..];
  }

  /** And so is removal. */
  lemma RemovedTurned<T>(r: seq<T>, k: nat)
    requires k < |r|
    ensures var s := r[k + 1..] + r[..k];
            Turned(r, k + 1) == s + [r[k]] && Turned(s, |s| - k) == Removed(r, k)
  {
    var s := r[k + 1..] + r[..k];
    assert r[..k + 1] == r[..k] + [r[k]];
    assert s[|s| - k..] == r[..k] && s[..|s| - k] == r[k + 1..];
  }

  /** `IQUEUE_INIT`, and the empty list of the constructor. */
  method Init(head: Node)
    modifies head
    ensures Circle([head])
  {
    head.pre, head.next := head, head;
  }

  /** The four assignments of an insertion, between the last node and the first. */
  method LinkBetween(p: Node, node: Node, n: Node, ghost r: seq<Node>)
    requires Circle(r) && node !in r && r[|r| - 1] == p && r[0] == n
    modifies node, p, n
    ensures Circle(r + [node])
  {
    ghost var s := r + [node];
    assert Distinct(s);
    node.pre := p;
    node.next := n;
    p.next := node;
    n.pre := node;
    forall i | 0 <= i < |s| ensures Linked(s, i) {
      assert i < |r| ==> old(Linked(r, i)) && s[i] == r[i];
    }
  }

  /** The two assignments of a removal, of the last node. */
  method Unlink(node: Node, ghost r: seq<Node>)
    requires |r| > 0 && Circle(r + [node])
    modifies node.pre, node.next
    ensures Circle(r) && node.pre == old(node.pre) && node.next == old(node.next)
  {
    LastLinks(r, node);
    node.pre.next := node.next;
    node.next.pre := node.pre;
    forall i | 0 <= i < |r| ensures Linked(r, i) {
    }
  }

  /** `AddTail` and `IQUEUE_ADD_TAIL`: before the head. */
  method AddTail(head: Node, node: Node, ghost r: seq<Node>)
    requires Circle(r) && node !in r && r[0] == head
    modifies node, head, head.pre
    ensures Circle(r + [node])
  {
    assert Linked(r, 0);
    LinkBetween(head.pre, node, head, r);
  }

  /** `IQUEUE_ADD`: behind a given node. */
  method Add(node: Node, head: Node, ghost r: seq<Node>, ghost k: nat)
    requires Circle(r) && node !in r && k < |r| && r[k] == head
    modifies node, head, head.next
    ensures Circle(Inserted(r, k + 1, node))
  {
    ghost var s := Turned(r, k + 1);
    Rotate(r, k + 1);
    TurnedAt(r, k + 1, |r| - 1);
    TurnedAt(r, k + 1, 0);
    TurnedMember(r, k + 1, node);
    InsertedTurned(r, k, node);
    hide Turned, Inserted;
    assert Linked(s, |s| - 1) && s[|s| - 1] == head;
    LinkBetween(head, node, head.next, s);
    Rotate(s + [node], |r| - (k + 1));
  }

  lemma TurnedMember<T>(r: seq<T>, k: nat, x: T)
    requires k <= |r|
    ensures x in Turned(r, k) <==> x in r
  {
    assert r == r[..k] + r[k..];
  }

  /** `Del`. The node keeps its own links. */
  method Del(node: Node, ghost r: seq<Node>, ghost k: nat)
    requires Circle(r) && k < |r| && r[k] == node && |r| > 1
    modifies node.pre, node.next
    ensures Circle(Removed(r, k))
    ensures node.pre == old(node.pre) && node.next == old(node.next)
  {
    ghost var s := r[k + 1..] + r[..k];
    RemovedTurned(r, k);
    hide Circle, Turned, Removed;
    Rotate(r, k + 1);
    Unlink(node, s);
    Rotate(s, |s| - k);
  }

  /** `IQUEUE_DEL`, which clears them. */
  method DelClear(node: Node, ghost r: seq<Node>, ghost k: nat)
    requires Circle(r) && k < |r| && r[k] == node && |r| > 1
    modifies node, node.pre, node.next
    ensures Circle(Removed(r, k)) && node.pre == null && node.next == null
  {
    Del(node, r, k);
    assert node !in Removed(r, k);
    node.next := null;
    node.pre := null;
  }

  // --------------------------------------------------------------- SendQueue

  class SendQueue {
    const head: Node
    var size: nat
    ghost var nodes: seq<Node>

    /** One circle through the head; the count is that of the others. */
    ghost predicate Valid()
      reads this, head, nodes
    {
      size == |nodes| && Circle([head] + nodes)
    }

    constructor ()
      ensures Valid() && nodes == [] && fresh(head)
    {
      head := new Node();
      size := 0;
      nodes := [];
      new;
      Init(head);
      assert [head] + nodes == [head];
    }

    method Push(node: Node)
      requires Valid() && node != head && node !in nodes
      modifies `size, `nodes, node, head, head.pre
      ensures Valid() && nodes == old(nodes) + [node]
    {
      AddTail(head, node, [head] + nodes);
      assert [head] + nodes + [node] == [head] + (nodes + [node]);
      size := size + 1;
      nodes := nodes + [node];
    }

    /** Unlinks a node of the queue, wherever it stands. */
    method DelNode(node: Node, ghost k: nat)
      requires Valid() && k < |nodes| && nodes[k] == node
      modifies `size, `nodes, node.pre, node.next
      ensures Valid() && nodes == Removed(old(nodes), k)
      ensures node.pre == old(node.pre) && node.next == old(node.next)
    {
      Del(node, [head] + nodes, k + 1);
      assert Removed([head] + nodes, k + 1) == [head] + Removed(nodes, k);
      size := size - 1;
      nodes := Removed(nodes, k);
    }

    method Front() returns (n: Node)
      requires Valid()
      ensures n == if nodes == [] then head else nodes[0]
    {
      assert Linked([head] + nodes, 0);
      n := head.next;
    }

    method Back() returns (n: Node)
      requires Valid()
      ensures n == if nodes == [] then head else nodes[|nodes| - 1]
    {
      assert Linked([head] + nodes, 0);
      n := head.pre;
    }

    /** Removes the first node, if there is one. */
    method Pop()
      requires Valid()
      modifies `size, `nodes, head, head.next, if nodes == [] then head else nodes[0].next
      ensures Valid() && nodes == if old(nodes) == [] then [] else old(nodes)[1..]
    {
      if size == 0 {
        return;
      }
      var node := Front();
      assert Linked([head] + nodes, 1) && ([head] + nodes)[0] == head;
      DelNode(node, 0);
    }
  }
}
