/**
 The doubly linked lists of the router, on real nodes: append, removal and splicing
 change pointers in place, and a ghost sequence says which nodes the list consists of.
 Elsewhere in this project such a list is a sequence; the contracts here are why.
 */
module NodeList {
  import opened Words
  import opened RouteOrder

  class Node {
    var prev: Node?
    var next: Node?
    var data: RouteEntry

    constructor (data: RouteEntry)
      ensures prev == null && next == null && this.data == data
    {
      prev, next := null, null;
      this.data := data;
    }
  }

  ghost predicate Distinct(ns: seq<Node>) {
    forall i, j :: 0 <= i < j < |ns| ==> ns[i] != ns[j]
  }

  ghost function At(ns: seq<Node>, i: int): Node? {
    if 0 <= i < |ns| then ns[i] else null
  }

  lemma {:induction false} AtMeans(ns: seq<Node>, i: nat)
    ensures At(ns, i) == null <==> i >= |ns|
    ensures i < |ns| ==> At(ns, i) == ns[i]
  {
  }

  lemma {:induction false} AtWithout(ns: seq<Node>, k: nat, i: int)
    requires k < |ns| && i >= -1
    ensures At(ns[..k] + ns[k + 1..], i) == At(ns, if i < k then i else i + 1)
  {
  }

  lemma {:induction false} DistinctWithout(ns: seq<Node>, k: nat)
    requires k < |ns| && Distinct(ns)
    ensures Distinct(ns[..k] + ns[k + 1..])
  {
    var ms := ns[..k] + ns[k + 1..];
    assert forall i :: 0 <= i < |ms| ==> ms[i] == ns[if i < k then i else i + 1];
  }

  /** head is the first of exactly the nodes ns, linked in both directions. */
  ghost predicate Linked(head: Node?, ns: seq<Node>)
    reads ns
  {
    && Distinct(ns)
    && head == At(ns, 0)
    && (forall i {:trigger ns[i].next} :: 0 <= i < |ns| ==> ns[i].next == At(ns, i + 1))
    && (forall i {:trigger ns[i].prev} :: 0 <= i < |ns| ==> ns[i].prev == At(ns, i - 1))
  }

  lemma {:induction false} LinkedStarts(head: Node?, ns: seq<Node>)
    requires Linked(head, ns)
    ensures head == At(ns, 0)
  {
  }

  lemma {:induction false} LinkedNext(head: Node?, ns: seq<Node>, p: nat)
    requires Linked(head, ns) && p < |ns|
    ensures ns[p].next == At(ns, p + 1)
  {
  }

  ghost function DataOf(ns: seq<Node>): (t: Table)
    reads ns
    ensures |t| == |ns|
    ensures forall i :: 0 <= i < |ns| ==> t[i] == ns[i].data
  {
    seq(|ns|, i requires 0 <= i < |ns| reads ns => ns[i].data)
  }

  lemma {:induction false} DataWithout(ns: seq<Node>, k: nat)
    requires k < |ns|
    ensures DataOf(ns[..k] + ns[k + 1..]) == DataOf(ns)[..k] + DataOf(ns)[k + 1..]
  {
    var ms := ns[..k] + ns[k + 1..];
    assert forall i :: 0 <= i < |ms| ==> ms[i] == ns[if i < k then i else i + 1];
  }

  /** Last node of a non-empty list. */
  method Last(head: Node, ghost ns: seq<Node>) returns (n: Node)
    requires Linked(head, ns)
    ensures |ns| > 0 && n == ns[|ns| - 1]
  {
    n := head;
    ghost var i := 0;
    while n.next != null
      invariant 0 <= i < |ns| && n == ns[i]
      decreases |ns| - i
    {
      n, i := n.next, i + 1;
    }
  }

  /** Joins list `tail` to the end of list `head`; either may be empty. */
  method Splice(head: Node?, ghost ns: seq<Node>, tail: Node?, ghost ts: seq<Node>) returns (h: Node?)
    requires Linked(head, ns) && Linked(tail, ts)
    requires Distinct(ns + ts)
    modifies ns`next, ts`prev
    ensures Linked(h, ns + ts)
  {
    ghost var all := ns + ts;
    if head == null {
      assert all == ts;
      return tail;
    }
    var last := Last(head, ns);
    forall i, j | 0 <= i < |ns| && 0 <= j < |ts|
      ensures ns[i] != ts[j]
    {
      assert all[i] != all[|ns| + j];
    }
    last.next := tail;
    if tail != null {
      tail.prev := last;
    }
    h := head;
    forall i | 0 <= i < |all|
      ensures all[i].next == At(all, i + 1) && all[i].prev == At(all, i - 1)
    {
      if i < |ns| {
        assert all[i] == ns[i];
      } else {
        assert all[i] == ts[i - |ns|];
      }
    }
  }

  /** Appends a new node to a non-empty list. */
  method PushBack(head: Node, n: Node, ghost ns: seq<Node>)
    requires Linked(head, ns) && Linked(n, [n]) && Distinct(ns + [n])
    modifies ns`next, n`prev
    ensures Linked(head, ns + [n])
  {
    var h := Splice(head, ns, n, [n]);
  }

  /** Unlinks node n, wherever it stands. */
  method Remove(head: Node, n: Node, ghost ns: seq<Node>, ghost k: nat) returns (h: Node?)
    requires Linked(head, ns) && k < |ns| && ns[k] == n
    modifies ns`next, ns`prev
    ensures Linked(h, ns[..k] + ns[k + 1..])
  {
    h := head;
    assert ns[k].next == At(ns, k + 1) && ns[k].prev == At(ns, k - 1);
    if n.next == null && n.prev == null {
      h := null;
    } else if n.prev == null {
      h := n.next;
      h.prev := null;
    } else if n.next == null {
      n.prev.next := null;
    } else {
      n.prev.next := n.next;
      n.next.prev := n.prev;
    }
    ghost var ms := ns[..k] + ns[k + 1..];
    DistinctWithout(ns, k);
    AtWithout(ns, k, 0);
    forall i | 0 <= i < |ms|
      ensures ms[i].next == At(ms, i + 1) && ms[i].prev == At(ms, i - 1)
    {
      var j := if i < k then i else i + 1;
      assert ms[i] == ns[j] && ns[j] != n;
      assert j != k - 1 ==> ns[j] != At(ns, k - 1);
      assert j != k + 1 ==> ns[j] != At(ns, k + 1);
      AtWithout(ns, k, i + 1);
      AtWithout(ns, k, i - 1);
    }
  }
}
