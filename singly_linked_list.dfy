/** The mutable singly linked list. Every node is itself a `List`; the list is
    the node the methods are called on (the head), which here is never null.
    There is no sentinel: an empty list is a head node whose value is absent
    and whose `next` is null, and `prepend` and `delete` reuse the head node's
    identity by rewriting its fields. */
module SinglyLinkedList {
  import opened Options
  import opened ListSpec

  /** `ns` is a well-formed chain of nodes: each node's `next` is the node after
      it, the last node's `next` is null, and no node occurs twice (so the
      chain is acyclic and every traversal of it terminates). */
  ghost predicate IsChain<T>(ns: seq<List<T>>)
    reads ns
  {
    0 < |ns| &&
    (forall i {:trigger ns[i].next} :: 0 <= i < |ns| ==>
       ns[i].next == if i + 1 < |ns| then ns[i + 1] else null) &&
    (forall i, j :: 0 <= i < j < |ns| ==> ns[i] != ns[j])
  }

  class List<T(==)> {
    var next: List?<T>
    var val: Option<T>

    // Ghost view, meaningful on the head node only: the nodes reachable from
    // it in order, and the sequence of values the list stores.
    ghost var Nodes: seq<List<T>>
    ghost var Contents: seq<T>

    /** `Nodes` is the chain that starts at this node. */
    ghost predicate Chain()
      reads this, Nodes
    {
      IsChain(Nodes) && Nodes[0] == this
    }

    /** The list invariant: either the empty representation (a lone head with
        an absent value), or one node per stored value, every value present. */
    ghost predicate Valid()
      reads this, Nodes
    {
      Chain() &&
      if Contents == [] then
        |Nodes| == 1 && val == None
      else
        |Nodes| == |Contents| &&
        forall i :: 0 <= i < |Nodes| ==> Nodes[i].val == Some(Contents[i])
    }

    /** `&List{}`: a fresh empty list. */
    constructor ()
      ensures Valid() && Contents == [] && Nodes == [this]
      ensures val == None && next == null
    {
      next := null;
      val := None;
      Nodes := [this];
      Contents := [];
    }

    /** `&List{next: n, val: v}`: a fresh node holding `v` in front of `n`. */
    constructor Node(v: Option<T>, n: List?<T>)
      ensures val == v && next == n
      ensures Nodes == [this] && Contents == (if v.Some? then [v.value] else [])
      ensures n == null ==> Valid()
    {
      next := n;
      val := v;
      Nodes := [this];
      Contents := if v.Some? then [v.value] else [];
    }

    /** Adds `s` at the back. On the empty list the head node takes the value
        and nothing is allocated; otherwise the tail node gets a fresh
        successor and no other node changes. */
    method Append(s: Option<T>)
      requires Valid()
      requires s.Some? || Contents == []
      modifies this, Nodes
      ensures Valid()
      ensures Contents == old(Contents) + (if s.Some? then [s.value] else [])
      ensures forall i :: 0 <= i < |Nodes| ==> Nodes[i] in old(Nodes) || fresh(Nodes[i])
      ensures old(Contents) == [] ==> Nodes == old(Nodes)
      ensures old(Contents) != [] ==>
                |Nodes| == |old(Nodes)| + 1 && Nodes[..|old(Nodes)|] == old(Nodes) &&
                fresh(Nodes[|old(Nodes)|])
    {
      if val == None {
        val := s;
        Contents := if s.Some? then [s.value] else [];
        return;
      }

      var cur := this;
      ghost var k := 0;
      while cur.next != null
        modifies {}
        invariant 0 <= k < |Nodes| && cur == Nodes[k]
        decreases |Nodes| - k
      {
        cur := cur.next;
        k := k + 1;
      }
      assert k == |Nodes| - 1;

      var node := new List.Node(s, null);
      cur.next := node;
      Nodes := Nodes + [node];
      Contents := Contents + [s.value];
    }

    /** The number of nodes reachable from the head. The empty representation
        is one node, so an empty list has length 1. */
    method Length() returns (count: int)
      requires Valid()
      ensures count == |Nodes|
      ensures count == if Contents == [] then 1 else |Contents|
    {
      count := 0;
      var l: List?<T> := this;
      while l != null
        invariant 0 <= count <= |Nodes|
        invariant l == if count < |Nodes| then Nodes[count] else null
        decreases |Nodes| - count
      {
        count := count + 1;
        l := l.next;
      }
    }

    /** Adds `s` at the front. On the empty list the head node takes the value;
        otherwise the head keeps its identity and its old value and link move
        into one fresh node placed second. */
    method Prepend(s: Option<T>)
      requires Valid()
      requires s.Some? || Contents == []
      modifies this
      ensures Valid()
      ensures Contents == (if s.Some? then [s.value] else []) + old(Contents)
      ensures forall i :: 0 <= i < |Nodes| ==> Nodes[i] in old(Nodes) || fresh(Nodes[i])
      ensures old(Contents) == [] ==> Nodes == old(Nodes)
      ensures old(Contents) != [] ==>
                |Nodes| == |old(Nodes)| + 1 && Nodes[0] == this && fresh(Nodes[1]) &&
                Nodes[2..] == old(Nodes)[1..]
    {
      if val == None {
        val := s;
        Contents := if s.Some? then [s.value] else [];
        return;
      }

      var oldHead := new List.Node(val, next);
      next, val := oldHead, s;
      Nodes := [this, oldHead] + Nodes[1..];
      Contents := [s.value] + Contents;
    }

    /** Whether some node holds a value equal to `s`. A present `s` is found
        exactly when it is stored; the absent value is "found" exactly in the
        empty representation, whose head holds it. */
    method Contains(s: Option<T>) returns (b: bool)
      requires Valid()
      ensures b <==> exists i :: 0 <= i < |Nodes| && Nodes[i].val == s
      ensures b == if s.Some? then s.value in Contents else Contents == []
    {
      var l: List?<T> := this;
      ghost var k := 0;
      while l != null
        invariant 0 <= k <= |Nodes|
        invariant l == if k < |Nodes| then Nodes[k] else null
        invariant forall j :: 0 <= j < k ==> Nodes[j].val != s
        decreases |Nodes| - k
      {
        if l.val == s {
          return true;
        }
        l := l.next;
        k := k + 1;
      }
      return false;
    }

    /** Removes the first node, head to tail, whose value equals `s`. A match
        at the head makes the head absorb its successor's value and link, or,
        for a lone head, restores the empty representation; a later match is
        unlinked from its predecessor. Without a match nothing changes. */
    method Delete(s: Option<T>)
      requires Valid()
      modifies this, Nodes
      ensures Valid()
      ensures Contents == if s.Some? then RemoveFirst(old(Contents), s.value) else old(Contents)
      ensures forall i :: 0 <= i < |Nodes| ==> Nodes[i] in old(Nodes)
      ensures s.None? || s.value !in old(Contents) || |old(Contents)| == 1 ==> Nodes == old(Nodes)
      ensures s.Some? && s.value in old(Contents) && |old(Contents)| > 1 ==>
                exists k :: 1 <= k < |old(Nodes)| && Nodes == old(Nodes)[..k] + old(Nodes)[k + 1..] &&
                            k == if old(Contents)[0] == s.value then 1 else FirstIndex(old(Contents), s.value)
    {
      if val == s {
        if next == null {
          val := None;
          next := null;
          Contents := [];
        } else {
          AbsorbNext();
          assert Nodes == old(Nodes)[..1] + old(Nodes)[2..];
        }
        return;
      }

      var prev := this;
      var l := next;
      ghost var k := 1;
      while l != null
        invariant Valid() && Nodes == old(Nodes) && Contents == old(Contents)
        invariant 1 <= k <= |Nodes|
        invariant prev == Nodes[k - 1]
        invariant l == if k < |Nodes| then Nodes[k] else null
        invariant forall j :: 0 <= j < k ==> Nodes[j].val != s
        decreases |Nodes| - k
      {
        if l.val == s {
          assert s == Some(Contents[k]);
          RemoveFirstAt(Contents, s.value, k);
          UnlinkAfter(prev, l, k);
          return;
        }
        prev := l;
        l := l.next;
        k := k + 1;
      }
      if s.Some? {
        assert s.value !in Contents by {
          forall j | 0 <= j < |Contents|
            ensures Contents[j] != s.value
          {
            assert Nodes[j].val == Some(Contents[j]);
          }
        }
        RemoveFirstAbsent(Contents, s.value);
      }
    }

    /** Head match with a successor (`l.val = l.next.val; l.next = l.next.next`):
        the head takes over its successor's value and link, and the successor
        drops out of the chain. */
    method AbsorbNext()
      requires Valid() && next != null
      modifies this
      ensures Valid()
      ensures Nodes == [this] + old(Nodes)[2..] && Contents == old(Contents)[1..]
    {
      ghost var ns := Nodes;
      val := next.val;
      next := next.next;
      Nodes := [this] + ns[2..];
      Contents := Contents[1..];
      assert forall i :: 1 <= i < |Nodes| ==> Nodes[i] == ns[i + 1] && Nodes[i] != this;
    }

    /** Match after the head (`prev.next = l.next`): the node `l` at position
        `k` is unlinked from its predecessor `prev`; no other link changes. */
    method UnlinkAfter(prev: List<T>, l: List<T>, ghost k: nat)
      requires Valid() && 0 < k < |Nodes| && prev == Nodes[k - 1] && l == Nodes[k]
      modifies this, prev
      ensures Valid()
      ensures Nodes == old(Nodes)[..k] + old(Nodes)[k + 1..]
      ensures Contents == old(Contents)[..k] + old(Contents)[k + 1..]
    {
      ghost var ns, cs := Nodes, Contents;
      prev.next := l.next;
      Nodes := ns[..k] + ns[k + 1..];
      Contents := cs[..k] + cs[k + 1..];
      assert forall i :: 0 <= i < |Nodes| ==> Nodes[i] == if i < k then ns[i] else ns[i + 1];
      assert forall i :: 0 <= i < |Contents| ==> Contents[i] == if i < k then cs[i] else cs[i + 1];
    }
  }
}
