/** Circular doubly linked lists, as in os/rt-thread-nano/include/rtservice.h and
    os/rt-thread-nano/src/memheap.c: the links of all nodes, by node number. */
module Rings {
  import opened Lists

  datatype Links = Links(next: seq<int>, prev: seq<int>)

  /** Going round from the head: position 0 and the position behind the last node are the head. */
  function NodeAt(head: nat, nodes: seq<nat>, i: nat): nat {
    if 1 <= i <= |nodes| then nodes[i - 1] else head
  }

  predicate Adjacent(r: Links, a: nat, b: nat) {
    a < |r.next| && b < |r.prev| && r.next[a] == b && r.prev[b] == a
  }

  /** From the head the links lead through exactly these nodes and back. */
  ghost predicate Ring(r: Links, head: nat, nodes: seq<nat>) {
    && |r.next| == |r.prev| && head < |r.next|
    && Distinct(nodes) && head !in nodes && (forall n :: n in nodes ==> n < |r.next|)
    && forall i: nat :: i <= |nodes| ==> Adjacent(r, NodeAt(head, nodes, i), NodeAt(head, nodes, i + 1))
  }

  /** rt_list_insert_after: four writes. */
  function InsertAfter(r: Links, l: nat, n: nat): Links
    requires |r.next| == |r.prev| && l < |r.next| && n < |r.next| && 0 <= r.next[l] < |r.prev|
  {
    Links(r.next[n := r.next[l]][l := n], r.prev[r.next[l] := n][n := l])
  }

  /** The neighbours of a node are linked to each other. */
  function Bypass(r: Links, n: nat): Links
    requires |r.next| == |r.prev| && n < |r.next| && 0 <= r.next[n] < |r.prev| && 0 <= r.prev[n] < |r.next|
  {
    Links(r.next[r.prev[n] := r.next[n]], r.prev[r.next[n] := r.prev[n]])
  }

  lemma NodesDiffer(head: nat, nodes: seq<nat>, i: nat, j: nat)
    requires Distinct(nodes) && head !in nodes && i < j <= |nodes|
    ensures NodeAt(head, nodes, i) != NodeAt(head, nodes, j)
    ensures NodeAt(head, nodes, j) in nodes
  {
    assert nodes[j - 1] in nodes;
  }

  lemma NodesAfterInsert(head: nat, nodes: seq<nat>, k: nat, n: nat, i: nat)
    requires k <= |nodes| && i <= |nodes| + 2
    ensures NodeAt(head, InsertAt(nodes, k, n), i)
         == if i <= k then NodeAt(head, nodes, i) else if i == k + 1 then n else NodeAt(head, nodes, i - 1)
  {
  }

  /** Inserting behind the node at a position puts the new node behind it in the list. */
  lemma RingInsert(r: Links, head: nat, nodes: seq<nat>, k: nat, n: nat)
    requires Ring(r, head, nodes) && k <= |nodes| && n < |r.next| && n !in nodes && n != head
    ensures var l := NodeAt(head, nodes, k);
            && l < |r.next| && 0 <= r.next[l] < |r.prev|
            && Ring(InsertAfter(r, l, n), head, InsertAt(nodes, k, n))
  {
    var l, m := NodeAt(head, nodes, k), NodeAt(head, nodes, k + 1);
    assert Adjacent(r, l, m);
    var after, list := InsertAfter(r, l, n), InsertAt(nodes, k, n);
    InsertMembers(nodes, k, n);
    InsertIsDistinct(nodes, k, n);
    forall i: nat | i <= |nodes| ensures NodeAt(head, nodes, i) != n {
    }
    forall i: nat | i <= |list| ensures Adjacent(after, NodeAt(head, list, i), NodeAt(head, list, i + 1)) {
      NodesAfterInsert(head, nodes, k, n, i);
      NodesAfterInsert(head, nodes, k, n, i + 1);
      if i < k {
        assert Adjacent(r, NodeAt(head, nodes, i), NodeAt(head, nodes, i + 1));
        NodesDiffer(head, nodes, i, k);
      } else if i > k + 1 {
        assert Adjacent(r, NodeAt(head, nodes, i - 1), NodeAt(head, nodes, i));
        NodesDiffer(head, nodes, k, i - 1);
      }
    }
  }

  /** Bypassing a node takes it out of the list. */
  lemma RingBypass(r: Links, head: nat, nodes: seq<nat>, k: nat)
    requires Ring(r, head, nodes) && k < |nodes|
    ensures var n := nodes[k];
            && n < |r.next| && 0 <= r.next[n] < |r.prev| && 0 <= r.prev[n] < |r.next|
            && Ring(Bypass(r, n), head, nodes[..k] + nodes[k + 1..])
  {
    var n := nodes[k];
    var before, behind := NodeAt(head, nodes, k), NodeAt(head, nodes, k + 2);
    assert n in nodes && n == NodeAt(head, nodes, k + 1);
    assert Adjacent(r, before, n) && Adjacent(r, n, behind);
    var after, list := Bypass(r, n), nodes[..k] + nodes[k + 1..];
    forall x | x in list ensures x in nodes {
      var i :| 0 <= i < |list| && list[i] == x;
      assert x == nodes[if i < k then i else i + 1];
    }
    forall i: nat | i <= |list| ensures Adjacent(after, NodeAt(head, list, i), NodeAt(head, list, i + 1)) {
      if i < k {
        assert Adjacent(r, NodeAt(head, nodes, i), NodeAt(head, nodes, i + 1));
        NodesDiffer(head, nodes, i, k);
      } else if i > k {
        assert Adjacent(r, NodeAt(head, nodes, i + 1), NodeAt(head, nodes, i + 2));
        NodesDiffer(head, nodes, k, i + 1);
      }
    }
  }
}
