/** The intrusive circular list of logger/list.h. */
module List {

  /** A list head together with the entry it is embedded in.  The head of a list
      is a node whose entry means nothing. */
  class Node<T> {
    var next: Node?<T>
    var prev: Node?<T>
    var entry: T

    constructor (entry: T)
      ensures this.entry == entry && next == this && prev == this
    {
      this.entry := entry;
      this.next := this;
      this.prev := this;
    }
  }

  /** The nodes of s, head first, are linked in a ring in both directions. */
  ghost predicate Ring<T>(s: seq<Node<T>>)
    reads s
  {
    && s != []
    && (forall i, j :: 0 <= i < j < |s| ==> s[i] != s[j])
    && (forall i {:trigger s[i].next} :: 0 <= i < |s| ==> s[i].next == if i + 1 < |s| then s[i + 1] else s[0])
    && (forall i {:trigger s[i].prev} :: 0 <= i < |s| ==> s[i].prev == if i > 0 then s[i - 1] else s[|s| - 1])
  }

  /** The entries of the list, without its head. */
  ghost function Entries<T>(s: seq<Node<T>>): seq<T>
    requires s != []
    reads s
  {
    seq(|s| - 1, i requires 0 <= i < |s| - 1 reads s => s[i + 1].entry)
  }

  method ListInsert<T>(node: Node<T>, prev: Node<T>, next: Node<T>, ghost s: seq<Node<T>>, ghost i: nat)
    requires Ring(s) && node !in s && i < |s|
    requires prev == s[i] && next == (if i + 1 < |s| then s[i + 1] else s[0])
    modifies node`next, node`prev, prev`next, next`prev
    ensures Ring(s[..i + 1] + [node] + s[i + 1..])
  {
    next.prev := node;
    node.next := next;
    node.prev := prev;
    prev.next := node;
  }

  /** Inserts at the head. */
  method ListAdd<T>(node: Node<T>, head: Node<T>, ghost s: seq<Node<T>>)
    requires Ring(s) && node !in s && head == s[0]
    modifies node`next, node`prev, s
    ensures Ring([head, node] + s[1..])
    ensures Entries([head, node] + s[1..]) == [node.entry] + old(Entries(s))
    ensures forall n :: n in s ==> n.entry == old(n.entry)
  {
    ListInsert(node, head, head.next, s, 0);
    assert s[..1] + [node] + s[1..] == [head, node] + s[1..];
  }

  /** Inserts at the tail. */
  method ListAddTail<T>(node: Node<T>, head: Node<T>, ghost s: seq<Node<T>>)
    requires Ring(s) && node !in s && head == s[0]
    modifies node`next, node`prev, s
    ensures Ring(s + [node])
    ensures Entries(s + [node]) == old(Entries(s)) + [node.entry]
    ensures forall n :: n in s ==> n.entry == old(n.entry)
  {
    ListInsert(node, head.prev, head, s, |s| - 1);
    assert s[..|s| - 1 + 1] + [node] + s[|s| - 1 + 1..] == s + [node];
  }

  method ListDelete<T>(prev: Node<T>, next: Node<T>, ghost s: seq<Node<T>>, ghost i: nat)
    requires Ring(s) && 0 < i < |s|
    requires prev == s[i - 1] && next == (if i + 1 < |s| then s[i + 1] else s[0])
    modifies prev`next, next`prev
    ensures Ring(s[..i] + s[i + 1..])
    ensures s[i].next == old(s[i].next) && s[i].prev == old(s[i].prev)
  {
    prev.next := next;
    next.prev := prev;
  }

  method ListDeleteTail<T>(head: Node<T>, ghost s: seq<Node<T>>)
    requires Ring(s) && head == s[0] && |s| > 1
    modifies s
    ensures Ring(s[..|s| - 1])
    ensures Entries(s[..|s| - 1]) == old(Entries(s))[..|s| - 2]
    ensures forall n :: n in s ==> n.entry == old(n.entry)
  {
    ListDelete(head.prev.prev, head, s, |s| - 1);
    assert s[..|s| - 1] + s[|s| - 1 + 1..] == s[..|s| - 1];
  }

  /** Takes a node out wherever it is, and clears its links. */
  method ListDeleteNode<T>(node: Node<T>, ghost s: seq<Node<T>>, ghost i: nat)
    requires Ring(s) && 0 < i < |s| && node == s[i]
    modifies s
    ensures Ring(s[..i] + s[i + 1..]) && node.next == null && node.prev == null
    ensures Entries(s[..i] + s[i + 1..]) == old(Entries(s))[..i - 1] + old(Entries(s))[i..]
    ensures forall n :: n in s ==> n.entry == old(n.entry)
  {
    ListDelete(node.prev, node.next, s, i);
    node.prev := null;
    node.next := null;
  }

  /** list_for_each_entry: visits the entries in order, each once. */
  method ForEach<T>(head: Node<T>, ghost s: seq<Node<T>>) returns (visited: seq<T>)
    requires Ring(s) && head == s[0]
    ensures visited == Entries(s)
  {
    visited := [];
    var pos: Node<T> := head.next;
    ghost var i := 1;
    while pos != head
      invariant 1 <= i <= |s| && pos == (if i < |s| then s[i] else head)
      invariant visited == Entries(s)[..i - 1]
      decreases |s| - i
    {
      visited := visited + [pos.entry];
      pos := pos.next;
      i := i + 1;
    }
  }

  /** list_for_each_entry_safe with a body that destroys the node it is given:
      every node but the head is visited once, and none after it is destroyed. */
  method ForEachSafe<T>(head: Node<T>, ghost s: seq<Node<T>>) returns (visited: seq<Node<T>>)
    requires Ring(s) && head == s[0]
    modifies s
    ensures visited == s[1..]
  {
    visited := [];
    var pos: Node<T> := head.next;
    var n: Node<T> := pos.next;
    ghost var i := 1;
    while pos != head
      invariant 1 <= i <= |s|
      invariant pos == (if i < |s| then s[i] else head)
      invariant i < |s| ==> n == if i + 1 < |s| then s[i + 1] else head
      invariant visited == s[1..i]
      invariant forall j {:trigger s[j].next} :: i < j < |s| ==> s[j].next == if j + 1 < |s| then s[j + 1] else s[0]
      invariant head.next == if |s| > 1 then s[1] else head
      decreases |s| - i
    {
      visited := visited + [pos];
      pos.next, pos.prev := null, null;
      pos := n;
      n := n.next;
      i := i + 1;
    }
  }
}
