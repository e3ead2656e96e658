/** The doubly linked list that holds the positions of a forward reference: a deque. */
module Dll {
  import opened Words

  class Node {
    const value: nat
    var prev: Node?
    var next: Node?

    constructor (value: nat)
      ensures this.value == value && prev == null && next == null
    {
      this.value, prev, next := value, null, null;
    }
  }

  ghost function Values(s: seq<Node>): (r: seq<nat>)
    ensures |r| == |s|
  {
    seq(|s|, i requires 0 <= i < |s| => s[i].value)
  }

  ghost function NodeAt(s: seq<Node>, i: int): Node? { if 0 <= i < |s| then s[i] else null }

  /** The part of a sequence that a visit sees: up to and including the first value on which
      the callback asks to stop. */
  function Upto(s: seq<nat>, stop: nat -> bool): seq<nat> {
    if s == [] then [] else if stop(s[0]) then [s[0]] else [s[0]] + Upto(s[1..], stop)
  }

  /** It is a beginning of the sequence, no value but its last asks to stop, and it is all of the
      sequence unless that one does. */
  lemma {:induction false} UptoStops(s: seq<nat>, stop: nat -> bool)
    ensures var r := Upto(s, stop);
      && r <= s
      && (forall i :: 0 <= i < |r| - 1 ==> !stop(r[i]))
      && (r != s ==> r != [] && stop(r[|r| - 1]))
  {
    if s != [] && !stop(s[0]) { UptoStops(s[1..], stop); }
  }

  lemma {:induction false} UptoAll(s: seq<nat>, stop: nat -> bool)
    requires forall v :: v in s ==> !stop(v)
    ensures Upto(s, stop) == s
  {
    if s != [] {
      assert s[0] in s && forall v :: v in s[1..] ==> v in s;
      UptoAll(s[1..], stop);
    }
  }

  lemma UptoStep(s: seq<nat>, i: nat, stop: nat -> bool)
    requires i <= |s|
    ensures Upto(s[i..], stop) ==
      if i == |s| then [] else if stop(s[i]) then [s[i]] else [s[i]] + Upto(s[i + 1..], stop)
  {
    assert i < |s| ==> s[i..][1..] == s[i + 1..];
  }

  lemma ValuesJoin(a: seq<Node>, b: seq<Node>)
    ensures Values(a + b) == Values(a) + Values(b)
  {
  }

  lemma ValuesCut(s: seq<Node>, k: nat)
    requires k <= |s|
    ensures Values(s[..k]) == Values(s)[..k] && Values(s[k..]) == Values(s)[k..]
  {
  }

  lemma ValuesOf(s: seq<Node>)
    ensures forall i :: 0 <= i < |s| ==> Values(s)[i] == s[i].value
  {
  }

  lemma ValuesOne(n: Node)
    ensures Values([n]) == [n.value]
  {
  }

  /** Counting in 32 bits. */
  lemma CountStep(n: nat)
    ensures (n % TWO32 + 1) % TWO32 == (n + 1) % TWO32
    ensures n > 0 ==> (n % TWO32 - 1) % TWO32 == (n - 1) % TWO32
  {
    var q, r := n / TWO32, n % TWO32;
    assert n == q * TWO32 + r;
    if r + 1 < TWO32 { Remainder(n + 1, TWO32, q, r + 1); } else { Remainder(n + 1, TWO32, q + 1, 0); }
    if r > 0 { Remainder(n - 1, TWO32, q, r - 1); } else { Remainder(n - 1, TWO32, q - 1, TWO32 - 1); }
  }

  class List {
    var first: Node?
    var last: Node?
    var count: u32
    ghost var nodes: seq<Node>

    /** Links are mutual inverses along the list, and null at its ends. */
    ghost predicate Valid()
      reads this, nodes
    {
      && (forall i, j :: 0 <= i < j < |nodes| ==> nodes[i] != nodes[j])
      && (forall i, j :: 0 <= i < |nodes| && j == i + 1 < |nodes| ==>
            nodes[i].next == nodes[j] && nodes[j].prev == nodes[i])
      && (nodes != [] ==> nodes[0].prev == null && nodes[|nodes| - 1].next == null)
      && first == NodeAt(nodes, 0)
      && last == NodeAt(nodes, |nodes| - 1)
      && count == |nodes| % TWO32
    }

    ghost function Contents(): seq<nat>
      reads this, nodes
    {
      Values(nodes)
    }

    constructor ()
      ensures Valid() && Contents() == [] && nodes == []
    {
      first, last, count, nodes := null, null, 0, [];
    }

    method Push(value: nat)
      requires Valid()
      modifies this, nodes
      ensures Valid() && Contents() == old(Contents()) + [value]
      ensures fresh(nodes[|nodes| - 1]) && nodes[..|nodes| - 1] == old(nodes)
    {
      hide Values;
      CountStep(|nodes|);
      var node := new Node(value);
      ValuesJoin(nodes, [node]);
      ValuesOne(node);
      if first == null {
        first := node;
        last := node;
      } else {
        var before := last;
        last := node;
        node.prev := before;
        before.next := node;
      }
      count := (count + 1) % TWO32;
      nodes := nodes + [node];
    }

    method Pop() returns (value: nat)
      requires Valid()
      modifies this, nodes
      ensures Valid() && value == if old(nodes) == [] then 0 else old(Contents())[|old(nodes)| - 1]
      ensures Contents() == if old(nodes) == [] then [] else old(Contents())[..|old(nodes)| - 1]
      ensures nodes == if old(nodes) == [] then [] else old(nodes)[..|old(nodes)| - 1]
    {
      hide Values;
      ValuesOf(nodes);
      if first == null { return 0; }
      CountStep(|nodes|);
      ghost var k := |nodes| - 1;
      ValuesCut(nodes, k);
      assert last == nodes[k] && (k > 0 ==> last.prev == nodes[k - 1]) && first == nodes[0];
      var node := last;
      last := node.prev;
      if node.prev != null { node.prev.next := null; }
      if first == node { first := null; }
      count := (count - 1) % TWO32;
      nodes := nodes[..|nodes| - 1];
      value := node.value;
    }

    method Unshift(value: nat)
      requires Valid()
      modifies this, nodes
      ensures Valid() && Contents() == [value] + old(Contents())
      ensures fresh(nodes[0]) && nodes[1..] == old(nodes)
    {
      hide Values;
      CountStep(|nodes|);
      var node := new Node(value);
      ValuesJoin([node], nodes);
      ValuesOne(node);
      if first == null {
        first := node;
        last := node;
      } else {
        var after := first;
        first := node;
        node.next := after;
        after.prev := node;
      }
      count := (count + 1) % TWO32;
      nodes := [node] + nodes;
    }

    method Shift() returns (value: nat)
      requires Valid()
      modifies this, nodes
      ensures Valid() && value == if old(nodes) == [] then 0 else old(Contents())[0]
      ensures Contents() == if old(nodes) == [] then [] else old(Contents())[1..]
      ensures nodes == if old(nodes) == [] then [] else old(nodes)[1..]
    {
      hide Values;
      ValuesOf(nodes);
      if first == null { return 0; }
      CountStep(|nodes|);
      ghost var k := |nodes| - 1;
      ValuesCut(nodes, 1);
      assert last == nodes[k] && (k > 0 ==> first.next == nodes[1]) && first == nodes[0];
      var node := first;
      first := node.next;
      if node.next != null { node.next.prev := null; }
      if last == node { last := null; }
      count := (count - 1) % TWO32;
      nodes := nodes[1..];
      value := node.value;
    }

    /** Forward iteration. */
    method Iterate(stop: nat -> bool) returns (seen: seq<nat>)
      requires Valid()
      ensures seen == Upto(Contents(), stop)
    {
      hide Values, Upto;
      ValuesOf(nodes);
      assert Contents()[0..] == Contents();
      var current := first;
      seen := [];
      ghost var i := 0;
      while current != null
        invariant 0 <= i <= |nodes| && current == NodeAt(nodes, i)
        invariant seen + Upto(Contents()[i..], stop) == Upto(Contents(), stop)
        decreases |nodes| - i
      {
        UptoStep(Contents(), i, stop);
        var next := current.next;
        seen := seen + [current.value];
        if stop(current.value) { return; }
        current := next;
        i := i + 1;
      }
      UptoStep(Contents(), |nodes|, stop);
    }
  }
}
