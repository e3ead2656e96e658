/** The allocator as the program runs it: headers in memory, two doubly linked lists sorted
    by address, and counters, all updated in place. */
module Pmalloc {
  import opened Words
  import opened HeapSpec
  import opened HeapProofs

  const NULL: nat := 0

  /** A block header; links are addresses of other headers. */
  datatype Header = Header(prev: nat, next: nat, size: nat)

  type Memory = map<nat, Header>

  ghost predicate Present(m: Memory, s: seq<nat>) {
    forall i :: 0 <= i < |s| ==> s[i] in m && s[i] != NULL
  }

  ghost function After(s: seq<nat>, i: nat): nat { if i + 1 < |s| then s[i + 1] else NULL }

  ghost function Before(s: seq<nat>, i: nat): nat
    requires i < |s|
  {
    if i > 0 then s[i - 1] else NULL
  }

  /** `s` is the list that starts at `root`: `prev` and `next` are mutual inverses along
      it and NULL at its ends. */
  ghost predicate Linked(m: Memory, root: nat, s: seq<nat>) {
    && Present(m, s)
    && root == (if s == [] then NULL else s[0])
    && (forall i :: 0 <= i < |s| ==> m[s[i]].next == After(s, i) && m[s[i]].prev == Before(s, i))
  }

  lemma LinkedPresent(m: Memory, root: nat, s: seq<nat>)
    requires Linked(m, root, s)
    ensures Present(m, s)
  {
  }

  ghost predicate Ascending(s: seq<nat>) {
    forall i, j :: 0 <= i < j < |s| ==> s[i] < s[j]
  }

  ghost function Sizes(m: Memory, s: seq<nat>): (bs: seq<Block>)
    requires Present(m, s)
    ensures |bs| == |s|
    ensures forall i :: 0 <= i < |s| ==> bs[i] == Block(s[i], m[s[i]].size)
  {
    seq(|s|, i requires 0 <= i < |s| => Block(s[i], m[s[i]].size))
  }

  ghost function InsertAddr(s: seq<nat>, x: nat): (r: seq<nat>)
    ensures |r| == |s| + 1
  {
    if s == [] || x < s[0] then [x] + s else [s[0]] + InsertAddr(s[1..], x)
  }

  lemma {:induction false} InsertAddrAt(s: seq<nat>, x: nat, k: nat)
    requires k <= |s| && (forall i :: 0 <= i < k ==> s[i] <= x) && (k < |s| ==> x < s[k])
    ensures InsertAddr(s, x) == s[..k] + [x] + s[k..]
  {
    if k > 0 {
      InsertAddrAt(s[1..], x, k - 1);
      assert s[..k] + [x] + s[k..] == [s[0]] + (s[1..][..k - 1] + [x] + s[1..][k - 1..]);
    }
  }

  lemma SizesCons(m: Memory, x: nat, s: seq<nat>)
    requires Present(m, s) && x in m && x != NULL
    ensures Present(m, [x] + s) && Sizes(m, [x] + s) == [Block(x, m[x].size)] + Sizes(m, s)
  {
  }

  /** Inserting an address is inserting its block. */
  lemma {:induction false} InsertSizes(m: Memory, s: seq<nat>, x: nat)
    requires Present(m, s) && x in m && x != NULL
    ensures Present(m, InsertAddr(s, x))
    ensures Sizes(m, InsertAddr(s, x)) == Insert(Sizes(m, s), Block(x, m[x].size))
  {
    hide Sizes;
    if s == [] || x < s[0] {
      SizesCons(m, x, s);
    } else {
      assert s == [s[0]] + s[1..];
      SizesCons(m, s[0], s[1..]);
      InsertSizes(m, s[1..], x);
      SizesCons(m, s[0], InsertAddr(s[1..], x));
      assert Sizes(m, s)[1..] == Sizes(m, s[1..]);
    }
  }

  ghost function Without(s: seq<nat>, k: nat): seq<nat>
    requires k < |s|
  {
    s[..k] + s[k + 1..]
  }

  /** Sizes do not depend on links, nor on headers outside the list. */
  lemma SizesSame(m: Memory, m': Memory, s: seq<nat>)
    requires Present(m, s) && Present(m', s)
    requires forall i :: 0 <= i < |s| ==> m[s[i]].size == m'[s[i]].size
    ensures Sizes(m, s) == Sizes(m', s)
  {
  }

  lemma SizesRemove(m: Memory, s: seq<nat>, i: nat)
    requires Present(m, s) && i < |s|
    ensures Present(m, Without(s, i))
    ensures Sizes(m, Without(s, i)) == Remove(Sizes(m, s), i)
  {
  }

  /** The same headers with the same sizes. */
  ghost predicate SameSizes(m: Memory, m': Memory) {
    m.Keys == m'.Keys && forall a :: a in m ==> m'[a].size == m[a].size
  }

  /** Only headers of the list `s` and the node `x` may differ. */
  ghost predicate Touches(m: Memory, m': Memory, s: seq<nat>, x: nat) {
    SameSizes(m, m') && forall a :: a in m && a !in s && a != x ==> m'[a] == m[a]
  }

  lemma TouchesSizes(m: Memory, m': Memory, s: seq<nat>, x: nat)
    requires Touches(m, m', s, x)
    ensures SameSizes(m, m')
  {
  }

  lemma LinkedElsewhere(m: Memory, m': Memory, s: seq<nat>, x: nat, root: nat, t: seq<nat>)
    requires Touches(m, m', s, x) && Linked(m, root, t)
    requires forall a :: a in t ==> a !in s && a != x
    ensures Linked(m', root, t)
  {
    forall i | 0 <= i < |t| ensures t[i] in m' && m'[t[i]] == m[t[i]] {
      assert t[i] in t;
    }
  }

  lemma Distinct(s: seq<nat>)
    requires Ascending(s)
    ensures forall i, j :: 0 <= i < |s| && 0 <= j < |s| && s[i] == s[j] ==> i == j
  {
  }

  /** The header at `a` after node `i` has been cut out of `s`. */
  function CutHeader(m: Memory, s: seq<nat>, i: nat, a: nat): Header
    requires i < |s| && s[i] in m && a in m
  {
    if a == s[i] then Header(NULL, NULL, m[a].size)
    else if i > 0 && a == s[i - 1] then m[a].(next := m[s[i]].next)
    else if i + 1 < |s| && a == s[i + 1] then m[a].(prev := m[s[i]].prev)
    else m[a]
  }

  ghost predicate CutOut(m: Memory, m': Memory, s: seq<nat>, i: nat)
    requires i < |s| && s[i] in m
  {
    m'.Keys == m.Keys && forall a :: a in m ==> m'[a] == CutHeader(m, s, i, a)
  }

  /** The links of a node that stays. */
  lemma CutOutAt(m: Memory, m': Memory, root: nat, s: seq<nat>, i: nat, j: nat)
    requires Linked(m, root, s) && Ascending(s) && i < |s| && CutOut(m, m', s, i) && j < |s| && j != i
    ensures s[j] in m' && s[j] != NULL
    ensures m'[s[j]].next == if j + 1 == i then After(s, i) else After(s, j)
    ensures m'[s[j]].prev == if j == i + 1 then Before(s, i) else Before(s, j)
  {
    assert m'[s[j]] == CutHeader(m, s, i, s[j]);
    assert s[j] != s[i];
    assert i > 0 && j != i - 1 ==> s[j] != s[i - 1];
    assert i + 1 < |s| && j != i + 1 ==> s[j] != s[i + 1];
  }

  lemma CutOutLinked(m: Memory, m': Memory, root: nat, s: seq<nat>, i: nat)
    requires Linked(m, root, s) && Ascending(s) && i < |s| && CutOut(m, m', s, i)
    ensures var t := Without(s, i); Linked(m', if t == [] then NULL else t[0], t)
  {
    hide CutHeader, Ascending, CutOut, Linked;
    var t := Without(s, i);
    assert forall k :: 0 <= k < |t| ==> t[k] == s[if k < i then k else k + 1];
    forall k | 0 <= k < |t|
      ensures t[k] in m' && t[k] != NULL
      ensures m'[t[k]].next == After(t, k) && m'[t[k]].prev == Before(t, k)
    {
      CutOutAt(m, m', root, s, i, if k < i then k else k + 1);
    }
    LinkedBy(m', t);
  }

  lemma LinkedBy(m: Memory, t: seq<nat>)
    requires forall k :: 0 <= k < |t| ==>
      t[k] in m && t[k] != NULL && m[t[k]].next == After(t, k) && m[t[k]].prev == Before(t, k)
    ensures Linked(m, if t == [] then NULL else t[0], t)
  {
  }

  /** The header at `a` after `node` has been put between `s[k - 1]` and `s[k]`. */
  function PutHeader(m: Memory, s: seq<nat>, k: nat, node: nat, a: nat): Header
    requires k <= |s| && node in m && a in m
  {
    if a == node then Header(if k > 0 then s[k - 1] else NULL, if k < |s| then s[k] else NULL, m[a].size)
    else if k > 0 && a == s[k - 1] then m[a].(next := node)
    else if k < |s| && a == s[k] then m[a].(prev := node)
    else m[a]
  }

  ghost predicate PutIn(m: Memory, m': Memory, s: seq<nat>, k: nat, node: nat)
    requires k <= |s| && node in m
  {
    m'.Keys == m.Keys && forall a :: a in m ==> m'[a] == PutHeader(m, s, k, node, a)
  }

  /** The links of a node that was there before. */
  lemma PutInAt(m: Memory, m': Memory, root: nat, s: seq<nat>, k: nat, node: nat, j: nat)
    requires Linked(m, root, s) && Ascending(s) && k <= |s| && node in m && node !in s && j < |s|
    requires PutIn(m, m', s, k, node)
    ensures s[j] in m' && s[j] != NULL
    ensures m'[s[j]].next == if j + 1 == k then node else After(s, j)
    ensures m'[s[j]].prev == if j == k then node else Before(s, j)
  {
    assert m'[s[j]] == PutHeader(m, s, k, node, s[j]);
    assert k > 0 && j != k - 1 ==> s[j] != s[k - 1];
    assert k < |s| && j != k ==> s[j] != s[k];
  }

  lemma PutInNode(m: Memory, m': Memory, s: seq<nat>, k: nat, node: nat)
    requires k <= |s| && node in m && PutIn(m, m', s, k, node)
    ensures node in m'
    ensures m'[node] == Header(if k > 0 then s[k - 1] else NULL, if k < |s| then s[k] else NULL, m[node].size)
  {
  }

  lemma PutInLinked(m: Memory, m': Memory, root: nat, s: seq<nat>, k: nat, node: nat)
    requires Linked(m, root, s) && Ascending(s) && k <= |s| && node in m && node != NULL && node !in s
    requires PutIn(m, m', s, k, node)
    ensures Linked(m', if k > 0 then s[0] else node, s[..k] + [node] + s[k..])
  {
    hide PutHeader, Ascending, PutIn, Linked;
    var t := s[..k] + [node] + s[k..];
    PutInNode(m, m', s, k, node);
    assert t[k] == node
        && After(t, k) == (if k < |s| then s[k] else NULL)
        && Before(t, k) == (if k > 0 then s[k - 1] else NULL);
    forall i | 0 <= i < |t|
      ensures t[i] in m' && t[i] != NULL
      ensures m'[t[i]].next == After(t, i) && m'[t[i]].prev == Before(t, i)
    {
      if i < k {
        assert t[i] == s[i]
            && After(t, i) == (if i + 1 == k then node else After(s, i))
            && Before(t, i) == Before(s, i);
        PutInAt(m, m', root, s, k, node, i);
      } else if i > k {
        assert t[i] == s[i - 1] && After(t, i) == After(s, i - 1)
            && Before(t, i) == (if i - 1 == k then node else Before(s, i - 1));
        PutInAt(m, m', root, s, k, node, i - 1);
      }
    }
    LinkedBy(m', t);
  }

  lemma PutInList(s: seq<nat>, k: nat, node: nat)
    requires Ascending(s) && k <= |s|
    requires (forall i :: 0 <= i < k ==> s[i] < node) && (k < |s| ==> node < s[k])
    ensures var t := InsertAddr(s, node);
      t == s[..k] + [node] + s[k..] && Ascending(t) && forall a :: a in t <==> a in s || a == node
  {
    hide InsertAddr, Ascending;
    InsertAddrAt(s, node, k);
    PutInAscending(s, k, node);
    assert s == s[..k] + s[k..];
  }

  lemma PutInAscending(s: seq<nat>, k: nat, node: nat)
    requires Ascending(s) && k <= |s|
    requires (forall i :: 0 <= i < k ==> s[i] < node) && (k < |s| ==> node < s[k])
    ensures Ascending(s[..k] + [node] + s[k..])
  {
    assert forall i :: k < i < |s| ==> s[k] < s[i];
  }

  /** What the assignments of the list code do to memory, for any pointers. */
  function Unlink(m: Memory, node: nat): Memory
    requires node in m && (m[node].prev != NULL ==> m[node].prev in m) && (m[node].next != NULL ==> m[node].next in m)
  {
    var n := m[node];
    var m1 := if n.prev != NULL then m[n.prev := m[n.prev].(next := n.next)] else m;
    var m2 := if n.next != NULL then m1[n.next := m1[n.next].(prev := n.prev)] else m1;
    m2[node := m2[node].(next := NULL, prev := NULL)]
  }

  lemma Neighbours(m: Memory, root: nat, s: seq<nat>, i: nat)
    requires Linked(m, root, s) && Ascending(s) && i < |s|
    ensures s[i] in m && s[i] != NULL && m[s[i]].prev == Before(s, i) && m[s[i]].next == After(s, i)
    ensures i > 0 ==> s[i - 1] in m && s[i - 1] != NULL && s[i - 1] < s[i] && s[i - 1] in s
    ensures i + 1 < |s| ==> s[i + 1] in m && s[i + 1] != NULL && s[i] < s[i + 1] && s[i + 1] in s
  {
  }

  lemma UnlinkCuts(m: Memory, root: nat, s: seq<nat>, i: nat)
    requires Linked(m, root, s) && Ascending(s) && i < |s|
    ensures m[s[i]].prev == Before(s, i) && m[s[i]].next == After(s, i)
    ensures (i > 0 ==> s[i - 1] in m) && (i + 1 < |s| ==> s[i + 1] in m)
    ensures CutOut(m, Unlink(m, s[i]), s, i)
    ensures Touches(m, Unlink(m, s[i]), s, s[i])
  {
    hide Linked, Ascending;
    Neighbours(m, root, s, i);
    CutTouches(m, Unlink(m, s[i]), s, i);
  }

  lemma CutTouches(m: Memory, m': Memory, s: seq<nat>, i: nat)
    requires i < |s| && s[i] in m && CutOut(m, m', s, i)
    ensures Touches(m, m', s, s[i])
  {
    assert i > 0 ==> s[i - 1] in s;
    assert i + 1 < |s| ==> s[i + 1] in s;
  }

  function LinkAfter(m: Memory, current: nat, node: nat): Memory
    requires current in m && node in m && (m[current].next != NULL ==> m[current].next in m)
  {
    var oldnext := m[current].next;
    var m1 := m[current := m[current].(next := node)];
    if oldnext == NULL then m1[node := m1[node].(prev := current)] else
    var m2 := m1[node := m1[node].(prev := current, next := oldnext)];
    m2[oldnext := m2[oldnext].(prev := node)]
  }

  lemma LinkAfterPuts(m: Memory, root: nat, s: seq<nat>, k: nat, node: nat)
    requires Linked(m, root, s) && Ascending(s) && k < |s| && node in m && node != NULL && node !in s
    requires k + 1 == |s| ==> m[node].next == NULL
    ensures m[s[k]].next == After(s, k) && (k + 1 < |s| ==> s[k + 1] in m && s[k + 1] != NULL)
    ensures PutIn(m, LinkAfter(m, s[k], node), s, k + 1, node)
  {
    hide Linked, Ascending;
    Neighbours(m, root, s, k);
    assert s[k] in s && s[k] != node;
    assert k + 1 < |s| ==> s[k + 1] != node;
  }

  function LinkFront(m: Memory, root: nat, node: nat): Memory
    requires node in m && (root != NULL ==> root in m)
  {
    if root == NULL then m[node := m[node].(prev := NULL, next := NULL)] else
    var m1 := m[root := m[root].(prev := node)];
    m1[node := m1[node].(next := root)]
  }

  /** The links of a header that an insertion into `s` at `x` does not set are NULL: `prev`
      in front of a list, `next` behind it. */
  predicate LinksClear(s: seq<nat>, x: nat, header: Header) {
    && (s != [] && x < s[0] ==> header.prev == NULL)
    && (s != [] && s[|s| - 1] < x ==> header.next == NULL)
  }

  /** What an insertion promises: the new list, which is linked if and only if the links it
      did not set were clear, its members, and what it left alone. */
  ghost predicate Inserted(m: Memory, m': Memory, newRoot: nat, s: seq<nat>, node: nat)
    requires node in m
  {
    && (Linked(m', newRoot, InsertAddr(s, node)) <==> LinksClear(s, node, m[node])) && Ascending(InsertAddr(s, node))
    && (forall a :: a in InsertAddr(s, node) <==> a in s || a == node)
    && Touches(m, m', s, node)
  }

  lemma PutInTouches(m: Memory, m': Memory, s: seq<nat>, k: nat, node: nat)
    requires k <= |s| && node in m && PutIn(m, m', s, k, node)
    ensures Touches(m, m', s, node)
  {
    assert k > 0 ==> s[k - 1] in s;
    assert k < |s| ==> s[k] in s;
  }

  lemma PutInInserts(m: Memory, m': Memory, root: nat, s: seq<nat>, k: nat, node: nat)
    requires Linked(m, root, s) && Ascending(s) && k <= |s| && node in m && node != NULL && node !in s
    requires PutIn(m, m', s, k, node)
    requires (forall i :: 0 <= i < k ==> s[i] < node) && (k < |s| ==> node < s[k]) && LinksClear(s, node, m[node])
    ensures Inserted(m, m', if k > 0 then s[0] else node, s, node)
  {
    hide Linked, Ascending, PutIn, Touches, InsertAddr;
    PutInList(s, k, node);
    PutInLinked(m, m', root, s, k, node);
    PutInTouches(m, m', s, k, node);
  }

  lemma LinkFrontInserts(m: Memory, root: nat, s: seq<nat>, node: nat)
    requires Linked(m, root, s) && Ascending(s) && node in m && node != NULL && node !in s
    requires s != [] ==> node < root
    ensures root == NULL <==> s == []
    ensures Inserted(m, LinkFront(m, root, node), node, s, node)
  {
    assert s != [] ==> s[0] in s && s[0] != NULL;
    if LinksClear(s, node, m[node]) {
      PutInInserts(m, LinkFront(m, root, node), root, s, 0, node);
    } else {
      StaleFront(m, root, s, node);
    }
  }

  /** In front of a list the old `prev` of the node stays; unless it is NULL, what results
      is not linked as a list with that node first. */
  lemma StaleFront(m: Memory, root: nat, s: seq<nat>, node: nat)
    requires Linked(m, root, s) && Ascending(s) && node in m && node != NULL && node !in s
    requires s != [] && node < root && m[node].prev != NULL
    ensures Inserted(m, LinkFront(m, root, node), node, s, node)
    ensures forall t :: !Linked(LinkFront(m, root, node), node, t)
  {
    PutInList(s, 0, node);
    var m' := LinkFront(m, root, node);
    assert s[0] in s && m'[node].prev == m[node].prev;
    forall t ensures !Linked(m', node, t) {
      if t != [] && t[0] == node { assert Before(t, 0) == NULL; }
    }
  }

  lemma LinkAfterInserts(m: Memory, root: nat, s: seq<nat>, k: nat, node: nat)
    requires Linked(m, root, s) && Ascending(s) && k < |s| && node in m && node != NULL && node !in s
    requires (forall i :: 0 <= i <= k ==> s[i] < node) && (k + 1 < |s| ==> node < s[k + 1])
    ensures m[s[k]].next == After(s, k) && (k + 1 < |s| ==> s[k + 1] in m && s[k + 1] != NULL)
    ensures Inserted(m, LinkAfter(m, s[k], node), root, s, node)
  {
    if k + 1 == |s| && m[node].next != NULL {
      StaleBack(m, root, s, node);
    } else {
      LinkAfterPuts(m, root, s, k, node);
      PutInInserts(m, LinkAfter(m, s[k], node), root, s, k + 1, node);
    }
  }

  /** Behind a list the old `next` of the node stays; unless it is NULL, what results is not
      the list with that node at its end. */
  lemma StaleBack(m: Memory, root: nat, s: seq<nat>, node: nat)
    requires Linked(m, root, s) && Ascending(s) && s != [] && node in m && node != NULL && node !in s
    requires s[|s| - 1] < node && m[node].next != NULL
    ensures m[s[|s| - 1]].next == NULL
    ensures Inserted(m, LinkAfter(m, s[|s| - 1], node), root, s, node)
    ensures !Linked(LinkAfter(m, s[|s| - 1], node), root, InsertAddr(s, node))
  {
    hide InsertAddr, Linked, Ascending, Touches;
    var k := |s| - 1;
    LastNode(m, root, s);
    BehindAll(s, node);
    PutInList(s, |s|, node);
    var t, m' := InsertAddr(s, node), LinkAfter(m, s[k], node);
    assert t == s + [node];
    assert m'[node].next == m[node].next;
    LastNext(m', root, t);
    BackTouches(m, s, node);
  }

  lemma LastNode(m: Memory, root: nat, s: seq<nat>)
    requires Linked(m, root, s) && s != []
    ensures s[|s| - 1] in m && m[s[|s| - 1]].next == NULL
  {
    assert After(s, |s| - 1) == NULL;
  }

  lemma LastNext(m: Memory, root: nat, t: seq<nat>)
    ensures t != [] && t[|t| - 1] in m && m[t[|t| - 1]].next != NULL ==> !Linked(m, root, t)
  {
    if Linked(m, root, t) && t != [] { LastNode(m, root, t); }
  }

  lemma BehindAll(s: seq<nat>, node: nat)
    requires Ascending(s) && s != [] && s[|s| - 1] < node
    ensures forall i :: 0 <= i < |s| ==> s[i] < node
  {
  }

  lemma BackTouches(m: Memory, s: seq<nat>, node: nat)
    requires s != [] && s[|s| - 1] in m && node in m && s[|s| - 1] != node && m[s[|s| - 1]].next == NULL
    ensures Touches(m, LinkAfter(m, s[|s| - 1], node), s, node)
  {
    assert s[|s| - 1] in s;
  }

  class Heap {
    var mem: Memory
    var availableRoot: nat
    var assignedRoot: nat
    var freemem: u32
    var totalmem: u32
    var totalnodes: u32
    ghost var free: seq<nat>
    ghost var used: seq<nat>
    ghost var base: nat
    ghost var arena: u32

    ghost predicate Lists()
      reads this
    {
      && Linked(mem, availableRoot, free) && Linked(mem, assignedRoot, used)
      && Ascending(free) && Ascending(used)
      && (forall a :: a in free ==> a !in used)
    }

    ghost function State(): HeapState
      requires Lists()
      reads this
    {
      HeapState(Sizes(mem, free), Sizes(mem, used), freemem, totalmem, totalnodes)
    }

    ghost predicate Valid()
      reads this
    {
      Lists() && Sound(State(), base, arena)
    }

    /** Unlinks a node from the list that starts at `root`. */
    method LlRemove(root: nat, node: nat, ghost s: seq<nat>, ghost i: nat) returns (newRoot: nat)
      requires Linked(mem, root, s) && Ascending(s) && i < |s| && s[i] == node
      modifies this`mem
      ensures Linked(mem, newRoot, Without(s, i))
      ensures Touches(old(mem), mem, s, node)
      ensures node in mem && mem[node].prev == NULL && mem[node].next == NULL
    {
      UnlinkCuts(mem, root, s, i);
      CutOutLinked(mem, Unlink(mem, node), root, s, i);
      assert node == root <==> i == 0 by { Distinct(s); }
      newRoot := root;
      var n := mem[node];
      if n.prev != NULL {
        mem := mem[n.prev := mem[n.prev].(next := n.next)];
      }
      if n.next != NULL {
        mem := mem[n.next := mem[n.next].(prev := n.prev)];
      }
      if node == root {
        newRoot := n.next; // the first node has no prev
      }
      mem := mem[node := mem[node].(next := NULL, prev := NULL)];
      assert mem == Unlink(old(mem), node);
    }

    /** Links a node into the list at its place by address. A node that becomes the first
        of a non-empty list keeps its `prev`, one that becomes the last keeps its `next`;
        see `Inserted` for what that means. */
    method LlInsertSorted(root: nat, node: nat, ghost s: seq<nat>) returns (newRoot: nat)
      requires Linked(mem, root, s) && Ascending(s) && node in mem && node != NULL && node !in s
      modifies this`mem
      ensures Inserted(old(mem), mem, newRoot, s, node)
    {
      hide Inserted, InsertAddr, Ascending, LinksClear;
      if root == NULL {
        LinkFrontInserts(mem, root, s, node);
        mem := mem[node := mem[node].(prev := NULL, next := NULL)];
        return node;
      }
      if node < root {
        LinkFrontInserts(mem, root, s, node);
        mem := mem[root := mem[root].(prev := node)];
        mem := mem[node := mem[node].(next := root)];
        return node;
      }
      newRoot := root;
      var current := root;
      ghost var k := 0;
      while mem[current].next != NULL && node > mem[current].next
        invariant 0 <= k < |s| && current == s[k]
        invariant forall i :: 0 <= i <= k ==> s[i] < node
        invariant mem == old(mem)
        decreases |s| - k
      {
        current := mem[current].next;
        k := k + 1;
      }
      LinkAfterInserts(mem, root, s, k, node);
      var oldnext := mem[current].next;
      mem := mem[current := mem[current].(next := node)];
      if oldnext == NULL {
        mem := mem[node := mem[node].(prev := current)];
      } else {
        mem := mem[node := mem[node].(prev := current, next := oldnext)];
        mem := mem[oldnext := mem[oldnext].(prev := node)];
      }
      assert mem == LinkAfter(old(mem), current, node);
    }

    /** Hands an arena of `size` bytes at `start` to an empty heap. */
    constructor (start: nat, size: u32)
      requires start > 0 && size >= H
      ensures Valid() && State() == Initial(start, size) && base == start && arena == size
    {
      hide Sound, HeapSpec.Insert, InsertAddr;
      mem := map[start := Header(NULL, NULL, size - H)];
      availableRoot, assignedRoot := start, NULL;
      freemem, totalmem, totalnodes := size - H, size - H, 1;
      free, used, base, arena := [start], [], start, size;
      new;
      InitialSound(start, size);
      assert Sizes(mem, free) == [Block(start, size - H)];
    }

    /** Moves block `k` of the free list to its place in the list of allocated blocks. */
    method Take(current: nat, ghost k: nat)
      requires Lists() && k < |free| && free[k] == current
      modifies this`mem, this`availableRoot, this`assignedRoot, this`free, this`used
      ensures Lists() && SameSizes(old(mem), mem)
      ensures free == Without(old(free), k) && used == InsertAddr(old(used), current)
      ensures current in used && current !in free && current in mem
      ensures forall a :: a in used <==> a in old(used) || a == current
    {
      hide Linked, Ascending, InsertAddr, Without;
      ghost var m0 := mem;
      RemoveAddr(free, k);
      Neighbours(mem, availableRoot, free, k);
      availableRoot := LlRemove(availableRoot, current, free, k);
      LinkedElsewhere(m0, mem, free, current, assignedRoot, used);
      free := Without(free, k);
      ghost var m1 := mem;
      assignedRoot := LlInsertSorted(assignedRoot, current, used);
      LinkedElsewhere(m1, mem, used, current, availableRoot, free);
      used := InsertAddr(used, current);
    }

    /** Cuts the allocated block `current` down to `size` bytes and lists the remainder. */
    method Split(current: nat, size: u32, stale: Header)
      requires Lists() && current in used && current in mem
      requires current + H + size !in free && current + H + size !in used
      modifies this`mem, this`availableRoot, this`free, this`freemem, this`totalnodes
      ensures Lists() <==> LinksClear(old(free), current + H + size, stale)
      ensures Linked(mem, availableRoot, free) <==> Lists()
      ensures free == InsertAddr(old(free), current + H + size)
      ensures Resized(old(mem), mem, current, size, true)
      ensures freemem == Wrap(old(freemem) - H) && totalnodes == Wrap(old(totalnodes) + 1)
    {
      hide Linked, Ascending, InsertAddr;
      var newfree := current + H + size;
      mem := mem[newfree := stale.(size := Wrap(mem[current].size - H - size))];
      mem := mem[current := mem[current].(size := size)];
      ResizedLists(old(mem), mem, availableRoot, free, current, newfree);
      ResizedLists(old(mem), mem, assignedRoot, used, current, newfree);
      ghost var m1 := mem;
      availableRoot := LlInsertSorted(availableRoot, newfree, free);
      LinkedElsewhere(m1, mem, free, newfree, assignedRoot, used);
      free := InsertAddr(free, newfree);
      freemem := Wrap(freemem - H);
      totalnodes := Wrap(totalnodes + 1);
    }

    /** The first block of the free list that is large enough, or NULL. */
    method FindFit(size: u32) returns (current: nat, ghost k: nat)
      requires Lists()
      ensures k == FirstFit(Sizes(mem, free), size) && k <= |free|
      ensures if k < |free| then current == free[k] && current != NULL && current in mem else current == NULL
    {
      current := availableRoot;
      k := 0;
      while current != NULL && mem[current].size < size
        invariant 0 <= k <= |free| && current == (if k < |free| then free[k] else NULL)
        invariant forall j :: 0 <= j < k ==> mem[free[j]].size < size
        decreases |free| - k
      {
        assert mem[free[k]].next == After(free, k);
        current := mem[current].next;
        k := k + 1;
      }
      FirstFitIs(Sizes(mem, free), size, k);
    }

    /** The changes an allocation makes once its block is chosen. */
    method Place(current: nat, size: u32, stale: Header, ghost k: nat) returns (ghost split: bool)
      requires Lists() && k < |free| && free[k] == current && current in mem
      requires mem[current].size != size ==> RoomFor(free, used, k, size)
      modifies this`mem, this`availableRoot, this`assignedRoot, this`free, this`used, this`freemem, this`totalnodes
      ensures split <==> old(mem[current].size) != size
      ensures Lists() <==> (split ==> LinksClear(Without(old(free), k), current + H + size, stale))
      ensures Linked(mem, availableRoot, free) <==> Lists()
      ensures Resized(old(mem), mem, current, size, split)
      ensures used == InsertAddr(old(used), current)
      ensures split ==> free == InsertAddr(Without(old(free), k), current + H + size)
      ensures !split ==> free == Without(old(free), k)
      ensures freemem == Wrap((if split then Wrap(old(freemem) - H) else old(freemem)) - size)
      ensures totalnodes == if split then Wrap(old(totalnodes) + 1) else old(totalnodes)
    {
      hide Ascending, InsertAddr, Linked, Wrap, Without;
      Take(current, k);
      split := mem[current].size != size;
      if mem[current].size != size {
        Split(current, size, stale);
      }
      freemem := Wrap(freemem - mem[current].size);
    }

    /** Allocates `size` bytes; 0 when no block is large enough. `stale` is whatever the
        memory holds where the header of the remainder goes: only its size is overwritten
        before the header is linked. Blocks and counters come out as specified whatever it
        is; the free list is a list if and only if `StaleLinksOk`. */
    method Malloc(size: u32, stale: Header) returns (r: nat)
      requires Valid() && Fits(State(), size)
      modifies this
      ensures Present(mem, free) && Present(mem, used)
      ensures HeapState(Sizes(mem, free), Sizes(mem, used), freemem, totalmem, totalnodes)
         == HeapSpec.Malloc(old(State()), size)
      ensures Linked(mem, availableRoot, free) <==> StaleLinksOk(old(State()), size, stale)
      ensures Valid() <==> StaleLinksOk(old(State()), size, stale)
      ensures r == MallocResult(old(State()), size) && base == old(base) && arena == old(arena)
    {
      hide Ascending, InsertAddr, Sound, FirstFit, Insert, Sizes, Linked, Fits, HeapSpec.Malloc, MallocResult, Wrap,
           Resized,
           StaleLinksOk, RoomFor, Without, LinksClear;
      ghost var h, m0, f0, u0 := State(), mem, free, used;
      LinkedPresent(mem, availableRoot, free);
      LinkedPresent(mem, assignedRoot, used);
      var current;
      ghost var k;
      current, k := FindFit(size);
      ChosenBlock(h, size);
      StaleLinksMatter(h, size, stale);
      if current == NULL {
        return 0;
      }
      MallocKeeps(h, base, arena, size);
      assert f0[k] in f0 && f0[k] !in u0;
      RoomForRemnant(m0, f0, u0, k, h, base, arena, size, stale);
      ghost var split := Place(current, size, stale, k);
      r := current + H;
      if split {
        AfterSplit(m0, mem, f0, u0, k, h, size);
      } else {
        AfterExact(m0, mem, f0, u0, k, h, size);
      }
    }

    /** Moves allocated block `i` to its place in the free list and counts its bytes. */
    method Unplace(node: nat, ghost i: nat)
      requires Lists() && i < |used| && used[i] == node && node in mem
      modifies this`mem, this`availableRoot, this`assignedRoot, this`free, this`used, this`freemem
      ensures Lists() && SameSizes(old(mem), mem)
      ensures used == Without(old(used), i) && free == InsertAddr(old(free), node)
      ensures freemem == Wrap(old(freemem) + old(mem[node].size))
    {
      hide Linked, Ascending, InsertAddr, Without, Wrap;
      ghost var m0 := mem;
      assert node in used;
      RemoveAddr(used, i);
      Neighbours(mem, assignedRoot, used, i);
      assignedRoot := LlRemove(assignedRoot, node, used, i);
      LinkedElsewhere(m0, mem, used, node, availableRoot, free);
      used := Without(used, i);
      freemem := Wrap(freemem + mem[node].size);
      ghost var m1 := mem;
      availableRoot := LlInsertSorted(availableRoot, node, free);
      LinkedElsewhere(m1, mem, free, node, assignedRoot, used);
      free := InsertAddr(free, node);
    }

    /** Walks back to the first block of the contiguous stretch that ends with `start`. */
    method ScanBackward(start: nat, ghost j: nat) returns (node: nat, ghost i: nat)
      requires Lists() && j < |free| && free[j] == start
      ensures i < |free| && free[i] == node && i == ScanBack(Sizes(mem, free), j)
    {
      hide Ascending, Linked, Sizes, ScanBack;
      node := start;
      i := j;
      LinkedPresent(mem, availableRoot, free);
      ghost var bs := Sizes(mem, free);
      PrevReaches(mem, availableRoot, free, i);
      while mem[node].prev != NULL && node == mem[node].prev + H + mem[mem[node].prev].size
        invariant i <= j && node == free[i] && ScanBack(bs, i) == ScanBack(bs, j)
        invariant node in mem && (mem[node].prev != NULL ==> mem[node].prev in mem)
        decreases i
      {
        PrevReaches(mem, availableRoot, free, i);
        node := mem[node].prev;
        i := i - 1;
        PrevReaches(mem, availableRoot, free, i);
      }
      PrevReaches(mem, availableRoot, free, i);
    }

    /** Absorbs the block after `node`, which starts where `node` ends. */
    method JoinNext(node: nat, ghost j: nat)
      requires Lists() && j + 1 < |free| && free[j] == node && node in mem
      requires mem[node].next == free[j + 1] == node + H + mem[node].size && free[j + 1] in mem
      modifies this`mem, this`availableRoot, this`free, this`freemem, this`totalnodes
      ensures Lists() && free == Without(old(free), j + 1) && j < |free| && free[j] == node && node in mem
      ensures Joins(Sizes(old(mem), old(free)), j) && Sizes(mem, free) == JoinOne(Sizes(old(mem), old(free)), j)
      ensures Sizes(mem, used) == Sizes(old(mem), used)
      ensures freemem == Wrap(old(freemem) + H) && totalnodes == Wrap(old(totalnodes) - 1)
    {
      hide Linked, Ascending, Without, Wrap, JoinOne, Touches, Sizes, Joins;
      ghost var m0, f0 := mem, free;
      assert node in free && free[j + 1] in free;
      LinkedPresent(mem, availableRoot, free);
      LinkedPresent(mem, assignedRoot, used);
      RemoveAddr(free, j + 1);
      NextDiffers(free, j);
      var next := mem[node].next;
      var nodesize := mem[next].size + H;
      freemem := Wrap(freemem + H);
      availableRoot := LlRemove(availableRoot, next, free, j + 1);
      LinkedElsewhere(m0, mem, free, next, assignedRoot, used);
      TouchesSizes(m0, mem, free, next);
      ghost var m1 := mem;
      totalnodes := Wrap(totalnodes - 1);
      free := Without(free, j + 1);
      mem := mem[node := mem[node].(size := Wrap(mem[node].size + nodesize))];
      ResizedLists(m1, mem, availableRoot, free, node, next);
      ResizedLists(m1, mem, assignedRoot, used, node, next);
      LinkedPresent(mem, availableRoot, free);
      LinkedPresent(mem, assignedRoot, used);
      JoinedSizes(m0, mem, f0, j);
      UsedUntouched(m0, mem, used, node);
    }

    /** Merges everything that is contiguous after `node`. */
    method MergeAfter(node: nat, ghost j: nat)
      requires Lists() && j < |free| && free[j] == node
      modifies this`mem, this`availableRoot, this`free, this`freemem, this`totalnodes
      ensures Lists() && Sizes(mem, used) == Sizes(old(mem), used)
      ensures Sizes(mem, free) == MergeForward(Sizes(old(mem), old(free)), j)
      ensures freemem == Wrap(old(freemem) + H * (|old(free)| - |free|))
      ensures totalnodes == Wrap(old(totalnodes) - (|old(free)| - |free|))
    {
      hide Ascending, Linked, Sizes, JoinOne, Wrap, MergeForward;
      ghost var m0, f0 := mem, free;
      LinkedPresent(mem, availableRoot, free);
      LinkedPresent(mem, assignedRoot, used);
      NextReaches(mem, availableRoot, free, j);
      WrapId(freemem);
      WrapId(totalnodes);
      while mem[node].next == node + H + mem[node].size
        invariant Present(mem, free) && Present(mem, used) && Present(m0, f0) && Present(m0, used)
        invariant Lists() && j < |free| <= |f0| && free[j] == node && node in mem
        invariant Sizes(mem, used) == Sizes(m0, used)
        invariant MergeForward(Sizes(mem, free), j) == MergeForward(Sizes(m0, f0), j)
        invariant freemem == Wrap(old(freemem) + H * (|f0| - |free|))
        invariant totalnodes == Wrap(old(totalnodes) - (|f0| - |free|))
        decreases |free|
      {
        NextReaches(mem, availableRoot, free, j);
        WrapAdd(old(freemem) + H * (|f0| - |free|), H);
        WrapAdd(old(totalnodes) - (|f0| - |free|), -1);
        JoinNext(node, j);
        LinkedPresent(mem, availableRoot, free);
        LinkedPresent(mem, assignedRoot, used);
      }
      NextReaches(mem, availableRoot, free, j);
    }

    /** Releases the block whose user address is `ptr`. */
    method Release(ptr: nat)
      requires Valid() && ptr >= H && Allocated(State(), ptr - H)
      modifies this
      ensures Valid() && State() == HeapSpec.Free(old(State()), ptr - H)
      ensures base == old(base) && arena == old(arena)
    {
      hide Ascending, InsertAddr, Sound, Insert, Sizes, Linked, HeapSpec.Free, Wrap, Without, ScanBack, MergeForward,
           IndexOf;
      ghost var h, m0, f0, u0 := State(), mem, free, used;
      LinkedPresent(mem, availableRoot, free);
      LinkedPresent(mem, assignedRoot, used);
      var node := ptr - H;
      FreeKeeps(h, base, arena, node);
      ghost var i := IndexOf(h.used, node);
      assert u0[i] in u0 && u0[i] == node && node != NULL;
      Unplace(node, i);
      ghost var m1, f1 := mem, free;
      LinkedPresent(mem, availableRoot, free);
      LinkedPresent(mem, assignedRoot, used);
      UnplacedSizes(m0, mem, f0, u0, i, node, h);
      ghost var listed := Sizes(mem, free);
      ghost var j := IndexOf(listed, node);
      var start;
      ghost var k;
      start, k := ScanBackward(node, j);
      MergeAfter(start, k);
      WrapAdd(h.freemem + h.used[i].size, H * (|f1| - |free|));
      FreeSteps(h, node);
    }

    /** Any run of calls, `stale[k]` being what the memory holds where call `k` puts a new
        header: after each the lists are linked and the heap is sound, and after the last it
        is in the state of `RunOps`. */
    method RunAll(ops: seq<Op>, stale: seq<Header>)
      requires Valid() && Proper(State(), ops) && StaleRunOk(State(), ops, stale)
      modifies this
      ensures Valid() && State() == RunOps(old(State()), ops) && base == old(base) && arena == old(arena)
    {
      hide HeapSpec.Malloc, HeapSpec.Free, Fits, Allocated, StaleLinksOk, Sound, Linked, Sizes;
      var k := 0;
      assert ops[0..] == ops && stale[0..] == stale;
      while k < |ops|
        invariant 0 <= k <= |ops| && Valid() && base == old(base) && arena == old(arena)
        invariant |stale| == |ops| && Proper(State(), ops[k..]) && StaleRunOk(State(), ops[k..], stale[k..])
        invariant RunOps(State(), ops[k..]) == RunOps(old(State()), ops)
      {
        assert ops[k..][0] == ops[k] && ops[k..][1..] == ops[k + 1..];
        assert stale[k..][0] == stale[k] && stale[k..][1..] == stale[k + 1..];
        match ops[k] {
          case Allocate(n) => var _ := Malloc(n, stale[k]);
          case Release(at) => Release(at + H);
        }
        k := k + 1;
      }
    }
  }

  lemma WrapAdd(x: int, d: int)
    ensures Wrap(Wrap(x) + d) == Wrap(x + d)
  {
    assert x == x / TWO32 * TWO32 + Wrap(x);
    var y := Wrap(x) + d;
    assert y == y / TWO32 * TWO32 + Wrap(y);
    Words.Remainder(x + d, TWO32, x / TWO32 + y / TWO32, Wrap(y));
  }

  /** The two lists once a block has changed sides. */
  lemma UnplacedSizes(m: Memory, m': Memory, f: seq<nat>, u: seq<nat>, i: nat, node: nat, h: HeapState)
    requires Present(m, f) && Present(m, u) && i < |u| && u[i] == node && SameSizes(m, m')
    requires h.free == Sizes(m, f) && h.used == Sizes(m, u)
    ensures Present(m', InsertAddr(f, node)) && Present(m', Without(u, i))
    ensures Sizes(m', Without(u, i)) == Remove(h.used, i)
    ensures h.used[i] == Block(node, m[node].size)
    ensures var listed := Sizes(m', InsertAddr(f, node));
      listed == Insert(h.free, h.used[i]) && IndexOf(listed, node) < |listed|
  {
    hide InsertAddr, Insert, IndexOf;
    SizesRemove(m, u, i);
    SizesSame(m, m', Without(u, i));
    SizesSame(m, m', f);
    InsertSizes(m', f, node);
    InsertedAt(h.free, h.used[i]);
  }

  lemma JoinedSizes(m: Memory, m': Memory, f: seq<nat>, j: nat)
    requires Present(m, f) && Ascending(f) && j + 1 < |f| && f[j + 1] == f[j] + H + m[f[j]].size
    requires m'.Keys == m.Keys && m'[f[j]].size == Wrap(m[f[j]].size + m[f[j + 1]].size + H)
    requires forall a :: a in m && a != f[j] ==> m'[a].size == m[a].size
    ensures Present(m', Without(f, j + 1)) && Joins(Sizes(m, f), j)
    ensures Sizes(m', Without(f, j + 1)) == JoinOne(Sizes(m, f), j)
  {
    hide Wrap;
    var t := Without(f, j + 1);
    Distinct(f);
    assert forall i :: 0 <= i < |t| ==> t[i] == f[if i <= j then i else i + 1];
    var bs, r := Sizes(m, f), JoinOne(Sizes(m, f), j);
    forall i | 0 <= i < |t| ensures Block(t[i], m'[t[i]].size) == r[i] {
      assert r[i] ==
        if i < j then bs[i]
        else if i == j then Block(bs[j].at, Wrap(bs[j].size + bs[j + 1].size + H))
        else bs[i + 1];
    }
  }

  lemma UsedUntouched(m: Memory, m': Memory, u: seq<nat>, x: nat)
    requires Present(m, u) && Present(m', u) && x !in u && m'.Keys == m.Keys
    requires forall a :: a in m && a != x ==> m'[a].size == m[a].size
    ensures Sizes(m', u) == Sizes(m, u)
  {
    assert forall i :: 0 <= i < |u| ==> u[i] in u;
    SizesSame(m, m', u);
  }

  /** What `prev` of a listed node says about the scan backwards. */
  lemma PrevReaches(m: Memory, root: nat, f: seq<nat>, i: nat)
    requires Linked(m, root, f) && i < |f|
    ensures f[i] in m && (m[f[i]].prev != NULL <==> i > 0)
    ensures i > 0 ==> m[f[i]].prev == f[i - 1] && f[i - 1] in m
    ensures ScanBack(Sizes(m, f), i) ==
      if i > 0 && f[i] == f[i - 1] + H + m[f[i - 1]].size then ScanBack(Sizes(m, f), i - 1)
      else i
  {
    assert m[f[i]].prev == Before(f, i);
    assert i > 0 ==> f[i - 1] != NULL;
  }

  /** What `next` of a listed node says about merging. */
  lemma NextReaches(m: Memory, root: nat, f: seq<nat>, j: nat)
    requires Linked(m, root, f) && j < |f|
    ensures f[j] in m
    ensures var bs := Sizes(m, f);
      if m[f[j]].next == f[j] + H + m[f[j]].size
      then j + 1 < |f| && m[f[j]].next == f[j + 1] && f[j + 1] in m
           && Joins(bs, j) && MergeForward(bs, j) == MergeForward(JoinOne(bs, j), j)
      else MergeForward(bs, j) == bs
  {
    hide JoinOne;
    assert m[f[j]].next == After(f, j);
    var bs := Sizes(m, f);
    assert bs[j] == Block(f[j], m[f[j]].size) && (j + 1 < |f| ==> bs[j + 1].at == f[j + 1]);
  }

  lemma FreeSteps(h: HeapState, at: nat)
    requires Allocated(h, at)
    ensures var i := IndexOf(h.used, at);
      var listed := Insert(h.free, h.used[i]);
      && IndexOf(listed, at) < |listed|
      && var merged := MergeForward(listed, ScanBack(listed, IndexOf(listed, at)));
      HeapSpec.Free(h, at)
        == HeapState(merged, Remove(h.used, i), Wrap(h.freemem + h.used[i].size + H * (|listed| - |merged|)),
                     h.totalmem, Wrap(h.totalnodes - (|listed| - |merged|)))
  {
    hide Insert, ScanBack, MergeForward, Wrap;
    InsertedAt(h.free, h.used[IndexOf(h.used, at)]);
  }

  lemma NextDiffers(s: seq<nat>, j: nat)
    requires Ascending(s) && j + 1 < |s|
    ensures s[j] < s[j + 1] && j < |Without(s, j + 1)| && Without(s, j + 1)[j] == s[j]
  {
  }

  /** Memory in which `current` has the new size and, after a split, the remainder after it
      has a header; all other sizes are as before. */
  ghost predicate Resized(m: Memory, m': Memory, current: nat, n: nat, split: bool)
    requires current in m
  {
    var x := current + H + n;
    && current in m' && m'[current].size == n
    && (split ==> x in m' && m'[x].size == Wrap(m[current].size - H - n))
    && (forall a :: a in m && a != current && !(split && a == x) ==> a in m' && m'[a].size == m[a].size)
  }

  /** No list has a node where the remainder of block `k` goes. */
  ghost predicate RoomFor(f: seq<nat>, u: seq<nat>, k: nat, n: nat)
    requires k < |f|
  {
    var x := f[k] + H + n;
    x !in Without(f, k) && x !in u && x != f[k]
  }

  lemma ChosenBlock(h: HeapState, n: nat)
    ensures var k := FirstFit(h.free, n);
      if k < |h.free| then MallocResult(h, n) == h.free[k].at + H
      else MallocResult(h, n) == 0 && HeapSpec.Malloc(h, n) == h
  {
  }

  /** Where the remainder goes there is no block. */
  lemma RoomForRemnant(m: Memory, f: seq<nat>, u: seq<nat>, k: nat, h: HeapState, base: nat, arena: u32, n: nat,
                       stale: Header)
    requires Present(m, f) && Present(m, u) && k < |f| && h.free == Sizes(m, f) && h.used == Sizes(m, u)
    requires Sound(h, base, arena) && Fits(h, n) && FirstFit(h.free, n) == k
    ensures m[f[k]].size == h.free[k].size && h.free[k].at == f[k]
    ensures m[f[k]].size != n ==>
      RoomFor(f, u, k, n) && (LinksClear(Without(f, k), f[k] + H + n, stale) <==> StaleLinksOk(h, n, stale))
  {
    hide Sound, FirstFit, Sizes;
    if h.free[k].size != n {
      RemnantFresh(h, base, arena, n);
      NotListed(m, f, u, k, f[k] + H + n);
      RemovedEnds(m, f, k);
    }
  }

  /** Stale links matter for a split only. */
  lemma StaleLinksMatter(h: HeapState, n: nat, stale: Header)
    ensures var k := FirstFit(h.free, n);
      k == |h.free| || h.free[k].size == n ==> StaleLinksOk(h, n, stale)
  {
  }

  lemma WrapTwice(x: nat, a: nat, b: nat)
    ensures Wrap(Wrap(x - a) - b) == Wrap(x - a - b)
  {
    WrapAdd(x - a, 0 - b);
  }

  lemma NotListed(m: Memory, f: seq<nat>, u: seq<nat>, k: nat, x: nat)
    requires Present(m, f) && Present(m, u) && k < |f|
    requires forall j :: 0 <= j < |f| ==> Sizes(m, f)[j].at != x
    requires forall j :: 0 <= j < |u| ==> Sizes(m, u)[j].at != x
    ensures x !in f && x !in u && x !in Without(f, k)
  {
    assert forall j :: 0 <= j < |f| ==> f[j] == Sizes(m, f)[j].at;
    assert forall j :: 0 <= j < |u| ==> u[j] == Sizes(m, u)[j].at;
  }

  lemma RemoveAddr(s: seq<nat>, k: nat)
    requires Ascending(s) && k < |s|
    ensures var t := Without(s, k); Ascending(t) && forall a :: a in t <==> a in s && a != s[k]
  {
    var t := Without(s, k);
    assert s == s[..k] + [s[k]] + s[k + 1..];
    assert forall i :: 0 <= i < |t| ==> t[i] == s[if i < k then i else i + 1];
    Distinct(s);
  }

  /** Lists whose members keep their links. */
  lemma ResizedLists(m: Memory, m': Memory, root: nat, s: seq<nat>, x: nat, y: nat)
    requires Linked(m, root, s) && y !in s
    requires forall a :: a in m && a != y ==> a in m' && m'[a].prev == m[a].prev && m'[a].next == m[a].next
    ensures Linked(m', root, s)
  {
    assert forall i :: 0 <= i < |s| ==> s[i] in s;
  }

  /** What the old contents of a remainder's header must be for the free list to stay one. */
  predicate StaleLinksOk(h: HeapState, n: nat, stale: Header) {
    var i := FirstFit(h.free, n);
    i < |h.free| && h.free[i].size != n ==>
      var rest, x := Remove(h.free, i), h.free[i].at + H + n;
      && (rest != [] && x < rest[0].at ==> stale.prev == NULL)
      && (rest != [] && rest[|rest| - 1].at < x ==> stale.next == NULL)
  }

  lemma {:induction false} FirstFitIs(free: seq<Block>, n: nat, k: nat)
    requires k <= |free| && (forall j :: 0 <= j < k ==> free[j].size < n) && (k < |free| ==> free[k].size >= n)
    ensures FirstFit(free, n) == k
  {
    if k > 0 { FirstFitIs(free[1..], n, k - 1); }
  }

  lemma RemovedEnds(m: Memory, s: seq<nat>, k: nat)
    requires Present(m, s) && k < |s|
    ensures var t, bs := Without(s, k), Remove(Sizes(m, s), k);
      |t| == |bs| && (t != [] ==> t[0] == bs[0].at && t[|t| - 1] == bs[|bs| - 1].at)
  {
  }

  /** The header of a remainder goes where no block of either list starts. */
  lemma RemnantFresh(h: HeapState, base: nat, arena: u32, n: nat)
    requires Sound(h, base, arena) && Fits(h, n)
    requires FirstFit(h.free, n) < |h.free| && h.free[FirstFit(h.free, n)].size != n
    ensures var x := h.free[FirstFit(h.free, n)].at + H + n;
      (forall j :: 0 <= j < |h.free| ==> h.free[j].at != x) && (forall j :: 0 <= j < |h.used| ==> h.used[j].at != x)
  {
    hide Blocks, Total, Bytes, Coalesced, FirstFit;
    var ts: seq<Tile> :| Tiles(h, base, arena, ts);
    var i := FirstFit(h.free, n);
    var k := TileOf(ts, base, true, i);
    var l, r := ts[..k], ts[k + 1..];
    assert ts == l + [ts[k]] + r;
    CutBoth(l, ts[k], r, base);
    var next := base + Total(l) + H + ts[k].size;
    BlocksWithin(l, base, true);
    BlocksWithin(l, base, false);
    BlocksWithin(r, next, true);
    BlocksWithin(r, next, false);
  }

  /** The lists after the memory changes of an allocation are those of its specification. */
  lemma UsedAfter(m: Memory, m': Memory, u: seq<nat>, x: nat, n: nat, split: bool)
    requires Present(m, u) && x in m && x != NULL && x !in u
    requires Resized(m, m', x, n, split) && (split ==> x + H + n !in u)
    ensures Present(m', InsertAddr(u, x)) && Sizes(m', InsertAddr(u, x)) == Insert(Sizes(m, u), Block(x, n))
  {
    hide InsertAddr, Insert, Sizes;
    assert forall i :: 0 <= i < |u| ==> u[i] in u;
    SizesSame(m, m', u);
    InsertSizes(m', u, x);
  }

  lemma FreeAfter(m: Memory, m': Memory, f: seq<nat>, k: nat, n: nat, split: bool)
    requires Present(m, f) && Ascending(f) && k < |f| && Resized(m, m', f[k], n, split)
    requires split ==> f[k] + H + n !in Without(f, k)
    ensures var rest := Without(f, k);
      var free := if split then InsertAddr(rest, f[k] + H + n) else rest;
      && Present(m', free)
      && Sizes(m', free) ==
           if split then Insert(Remove(Sizes(m, f), k), Remnant(Sizes(m, f)[k], n))
           else Remove(Sizes(m, f), k)
  {
    hide InsertAddr, Insert, Ascending, Sizes;
    var rest := Without(f, k);
    RemoveAddr(f, k);
    assert forall i :: 0 <= i < |rest| ==> rest[i] in rest;
    assert forall i :: 0 <= i < |f| ==> f[i] in f;
    SizesRemove(m, f, k);
    SizesSame(m, m', rest);
    if split { InsertSizes(m', rest, f[k] + H + n); }
  }

  lemma AfterExact(m: Memory, m': Memory, f: seq<nat>, u: seq<nat>, k: nat, h: HeapState, n: nat)
    requires Present(m, f) && Present(m, u) && k < |f| && f[k] !in u && Ascending(f)
    requires h.free == Sizes(m, f) && h.used == Sizes(m, u) && FirstFit(h.free, n) == k && h.free[k].size == n
    requires Resized(m, m', f[k], n, false)
    ensures Present(m', Without(f, k)) && Present(m', InsertAddr(u, f[k]))
    ensures HeapSpec.Malloc(h, n) == HeapState(Sizes(m', Without(f, k)), Sizes(m', InsertAddr(u, f[k])),
                                               Wrap(h.freemem - n), h.totalmem, h.totalnodes)
  {
    hide Ascending, InsertAddr, Insert, FirstFit, Sizes, Wrap, Resized, Without;
    UsedAfter(m, m', u, f[k], n, false);
    FreeAfter(m, m', f, k, n, false);
  }

  lemma AfterSplit(m: Memory, m': Memory, f: seq<nat>, u: seq<nat>, k: nat, h: HeapState, n: nat)
    requires Present(m, f) && Present(m, u) && k < |f| && f[k] !in u && Ascending(f)
    requires h.free == Sizes(m, f) && h.used == Sizes(m, u) && FirstFit(h.free, n) == k && h.free[k].size != n
    requires Resized(m, m', f[k], n, true) && RoomFor(f, u, k, n)
    ensures Present(m', InsertAddr(Without(f, k), f[k] + H + n)) && Present(m', InsertAddr(u, f[k]))
    ensures HeapSpec.Malloc(h, n)
         == HeapState(Sizes(m', InsertAddr(Without(f, k), f[k] + H + n)), Sizes(m', InsertAddr(u, f[k])),
                      Wrap(Wrap(h.freemem - H) - n), h.totalmem, Wrap(h.totalnodes + 1))
  {
    hide Ascending, InsertAddr, Insert, FirstFit, Sizes, Wrap, Resized, Without;
    UsedAfter(m, m', u, f[k], n, true);
    FreeAfter(m, m', f, k, n, true);
    WrapTwice(h.freemem, H, n);
  }

  /** Each request of a run fits 32 bits, and the old contents of memory leave the free list
      one at each step. */
  predicate StaleRunOk(h: HeapState, ops: seq<Op>, stale: seq<Header>)
    requires Proper(h, ops)
    decreases |ops|
  {
    |stale| == |ops| &&
    (ops == [] ||
     match ops[0]
     case Allocate(n) =>
       n < TWO32 && StaleLinksOk(h, n, stale[0]) && StaleRunOk(HeapSpec.Malloc(h, n), ops[1..], stale[1..])
     case Release(at) => StaleRunOk(HeapSpec.Free(h, at), ops[1..], stale[1..]))
  }

  /** From a first arena on. When everything has been released the heap is as it was. */
  method RunFromStart(base: nat, size: u32, ops: seq<Op>, stale: seq<Header>) returns (heap: Heap)
    requires base > 0 && size >= H && Proper(Initial(base, size), ops)
    requires StaleRunOk(Initial(base, size), ops, stale)
    ensures fresh(heap) && heap.Valid() && heap.State() == RunOps(Initial(base, size), ops)
    ensures heap.State().used == [] ==> heap.State() == Initial(base, size)
  {
    hide Proper, StaleRunOk, RunOps, Sound, Linked, Sizes, Initial;
    heap := new Heap(base, size);
    heap.RunAll(ops, stale);
    ghost var h := heap.State();
    if h.used == [] { EmptyIsInitial(h, base, size); }
  }

  // ---- Stale links that matter ----

  const SOME_OPS: seq<Op> := [Allocate(50), Allocate(20), Release(8)]

  /** In a fresh arena of 400 bytes, two allocations and the release of the first. */
  lemma SomeRun()
    ensures Proper(Initial(8, 400), SOME_OPS)
    ensures RunOps(Initial(8, 400), SOME_OPS)
       == HeapState([Block(8, 50), Block(126, 258)], [Block(82, 20)], 308, 376, 3)
  {
    var h0 := Initial(8, 400);
    var h1 := HeapState([Block(82, 302)], [Block(8, 50)], 302, 376, 2);
    var h2 := HeapState([Block(126, 258)], [Block(8, 50), Block(82, 20)], 258, 376, 3);
    var h3 := HeapState([Block(8, 50), Block(126, 258)], [Block(82, 20)], 308, 376, 3);
    assert HeapSpec.Malloc(h0, 50) == h1;
    assert HeapSpec.Malloc(h1, 20) == h2;
    assert IndexOf(h2.used, 8) == 0;
    assert HeapSpec.Free(h2, 8) == h3;
    var ops2, ops1 := SOME_OPS[1..], SOME_OPS[1..][1..];
    assert ops1 == [Release(8)] && ops1[1..] == [];
    assert RunOps(h3, []) == h3;
  }

  /** There a third allocation splits the first of two free blocks, and its remainder goes in
      front of the list: the list survives if and only if the old `prev` is NULL. */
  lemma StaleLinksHappen(stale: Header)
    ensures Proper(Initial(8, 400), SOME_OPS)
    ensures var h := RunOps(Initial(8, 400), SOME_OPS);
      Sound(h, 8, 400) && Fits(h, 10) && (StaleLinksOk(h, 10, stale) <==> stale.prev == NULL)
  {
    hide Sound, RunOps, Proper;
    SomeRun();
    InitialSound(8, 400);
    RunSound(Initial(8, 400), 8, 400, SOME_OPS);
    var h := RunOps(Initial(8, 400), SOME_OPS);
    assert FirstFit(h.free, 10) == 0 && Remove(h.free, 0) == [Block(126, 258)];
  }
}
