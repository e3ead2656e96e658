/** Binary search trees of nodes, as values: what the linked trees of `BTree` hold. */
module Trees {
  /** A node's key and value never change; its links do. */
  class Node {
    const key: nat
    const value: nat
    var left: Node?
    var right: Node?

    constructor (key: nat, value: nat)
      ensures this.key == key && this.value == value && left == null && right == null
    {
      this.key, this.value, left, right := key, value, null, null;
    }
  }

  datatype Tree = Leaf | Bin(left: Tree, node: Node, right: Tree)

  function Nodes(t: Tree): set<Node> {
    match t
    case Leaf => {}
    case Bin(l, n, r) => Nodes(l) + {n} + Nodes(r)
  }

  function Inorder(t: Tree): seq<Node> {
    match t
    case Leaf => []
    case Bin(l, n, r) => Inorder(l) + [n] + Inorder(r)
  }

  function Size(t: Tree): nat {
    match t
    case Leaf => 0
    case Bin(l, n, r) => Size(l) + 1 + Size(r)
  }

  /** Smaller keys to the left; equal and larger ones to the right. */
  ghost predicate Ordered(t: Tree) {
    t.Bin? ==>
      && (forall n :: n in Nodes(t.left) ==> n.key < t.node.key)
      && (forall n :: n in Nodes(t.right) ==> t.node.key <= n.key)
      && Ordered(t.left) && Ordered(t.right)
  }

  ghost predicate Under(t: Tree, key: nat) { forall n :: n in Nodes(t) ==> n.key < key }

  ghost predicate Over(t: Tree, key: nat) { forall n :: n in Nodes(t) ==> key < n.key }

  /** A search tree whose keys are distinct. */
  ghost predicate Strict(t: Tree) {
    t.Bin? ==> Under(t.left, t.node.key) && Over(t.right, t.node.key) && Strict(t.left) && Strict(t.right)
  }

  function Find(t: Tree, key: nat): Node? {
    match t
    case Leaf => null
    case Bin(l, n, r) => if key == n.key then n else if key < n.key then Find(l, key) else Find(r, key)
  }

  /** Hanging a tree `u` into `t`, where its root's key belongs. */
  function Insert(t: Tree, u: Tree): Tree
    requires u.Bin?
  {
    match t
    case Leaf => u
    case Bin(l, n, r) => if u.node.key < n.key then Bin(Insert(l, u), n, r) else Bin(l, n, Insert(r, u))
  }

  /** How many steps lead from the root down its left or right spine. */
  function Spine(t: Tree, left: bool): nat {
    if t.Leaf? then 0 else
    var next := if left then t.left else t.right;
    if next.Leaf? then 0 else 1 + Spine(next, left)
  }

  /** Division by two, rounded towards zero. */
  function Half(d: int): int { if d >= 0 then d / 2 else -(-d / 2) }

  /** Half the difference of the spines. */
  function Tilt(t: Tree): int { Half(Spine(t, false) - Spine(t, true)) }

  /** The spines are long enough for `m` shuffles. */
  predicate Enough(t: Tree, m: int) { t.Bin? && m <= Spine(t, false) && -m <= Spine(t, true) }

  /** One shuffle: a child becomes the root and the old root is inserted under it. */
  function Shuffled(t: Tree, right: bool): Tree
    requires t.Bin?
  {
    if right then Insert(t.right, Bin(t.left, t.node, Leaf)) else Insert(t.left, Bin(Leaf, t.node, t.right))
  }

  function Shuffle(t: Tree, m: int): (r: Tree)
    requires Enough(t, m)
    ensures r.Bin? && Size(r) == Size(t)
    decreases if m < 0 then -m else m
  {
    if m == 0 then t else
    ShuffleLeaves(t, m);
    Shuffle(Shuffled(t, m > 0), if m > 0 then m - 1 else m + 1)
  }

  function Balanced(t: Tree): (r: Tree)
    ensures r.Leaf? <==> t.Leaf?
    decreases Size(t)
  {
    if t.Leaf? then Leaf else
    TiltFits(t);
    var s := Shuffle(t, Tilt(t));
    Bin(Balanced(s.left), s.node, Balanced(s.right))
  }

  // ---- Shuffling never runs out of spine ----

  lemma {:induction false} InsertSpine(t: Tree, u: Tree, left: bool)
    requires u.Bin?
    ensures Insert(t, u).Bin? && Spine(Insert(t, u), left) >= Spine(t, left)
    ensures Size(Insert(t, u)) == Size(t) + Size(u)
  {
    if t.Bin? {
      InsertSpine(t.left, u, left);
      InsertSpine(t.right, u, left);
    }
  }

  /** A shuffle takes one step off the spine it moves along, at most, and none of it is a
      step to a missing child. */
  lemma ShuffleLeaves(t: Tree, m: int)
    requires Enough(t, m) && m != 0
    ensures if m > 0 then t.right.Bin? else t.left.Bin?
    ensures Enough(Shuffled(t, m > 0), if m > 0 then m - 1 else m + 1)
    ensures Size(Shuffled(t, m > 0)) == Size(t)
  {
    if m > 0 {
      InsertSpine(t.right, Bin(t.left, t.node, Leaf), false);
    } else {
      InsertSpine(t.left, Bin(Leaf, t.node, t.right), true);
    }
  }

  lemma TiltFits(t: Tree)
    requires t.Bin?
    ensures Enough(t, Tilt(t))
    ensures 2 * Tilt(t) <= Spine(t, false) && -2 * Tilt(t) <= Spine(t, true)
  {
  }

  // ---- What insertion does ----

  lemma {:induction false} InsertNodes(t: Tree, u: Tree)
    requires u.Bin?
    ensures Nodes(Insert(t, u)) == Nodes(t) + Nodes(u)
  {
    if t.Bin? {
      InsertNodes(t.left, u);
      InsertNodes(t.right, u);
    }
  }

  /** Adding a node keeps the order, and a key that was there is still found where it was:
      of several nodes with one key, the first one added. */
  lemma {:induction false} AddKeeps(t: Tree, n: Node, key: nat)
    requires Ordered(t)
    ensures var r := Insert(t, Bin(Leaf, n, Leaf));
      Ordered(r) && Find(r, key) == if key == n.key && Find(t, key) == null then n else Find(t, key)
  {
    var u := Bin(Leaf, n, Leaf);
    assert Nodes(u) == {n};
    if t.Bin? {
      InsertNodes(t.left, u);
      InsertNodes(t.right, u);
      AddKeeps(t.left, n, key);
      AddKeeps(t.right, n, key);
    }
  }

  /** In an ordered tree a search finds a node with the key if there is one. */
  lemma {:induction false} FindSome(t: Tree, key: nat)
    requires Ordered(t)
    ensures Find(t, key) == null <==> forall n :: n in Nodes(t) ==> n.key != key
    ensures Find(t, key) != null ==> Find(t, key) in Nodes(t) && Find(t, key).key == key
  {
    if t.Bin? {
      FindSome(t.left, key);
      FindSome(t.right, key);
      if Find(t, key) == null {
        forall n | n in Nodes(t) ensures n.key != key {
        }
      }
    }
  }

  /** The nodes a visit calls back on. A callback that asks to stop ends the visit of its
      own subtree; the ancestors go on. */
  function Visited(t: Tree, stop: Node -> bool): seq<Node> {
    match t
    case Leaf => []
    case Bin(l, n, r) => Visited(l, stop) + [n] + if stop(n) then [] else Visited(r, stop)
  }

  /** A callback that never asks to stop sees every node, in order. */
  lemma {:induction false} VisitedAll(t: Tree, stop: Node -> bool)
    requires forall n :: n in Nodes(t) ==> !stop(n)
    ensures Visited(t, stop) == Inorder(t)
  {
    if t.Bin? {
      assert t.node in Nodes(t);
      VisitedAll(t.left, stop);
      VisitedAll(t.right, stop);
    }
  }

  /** `n` is to the right of a node at which the callback asks to stop. */
  ghost predicate CutOff(t: Tree, stop: Node -> bool, n: Node) {
    t.Bin? && ((stop(t.node) && n in Nodes(t.right)) || CutOff(t.left, stop, n) || CutOff(t.right, stop, n))
  }

  lemma {:induction false} CutOffInside(t: Tree, stop: Node -> bool, n: Node)
    requires CutOff(t, stop, n)
    ensures n in Nodes(t)
    decreases t
  {
    if CutOff(t.left, stop, n) { CutOffInside(t.left, stop, n); }
    else if CutOff(t.right, stop, n) { CutOffInside(t.right, stop, n); }
  }

  /** A visit sees exactly the nodes that are not cut off. */
  lemma {:induction false} VisitedIff(t: Tree, stop: Node -> bool, n: Node)
    requires Strict(t)
    ensures n in Visited(t, stop) <==> n in Nodes(t) && !CutOff(t, stop, n)
  {
    if t.Bin? {
      VisitedIff(t.left, stop, n);
      VisitedIff(t.right, stop, n);
      if CutOff(t.left, stop, n) { CutOffInside(t.left, stop, n); }
      if CutOff(t.right, stop, n) { CutOffInside(t.right, stop, n); }
      assert n in Nodes(t.left) ==> n.key < t.node.key;
      assert n in Nodes(t.right) ==> t.node.key < n.key;
    }
  }

  lemma {:induction false} InorderNodes(t: Tree)
    ensures forall i :: 0 <= i < |Inorder(t)| ==> Inorder(t)[i] in Nodes(t)
    ensures forall n :: n in Nodes(t) ==> n in Inorder(t)
  {
    if t.Bin? {
      InorderNodes(t.left);
      InorderNodes(t.right);
    }
  }

  /** If the keys are distinct they ascend along the order, so every node is in it once. */
  lemma {:induction false} InorderSorted(t: Tree)
    requires Strict(t)
    ensures forall i, j :: 0 <= i < j < |Inorder(t)| ==> Inorder(t)[i].key < Inorder(t)[j].key
  {
    if t.Bin? {
      InorderSorted(t.left);
      InorderSorted(t.right);
      var a, b := Inorder(t.left), Inorder(t.right);
      InorderNodes(t.left);
      InorderNodes(t.right);
      forall i | 0 <= i < |a| ensures a[i].key < t.node.key { assert a[i] in Nodes(t.left); }
      forall j | 0 <= j < |b| ensures t.node.key < b[j].key { assert b[j] in Nodes(t.right); }
    }
  }

  // ---- Distinct keys ----

  lemma {:induction false} StrictOrdered(t: Tree)
    requires Strict(t)
    ensures Ordered(t)
  {
    if t.Bin? {
      StrictOrdered(t.left);
      StrictOrdered(t.right);
    }
  }

  /** A root with only a left subtree, all below `t`, goes to the far left of `t`. */
  lemma {:induction false} InsertLow(t: Tree, l: Tree, x: Node)
    requires Over(t, x.key)
    ensures Inorder(Insert(t, Bin(l, x, Leaf))) == Inorder(l) + [x] + Inorder(t)
  {
    if t.Bin? {
      assert t.node in Nodes(t) && Over(t.left, x.key);
      InsertLow(t.left, l, x);
      var a, b := Inorder(l) + [x], Inorder(t.left);
      assert a + b + [t.node] + Inorder(t.right) == a + (b + [t.node] + Inorder(t.right));
    }
  }

  lemma {:induction false} InsertLowStrict(t: Tree, l: Tree, x: Node)
    requires Strict(t) && Strict(l) && Under(l, x.key) && Over(t, x.key)
    ensures Strict(Insert(t, Bin(l, x, Leaf)))
  {
    var u := Bin(l, x, Leaf);
    if t.Bin? {
      assert t.node in Nodes(t) && Over(t.left, x.key);
      InsertLowStrict(t.left, l, x);
      InsertUnder(t.left, u, t.node.key);
    }
  }

  lemma InsertUnder(t: Tree, u: Tree, key: nat)
    requires u.Bin?
    ensures Under(t, key) && Under(u, key) ==> Under(Insert(t, u), key)
    ensures Over(t, key) && Over(u, key) ==> Over(Insert(t, u), key)
  {
    hide Nodes, Insert;
    InsertNodes(t, u);
  }

  /** A root with only a right subtree, all above `t`, goes to the far right of `t`. */
  lemma {:induction false} InsertHigh(t: Tree, x: Node, r: Tree)
    requires Under(t, x.key)
    ensures Inorder(Insert(t, Bin(Leaf, x, r))) == Inorder(t) + ([x] + Inorder(r))
  {
    if t.Bin? {
      assert t.node in Nodes(t) && Under(t.right, x.key);
      InsertHigh(t.right, x, r);
      var a, b := Inorder(t.right), [x] + Inorder(r);
      assert Inorder(t.left) + [t.node] + (a + b) == Inorder(t.left) + [t.node] + a + b;
    }
  }

  lemma {:induction false} InsertHighStrict(t: Tree, x: Node, r: Tree)
    requires Strict(t) && Strict(r) && Over(r, x.key) && Under(t, x.key)
    ensures Strict(Insert(t, Bin(Leaf, x, r)))
  {
    var u := Bin(Leaf, x, r);
    if t.Bin? {
      assert t.node in Nodes(t) && Under(t.right, x.key);
      InsertHighStrict(t.right, x, r);
      InsertUnder(t.right, u, t.node.key);
    }
  }

  lemma ShuffledStrict(t: Tree, right: bool)
    requires t.Bin? && Strict(t) && (if right then t.right.Bin? else t.left.Bin?)
    ensures Strict(Shuffled(t, right))
  {
    hide Insert, Nodes, Under, Over;
    if right { InsertLowStrict(t.right, t.left, t.node); } else { InsertHighStrict(t.left, t.node, t.right); }
  }

  lemma ShuffledInorder(t: Tree, right: bool)
    requires t.Bin? && Strict(t) && (if right then t.right.Bin? else t.left.Bin?)
    ensures Inorder(Shuffled(t, right)) == Inorder(t)
  {
    hide Insert, Nodes, Under, Over;
    if right {
      InsertLow(t.right, t.left, t.node);
    } else {
      InsertHigh(t.left, t.node, t.right);
      Regroup(Inorder(t.left), [t.node], Inorder(t.right));
    }
  }

  lemma Regroup(a: seq<Node>, b: seq<Node>, c: seq<Node>)
    ensures a + (b + c) == a + b + c
  {
  }

  lemma ShuffledNodes(t: Tree, right: bool)
    requires t.Bin?
    ensures Nodes(Shuffled(t, right)) == Nodes(t)
  {
    if right {
      InsertNodes(t.right, Bin(t.left, t.node, Leaf));
    } else {
      InsertNodes(t.left, Bin(Leaf, t.node, t.right));
    }
  }

  lemma {:induction false} ShuffleNodes(t: Tree, m: int)
    requires Enough(t, m)
    ensures Nodes(Shuffle(t, m)) == Nodes(t)
    decreases if m < 0 then -m else m
  {
    if m != 0 {
      ShuffleLeaves(t, m);
      ShuffledNodes(t, m > 0);
      ShuffleNodes(Shuffled(t, m > 0), if m > 0 then m - 1 else m + 1);
    }
  }

  lemma {:induction false} ShuffleKeeps(t: Tree, m: int)
    requires Enough(t, m) && Strict(t)
    ensures Strict(Shuffle(t, m)) && Inorder(Shuffle(t, m)) == Inorder(t)
    decreases if m < 0 then -m else m
  {
    hide Strict, Inorder, Shuffled, Spine, Nodes;
    if m != 0 {
      ShuffleLeaves(t, m);
      ShuffledStrict(t, m > 0);
      ShuffledInorder(t, m > 0);
      ShuffleKeeps(Shuffled(t, m > 0), if m > 0 then m - 1 else m + 1);
    }
  }

  /** Balancing any tree keeps its nodes. */
  lemma {:induction false} BalancedNodes(t: Tree)
    ensures Nodes(Balanced(t)) == Nodes(t)
    decreases Size(t)
  {
    if t.Bin? {
      TiltFits(t);
      var s := Shuffle(t, Tilt(t));
      ShuffleNodes(t, Tilt(t));
      BalancedNodes(s.left);
      BalancedNodes(s.right);
    }
  }

  /** Balancing a search tree with distinct keys keeps it one, and keeps the order in which
      its nodes are visited. */
  lemma {:induction false} BalancedKeeps(t: Tree)
    requires Strict(t)
    ensures Strict(Balanced(t)) && Inorder(Balanced(t)) == Inorder(t)
    decreases Size(t)
  {
    if t.Bin? {
      TiltFits(t);
      var s := Shuffle(t, Tilt(t));
      ShuffleKeeps(t, Tilt(t));
      BalancedKeeps(s.left);
      BalancedKeeps(s.right);
      BalancedNodes(s.left);
      BalancedNodes(s.right);
    }
  }

  lemma {:induction false} StrictUnique(t: Tree, a: Node, b: Node)
    requires Strict(t) && a in Nodes(t) && b in Nodes(t) && a.key == b.key
    ensures a == b
  {
    if a in Nodes(t.left) && b in Nodes(t.left) { StrictUnique(t.left, a, b); }
    if a in Nodes(t.right) && b in Nodes(t.right) { StrictUnique(t.right, a, b); }
  }

  /** Balancing changes the result of no search. */
  lemma BalancedFinds(t: Tree, key: nat)
    requires Strict(t)
    ensures Find(Balanced(t), key) == Find(t, key)
  {
    var b := Balanced(t);
    BalancedKeeps(t);
    BalancedNodes(t);
    StrictOrdered(t);
    StrictOrdered(b);
    FindSome(t, key);
    FindSome(b, key);
    if Find(t, key) != null { StrictUnique(t, Find(t, key), Find(b, key)); }
  }

  /** With equal keys it does not hold: three nodes added with the same key come out in
      another order, and a search then finds another one. */
  lemma EqualKeysReordered(a: Node, b: Node, c: Node)
    requires a.key == b.key == c.key && a != b
    ensures var t := Insert(Insert(Bin(Leaf, a, Leaf), Bin(Leaf, b, Leaf)), Bin(Leaf, c, Leaf));
      && Ordered(t) && Inorder(t) == [a, b, c] && Find(t, a.key) == a
      && Inorder(Balanced(t)) == [b, c, a] && Find(Balanced(t), a.key) == b
  {
    hide Balanced;
    RightChain(a, b, c);
    var t2 := Bin(Leaf, b, Bin(Leaf, c, Leaf));
    assert Insert(Bin(Leaf, b, Leaf), Bin(Leaf, c, Leaf)) == t2;
    assert Insert(Bin(Leaf, a, Leaf), Bin(Leaf, b, Leaf)) == Bin(Leaf, a, Bin(Leaf, b, Leaf));
    assert Nodes(Bin(Leaf, c, Leaf)) == {c} && Ordered(Bin(Leaf, c, Leaf));
    assert Nodes(t2) == {b, c} && Ordered(t2);
    assert Inorder(Bin(Leaf, c, Leaf)) == [c] && Inorder(t2) == [b, c];
    assert Inorder(Bin(Leaf, a, Leaf)) == [a] && Inorder(Bin(Leaf, c, Bin(Leaf, a, Leaf))) == [c, a];
  }

  lemma RightChain(a: Node, b: Node, c: Node)
    requires a.key == b.key == c.key
    ensures Balanced(Bin(Leaf, a, Bin(Leaf, b, Bin(Leaf, c, Leaf)))) == Bin(Leaf, b, Bin(Leaf, c, Bin(Leaf, a, Leaf)))
  {
    hide Strict, Ordered;
    var t3 := Bin(Leaf, c, Leaf);
    var t2 := Bin(Leaf, b, t3);
    var t := Bin(Leaf, a, t2);
    assert Spine(t3, false) == 0;
    assert Spine(t2, false) == 1;
    assert Spine(t, false) == 2 && Spine(t, true) == 0;
    var s2 := Bin(Leaf, c, Bin(Leaf, a, Leaf));
    assert Insert(t3, Bin(Leaf, a, Leaf)) == s2;
    assert Shuffled(t, true) == Bin(Leaf, b, s2);
    assert Shuffle(t, 1) == Shuffle(Bin(Leaf, b, s2), 0);
    assert Spine(s2, false) == 1 && Spine(s2, true) == 0;
    assert Balanced(s2) == s2;
  }

  /** Balancing can lose a key altogether: adding 5, 1, 5, 6, 7 and 8, in that order, and
      balancing hangs 1 where no search for it comes. */
  lemma KeyLost(a: Node, b: Node, c: Node, d: Node, e: Node, f: Node)
    requires a.key == c.key == 5 && b.key == 1 && d.key == 6 && e.key == 7 && f.key == 8
    ensures var t := Adding(Leaf, [a, b, c, d, e, f]);
      Ordered(t) && Find(t, 1) == b && Find(Balanced(t), 1) == null && b in Nodes(Balanced(t))
  {
    hide Balanced;
    LongChain(a, b, c, d, e, f);
    var n1, n8 := Bin(Leaf, b, Leaf), Bin(Leaf, f, Leaf);
    var n7 := Bin(Leaf, e, n8);
    var n6 := Bin(Leaf, d, n7);
    var n5 := Bin(Leaf, c, n6);
    SixAdded(a, b, c, d, e, f);
    HungOrdered(b, Leaf);
    HungOrdered(f, Leaf);
    HungOrdered(e, n8);
    HungOrdered(d, n7);
    HungOrdered(c, n6);
    BalancedNodes(Bin(n1, a, n5));
  }

  lemma HungOrdered(x: Node, t: Tree)
    requires Ordered(t) && forall n :: n in Nodes(t) ==> x.key <= n.key
    ensures Ordered(Bin(Leaf, x, t)) && Nodes(Bin(Leaf, x, t)) == {x} + Nodes(t)
  {
  }

  /** The tree after adding nodes one by one. */
  function Adding(t: Tree, nodes: seq<Node>): Tree
    decreases |nodes|
  {
    if nodes == [] then t else Adding(Insert(t, Bin(Leaf, nodes[0], Leaf)), nodes[1..])
  }

  lemma SixAdded(a: Node, b: Node, c: Node, d: Node, e: Node, f: Node)
    requires a.key == c.key == 5 && b.key == 1 && d.key == 6 && e.key == 7 && f.key == 8
    ensures Adding(Leaf, [a, b, c, d, e, f]) == Bin(Bin(Leaf, b, Leaf), a,
      Bin(Leaf, c, Bin(Leaf, d, Bin(Leaf, e, Bin(Leaf, f, Leaf)))))
  {
    var n1, n8 := Bin(Leaf, b, Leaf), Bin(Leaf, f, Leaf);
    var n7 := Bin(Leaf, e, Leaf);
    var n6 := Bin(Leaf, d, Leaf);
    var n5 := Bin(Leaf, c, Leaf);
    var n67 := Bin(Leaf, d, n7);
    assert Insert(n5, n6) == Bin(Leaf, c, n6) && Insert(n6, n7) == n67 && Insert(n7, n8) == Bin(Leaf, e, n8);
    assert Insert(Bin(Leaf, c, n6), n7) == Bin(Leaf, c, n67);
    assert Insert(n67, n8) == Bin(Leaf, d, Bin(Leaf, e, n8));
    assert Insert(Bin(Leaf, c, n67), n8) == Bin(Leaf, c, Bin(Leaf, d, Bin(Leaf, e, n8)));
    AddingStep(Leaf, [a, b, c, d, e, f]);
    AddingStep(Bin(Leaf, a, Leaf), [b, c, d, e, f]);
    AddingStep(Bin(n1, a, Leaf), [c, d, e, f]);
    AddingStep(Bin(n1, a, n5), [d, e, f]);
    AddingStep(Bin(n1, a, Bin(Leaf, c, n6)), [e, f]);
    AddingStep(Bin(n1, a, Bin(Leaf, c, n67)), [f]);
  }

  lemma AddingStep(t: Tree, nodes: seq<Node>)
    requires nodes != []
    ensures Adding(t, nodes) == Adding(Insert(t, Bin(Leaf, nodes[0], Leaf)), nodes[1..])
    ensures |nodes| == 1 ==> Adding(t, nodes) == Insert(t, Bin(Leaf, nodes[0], Leaf))
  {
  }

  lemma LongChain(a: Node, b: Node, c: Node, d: Node, e: Node, f: Node)
    requires a.key == c.key == 5 && b.key == 1 && d.key == 6 && e.key == 7 && f.key == 8
    ensures var n1, n7 := Bin(Leaf, b, Leaf), Bin(Leaf, e, Bin(Leaf, f, Leaf));
      Balanced(Bin(n1, a, Bin(Leaf, c, Bin(Leaf, d, n7)))) == Bin(Leaf, c, Bin(Bin(n1, a, Leaf), d, n7))
  {
    hide Strict, Ordered;
    var n1, n8 := Bin(Leaf, b, Leaf), Bin(Leaf, f, Leaf);
    var n7 := Bin(Leaf, e, n8);
    var n6 := Bin(Leaf, d, n7);
    var n5 := Bin(Leaf, c, n6);
    var t := Bin(n1, a, n5);
    assert Spine(n1, true) == Spine(n1, false) == Spine(n8, true) == Spine(n8, false) == 0;
    assert Spine(n7, false) == 1 && Spine(n7, true) == 0 && Spine(n6, false) == 2 && Spine(n5, false) == 3;
    assert Spine(t, false) == 4 && Spine(t, true) == 1 && Tilt(t) == 1;
    var low := Bin(n1, a, Leaf);
    var s := Bin(low, d, n7);
    assert Insert(n6, low) == s;
    assert Shuffled(t, true) == Bin(Leaf, c, s);
    assert Shuffle(t, 1) == Shuffle(Bin(Leaf, c, s), 0);
    assert Spine(low, true) == 1 && Spine(low, false) == 0 && Spine(s, true) == 2 && Spine(s, false) == 2;
    assert Balanced(n1) == n1 && Balanced(n8) == n8;
    assert Tilt(n7) == 0 && Balanced(n7) == n7;
    assert Tilt(low) == 0 && Balanced(low) == low;
    assert Tilt(s) == 0 && Balanced(s) == s;
  }

  // ---- When one shuffle keeps order and searches ----

  ghost predicate AtLeast(t: Tree, key: nat) { forall n :: n in Nodes(t) ==> key <= n.key }

  lemma RootAbove(t: Tree, key: nat)
    requires t.Bin? && Ordered(t) && AtLeast(t, key) && t.left.Bin?
    ensures key < t.node.key
  {
    assert t.left.node in Nodes(t.left) && t.left.node in Nodes(t);
  }

  /** Under a node with the key of `x`, the walk for a place goes right. */
  lemma {:induction false} InsertEqual(t: Tree, l: Tree, x: Node, key: nat)
    requires Ordered(t) && AtLeast(t, x.key) && !Over(t, x.key)
    ensures var r := Insert(t, Bin(l, x, Leaf));
      && Inorder(r) != [] && Inorder(r)[0] in Nodes(t)
      && (key <= x.key ==> Find(r, key) == Find(t, key) && (key < x.key ==> Find(r, key) == null))
  {
    var u := Bin(l, x, Leaf);
    assert t.Bin? && t.node in Nodes(t);
    if t.left.Bin? { RootAbove(t, x.key); }
    if t.node.key == x.key {
      assert Inorder(Insert(t, u)) == [t.node] + Inorder(Insert(t.right, u));
    } else {
      InsertEqual(t.left, l, x, key);
    }
  }

  lemma {:induction false} FindLow(t: Tree, l: Tree, x: Node, key: nat)
    requires Over(t, x.key)
    ensures Find(Insert(t, Bin(l, x, Leaf)), key) == Find(Bin(l, x, t), key)
  {
    if t.Bin? {
      assert t.node in Nodes(t) && Over(t.left, x.key);
      FindLow(t.left, l, x, key);
    }
  }

  lemma {:induction false} FindHigh(t: Tree, x: Node, r: Tree, key: nat)
    requires Under(t, x.key)
    ensures Find(Insert(t, Bin(Leaf, x, r)), key) == Find(Bin(t, x, r), key)
  {
    if t.Bin? {
      assert t.node in Nodes(t) && Under(t.right, x.key);
      FindHigh(t.right, x, r, key);
    }
  }

  /** The case to watch for: a child moves up from the right although the key of the root
      occurs there too. */
  ghost predicate Tied(t: Tree, right: bool)
    requires t.Bin?
  {
    right && !Over(t.right, t.node.key)
  }

  /** One shuffle of a search tree keeps the order of the nodes if and only if it is not tied. */
  lemma ShuffledInorderIff(t: Tree, right: bool)
    requires t.Bin? && Ordered(t) && t.node !in Nodes(t.right)
    requires if right then t.right.Bin? else t.left.Bin?
    ensures Inorder(Shuffled(t, right)) == Inorder(t) <==> !Tied(t, right)
  {
    hide Insert;
    if !right {
      InsertHigh(t.left, t.node, t.right);
      Regroup(Inorder(t.left), [t.node], Inorder(t.right));
    } else if Over(t.right, t.node.key) {
      InsertLow(t.right, t.left, t.node);
    } else {
      InsertEqual(t.right, t.left, t.node, 0);
      InorderNodes(t.left);
      var first := (Inorder(t.left) + [t.node])[0];
      assert Inorder(t)[0] == first;
    }
  }

  /** And it changes the result of no search if and only if it is not tied. */
  lemma ShuffledFindsIff(t: Tree, right: bool)
    requires t.Bin? && Ordered(t) && t.node !in Nodes(t.right)
    requires if right then t.right.Bin? else t.left.Bin?
    ensures (forall key :: Find(Shuffled(t, right), key) == Find(t, key)) <==> !Tied(t, right)
  {
    if Tied(t, right) {
      TiedFindsOther(t);
    } else {
      forall key ensures Find(Shuffled(t, right), key) == Find(t, key) {
        if right { FindLow(t.right, t.left, t.node, key); } else { FindHigh(t.left, t.node, t.right, key); }
      }
    }
  }

  lemma TiedFindsOther(t: Tree)
    requires t.Bin? && t.right.Bin? && Ordered(t) && Tied(t, true) && t.node !in Nodes(t.right)
    ensures Find(Shuffled(t, true), t.node.key) != Find(t, t.node.key)
  {
    InsertEqual(t.right, t.left, t.node, t.node.key);
    FindSome(t.right, t.node.key);
  }

  /** A tied shuffle loses every key to the left of the root. */
  lemma TiedLoses(t: Tree, key: nat)
    requires t.Bin? && t.right.Bin? && Ordered(t) && Tied(t, true) && key < t.node.key
    ensures Find(Shuffled(t, true), key) == null
  {
    InsertEqual(t.right, t.left, t.node, key);
  }
}

/** The linked tree, walked and relinked in place. */
module BTree {
  import opened Trees

  /** The nodes reachable from `n` form the tree `t`, each linked from one place only. */
  ghost predicate Holds(n: Node?, t: Tree)
    reads Nodes(t)
    decreases t
  {
    match t
    case Leaf => n == null
    case Bin(l, x, r) =>
      && n == x && x !in Nodes(l) && x !in Nodes(r) && Nodes(l) !! Nodes(r)
      && Holds(x.left, l) && Holds(x.right, r)
  }

  /** Where a walk for a place to insert `key` ends. */
  ghost function Last(t: Tree, key: nat): Node
    requires t.Bin?
  {
    var next := if key < t.node.key then t.left else t.right;
    if next.Leaf? then t.node else Last(next, key)
  }

  lemma {:induction false} LastIn(t: Tree, key: nat)
    requires t.Bin?
    ensures Last(t, key) in Nodes(t)
  {
    var next := if key < t.node.key then t.left else t.right;
    if next.Bin? { LastIn(next, key); }
  }

  /** The nodes of a tree all exist already. */
  lemma {:induction false} NodesExist(t: Tree)
    ensures forall x :: x in Nodes(t) ==> allocated(x)
  {
    if t.Bin? {
      NodesExist(t.left);
      NodesExist(t.right);
    }
  }

  // ---- Links as values ----

  type Links = map<Node, Node?>

  ghost function Lefts(s: set<Node>): Links
    reads s
  {
    map x | x in s :: x.left
  }

  ghost function Rights(s: set<Node>): Links
    reads s
  {
    map x | x in s :: x.right
  }

  /** `Holds`, said of given links. */
  ghost predicate HoldsIn(l: Links, r: Links, n: Node?, t: Tree)
    decreases t
  {
    match t
    case Leaf => n == null
    case Bin(a, x, b) =>
      && n == x && x in l && x in r && x !in Nodes(a) && x !in Nodes(b) && Nodes(a) !! Nodes(b)
      && HoldsIn(l, r, l[x], a) && HoldsIn(l, r, r[x], b)
  }

  lemma {:induction false} Snapshot(n: Node?, t: Tree, s: set<Node>)
    requires Nodes(t) <= s
    ensures Holds(n, t) <==> HoldsIn(Lefts(s), Rights(s), n, t)
    decreases t
  {
    if t.Bin? {
      assert t.node in Nodes(t);
      Snapshot(t.node.left, t.left, s);
      Snapshot(t.node.right, t.right, s);
    }
  }

  lemma {:induction false} Elsewhere(l: Links, r: Links, n: Node?, t: Tree, p: Node, q: Node)
    requires HoldsIn(l, r, n, t) && p !in Nodes(t)
    ensures HoldsIn(l[p := q], r, n, t) && HoldsIn(l, r[p := q], n, t)
    decreases t
  {
    if t.Bin? {
      Elsewhere(l, r, l[t.node], t.left, p, q);
      Elsewhere(l, r, r[t.node], t.right, p, q);
    }
  }

  /** Setting the one link where the walk ends makes the tree the one with `u` inserted. */
  lemma {:induction false} HungHolds(l: Links, r: Links, n: Node, t: Tree, u: Tree)
    requires t.Bin? && u.Bin? && HoldsIn(l, r, n, t) && HoldsIn(l, r, u.node, u) && Nodes(t) !! Nodes(u)
    ensures var p, q := Last(t, u.node.key), u.node;
      if q.key < p.key then HoldsIn(l[p := q], r, n, Insert(t, u)) && HoldsIn(l[p := q], r, q, u)
      else HoldsIn(l, r[p := q], n, Insert(t, u)) && HoldsIn(l, r[p := q], q, u)
    decreases t
  {
    var p, q := Last(t, u.node.key), u.node;
    LastIn(t, q.key);
    Elsewhere(l, r, q, u, p, q);
    if q.key < t.node.key {
      InsertNodes(t.left, u);
      if t.left.Bin? {
        LastIn(t.left, q.key);
        HungHolds(l, r, l[n], t.left, u);
      }
      Elsewhere(l, r, r[n], t.right, p, q);
    } else {
      InsertNodes(t.right, u);
      if t.right.Bin? {
        LastIn(t.right, q.key);
        HungHolds(l, r, r[n], t.right, u);
      }
      Elsewhere(l, r, l[n], t.left, p, q);
    }
  }

  // ---- The operations ----

  /** Walks down to a free place and hangs `newnode`, with whatever is below it, there. */
  method Hang(root: Node, newnode: Node, ghost t: Tree, ghost u: Tree)
    requires Holds(root, t) && Holds(newnode, u) && Nodes(t) !! Nodes(u)
    modifies Nodes(t)
    ensures Holds(root, Insert(t, u)) && Holds(newnode, u)
  {
    hide Insert;
    var node := root;
    ghost var c := t;
    ghost var s := Nodes(t) + Nodes(u);
    ghost var l, r := Lefts(s), Rights(s);
    Snapshot(root, t, s);
    Snapshot(newnode, u, s);
    HungHolds(l, r, root, t, u);
    InsertNodes(t, u);
    while true
      invariant c.Bin? && Holds(node, c) && Nodes(c) <= Nodes(t) && Last(c, newnode.key) == Last(t, newnode.key)
      invariant Lefts(s) == l && Rights(s) == r
      decreases c
    {
      if newnode.key < node.key {
        if node.left == null {
          node.left := newnode;
          assert Lefts(s) == l[node := newnode] && Rights(s) == r;
          break;
        }
        node := node.left;
        c := c.left;
      } else {
        if node.right == null {
          node.right := newnode;
          assert Lefts(s) == l && Rights(s) == r[node := newnode];
          break;
        }
        node := node.right;
        c := c.right;
      }
    }
    Snapshot(root, Insert(t, u), s);
    Snapshot(newnode, u, s);
  }

  method Add(root: Node?, key: nat, value: nat, ghost t: Tree) returns (top: Node, ghost n: Node)
    requires Holds(root, t)
    modifies Nodes(t)
    ensures fresh(n) && n.key == key && n.value == value
    ensures Holds(top, Insert(t, Bin(Leaf, n, Leaf)))
  {
    NodesExist(t);
    var newnode := new Node(key, value);
    n := newnode;
    if root == null {
      top := newnode;
    } else {
      Hang(root, newnode, t, Bin(Leaf, n, Leaf));
      top := root;
    }
  }

  method Get(root: Node?, key: nat, ghost t: Tree) returns (n: Node?)
    requires Holds(root, t)
    ensures n == Find(t, key)
  {
    n := root;
    ghost var c := t;
    while n != null
      invariant Holds(n, c) && Find(c, key) == Find(t, key)
      decreases c
    {
      if key == n.key { return; }
      if key < n.key {
        n := n.left;
        c := c.left;
      } else {
        n := n.right;
        c := c.right;
      }
    }
  }

  method Iterate(root: Node?, stop: Node -> bool, seen: seq<Node>, ghost t: Tree) returns (all: seq<Node>)
    requires Holds(root, t)
    ensures all == seen + Visited(t, stop)
    decreases t
  {
    hide Nodes;
    NodesExist(t);
    all := seen;
    if root == null { return; }
    NodesExist(t.left);
    NodesExist(t.right);
    if root.left != null { all := Iterate(root.left, stop, all, t.left); }
    assert Holds(root.right, t.right) && all == seen + Visited(t.left, stop);
    all := all + [root];
    if stop(root) { return; }
    if root.right != null { all := Iterate(root.right, stop, all, t.right); }
  }

  /** Nodes on the left or right spine; one less than the loop counts. */
  method CountSpine(root: Node?, left: bool, ghost t: Tree) returns (count: int)
    requires Holds(root, t)
    ensures Holds(root, t) && count == if t.Leaf? then -1 else Spine(t, left)
  {
    var node, i := root, 0;
    ghost var c := t;
    while node != null
      invariant Holds(node, c)
      invariant i + (if c.Leaf? then 0 else Spine(c, left) + 1) == if t.Leaf? then 0 else Spine(t, left) + 1
      decreases c
    {
      node := if left then node.left else node.right;
      c := if left then c.left else c.right;
      i := i + 1;
    }
    count := i - 1;
  }

  /** One shuffle: the old root, cut from its child, is hung under it. */
  method ShuffleRoot(root: Node, right: bool, ghost t: Tree) returns (top: Node)
    requires Holds(root, t) && (if right then t.right.Bin? else t.left.Bin?)
    modifies Nodes(t)
    ensures Holds(top, Shuffled(t, right))
  {
    hide Insert;
    ghost var s := Nodes(t);
    ghost var l, r := Lefts(s), Rights(s);
    Snapshot(root.left, t.left, s);
    Snapshot(root.right, t.right, s);
    if right {
      top := root.right;
      root.right := null;
      ghost var u := Bin(t.left, t.node, Leaf);
      CutOne(root, t, l, r, true);
      Hang(top, root, t.right, u);
    } else {
      top := root.left;
      root.left := null;
      ghost var u := Bin(Leaf, t.node, t.right);
      CutOne(root, t, l, r, false);
      Hang(top, root, t.left, u);
    }
  }

  /** After a link of the root has been cleared its two subtrees still hold. */
  lemma CutOne(root: Node, t: Tree, l: Links, r: Links, right: bool)
    requires t.Bin? && root == t.node && root !in Nodes(t.left) && root !in Nodes(t.right)
    requires root in l && root in r && HoldsIn(l, r, l[root], t.left) && HoldsIn(l, r, r[root], t.right)
    requires Lefts(Nodes(t)).Keys == Nodes(t)
    requires forall x :: x in Nodes(t) && x != root ==> x in l && x in r && x.left == l[x] && x.right == r[x]
    ensures Holds(l[root], t.left) && Holds(r[root], t.right)
  {
    var s := Nodes(t) - {root};
    SameIn(l, r, l[root], t.left, Lefts(s), Rights(s));
    SameIn(l, r, r[root], t.right, Lefts(s), Rights(s));
    Snapshot(l[root], t.left, s);
    Snapshot(r[root], t.right, s);
  }

  lemma {:induction false} SameIn(l: Links, r: Links, n: Node?, t: Tree, l': Links, r': Links)
    requires HoldsIn(l, r, n, t)
    requires forall x :: x in Nodes(t) && x in l && x in r ==> x in l' && x in r' && l'[x] == l[x] && r'[x] == r[x]
    ensures HoldsIn(l', r', n, t)
    decreases t
  {
    if t.Bin? {
      SameIn(l, r, l[n], t.left, l', r');
      SameIn(l, r, r[n], t.right, l', r');
    }
  }

  method ShuffleSpine(root: Node, tilt: int, ghost t: Tree) returns (node: Node)
    requires Holds(root, t) && Enough(t, tilt)
    modifies Nodes(t)
    ensures Holds(node, Shuffle(t, tilt)) && Nodes(Shuffle(t, tilt)) == Nodes(t)
  {
    hide Shuffled, Holds, Nodes, Size, Spine;
    var m := tilt;
    ghost var s := t;
    node := root;
    while m != 0
      invariant Enough(s, m) && Holds(node, s) && Nodes(s) == Nodes(t) && Shuffle(s, m) == Shuffle(t, tilt)
      decreases if m < 0 then -m else m
    {
      ShuffleLeaves(s, m);
      ShuffledNodes(s, m > 0);
      node := ShuffleRoot(node, m > 0, s);
      s := Shuffled(s, m > 0);
      m := if m > 0 then m - 1 else m + 1;
    }
  }

  /** Shuffles the root until the spines are even, then balances what is below it. It never
      follows a missing link. */
  method Balance(root: Node?, ghost t: Tree) returns (top: Node?)
    requires Holds(root, t)
    modifies Nodes(t)
    ensures Holds(top, Balanced(t))
    decreases Size(t), 1
  {
    hide Shuffle, Nodes, Size, Spine;
    if root == null { return null; }
    var right := CountSpine(root, false, t);
    var left := CountSpine(root, true, t);
    TiltFits(t);
    var node := ShuffleSpine(root, Half(right - left), t);
    BalanceBelow(node, Shuffle(t, Tilt(t)));
    top := node;
  }

  method BalanceBelow(node: Node, ghost s: Tree)
    requires Holds(node, s)
    modifies Nodes(s)
    ensures Holds(node, Bin(Balanced(s.left), s.node, Balanced(s.right)))
    decreases Size(s), 0
  {
    hide Balanced;
    NodesExist(s);
    BalancedNodes(s.left);
    BalancedNodes(s.right);
    var l := Balance(node.left, s.left);
    node.left := l;
    NodesExist(Balanced(s.left));
    var r := Balance(node.right, s.right);
    node.right := r;
  }
}
