/** How balancing balances: which node becomes the root, and the heights of balanced chains. */
module Balance {
  import opened Words
  import opened Trees

  function Child(t: Tree, left: bool): Tree
    requires t.Bin?
  {
    if left then t.left else t.right
  }

  // ---- The new root ----

  /** The node `i` steps down the left or the right spine. */
  function Down(t: Tree, left: bool, i: nat): Node
    requires t.Bin? && i <= Spine(t, left)
    decreases i
  {
    if i == 0 then t.node else Down(Child(t, left), left, i - 1)
  }

  /** Whatever is inserted goes to the end of a spine, if to the spine at all. */
  lemma {:induction false} InsertDown(t: Tree, u: Tree, left: bool, i: nat)
    requires t.Bin? && u.Bin? && i <= Spine(t, left)
    ensures Insert(t, u).Bin? && i <= Spine(Insert(t, u), left) && Down(Insert(t, u), left, i) == Down(t, left, i)
    decreases i
  {
    InsertSpine(t, u, left);
    if i > 0 { InsertDown(Child(t, left), u, left, i - 1); }
  }

  lemma ShuffledDown(t: Tree, right: bool, i: nat)
    requires t.Bin? && i + 1 <= Spine(t, !right)
    ensures var s := Shuffled(t, right);
      s.Bin? && i <= Spine(s, !right) && Down(s, !right, i) == Down(t, !right, i + 1)
  {
    InsertDown(Child(t, !right), if right then Bin(t.left, t.node, Leaf) else Bin(Leaf, t.node, t.right), !right, i);
  }

  lemma {:induction false} ShuffledRoot(t: Tree, m: int)
    requires Enough(t, m)
    ensures Shuffle(t, m).node == if m >= 0 then Down(t, false, m) else Down(t, true, -m)
    decreases if m < 0 then -m else m
  {
    if m != 0 {
      ShuffleLeaves(t, m);
      ShuffledDown(t, m > 0, if m > 0 then m - 1 else -m - 1);
      ShuffledRoot(Shuffled(t, m > 0), if m > 0 then m - 1 else m + 1);
    }
  }

  /** For every tree, the new root is the node half as many steps down the longer spine as it
      is longer than the other. */
  lemma BalancedRoot(t: Tree)
    requires t.Bin?
    ensures var l, r := Spine(t, true), Spine(t, false);
      Balanced(t).node == if r >= l then Down(t, false, (r - l) / 2) else Down(t, true, (l - r) / 2)
  {
    hide Balanced, Shuffle, Spine;
    TiltFits(t);
    ShuffledRoot(t, Tilt(t));
    TopOfBalanced(t);
  }

  lemma TopOfBalanced(t: Tree)
    requires t.Bin? && Enough(t, Tilt(t))
    ensures Balanced(t).node == Shuffle(t, Tilt(t)).node
  {
    hide Shuffle, Spine, Tilt, Enough;
  }

  // ---- Chains ----

  /** All nodes hang to one side. */
  ghost predicate Chain(t: Tree, left: bool) {
    t.Bin? ==> Child(t, !left).Leaf? && Chain(Child(t, left), left)
  }

  /** A node with a chain on either side, each leading outwards. */
  ghost predicate Vee(t: Tree) { t.Bin? && Strict(t) && Chain(t.left, true) && Chain(t.right, false) }

  lemma {:induction false} ChainSpine(t: Tree, left: bool)
    requires t.Bin? && Chain(Child(t, left), left)
    ensures Spine(t, left) == Size(Child(t, left))
    decreases t
  {
    if Child(t, left).Bin? { ChainSpine(Child(t, left), left); }
  }

  lemma VeeShuffled(t: Tree, right: bool)
    requires Vee(t) && Child(t, !right).Bin?
    ensures var s := Shuffled(t, right);
      && Vee(s)
      && Size(s.left) == Size(t.left) + (if right then 1 else -1)
      && Size(s.right) == Size(t.right) + (if right then -1 else 1)
  {
    var c := Child(t, !right);
    assert c.node in Nodes(c);
    assert Child(c, right).Leaf? && (if right then t.node.key < c.node.key else c.node.key < t.node.key);
    var u := if right then Bin(t.left, t.node, Leaf) else Bin(Leaf, t.node, t.right);
    assert Insert(Leaf, u) == u && Child(c, right) == Leaf;
    assert Insert(c, u) == if right then Bin(u, c.node, c.right) else Bin(c.left, c.node, u);
    ShuffledStrict(t, right);
  }

  lemma {:induction false} VeeShuffle(t: Tree, m: int)
    requires Vee(t) && 0 - Size(t.left) <= m <= Size(t.right)
    ensures Enough(t, m)
    ensures var s := Shuffle(t, m);
      Vee(s) && Size(s.left) == Size(t.left) + m && Size(s.right) == Size(t.right) - m
    decreases if m < 0 then -m else m
  {
    hide Strict, Chain, Shuffled, Spine, Nodes;
    VeeSpines(t);
    if m != 0 {
      ShuffleLeaves(t, m);
      VeeShuffled(t, m > 0);
      VeeShuffle(Shuffled(t, m > 0), if m > 0 then m - 1 else m + 1);
    }
  }

  lemma VeeSpines(t: Tree)
    requires Vee(t)
    ensures Spine(t, true) == Size(t.left) && Spine(t, false) == Size(t.right)
  {
    ChainSpine(t, true);
    ChainSpine(t, false);
  }

  /** At every node the subtrees differ by one node at most. */
  ghost predicate Even(t: Tree) {
    t.Bin? ==> -1 <= Size(t.left) - Size(t.right) <= 1 && Even(t.left) && Even(t.right)
  }

  function Height(t: Tree): nat {
    if t.Leaf? then 0 else 1 + if Height(t.left) > Height(t.right) then Height(t.left) else Height(t.right)
  }

  /** A chain with its nodes on both sides of it, or on one, is balanced evenly. */
  lemma {:induction false} VeeEven(t: Tree)
    requires Vee(t)
    ensures Even(Balanced(t)) && Size(Balanced(t)) == Size(t)
    decreases Size(t)
  {
    hide Strict, Chain, Shuffle, Spine, Nodes;
    VeeSpines(t);
    TiltFits(t);
    var m := Tilt(t);
    VeeShuffle(t, m);
    var s := Shuffle(t, m);
    VeeParts(s);
    if s.left.Bin? { VeeEven(s.left); }
    if s.right.Bin? { VeeEven(s.right); }
  }

  lemma VeeParts(t: Tree)
    requires Vee(t)
    ensures t.left.Bin? ==> Vee(t.left)
    ensures t.right.Bin? ==> Vee(t.right)
  {
  }

  /** Evenly balanced trees are as low as they can be. */
  lemma {:induction false} EvenHeight(t: Tree)
    requires Even(t)
    ensures Size(t) < Pow2(Height(t)) && (t.Bin? ==> Pow2(Height(t) - 1) <= Size(t))
  {
    if t.Bin? {
      EvenHeight(t.left);
      EvenHeight(t.right);
      var h := Height(t) - 1;
      Pow2Grows(Height(t.left), h);
      Pow2Grows(Height(t.right), h);
      assert Pow2(h + 1) == 2 * Pow2(h) && (h > 0 ==> Pow2(h) == 2 * Pow2(h - 1));
    }
  }

  lemma {:induction false} Pow2Grows(j: nat, k: nat)
    requires j <= k
    ensures Pow2(j) <= Pow2(k)
    decreases k
  {
    if j < k { Pow2Grows(j, k - 1); }
  }

  lemma ChainEven(t: Tree, left: bool)
    requires Strict(t) && Chain(t, left)
    ensures Even(Balanced(t)) && Size(Balanced(t)) == Size(t)
  {
    hide Strict, Spine;
    if t.Bin? { VeeEven(t); }
  }

  /** A chain of distinct keys, in either direction, comes out with the least height there is
      for its number of nodes: `k` for 2^k - 1 nodes. */
  lemma ChainBalanced(t: Tree, left: bool, k: nat)
    requires Strict(t) && Chain(t, left)
    ensures Even(Balanced(t)) && Size(Balanced(t)) == Size(t)
    ensures Size(t) < Pow2(k) <= 2 * Size(t) + 1 ==> Height(Balanced(t)) == k
  {
    hide Strict, Chain, Even, Balanced, Size, Height, Pow2;
    ChainEven(t, left);
    if Size(t) < Pow2(k) <= 2 * Size(t) + 1 { LeastHeight(Balanced(t), k); }
  }

  lemma PowersAbove(k: nat)
    ensures Pow2(0) == 1 && (k > 0 ==> Pow2(k) == 2 * Pow2(k - 1) >= 2)
  {
  }

  lemma LeastHeight(t: Tree, k: nat)
    requires Even(t) && Size(t) < Pow2(k) <= 2 * Size(t) + 1
    ensures Height(t) == k
  {
    hide Even, Pow2;
    var h := Height(t);
    EvenHeight(t);
    PowersAbove(h);
    PowersAbove(k);
    if h < k { Pow2Grows(h, k - 1); }
    if k < h { Pow2Grows(k, h - 1); }
  }
}
