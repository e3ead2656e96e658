/** The disassembler's two passes: the first numbers the targets of references, the second
    prints a label in front of each numbered position and the number in each reference. */
module Disasm {
  import opened Words
  import opened Isa

  const TSTI: byte := 0x7c

  /** Bytes the first pass consumes for an instruction, opcode included. */
  function OneSize(op: byte, w: Width): nat {
    if IsImm32(op) then 5
    else if IsOneReg(op) || IsOneRegW(op) then 2
    else if IsOffset(op) && op != JMP then 5
    else if op == REFER || op == ALLOC then 6
    else if IsRegSet(op) || op == DIV then 4
    else if IsImmReg(op) || IsShiftImm(op) || op == FLOAD then 10
    else if IsTwoReg(op) || op == TSTI then 3
    else if op == DIVI then 3 + w.Bytes()
    else 1
  }

  /** Bytes the second pass consumes. */
  function TwoSize(op: byte, w: Width): nat {
    if IsImm32(op) then 5
    else if IsOneReg(op) || IsOneRegW(op) then 2
    else if IsOffset(op) then 5
    else if op == REFER || op == ALLOC then 6
    else if IsRegSet(op) || op == DIV then 4
    else if IsImmReg(op) || IsShiftImm(op) || op == TSTI || IsTwoReg(op) then 3
    else if op == FLOAD then 10
    else if op == DIVI then 3 + w.Bytes()
    else 1
  }

  /** Opcodes that both passes take to be of the same size. */
  predicate Alike(op: byte) { op != JMP && !IsImmReg(op) && !IsShiftImm(op) }

  lemma AlikeIff(op: byte, w: Width)
    ensures OneSize(op, w) == TwoSize(op, w) <==> Alike(op)
  {
  }

  /** For those, and for `jmp` and byte-wide immediates, the second pass consumes what the
      machine does. */
  lemma TwoSizeIsFetched(m: seq<byte>, p: nat)
    ensures var f := Decode(m, p);
      f.Some? ==>
        (f.value.next == p + TwoSize(OpcodeOf(m[p]), WidthOf(m[p] % 4)) <==> !(f.value.i.ImmReg? && f.value.i.w != B))
  {
    hide LoadW;
  }

  /** The first pass consumes what the machine does, except for `jmp`, shifts and rotates by an
      immediate, and immediates of the load group narrower than 64 bits. */
  lemma OneSizeIsFetched(m: seq<byte>, p: nat)
    ensures var f := Decode(m, p);
      f.Some? ==>
        (f.value.next == p + OneSize(OpcodeOf(m[p]), WidthOf(m[p] % 4)) <==>
          !(f.value.i.Offset? && f.value.i.op == JMP) && !f.value.i.ShiftImm?
          && !(f.value.i.ImmReg? && f.value.i.w != X))
  {
    hide LoadW;
  }

  predicate References(op: byte) { IsOffset(op) || op == REFER }

  /** The target of the reference at `p`, as the machine computes it for code at address 0. */
  function Target(m: seq<byte>, p: nat): u32
    requires p + 5 <= |m|
  {
    (p + 9 + LoadW(m, p + 1, L)) % TWO32
  }

  /** The keys the first pass enters for the code from `p` on, its position count being
      `pos`. The walk ends where the file does, even inside an instruction. */
  function Entered(m: seq<byte>, p: nat, pos: u32): seq<u32>
    decreases |m| - p
  {
    if p >= |m| then [] else
    var op, n := OpcodeOf(m[p]), OneSize(OpcodeOf(m[p]), WidthOf(m[p] % 4));
    if p + n > |m| then [] else
    (if References(op) && op != JMP then [(pos + 5 + LoadW(m, p + 1, L)) % TWO32] else [])
    + Entered(m, p + n, (pos + n) % TWO32)
  }

  /** The count starts at 4, from reading the version in the header. */
  function Keys(m: seq<byte>): seq<u32> { Entered(m, 0, 4) }

  /** The number a position has: 1 for position 0, the others from 2 in the order in which
      they were entered; the tree finds the first one entered. 0 if there is none. */
  function Number(keys: seq<u32>, key: u32): nat {
    if key == 0 then 1 else NumberFrom(keys, key, 2)
  }

  function NumberFrom(keys: seq<u32>, key: u32, next: nat): nat
    decreases |keys|
  {
    if keys == [] then 0 else if keys[0] == key then next else NumberFrom(keys[1..], key, next + 1)
  }

  /** What the second pass prints for an instruction: the number of the label in front of it
      and the number in its reference, 0 for none. */
  datatype Printed = Printed(at: nat, front: nat, ref: nat)

  function Line(m: seq<byte>, keys: seq<u32>, p: nat, pos: u32): Printed
    requires p < |m| && (References(OpcodeOf(m[p])) ==> p + 5 <= |m|)
  {
    Printed(p, Number(keys, pos),
            if References(OpcodeOf(m[p])) then Number(keys, (pos + 5 + LoadW(m, p + 1, L) + 4) % TWO32) else 0)
  }

  function Listed(m: seq<byte>, keys: seq<u32>, p: nat, pos: u32): seq<Printed>
    decreases |m| - p
  {
    if p >= |m| then [] else
    var op, n := OpcodeOf(m[p]), TwoSize(OpcodeOf(m[p]), WidthOf(m[p] % 4));
    if p + n > |m| then [] else
    [Line(m, keys, p, pos)] + Listed(m, keys, p + n, (pos + n) % TWO32)
  }

  function Listing(m: seq<byte>): seq<Printed> { Listed(m, Keys(m), 0, 0) }

  // ---- Numbers ----

  lemma {:induction false} NumberFromIff(keys: seq<u32>, key: u32, next: nat)
    requires next > 0
    ensures NumberFrom(keys, key, next) != 0 <==> key in keys
    ensures var n := NumberFrom(keys, key, next); n != 0 ==> next <= n < next + |keys| && keys[n - next] == key
    decreases |keys|
  {
    if keys != [] { NumberFromIff(keys[1..], key, next + 1); }
  }

  /** Two positions have the same number only if they are the same position: a target that
      several references reach keeps one name, and different targets have different names. */
  lemma NumbersDistinct(keys: seq<u32>, a: u32, b: u32)
    requires Number(keys, a) == Number(keys, b) != 0
    ensures a == b
  {
    NumberFromIff(keys, a, 2);
    NumberFromIff(keys, b, 2);
  }

  // ---- The passes agree ----

  lemma ReferenceSize(op: byte, w: Width)
    ensures References(op) ==> TwoSize(op, w) >= 5 && (Alike(op) ==> op != JMP)
    ensures References(op) && op != JMP ==> OneSize(op, w) >= 5
    ensures OneSize(op, w) > 0 && TwoSize(op, w) > 0
  {
  }

  /** From `p` on, all instructions the first pass sees are of the same size to both. */
  predicate AllAlike(m: seq<byte>, p: nat)
    decreases |m| - p
  {
    p >= |m| ||
    var op, n := OpcodeOf(m[p]), OneSize(OpcodeOf(m[p]), WidthOf(m[p] % 4));
    Alike(op) && (p + n <= |m| ==> AllAlike(m, p + n))
  }

  /** Where the second pass sees an instruction. */
  predicate Seen(m: seq<byte>, p: nat, q: nat)
    decreases |m| - p
  {
    p < |m| &&
    var n := TwoSize(OpcodeOf(m[p]), WidthOf(m[p] % 4));
    p + n <= |m| && (q == p || Seen(m, p + n, q))
  }

  lemma ModAdd(a: nat, b: nat, m: nat)
    requires m > 0
    ensures (a % m + b) % m == (a + b) % m
  {
    var q, r := (a % m + b) / m, (a % m + b) % m;
    assert a == a / m * m + a % m;
    assert a % m + b == q * m + r;
    Distribute(a / m, q, m);
    Remainder(a + b, m, a / m + q, r);
  }

  lemma Distribute(x: nat, y: nat, m: nat)
    ensures (x + y) * m == x * m + y * m
  {
  }

  /** The target of every reference the second pass sees has been entered by the first,
      although the two count positions from different starts. */
  lemma {:induction false} TargetsEntered(m: seq<byte>, p: nat, q: nat)
    requires AllAlike(m, p) && Seen(m, p, q)
    ensures q < |m| && (References(OpcodeOf(m[q])) ==> q + 5 <= |m| && Target(m, q) in Entered(m, p, (p + 4) % TWO32))
    decreases |m| - p
  {
    hide LoadW, OneSize, TwoSize, References;
    var op, w := OpcodeOf(m[p]), WidthOf(m[p] % 4);
    AlikeIff(op, w);
    ReferenceSize(op, w);
    var n := OneSize(op, w);
    ModAdd(p + 4, n, TWO32);
    if q == p {
      if References(op) { ModAdd(p + 4, 5 + LoadW(m, p + 1, L), TWO32); }
    } else {
      TargetsEntered(m, p + n, q);
    }
  }

  /** What is printed for the instruction at `q`. */
  function LineAt(m: seq<byte>, keys: seq<u32>, q: nat): Printed
    requires q < |m| && (References(OpcodeOf(m[q])) ==> q + 5 <= |m|)
  {
    Printed(q, Number(keys, q % TWO32), if References(OpcodeOf(m[q])) then Number(keys, Target(m, q)) else 0)
  }

  lemma LineIs(m: seq<byte>, keys: seq<u32>, p: nat)
    requires p < |m| && (References(OpcodeOf(m[p])) ==> p + 5 <= |m|)
    ensures Line(m, keys, p, p % TWO32) == LineAt(m, keys, p)
  {
    hide LoadW, Number, References;
    if References(OpcodeOf(m[p])) {
      var v := LoadW(m, p + 1, L);
      ModAdd(p, 9 + v, TWO32);
      assert p % TWO32 + 5 + v + 4 == p % TWO32 + (9 + v) && p + 9 + v == p + (9 + v);
    }
  }

  lemma ListedStep(m: seq<byte>, keys: seq<u32>, p: nat)
    requires p < |m| && p + TwoSize(OpcodeOf(m[p]), WidthOf(m[p] % 4)) <= |m|
    ensures References(OpcodeOf(m[p])) ==> p + 5 <= |m|
    ensures var n := TwoSize(OpcodeOf(m[p]), WidthOf(m[p] % 4));
      Listed(m, keys, p, p % TWO32) == [LineAt(m, keys, p)] + Listed(m, keys, p + n, (p + n) % TWO32)
  {
    hide Line, LineAt, TwoSize, References, OpcodeOf;
    var op, w := OpcodeOf(m[p]), WidthOf(m[p] % 4);
    ReferenceSize(op, w);
    ModAdd(p, TwoSize(op, w), TWO32);
    LineIs(m, keys, p);
  }

  lemma {:induction false} ListedAt(m: seq<byte>, keys: seq<u32>, p: nat, q: nat)
    requires Seen(m, p, q)
    ensures q < |m| && (References(OpcodeOf(m[q])) ==> q + 5 <= |m|)
    ensures LineAt(m, keys, q) in Listed(m, keys, p, p % TWO32)
    decreases |m| - p
  {
    hide Listed, LineAt, TwoSize, References;
    ReferenceSize(OpcodeOf(m[p]), WidthOf(m[p] % 4));
    ListedStep(m, keys, p);
    if q != p { ListedAt(m, keys, p + TwoSize(OpcodeOf(m[p]), WidthOf(m[p] % 4)), q); }
  }

  /** On code that both passes size alike, every reference is printed with the number of the
      label that is printed in front of its target. */
  lemma ReferencesNamed(m: seq<byte>, q: nat, t: nat)
    requires AllAlike(m, 0) && Seen(m, 0, q) && Seen(m, 0, t) && t < TWO32
    requires q < |m| && References(OpcodeOf(m[q])) && q + 5 <= |m| && Target(m, q) == t
    ensures exists n, r ::
      n > 0 && Printed(q, Number(Keys(m), q % TWO32), n) in Listing(m)
      && Printed(t, n, r) in Listing(m)
  {
    hide LoadW, Number, Entered, Listed;
    var keys := Keys(m);
    ListedAt(m, keys, 0, q);
    ListedAt(m, keys, 0, t);
    TargetsEntered(m, 0, q);
    NumberFound(keys, t);
    var r := if References(OpcodeOf(m[t])) then Number(keys, Target(m, t)) else 0;
    assert Printed(t, Number(keys, t), r) in Listing(m);
  }

  lemma NumberFound(keys: seq<u32>, key: u32)
    ensures key in keys ==> Number(keys, key) > 0
  {
    NumberFromIff(keys, key, 2);
  }

  // ---- Where they do not ----

  lemma {:induction false} NothingEntered(m: seq<byte>, p: nat, pos: u32)
    requires forall k :: p <= k < |m| ==> m[k] == NOP
    ensures Entered(m, p, pos) == []
    decreases |m| - p
  {
    if p < |m| { NothingEntered(m, p + 1, (pos + 1) % TWO32); }
  }

  lemma {:induction false} ZeroLE(s: seq<byte>)
    requires forall k :: 0 <= k < |s| ==> s[k] == 0
    ensures FromLE(s) == 0
  {
    if s != [] { ZeroLE(s[1..]); }
  }

  /** The target of a `jmp`, here the first instruction after it and four `nop`s, is never
      entered, so it is printed without a label. */
  lemma JmpNotNamed(m: seq<byte>)
    requires |m| >= 5 && m[0] == JMP && forall k :: 1 <= k < |m| ==> m[k] == NOP
    ensures !AllAlike(m, 0) && Keys(m) == [] && Target(m, 0) == 9 && Printed(0, 1, 0) in Listing(m)
  {
    hide Listed, LineAt, Entered, AllAlike, Target, References, Seen;
    JmpKeys(m);
    JmpTarget(m);
    ListedAt(m, [], 0, 0);
    NotEntered(m);
  }

  lemma JmpKeys(m: seq<byte>)
    requires |m| >= 5 && m[0] == JMP && forall k :: 1 <= k < |m| ==> m[k] == NOP
    ensures !AllAlike(m, 0) && Keys(m) == []
  {
    hide LoadW;
    NothingEntered(m, 1, 5);
  }

  lemma JmpTarget(m: seq<byte>)
    requires |m| >= 5 && m[0] == JMP && forall k :: 1 <= k < |m| ==> m[k] == NOP
    ensures Target(m, 0) == 9 && Seen(m, 0, 0)
  {
    hide FromLE;
    ZeroLE(m[1..5]);
  }

  lemma NotEntered(m: seq<byte>)
    requires |m| >= 5 && m[0] == JMP && Target(m, 0) == 9
    ensures LineAt(m, [], 0) == Printed(0, 1, 0)
  {
    hide LoadW;
  }
}

/** The passes as loops over the file, with the labels in a binary search tree. */
module Disassembler {
  import opened Words
  import opened Isa
  import opened Disasm
  import opened Trees
  import BTree

  /** The tree answers for every position with its number. */
  ghost predicate Numbered(t: Tree, keys: seq<u32>) {
    Ordered(t) && forall key: u32 :: Answers(t, keys, key)
  }

  ghost predicate Answers(t: Tree, keys: seq<u32>, key: u32) {
    var n := Find(t, key);
    if n == null then Number(keys, key) == 0 else n.value == Number(keys, key) != 0
  }

  lemma {:induction false} NumberNext(keys: seq<u32>, k: u32, key: u32, next: nat)
    requires next > 0
    ensures NumberFrom(keys + [k], key, next) ==
      if NumberFrom(keys, key, next) != 0 then NumberFrom(keys, key, next) else if key == k then next + |keys| else 0
    decreases |keys|
  {
    if keys != [] {
      assert (keys + [k])[1..] == keys[1..] + [k];
      NumberNext(keys[1..], k, key, next + 1);
      NumberFromIff(keys[1..], key, next + 1);
    }
  }

  lemma AddNumbered(t: Tree, n: Node, keys: seq<u32>, k: u32)
    requires Numbered(t, keys) && n.key == k && n.value == |keys| + 2
    ensures Numbered(Insert(t, Bin(Leaf, n, Leaf)), keys + [k])
  {
    hide Ordered, Find, Insert;
    var r := Insert(t, Bin(Leaf, n, Leaf));
    AddKeeps(t, n, 0);
    forall key: u32 ensures Answers(r, keys + [k], key) {
      AddKeeps(t, n, key);
      NumberNext(keys, k, key, 2);
      assert Answers(t, keys, key);
    }
  }

  lemma FirstNumbered(n: Node)
    requires n.key == 0 && n.value == 1
    ensures Numbered(Insert(Leaf, Bin(Leaf, n, Leaf)), [])
  {
    var u := Bin(Leaf, n, Leaf);
    assert Insert(Leaf, u) == u && Ordered(u);
    forall key: u32 ensures Answers(u, [], key) { }
  }

  lemma KeysJoin(a: seq<u32>, b: seq<u32>, c: seq<u32>)
    ensures a + (b + c) == a + b + c
  {
  }

  class State {
    /** The file behind its header. */
    const source: seq<byte>
    var offset: nat
    var pos: u32
    var labelNum: nat
    var labels: Node?
    ghost var tree: Tree
    ghost var keys: seq<u32>
    ghost var nodes: set<Node>

    ghost predicate Valid()
      reads this, nodes
    {
      nodes == Nodes(tree) && BTree.Holds(labels, tree) && Numbered(tree, keys) && labelNum == |keys| + 2
    }

    constructor (source: seq<byte>)
      ensures Valid() && fresh(nodes) && keys == [] && this.source == source && offset == 0 && pos == 4
    {
      var top, n := BTree.Add(null, 0, 1, Leaf);
      labels, tree, keys := top, Insert(Leaf, Bin(Leaf, n, Leaf)), [];
      nodes := {n};
      this.source, offset, pos, labelNum := source, 0, 4, 2;
      new;
      FirstNumbered(n);
    }

    /** One instruction in the first pass. */
    method FirstPass(op: byte, w: Width)
      requires Valid() && offset + OneSize(op, w) <= |source|
      modifies this, nodes
      ensures Valid() && fresh(nodes - old(nodes))
      ensures offset == old(offset) + OneSize(op, w) && pos == (old(pos) + OneSize(op, w)) % TWO32
      ensures keys == old(keys) +
        if References(op) && op != JMP then [(old(pos) + 5 + LoadW(source, old(offset) + 1, L)) % TWO32] else []
    {
      hide LoadW, Insert, BTree.Holds, Numbered, OneSize, References;
      ReferenceSize(op, w);
      if References(op) && op != JMP {
        var key := (pos + 5 + LoadW(source, offset + 1, L)) % TWO32;
        var top, n := BTree.Add(labels, key, labelNum, tree);
        AddNumbered(tree, n, keys, key);
        InsertNodes(tree, Bin(Leaf, n, Leaf));
        labels, tree, keys := top, Insert(tree, Bin(Leaf, n, Leaf)), keys + [key];
        nodes := nodes + {n};
        labelNum := labelNum + 1;
      }
      offset, pos := offset + OneSize(op, w), (pos + OneSize(op, w)) % TWO32;
    }

    /** One turn of the loop; `done` if the file ends inside the instruction. */
    method FirstTurn() returns (done: bool)
      requires Valid() && offset < |source|
      modifies this, nodes
      ensures Valid() && fresh(nodes - old(nodes))
      ensures done ==> keys == old(keys + Entered(source, offset, pos))
      ensures !done ==>
        offset > old(offset) && keys + Entered(source, offset, pos) == old(keys + Entered(source, offset, pos))
    {
      hide OneSize, References, LoadW, Nodes, BTree.Holds, Numbered, Entered, OpcodeOf;
      var op, w := OpcodeOf(source[offset]), WidthOf(source[offset] % 4);
      EnteredStep(source, offset, pos);
      ReferenceSize(op, w);
      if offset + OneSize(op, w) > |source| { return true; }
      ghost var before := keys;
      FirstPass(op, w);
      KeysJoin(before, keys[|before|..], Entered(source, offset, pos));
      done := false;
    }

    method FirstPasses()
      requires Valid() && keys == [] && offset == 0 && pos == 4
      modifies this, nodes
      ensures Valid() && keys == Keys(source) && fresh(nodes - old(nodes))
    {
      hide Nodes, BTree.Holds, Numbered, Entered;
      while offset < |source|
        invariant Valid() && fresh(nodes - old(nodes))
        invariant keys + Entered(source, offset, pos) == Keys(source)
        decreases |source| - offset
      {
        var done := FirstTurn();
        if done { return; }
      }
      EnteredStep(source, offset, pos);
    }

    method NumberOf(key: u32) returns (number: nat)
      requires Valid()
      ensures number == Number(keys, key)
    {
      var n := BTree.Get(labels, key, tree);
      assert Answers(tree, keys, key);
      number := if n == null then 0 else n.value;
    }

    /** One instruction in the second pass. */
    method SecondPass(op: byte, w: Width) returns (line: Printed)
      requires Valid() && offset < |source| && op == OpcodeOf(source[offset]) && offset + TwoSize(op, w) <= |source|
      modifies this`offset, this`pos
      ensures Valid()
      ensures References(op) ==> old(offset) + 5 <= |source|
      ensures line == Line(source, keys, old(offset), old(pos))
      ensures offset == old(offset) + TwoSize(op, w) && pos == (old(pos) + TwoSize(op, w)) % TWO32
    {
      hide TwoSize, References, LoadW, Number, Numbered, Nodes, BTree.Holds, OpcodeOf;
      ReferenceSize(op, w);
      var front := NumberOf(pos);
      var ref := 0;
      if References(op) { ref := NumberOf((pos + 5 + LoadW(source, offset + 1, L) + 4) % TWO32); }
      line := Printed(offset, front, ref);
      offset, pos := offset + TwoSize(op, w), (pos + TwoSize(op, w)) % TWO32;
    }

    /** The second pass, from the beginning of the code again. */
    method SecondPasses() returns (listing: seq<Printed>)
      requires Valid()
      modifies this`offset, this`pos
      ensures listing == Listed(source, keys, 0, 0)
    {
      hide TwoSize, References, Line, Numbered, Nodes, BTree.Holds, Listed, OpcodeOf;
      offset, pos, listing := 0, 0, [];
      while offset < |source|
        invariant Valid() && listing + Listed(source, keys, offset, pos) == Listed(source, keys, 0, 0)
        decreases |source| - offset
      {
        var op, w := OpcodeOf(source[offset]), WidthOf(source[offset] % 4);
        ListedUnfold(source, keys, offset, pos);
        ReferenceSize(op, w);
        if offset + TwoSize(op, w) > |source| { return; }
        var line := SecondPass(op, w);
        listing := listing + [line];
      }
      ListedUnfold(source, keys, offset, pos);
    }
  }

  lemma EnteredStep(m: seq<byte>, p: nat, pos: u32)
    ensures p >= |m| ==> Entered(m, p, pos) == []
    ensures p < |m| ==>
      var op, n := OpcodeOf(m[p]), OneSize(OpcodeOf(m[p]), WidthOf(m[p] % 4));
      Entered(m, p, pos) == if p + n > |m| then [] else
        (if References(op) && op != JMP then [(pos + 5 + LoadW(m, p + 1, L)) % TWO32] else [])
        + Entered(m, p + n, (pos + n) % TWO32)
  {
  }

  lemma ListedUnfold(m: seq<byte>, keys: seq<u32>, p: nat, pos: u32)
    ensures p >= |m| ==> Listed(m, keys, p, pos) == []
    ensures p < |m| ==>
      var n := TwoSize(OpcodeOf(m[p]), WidthOf(m[p] % 4));
      Listed(m, keys, p, pos) ==
        if p + n > |m| then []
        else [Line(m, keys, p, pos)] + Listed(m, keys, p + n, (pos + n) % TWO32)
  {
  }

  /** Both passes: the listing of the file. */
  method Disassemble(source: seq<byte>) returns (listing: seq<Printed>)
    ensures listing == Listing(source)
  {
    var state := new State(source);
    state.FirstPasses();
    listing := state.SecondPasses();
  }
}
