/** Ternary search trees, as values: each level is a search tree on one character, and
    `forward` leads to the level of the next. They carry the assembler's symbol tables, and
    answer exactly as `Symbols.Get` says. */
module Ternary {
  import opened Symbols

  /** `Empty` until a key that ends here has been set. The value 0 is a null pointer. */
  datatype Entry = Empty | Entry(key: string, value: nat)

  datatype Tree = Nil | T(left: Tree, c: char, entry: Entry, right: Tree, forward: Tree)

  function One(c: char): Tree { T(Nil, c, Empty, Nil, Nil) }

  /** The table the assembler starts from. */
  const ROOT := One('-')

  /** Setting the key of which `s` is the part not yet walked. */
  function Set(t: Tree, s: string, key: string, v: nat): (r: Tree)
    requires s != ""
    ensures r.T?
    decreases |s|, t
  {
    var n := if t.Nil? then One(s[0]) else t;
    if s[0] == n.c then
      if |s| == 1 then n.(entry := Entry(key, v)) else n.(forward := Set(n.forward, s[1..], key, v))
    else if s[0] < n.c then n.(left := Set(n.left, s, key, v))
    else n.(right := Set(n.right, s, key, v))
  }

  /** The node for a character on one level. */
  function Find(t: Tree, c: char): Tree {
    if t.Nil? || t.c == c then t else if c < t.c then Find(t.left, c) else Find(t.right, c)
  }

  /** The node a key leads to. */
  function Walk(t: Tree, s: string): Tree
    requires s != ""
    decreases |s|
  {
    var n := Find(t, s[0]);
    if n.Nil? || |s| == 1 then n else Walk(n.forward, s[1..])
  }

  function Answer(t: Tree, s: string): Lookup<nat>
    requires s != ""
  {
    var n := Walk(t, s);
    if n.Nil? then Absent else if n.entry.Empty? then Interior else Found(n.entry.value)
  }

  /** Every level is a strict search tree on the characters. */
  function Chars(t: Tree): set<char> { if t.Nil? then {} else Chars(t.left) + {t.c} + Chars(t.right) }

  ghost predicate Ordered(t: Tree) {
    t.T? ==>
      && (forall c :: c in Chars(t.left) ==> c < t.c)
      && (forall c :: c in Chars(t.right) ==> t.c < c)
      && Ordered(t.left) && Ordered(t.right) && Ordered(t.forward)
  }

  // ---- Setting ----

  lemma {:induction false} SetChars(t: Tree, s: string, key: string, v: nat)
    requires s != ""
    ensures Chars(Set(t, s, key, v)) == Chars(t) + {s[0]}
    decreases t
  {
    if t.T? {
      if s[0] < t.c { SetChars(t.left, s, key, v); }
      if s[0] > t.c { SetChars(t.right, s, key, v); }
    } else {
      assert Chars(Set(t, s, key, v)) == {s[0]};
    }
  }

  lemma {:induction false} SetOrdered(t: Tree, s: string, key: string, v: nat)
    requires s != "" && Ordered(t)
    ensures Ordered(Set(t, s, key, v))
    decreases |s|, t
  {
    if t.Nil? {
      if |s| > 1 { SetOrdered(Nil, s[1..], key, v); }
    } else if s[0] == t.c {
      if |s| > 1 { SetOrdered(t.forward, s[1..], key, v); }
    } else if s[0] < t.c {
      SetOrdered(t.left, s, key, v);
      SetChars(t.left, s, key, v);
    } else {
      SetOrdered(t.right, s, key, v);
      SetChars(t.right, s, key, v);
    }
  }

  /** Alike in all but the neighbours on the level. */
  predicate SameNode(a: Tree, b: Tree) {
    if a.Nil? || b.Nil? then a == b else a.entry == b.entry && a.forward == b.forward
  }

  /** On its level, only the node of the key's first character changes. */
  lemma {:induction false} SetFind(t: Tree, s: string, key: string, v: nat, c: char)
    requires s != ""
    ensures c != s[0] ==> SameNode(Find(Set(t, s, key, v), c), Find(t, c))
    ensures Find(Set(t, s, key, v), s[0]).T?
    ensures var n, o := Find(Set(t, s, key, v), s[0]), Find(t, s[0]);
      var below, entry := (if o.Nil? then Nil else o.forward), (if o.Nil? then Empty else o.entry);
      if |s| == 1 then n.entry == Entry(key, v) && n.forward == below
      else n.entry == entry && n.forward == Set(below, s[1..], key, v)
    decreases t
  {
    if t.T? {
      if s[0] < t.c { SetFind(t.left, s, key, v, c); }
      if s[0] > t.c { SetFind(t.right, s, key, v, c); }
    }
  }

  lemma WalkNil(s: string)
    requires s != ""
    ensures Walk(Nil, s) == Nil
  {
  }

  /** What setting a key does to every lookup: the key gets the value, its proper prefixes
      become interior nodes if they led nowhere, and nothing else changes. */
  lemma {:induction false} SetAnswer(t: Tree, s: string, key: string, v: nat, q: string)
    requires s != "" && q != ""
    ensures Answer(Set(t, s, key, v), q) ==
      if q == s then Found(v)
      else if q < s && Answer(t, q) == Absent then Interior
      else Answer(t, q)
    decreases |s|
  {
    hide Set, Find;
    SetFind(t, s, key, v, q[0]);
    if q[0] == s[0] && |q| > 1 && |s| > 1 {
      var o := Find(t, q[0]);
      SetAnswer(if o.Nil? then Nil else o.forward, s[1..], key, v, q[1..]);
      assert q == [q[0]] + q[1..] && s == [s[0]] + s[1..];
      assert q < s <==> q[1..] < s[1..];
      WalkNil(q[1..]);
    } else if q[0] == s[0] && |q| > 1 {
      WalkNil(q[1..]);
    } else {
      assert q[0] == s[0] && |s| > 1 ==> q <= s;
    }
  }

  /** A table built by setting keys, from the root on. */
  function Build(sets: seq<(string, nat)>): Tree
    requires forall k :: k in sets ==> k.0 != ""
  {
    if sets == [] then ROOT else
    var (key, v) := sets[|sets| - 1];
    assert sets[|sets| - 1] in sets;
    Set(Build(sets[..|sets| - 1]), key, key, v)
  }

  /** The map the same settings make. */
  function Map(sets: seq<(string, nat)>): map<string, nat> {
    if sets == [] then map[] else Map(sets[..|sets| - 1])[sets[|sets| - 1].0 := sets[|sets| - 1].1]
  }

  /** Whatever has been set, in whatever order, a lookup answers as `Symbols.Get` says of the
      map: the last value set for a key, and otherwise a node without a value exactly for
      "-" and for proper prefixes of keys. */
  lemma {:induction false} TreeIsMap(sets: seq<(string, nat)>, q: string)
    requires (forall k :: k in sets ==> k.0 != "") && q != ""
    ensures Ordered(Build(sets)) && Answer(Build(sets), q) == Get(Map(sets), q)
    decreases |sets|
  {
    hide Set, Answer, Ordered;
    if sets == [] {
      RootAnswer(q);
    } else {
      var rest := sets[..|sets| - 1];
      var (key, v) := sets[|sets| - 1];
      assert sets[|sets| - 1] in sets;
      TreeIsMap(rest, q);
      SetOrdered(Build(rest), key, key, v);
      SetAnswer(Build(rest), key, key, v, q);
      GetUpdated(Map(rest), key, v, q);
    }
  }

  lemma RootAnswer(q: string)
    requires q != ""
    ensures Ordered(ROOT) && Answer(ROOT, q) == Get(map[], q)
  {
    assert Chars(Nil) == {};
    if q[0] == '-' && |q| > 1 { WalkNil(q[1..]); }
    assert |q| == 1 && q[0] == '-' <==> q == "-";
    var none: map<string, nat> := map[];
    assert !Prefixes(q, none.Keys);
    assert Find(Nil, q[0]) == Nil;
    assert Find(ROOT, q[0]) == if q[0] == '-' then ROOT else Nil;
  }

  lemma GetUpdated(m: map<string, nat>, key: string, v: nat, q: string)
    ensures Get(m[key := v], q) ==
      if q == key then Found(v)
      else if q < key && Get(m, q) == Absent then Interior
      else Get(m, q)
  {
    var n := m[key := v];
    assert Prefixes(q, n.Keys) <==> q < key || Prefixes(q, m.Keys) by {
      assert forall k :: k in n.Keys <==> k == key || k in m.Keys;
      assert key in n.Keys;
    }
  }

  // ---- Visiting ----

  /** The entries a visit calls back on. A callback that asks to stop ends the visit of its
      own node's right and forward trees only. */
  function Visited(t: Tree, stop: Entry -> bool): seq<Entry> {
    if t.Nil? then [] else
    var here := t.entry.Entry? && t.entry.value != 0;
    Visited(t.left, stop) + (if here then [t.entry] else []) +
    if here && stop(t.entry) then [] else Visited(t.right, stop) + Visited(t.forward, stop)
  }

  /** Each entry carries the key that leads to it, `pre` being the part above this level. */
  predicate Keyed(t: Tree, pre: string) {
    t.T? ==>
      && (t.entry.Entry? ==> t.entry.key == pre + [t.c])
      && Keyed(t.left, pre) && Keyed(t.right, pre) && Keyed(t.forward, pre + [t.c])
  }

  lemma {:induction false} SetKeyed(t: Tree, s: string, key: string, v: nat, pre: string)
    requires s != "" && Keyed(t, pre) && key == pre + s
    ensures Keyed(Set(t, s, key, v), pre)
    decreases |s|, t
  {
    var n := if t.Nil? then One(s[0]) else t;
    if s[0] == n.c {
      assert pre + s == pre + [s[0]] + s[1..];
      if |s| > 1 { SetKeyed(n.forward, s[1..], key, v, pre + [s[0]]); } else { assert s == [s[0]]; }
    } else if s[0] < n.c {
      SetKeyed(t.left, s, key, v, pre);
    } else {
      SetKeyed(t.right, s, key, v, pre);
    }
  }

  lemma {:induction false} BuildKeyed(sets: seq<(string, nat)>)
    requires forall k :: k in sets ==> k.0 != ""
    ensures Keyed(Build(sets), "")
    decreases |sets|
  {
    hide Set, Keyed;
    if sets == [] {
      assert Keyed(ROOT, "") by { RootKeyed(); }
    } else {
      var (key, v) := sets[|sets| - 1];
      assert sets[|sets| - 1] in sets;
      BuildKeyed(sets[..|sets| - 1]);
      assert "" + key == key;
      SetKeyed(Build(sets[..|sets| - 1]), key, key, v, "");
    }
  }

  lemma RootKeyed()
    ensures Keyed(ROOT, "")
  {
  }

  /** `pre` goes on with a character of the level. */
  predicate Under(key: string, pre: string, chars: set<char>) {
    |key| > |pre| && key[..|pre|] == pre && key[|pre|] in chars
  }

  lemma {:induction false} VisitedUnder(t: Tree, pre: string, stop: Entry -> bool)
    requires Keyed(t, pre)
    ensures forall e :: e in Visited(t, stop) ==> e.Entry? && e.value != 0 && Under(e.key, pre, Chars(t))
    decreases t
  {
    if t.T? {
      VisitedUnder(t.left, pre, stop);
      VisitedUnder(t.right, pre, stop);
      VisitedUnder(t.forward, pre + [t.c], stop);
      forall e | e in Visited(t.forward, stop) ensures Under(e.key, pre, {t.c}) {
        UnderShorter(e.key, pre, t.c, Chars(t.forward));
      }
    }
  }

  lemma UnderShorter(key: string, pre: string, c: char, chars: set<char>)
    requires Under(key, pre + [c], chars)
    ensures Under(key, pre, {c}) && |key| > |pre| + 1
  {
    var longer := pre + [c];
    assert key[..|pre|] == key[..|longer|][..|pre|];
    assert key[|pre|] == key[..|longer|][|pre|];
    assert longer[..|pre|] == pre;
  }

  lemma NotUnder(t: Tree, pre: string, stop: Entry -> bool, q: string, v: nat)
    requires Keyed(t, pre) && q != "" && q[0] !in Chars(t)
    ensures Entry(pre + q, v) !in Visited(t, stop)
  {
    VisitedUnder(t, pre, stop);
    assert (pre + q)[|pre|] == q[0];
  }

  lemma NotUnderForward(t: Tree, pre: string, stop: Entry -> bool, q: string, v: nat)
    requires t.T? && Keyed(t, pre) && q != "" && (q[0] != t.c || |q| == 1)
    ensures Entry(pre + q, v) !in Visited(t.forward, stop)
  {
    VisitedUnder(t.forward, pre + [t.c], stop);
    assert (pre + q)[|pre|] == q[0];
    forall e | e in Visited(t.forward, stop) ensures e.key != pre + q {
      UnderShorter(e.key, pre, t.c, Chars(t.forward));
    }
  }

  lemma VisitedParts(t: Tree, stop: Entry -> bool, e: Entry)
    requires t.T? && e.Entry? && forall e :: !stop(e)
    ensures e in Visited(t, stop) <==>
      || e in Visited(t.left, stop) || e in Visited(t.right, stop) || e in Visited(t.forward, stop)
      || (e.value != 0 && e == t.entry)
  {
  }

  lemma AnswerParts(t: Tree, q: string)
    requires t.T? && q != ""
    ensures Answer(t, q) ==
      if q[0] < t.c then Answer(t.left, q)
      else if q[0] > t.c then Answer(t.right, q)
      else if |q| > 1 then Answer(t.forward, q[1..])
      else if t.entry.Empty? then Interior else Found(t.entry.value)
  {
  }

  /** A callback that never asks to stop sees exactly the keys that have been set, with the
      values a lookup gives, except those set to null. */
  lemma {:induction false} VisitedIff(t: Tree, pre: string, stop: Entry -> bool, q: string, v: nat)
    requires Keyed(t, pre) && Ordered(t) && q != "" && forall e :: !stop(e)
    ensures Entry(pre + q, v) in Visited(t, stop) <==> v != 0 && Answer(t, q) == Found(v)
    decreases t
  {
    hide Visited, Answer, Chars;
    var e := Entry(pre + q, v);
    if t.Nil? {
      NilVisited(stop, q);
    } else {
      VisitedParts(t, stop, e);
      AnswerParts(t, q);
      assert (pre + q)[|pre|] == q[0];
      if q[0] < t.c {
        VisitedIff(t.left, pre, stop, q, v);
        NotUnder(t.right, pre, stop, q, v);
        NotUnderForward(t, pre, stop, q, v);
      } else if q[0] > t.c {
        VisitedIff(t.right, pre, stop, q, v);
        NotUnder(t.left, pre, stop, q, v);
        NotUnderForward(t, pre, stop, q, v);
      } else {
        NotUnder(t.left, pre, stop, q, v);
        NotUnder(t.right, pre, stop, q, v);
        if |q| > 1 {
          VisitedIff(t.forward, pre + [t.c], stop, q[1..], v);
          assert pre + [t.c] + q[1..] == pre + q;
        } else {
          NotUnderForward(t, pre, stop, q, v);
          assert pre + q == pre + [t.c];
        }
      }
    }
  }

  lemma NilVisited(stop: Entry -> bool, q: string)
    requires q != ""
    ensures Visited(Nil, stop) == [] && Answer(Nil, q) == Absent
  {
  }

  function KeyOf(e: Entry): string { if e.Empty? then "" else e.key }

  ghost predicate Apart(a: seq<Entry>, b: seq<Entry>) { forall x, y :: x in a && y in b ==> KeyOf(x) != KeyOf(y) }

  ghost predicate Once(s: seq<Entry>) { forall i, j :: 0 <= i < j < |s| ==> KeyOf(s[i]) != KeyOf(s[j]) }

  lemma JoinOnce(a: seq<Entry>, b: seq<Entry>)
    requires Once(a) && Once(b) && Apart(a, b)
    ensures Once(a + b)
  {
    forall i, j | 0 <= i < j < |a + b| ensures KeyOf((a + b)[i]) != KeyOf((a + b)[j]) {
      if i < |a| && j >= |a| { assert a[i] in a && b[j - |a|] in b; }
    }
  }

  /** No key is visited twice. */
  lemma {:induction false} VisitedOnce(t: Tree, pre: string, stop: Entry -> bool)
    requires Keyed(t, pre) && Ordered(t)
    ensures Once(Visited(t, stop))
    decreases t
  {
    hide Once, Apart, Ordered;
    if t.Nil? {
      assert Once([]) by { NoneOnce(); }
    } else {
      var l, r, f := Visited(t.left, stop), Visited(t.right, stop), Visited(t.forward, stop);
      assert Ordered(t.left) && Ordered(t.right) && Ordered(t.forward) by { OrderedParts(t); }
      VisitedOnce(t.left, pre, stop);
      VisitedOnce(t.right, pre, stop);
      VisitedOnce(t.forward, pre + [t.c], stop);
      PartsApart(t, pre, stop);
      NoneOnce();
      JoinOnce(r, f);
      var here := if t.entry.Entry? && t.entry.value != 0 then [t.entry] else [];
      var rest := if here != [] && stop(t.entry) then [] else r + f;
      JoinOnce(here, rest);
      JoinOnce(l, here + rest);
      assert l + (here + rest) == l + here + rest;
    }
  }

  /** The entries with a value. */
  ghost function Entries(t: Tree): set<Entry> {
    if t.Nil? then {} else
    (if t.entry.Entry? && t.entry.value != 0 then {t.entry} else {})
    + Entries(t.left) + Entries(t.right) + Entries(t.forward)
  }

  /** `e` comes behind an entry at which the callback asks to stop, on its level or below it. */
  ghost predicate CutOff(t: Tree, stop: Entry -> bool, e: Entry) {
    t.T? && (
    || (t.entry.Entry? && t.entry.value != 0 && stop(t.entry) && e in Entries(t.right) + Entries(t.forward))
    || CutOff(t.left, stop, e) || CutOff(t.right, stop, e) || CutOff(t.forward, stop, e))
  }

  lemma {:induction false} EntriesVisited(t: Tree, stop: Entry -> bool)
    requires forall e :: !stop(e)
    ensures forall e :: e in Entries(t) <==> e in Visited(t, stop)
  {
    if t.T? {
      EntriesVisited(t.left, stop);
      EntriesVisited(t.right, stop);
      EntriesVisited(t.forward, stop);
    }
  }

  lemma {:induction false} CutOffInside(t: Tree, stop: Entry -> bool, e: Entry)
    requires CutOff(t, stop, e)
    ensures e in Entries(t)
    decreases t
  {
    if CutOff(t.left, stop, e) { CutOffInside(t.left, stop, e); }
    else if CutOff(t.right, stop, e) { CutOffInside(t.right, stop, e); }
    else if CutOff(t.forward, stop, e) { CutOffInside(t.forward, stop, e); }
  }

  lemma NotBoth(a: seq<Entry>, b: seq<Entry>, e: Entry)
    requires Apart(a, b)
    ensures !(e in a && e in b)
  {
  }

  /** An entry is in one part of the tree only. */
  lemma EntriesApart(t: Tree, pre: string, e: Entry)
    requires t.T? && Keyed(t, pre) && Ordered(t)
    ensures t.entry.Entry? && t.entry.value != 0 && e == t.entry ==>
      e !in Entries(t.left) && e !in Entries(t.right) && e !in Entries(t.forward)
    ensures e in Entries(t.left) ==> e !in Entries(t.right) && e !in Entries(t.forward)
    ensures e in Entries(t.right) ==> e !in Entries(t.forward)
  {
    hide Ordered, Keyed, Visited, Entries, Apart;
    var stop := (e: Entry) => false;
    var l, r, f := Visited(t.left, stop), Visited(t.right, stop), Visited(t.forward, stop);
    var here := if t.entry.Entry? && t.entry.value != 0 then [t.entry] else [];
    PartsApart(t, pre, stop);
    NotBoth(r, f, e);
    NotBoth(here, r + f, e);
    NotBoth(l, here + (r + f), e);
    EntriesVisited(t.left, stop);
    EntriesVisited(t.right, stop);
    EntriesVisited(t.forward, stop);
  }

  /** A visit sees exactly the entries that are not cut off. */
  lemma {:induction false} StoppedVisit(t: Tree, pre: string, stop: Entry -> bool, e: Entry)
    requires Keyed(t, pre) && Ordered(t)
    ensures e in Visited(t, stop) <==> e in Entries(t) && !CutOff(t, stop, e)
    decreases t
  {
    hide Ordered, KeyOf;
    if t.T? {
      OrderedParts(t);
      EntriesApart(t, pre, e);
      StoppedVisit(t.left, pre, stop, e);
      StoppedVisit(t.right, pre, stop, e);
      StoppedVisit(t.forward, pre + [t.c], stop, e);
      if CutOff(t.left, stop, e) { CutOffInside(t.left, stop, e); }
      if CutOff(t.right, stop, e) { CutOffInside(t.right, stop, e); }
      if CutOff(t.forward, stop, e) { CutOffInside(t.forward, stop, e); }
    }
  }

  lemma NoneOnce()
    ensures Once([]) && forall e :: Once([e])
  {
  }

  lemma OrderedParts(t: Tree)
    requires t.T? && Ordered(t)
    ensures Ordered(t.left) && Ordered(t.right) && Ordered(t.forward)
  {
  }

  lemma PartsApart(t: Tree, pre: string, stop: Entry -> bool)
    requires t.T? && Keyed(t, pre) && Ordered(t)
    ensures var l, r, f := Visited(t.left, stop), Visited(t.right, stop), Visited(t.forward, stop);
      var here := if t.entry.Entry? && t.entry.value != 0 then [t.entry] else [];
      && Apart(r, f) && Apart(here, r + f) && Apart(here, []) && Apart(l, here + (r + f)) && Apart(l, here + [])
  {
    hide Visited;
    VisitedUnder(t.left, pre, stop);
    VisitedUnder(t.right, pre, stop);
    VisitedUnder(t.forward, pre + [t.c], stop);
    forall e | e in Visited(t.forward, stop) ensures Under(e.key, pre, {t.c}) && |e.key| > |pre| + 1 {
      UnderShorter(e.key, pre, t.c, Chars(t.forward));
    }
  }

  /** The whole table: a visit that is never stopped sees the map's keys once each. */
  lemma VisitIsMap(sets: seq<(string, nat)>, stop: Entry -> bool, q: string, v: nat)
    requires (forall k :: k in sets ==> k.0 != "") && q != "" && forall e :: !stop(e)
    ensures Entry(q, v) in Visited(Build(sets), stop) <==> v != 0 && q in Map(sets) && Map(sets)[q] == v
  {
    hide Build, Visited, Map, Answer;
    TreeIsMap(sets, q);
    BuildKeyed(sets);
    assert "" + q == q;
    VisitedIff(Build(sets), "", stop, q, v);
  }
}

/** The linked tree behind the symbol tables. */
module STree {
  import opened Symbols
  import opened Ternary

  class Node {
    const c: char
    var entry: Entry
    var left: Node?
    var right: Node?
    var forward: Node?

    constructor (c: char)
      ensures this.c == c && entry == Empty && left == null && right == null && forward == null
    {
      this.c, entry, left, right, forward := c, Empty, null, null, null;
    }
  }

  // ---- Links as values ----

  datatype Cell = Cell(c: char, entry: Entry, left: Node?, right: Node?, forward: Node?)

  type Heap = map<Node, Cell>

  ghost function Snap(s: set<Node>): Heap
    reads s
  {
    map x | x in s :: Cell(x.c, x.entry, x.left, x.right, x.forward)
  }

  /** The nodes of the tree `t` that hangs from `x`. */
  ghost function Foot(h: Heap, x: Node?, t: Tree): set<Node>
    decreases t
  {
    if t.Nil? || x == null || x !in h then {} else
    {x} + Foot(h, h[x].left, t.left) + Foot(h, h[x].right, t.right) + Foot(h, h[x].forward, t.forward)
  }

  /** The tree `t` hangs from `x`, and no node is linked from two places. */
  ghost predicate Holds(h: Heap, x: Node?, t: Tree)
    decreases t
  {
    match t
    case Nil => x == null
    case T(l, c, e, r, f) =>
      && x != null && x in h && h[x].c == c && h[x].entry == e
      && Holds(h, h[x].left, l) && Holds(h, h[x].right, r) && Holds(h, h[x].forward, f)
      && var a, b, d := Foot(h, h[x].left, l), Foot(h, h[x].right, r), Foot(h, h[x].forward, f);
      x !in a && x !in b && x !in d && a !! b && a !! d && b !! d
  }

  lemma {:induction false} Elsewhere(h: Heap, h': Heap, x: Node?, t: Tree)
    requires Holds(h, x, t) && forall y :: y in Foot(h, x, t) ==> y in h && y in h' && h'[y] == h[y]
    ensures Holds(h', x, t) && Foot(h', x, t) == Foot(h, x, t)
    decreases t
  {
    if t.T? {
      assert x in Foot(h, x, t);
      Elsewhere(h, h', h[x].left, t.left);
      Elsewhere(h, h', h[x].right, t.right);
      Elsewhere(h, h', h[x].forward, t.forward);
    }
  }

  /** Where setting a key changes the nodes that are there already. */
  datatype Edit = Contents | Left | Right | Forward

  datatype Spot = Spot(node: Node, edit: Edit, rest: string)

  ghost function SpotOf(h: Heap, x: Node?, t: Tree, s: string): (r: Spot)
    requires Holds(h, x, t) && t.T? && s != ""
    ensures r.node in Foot(h, x, t) && (r.edit == Contents <==> r.rest == "")
    decreases |s|, t
  {
    if s[0] == t.c then
      if |s| == 1 then Spot(x, Contents, "")
      else if t.forward.Nil? then Spot(x, Forward, s[1..]) else SpotOf(h, h[x].forward, t.forward, s[1..])
    else if s[0] < t.c then
      if t.left.Nil? then Spot(x, Left, s) else SpotOf(h, h[x].left, t.left, s)
    else
      if t.right.Nil? then Spot(x, Right, s) else SpotOf(h, h[x].right, t.right, s)
  }

  function Edited(cell: Cell, edit: Edit, q: Node?, key: string, v: nat): Cell {
    match edit
    case Contents => cell.(entry := Entry(key, v))
    case Left => cell.(left := q)
    case Right => cell.(right := q)
    case Forward => cell.(forward := q)
  }

  /** `h2` differs from `h` on the tree's nodes only at the spot; a chain of new nodes hangs
      from there unless only contents have changed. */
  ghost predicate EditOf(h: Heap, h2: Heap, foot: set<Node>, p: Spot, q: Node?, key: string, v: nat) {
    && (forall y :: y in foot && y != p.node ==> y in h && y in h2 && h2[y] == h[y])
    && p.node in h && p.node in h2 && h2[p.node] == Edited(h[p.node], p.edit, q, key, v)
    && (p.edit != Contents ==>
          p.rest != "" && var chain := Set(Nil, p.rest, key, v);
          Holds(h2, q, chain) && Foot(h2, q, chain) !! foot)
  }

  ghost function Added(h2: Heap, p: Spot, q: Node?, key: string, v: nat): set<Node>
    requires p.edit != Contents ==> p.rest != ""
  {
    if p.edit == Contents then {} else Foot(h2, q, Set(Nil, p.rest, key, v))
  }

  /** `Holds` and `Foot` of a tree, from those of its parts. */
  ghost predicate Joined(h: Heap, x: Node, t: Tree)
    requires t.T?
  {
    x in h && h[x].c == t.c && h[x].entry == t.entry &&
    Holds(h, h[x].left, t.left) && Holds(h, h[x].right, t.right) && Holds(h, h[x].forward, t.forward) &&
    var a, b, d := Foot(h, h[x].left, t.left), Foot(h, h[x].right, t.right), Foot(h, h[x].forward, t.forward);
    x !in a && x !in b && x !in d && a !! b && a !! d && b !! d
  }

  lemma Join(h: Heap, x: Node, t: Tree)
    requires t.T?
    ensures Holds(h, x, t) <==> Joined(h, x, t)
    ensures x in h ==>
      Foot(h, x, t) ==
        {x} + Foot(h, h[x].left, t.left) + Foot(h, h[x].right, t.right)
        + Foot(h, h[x].forward, t.forward)
  {
  }

  lemma SetParts(t: Tree, s: string, key: string, v: nat)
    requires t.T? && s != ""
    ensures Set(t, s, key, v) ==
      if s[0] == t.c then
        if |s| == 1 then t.(entry := Entry(key, v)) else t.(forward := Set(t.forward, s[1..], key, v))
      else if s[0] < t.c then t.(left := Set(t.left, s, key, v))
      else t.(right := Set(t.right, s, key, v))
  {
  }

  lemma SpotParts(h: Heap, x: Node, t: Tree, s: string)
    requires Holds(h, x, t) && t.T? && s != "" && x in h
    ensures SpotOf(h, x, t, s) ==
      if s[0] == t.c then
        if |s| == 1 then Spot(x, Contents, "")
        else if t.forward.Nil? then Spot(x, Forward, s[1..]) else SpotOf(h, h[x].forward, t.forward, s[1..])
      else if s[0] < t.c then
        if t.left.Nil? then Spot(x, Left, s) else SpotOf(h, h[x].left, t.left, s)
      else
        if t.right.Nil? then Spot(x, Right, s) else SpotOf(h, h[x].right, t.right, s)
  {
  }

  lemma SomeTree(h: Heap, x: Node?, t: Tree)
    requires Holds(h, x, t)
    ensures t.T? <==> x != null
  {
  }

  lemma NoTree(h: Heap, x: Node?)
    ensures Foot(h, x, Nil) == {} && (Holds(h, x, Nil) <==> x == null)
  {
  }

  /** That one change makes the tree the one with the key set. */
  lemma {:induction false} EditSets(h: Heap, h2: Heap, x: Node, t: Tree, s: string, q: Node?, key: string, v: nat)
    requires Holds(h, x, t) && t.T? && s != ""
    requires EditOf(h, h2, Foot(h, x, t), SpotOf(h, x, t, s), q, key, v)
    ensures Holds(h2, x, Set(t, s, key, v))
    ensures Foot(h2, x, Set(t, s, key, v)) == Foot(h, x, t) + Added(h2, SpotOf(h, x, t, s), q, key, v)
    decreases |s|, t, 1
  {
    hide Holds, Foot, Set, SpotOf;
    Join(h, x, t);
    SetParts(t, s, key, v);
    SpotParts(h, x, t, s);
    var l, r, f := h[x].left, h[x].right, h[x].forward;
    NoTree(h, l);
    NoTree(h, r);
    NoTree(h, f);
    if s[0] == t.c {
      EditMiddle(h, h2, x, t, s, q, key, v);
    } else if s[0] < t.c {
      Elsewhere(h, h2, r, t.right);
      Elsewhere(h, h2, f, t.forward);
      SomeTree(h, l, t.left);
      if t.left.T? { EditSets(h, h2, l, t.left, s, q, key, v); }
    } else {
      Elsewhere(h, h2, l, t.left);
      Elsewhere(h, h2, f, t.forward);
      SomeTree(h, r, t.right);
      if t.right.T? { EditSets(h, h2, r, t.right, s, q, key, v); }
    }
    Join(h2, x, Set(t, s, key, v));
  }

  lemma {:induction false} EditMiddle(h: Heap, h2: Heap, x: Node, t: Tree, s: string, q: Node?, key: string, v: nat)
    requires Holds(h, x, t) && t.T? && s != "" && s[0] == t.c
    requires EditOf(h, h2, Foot(h, x, t), SpotOf(h, x, t, s), q, key, v)
    ensures Holds(h2, x, Set(t, s, key, v))
    ensures Foot(h2, x, Set(t, s, key, v)) == Foot(h, x, t) + Added(h2, SpotOf(h, x, t, s), q, key, v)
    decreases |s|, t, 0
  {
    hide Holds, Foot, Set, SpotOf;
    Join(h, x, t);
    SetParts(t, s, key, v);
    SpotParts(h, x, t, s);
    var l, r, f := h[x].left, h[x].right, h[x].forward;
    NoTree(h, f);
    Elsewhere(h, h2, l, t.left);
    Elsewhere(h, h2, r, t.right);
    if |s| == 1 {
      Elsewhere(h, h2, f, t.forward);
    } else if t.forward.T? {
      SomeTree(h, f, t.forward);
      EditSets(h, h2, f, t.forward, s[1..], q, key, v);
    }
    Join(h2, x, Set(t, s, key, v));
  }

  /** Nodes linked forward one by one, for the characters of `s`, the last with the entry. */
  ghost predicate Chained(h: Heap, ns: seq<Node>, s: string, key: string, v: nat) {
    && |ns| == |s|
    && (forall i, j :: 0 <= i < j < |ns| ==> ns[i] != ns[j])
    && (forall i :: 0 <= i < |ns| ==> ns[i] in h)
    && (forall i :: 0 <= i < |ns| ==> h[ns[i]] == Cell(s[i], h[ns[i]].entry, null, null, h[ns[i]].forward))
    && (forall i :: 0 <= i < |ns| - 1 ==> h[ns[i]].entry == Empty && h[ns[i]].forward == ns[i + 1])
    && (ns != [] ==> var last := h[ns[|ns| - 1]]; last.entry == Entry(key, v) && last.forward == null)
  }

  lemma {:induction false} ChainHolds(h: Heap, ns: seq<Node>, s: string, key: string, v: nat)
    requires s != "" && Chained(h, ns, s, key, v)
    ensures Holds(h, ns[0], Set(Nil, s, key, v))
    ensures Foot(h, ns[0], Set(Nil, s, key, v)) == set x | x in ns
    decreases |s|
  {
    var chain := Set(Nil, s, key, v);
    var n := ns[0];
    if |s| == 1 {
      assert chain == T(Nil, s[0], Entry(key, v), Nil, Nil);
      assert h[n] == Cell(s[0], Entry(key, v), null, null, null);
      LoneHolds(h, n, chain);
      assert (set x | x in ns) == {n};
    } else {
      var rest := ns[1..];
      assert forall i :: 0 <= i < |rest| ==> rest[i] == ns[i + 1];
      ChainHolds(h, rest, s[1..], key, v);
      var below := Set(Nil, s[1..], key, v);
      assert chain == T(Nil, s[0], Empty, Nil, below);
      assert h[n] == Cell(s[0], Empty, null, null, rest[0]);
      assert (set x | x in ns) == {n} + set x | x in rest;
      LoneHolds(h, n, chain);
    }
  }

  /** A node with nothing to its left and right. */
  lemma LoneHolds(h: Heap, x: Node, t: Tree)
    requires t.T? && x in h && t.left.Nil? && t.right.Nil?
    requires h[x].c == t.c && h[x].entry == t.entry && h[x].left == null && h[x].right == null
    requires Holds(h, h[x].forward, t.forward) && x !in Foot(h, h[x].forward, t.forward)
    ensures Holds(h, x, t) && Foot(h, x, t) == {x} + Foot(h, h[x].forward, t.forward)
  {
  }

  lemma {:induction false} FootIn(h: Heap, x: Node?, t: Tree)
    ensures Foot(h, x, t) <= h.Keys
    decreases t
  {
    if t.T? && x != null && x in h {
      FootIn(h, h[x].left, t.left);
      FootIn(h, h[x].right, t.right);
      FootIn(h, h[x].forward, t.forward);
    }
  }

  /** The change made of a chain of new nodes and the link to it. */
  lemma LinkSets(h: Heap, h2: Heap, made: Heap, x: Node, t: Tree, s: string, ns: seq<Node>, key: string, v: nat)
    requires Holds(h, x, t) && t.T? && s != "" && ns != []
    requires var p := SpotOf(h, x, t, s);
      && p.edit != Contents && Chained(made, ns, p.rest, key, v)
      && p.node in h && p.node in h2 && h2[p.node] == Edited(h[p.node], p.edit, ns[0], key, v)
    requires forall y :: y in h && y != SpotOf(h, x, t, s).node ==> y in h2 && h2[y] == h[y]
    requires forall y :: y in made ==> y !in h && y in h2 && h2[y] == made[y]
    ensures Holds(h2, x, Set(t, s, key, v))
  {
    hide Holds, Foot, Set, SpotOf, Chained;
    var p := SpotOf(h, x, t, s);
    ChainHolds(made, ns, p.rest, key, v);
    var chain := Set(Nil, p.rest, key, v);
    FootIn(h, x, t);
    FootIn(made, ns[0], chain);
    Elsewhere(made, h2, ns[0], chain);
    EditSets(h, h2, x, t, s, ns[0], key, v);
  }

  lemma ContentsSet(h: Heap, h2: Heap, x: Node, t: Tree, s: string, key: string, v: nat)
    requires Holds(h, x, t) && t.T? && s != ""
    requires var p := SpotOf(h, x, t, s);
      p.edit == Contents && p.node in h && p.node in h2 && h2[p.node] == h[p.node].(entry := Entry(key, v))
    requires forall y :: y in h && y != SpotOf(h, x, t, s).node ==> y in h2 && h2[y] == h[y]
    ensures Holds(h2, x, Set(t, s, key, v))
  {
    hide Holds, Foot, Set, SpotOf;
    FootIn(h, x, t);
    EditSets(h, h2, x, t, s, null, key, v);
  }

  // ---- The table ----

  /** A new node for each character of `s`, linked forward, the last with the entry. */
  method NewChain(s: string, key: string, value: nat) returns (head: Node, ghost ns: seq<Node>, ghost all: set<Node>)
    requires s != ""
    ensures all == (set x | x in ns) && fresh(all)
    ensures |ns| > 0 && head == ns[0] && Chained(Snap(all), ns, s, key, value)
  {
    head := new Node(s[0]);
    var node, i := head, 1;
    ns, all := [head], {head};
    while i < |s|
      invariant 1 <= i <= |s| && |ns| == i && head == ns[0] && node == ns[i - 1]
      invariant all == (set x | x in ns) && fresh(all) && node in all
      invariant forall j, k :: 0 <= j < k < i ==> ns[j] != ns[k]
      invariant forall k :: 0 <= k < i ==>
        ns[k].c == s[k] && ns[k].entry == Empty && ns[k].left == null && ns[k].right == null
      invariant forall k :: 0 <= k < i - 1 ==> ns[k].forward == ns[k + 1]
      invariant node.forward == null
    {
      var next := new Node(s[i]);
      node.forward := next;
      node := next;
      ns, all := ns + [next], all + {next};
      i := i + 1;
    }
    node.entry := Entry(key, value);
  }

  class Table {
    var root: Node
    ghost var tree: Tree
    ghost var repr: set<Node>

    ghost predicate Valid()
      reads this, repr
    {
      tree.T? && Holds(Snap(repr), root, tree)
    }

    constructor (c: char)
      ensures Valid() && tree == One(c) && fresh(repr)
    {
      var n := new Node(c);
      root := n;
      tree, repr := One(c), {n};
      new;
      NoTree(Snap(repr), null);
      Join(Snap(repr), root, tree);
    }

    /** The walk down to where the key's nodes end. */
    method FindSpot(str: string) returns (node: Node, edit: Edit, s: string)
      requires Valid() && str != ""
      ensures SpotOf(Snap(repr), root, tree, str) == Spot(node, edit, s)
    {
      hide Holds, Foot, Set, SpotOf;
      ghost var h := Snap(repr);
      ghost var t := tree;
      node, s := root, str;
      while true
        invariant s != "" && t.T? && Holds(h, node, t) && SpotOf(h, node, t, s) == SpotOf(h, root, tree, str)
        decreases |s|, t
      {
        Join(h, node, t);
        SpotParts(h, node, t, s);
        assert node in h && h[node] == Cell(node.c, node.entry, node.left, node.right, node.forward);
        SomeTree(h, node.left, t.left);
        SomeTree(h, node.right, t.right);
        SomeTree(h, node.forward, t.forward);
        if s[0] == node.c {
          s := s[1..];
          if s == "" { return node, Contents, s; }
          if node.forward == null { return node, Forward, s; }
          node, t := node.forward, t.forward;
        } else if s[0] < node.c {
          if node.left == null { return node, Left, s; }
          node, t := node.left, t.left;
        } else {
          if node.right == null { return node, Right, s; }
          node, t := node.right, t.right;
        }
      }
    }

    /** Links in the nodes that are missing, and stores key and value in the last one. */
    method Put(str: string, value: nat)
      requires Valid() && str != ""
      modifies this, repr
      ensures Valid() && tree == Set(old(tree), str, str, value)
      ensures fresh(repr - old(repr)) && old(repr) <= repr && root == old(root)
    {
      hide Holds, Foot, Set, SpotOf;
      var node, edit, s := FindSpot(str);
      FootIn(Snap(repr), root, tree);
      if edit == Contents {
        SetContents(node, str, value);
      } else {
        LinkChain(node, edit, s, str, value);
      }
      SetParts(tree, str, str, value);
      tree := Set(tree, str, str, value);
    }

    /** The key's last node is there already. */
    method SetContents(node: Node, str: string, value: nat)
      requires Valid() && str != "" && SpotOf(Snap(repr), root, tree, str) == Spot(node, Contents, "") && node in repr
      modifies node
      ensures Holds(Snap(repr), root, Set(tree, str, str, value))
    {
      hide Holds, Foot, Set, SpotOf, EditOf;
      ghost var h := Snap(repr);
      node.entry := Entry(str, value);
      ContentsSet(h, Snap(repr), root, tree, str, str, value);
    }

    /** New nodes for the rest of the key, linked from the end of the walk. */
    method LinkChain(node: Node, edit: Edit, s: string, str: string, value: nat)
      requires Valid() && str != "" && SpotOf(Snap(repr), root, tree, str) == Spot(node, edit, s) && node in repr
      requires edit != Contents && s != ""
      modifies this`repr, node
      ensures old(repr) <= repr && fresh(repr - old(repr)) && Holds(Snap(repr), root, Set(tree, str, str, value))
    {
      hide Holds, Foot, Set, SpotOf, Chained, EditOf, Edited;
      ghost var h := Snap(repr);
      var head, ns, all := NewChain(s, str, value);
      ghost var made := Snap(all);
      Attach(node, edit, head, str, value);
      repr := repr + all;
      LinkSets(h, Snap(repr), made, root, tree, str, ns, str, value);
    }

    /** The node a key leads to, whether or not a key ends there. */
    method Get(str: string) returns (n: Node?)
      requires Valid() && str != ""
      ensures n == null <==> Walk(tree, str).Nil?
      ensures n != null ==> n in repr && n.entry == Walk(tree, str).entry
      ensures Answer(tree, str) ==
        if n == null then Absent else if n.entry.Empty? then Interior else Found(n.entry.value)
    {
      hide Holds, Find;
      ghost var h := Snap(repr);
      var node: Node? := root;
      var i := 0;
      ghost var t := tree;
      while true
        invariant i < |str| && Holds(h, node, t) && Walk(t, str[i..]) == Walk(tree, str)
        decreases |str| - i
      {
        node, t := FindOnLevel(node, str[i], repr, t);
        SomeTree(h, node, t);
        if node == null { return null; }
        Join(h, node, t);
        i := i + 1;
        if i == |str| { return node; }
        if node.forward == null {
          SomeTree(h, node.forward, t.forward);
          WalkNil(str[i..]);
          return null;
        }
        assert str[i - 1..][1..] == str[i..];
        node, t := node.forward, t.forward;
      }
    }

    /** Whether a key has a value other than null. */
    method Exists(str: string) returns (found: bool)
      requires Valid() && str != ""
      ensures found <==> Answer(tree, str).Found? && Answer(tree, str).value != 0
    {
      var n := Get(str);
      found := n != null && n.entry.Entry? && n.entry.value != 0;
    }
  }

  method FindOnLevel(x: Node?, c: char, ghost s: set<Node>, ghost t: Tree) returns (n: Node?, ghost u: Tree)
    requires Holds(Snap(s), x, t)
    ensures u == Find(t, c) && Holds(Snap(s), n, u)
  {
    n, u := x, t;
    while n != null
      invariant Holds(Snap(s), n, u) && Find(u, c) == Find(t, c)
      decreases u
    {
      if n.c == c { return; }
      if c < n.c {
        n, u := n.left, u.left;
      } else {
        n, u := n.right, u.right;
      }
    }
  }

  /** Calls back on the entries with a value, until the callback asks to stop. */
  method Iterate(x: Node?, stop: Entry -> bool, seen: seq<Entry>, ghost s: set<Node>,
                 ghost t: Tree) returns (all: seq<Entry>)
    requires Holds(Snap(s), x, t)
    ensures all == seen + Visited(t, stop)
    decreases t
  {
    hide Holds, Foot, Visited;
    ghost var h := Snap(s);
    SomeTree(h, x, t);
    VisitedSplit(t, stop);
    all := seen;
    if x == null { return; }
    Join(h, x, t);
    SomeTree(h, x.left, t.left);
    SomeTree(h, x.right, t.right);
    SomeTree(h, x.forward, t.forward);
    VisitedSplit(Nil, stop);
    if x.left != null { all := Iterate(x.left, stop, all, s, t.left); }
    if x.entry.Entry? && x.entry.value != 0 {
      all := all + [x.entry];
      if stop(x.entry) { return; }
    }
    if x.right != null { all := Iterate(x.right, stop, all, s, t.right); }
    if x.forward != null { all := Iterate(x.forward, stop, all, s, t.forward); }
  }

  lemma VisitedSplit(t: Tree, stop: Entry -> bool)
    ensures t.Nil? ==> Visited(t, stop) == []
    ensures t.T? ==>
      var here := t.entry.Entry? && t.entry.value != 0;
      var l, r, f := Visited(t.left, stop), Visited(t.right, stop), Visited(t.forward, stop);
      Visited(t, stop) == l + (if here then [t.entry] else []) + if here && stop(t.entry) then [] else r + f
  {
  }

  /** Sets the link at the end of the walk. */
  method Attach(node: Node, edit: Edit, head: Node, ghost key: string, ghost v: nat)
    requires edit != Contents
    modifies node
    ensures Cell(node.c, node.entry, node.left, node.right, node.forward)
         == Edited(old(Cell(node.c, node.entry, node.left, node.right, node.forward)), edit, head, key, v)
  {
    if edit == Left { node.left := head; } else if edit == Right { node.right := head; } else { node.forward := head; }
  }
}
