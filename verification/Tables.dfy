/** The assembler's table of forward references as the tree it is: the order in which the
    tree is walked is one in which the fix-ups may be made. */
module Tables {
  import opened Words
  import opened Symbols
  import opened Assembly
  import opened Backpatch
  import opened Holes
  import opened Ternary

  /** The keys that a callback is given. */
  function KeysOf(s: seq<Entry>): (r: seq<string>)
    ensures |r| == |s|
  {
    seq(|s|, i requires 0 <= i < |s| => KeyOf(s[i]))
  }

  lemma {:induction false} MapHolds(sets: seq<(string, nat)>, q: string)
    ensures q in Map(sets) <==> exists i :: 0 <= i < |sets| && sets[i].0 == q
    ensures q in Map(sets) ==> (q, Map(sets)[q]) in sets
    decreases |sets|
  {
    if sets != [] {
      var n := |sets| - 1;
      var front := sets[..n];
      MapHolds(front, q);
      assert sets[n] in sets && forall x :: x in front ==> x in sets;
      if q in Map(sets) && q != sets[n].0 {
        var i :| 0 <= i < n && front[i].0 == q;
        assert sets[i].0 == q;
      }
      if i :| 0 <= i < |sets| && sets[i].0 == q && i < n { assert front[i].0 == q; }
    }
  }

  /** A visit that is not stopped takes the keys of the table once each. */
  lemma TreeOrder(sets: seq<(string, nat)>, stop: Entry -> bool)
    requires forall k :: k in sets ==> k.0 != "" && k.1 != 0
    requires forall e :: !stop(e)
    ensures var order := KeysOf(Visited(Build(sets), stop)); Enumerates(order, Map(sets).Keys) && NoRepeats(order)
  {
    hide Visited, Build, Map, Keyed, Ordered;
    var t := Build(sets);
    var s := Visited(t, stop);
    var order := KeysOf(s);
    BuildKeyed(sets);
    TreeIsMap(sets, "-");
    VisitedOnce(t, "", stop);
    VisitedUnder(t, "", stop);
    forall l ensures l in order <==> l in Map(sets).Keys {
      MapHolds(sets, l);
      if l in order {
        var i :| 0 <= i < |order| && order[i] == l;
        assert s[i] in s;
        VisitIsMap(sets, stop, l, s[i].value);
      }
      if l in Map(sets) {
        VisitIsMap(sets, stop, l, Map(sets)[l]);
        var i :| 0 <= i < |s| && s[i] == Entry(l, Map(sets)[l]);
        assert order[i] == l;
      }
    }
  }

  /** The labels that lines enter into the forward table, in the order in which they do. */
  function Entries(a: Asm, prog: seq<Line>): seq<string>
    requires ProgramOk(prog)
    decreases |prog|
  {
    if prog == [] then [] else
    match EmitLine(a, prog[0])
    case Running(b) => EntriesOf(a, prog[0], b) + Entries(b, prog[1..])
    case _ => []
  }

  function EntriesOf(a: Asm, line: Line, b: Asm): seq<string> {
    match Target(line)
    case Some(l) => if l in b.fwd && l !in a.fwd then [l] else []
    case None => []
  }

  lemma EmitLineEntries(a: Asm, line: Line)
    requires LineOk(line) && !EmitLine(a, line).Crashed?
    ensures var b := EmitLine(a, line).asm;
      && (EmitLine(a, line).Halted? ==> b.fwd == a.fwd)
      && b.fwd.Keys == a.fwd.Keys + (set l | l in EntriesOf(a, line, b)) && "" !in EntriesOf(a, line, b)
  {
  }

  lemma {:induction false} RunEntries(a: Asm, prog: seq<Line>)
    requires ProgramOk(prog)
    ensures "" !in Entries(a, prog)
    ensures !Run(a, prog).Crashed? ==> Run(a, prog).asm.fwd.Keys == a.fwd.Keys + set l | l in Entries(a, prog)
    decreases |prog|
  {
    hide EmitLine, EntriesOf;
    if prog != [] && !EmitLine(a, prog[0]).Crashed? {
      EmitLineEntries(a, prog[0]);
      if EmitLine(a, prog[0]).Running? { RunEntries(EmitLine(a, prog[0]).asm, prog[1..]); }
    }
  }

  /** What is set in the tree: each label with the address of its list of holes. */
  function Settings(labels: seq<string>, list: string -> nat): (r: seq<(string, nat)>)
    ensures |r| == |labels|
  {
    seq(|labels|, i requires 0 <= i < |labels| => (labels[i], list(labels[i])))
  }

  /** The order in which the program's own tree has the fix-ups made. */
  function WalkOrder(prog: seq<Line>, list: string -> nat): seq<string>
    requires ProgramOk(prog)
  {
    RunEntries(START, prog);
    KeysOf(Visited(Build(Settings(Entries(START, prog), list)), _ => false))
  }

  /** Wherever the lists are, the walk takes each label in the forward table once. */
  lemma WalkEnumerates(prog: seq<Line>, list: string -> nat)
    requires ProgramOk(prog) && !Run(START, prog).Crashed? && forall l :: list(l) != 0
    ensures Enumerates(WalkOrder(prog, list), Run(START, prog).asm.fwd.Keys) && NoRepeats(WalkOrder(prog, list))
  {
    hide Run, Entries, Visited, Build, Map;
    var labels := Entries(START, prog);
    var sets := Settings(labels, list);
    RunEntries(START, prog);
    TreeOrder(sets, _ => false);
    forall l ensures l in Map(sets) <==> l in Run(START, prog).asm.fwd {
      MapHolds(sets, l);
      if l in labels {
        var i :| 0 <= i < |labels| && labels[i] == l;
        assert sets[i].0 == l;
      }
    }
  }

  /** With the fix-ups in the order of that walk, as the program makes them, the file is that
      of the two-pass reference if and only if no reference is captured. */
  lemma WalkIsTwoPass(prog: seq<Line>, list: string -> nat)
    requires WellDefined(prog) && |Reference(prog)| < TWO32 && forall l :: list(l) != 0
    ensures !Run(START, prog).Crashed? ==>
      HolesOk(Run(START, prog).asm) && Enumerates(WalkOrder(prog, list), Run(START, prog).asm.fwd.Keys)
    ensures Finish(Run(START, prog), WalkOrder(prog, list)) == Some(Reference(prog)) <==> Clean(prog, {}, {})
  {
    hide Run, WalkOrder, Reference, Clean;
    if !Run(START, prog).Crashed? { WalkEnumerates(prog, list); }
    OnePassIsTwoPass(prog, WalkOrder(prog, list));
  }
}
