/** What the holes of any run look like and what the fix-ups do to them, also for programs
    with undefined or captured labels. */
module Holes {
  import opened Words
  import opened Isa
  import opened Symbols
  import opened Assembly
  import opened Backpatch

  /** Every hole holds the placeholder, and no two holes share a byte. */
  ghost predicate Tidy(a: Asm) {
    && HolesOk(a)
    && (forall l, k :: l in a.fwd && 0 <= k < |a.fwd[l]| ==> At(a.dest, a.fwd[l][k], HOLE))
    && (forall l, k, l', k' ::
          l in a.fwd && 0 <= k < |a.fwd[l]| && l' in a.fwd && 0 <= k' < |a.fwd[l']| && (l != l' || k != k')
          ==> Apart(a.fwd[l][k], a.fwd[l'][k']))
  }

  predicate Apart(h: nat, h': nat) { h + 4 <= h' || h' + 4 <= h }

  lemma AppendTidy(a: Asm, s: seq<byte>)
    requires Tidy(a)
    ensures Tidy(a.(dest := a.dest + s))
  {
    var b := a.(dest := a.dest + s);
    forall l, k | l in b.fwd && 0 <= k < |b.fwd[l]| ensures At(b.dest, b.fwd[l][k], HOLE) {
      assert At(a.dest, a.fwd[l][k], HOLE);
      assert b.dest[a.fwd[l][k]..a.fwd[l][k] + 4] == a.dest[a.fwd[l][k]..a.fwd[l][k] + 4];
    }
  }

  lemma EmitLabelTidy(a: Asm, l: string)
    requires Tidy(a)
    ensures EmitLabel(a, l).Running? ==> Tidy(EmitLabel(a, l).asm)
  {
    hide ToLE;
    var at := |a.dest|;
    match Get(a.labels, l)
    case Found(p) => AppendTidy(a, ToLE(Rel(p, at), 4));
    case Interior => AppendTidy(a, ToLE(Rel(0, at), 4));
    case Absent =>
      if !Get(a.fwd, l).Interior? {
        AppendTidy(a, HOLE);
        var b := a.(dest := a.dest + HOLE);
        var c := EmitLabel(a, l).asm;
        var before := if l in a.fwd then a.fwd[l] else [];
        assert before + [at] == if l in a.fwd then a.fwd[l] + [at] else [at];
        assert c == b.(fwd := b.fwd[l := before + [at]]);
        NewHoleTidy(b, l, before, at);
      }
  }

  /** A placeholder after all existing holes becomes one more hole. */
  lemma NewHoleTidy(b: Asm, l: string, holes: seq<nat>, at: nat)
    requires Tidy(b) && At(b.dest, at, HOLE)
    requires holes == if l in b.fwd then b.fwd[l] else []
    requires forall l', k :: l' in b.fwd && 0 <= k < |b.fwd[l']| ==> b.fwd[l'][k] + 4 <= at
    ensures Tidy(b.(fwd := b.fwd[l := holes + [at]]))
  {
    var c := b.(fwd := b.fwd[l := holes + [at]]);
    forall l', k | l' in c.fwd && 0 <= k < |c.fwd[l']|
      ensures At(c.dest, c.fwd[l'][k], HOLE)
      ensures (l' == l && k == |holes|) || (l' in b.fwd && k < |b.fwd[l']| && c.fwd[l'][k] == b.fwd[l'][k])
    {
    }
  }

  lemma EmitLineTidy(a: Asm, line: Line)
    requires Tidy(a) && LineOk(line)
    ensures !EmitLine(a, line).Crashed? ==> Tidy(EmitLine(a, line).asm)
  {
    hide ToLE, Encode, EmitLabel;
    if line.name.Some? && line.name.value in a.labels && a.labels[line.name.value] != 0 { return; }
    var b := Entered(a, line);
    assert Tidy(b);
    if line.stmt.None? { return; }
    match line.stmt.value
    case Code(i) => AppendTidy(b, Encode(i));
    case Data(bytes) => AppendTidy(b, bytes);
    case Unknown =>
    case Jump(op, l) =>
      AppendTidy(b, [op]);
      EmitLabelTidy(b.(dest := b.dest + [op]), l);
      EmitLabelExtends(b.(dest := b.dest + [op]), l);
    case ReferTo(l, r) =>
      var c := b.(dest := b.dest + [REFER]);
      AppendTidy(b, [REFER]);
      EmitLabelTidy(c, l);
      EmitLabelExtends(c, l);
      if EmitLabel(c, l).Running? { AppendTidy(EmitLabel(c, l).asm, [r]); }
  }

  lemma {:induction false} RunTidy(a: Asm, prog: seq<Line>)
    requires Tidy(a) && ProgramOk(prog)
    ensures !Run(a, prog).Crashed? ==> Tidy(Run(a, prog).asm)
    decreases |prog|
  {
    hide EmitLine, Tidy;
    if prog != [] {
      EmitLineTidy(a, prog[0]);
      if EmitLine(a, prog[0]).Running? { RunTidy(EmitLine(a, prog[0]).asm, prog[1..]); }
    }
  }

  /** What a hole for `l` at `h` must hold in the end. */
  function Filling(labels: map<string, nat>, l: string, h: nat): seq<byte> {
    match Get(labels, l)
    case Found(p) => ToLE(Rel(p, h), 4)
    case Interior => ToLE(Rel(0, h), 4)
    case Absent => HOLE
  }

  lemma {:induction false} PatchAllFills(d: seq<byte>, p: nat, holes: seq<nat>, k: nat)
    requires InRange(holes, |d|) && k < |holes|
    requires forall i, j :: 0 <= i < j < |holes| ==> Apart(holes[i], holes[j])
    ensures At(PatchAll(d, p, holes), holes[k], ToLE(Rel(p, holes[k]), 4))
    decreases |holes|
  {
    hide ToLE;
    var h := holes[0];
    var e := Patch(d, h, Rel(p, h));
    if k == 0 {
      var r := PatchAll(e, p, holes[1..]);
      forall j | h <= j < h + 4 ensures r[j] == e[j] {
        forall i | 0 <= i < |holes[1..]| ensures !(holes[1..][i] <= j < holes[1..][i] + 4) {
          assert Apart(holes[0], holes[i + 1]);
        }
        PatchAllFrame(e, p, holes[1..], j);
      }
      assert r[h..h + 4] == e[h..h + 4] == ToLE(Rel(p, h), 4);
    } else {
      forall i, j | 0 <= i < j < |holes[1..]| ensures Apart(holes[1..][i], holes[1..][j]) {
        assert Apart(holes[i + 1], holes[j + 1]);
      }
      PatchAllFills(e, p, holes[1..], k - 1);
    }
  }

  /** A fix-up of one label leaves the holes of the others alone. */
  lemma PatchAllElsewhere(d: seq<byte>, p: nat, holes: seq<nat>, h: nat, s: seq<byte>)
    requires InRange(holes, |d|) && |s| == 4 && At(d, h, s)
    requires forall k :: 0 <= k < |holes| ==> Apart(holes[k], h)
    ensures At(PatchAll(d, p, holes), h, s)
  {
    var r := PatchAll(d, p, holes);
    forall j | h <= j < h + 4 ensures r[j] == d[j] {
      PatchAllFrame(d, p, holes, j);
    }
    assert r[h..h + 4] == d[h..h + 4];
  }

  predicate NoRepeats(order: seq<string>) {
    forall i, j :: 0 <= i < j < |order| ==> order[i] != order[j]
  }

  /** Walking the table, a hole of a label already visited keeps its filling and a hole of
      a label still to come receives it. */
  lemma {:induction false} FixUpFills(a: Asm, d: seq<byte>, order: seq<string>, l: string, k: nat)
    requires Tidy(a) && |d| == |a.dest| && NoRepeats(order)
    requires forall x :: x in order ==> x in a.fwd
    requires l in a.fwd && k < |a.fwd[l]|
    requires At(d, a.fwd[l][k], if l in order then HOLE else Filling(a.labels, l, a.fwd[l][k]))
    ensures At(FixUp(d, a.labels, a.fwd, order), a.fwd[l][k], Filling(a.labels, l, a.fwd[l][k]))
    decreases |order|
  {
    hide ToLE;
    if order != [] {
      var x, h := order[0], a.fwd[l][k];
      var g := Get(a.labels, x);
      var p := if g.Found? then g.value else 0;
      var e := if g.Absent? then d else PatchAll(d, p, a.fwd[x]);
      assert forall y :: y in order[1..] ==> y in order;
      if x == l {
        assert forall i :: 0 <= i < |order[1..]| ==> order[1..][i] == order[i + 1] != order[0];
        if !g.Absent? { PatchAllFills(d, p, a.fwd[l], k); }
      } else {
        assert l in order <==> l in order[1..];
        if !g.Absent? {
          PatchAllElsewhere(d, p, a.fwd[x], h, if l in order then HOLE else Filling(a.labels, l, h));
        }
      }
      assert NoRepeats(order[1..]) by {
        forall i, j | 0 <= i < j < |order[1..]| ensures order[1..][i] != order[1..][j] {
          assert order[i + 1] != order[j + 1];
        }
      }
      FixUpFills(a, e, order[1..], l, k);
    }
  }

  /** For every run that does not dereference NULL, whatever its labels: the holes are
      pairwise disjoint; each ends up with the offset its lookup gives, or keeps the
      placeholder when the label was never defined; and no other byte changes. */
  lemma HolesFilledOnce(prog: seq<Line>, order: seq<string>)
    requires ProgramOk(prog) && !Run(START, prog).Crashed?
    requires Enumerates(order, Run(START, prog).asm.fwd.Keys) && NoRepeats(order)
    ensures var a := Run(START, prog).asm;
      && Tidy(a)
      && var d := FixUp(a.dest, a.labels, a.fwd, order);
      && (forall l, k :: l in a.fwd && 0 <= k < |a.fwd[l]| ==> At(d, a.fwd[l][k], Filling(a.labels, l, a.fwd[l][k])))
      && (forall j :: 0 <= j < |a.dest| && !InHole(a.fwd, j) ==> d[j] == a.dest[j])
  {
    hide ToLE;
    RunTidy(START, prog);
    var a := Run(START, prog).asm;
    var d := FixUp(a.dest, a.labels, a.fwd, order);
    forall l, k | l in a.fwd && 0 <= k < |a.fwd[l]| ensures At(d, a.fwd[l][k], Filling(a.labels, l, a.fwd[l][k])) {
      FixUpFills(a, a.dest, order, l, k);
    }
    forall j | 0 <= j < |a.dest| && !InHole(a.fwd, j) ensures d[j] == a.dest[j] {
      FixUpFrame(a.dest, a.labels, a.fwd, order, j);
    }
  }
}
