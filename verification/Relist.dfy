/** Disassembling an assembled file and assembling the listing again. */
module Relist {
  import opened Words
  import opened Isa
  import opened Assembly
  import opened Backpatch
  import opened Landing
  import opened OnePass
  import opened Names
  import opened Immediate
  import Disasm
  import Loops

  /** How labels are spelt in a listing. */
  function NameOf(n: nat): string { "label" + Numeral(n, 10) }

  lemma NamesDiffer(a: nat, b: nat)
    requires NameOf(a) == NameOf(b)
    ensures a == b
  {
    NumeralValue(a, 10);
    NumeralValue(b, 10);
    assert NameOf(a)[5..] == Numeral(a, 10) && NameOf(b)[5..] == Numeral(b, 10);
  }

  /** The line that the second pass prints for the instruction at `p`, read as source. */
  function LineFor(keys: seq<u32>, p: nat, i: Instr): Line {
    var front := Disasm.Number(keys, p % TWO32);
    Line(if front == 0 then None else Some(NameOf(front)),
         Some(match i
              case Offset(op, v) => Jump(op, NameOf(Disasm.Number(keys, (p + 9 + v) % TWO32)))
              case Refer(v, r) => ReferTo(NameOf(Disasm.Number(keys, (p + 9 + v) % TWO32)), r)
              case _ => Code(i)))
  }

  /** The labels in it are those of `Disasm.Listing`. */
  lemma LineForListed(m: seq<byte>, keys: seq<u32>, p: nat)
    requires Decode(m, p).Some?
    ensures p < |m| && (Disasm.References(OpcodeOf(m[p])) ==> p + 5 <= |m|)
    ensures var line, printed := LineFor(keys, p, Decode(m, p).value.i), Disasm.LineAt(m, keys, p);
      && line.name == (if printed.front == 0 then None else Some(NameOf(printed.front)))
      && (Disasm.References(OpcodeOf(m[p])) ==> Target(line) == Some(NameOf(printed.ref)))
  {
    hide LoadW, NameOf, Disasm.Number;
  }

  /** Whatever is fetched can be assembled. */
  lemma FetchedOk(m: seq<byte>, keys: seq<u32>, p: nat)
    requires Decode(m, p).Some?
    ensures WellFormed(Decode(m, p).value.i) && LineOk(LineFor(keys, p, Decode(m, p).value.i))
  {
    hide Load, FromLE, Disasm.Number;
  }

  /** The listing of the code from `p` on, as lines of source. */
  function Lines(m: seq<byte>, keys: seq<u32>, p: nat): (r: seq<Line>)
    ensures ProgramOk(r)
    decreases |m| - p
  {
    if p >= |m| then [] else
    var f := Decode(m, p);
    if f.None? || f.value.next <= p then [] else
    FetchedOk(m, keys, p);
    [LineFor(keys, p, f.value.i)] + Lines(m, keys, f.value.next)
  }

  function Listing(m: seq<byte>): (r: seq<Line>)
    ensures ProgramOk(r)
  {
    Lines(m, Disasm.Keys(m), 0)
  }

  // ---- The same lines from the program ----

  /** Every line can be listed, and what is referred to is not the end of the file. */
  ghost predicate Listable(prog: seq<Line>) {
    && PlainProgram(prog)
    && (forall l :: l in prog && l.stmt.Some? && l.stmt.value.Code? ==>
         !l.stmt.value.i.Offset? && !l.stmt.value.i.Refer?)
    && (forall l :: l in prog && Target(l).Some? ==> Place(prog, Target(l).value) < CodeSize(prog))
  }

  /** Where a label is, counted from the beginning of the code. */
  ghost function Place(prog: seq<Line>, l: string): nat
    requires ProgramOk(prog)
  {
    var F := Defs(prog, |HEADER|);
    if l in F && F[l] >= |HEADER| then F[l] - |HEADER| else 0
  }

  ghost function Renamed(prog: seq<Line>, keys: seq<u32>, p: nat, line: Line): Line
    requires ProgramOk(prog) && line.stmt.Some?
  {
    var front := Disasm.Number(keys, p % TWO32);
    Line(if front == 0 then None else Some(NameOf(front)),
         Some(match line.stmt.value
              case Jump(op, l) => Jump(op, NameOf(Disasm.Number(keys, Place(prog, l) % TWO32)))
              case ReferTo(l, r) => ReferTo(NameOf(Disasm.Number(keys, Place(prog, l) % TWO32)), r)
              case Code(i) => Code(i)
              case _ => Unknown))
  }

  /** The lines with a statement from line `j` on, their labels renamed. */
  ghost function Tail(prog: seq<Line>, keys: seq<u32>, j: nat): seq<Line>
    requires ProgramOk(prog) && j <= |prog|
    decreases |prog| - j
  {
    if j == |prog| then []
    else if prog[j].stmt.None? then Tail(prog, keys, j + 1)
    else [Renamed(prog, keys, Start(prog, j, 0), prog[j])] + Tail(prog, keys, j + 1)
  }

  lemma PlaceOf(prog: seq<Line>, k: nat) returns (d: nat)
    requires PlainProgram(prog) && k < |prog| && Target(prog[k]).Some?
    ensures d < |prog| && prog[d].name == Target(prog[k])
    ensures Place(prog, Target(prog[k]).value) == Start(prog, d, 0) < TWO32
    ensures Target(prog[k]).value in Defs(prog, |HEADER|)
    ensures Defs(prog, |HEADER|)[Target(prog[k]).value] == |HEADER| + Start(prog, d, 0)
  {
    hide UniqueLabels, Recognised, Reference, Start, Defs;
    d := Definition(prog, k);
    DefAt(prog, |HEADER|, d);
    StartShift(prog, d, |HEADER|);
    StartBound(prog, d);
  }

  lemma ReferFetched(prog: seq<Line>, m: seq<byte>, k: nat, d: nat)
    requires WellDefined(prog) && Loaded(m, 0, Reference(prog))
    requires k < |prog| && d < |prog| && prog[k].stmt.Some? && prog[k].stmt.value.ReferTo?
    requires prog[d].name == Some(prog[k].stmt.value.target) && Start(prog, d, 0) < TWO32
    ensures var p := Start(prog, k, 0); var f := Decode(m, p);
      && f.Some? && f.value.next == p + 6 == Start(prog, k + 1, 0)
      && f.value.i.Refer? && f.value.i.r == prog[k].stmt.value.r
      && (p + 9 + f.value.i.offset) % TWO32 == Start(prog, d, 0)
  {
    hide ToLE, FromLE, Encode, Defs, Decode, Loaded, Reference, Rel, Start, UniqueLabels, Recognised, TargetsIn;
    LoadedStmt(prog, m, 0, k);
    RefOffset(prog, m, 0, k, d);
    StartNext(prog, k, 0);
    var p, st := Start(prog, k, 0), prog[k].stmt.value;
    DecodeRefer(m, p, REFER, Rel(Defs(prog, |HEADER|)[st.target], |HEADER| + p + 1), st.r);
  }

  /** What the disassembler reads where a line begins. */
  lemma LineRead(prog: seq<Line>, keys: seq<u32>, k: nat)
    requires Listable(prog) && k < |prog| && prog[k].stmt.Some?
    ensures var m, p := CodeOf(prog), Start(prog, k, 0);
      && p < |m| && Decode(m, p).Some? && Decode(m, p).value.next == Start(prog, k + 1, 0) > p
      && LineFor(keys, p, Decode(m, p).value.i) == Renamed(prog, keys, p, prog[k])
  {
    hide ToLE, FromLE, Encode, Defs, Decode, Loaded, Reference, Rel, Start, UniqueLabels, Recognised, CodeOf, Place,
         NameOf, Disasm.Number;
    CodeLoaded(prog);
    LineSized(prog, k);
    SizedFurther(CodeOf(prog), Start(prog, k, 0), Start(prog, k + 1, 0));
    var m := CodeOf(prog);
    assert prog[k] in prog && Plain(prog[k]);
    match prog[k].stmt.value
    case Code(i) => CodeFetched(prog, m, 0, k);
    case Jump(_, _) =>
      var d := PlaceOf(prog, k);
      Loops.JumpFetched(prog, m, 0, k, d);
      Remainder(Start(prog, d, 0), TWO32, 0, Start(prog, d, 0));
    case ReferTo(_, _) =>
      var d := PlaceOf(prog, k);
      ReferFetched(prog, m, k, d);
      Remainder(Start(prog, d, 0), TWO32, 0, Start(prog, d, 0));
  }

  lemma SizedFurther(m: seq<byte>, p: nat, next: nat)
    requires SizedAlike(m, p, next)
    ensures p < next <= |m|
  {
    Disasm.ReferenceSize(OpcodeOf(m[p]), WidthOf(m[p] % 4));
  }

  /** The listing of an assembled program is the program with other names for its labels. */
  lemma {:induction false} ListedIsTail(prog: seq<Line>, keys: seq<u32>, j: nat)
    requires Listable(prog) && j <= |prog|
    ensures Lines(CodeOf(prog), keys, Start(prog, j, 0)) == Tail(prog, keys, j)
    decreases |prog| - j
  {
    hide CodeOf, Start, UniqueLabels, Recognised, TargetsIn, Defs, Reference, LineFor, Renamed, Decode, Plain;
    if j == |prog| {
      StartEnd(prog, 0);
      CodeLoaded(prog);
    } else {
      ListedIsTail(prog, keys, j + 1);
      if prog[j].stmt.Some? { LineRead(prog, keys, j); } else { StartNext(prog, j, 0); }
    }
  }

  /** The source lines and what the second pass prints are for the same positions, entry by
      entry, and agree in the labels. */
  ghost predicate Matches(m: seq<byte>, keys: seq<u32>, lines: seq<Line>, printed: seq<Disasm.Printed>) {
    && |lines| == |printed|
    && forall i :: 0 <= i < |lines| ==> Match(m, keys, lines[i], printed[i])
  }

  ghost predicate Match(m: seq<byte>, keys: seq<u32>, line: Line, printed: Disasm.Printed) {
    var f := Decode(m, printed.at);
    && f.Some? && line == LineFor(keys, printed.at, f.value.i)
    && line.name == (if printed.front == 0 then None else Some(NameOf(printed.front)))
    && (Target(line).Some? ==> Target(line) == Some(NameOf(printed.ref)))
  }

  lemma MatchHere(m: seq<byte>, keys: seq<u32>, p: nat)
    requires Decode(m, p).Some? && p < |m| && (Disasm.References(OpcodeOf(m[p])) ==> p + 5 <= |m|)
    ensures Match(m, keys, LineFor(keys, p, Decode(m, p).value.i), Disasm.LineAt(m, keys, p))
  {
    hide LoadW, NameOf, Disasm.Number;
    LineForListed(m, keys, p);
  }

  lemma {:induction false} LinesMatch(prog: seq<Line>, keys: seq<u32>, j: nat)
    requires Listable(prog) && j <= |prog|
    ensures var m, p := CodeOf(prog), Start(prog, j, 0);
      Matches(m, keys, Lines(m, keys, p), Disasm.Listed(m, keys, p, p % TWO32))
    decreases |prog| - j
  {
    hide CodeOf, Start, UniqueLabels, Recognised, TargetsIn, Defs, Reference, LineFor, Renamed, Decode, Plain, Match,
         Disasm.LineAt, Disasm.TwoSize, Disasm.OneSize, Disasm.References;
    var m, p := CodeOf(prog), Start(prog, j, 0);
    if j == |prog| {
      StartEnd(prog, 0);
      CodeLoaded(prog);
    } else {
      LinesMatch(prog, keys, j + 1);
      if prog[j].stmt.Some? {
        LineRead(prog, keys, j);
        LineSized(prog, j);
        Disasm.ListedStep(m, keys, p);
        MatchHere(m, keys, p);
      } else {
        StartNext(prog, j, 0);
      }
    }
  }

  /** The listing read as source is the listing that the second pass prints. */
  lemma ListingsMatch(prog: seq<Line>)
    requires Listable(prog)
    ensures var m := CodeOf(prog); Matches(m, Disasm.Keys(m), Listing(m), Disasm.Listing(m))
  {
    hide CodeOf, Start, UniqueLabels, Recognised, TargetsIn, Defs, Reference, Matches, Lines, Disasm.Listed,
         Disasm.Keys;
    StartZero(prog);
    LinesMatch(prog, Disasm.Keys(CodeOf(prog)), 0);
  }

  // ---- The renamed program is well defined ----

  lemma RenamedOk(prog: seq<Line>, keys: seq<u32>, p: nat, k: nat)
    requires PlainProgram(prog) && k < |prog| && prog[k].stmt.Some?
    ensures var line := Renamed(prog, keys, p, prog[k]);
      LineOk(prog[k]) && LineOk(line) && line.stmt != Some(Unknown) && LineSize(line) == LineSize(prog[k]) > 0
  {
    hide Reference, UniqueLabels, Recognised, TargetsIn, Defs, Place, Disasm.Number, ToLE;
    assert prog[k] in prog && Plain(prog[k]);
  }

  lemma {:induction false} TailOk(prog: seq<Line>, keys: seq<u32>, j: nat)
    requires PlainProgram(prog) && j <= |prog|
    ensures ProgramOk(Tail(prog, keys, j)) && Recognised(Tail(prog, keys, j))
    decreases |prog| - j
  {
    hide Reference, UniqueLabels, TargetsIn, Defs, Renamed, Start, Plain, LineOk;
    if j < |prog| {
      TailOk(prog, keys, j + 1);
      if prog[j].stmt.Some? { RenamedOk(prog, keys, Start(prog, j, 0), j); }
    }
  }

  /** A name for a position from `q` on. */
  ghost predicate NamesFrom(x: string, keys: seq<u32>, q: nat) {
    exists pos: u32 :: q <= pos && Disasm.Number(keys, pos) != 0 && x == NameOf(Disasm.Number(keys, pos))
  }

  ghost predicate AllFrom(lines: seq<Line>, keys: seq<u32>, q: nat) {
    forall i :: 0 <= i < |lines| && lines[i].name.Some? ==> NamesFrom(lines[i].name.value, keys, q)
  }

  lemma NamesLater(x: string, keys: seq<u32>, q: nat, pos: u32)
    requires NamesFrom(x, keys, q) && pos < q && Disasm.Number(keys, pos) != 0
    ensures x != NameOf(Disasm.Number(keys, pos))
  {
    hide NameOf, Disasm.Number;
    var other: u32 :| q <= other && Disasm.Number(keys, other) != 0 && x == NameOf(Disasm.Number(keys, other));
    if x == NameOf(Disasm.Number(keys, pos)) {
      NamesDiffer(Disasm.Number(keys, other), Disasm.Number(keys, pos));
      Disasm.NumbersDistinct(keys, other, pos);
    }
  }

  lemma AllLater(lines: seq<Line>, keys: seq<u32>, q: nat, r: nat)
    requires AllFrom(lines, keys, q) && r <= q
    ensures AllFrom(lines, keys, r)
  {
    hide NameOf, Disasm.Number;
    forall i | 0 <= i < |lines| && lines[i].name.Some? ensures NamesFrom(lines[i].name.value, keys, r) {
      assert NamesFrom(lines[i].name.value, keys, q);
    }
  }

  lemma {:induction false} TailNames(prog: seq<Line>, keys: seq<u32>, j: nat)
    requires PlainProgram(prog) && j <= |prog|
    ensures AllFrom(Tail(prog, keys, j), keys, Start(prog, j, 0)) && UniqueLabels(Tail(prog, keys, j))
    decreases |prog| - j
  {
    hide Reference, TargetsIn, Defs, Start, Plain, LineOk, AllFrom, UniqueLabels, Recognised, Renamed;
    if j == |prog| {
      NoLines(keys, Start(prog, j, 0));
    } else {
      TailNames(prog, keys, j + 1);
      StartNext(prog, j, 0);
      if prog[j].stmt.Some? {
        RenamedOk(prog, keys, Start(prog, j, 0), j);
        StartBound(prog, j);
        NamesJoin(prog, keys, j, Tail(prog, keys, j + 1));
      }
    }
  }

  lemma NoLines(keys: seq<u32>, q: nat)
    ensures AllFrom([], keys, q) && UniqueLabels([])
  {
  }

  lemma NamesJoin(prog: seq<Line>, keys: seq<u32>, j: nat, rest: seq<Line>)
    requires ProgramOk(prog) && j < |prog| && prog[j].stmt.Some? && Start(prog, j, 0) < TWO32
    requires Start(prog, j, 0) < Start(prog, j + 1, 0)
    requires AllFrom(rest, keys, Start(prog, j + 1, 0)) && UniqueLabels(rest)
    ensures var lines := [Renamed(prog, keys, Start(prog, j, 0), prog[j])] + rest;
      AllFrom(lines, keys, Start(prog, j, 0)) && UniqueLabels(lines)
  {
    hide Start, NameOf, Disasm.Number, Place, NamesFrom;
    var p: u32 := Start(prog, j, 0);
    var line := Renamed(prog, keys, p, prog[j]);
    Remainder(p, TWO32, 0, p);
    AllLater(rest, keys, Start(prog, j + 1, 0), p);
    if line.name.Some? {
      assert NamesFrom(line.name.value, keys, p) by { NameHere(keys, p); }
      forall i | 0 <= i < |rest| && rest[i].name.Some? ensures rest[i].name != line.name {
        NamesLater(rest[i].name.value, keys, Start(prog, j + 1, 0), p);
      }
    }
  }

  lemma NameHere(keys: seq<u32>, p: u32)
    requires Disasm.Number(keys, p) != 0
    ensures NamesFrom(NameOf(Disasm.Number(keys, p)), keys, p)
  {
  }

  // ---- Its labels are where they were ----

  lemma {:induction false} StartLe(prog: seq<Line>, a: nat, b: nat)
    requires ProgramOk(prog) && a <= b <= |prog|
    ensures Start(prog, a, 0) <= Start(prog, b, 0)
    decreases b
  {
    hide Start;
    if a < b {
      StartLe(prog, a, b - 1);
      StartNext(prog, b - 1, 0);
    }
  }

  /** The first instruction at or behind line `d`. */
  lemma {:induction false} FirstAt(prog: seq<Line>, d: nat) returns (k: nat)
    requires ProgramOk(prog) && d <= |prog| && Start(prog, d, 0) < CodeSize(prog)
    ensures d <= k < |prog| && prog[k].stmt.Some? && Start(prog, k, 0) == Start(prog, d, 0)
    decreases |prog| - d
  {
    hide Start, CodeSize;
    StartEnd(prog, 0);
    StartNext(prog, d, 0);
    k := d;
    if prog[d].stmt.None? { k := FirstAt(prog, d + 1); }
  }

  lemma {:induction false} DefsTail(prog: seq<Line>, keys: seq<u32>, j: nat, k: nat)
    requires PlainProgram(prog) && j <= k < |prog| && prog[k].stmt.Some? && Start(prog, k, 0) < TWO32
    requires Disasm.Number(keys, Start(prog, k, 0)) != 0 && ProgramOk(Tail(prog, keys, j))
    ensures var T, name := Defs(Tail(prog, keys, j), |HEADER| + Start(prog, j, 0)),
                       NameOf(Disasm.Number(keys, Start(prog, k, 0)));
      name in T && T[name] == |HEADER| + Start(prog, k, 0)
    decreases k - j
  {
    hide Reference, TargetsIn, Start, Plain, LineOk, UniqueLabels, Recognised, NameOf, Disasm.Number, Size, Place;
    StartNext(prog, j, 0);
    if j < k { TailOk(prog, keys, j + 1); }
    if prog[j].stmt.None? {
      DefsTail(prog, keys, j + 1, k);
    } else {
      var p := Start(prog, j, 0);
      var line := Renamed(prog, keys, p, prog[j]);
      RenamedOk(prog, keys, p, j);
      StartBound(prog, j);
      Remainder(p, TWO32, 0, p);
      assert Tail(prog, keys, j)[0] == line && Tail(prog, keys, j)[1..] == Tail(prog, keys, j + 1);
      TailOk(prog, keys, j + 1);
      if j < k {
        DefsTail(prog, keys, j + 1, k);
        StartLe(prog, j + 1, k);
        if line.name.Some? { NamesApart(keys, p, Start(prog, k, 0)); }
      }
    }
  }

  lemma NamesApart(keys: seq<u32>, a: u32, b: u32)
    requires a != b && Disasm.Number(keys, a) != 0 && Disasm.Number(keys, b) != 0
    ensures NameOf(Disasm.Number(keys, a)) != NameOf(Disasm.Number(keys, b))
  {
    hide NameOf, Disasm.Number;
    if NameOf(Disasm.Number(keys, a)) == NameOf(Disasm.Number(keys, b)) {
      NamesDiffer(Disasm.Number(keys, a), Disasm.Number(keys, b));
      Disasm.NumbersDistinct(keys, a, b);
    }
  }

  /** Line `k` refers in the listing to a name that stands where its label did. */
  ghost predicate TargetKept(prog: seq<Line>, keys: seq<u32>, T: map<string, nat>, k: nat)
    requires ProgramOk(prog) && k < |prog|
  {
    Target(prog[k]).Some? ==>
      var l := Target(prog[k]).value;
      var name, F := NameOf(Disasm.Number(keys, Place(prog, l) % TWO32)), Defs(prog, |HEADER|);
      l in F && name in T && T[name] == F[l]
  }

  lemma {:induction false} KeepsTarget(prog: seq<Line>, k: nat)
    requires Listable(prog) && k < |prog|
    ensures var keys := Disasm.Keys(CodeOf(prog));
      && ProgramOk(Tail(prog, keys, 0)) && TargetKept(prog, keys, Defs(Tail(prog, keys, 0), |HEADER|), k)
  {
    hide Reference, TargetsIn, Start, UniqueLabels, Recognised, NameOf, Disasm.Number, CodeOf, Defs, Disasm.Keys,
         Tail, Place, TargetKept, LineOk, Plain, CodeSize;
    var keys := Disasm.Keys(CodeOf(prog));
    TailOk(prog, keys, 0);
    StartZero(prog);
    var T := Defs(Tail(prog, keys, 0), |HEADER|);
    if Target(prog[k]).Some? {
      assert prog[k] in prog;
      var d := PlaceOf(prog, k);
      var i := FirstAt(prog, d);
      TargetNumbered(prog, k, d);
      DefsTail(prog, keys, 0, i);
      KeptBy(prog, keys, T, k, Start(prog, d, 0));
    } else {
      NoTarget(prog, keys, T, k);
    }
  }

  lemma KeptBy(prog: seq<Line>, keys: seq<u32>, T: map<string, nat>, k: nat, q: u32)
    requires ProgramOk(prog) && k < |prog| && Target(prog[k]).Some? && Place(prog, Target(prog[k]).value) == q
    requires Target(prog[k]).value in Defs(prog, |HEADER|)
    requires Defs(prog, |HEADER|)[Target(prog[k]).value] == |HEADER| + q
    requires NameOf(Disasm.Number(keys, q)) in T && T[NameOf(Disasm.Number(keys, q))] == |HEADER| + q
    ensures TargetKept(prog, keys, T, k)
  {
    hide Place, Defs, NameOf, Disasm.Number, Target;
    Remainder(q, TWO32, 0, q);
  }

  lemma NoTarget(prog: seq<Line>, keys: seq<u32>, T: map<string, nat>, k: nat)
    requires ProgramOk(prog) && k < |prog| && Target(prog[k]).None?
    ensures TargetKept(prog, keys, T, k)
  {
  }

  lemma {:induction false} TargetNumbered(prog: seq<Line>, k: nat, d: nat)
    requires PlainProgram(prog) && k < |prog| && d < |prog|
    requires Target(prog[k]).Some? && prog[d].name == Target(prog[k]) && Start(prog, d, 0) < TWO32
    ensures Disasm.Number(Disasm.Keys(CodeOf(prog)), Start(prog, d, 0)) != 0
  {
    hide CodeOf, Start, UniqueLabels, Recognised, TargetsIn, Defs, Reference, Disasm.Number, Disasm.Entered;
    var m := CodeOf(prog);
    CodeLoaded(prog);
    assert prog[k] in prog && Start(prog, 0, 0) == 0 by { StartZero(prog); }
    AllLinesAlike(prog, 0);
    WalksLines(prog, 0, k);
    ReferenceFetched(prog, m, k, d);
    Disasm.TargetsEntered(m, 0, Start(prog, k, 0));
    Disasm.NumberFound(Disasm.Keys(m), Start(prog, d, 0));
  }

  // ---- The theorem ----

  lemma {:induction false} SameBytesOf(prog: seq<Line>, keys: seq<u32>, T: map<string, nat>, k: nat, p: nat, at: nat)
    requires PlainProgram(prog) && k < |prog| && prog[k].stmt.Some? && TargetKept(prog, keys, T, k)
    ensures var line, F := Renamed(prog, keys, p, prog[k]), Defs(prog, |HEADER|);
      && LineOk(line) && LineOk(prog[k]) && (Target(line).Some? ==> Target(line).value in T)
      && (Target(prog[k]).Some? ==> Target(prog[k]).value in F)
      && RefStmt(T, at, line.stmt.value) == RefStmt(F, at, prog[k].stmt.value)
  {
    hide Reference, UniqueLabels, Recognised, Defs, Place, Disasm.Number, ToLE, Encode, NameOf;
    RenamedOk(prog, keys, p, k);
    assert prog[k] in prog && Plain(prog[k]);
  }

  lemma {:induction false} TailCode(prog: seq<Line>, keys: seq<u32>, T: map<string, nat>, j: nat)
    requires PlainProgram(prog) && j <= |prog| && forall k: nat :: k < |prog| ==> TargetKept(prog, keys, T, k)
    ensures ProgramOk(Tail(prog, keys, j)) && TargetsIn(Tail(prog, keys, j), T.Keys)
    ensures ProgramOk(prog[j..]) && TargetsIn(prog[j..], Defs(prog, |HEADER|).Keys)
    ensures var at := |HEADER| + Start(prog, j, 0);
      RefCode(Tail(prog, keys, j), T, at) == RefCode(prog[j..], Defs(prog, |HEADER|), at)
    decreases |prog| - j
  {
    hide Reference, UniqueLabels, Recognised, Defs, Start, RefStmt, Renamed, Plain, Encode, TargetKept;
    TailOk(prog, keys, j);
    var F, lines := Defs(prog, |HEADER|), Tail(prog, keys, j);
    if j < |prog| {
      TailCode(prog, keys, T, j + 1);
      StartNext(prog, j, 0);
      var p := Start(prog, j, 0);
      assert prog[j..][0] == prog[j] && prog[j..][1..] == prog[j + 1..];
      if prog[j].stmt.Some? {
        assert TargetKept(prog, keys, T, j);
        SameBytesOf(prog, keys, T, j, p, |HEADER| + p);
        RenamedOk(prog, keys, p, j);
        assert lines[0] == Renamed(prog, keys, p, prog[j]) && lines[1..] == Tail(prog, keys, j + 1);
      }
    }
  }

  /** The listing of an assembled file is a well-defined program, and every byte of the file
      it stands for is a byte of that file. */
  lemma ListingMeansTheSame(prog: seq<Line>)
    requires Listable(prog)
    ensures WellDefined(Listing(CodeOf(prog))) && Reference(Listing(CodeOf(prog))) == Reference(prog)
  {
    hide UniqueLabels, Defs, Start, RefCode, Tail, TargetKept, Disasm.Keys, Lines, Encode;
    var keys := Disasm.Keys(CodeOf(prog));
    StartZero(prog);
    ListedIsTail(prog, keys, 0);
    TailOk(prog, keys, 0);
    TailNames(prog, keys, 0);
    var T := Defs(Tail(prog, keys, 0), |HEADER|);
    forall k: nat | k < |prog| ensures TargetKept(prog, keys, T, k) {
      KeepsTarget(prog, k);
    }
    TailCode(prog, keys, T, 0);
    assert prog[0..] == prog;
  }

  /** Assembling the listing of an assembled file gives that file again, byte for byte, if
      and only if no label of the listing is captured by a longer one. */
  lemma Reassembles(prog: seq<Line>, order: seq<string>)
    requires Listable(prog)
    requires var end := Run(START, Listing(CodeOf(prog))); !end.Crashed? ==> Enumerates(order, end.asm.fwd.Keys)
    ensures var listing := Listing(CodeOf(prog)); var end := Run(START, listing);
      && (!end.Crashed? ==> HolesOk(end.asm))
      && (Finish(end, order) == Some(Reference(prog)) <==> Clean(listing, {}, {}))
  {
    hide Listing, CodeOf, WellDefined, Reference, Clean;
    assert |Reference(prog)| < TWO32;
    ListingMeansTheSame(prog);
    OnePassIsTwoPass(Listing(CodeOf(prog)), order);
  }

  // ---- When it is free of captures ----

  /** The names with a number below 20: `label1` is the only one that others begin with. */
  ghost function ShortNames(): set<string> { set n: nat | n < 20 :: NameOf(n) }

  lemma NumeralShort(n: nat)
    requires n < 20
    ensures Numeral(n, 10) == if n < 10 then ['0' + n as char] else ['1', '0' + (n - 10) as char]
  {
  }

  lemma ShortNamesFree()
    ensures PrefixFree(ShortNames(), {NameOf(1)})
  {
    forall a, b | a in ShortNames() && b in ShortNames() ensures a != "-" && (a < b ==> a == NameOf(1)) {
      var m: nat, n: nat :| m < 20 && n < 20 && a == NameOf(m) && b == NameOf(n);
      NumeralShort(m);
      NumeralShort(n);
      if a < b { assert a[5] == b[5]; }
    }
  }

  lemma NumberBound(keys: seq<u32>, key: u32)
    ensures Disasm.Number(keys, key) <= |keys| + 1
  {
    Disasm.NumberFromIff(keys, key, 2);
  }

  lemma {:induction false} LinesMention(m: seq<byte>, keys: seq<u32>, p: nat)
    requires |keys| <= 18
    ensures Mentioned(Lines(m, keys, p)) <= ShortNames()
    decreases |m| - p
  {
    hide Decode, NameOf, Disasm.Number, LoadW;
    if p < |m| && Decode(m, p).Some? && Decode(m, p).value.next > p {
      var f := Decode(m, p).value;
      LinesMention(m, keys, f.next);
      var line, rest := LineFor(keys, p, f.i), Lines(m, keys, f.next);
      NumberBound(keys, p % TWO32);
      match f.i {
        case Offset(_, v) => NumberBound(keys, (p + 9 + v) % TWO32);
        case Refer(v, _) => NumberBound(keys, (p + 9 + v) % TWO32);
        case _ =>
      }
      assert Lines(m, keys, p) == [line] + rest;
      MentionedCons(line, rest);
    } else {
      assert Lines(m, keys, p) == [];
    }
  }

  lemma MentionedCons(line: Line, rest: seq<Line>)
    ensures Mentioned([line] + rest) ==
      (if line.name.Some? then {line.name.value} else {})
      + (if Target(line).Some? then {Target(line).value} else {})
      + Mentioned(rest)
  {
    var all := [line] + rest;
    assert all[0] == line && forall l :: l in all <==> l == line || l in rest;
  }

  /** With at most eighteen references the numbers stay below 20, and `label1`, on the first
      line, is defined before anything is referred to. */
  lemma FewReferencesClean(m: seq<byte>)
    requires |Disasm.Keys(m)| <= 18
    ensures Clean(Listing(m), {}, {})
  {
    hide Clean, Disasm.Keys, Mentioned, Decode, NameOf;
    LinesMention(m, Disasm.Keys(m), 0);
    ShortNamesFree();
    if Listing(m) == [] {
      NothingIsClean();
    } else {
      PrefixFreeIsClean(Listing(m), ShortNames(), {}, {});
    }
  }

  lemma NothingIsClean()
    ensures Clean([], {}, {})
  {
  }

  /** So the listing then always assembles to the same file. */
  lemma FewReferencesReassemble(prog: seq<Line>, order: seq<string>)
    requires Listable(prog) && |Disasm.Keys(CodeOf(prog))| <= 18
    requires var end := Run(START, Listing(CodeOf(prog))); !end.Crashed? ==> Enumerates(order, end.asm.fwd.Keys)
    ensures var end := Run(START, Listing(CodeOf(prog)));
      (!end.Crashed? ==> HolesOk(end.asm)) && Finish(end, order) == Some(Reference(prog))
  {
    hide CodeOf, WellDefined, Reference, Clean, Listing, Disasm.Keys;
    FewReferencesClean(CodeOf(prog));
    Reassembles(prog, order);
  }
}
