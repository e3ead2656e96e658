/** A reference assembler that knows every label before it writes a byte, and the proof
    that the one-pass assembler agrees with it exactly when no reference is captured. */
module Backpatch {
  import opened Words
  import opened Isa
  import opened Symbols
  import opened Assembly

  function Size(s: Stmt): nat
    requires StmtOk(s)
  {
    match s
    case Code(i) => |Encode(i)|
    case Jump(_, _) => 5
    case ReferTo(_, _) => 6
    case Data(bytes) => |bytes|
    case Unknown => 0
  }

  function LineSize(l: Line): nat
    requires LineOk(l)
  {
    if l.stmt.Some? then Size(l.stmt.value) else 0
  }

  /** First pass: where each label of the lines from `at` on will be. */
  function Defs(prog: seq<Line>, at: nat): map<string, nat>
    requires ProgramOk(prog)
    decreases |prog|
  {
    if prog == [] then map[] else
    var rest := Defs(prog[1..], at + LineSize(prog[0]));
    if prog[0].name.Some? then rest[prog[0].name.value := at] else rest
  }

  /** Second pass: the bytes of one statement at `at`, all labels known. */
  function RefStmt(labels: map<string, nat>, at: nat, s: Stmt): (r: seq<byte>)
    requires StmtOk(s) && (s.Jump? || s.ReferTo? ==> s.target in labels)
    ensures |r| == Size(s)
  {
    match s
    case Code(i) => Encode(i)
    case Jump(op, l) => [op] + ToLE(Rel(labels[l], at + 1), 4)
    case ReferTo(l, r) => [REFER] + ToLE(Rel(labels[l], at + 1), 4) + [r]
    case Data(bytes) => bytes
    case Unknown => []
  }

  function Target(l: Line): Option<string> {
    if l.stmt.Some? && (l.stmt.value.Jump? || l.stmt.value.ReferTo?) then Some(l.stmt.value.target) else None
  }

  predicate TargetsIn(prog: seq<Line>, names: set<string>) {
    forall l :: l in prog && Target(l).Some? ==> Target(l).value in names
  }

  function RefCode(prog: seq<Line>, labels: map<string, nat>, at: nat): seq<byte>
    requires ProgramOk(prog) && TargetsIn(prog, labels.Keys)
    decreases |prog|
  {
    if prog == [] then [] else
    assert prog[0] in prog && forall l :: l in prog[1..] ==> l in prog;
    (if prog[0].stmt.Some? then RefStmt(labels, at, prog[0].stmt.value) else [])
    + RefCode(prog[1..], labels, at + LineSize(prog[0]))
  }

  predicate UniqueLabels(prog: seq<Line>) {
    forall i, j :: 0 <= i < j < |prog| && prog[i].name.Some? ==> prog[j].name != prog[i].name
  }

  predicate Recognised(prog: seq<Line>) {
    forall l :: l in prog ==> l.stmt != Some(Unknown)
  }

  /** Every opcode known, every label defined once, every referenced label defined. */
  predicate WellDefined(prog: seq<Line>) {
    ProgramOk(prog) && Recognised(prog) && UniqueLabels(prog) && TargetsIn(prog, Defs(prog, |HEADER|).Keys)
  }

  function Reference(prog: seq<Line>): seq<byte>
    requires WellDefined(prog)
  {
    HEADER + RefCode(prog, Defs(prog, |HEADER|), |HEADER|)
  }

  /** A reference to `l` is captured when a table search for it runs into a longer name:
      one already defined, or one already waiting while `l` itself is not. */
  predicate Captured(l: string, defined: set<string>, waiting: set<string>) {
    && l !in defined
    && (l == "-" || Prefixes(l, defined) || (l !in waiting && Prefixes(l, waiting)))
  }

  /** No reference of the program is captured, reading the lines in order. */
  predicate Clean(prog: seq<Line>, defined: set<string>, waiting: set<string>)
    decreases |prog|
  {
    prog == [] ||
    var known := if prog[0].name.Some? then defined + {prog[0].name.value} else defined;
    match Target(prog[0])
    case None => Clean(prog[1..], known, waiting)
    case Some(l) =>
      && !Captured(l, known, waiting)
      && Clean(prog[1..], known, if l in known then waiting else waiting + {l})
  }

  // ---- The invariant that ties a run to the reference output ----

  /** The output so far agrees with `R` outside the holes, and every hole is waiting for
      the bytes that `R` has there. */
  ghost predicate Agrees(a: Asm, F: map<string, nat>, R: seq<byte>) {
    && HolesOk(a) && |a.dest| <= |R| && a.fwd.Keys <= F.Keys
    && (forall l, h :: l in a.fwd && h in a.fwd[l] ==>
          h + 4 <= |a.dest| && R[h..h + 4] == ToLE(Rel(F[l], h), 4))
    && (forall j :: 0 <= j < |a.dest| && !InHole(a.fwd, j) ==> a.dest[j] == R[j])
  }

  /** The part of the invariant about labels: those defined so far and those of the rest
      of the program make up the final table. */
  ghost predicate Splits(a: Asm, rest: seq<Line>, F: map<string, nat>)
    requires ProgramOk(rest)
  {
    && a.labels.Keys !! Defs(rest, |a.dest|).Keys
    && F == a.labels + Defs(rest, |a.dest|)
    && forall l :: l in F ==> |HEADER| <= F[l] < TWO32
  }

  ghost predicate Inv(a: Asm, rest: seq<Line>, F: map<string, nat>, R: seq<byte>) {
    && ProgramOk(rest) && Recognised(rest) && UniqueLabels(rest) && TargetsIn(rest, F.Keys)
    && Splits(a, rest, F) && Agrees(a, F, R)
    && R[|a.dest|..] == RefCode(rest, F, |a.dest|)
  }

  lemma EmitBytesAgrees(a: Asm, s: seq<byte>, F: map<string, nat>, R: seq<byte>)
    requires Agrees(a, F, R) && At(R, |a.dest|, s)
    ensures Agrees(a.(dest := a.dest + s), F, R)
  {
    var b := a.(dest := a.dest + s);
    forall j | 0 <= j < |b.dest| && !InHole(b.fwd, j) ensures b.dest[j] == R[j] {
      if j >= |a.dest| { ByteAt(R, |a.dest|, s, j - |a.dest|); }
    }
  }

  /** Whatever the lookup says, an uncaptured reference keeps the agreement: known labels
      get their final offset and unknown ones a hole that waits for it. */
  lemma EmitLabelAgrees(a: Asm, l: string, F: map<string, nat>, R: seq<byte>)
    requires Agrees(a, F, R)
    requires l in F && (l in a.labels ==> a.labels[l] == F[l])
    requires At(R, |a.dest|, ToLE(Rel(F[l], |a.dest|), 4))
    requires !Captured(l, a.labels.Keys, a.fwd.Keys)
    ensures EmitLabel(a, l).Running?
    ensures Agrees(EmitLabel(a, l).asm, F, R)
    ensures EmitLabel(a, l).asm.fwd.Keys == a.fwd.Keys + if l in a.labels then {} else {l}
    ensures EmitLabel(a, l).asm.labels == a.labels && |EmitLabel(a, l).asm.dest| == |a.dest| + 4
  {
    hide ToLE;
    if l in a.labels {
      EmitBytesAgrees(a, ToLE(Rel(F[l], |a.dest|), 4), F, R);
    } else {
      var at := |a.dest|;
      var b := EmitLabel(a, l).asm;
      assert b.fwd == a.fwd[l := if l in a.fwd then a.fwd[l] + [at] else [at]];
      forall j | 0 <= j < |b.dest| && !InHole(b.fwd, j) ensures b.dest[j] == R[j] {
        assert at in b.fwd[l];
        assert forall l', h :: l' in a.fwd && h in a.fwd[l'] ==> h in b.fwd[l'];
      }
    }
  }

  /** The statement of a line, with its label already entered. */
  lemma EmitStmtAgrees(a: Asm, s: Stmt, F: map<string, nat>, R: seq<byte>)
    requires StmtOk(s) && s != Unknown && Agrees(a, F, R)
    requires s.Jump? || s.ReferTo? ==>
      && s.target in F && (s.target in a.labels ==> a.labels[s.target] == F[s.target])
      && !Captured(s.target, a.labels.Keys, a.fwd.Keys)
    requires At(R, |a.dest|, RefStmt(F, |a.dest|, s))
    ensures EmitStmt(a, s).Running?
    ensures Agrees(EmitStmt(a, s).asm, F, R)
    ensures EmitStmt(a, s).asm.labels == a.labels && |EmitStmt(a, s).asm.dest| == |a.dest| + Size(s)
    ensures EmitStmt(a, s).asm.fwd.Keys
         == a.fwd.Keys + if (s.Jump? || s.ReferTo?) && s.target !in a.labels then {s.target} else {}
  {
    hide ToLE, Encode, EmitLabel, Agrees, Captured;
    match s
    case Code(i) => EmitBytesAgrees(a, Encode(i), F, R);
    case Data(bytes) => EmitBytesAgrees(a, bytes, F, R);
    case Jump(op, l) => EmitRefAgrees(a, op, l, [], F, R);
    case ReferTo(l, r) => EmitRefAgrees(a, REFER, l, [r], F, R);
  }

  /** An opcode, a label and the bytes after it. */
  lemma EmitRefAgrees(a: Asm, op: byte, l: string, tail: seq<byte>, F: map<string, nat>, R: seq<byte>)
    requires Agrees(a, F, R) && l in F && (l in a.labels ==> a.labels[l] == F[l])
    requires !Captured(l, a.labels.Keys, a.fwd.Keys)
    requires At(R, |a.dest|, [op] + ToLE(Rel(F[l], |a.dest| + 1), 4) + tail)
    ensures var s := EmitLabel(a.(dest := a.dest + [op]), l);
      && s.Running?
      && Agrees(s.asm, F, R)
      && Agrees(s.asm.(dest := s.asm.dest + tail), F, R)
      && s.asm.labels == a.labels && |s.asm.dest| == |a.dest| + 5
      && s.asm.fwd.Keys == a.fwd.Keys + if l in a.labels then {} else {l}
  {
    hide ToLE, EmitLabel, Agrees, Captured;
    var b := a.(dest := a.dest + [op]);
    AtPart(R, |a.dest|, [op] + ToLE(Rel(F[l], |b.dest|), 4), tail);
    AtPart(R, |a.dest|, [op], ToLE(Rel(F[l], |b.dest|), 4));
    EmitBytesAgrees(a, [op], F, R);
    EmitLabelAgrees(b, l, F, R);
    EmitBytesAgrees(EmitLabel(b, l).asm, tail, F, R);
  }

  /** Entering a line's label keeps the split of the label table. */
  lemma EnterLabel(a: Asm, rest: seq<Line>, F: map<string, nat>, R: seq<byte>)
    requires Inv(a, rest, F, R) && rest != [] && rest[0].name.Some?
    ensures rest[0].name.value !in a.labels
    ensures var b := a.(labels := a.labels[rest[0].name.value := |a.dest|]);
      && Agrees(b, F, R)
      && b.labels.Keys !! Defs(rest[1..], |a.dest| + LineSize(rest[0])).Keys
      && F == b.labels + Defs(rest[1..], |a.dest| + LineSize(rest[0]))
  {
    hide ToLE, Encode, RefCode, InHole, Agrees, TargetsIn, Recognised, Size;
    var l := rest[0].name.value;
    AgreesAnyLabels(a, a.(labels := a.labels[l := |a.dest|]), F, R);
    DefsNames(rest[1..], |a.dest| + LineSize(rest[0]));
    assert l in Defs(rest, |a.dest|);
    forall k | 0 <= k < |rest[1..]| ensures rest[1..][k].name != Some(l) {
      assert rest[1..][k] == rest[k + 1];
    }
  }

  lemma AgreesAnyLabels(a: Asm, b: Asm, F: map<string, nat>, R: seq<byte>)
    requires Agrees(a, F, R) && b.dest == a.dest && b.fwd == a.fwd
    ensures Agrees(b, F, R)
  {
  }

  lemma {:induction false} DefsNames(prog: seq<Line>, at: nat)
    requires ProgramOk(prog)
    ensures forall l :: l in Defs(prog, at) <==> exists k :: 0 <= k < |prog| && prog[k].name == Some(l)
    decreases |prog|
  {
    if prog != [] {
      var rest := prog[1..];
      DefsNames(rest, at + LineSize(prog[0]));
      forall l ensures l in Defs(prog, at) <==> exists k :: 0 <= k < |prog| && prog[k].name == Some(l) {
        if k :| 0 <= k < |rest| && rest[k].name == Some(l) { assert prog[k + 1].name == Some(l); }
        if k :| 0 <= k < |prog| && prog[k].name == Some(l) { assert k == 0 || rest[k - 1].name == Some(l); }
      }
    }
  }

  /** The state in which the statement of the first line is emitted. */
  function Entered(a: Asm, line: Line): Asm {
    if line.name.Some? then a.(labels := a.labels[line.name.value := |a.dest|]) else a
  }

  /** The labels waiting for a definition once the line is done. */
  function Waiting(a: Asm, line: Line): set<string> {
    if Target(line).Some? && Target(line).value !in Entered(a, line).labels
    then a.fwd.Keys + {Target(line).value}
    else a.fwd.Keys
  }

  lemma CleanStep(a: Asm, prog: seq<Line>)
    requires prog != []
    ensures Clean(prog, a.labels.Keys, a.fwd.Keys) <==>
      && (Target(prog[0]).Some? ==> !Captured(Target(prog[0]).value, Entered(a, prog[0]).labels.Keys, a.fwd.Keys))
      && Clean(prog[1..], Entered(a, prog[0]).labels.Keys, Waiting(a, prog[0]))
  {
    hide Captured;
    assert Entered(a, prog[0]).labels.Keys
        == if prog[0].name.Some? then a.labels.Keys + {prog[0].name.value} else a.labels.Keys;
  }

  lemma EnteredInv(a: Asm, rest: seq<Line>, F: map<string, nat>, R: seq<byte>)
    requires Inv(a, rest, F, R) && rest != []
    ensures var b := Entered(a, rest[0]);
      && Agrees(b, F, R)
      && b.labels.Keys !! Defs(rest[1..], |a.dest| + LineSize(rest[0])).Keys
      && F == b.labels + Defs(rest[1..], |a.dest| + LineSize(rest[0]))
    ensures rest[0].name.Some? ==> rest[0].name.value !in a.labels
    ensures EmitLine(a, rest[0]) ==
      if rest[0].stmt.None? then Running(Entered(a, rest[0])) else EmitStmt(Entered(a, rest[0]), rest[0].stmt.value)
  {
    if rest[0].name.Some? {
      EnterLabel(a, rest, F, R);
    }
  }

  /** One uncaptured line keeps the invariant. */
  lemma EmitLineInv(a: Asm, rest: seq<Line>, F: map<string, nat>, R: seq<byte>)
    requires Inv(a, rest, F, R) && rest != []
    requires Target(rest[0]).Some? ==> !Captured(Target(rest[0]).value, Entered(a, rest[0]).labels.Keys, a.fwd.Keys)
    ensures EmitLine(a, rest[0]).Running?
    ensures Inv(EmitLine(a, rest[0]).asm, rest[1..], F, R)
    ensures EmitLine(a, rest[0]).asm.labels == Entered(a, rest[0]).labels
    ensures EmitLine(a, rest[0]).asm.fwd.Keys == Waiting(a, rest[0])
  {
    hide ToLE, Encode, EmitStmt, Captured, Agrees, RefCode, RefStmt, UniqueLabels;
    var line, b := rest[0], Entered(a, rest[0]);
    EnteredInv(a, rest, F, R);
    assert line in rest;
    if line.stmt.Some? {
      var s := line.stmt.value;
      RefCodeAt(a, rest, F, R);
      EmitStmtAgrees(b, s, F, R);
    }
    RefCodeTail(a, rest, F, R);
  }

  lemma RefCodeTail(a: Asm, rest: seq<Line>, F: map<string, nat>, R: seq<byte>)
    requires Inv(a, rest, F, R) && rest != []
    ensures rest[0] in rest && LineOk(rest[0]) && rest[0].stmt != Some(Unknown)
    ensures ProgramOk(rest[1..]) && Recognised(rest[1..]) && UniqueLabels(rest[1..]) && TargetsIn(rest[1..], F.Keys)
    ensures |a.dest| + LineSize(rest[0]) <= |R|
    ensures R[|a.dest| + LineSize(rest[0])..] == RefCode(rest[1..], F, |a.dest| + LineSize(rest[0]))
  {
    hide ToLE, Encode, Splits;
    assert rest[0] in rest;
    TailOk(rest);
    assert |R[|a.dest|..]| >= LineSize(rest[0]);
    assert R[|a.dest| + LineSize(rest[0])..] == R[|a.dest|..][LineSize(rest[0])..];
  }

  lemma RefCodeAt(a: Asm, rest: seq<Line>, F: map<string, nat>, R: seq<byte>)
    requires Inv(a, rest, F, R) && rest != [] && rest[0].stmt.Some?
    ensures rest[0] in rest && LineOk(rest[0])
    ensures Target(rest[0]).Some? ==> Target(rest[0]).value in F
    ensures At(R, |a.dest|, RefStmt(F, |a.dest|, rest[0].stmt.value))
  {
    hide ToLE, Encode, Splits, UniqueLabels;
    var t := rest[0].stmt.value;
    assert LineOk(rest[0]);
    if t.Jump? || t.ReferTo? {
      assert Target(rest[0]) == Some(t.target);
      assert t.target in F.Keys;
    }
    var s := RefStmt(F, |a.dest|, t);
    var code := RefCode(rest, F, |a.dest|);
    assert code[..|s|] == s;
    assert R[|a.dest|..|a.dest| + |s|] == R[|a.dest|..][..|s|];
  }

  lemma TailOk(prog: seq<Line>)
    requires prog != [] && ProgramOk(prog) && Recognised(prog) && UniqueLabels(prog)
    ensures ProgramOk(prog[1..]) && Recognised(prog[1..]) && UniqueLabels(prog[1..])
    ensures forall names :: TargetsIn(prog, names) ==> TargetsIn(prog[1..], names)
  {
    var t := prog[1..];
    assert forall l :: l in t ==> l in prog;
    forall i, j | 0 <= i < j < |t| && t[i].name.Some? ensures t[j].name != t[i].name {
      assert t[i] == prog[i + 1] && t[j] == prog[j + 1];
    }
  }

  // ---- Both directions over whole runs ----

  lemma {:induction false} RunClean(a: Asm, prog: seq<Line>, F: map<string, nat>, R: seq<byte>)
    requires Inv(a, prog, F, R) && Clean(prog, a.labels.Keys, a.fwd.Keys)
    ensures Run(a, prog).Running? && Inv(Run(a, prog).asm, [], F, R)
    decreases |prog|
  {
    hide ToLE, Encode, Splits, Agrees, RefCode, UniqueLabels, EmitLine, Captured, Clean;
    if prog != [] {
      CleanStep(a, prog);
      EmitLineInv(a, prog, F, R);
      RunClean(EmitLine(a, prog[0]).asm, prog[1..], F, R);
    }
  }

  /** A captured reference crashes the run or leaves a wrong byte that is not in a hole. */
  lemma EmitLineCaptured(a: Asm, prog: seq<Line>, F: map<string, nat>, R: seq<byte>) returns (j: nat)
    requires Inv(a, prog, F, R) && prog != [] && Target(prog[0]).Some?
    requires Captured(Target(prog[0]).value, Entered(a, prog[0]).labels.Keys, a.fwd.Keys)
    ensures EmitLine(a, prog[0]).Crashed? ||
      (EmitLine(a, prog[0]).Running? && Wrong(EmitLine(a, prog[0]).asm, R, j))
  {
    hide ToLE, Encode, Wrong, InHole, RefCode, UniqueLabels, Recognised, Defs, Captured, TargetsIn;
    var l, b, s := Target(prog[0]).value, Entered(a, prog[0]), prog[0].stmt.value;
    assert prog[0] in prog;
    EnteredInv(a, prog, F, R);
    RefCodeAt(a, prog, F, R);
    j := 0;
    if s.Jump? {
      if !EmitLine(a, prog[0]).Crashed? { j := WrongRef(b, s.op, l, [], F[l], R); }
    } else {
      if !EmitLine(a, prog[0]).Crashed? { j := WrongRef(b, REFER, l, [s.r], F[l], R); }
    }
  }

  lemma WrongRef(a: Asm, op: byte, l: string, tail: seq<byte>, p: nat, R: seq<byte>) returns (j: nat)
    requires HolesOk(a) && |HEADER| <= p < TWO32 && Captured(l, a.labels.Keys, a.fwd.Keys)
    requires At(R, |a.dest|, [op] + ToLE(Rel(p, |a.dest| + 1), 4) + tail)
    requires !EmitLabel(a.(dest := a.dest + [op]), l).Crashed?
    ensures var s := EmitLabel(a.(dest := a.dest + [op]), l);
      s.Running? && Wrong(s.asm, R, j) && Wrong(s.asm.(dest := s.asm.dest + tail), R, j)
  {
    hide ToLE;
    AtPart(R, |a.dest|, [op] + ToLE(Rel(p, |a.dest| + 1), 4), tail);
    AtPart(R, |a.dest|, [op], ToLE(Rel(p, |a.dest| + 1), 4));
    var b := a.(dest := a.dest + [op]);
    assert Get(b.labels, l).Interior?;
    j := WrongOffset(b, p, R);
  }

  lemma WrongOffset(a: Asm, p: nat, R: seq<byte>) returns (j: nat)
    requires HolesOk(a) && |HEADER| <= p < TWO32
    requires At(R, |a.dest|, ToLE(Rel(p, |a.dest|), 4))
    ensures Wrong(a.(dest := a.dest + ToLE(Rel(0, |a.dest|), 4)), R, j)
  {
    hide ToLE;
    var at := |a.dest|;
    var k := OffsetsDiffer(p, at);
    j := at + k;
    ByteAt(R, at, ToLE(Rel(p, at), 4), k);
  }

  /** Byte `j` of the output differs from the reference and no fix-up will touch it. */
  ghost predicate Wrong(a: Asm, R: seq<byte>, j: nat) {
    j < |a.dest| && j < |R| && !InHole(a.fwd, j) && a.dest[j] != R[j]
  }

  lemma OffsetsDiffer(p: nat, at: nat) returns (k: nat)
    requires |HEADER| <= p < TWO32
    ensures k < 4 && ToLE(Rel(0, at), 4)[k] != ToLE(Rel(p, at), 4)[k]
  {
    hide ToLE;
    Pow256Values();
    SameBytes(Rel(0, at), Rel(p, at), 4);
    RelDiffers(p, at);
    var x, y := ToLE(Rel(0, at), 4), ToLE(Rel(p, at), 4);
    assert x != y;
    k :| 0 <= k < 4 && x[k] != y[k];
  }

  lemma RelDiffers(p: nat, at: nat)
    requires 0 < p < TWO32
    ensures Rel(0, at) != Rel(p, at)
  {
    var x: int := 0 - at - 8;
    assert x == x / TWO32 * TWO32 + x % TWO32;
    assert x + p == (x + p) / TWO32 * TWO32 + (x + p) % TWO32;
  }

  lemma WrongStays(a: Asm, b: Asm, R: seq<byte>, j: nat)
    requires Wrong(a, R, j) && Extends(a, b)
    ensures Wrong(b, R, j)
  {
  }

  lemma {:induction false} RunCaptured(a: Asm, prog: seq<Line>, F: map<string, nat>, R: seq<byte>) returns (j: nat)
    requires Inv(a, prog, F, R) && !Clean(prog, a.labels.Keys, a.fwd.Keys)
    ensures Run(a, prog).Crashed? || Wrong(Run(a, prog).asm, R, j)
    decreases |prog|
  {
    hide ToLE, Encode, Splits, RefCode, UniqueLabels, EmitLine, Captured;
    j := 0;
    CleanStep(a, prog);
    if Target(prog[0]).Some? && Captured(Target(prog[0]).value, Entered(a, prog[0]).labels.Keys, a.fwd.Keys) {
      j := EmitLineCaptured(a, prog, F, R);
      if EmitLine(a, prog[0]).Running? {
        var b := EmitLine(a, prog[0]).asm;
        assert prog[0] in prog;
        EmitLineExtends(a, prog[0]);
        TailOk(prog);
        RunExtends(b, prog[1..]);
        if !Run(b, prog[1..]).Crashed? { WrongStays(b, Run(b, prog[1..]).asm, R, j); }
      }
    } else {
      EmitLineInv(a, prog, F, R);
      j := RunCaptured(EmitLine(a, prog[0]).asm, prog[1..], F, R);
    }
  }

  // ---- Fix-ups ----

  lemma {:induction false} PatchAllAgrees(d: seq<byte>, p: nat, holes: seq<nat>, R: seq<byte>, j: nat)
    requires InRange(holes, |d|) && |d| == |R| && j < |d|
    requires forall k :: 0 <= k < |holes| ==> R[holes[k]..holes[k] + 4] == ToLE(Rel(p, holes[k]), 4)
    requires d[j] == R[j] || exists k :: 0 <= k < |holes| && holes[k] <= j < holes[k] + 4
    ensures PatchAll(d, p, holes)[j] == R[j]
    decreases |holes|
  {
    if holes != [] {
      var h := holes[0];
      var e := Patch(d, h, Rel(p, h));
      if h <= j < h + 4 {
        assert R[j] == R[h..h + 4][j - h];
      } else if d[j] != R[j] {
        var k :| 0 <= k < |holes| && holes[k] <= j < holes[k] + 4;
        assert holes[1..][k - 1] == holes[k];
      }
      PatchAllAgrees(e, p, holes[1..], R, j);
    }
  }

  lemma {:induction false} FixUpAgrees(d: seq<byte>, F: map<string, nat>, fwd: map<string, seq<nat>>,
                                       order: seq<string>,
                                       R: seq<byte>, j: nat)
    requires forall l :: l in order ==> l in fwd
    requires forall l :: l in fwd ==> l in F && InRange(fwd[l], |d|)
    requires |d| == |R| && j < |d|
    requires forall l, h :: l in fwd && h in fwd[l] ==> h + 4 <= |R| && R[h..h + 4] == ToLE(Rel(F[l], h), 4)
    requires d[j] == R[j] || exists l, h :: l in order && h in fwd[l] && h <= j < h + 4
    ensures FixUp(d, F, fwd, order)[j] == R[j]
    decreases |order|
  {
    if order != [] {
      var l := order[0];
      var holes := fwd[l];
      assert forall k :: 0 <= k < |holes| ==> holes[k] in holes;
      var e := PatchAll(d, F[l], holes);
      if d[j] == R[j] || exists k :: 0 <= k < |holes| && holes[k] <= j < holes[k] + 4 {
        PatchAllAgrees(d, F[l], holes, R, j);
      } else {
        var l', h :| l' in order && h in fwd[l'] && h <= j < h + 4;
        assert l' in order[1..];
      }
      FixUpAgrees(e, F, fwd, order[1..], R, j);
    }
  }

  lemma StartInv(prog: seq<Line>)
    requires WellDefined(prog) && |Reference(prog)| < TWO32
    ensures Inv(START, prog, Defs(prog, |HEADER|), Reference(prog))
  {
    DefsBound(prog, Defs(prog, |HEADER|), |HEADER|);
    assert START.labels + Defs(prog, |HEADER|) == Defs(prog, |HEADER|);
    assert Reference(prog)[|HEADER|..] == RefCode(prog, Defs(prog, |HEADER|), |HEADER|);
  }

  lemma {:induction false} DefsBound(prog: seq<Line>, labels: map<string, nat>, at: nat)
    requires ProgramOk(prog) && TargetsIn(prog, labels.Keys)
    ensures forall l :: l in Defs(prog, at) ==> at <= Defs(prog, at)[l] <= at + |RefCode(prog, labels, at)|
    decreases |prog|
  {
    if prog != [] {
      assert prog[0] in prog;
      assert forall l :: l in prog[1..] ==> l in prog;
      DefsBound(prog[1..], labels, at + LineSize(prog[0]));
    }
  }

  /** The assembler theorem. For every program whose opcodes are known and whose labels
      are each defined once and defined at all when used, the one-pass output after all
      fix-ups, in whatever order the table is walked, is byte for byte the output of the
      assembler that knows every label first, if and only if no reference is captured by
      a longer name. */
  lemma OnePassIsTwoPass(prog: seq<Line>, order: seq<string>)
    requires WellDefined(prog) && |Reference(prog)| < TWO32
    requires !Run(START, prog).Crashed? ==> Enumerates(order, Run(START, prog).asm.fwd.Keys)
    ensures !Run(START, prog).Crashed? ==> HolesOk(Run(START, prog).asm)
    ensures Finish(Run(START, prog), order) == Some(Reference(prog)) <==> Clean(prog, {}, {})
  {
    var F, R, end := Defs(prog, |HEADER|), Reference(prog), Run(START, prog);
    StartInv(prog);
    RunExtends(START, prog);
    assert START.labels.Keys == {} && START.fwd.Keys == {};
    if Clean(prog, {}, {}) {
      RunClean(START, prog, F, R);
      var a := end.asm;
      assert a.labels == F;
      assert |a.dest| == |R| by { assert |R[|a.dest|..]| == 0; }
      var d := FixUp(a.dest, F, a.fwd, order);
      forall j | 0 <= j < |R| ensures d[j] == R[j] {
        FixUpAgrees(a.dest, F, a.fwd, order, R, j);
      }
      assert d == R;
    } else {
      var j := RunCaptured(START, prog, F, R);
      if !end.Crashed? {
        FixUpFrame(end.asm.dest, end.asm.labels, end.asm.fwd, order, j);
      }
    }
  }

  // ---- When is a program clean, and when does a run stop early? ----

  /** All names that occur in a program, as labels or as targets. */
  function Mentioned(prog: seq<Line>): set<string> {
    (set l | l in prog && l.name.Some? :: l.name.value) + (set l | l in prog && Target(l).Some? :: Target(l).value)
  }

  /** The names defined once the first line's label is entered. */
  function Known(prog: seq<Line>, defined: set<string>): set<string> {
    if prog != [] && prog[0].name.Some? then defined + {prog[0].name.value} else defined
  }

  /** No name is "-", and only those already defined are proper prefixes of others. */
  predicate PrefixFree(names: set<string>, defined: set<string>) {
    "-" !in names && forall a, b :: a in names && b in names && a < b ==> a in defined
  }

  /** Prefix-free names are enough: no reference can then be captured. A name that is defined
      before anything is referred to may be a prefix. */
  lemma {:induction false} PrefixFreeIsClean(prog: seq<Line>, names: set<string>, defined: set<string>,
                                             waiting: set<string>)
    requires PrefixFree(names, Known(prog, defined))
    requires Mentioned(prog) <= names && defined <= names && waiting <= names
    ensures Clean(prog, defined, waiting)
    decreases |prog|
  {
    if prog != [] {
      var known := Known(prog, defined);
      assert prog[0] in prog;
      assert prog[0].name.Some? ==> prog[0].name.value in Mentioned(prog);
      assert Target(prog[0]).Some? ==> Target(prog[0]).value in Mentioned(prog);
      assert Mentioned(prog[1..]) <= Mentioned(prog);
      var next :=
        if Target(prog[0]).Some? && Target(prog[0]).value !in known then waiting + {Target(prog[0]).value}
        else waiting;
      PrefixFreeIsClean(prog[1..], names, known, next);
    }
  }

  /** A program that goes wrong: `loop1` is defined, then `bra loop` looks ahead to `loop`. */
  const CAPTURING: seq<Line> :=
    [Line(Some("loop1"), Some(Jump(BRA, "loop"))), Line(Some("loop"), Some(Code(NoArg(STOP))))]

  lemma CapturingIsNotClean()
    ensures WellDefined(CAPTURING) && !Clean(CAPTURING, {}, {}) && |Reference(CAPTURING)| < TWO32
  {
    hide ToLE;
    var l1, l2 := CAPTURING[0], CAPTURING[1];
    assert CAPTURING[1..] == [l2] && CAPTURING[1..][1..] == [];
    assert "loop" in Defs(CAPTURING[1..], |HEADER| + 5);
    assert "loop" < "loop1";
    assert |"loop"| != |"loop1"|;
    var F := Defs(CAPTURING, |HEADER|);
    assert |RefCode(CAPTURING[1..], F, |HEADER| + 5)| == 1;
    assert |RefCode(CAPTURING, F, |HEADER|)| == 6;
  }

  /** It is assembled to another file than that of the two-pass assembler. */
  lemma CaptureHappens(order: seq<string>)
    requires !Run(START, CAPTURING).Crashed? ==> Enumerates(order, Run(START, CAPTURING).asm.fwd.Keys)
    ensures WellDefined(CAPTURING) && (!Run(START, CAPTURING).Crashed? ==> HolesOk(Run(START, CAPTURING).asm))
    ensures Finish(Run(START, CAPTURING), order) != Some(Reference(CAPTURING))
  {
    hide Run, Reference, Clean, WellDefined;
    CapturingIsNotClean();
    OnePassIsTwoPass(CAPTURING, order);
  }

  /** A run that dereferences no NULL stops before the end exactly when some opcode is
      unknown or some label is defined twice. */
  lemma {:induction false} HaltsIff(a: Asm, prog: seq<Line>)
    requires ProgramOk(prog) && |a.dest| >= |HEADER| && (forall l :: l in a.labels ==> a.labels[l] >= |HEADER|)
    requires HolesOk(a) && !Run(a, prog).Crashed?
    ensures Run(a, prog).Running? <==>
      Recognised(prog) && UniqueLabels(prog) && forall l :: l in prog && l.name.Some? ==> l.name.value !in a.labels
    decreases |prog|
  {
    hide ToLE, Encode, EmitLabel;
    if prog != [] {
      var line, rest := prog[0], prog[1..];
      assert line in prog && forall l :: l in prog <==> l == line || l in rest;
      EmitLineExtends(a, line);
      if EmitLine(a, line).Running? {
        EmitLineLabels(a, line);
        HaltsIff(EmitLine(a, line).asm, rest);
        UniqueSplit(prog);
      } else {
        EmitLineHalts(a, line);
      }
    }
  }

  lemma EmitLineLabels(a: Asm, line: Line)
    requires LineOk(line) && EmitLine(a, line).Running?
    ensures EmitLine(a, line).asm.labels == Entered(a, line).labels
    ensures line.stmt != Some(Unknown)
    ensures line.name.Some? && line.name.value in a.labels ==> a.labels[line.name.value] == 0
  {
  }

  lemma EmitLineHalts(a: Asm, line: Line)
    requires LineOk(line) && EmitLine(a, line).Halted?
    ensures line.stmt == Some(Unknown) || (line.name.Some? && line.name.value in a.labels)
  {
  }

  lemma UniqueSplit(prog: seq<Line>)
    requires prog != []
    ensures UniqueLabels(prog) <==>
      UniqueLabels(prog[1..]) && (prog[0].name.Some? ==> forall l :: l in prog[1..] ==> l.name != prog[0].name)
  {
    var t := prog[1..];
    assert forall k :: 0 <= k < |t| ==> t[k] == prog[k + 1] && t[k] in t;
    if UniqueLabels(prog) {
      forall i, j | 0 <= i < j < |t| && t[i].name.Some? ensures t[j].name != t[i].name {
        assert prog[i + 1].name == t[i].name && prog[j + 1].name == t[j].name;
      }
    }
    if UniqueLabels(t) && (prog[0].name.Some? ==> forall l :: l in t ==> l.name != prog[0].name) {
      forall i, j | 0 <= i < j < |prog| && prog[i].name.Some? ensures prog[j].name != prog[i].name {
        assert prog[j] == t[j - 1];
        if i > 0 { assert prog[i] == t[i - 1]; }
      }
    }
  }
}
