/** Assembler against disassembler: in the listing of an assembled file, a label stands in
    front of every line that is referred to, and the references carry its number. */
module Names {
  import opened Words
  import opened Isa
  import opened Assembly
  import opened Backpatch
  import opened Landing
  import opened OnePass
  import Disasm

  /** A line that both passes of the disassembler size as the assembler does. */
  predicate Plain(l: Line) {
    l.stmt.None? ||
    match l.stmt.value
    case Code(i) => WellFormed(i) && !i.ImmReg? && !i.ShiftImm? && !(i.Offset? && i.op == JMP)
    case Jump(op, _) => op != JMP
    case ReferTo(_, _) => true
    case Data(_) => false
    case Unknown => false
  }

  ghost predicate PlainProgram(prog: seq<Line>) {
    WellDefined(prog) && (forall l :: l in prog ==> Plain(l)) && |Reference(prog)| < TWO32
  }

  /** The file without its header. */
  function CodeOf(prog: seq<Line>): seq<byte>
    requires WellDefined(prog)
  {
    RefCode(prog, Defs(prog, |HEADER|), |HEADER|)
  }

  lemma CodeLoaded(prog: seq<Line>)
    requires PlainProgram(prog)
    ensures Loaded(CodeOf(prog), 0, Reference(prog)) && |CodeOf(prog)| == CodeSize(prog) < TWO32
  {
    hide RefCode, Defs, UniqueLabels, Recognised;
    ReferenceSize(prog, Defs(prog, |HEADER|), |HEADER|);
    var m := CodeOf(prog);
    assert Reference(prog)[|HEADER|..] == m && m[0..0 + |m|] == m;
  }

  lemma {:induction false} StartEnd(prog: seq<Line>, at: nat)
    requires ProgramOk(prog)
    ensures Start(prog, |prog|, at) == at + CodeSize(prog)
    decreases |prog|
  {
    if prog != [] { StartEnd(prog[1..], at + LineSize(prog[0])); }
  }

  /** The instruction at `p` is sized alike by assembler, machine and both passes. */
  predicate SizedAlike(m: seq<byte>, p: nat, next: nat) {
    p < |m| && next <= |m| &&
    var op, w := OpcodeOf(m[p]), WidthOf(m[p] % 4);
    Disasm.Alike(op) && next == p + Disasm.OneSize(op, w) == p + Disasm.TwoSize(op, w)
  }

  lemma DecodedAlike(m: seq<byte>, p: nat)
    requires var f := Decode(m, p);
      f.Some? && !f.value.i.ImmReg? && !f.value.i.ShiftImm? && !(f.value.i.Offset? && f.value.i.op == JMP)
    ensures SizedAlike(m, p, Decode(m, p).value.next)
  {
    hide LoadW;
  }

  /** A reference as the disassembler meets it. */
  lemma ReferenceFetched(prog: seq<Line>, m: seq<byte>, k: nat, d: nat)
    requires WellDefined(prog) && Loaded(m, 0, Reference(prog))
    requires k < |prog| && d < |prog| && Target(prog[k]).Some? && prog[d].name == Target(prog[k]) && Plain(prog[k])
    requires Start(prog, d, 0) < TWO32
    ensures var p := Start(prog, k, 0);
      && p < |m| && Disasm.References(OpcodeOf(m[p])) && p + 5 <= |m| && Disasm.Target(m, p) == Start(prog, d, 0)
    ensures SizedAlike(m, Start(prog, k, 0), Start(prog, k + 1, 0))
  {
    hide ToLE, FromLE, Encode, Defs, Loaded, Reference, Rel, Start, UniqueLabels, Recognised, TargetsIn, LoadW, Load,
         RefStmt;
    LoadedStmt(prog, m, 0, k);
    RefOffset(prog, m, 0, k, d);
    StartNext(prog, k, 0);
    var p, st := Start(prog, k, 0), prog[k].stmt.value;
    var offset := Rel(Defs(prog, |HEADER|)[st.target], |HEADER| + p + 1);
    ReferenceBytes(Defs(prog, |HEADER|), |HEADER| + p, st);
    var op := if st.Jump? then st.op else REFER;
    var regs := if st.Jump? then [] else [st.r];
    FieldsAt(m, p, op, offset, L, regs);
    PlainReference(m, p, op, offset);
  }

  lemma ReferenceBytes(table: map<string, nat>, at: nat, st: Stmt)
    requires StmtOk(st) && (st.Jump? || st.ReferTo?) && st.target in table
    ensures RefStmt(table, at, st) ==
      [if st.Jump? then st.op else REFER] + ToLE(Rel(table[st.target], at + 1), 4) + if st.Jump? then [] else [st.r]
  {
    hide ToLE, Rel;
  }

  lemma PlainReference(m: seq<byte>, p: nat, op: byte, offset: u32)
    requires (IsOffset(op) && op != JMP) || op == REFER
    requires p + 5 <= |m| && m[p] == op && LoadW(m, p + 1, L) == offset
    ensures Disasm.References(OpcodeOf(m[p])) && Disasm.Target(m, p) == (p + 9 + offset) % TWO32
    ensures p + (if op == REFER then 6 else 5) <= |m| ==> SizedAlike(m, p, p + if op == REFER then 6 else 5)
  {
    hide LoadW;
    assert OpcodeOf(op) == op;
  }

  /** Any line with a statement, as the disassembler meets it. */
  lemma LineSized(prog: seq<Line>, k: nat)
    requires PlainProgram(prog) && k < |prog| && prog[k].stmt.Some?
    ensures SizedAlike(CodeOf(prog), Start(prog, k, 0), Start(prog, k + 1, 0))
  {
    hide ToLE, FromLE, Encode, Defs, Loaded, Reference, Start, UniqueLabels, Recognised, CodeOf, Decode, SizedAlike;
    CodeLoaded(prog);
    var m := CodeOf(prog);
    assert prog[k] in prog && Plain(prog[k]);
    if prog[k].stmt.value.Code? {
      CodeFetched(prog, m, 0, k);
      DecodedAlike(m, Start(prog, k, 0));
    } else {
      var d := Definition(prog, k);
      StartBound(prog, d);
      ReferenceFetched(prog, m, k, d);
    }
  }

  /** The line that defines what line `k` refers to. */
  lemma Definition(prog: seq<Line>, k: nat) returns (d: nat)
    requires WellDefined(prog) && k < |prog| && Target(prog[k]).Some?
    ensures d < |prog| && prog[d].name == Target(prog[k])
  {
    hide UniqueLabels, Recognised;
    assert prog[k] in prog;
    d := DefinedAt(prog, |HEADER|, Target(prog[k]).value);
  }

  lemma {:induction false} DefinedAt(prog: seq<Line>, at: nat, l: string) returns (d: nat)
    requires ProgramOk(prog) && l in Defs(prog, at)
    ensures d < |prog| && prog[d].name == Some(l)
    decreases |prog|
  {
    if prog[0].name == Some(l) {
      d := 0;
    } else {
      d := DefinedAt(prog[1..], at + LineSize(prog[0]), l);
      d := d + 1;
    }
  }

  lemma StartBound(prog: seq<Line>, d: nat)
    requires PlainProgram(prog) && d <= |prog|
    ensures Start(prog, d, 0) <= CodeSize(prog) < TWO32
  {
    CodeLoaded(prog);
    StartUpto(prog, d, 0);
  }

  lemma {:induction false} StartUpto(prog: seq<Line>, d: nat, at: nat)
    requires ProgramOk(prog) && d <= |prog|
    ensures Start(prog, d, at) <= at + CodeSize(prog)
    decreases d
  {
    if d > 0 { StartUpto(prog[1..], d - 1, at + LineSize(prog[0])); }
  }

  /** Both walks go from line to line. */
  lemma {:induction false} WalksLines(prog: seq<Line>, j: nat, k: nat)
    requires PlainProgram(prog) && j <= k < |prog| && prog[k].stmt.Some?
    ensures Disasm.Seen(CodeOf(prog), Start(prog, j, 0), Start(prog, k, 0))
    decreases k - j
  {
    hide CodeOf, Start, UniqueLabels, Recognised, TargetsIn, Defs, Reference;
    StartNext(prog, j, 0);
    if prog[j].stmt.Some? { LineSized(prog, j); }
    if j < k { WalksLines(prog, j + 1, k); }
  }

  lemma {:induction false} AllLinesAlike(prog: seq<Line>, j: nat)
    requires PlainProgram(prog) && j <= |prog|
    ensures Disasm.AllAlike(CodeOf(prog), Start(prog, j, 0))
    decreases |prog| - j
  {
    hide CodeOf, Start, UniqueLabels, Recognised, TargetsIn, Defs, Reference;
    if j == |prog| {
      StartEnd(prog, 0);
      CodeLoaded(prog);
    } else {
      StartNext(prog, j, 0);
      if prog[j].stmt.Some? { LineSized(prog, j); }
      AllLinesAlike(prog, j + 1);
    }
  }

  /** Whatever line `k` refers to, defined on line `d`: the listing of the assembled file
      has the same number in the reference and in front of the instruction on line `d`. */
  lemma LabelsAgree(prog: seq<Line>, k: nat, d: nat)
    requires PlainProgram(prog) && k < |prog| && d < |prog| && prog[d].stmt.Some?
    requires Target(prog[k]).Some? && prog[d].name == Target(prog[k])
    ensures var listing := Disasm.Listing(CodeOf(prog));
      exists n, f, r :: n > 0
        && Disasm.Printed(Start(prog, k, 0), f, n) in listing && Disasm.Printed(Start(prog, d, 0), n, r) in listing
  {
    hide CodeOf, Start, UniqueLabels, Recognised, TargetsIn, Defs, Reference, Disasm.Listing;
    var m, q, t := CodeOf(prog), Start(prog, k, 0), Start(prog, d, 0);
    CodeLoaded(prog);
    StartBound(prog, d);
    assert prog[k] in prog && Start(prog, 0, 0) == 0 by { StartZero(prog); }
    AllLinesAlike(prog, 0);
    WalksLines(prog, 0, k);
    WalksLines(prog, 0, d);
    ReferenceFetched(prog, m, k, d);
    Disasm.ReferencesNamed(m, q, t);
  }

  lemma StartZero(prog: seq<Line>)
    requires ProgramOk(prog)
    ensures Start(prog, 0, 0) == 0
  {
  }
}
