/** Assembler against machine: wherever the code is loaded, the offsets in it lead to the
    labels they were written for. */
module Landing {
  import opened Words
  import opened Isa
  import opened Symbols
  import opened Assembly
  import opened Backpatch
  import opened Machine

  /** File position of line `k`, when line 0 is at `at`. */
  function Start(prog: seq<Line>, k: nat, at: nat): nat
    requires ProgramOk(prog) && k <= |prog|
    decreases k
  {
    if k == 0 then at else Start(prog[1..], k - 1, at + LineSize(prog[0]))
  }

  /** Memory address of line `k` when the code (the file without its header) is at `base`. */
  function AddressOf(prog: seq<Line>, k: nat, base: nat): nat
    requires ProgramOk(prog) && k <= |prog|
  {
    base + Start(prog, k, 0)
  }

  /** The file's code sits at `base`, within the 32-bit address space. */
  ghost predicate Loaded(m: seq<byte>, base: nat, file: seq<byte>) {
    |file| >= |HEADER| && At(m, base, file[|HEADER|..]) && |m| <= TWO32 && |file| < TWO32
  }

  lemma {:induction false} StartShift(prog: seq<Line>, k: nat, at: nat)
    requires ProgramOk(prog) && k <= |prog|
    ensures Start(prog, k, at) == at + Start(prog, k, 0)
    decreases k
  {
    if k > 0 {
      StartShift(prog[1..], k - 1, at + LineSize(prog[0]));
      StartShift(prog[1..], k - 1, LineSize(prog[0]));
    }
  }

  /** The bytes of a statement are where its line starts. */
  lemma {:induction false} StmtAt(prog: seq<Line>, table: map<string, nat>, at: nat, k: nat)
    requires ProgramOk(prog) && TargetsIn(prog, table.Keys) && k < |prog| && prog[k].stmt.Some?
    ensures Start(prog, k, at) >= at
    ensures StmtOk(prog[k].stmt.value) && (Target(prog[k]).Some? ==> Target(prog[k]).value in table)
    ensures At(RefCode(prog, table, at), Start(prog, k, at) - at,
               RefStmt(table, Start(prog, k, at), prog[k].stmt.value))
    decreases k
  {
    hide ToLE, Encode, RefCode, RefStmt;
    var line, rest := prog[0], prog[1..];
    var next := at + LineSize(line);
    RefCodeSplit(prog, table, at);
    assert prog[k] in prog;
    assert Target(prog[k]).Some? ==> Target(prog[k]).value in table.Keys;
    if k == 0 {
      AtStart(RefStmt(table, at, line.stmt.value), RefCode(rest, table, next));
    } else {
      StmtAt(rest, table, next, k - 1);
      var head := RefHead(line, table, at);
      AtBehind(head, RefCode(rest, table, next), Start(prog, k, at) - next,
               RefStmt(table, Start(prog, k, at), prog[k].stmt.value));
    }
  }

  lemma AtStart(a: seq<byte>, b: seq<byte>)
    ensures At(a + b, 0, a)
  {
    assert (a + b)[0..0 + |a|] == a;
  }

  function RefHead(line: Line, table: map<string, nat>, at: nat): (r: seq<byte>)
    requires LineOk(line) && (Target(line).Some? ==> Target(line).value in table)
    ensures |r| == LineSize(line)
  {
    if line.stmt.Some? then RefStmt(table, at, line.stmt.value) else []
  }

  lemma RefCodeSplit(prog: seq<Line>, table: map<string, nat>, at: nat)
    requires ProgramOk(prog) && TargetsIn(prog, table.Keys) && prog != []
    ensures LineOk(prog[0]) && (Target(prog[0]).Some? ==> Target(prog[0]).value in table)
    ensures ProgramOk(prog[1..]) && TargetsIn(prog[1..], table.Keys)
    ensures RefCode(prog, table, at) == RefHead(prog[0], table, at) + RefCode(prog[1..], table, at + LineSize(prog[0]))
  {
    hide ToLE, Encode, RefStmt;
    assert prog[0] in prog && forall l :: l in prog[1..] ==> l in prog;
    assert Target(prog[0]).Some? ==> Target(prog[0]).value in table.Keys;
  }

  /** A label's entry in the table is the start of the line that carries it. */
  lemma {:induction false} DefAt(prog: seq<Line>, at: nat, d: nat)
    requires ProgramOk(prog) && UniqueLabels(prog) && d < |prog| && prog[d].name.Some?
    ensures prog[d].name.value in Defs(prog, at)
    ensures Defs(prog, at)[prog[d].name.value] == Start(prog, d, at)
    decreases d
  {
    if d > 0 {
      assert forall i :: 0 <= i < |prog[1..]| ==> prog[1..][i] == prog[i + 1];
      DefAt(prog[1..], at + LineSize(prog[0]), d - 1);
      assert prog[0].name != prog[d].name;
    }
  }

  lemma BehindHeader(prog: seq<Line>)
    requires WellDefined(prog)
    ensures Reference(prog)[|HEADER|..] == RefCode(prog, Defs(prog, |HEADER|), |HEADER|)
  {
    hide RefCode, Defs, UniqueLabels, Recognised;
  }

  /** The bytes of line `k` as they sit in memory, with the final position of its target. */
  lemma LoadedStmt(prog: seq<Line>, m: seq<byte>, base: nat, k: nat)
    requires WellDefined(prog) && Loaded(m, base, Reference(prog)) && k < |prog| && prog[k].stmt.Some?
    ensures StmtOk(prog[k].stmt.value) && (Target(prog[k]).Some? ==> Target(prog[k]).value in Defs(prog, |HEADER|))
    ensures At(m, AddressOf(prog, k, base),
               RefStmt(Defs(prog, |HEADER|), |HEADER| + Start(prog, k, 0), prog[k].stmt.value))
  {
    hide ToLE, Encode, RefStmt, RefCode, Defs, UniqueLabels, Recognised, Reference, At, Start;
    var F := Defs(prog, |HEADER|);
    StmtAt(prog, F, |HEADER|, k);
    StartShift(prog, k, |HEADER|);
    var code := RefCode(prog, F, |HEADER|);
    BehindHeader(prog);
    var p := Start(prog, k, 0);
    AtInside(m, base, code, p, RefStmt(F, |HEADER| + p, prog[k].stmt.value));
  }

  /** Data lies in memory as it was written, and its line takes as many bytes. */
  lemma DataLoaded(prog: seq<Line>, m: seq<byte>, base: nat, k: nat)
    requires WellDefined(prog) && Loaded(m, base, Reference(prog)) && k < |prog|
    requires prog[k].stmt.Some? && prog[k].stmt.value.Data?
    ensures var bytes := prog[k].stmt.value.bytes;
      At(m, AddressOf(prog, k, base), bytes) && AddressOf(prog, k + 1, base) == AddressOf(prog, k, base) + |bytes|
  {
    hide ToLE, Encode, Defs, Loaded, Reference, Start, UniqueLabels, Recognised, TargetsIn;
    LoadedStmt(prog, m, base, k);
    StartNext(prog, k, 0);
  }

  /** The arithmetic of the two conventions: the offset is taken from eight bytes past the
      hole, the machine adds four to an instruction pointer four bytes past it. */
  lemma OffsetArithmetic(base: nat, target: nat, hole: nat)
    requires target >= |HEADER| && hole >= |HEADER| && base + target < TWO32 + |HEADER|
    ensures (base + hole - |HEADER| + 4 + Rel(target, hole) + 4) % TWO32 == base + target - |HEADER|
  {
    var x := target - hole - 8;
    assert x == x / TWO32 * TWO32 + x % TWO32;
    Remainder(base + hole - |HEADER| + 8 + Rel(target, hole), TWO32, -(x / TWO32), base + target - |HEADER|);
  }

  lemma RefOffset(prog: seq<Line>, m: seq<byte>, base: nat, k: nat, d: nat)
    requires WellDefined(prog) && Loaded(m, base, Reference(prog))
    requires k < |prog| && d < |prog| && Target(prog[k]).Some? && prog[d].name == Target(prog[k])
    requires AddressOf(prog, d, base) < TWO32
    ensures var hole := |HEADER| + Start(prog, k, 0) + 1;
      var offset := Rel(Defs(prog, |HEADER|)[prog[d].name.value], hole);
      && prog[d].name.value in Defs(prog, |HEADER|)
      && (AddressOf(prog, k, base) + 5 + offset + 4) % TWO32 == AddressOf(prog, d, base)
  {
    hide Rel, Defs, Start, Loaded, Reference;
    DefAt(prog, |HEADER|, d);
    StartShift(prog, d, |HEADER|);
    OffsetArithmetic(base, |HEADER| + Start(prog, d, 0), |HEADER| + Start(prog, k, 0) + 1);
  }

  /** One step over an encoded branch. */
  lemma StepBranch(s: State, op: byte, offset: u32, target: u32)
    requires IsOffset(op) && s.ip + 5 < TWO32
    requires At(s.mem, s.ip, [op] + ToLE(offset, 4))
    requires (s.ip + 5 + offset + 4) % TWO32 == target
    ensures var after := s.(ip := s.ip + 5);
      Step(s) == if op == CALL then CallTo(after, target)
                 else Some(after.(ip := if Taken(op, s.cond) then target else s.ip + 5))
  {
    hide Decode, WriteOperand, ToLE, FromLE;
    DecodeOffset(s.mem, s.ip, op, offset);
  }

  lemma StepRefer(s: State, offset: u32, r: byte, target: u32)
    requires s.ip + 6 < TWO32
    requires At(s.mem, s.ip, [REFER] + ToLE(offset, 4) + [r])
    requires (s.ip + 5 + offset + 4) % TWO32 == target
    ensures Step(s) == WriteOperand(s.(ip := s.ip + 6), r, target, L)
  {
    hide Decode, WriteOperand, ToLE, FromLE;
    DecodeRefer(s.mem, s.ip, REFER, offset, r);
  }

  /** Position-independent landing. In any memory that holds the assembled code, at any
      address, a branch, jump or call on line `k` that is taken continues at the line `d`
      that defines its label, before or after it; one that is not taken continues after
      itself. Nothing else changes, except the stack under a call. */
  lemma JumpLands(prog: seq<Line>, s: State, base: nat, k: nat, d: nat)
    requires WellDefined(prog) && Loaded(s.mem, base, Reference(prog))
    requires k < |prog| && d < |prog| && prog[k].stmt.Some? && prog[k].stmt.value.Jump?
    requires prog[d].name == Some(prog[k].stmt.value.target)
    requires AddressOf(prog, d, base) < TWO32 && AddressOf(prog, k, base) + 5 < TWO32
    requires s.ip == AddressOf(prog, k, base)
    ensures var op := prog[k].stmt.value.op;
      var after := s.(ip := s.ip + 5);
      Step(s) ==
        if op == CALL then CallTo(after, AddressOf(prog, d, base))
        else Some(after.(ip := if Taken(op, s.cond) then AddressOf(prog, d, base) else s.ip + 5))
  {
    hide Step, CallTo, Taken, ToLE, FromLE, Encode, Defs, Decode, WriteOperand, Loaded, Reference, Rel, Start,
         UniqueLabels, Recognised, TargetsIn;
    LoadedStmt(prog, s.mem, base, k);
    RefOffset(prog, s.mem, base, k, d);
    var st := prog[k].stmt.value;
    var offset := Rel(Defs(prog, |HEADER|)[st.target], |HEADER| + Start(prog, k, 0) + 1);
    StepBranch(s, st.op, offset, AddressOf(prog, d, base));
  }

  lemma ReferBytes(table: map<string, nat>, at: nat, st: Stmt)
    requires StmtOk(st) && st.ReferTo? && st.target in table
    ensures RefStmt(table, at, st) == [REFER] + ToLE(Rel(table[st.target], at + 1), 4) + [st.r]
  {
    hide ToLE, Rel;
  }

  /** `refer` stores the address of the line that defines its label. */
  lemma ReferStores(prog: seq<Line>, s: State, base: nat, k: nat, d: nat)
    requires WellDefined(prog) && Loaded(s.mem, base, Reference(prog))
    requires k < |prog| && d < |prog| && prog[k].stmt.Some? && prog[k].stmt.value.ReferTo?
    requires prog[d].name == Some(prog[k].stmt.value.target)
    requires AddressOf(prog, d, base) < TWO32 && AddressOf(prog, k, base) + 6 < TWO32
    requires s.ip == AddressOf(prog, k, base)
    ensures Step(s) == WriteOperand(s.(ip := s.ip + 6), prog[k].stmt.value.r, AddressOf(prog, d, base), L)
  {
    hide Step, CallTo, Taken, ToLE, FromLE, Encode, Defs, Decode, WriteOperand, Loaded, Reference, Rel, Start,
         UniqueLabels, Recognised, TargetsIn, At, RefStmt;
    LoadedStmt(prog, s.mem, base, k);
    RefOffset(prog, s.mem, base, k, d);
    var st := prog[k].stmt.value;
    var F, p := Defs(prog, |HEADER|), |HEADER| + Start(prog, k, 0);
    var offset := Rel(F[st.target], p + 1);
    ReferBytes(F, p, st);
    StepRefer(s, offset, st.r, AddressOf(prog, d, base));
  }

  /** Any other statement that assembles to an instruction the two sides agree on is
      fetched as that instruction, and the machine then stands at the next line. */
  lemma CodeFetched(prog: seq<Line>, m: seq<byte>, base: nat, k: nat)
    requires WellDefined(prog) && Loaded(m, base, Reference(prog)) && k < |prog|
    requires prog[k].stmt.Some? && prog[k].stmt.value.Code?
    requires WellFormed(prog[k].stmt.value.i) && !WideShift(prog[k].stmt.value.i)
    ensures Decode(m, AddressOf(prog, k, base))
         == Some(Fetched(prog[k].stmt.value.i, AddressOf(prog, k + 1, base)))
  {
    hide ToLE, FromLE, Encode, Defs, Decode, Loaded;
    LoadedStmt(prog, m, base, k);
    DecodeEncode(m, AddressOf(prog, k, base), prog[k].stmt.value.i);
    StartNext(prog, k, 0);
  }

  lemma {:induction false} StartNext(prog: seq<Line>, k: nat, at: nat)
    requires ProgramOk(prog) && k < |prog|
    ensures LineOk(prog[k]) && Start(prog, k + 1, at) == Start(prog, k, at) + LineSize(prog[k])
    decreases k
  {
    if k > 0 { StartNext(prog[1..], k - 1, at + LineSize(prog[0])); }
  }
}
