/** What the data instructions leave in registers and flags, and how comparisons decide the
    branches behind them. */
module Effects {
  import opened Words
  import opened Isa
  import opened Assembly
  import opened Backpatch
  import opened Landing
  import opened Machine
  import opened Access
  import Loops

  // ---- Registers ----

  /** Register `k` is `v`, the zero flag says whether that is 0, and all else is as before. */
  function Left(s: State, k: nat, v: u64, carry: bool): State
    requires k < 16
  {
    s.(regs := s.regs[k := v], cond := Flags(v == 0, carry, false, false))
  }

  /** Instructions with an immediate, on a register: the whole register is taken, and the
      result is cut to 64 bits whatever the width. */
  lemma DirectImmediate(s: State, w: Width, v: u64, k: nat)
    requires k < 16
    ensures Exec(s, ImmReg(LOAD, w, v, k)) == Some(Left(s, k, v, false))
    ensures Exec(s, ImmReg(ADDI, w, v, k)) == Some(Left(s, k, (s.regs[k] + v) % TWO64, false))
    ensures Exec(s, ImmReg(SUBI, w, v, k)) == Some(Left(s, k, (s.regs[k] - v) % TWO64, false))
  {
    hide ReadOperand, WriteOperand;
    ReadDirect(s, k, w);
    WriteDirect(s, k, w, v);
    WriteDirect(s, k, w, (s.regs[k] + v) % TWO64);
    WriteDirect(s, k, w, (s.regs[k] - v) % TWO64);
  }

  /** Instructions on two registers, which may be the same one: the second is replaced, and
      `sub` takes it from the first. */
  lemma DirectRegisters(s: State, w: Width, j: nat, k: nat)
    requires j < 16 && k < 16
    ensures Exec(s, TwoReg(MOVE, w, j, k)) == Some(Left(s, k, s.regs[j], false))
    ensures Exec(s, TwoReg(ADD, w, j, k)) == Some(Left(s, k, (s.regs[j] + s.regs[k]) % TWO64, false))
    ensures Exec(s, TwoReg(SUB, w, j, k)) == Some(Left(s, k, (s.regs[j] - s.regs[k]) % TWO64, false))
  {
    hide ReadOperand, WriteOperand;
    ReadDirect(s, j, w);
    ReadDirect(s, k, w);
    WriteDirect(s, k, w, s.regs[j]);
    WriteDirect(s, k, w, (s.regs[j] + s.regs[k]) % TWO64);
    WriteDirect(s, k, w, (s.regs[j] - s.regs[k]) % TWO64);
  }

  /** Instructions on one register. `inc` carries exactly if the low part becomes 0; `dec`
      cuts the register to the width first, and borrows exactly if that part was 0. */
  lemma DirectSingle(s: State, w: Width, k: nat)
    requires k < 16
    ensures var v := (s.regs[k] + 1) % TWO64;
      Exec(s, OneRegW(INC, w, k)) == Some(Left(s, k, v, v % w.Modulus() == 0))
    ensures var low := s.regs[k] % w.Modulus();
      Exec(s, OneRegW(DEC, w, k)) == Some(Left(s, k, (low - 1) % TWO64, low == 0))
    ensures Exec(s, OneRegW(CLR, w, k)) == Some(Left(s, k, 0, false))
  {
    hide ReadOperand, WriteOperand;
    ReadDirect(s, k, w);
    WriteDirect(s, k, w, (s.regs[k] + 1) % TWO64);
    WriteDirect(s, k, w, (s.regs[k] % w.Modulus() - 1) % TWO64);
    WriteDirect(s, k, w, 0);
    NextLow(s.regs[k], w);
  }

  lemma Difference(a: int, b: int, m: nat)
    ensures a * m - b * m == (a - b) * m
  {
  }

  lemma NextLow(v: u64, w: Width)
    ensures (v + 1) % TWO64 % w.Modulus() == 0 <==> v % w.Modulus() == w.Modulus() - 1
  {
    var m := w.Modulus();
    LowOfWord(v + 1, w);
    assert v == v / m * m + v % m;
    if v % m < m - 1 {
      Remainder(v + 1, m, v / m, v % m + 1);
    } else {
      Remainder(v + 1, m, v / m + 1, 0);
    }
  }

  /** `subi` takes back what `addi` has added. */
  lemma AddedTakenBack(s: State, w: Width, v: u64, k: nat)
    requires k < 16
    ensures var t := Exec(s, ImmReg(ADDI, w, v, k));
      t.Some? && Exec(t.value, ImmReg(SUBI, w, v, k)) == Some(Left(s, k, s.regs[k], false))
  {
    hide Exec;
    DirectImmediate(s, w, v, k);
    var t := Left(s, k, (s.regs[k] + v) % TWO64, false);
    DirectImmediate(t, w, v, k);
    Remainder(s.regs[k] + v, TWO64, (s.regs[k] + v) / TWO64, t.regs[k]);
    Remainder(t.regs[k] - v, TWO64, -((s.regs[k] + v) / TWO64), s.regs[k]);
    assert s.regs[k := t.regs[k]][k := s.regs[k]] == s.regs[k := s.regs[k]];
  }

  /** `dec`, at its width, takes back what `inc` has. */
  lemma CountedBack(s: State, w: Width, k: nat)
    requires k < 16
    ensures var t := Exec(s, OneRegW(INC, w, k));
      t.Some? && var u := Exec(t.value, OneRegW(DEC, w, k));
      u.Some? && u.value.regs[k] % w.Modulus() == s.regs[k] % w.Modulus()
  {
    hide Exec;
    DirectSingle(s, w, k);
    DirectSingle(Exec(s, OneRegW(INC, w, k)).value, w, k);
    UpAndDown(s.regs[k], w);
  }

  lemma UpAndDown(v: u64, w: Width)
    ensures ((v + 1) % TWO64 % w.Modulus() - 1) % TWO64 % w.Modulus() == v % w.Modulus()
  {
    var m, low := w.Modulus(), (v + 1) % TWO64 % w.Modulus();
    LowOfWord(v + 1, w);
    LowOfWord(low - 1, w);
    assert v == v / m * m + v % m && v + 1 == (v + 1) / m * m + low;
    Difference(v / m, (v + 1) / m, m);
    Remainder(low - 1, m, v / m - (v + 1) / m, v % m);
  }

  /** A branch behind such an instruction: only zero and carry can be set, so `ble` and `bge`
      ask for zero, as `beq` does, and `blt` and `bgt` are never taken. */
  lemma LeftThenBranch(s: State, k: nat, v: u64, carry: bool, op: byte, offset: u32)
    requires k < 16 && BRA <= op <= BGE
    ensures var t := Left(s, k, v, carry);
      var taken := if op == BRA then true
                   else if op == BEQ || op == BLE || op == BGE then v == 0
                   else if op == BNE then v != 0
                   else op == BCB && carry;
      Exec(t, Offset(op, offset)) == Some(t.(ip := if taken then (s.ip + offset + 4) % TWO32 else s.ip))
  {
    hide WriteOperand;
  }

  // ---- Any operands ----

  /** `v` is written to the operand `r`, and the flags are set from it. */
  ghost predicate Puts(s: State, t: Option<State>, r: byte, w: Width, v: u64, carry: bool) {
    var u := WriteOperand(s, r, v, w);
    if u.None? then t.None? else t == Some(u.value.(cond := Flags(v == 0, carry, false, false)))
  }

  /** What holds for registers holds for every operand: the number read, at the width of the
      instruction, takes the place of the register, and an operand that is read and written
      counts up or down twice. */
  lemma AnyImmediate(s: State, w: Width, v: u64, r: byte, a: u64, read: State)
    ensures Puts(s, Exec(s, ImmReg(LOAD, w, v, r)), r, w, v, false)
    ensures ReadOperand(s, r, w) == Some(Read(read, a)) ==>
      && Puts(read, Exec(s, ImmReg(ADDI, w, v, r)), r, w, (a + v) % TWO64, false)
      && Puts(read, Exec(s, ImmReg(SUBI, w, v, r)), r, w, (a - v) % TWO64, false)
  {
    hide ReadOperand, WriteOperand;
  }

  lemma AnyRegisters(s: State, w: Width, ra: byte, rb: byte, a: u64, b: u64, once: State, twice: State)
    requires ReadOperand(s, ra, w) == Some(Read(once, a)) && ReadOperand(once, rb, w) == Some(Read(twice, b))
    ensures Puts(once, Exec(s, TwoReg(MOVE, w, ra, rb)), rb, w, a, false)
    ensures Puts(twice, Exec(s, TwoReg(ADD, w, ra, rb)), rb, w, (a + b) % TWO64, false)
    ensures Puts(twice, Exec(s, TwoReg(SUB, w, ra, rb)), rb, w, (a - b) % TWO64, false)
  {
    hide ReadOperand, WriteOperand;
  }

  lemma AnySingle(s: State, w: Width, r: byte, a: u64, read: State)
    ensures Puts(s, Exec(s, OneRegW(CLR, w, r)), r, w, 0, false)
    ensures ReadOperand(s, r, w) == Some(Read(read, a)) ==>
      var v, low := (a + 1) % TWO64, a % w.Modulus();
      && Puts(read, Exec(s, OneRegW(INC, w, r)), r, w, v, v % w.Modulus() == 0)
      && Puts(read, Exec(s, OneRegW(DEC, w, r)), r, w, (low - 1) % TWO64, low == 0)
  {
    hide ReadOperand, WriteOperand;
    NextLow(a, w);
  }

  // ---- Memory ----

  /** Adding an immediate to a number in memory, or taking it away, leaves the result there, as
      far as it fits; at `.b` the byte behind gets what did not fit. */
  lemma InMemory(s: State, op: byte, w: Width, v: u64, k: nat, x: nat)
    requires (op == ADDI || op == SUBI) && k < 16 && x < w.Modulus()
    requires At(s.mem, s.regs[k] % TWO32, ToLE(x, w.Bytes())) && s.regs[k] % TWO32 + Stored(w) <= |s.mem|
    ensures var t, r := Exec(s, ImmReg(op, w, v, 0x10 + k)), (if op == ADDI then x + v else x - v) % TWO64;
      t.Some? && Stores(s.(cond := Flags(r == 0, false, false, false)), t.value, s.regs[k] % TWO32, w, r, s.regs)
  {
    hide ReadOperand, WriteOperand, ToLE, At;
    ReadReference(s, k, w, x);
    Remainder(x, w.Modulus(), 0, x);
    WriteReference(s, k, w, (if op == ADDI then x + v else x - v) % TWO64);
  }

  // ---- Division ----

  /** `t` differs from `s` in two registers, the quotient and the remainder of `a` by `b`; if
      they are the same one, it holds the remainder. */
  ghost predicate Divided(s: State, t: State, a: u64, b: u64, q: nat, r: nat, quotient: u64, remainder: u64)
    requires q < 16 && r < 16
  {
    && a == quotient * b + remainder && remainder < b
    && t == s.(regs := s.regs[q := quotient][r := remainder], cond := Flags(false, false, false, false))
  }

  /** The second register is the divisor, and gets the quotient. */
  lemma DirectDivide(s: State, w: Width, j: nat, k: nat, r: nat) returns (quotient: u64, remainder: u64)
    requires j < 16 && k < 16 && r < 16
    ensures var a, b, t := s.regs[j], s.regs[k], Exec(s, DivReg(w, j, k, r));
      (t.Some? <==> b != 0) && (t.Some? ==> Divided(s, t.value, a, b, k, r, quotient, remainder))
  {
    hide ReadOperand, WriteOperand;
    var a, b := s.regs[j], s.regs[k];
    ReadDirect(s, j, w);
    ReadDirect(s, k, w);
    quotient, remainder := 0, 0;
    if b != 0 {
      QuotientFits(a, b);
      quotient, remainder := a / b, a % b;
      WriteDirect(s, k, w, quotient);
      WriteDirect(s.(regs := s.regs[k := quotient]), r, w, remainder);
    }
  }

  /** `divi` divides by its immediate, and replaces what it has divided. */
  lemma DirectDivideBy(s: State, w: Width, b: u64, k: nat, r: nat) returns (quotient: u64, remainder: u64)
    requires k < 16 && r < 16
    ensures var t := Exec(s, DivImm(w, b, k, r));
      (t.Some? <==> b != 0) && (t.Some? ==> Divided(s, t.value, s.regs[k], b, k, r, quotient, remainder))
  {
    hide ReadOperand, WriteOperand;
    var a := s.regs[k];
    ReadDirect(s, k, w);
    quotient, remainder := 0, 0;
    if b != 0 {
      QuotientFits(a, b);
      quotient, remainder := a / b, a % b;
      WriteDirect(s, k, w, quotient);
      WriteDirect(s.(regs := s.regs[k := quotient]), r, w, remainder);
    }
  }

  lemma QuotientFits(a: u64, b: u64)
    requires b > 0
    ensures a / b < TWO64 && a == a / b * b + a % b
  {
    MulAtLeast(a / b, b);
    if a / b > a { AtLeastItself(a / b, b); }
  }

  lemma AtLeastItself(q: nat, b: nat)
    requires b > 0
    ensures q * b >= q
  {
  }

  // ---- Comparisons ----

  /** The branches that ask about two numbers compared. */
  predicate Asks(op: byte) { op == BEQ || op == BNE || op == BLT || op == BGT || op == BLE || op == BGE }

  /** What they ask: the second number, or the immediate, against the other one. */
  predicate Stands(op: byte, a: u64, b: u64)
    requires Asks(op)
  {
    if op == BEQ then b == a
    else if op == BNE then b != a
    else if op == BLT then b < a
    else if op == BGT then b > a
    else if op == BLE then b <= a
    else b >= a
  }

  /** The instruction compares `a` with `b`, reading them leaves the state `read`. */
  ghost predicate Compares(s: State, i: Instr, a: u64, b: u64, read: State) {
    match i
    case TwoReg(op, w, ra, rb) =>
      && op == CMP && ReadOperand(s, ra, w).Some? && ReadOperand(s, ra, w).value.value == a
      && ReadOperand(ReadOperand(s, ra, w).value.s, rb, w) == Some(Read(read, b))
    case ImmReg(op, w, v, r) => op == CMPI && ReadOperand(s, r, w) == Some(Read(read, a)) && b == v
    case _ => false
  }

  /** Registers are compared as they are. */
  lemma DirectCompares(s: State, w: Width, j: nat, k: nat, v: u64)
    requires j < 16 && k < 16
    ensures Compares(s, TwoReg(CMP, w, j, k), s.regs[j], s.regs[k], s)
    ensures Compares(s, ImmReg(CMPI, w, v, k), s.regs[k], v, s)
  {
    hide ReadOperand;
    ReadDirect(s, j, w);
    ReadDirect(s, k, w);
  }

  lemma ComparesWhat(s: State, i: Instr, a: u64, b: u64, read: State)
    requires Compares(s, i, a, b, read)
    ensures !WideShift(i)
  {
    hide ReadOperand;
  }

  lemma ReadsKeep(s: State, r: byte, w: Width)
    ensures var t := ReadOperand(s, r, w);
      t.Some? ==> t.value.s == s.(regs := t.value.s.regs)
  {
    hide LoadW;
  }

  /** A comparison changes the flags only, apart from registers that its operands count up
      or down. */
  lemma CompareSets(s: State, i: Instr, a: u64, b: u64, read: State)
    requires Compares(s, i, a, b, read)
    ensures read == s.(regs := read.regs)
    ensures Exec(s, i) == Some(read.(cond := Flags(b == a, false, b > a, b < a)))
  {
    hide ReadOperand, WriteOperand;
    match i {
      case TwoReg(_, w, ra, rb) => ReadsKeep(s, ra, w); ReadsKeep(ReadOperand(s, ra, w).value.s, rb, w);
      case ImmReg(_, w, _, r) => ReadsKeep(s, r, w);
    }
  }

  lemma BranchAsks(t: State, a: u64, b: u64, op: byte, offset: u32)
    requires Asks(op) && t.cond == Flags(b == a, false, b > a, b < a)
    ensures Exec(t, Offset(op, offset))
         == Some(t.(ip := if Stands(op, a, b) then (t.ip + offset + 4) % TWO32 else t.ip))
  {
    hide WriteOperand;
  }

  /** The branch behind a comparison goes by how the numbers stand. */
  lemma CompareThenBranch(s: State, i: Instr, a: u64, b: u64, read: State, op: byte, offset: u32, next: u32)
    requires Compares(s, i, a, b, read) && Asks(op)
    ensures Exec(s, i).Some?
    ensures var t := Exec(s, i).value;
      && t.mem == s.mem && t.regs == read.regs && t.ip == s.ip && t.stopped == s.stopped
      && Exec(t.(ip := next), Offset(op, offset))
         == Some(t.(ip := if Stands(op, a, b) then (next + offset + 4) % TWO32 else next))
  {
    hide Exec, Compares;
    CompareSets(s, i, a, b, read);
    BranchAsks(Exec(s, i).value.(ip := next), a, b, op, offset);
  }

  /** Two steps of the machine over a program, wherever it is loaded: a comparison on line
      `k`, a branch on the next one. It goes on at the label of line `d` exactly if the numbers
      stand as the branch asks, and otherwise behind the branch; memory is as before, and so
      are the registers, but for what the operands of the comparison count up or down. */
  lemma CompareLands(prog: seq<Line>, s: State, base: nat, k: nat, d: nat, a: u64, b: u64, read: State)
    requires WellDefined(prog) && Loaded(s.mem, base, Reference(prog)) && k + 1 < |prog| && d < |prog|
    requires prog[k].stmt.Some? && prog[k].stmt.value.Code?
    requires prog[k + 1].stmt.Some? && prog[k + 1].stmt.value.Jump? && Asks(prog[k + 1].stmt.value.op)
    requires prog[d].name == Some(prog[k + 1].stmt.value.target)
    requires s.ip == AddressOf(prog, k, base) && AddressOf(prog, k + 1, base) + 5 < TWO32
    requires AddressOf(prog, d, base) < TWO32 && !s.stopped
    requires var after := s.(ip := AddressOf(prog, k + 1, base) % TWO32);
      Compares(after, prog[k].stmt.value.i, a, b, read)
    ensures var t := Steps(s, 2);
      && t.Some? && t.value.mem == s.mem && t.value.regs == read.regs && !t.value.stopped
      && t.value.ip == if Stands(prog[k + 1].stmt.value.op, a, b) then AddressOf(prog, d, base)
                       else AddressOf(prog, k + 1, base) + 5
  {
    hide ReadOperand, WriteOperand, ToLE, FromLE, Encode, Defs, Decode, Loaded, Reference, Rel, Start, UniqueLabels,
         Recognised, TargetsIn, Exec, Step, Steps, Compares;
    var i, st := prog[k].stmt.value.i, prog[k + 1].stmt.value;
    assert LineOk(prog[k]) by { assert prog[k] in prog; }
    assert !WideShift(i) by { ComparesWhat(s.(ip := AddressOf(prog, k + 1, base) % TWO32), i, a, b, read); }
    CodeFetched(prog, s.mem, base, k);
    Loops.JumpFetched(prog, s.mem, base, k + 1, d);
    var next := AddressOf(prog, k + 1, base);
    Remainder(next, TWO32, 0, next);
    var f := Decode(s.mem, next).value;
    Remainder(next + 5, TWO32, 0, next + 5);
    CompareThenBranch(s.(ip := next), i, a, b, read, st.op, f.i.offset, next + 5);
    var t := Exec(s.(ip := next), i).value;
    StepIs(s, next);
    StepsTwo(s, t, next + 5);
  }

  lemma StepsTwo(s: State, t: State, next: nat)
    requires Step(s) == Some(t) && !s.stopped && !t.stopped
    requires Decode(t.mem, t.ip).Some? && Decode(t.mem, t.ip).value.next == next < TWO32
    ensures Steps(s, 2) == Exec(t.(ip := next), Decode(t.mem, t.ip).value.i)
  {
    hide Step, Exec, Decode;
    assert Steps(t, 1) == Step(t) by { OneStep(t); }
    assert Step(t) == Exec(t.(ip := next), Decode(t.mem, t.ip).value.i) by { StepIs(t, next); }
  }

  lemma OneStep(t: State)
    requires !t.stopped
    ensures Steps(t, 1) == Step(t)
  {
    hide Step;
  }

  lemma StepIs(t: State, next: nat)
    requires Decode(t.mem, t.ip).Some? && Decode(t.mem, t.ip).value.next == next < TWO32
    ensures Step(t) == Exec(t.(ip := next), Decode(t.mem, t.ip).value.i)
  {
    hide Exec, Decode;
    Remainder(next, TWO32, 0, next);
  }
}
