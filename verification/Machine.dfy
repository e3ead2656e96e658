/** The virtual machine as a function on states: sixteen 64-bit registers, byte memory, a
    32-bit instruction pointer and the condition flags. None stands for what the machine
    leaves undefined (memory outside the buffer, division by zero) or what is not modelled
    (system calls, the allocator, floating point). */
module Machine {
  import opened Words
  import opened Isa
  import opened Rotate

  /** The condition register; its overflow and negative bits are set by no instruction. */
  datatype Flags = Flags(zero: bool, carry: bool, greater: bool, less: bool)

  const CLEAR := Flags(false, false, false, false)

  type Registers = r: seq<u64> | |r| == 16 witness seq(16, _ => 0)

  datatype State = State(regs: Registers, mem: seq<byte>, ip: u32, cond: Flags, stopped: bool)

  datatype Read = Read(s: State, value: u64)

  const DIRECT: byte := 0x00
  const REFERENCE: byte := 0x10
  const PRE_DEC: byte := 0x20
  const POST_INC: byte := 0x30

  const A7: byte := 15

  function Mode(r: byte): byte { r - r % 16 }

  function Reg(r: byte): (k: nat)
    ensures k < 16
  {
    r % 16
  }

  /** Addresses are the low 32 bits of a register. */
  function Address(v: u64): u32 { v % TWO32 }

  function Add64(v: u64, d: u64): u64 { (v + d) % TWO64 }

  function Sub64(v: u64, d: u64): u64 { (v - d) % TWO64 }

  function Splice(m: seq<byte>, a: nat, s: seq<byte>): (r: seq<byte>)
    requires a + |s| <= |m|
    ensures |r| == |m|
  {
    m[..a] + s + m[a + |s|..]
  }

  /** A byte store falls through to a word store, so it writes two bytes. */
  function StoreSize(w: Width): nat { if w == B then 2 else w.Bytes() }

  function ReadMemory(s: State, a: u32, w: Width): Option<u64> {
    if a + w.Bytes() > |s.mem| then None else Some(LoadW(s.mem, a, w))
  }

  function WriteMemory(s: State, a: u32, v: u64, w: Width): Option<State> {
    if a + StoreSize(w) > |s.mem| then None else Some(s.(mem := Splice(s.mem, a, ToLE(v, StoreSize(w)))))
  }

  function SetReg(s: State, k: nat, v: u64): State
    requires k < 16
  {
    s.(regs := s.regs[k := v])
  }

  /** Reading an operand: a direct register is read whole, whatever the width. */
  function ReadOperand(s: State, r: byte, w: Width): Option<Read> {
    var k, mode := Reg(r), Mode(r);
    if mode == DIRECT then Some(Read(s, s.regs[k]))
    else if mode == REFERENCE then
      var v := ReadMemory(s, Address(s.regs[k]), w);
      if v.None? then None else Some(Read(s, v.value))
    else if mode == PRE_DEC then
      var t := SetReg(s, k, Sub64(s.regs[k], w.Bytes()));
      var v := ReadMemory(t, Address(t.regs[k]), w);
      if v.None? then None else Some(Read(t, v.value))
    else if mode == POST_INC then
      var v := ReadMemory(s, Address(s.regs[k]), w);
      if v.None? then None else Some(Read(SetReg(s, k, Add64(s.regs[k], w.Bytes())), v.value))
    else Some(Read(s, 0))
  }

  /** Writing an operand: a direct register is replaced whole, whatever the width. */
  function WriteOperand(s: State, r: byte, v: u64, w: Width): Option<State> {
    var k, mode := Reg(r), Mode(r);
    if mode == DIRECT then Some(SetReg(s, k, v))
    else if mode == REFERENCE then WriteMemory(s, Address(s.regs[k]), v, w)
    else if mode == PRE_DEC then
      var t := SetReg(s, k, Sub64(s.regs[k], w.Bytes()));
      WriteMemory(t, Address(t.regs[k]), v, w)
    else if mode == POST_INC then
      var t := WriteMemory(s, Address(s.regs[k]), v, w);
      if t.None? then None else Some(SetReg(t.value, k, Add64(t.value.regs[k], w.Bytes())))
    else Some(s)
  }

  /** Whether register `i` is in a register set. */
  predicate InSet(mask: u16, i: nat) { mask / Pow2(i) % 2 == 1 }

  /** `push`: the registers of the set from number `i` upwards, lowest first. */
  function PushFrom(s: State, mask: u16, r: byte, w: Width, i: nat): Option<State>
    requires i <= 16
    decreases 16 - i
  {
    if i == 16 then Some(s)
    else if !InSet(mask, i) then PushFrom(s, mask, r, w, i + 1)
    else
      var t := WriteOperand(s, r, s.regs[i], w);
      if t.None? then None else PushFrom(t.value, mask, r, w, i + 1)
  }

  /** `pop`: the registers of the set below number `i`, highest first. */
  function PopBelow(s: State, mask: u16, r: byte, w: Width, i: nat): Option<State>
    requires i <= 16
    decreases i
  {
    if i == 0 then Some(s)
    else if !InSet(mask, i - 1) then PopBelow(s, mask, r, w, i - 1)
    else
      var t := ReadOperand(s, r, w);
      if t.None? then None else PopBelow(SetReg(t.value.s, i - 1, t.value.value), mask, r, w, i - 1)
  }

  function Push(s: State, mask: u16, r: byte, w: Width): Option<State> {
    var t := PushFrom(s, mask, r, w, 0);
    if t.None? then None else Some(t.value.(cond := CLEAR))
  }

  function Pop(s: State, mask: u16, r: byte, w: Width): Option<State> {
    var t := PopBelow(s, mask, r, w, 16);
    if t.None? then None else Some(t.value.(cond := CLEAR))
  }

  /** Writes a result and sets the zero flag from it; the carry flag is the caller's. */
  function Result(s: State, r: byte, v: u64, w: Width, carry: bool): Option<State> {
    var t := WriteOperand(s, r, v, w);
    if t.None? then None else Some(t.value.(cond := CLEAR.(zero := v == 0, carry := carry)))
  }

  function Inc(s: State, w: Width, r: byte): Option<State> {
    var a := ReadOperand(s, r, w);
    if a.None? then None else
    var v := a.value.value;
    Result(a.value.s, r, Add64(v, 1), w, v % w.Modulus() == w.Modulus() - 1)
  }

  function Dec(s: State, w: Width, r: byte): Option<State> {
    var a := ReadOperand(s, r, w);
    if a.None? then None else
    var v := a.value.value % w.Modulus();
    Result(a.value.s, r, Sub64(v, 1), w, v == 0)
  }

  function Clr(s: State, w: Width, r: byte): Option<State> { Result(s, r, 0, w, false) }

  function Compare(s: State, a: u64, b: u64): State {
    s.(cond := Flags(b == a, false, b > a, b < a))
  }

  /** One arithmetic instruction of each operand shape; the others differ in the operator. */
  function ImmediateOp(s: State, op: byte, w: Width, v: u64, r: byte): Option<State> {
    if op == LOAD then Result(s, r, v, w, false)
    else if op == ADDI || op == SUBI || op == CMPI then
      var a := ReadOperand(s, r, w);
      if a.None? then None
      else if op == CMPI then Some(Compare(a.value.s, a.value.value, v))
      else Result(a.value.s, r, if op == ADDI then Add64(a.value.value, v) else Sub64(a.value.value, v), w, false)
    else None
  }

  function RegisterOp(s: State, op: byte, w: Width, ra: byte, rb: byte): Option<State> {
    var a := ReadOperand(s, ra, if op == ROL || op == ROR then B else w);
    if a.None? then None
    else if op == MOVE then Result(a.value.s, rb, a.value.value, w, false)
    else if op == ROL || op == ROR then Rotation(a.value.s, op == ROL, w, a.value.value, rb)
    else if op == ADD || op == SUB || op == CMP then
      var b := ReadOperand(a.value.s, rb, w);
      if b.None? then None
      else if op == CMP then Some(Compare(b.value.s, a.value.value, b.value.value))
      else Result(b.value.s, rb,
                  if op == ADD then Add64(a.value.value, b.value.value) else Sub64(a.value.value, b.value.value),
                  w, false)
    else None
  }

  function Divide(s: State, w: Width, a: u64, b: u64, quotient: byte, remainder: byte): Option<State> {
    if b == 0 then None else
    var t := WriteOperand(s, quotient, a / b, w);
    if t.None? then None else
    var u := WriteOperand(t.value, remainder, a % b, w);
    if u.None? then None else Some(u.value.(cond := CLEAR))
  }

  /** Rotating the low bits of an operand. Amounts for which the machine's shifts are
      undefined (over the width, or a shift of a whole 64-bit word) give None. */
  function Rotation(s: State, left: bool, w: Width, bits: nat, r: byte): Option<State> {
    var a := ReadOperand(s, r, w);
    if a.None? || !Turnable(bits, w.Bits()) then None
    else Result(a.value.s, r, Turned(left, w, a.value.value % w.Modulus(), bits), w, false)
  }

  predicate Turnable(bits: nat, n: nat) { bits <= n && bits < 64 && n - bits < 64 }

  function Turned(left: bool, w: Width, v: nat, bits: nat): (r: u64)
    requires bits <= w.Bits()
    ensures r < w.Modulus()
  {
    TurnBound(v, w, bits);
    if left then RotateLeft(v, w.Bits(), bits) else RotateRight(v, w.Bits(), bits)
  }

  lemma TurnBound(v: nat, w: Width, bits: nat)
    requires bits <= w.Bits()
    ensures RotateLeft(v, w.Bits(), bits) < w.Modulus() && RotateRight(v, w.Bits(), bits) < w.Modulus()
  {
    hide Low, Or, Shl, Shr;
    WidthModulus(w);
    LowIsMod(Or(Low(Shl(v, bits), 64), Shr(v, w.Bits() - bits)), w.Bytes());
    LowIsMod(Or(Shr(v, bits), Low(Shl(v, w.Bits() - bits), 64)), w.Bytes());
  }

  predicate Taken(op: byte, c: Flags) {
    || op == BRA || op == JMP || op == CALL
    || (op == BEQ && c.zero)
    || (op == BNE && !c.zero)
    || (op == BCB && c.carry)
    || (op == BLT && c.less)
    || (op == BGT && c.greater)
    || (op == BLE && (c.zero || c.less))
    || (op == BGE && (c.zero || c.greater))
  }

  function Branch(s: State, op: byte, offset: u32): Option<State> {
    var t := if op == CALL then WriteOperand(s, PRE_DEC + A7, s.ip, L) else Some(s);
    if t.None? then None
    else if Taken(op, s.cond) then Some(t.value.(ip := (s.ip + offset + 4) % TWO32))
    else t
  }

  function CallTo(s: State, target: u32): Option<State> {
    var t := WriteOperand(s, PRE_DEC + A7, s.ip, L);
    if t.None? then None else Some(t.value.(ip := target))
  }

  function CallM(s: State, r: byte): Option<State> {
    var t := WriteOperand(s, PRE_DEC + A7, s.ip, L);
    if t.None? then None else
    var a := ReadOperand(t.value, r, L);
    if a.None? then None else Some(a.value.s.(ip := Address(a.value.value)))
  }

  function Ret(s: State): Option<State> {
    var a := ReadOperand(s, POST_INC + A7, L);
    if a.None? then None else Some(a.value.s.(ip := Address(a.value.value)))
  }

  /** What an instruction does once it has been fetched and `ip` points after it. */
  function Exec(s: State, i: Instr): Option<State> {
    match i
    case NoArg(op) =>
      if op == NOP then Some(s)
      else if op == RET then Ret(s)
      else if op == STOP then Some(s.(stopped := true)) else None
    case Offset(op, offset) => Branch(s, op, offset)
    case Imm32(op, v) =>
      if op == JMPI then Some(s.(ip := v)) else if op == CALLI then CallTo(s, v) else None
    case OneReg(op, r) =>
      if op == JMPM then
        var a := ReadOperand(s, r, L);
        if a.None? then None else Some(a.value.s.(ip := Address(a.value.value)))
      else if op == CALLM then CallM(s, r)
      else None
    case OneRegW(op, w, r) =>
      if op == INC then Inc(s, w, r) else if op == DEC then Dec(s, w, r) else if op == CLR then Clr(s, w, r) else None
    case Refer(offset, r) => WriteOperand(s, r, (s.ip + offset + 3) % TWO32, L)
    case ImmReg(op, w, v, r) => ImmediateOp(s, op, w, v, r)
    case ShiftImm(op, w, v, r) =>
      if op == ROLI || op == RORI then Rotation(s, op == ROLI, w, v, r) else None
    case TwoReg(op, w, ra, rb) => RegisterOp(s, op, w, ra, rb)
    case RegSet(op, w, mask, r) =>
      if op == PUSH then Push(s, mask, r, w) else if op == POP then Pop(s, mask, r, w) else None
    case DivImm(w, v, ra, rb) =>
      var a := ReadOperand(s, ra, w);
      if a.None? then None else Divide(a.value.s, w, a.value.value, v, ra, rb)
    case DivReg(w, ra, rb, rc) =>
      var a := ReadOperand(s, ra, w);
      if a.None? then None else
      var b := ReadOperand(a.value.s, rb, w);
      if b.None? then None else Divide(b.value.s, w, a.value.value, b.value.value, rb, rc)
    case _ => None
  }

  /** Fetch and execute one instruction. */
  function Step(s: State): Option<State> {
    match Decode(s.mem, s.ip)
    case None => None
    case Some(f) => Exec(s.(ip := f.next % TWO32), f.i)
  }

  /** The machine's run: `n` instructions, none of them after it has stopped. */
  function Steps(s: State, n: nat): Option<State>
    decreases n
  {
    if n == 0 then Some(s) else if s.stopped then None else
    var t := Step(s);
    if t.None? then None else Steps(t.value, n - 1)
  }

  lemma {:induction false} StepsAdd(s: State, m: nat, n: nat)
    ensures Steps(s, m).Some? ==> Steps(s, m + n) == Steps(Steps(s, m).value, n)
    decreases m
  {
    hide Step;
    if m > 0 && !s.stopped && Step(s).Some? { StepsAdd(Step(s).value, m - 1, n); }
  }
}
