/** The instruction set: what the assembler emits for each instruction and what the
    machine's dispatcher fetches back. The two are written from different functions of
    the program and meet in `RoundTripIff`. */
module Isa {
  import opened Words

  const NOP: byte := 0x00
  const LOAD: byte := 0x04
  const MOVE: byte := 0x08
  const PUSH: byte := 0x0c
  const POP: byte := 0x10
  const INC: byte := 0x14
  const DEC: byte := 0x18
  const CLR: byte := 0x1c
  const ADDI: byte := 0x20
  const ADD: byte := 0x24
  const SUBI: byte := 0x28
  const SUB: byte := 0x2c
  const MULI: byte := 0x30
  const MUL: byte := 0x34
  const DIVI: byte := 0x38
  const DIV: byte := 0x3c
  const ANDI: byte := 0x40
  const AND: byte := 0x44
  const ORI: byte := 0x48
  const OR: byte := 0x4c
  const XORI: byte := 0x50
  const XOR: byte := 0x54
  const LSLI: byte := 0x58
  const LSL: byte := 0x5c
  const LSRI: byte := 0x60
  const LSR: byte := 0x64
  const ROLI: byte := 0x68
  const ROL: byte := 0x6c
  const RORI: byte := 0x70
  const ROR: byte := 0x74
  const NOT: byte := 0x78
  const TST: byte := 0x80
  const CMPI: byte := 0x84
  const CMP: byte := 0x88
  const FLOAD: byte := 0x8c
  const FCAST: byte := 0x90
  const FTAN: byte := 0xd0
  const BRA: byte := 0xe8
  const BEQ: byte := 0xe9
  const BNE: byte := 0xea
  const BCB: byte := 0xeb
  const BLT: byte := 0xec
  const BGT: byte := 0xed
  const BLE: byte := 0xee
  const BGE: byte := 0xef
  const JMPI: byte := 0xf0
  const JMPM: byte := 0xf1
  const JMP: byte := 0xf2
  const CALLI: byte := 0xf3
  const CALLM: byte := 0xf4
  const CALL: byte := 0xf5
  const RET: byte := 0xf6
  const ALLOC: byte := 0xf7
  const FREE: byte := 0xf8
  const SYSCALL: byte := 0xf9
  const REFER: byte := 0xfa
  const STOP: byte := 0xfd

  /** One constructor for each operand shape; immediates are unsigned, branch offsets
      are the 32-bit pattern of the signed offset. */
  datatype Instr =
    | NoArg(op: byte)
    | Offset(op: byte, offset: u32)
    | Imm32(op: byte, value: u32)
    | OneReg(op: byte, r: byte)
    | OneRegW(op: byte, w: Width, r: byte)
    | Refer(offset: u32, r: byte)
    | Alloc(size: u32, r: byte)
    | ImmReg(op: byte, w: Width, imm: u64, r: byte)
    | ShiftImm(op: byte, w: Width, imm: u64, r: byte)
    | FLoad(w: Width, bits: u64, r: byte)
    | TwoReg(op: byte, w: Width, ra: byte, rb: byte)
    | RegSet(op: byte, w: Width, mask: u16, r: byte)
    | DivImm(w: Width, imm: u64, ra: byte, rb: byte)
    | DivReg(w: Width, ra: byte, rb: byte, rc: byte)

  predicate IsNoArg(op: byte) { op == NOP || op == RET || op == STOP }

  predicate IsOffset(op: byte) { BRA <= op <= BGE || op == JMP || op == CALL }

  predicate IsImm32(op: byte) { op == JMPI || op == CALLI || op == SYSCALL }

  predicate IsOneReg(op: byte) { op == JMPM || op == CALLM || op == FREE }

  predicate IsOneRegW(op: byte) { op == INC || op == DEC || op == CLR || op == NOT }

  predicate IsImmReg(op: byte) {
    op == LOAD || op == ADDI || op == SUBI || op == MULI || op == ANDI || op == ORI || op == XORI || op == CMPI
  }

  predicate IsShiftImm(op: byte) { op == LSLI || op == LSRI || op == ROLI || op == RORI }

  predicate IsTwoReg(op: byte) {
    || op == MOVE || op == ADD || op == SUB || op == MUL || op == AND || op == OR || op == XOR
    || op == LSL || op == LSR || op == ROL || op == ROR || op == TST || op == CMP
    || (FCAST <= op <= FTAN && op % 4 == 0)
  }

  predicate IsRegSet(op: byte) { op == PUSH || op == POP }

  /** The instructions the assembler can be asked for: an opcode of the right shape and
      immediates that fit the operand width. */
  predicate WellFormed(i: Instr) {
    match i
    case NoArg(op) => IsNoArg(op)
    case Offset(op, _) => IsOffset(op)
    case Imm32(op, _) => IsImm32(op)
    case OneReg(op, _) => IsOneReg(op)
    case OneRegW(op, _, _) => IsOneRegW(op)
    case Refer(_, _) => true
    case Alloc(_, _) => true
    case ImmReg(op, w, v, _) => IsImmReg(op) && v < w.Modulus()
    case ShiftImm(op, w, v, _) => IsShiftImm(op) && v < w.Modulus()
    case FLoad(_, _, _) => true
    case TwoReg(op, _, _, _) => IsTwoReg(op)
    case RegSet(op, _, _, _) => IsRegSet(op)
    case DivImm(w, v, _, _) => v < w.Modulus()
    case DivReg(_, _, _, _) => true
  }

  /** The bytes the assembler writes for an instruction. */
  function Encode(i: Instr): seq<byte>
    requires WellFormed(i)
  {
    match i
    case NoArg(op) => [op]
    case Offset(op, off) => [op] + ToLE(off, 4)
    case Imm32(op, v) => [op] + ToLE(v, 4)
    case OneReg(op, r) => [op, r]
    case OneRegW(op, w, r) => [op + w.Code(), r]
    case Refer(off, r) => [REFER] + ToLE(off, 4) + [r]
    case Alloc(v, r) => [ALLOC] + ToLE(v, 4) + [r]
    case ImmReg(op, w, v, r) => [op + w.Code()] + ToLE(v, w.Bytes()) + [r]
    case ShiftImm(op, w, v, r) => [op + w.Code()] + ToLE(v, w.Bytes()) + [r]
    case FLoad(w, v, r) => [FLOAD + w.Code()] + ToLE(v, 8) + [r]
    case TwoReg(op, w, ra, rb) => [op + w.Code(), ra, rb]
    case RegSet(op, w, mask, r) => [op + w.Code()] + ToLE(mask, 2) + [r]
    case DivImm(w, v, ra, rb) => [DIVI + w.Code()] + ToLE(v, w.Bytes()) + [ra, rb]
    case DivReg(w, ra, rb, rc) => [DIV + w.Code(), ra, rb, rc]
  }

  function EncodeAll(code: seq<Instr>): seq<byte>
    requires forall i :: i in code ==> WellFormed(i)
  {
    if code == [] then [] else Encode(code[0]) + EncodeAll(code[1..])
  }

  /** What the machine fetches: the instruction and the address after it. */
  datatype Fetched = Fetched(i: Instr, next: nat)

  function Load(m: seq<byte>, p: nat, n: nat): nat
    requires p + n <= |m|
  {
    FromLE(m[p..p + n])
  }

  /** Opcodes below `bra` carry their width in the low two bits. */
  function OpcodeOf(raw: byte): byte {
    if raw < BRA then raw - raw % 4 else raw
  }

  /** The dispatcher: operands are read left to right. Nothing is fetched past the end of
      the code, and opcodes the dispatcher does not know yield nothing. */
  function Decode(m: seq<byte>, p: nat): Option<Fetched> {
    if p >= |m| then None else DecodeShape(OpcodeOf(m[p]), WidthOf(m[p] % 4), m, p)
  }

  function DecodeShape(op: byte, w: Width, m: seq<byte>, p: nat): Option<Fetched> {
    var room := |m| - p;
    if IsNoArg(op) then
      if room < 1 then None else Some(Fetched(NoArg(op), p + 1))
    else if IsOffset(op) then
      if room < 5 then None else Some(Fetched(Offset(op, LoadW(m, p + 1, L)), p + 5))
    else if IsImm32(op) then
      if room < 5 then None else Some(Fetched(Imm32(op, LoadW(m, p + 1, L)), p + 5))
    else if IsOneReg(op) then
      if room < 2 then None else Some(Fetched(OneReg(op, m[p + 1]), p + 2))
    else if IsOneRegW(op) then
      if room < 2 then None else Some(Fetched(OneRegW(op, w, m[p + 1]), p + 2))
    else if op == REFER then
      if room < 6 then None else Some(Fetched(Refer(LoadW(m, p + 1, L), m[p + 5]), p + 6))
    else if op == ALLOC then
      if room < 6 then None else Some(Fetched(Alloc(LoadW(m, p + 1, L), m[p + 5]), p + 6))
    else if IsImmReg(op) then
      if room < w.Bytes() + 2 then None else
      Some(Fetched(ImmReg(op, w, LoadW(m, p + 1, w), m[p + 1 + w.Bytes()]), p + w.Bytes() + 2))
    else if IsShiftImm(op) then
      if room < 3 then None else Some(Fetched(ShiftImm(op, w, m[p + 1], m[p + 2]), p + 3))
    else if op == FLOAD then
      if room < 10 then None else Some(Fetched(FLoad(w, LoadW(m, p + 1, X), m[p + 9]), p + 10))
    else if IsTwoReg(op) then
      if room < 3 then None else Some(Fetched(TwoReg(op, w, m[p + 1], m[p + 2]), p + 3))
    else if IsRegSet(op) then
      if room < 4 then None else Some(Fetched(RegSet(op, w, LoadW(m, p + 1, W), m[p + 3]), p + 4))
    else if op == DIVI then
      if room < w.Bytes() + 3 then None else
      Some(Fetched(DivImm(w, LoadW(m, p + 1, w), m[p + 1 + w.Bytes()], m[p + 2 + w.Bytes()]), p + w.Bytes() + 3))
    else if op == DIV then
      if room < 4 then None else Some(Fetched(DivReg(w, m[p + 1], m[p + 2], m[p + 3]), p + 4))
    else None
  }

  /** An operand of the given width, as the machine reads it from memory. */
  function LoadW(m: seq<byte>, p: nat, w: Width): (v: u64)
    requires p + w.Bytes() <= |m|
    ensures v < w.Modulus()
  {
    FromLEBound(m[p..p + w.Bytes()]);
    WidthModulus(w);
    Load(m, p, w.Bytes())
  }

  /** The instructions the machine sees when it runs straight through a piece of code. */
  function DecodeAll(m: seq<byte>, p: nat): Option<seq<Instr>>
    requires p <= |m|
    decreases |m| - p
  {
    if p == |m| then Some([]) else
    var f := Decode(m, p);
    if f.None? || f.value.next <= p || f.value.next > |m| then None else
    var rest := DecodeAll(m, f.value.next);
    if rest.None? then None else Some([f.value.i] + rest.value)
  }

  /** The one instruction shape on which assembler and machine differ: a shift or rotate
      by an immediate is written with an immediate of the operand width and read with an
      immediate of one byte. */
  predicate WideShift(i: Instr) { i.ShiftImm? && i.w != B }

  /** How many bytes the machine consumes to fetch an instruction. */
  function FetchSize(i: Instr): nat {
    match i
    case NoArg(_) => 1
    case Offset(_, _) | Imm32(_, _) => 5
    case OneReg(_, _) | OneRegW(_, _, _) => 2
    case Refer(_, _) | Alloc(_, _) => 6
    case ImmReg(_, w, _, _) => 2 + w.Bytes()
    case ShiftImm(_, _, _, _) | TwoReg(_, _, _, _) => 3
    case FLoad(_, _, _) => 10
    case RegSet(_, _, _, _) | DivReg(_, _, _, _) => 4
    case DivImm(w, _, _, _) => 3 + w.Bytes()
  }

  function FetchSizeAll(code: seq<Instr>): nat {
    if code == [] then 0 else FetchSize(code[0]) + FetchSizeAll(code[1..])
  }

  /** Bytes at `p` of `m`. */
  predicate At(m: seq<byte>, p: nat, s: seq<byte>) {
    p + |s| <= |m| && m[p..p + |s|] == s
  }

  lemma AtPart(m: seq<byte>, p: nat, a: seq<byte>, b: seq<byte>)
    requires At(m, p, a + b)
    ensures At(m, p, a) && At(m, p + |a|, b)
  {
    var s := a + b;
    assert m[p..p + |a|] == m[p..p + |s|][..|a|];
    assert m[p + |a|..p + |s|] == m[p..p + |s|][|a|..];
    assert s[..|a|] == a && s[|a|..] == b;
  }

  lemma AtBehind(pre: seq<byte>, m: seq<byte>, p: nat, s: seq<byte>)
    requires At(m, p, s)
    ensures At(pre + m, |pre| + p, s)
  {
    assert (pre + m)[|pre| + p..|pre| + p + |s|] == m[p..p + |s|];
  }

  lemma AtInside(m: seq<byte>, base: nat, code: seq<byte>, p: nat, s: seq<byte>)
    requires At(m, base, code) && At(code, p, s)
    ensures At(m, base + p, s)
  {
    var t := m[base + p..base + p + |s|];
    forall k | 0 <= k < |s| ensures t[k] == s[k] {
      assert m[base..base + |code|][p + k] == m[base + p + k];
      assert code[p..p + |s|][k] == code[p + k];
    }
  }

  lemma LoadAt(m: seq<byte>, p: nat, v: nat, w: Width)
    requires At(m, p, ToLE(v, w.Bytes()))
    ensures p + w.Bytes() <= |m| && LoadW(m, p, w) == v % w.Modulus()
  {
    LoadStore(v, w.Bytes());
    WidthModulus(w);
  }

  /** Splitting an encoding `[op] + immediate + registers` that sits in memory. */
  lemma FieldsAt(m: seq<byte>, p: nat, op: byte, v: nat, w: Width, regs: seq<byte>)
    requires At(m, p, [op] + ToLE(v, w.Bytes()) + regs)
    ensures p + 1 + w.Bytes() + |regs| <= |m|
    ensures m[p] == op && LoadW(m, p + 1, w) == v % w.Modulus()
    ensures forall k {:trigger regs[k]} :: 0 <= k < |regs| ==> m[p + 1 + w.Bytes() + k] == regs[k]
  {
    AtPart(m, p, [op] + ToLE(v, w.Bytes()), regs);
    AtPart(m, p, [op], ToLE(v, w.Bytes()));
    LoadAt(m, p + 1, v, w);
    assert m[p] == m[p..p + 1][0];
    var q := p + 1 + w.Bytes();
    assert forall k {:trigger regs[k]} :: 0 <= k < |regs| ==> m[q + k] == m[q..q + |regs|][k];
  }

  /** The width bits are separable from every opcode that carries them. */
  lemma OpcodeWidth(op: byte, w: Width)
    requires op % 4 == 0 && op < BRA
    ensures OpcodeOf(op + w.Code()) == op && WidthOf((op + w.Code()) % 4) == w
  {
    var raw := op + w.Code();
    assert raw == 4 * (op / 4) + w.Code();
    assert raw % 4 == w.Code();
  }

  /** The fields of an encoding, once split by `FieldsAt`. */
  predicate Fields(m: seq<byte>, p: nat, op: byte, v: nat, w: Width) {
    p + 1 + w.Bytes() < |m| && m[p] == op && LoadW(m, p + 1, w) == v
  }

  lemma DecodeImmReg(m: seq<byte>, p: nat, op: byte, w: Width, v: u64)
    requires IsImmReg(op) && Fields(m, p, op + w.Code(), v, w)
    ensures Decode(m, p) == Some(Fetched(ImmReg(op, w, v, m[p + 1 + w.Bytes()]), p + w.Bytes() + 2))
  {
    OpcodeWidth(op, w);
  }

  lemma DecodeShiftImm(m: seq<byte>, p: nat, op: byte, v: u64)
    requires IsShiftImm(op) && Fields(m, p, op, v, B)
    ensures Decode(m, p) == Some(Fetched(ShiftImm(op, B, v, m[p + 2]), p + 3))
  {
    OpcodeWidth(op, B);
    assert LoadW(m, p + 1, B) == m[p + 1];
  }

  lemma DecodeDivImm(m: seq<byte>, p: nat, w: Width, v: u64)
    requires Fields(m, p, DIVI + w.Code(), v, w) && p + 2 + w.Bytes() < |m|
    ensures Decode(m, p)
         == Some(Fetched(DivImm(w, v, m[p + 1 + w.Bytes()], m[p + 2 + w.Bytes()]), p + w.Bytes() + 3))
  {
    OpcodeWidth(DIVI, w);
  }

  lemma DecodeRegSet(m: seq<byte>, p: nat, op: byte, w: Width, mask: u16)
    requires IsRegSet(op) && Fields(m, p, op + w.Code(), mask, W)
    ensures Decode(m, p) == Some(Fetched(RegSet(op, w, mask, m[p + 3]), p + 4))
  {
    OpcodeWidth(op, w);
  }

  lemma DecodeFLoad(m: seq<byte>, p: nat, w: Width, v: u64)
    requires Fields(m, p, FLOAD + w.Code(), v, X)
    ensures Decode(m, p) == Some(Fetched(FLoad(w, v, m[p + 9]), p + 10))
  {
    OpcodeWidth(FLOAD, w);
  }

  lemma ByteAt(m: seq<byte>, p: nat, s: seq<byte>, k: nat)
    requires At(m, p, s) && k < |s|
    ensures p + k < |m| && m[p + k] == s[k]
  {
    assert m[p + k] == m[p..p + |s|][k];
  }

  /** Encodings without an immediate. */
  lemma DecodeNarrow(m: seq<byte>, p: nat, op: byte, w: Width)
    requires p < |m| && m[p] == op + w.Code() && op < BRA && op % 4 == 0
    ensures IsOneRegW(op) && p + 2 <= |m| ==> Decode(m, p) == Some(Fetched(OneRegW(op, w, m[p + 1]), p + 2))
    ensures IsTwoReg(op) && p + 3 <= |m| ==> Decode(m, p) == Some(Fetched(TwoReg(op, w, m[p + 1], m[p + 2]), p + 3))
    ensures op == DIV && p + 4 <= |m| ==> Decode(m, p) == Some(Fetched(DivReg(w, m[p + 1], m[p + 2], m[p + 3]), p + 4))
  {
    OpcodeWidth(op, w);
  }

  lemma DecodeBytes(m: seq<byte>, p: nat, i: Instr)
    requires WellFormed(i)
    requires i.NoArg? || i.OneReg? || i.OneRegW? || i.TwoReg? || i.DivReg?
    requires At(m, p, Encode(i))
    ensures Decode(m, p) == Some(Fetched(i, p + |Encode(i)|))
  {
    var e := Encode(i);
    ByteAt(m, p, e, 0);
    if |e| > 1 { ByteAt(m, p, e, 1); }
    if |e| > 2 { ByteAt(m, p, e, 2); }
    if |e| > 3 { ByteAt(m, p, e, 3); }
    if i.NoArg? || i.OneReg? {
      return;
    }
    hide Decode;
    DecodeNarrow(m, p, if i.DivReg? then DIV else i.op, i.w);
  }

  lemma DecodeOffset(m: seq<byte>, p: nat, op: byte, v: u32)
    requires IsOffset(op) || IsImm32(op)
    requires At(m, p, [op] + ToLE(v, 4))
    ensures Decode(m, p) == Some(Fetched(if IsOffset(op) then Offset(op, v) else Imm32(op, v), p + 5))
  {
    assert p + 5 <= |m| && m[p] == op && LoadW(m, p + 1, L) == v by {
      assert [op] + ToLE(v, 4) + [] == [op] + ToLE(v, 4);
      FieldsAt(m, p, op, v, L, []);
    }
  }

  lemma DecodeRefer(m: seq<byte>, p: nat, op: byte, v: u32, r: byte)
    requires op == REFER || op == ALLOC
    requires At(m, p, [op] + ToLE(v, 4) + [r])
    ensures Decode(m, p) == Some(Fetched(if op == REFER then Refer(v, r) else Alloc(v, r), p + 6))
  {
    assert p + 6 <= |m| && m[p] == op && LoadW(m, p + 1, L) == v && m[p + 5] == r by {
      FieldsAt(m, p, op, v, L, [r]);
      assert [r][0] == m[p + 1 + 4 + 0];
    }
  }

  lemma DecodeOneReg(m: seq<byte>, p: nat, op: byte, w: Width, v: u64, wv: Width, r: byte)
    requires if IsImmReg(op) then wv == w
             else if IsShiftImm(op) then wv == w == B
             else if op == FLOAD then wv == X
             else IsRegSet(op) && wv == W
    requires At(m, p, [op + w.Code()] + ToLE(v, wv.Bytes()) + [r])
    requires v < wv.Modulus()
    ensures IsImmReg(op) ==> Decode(m, p) == Some(Fetched(ImmReg(op, w, v, r), p + wv.Bytes() + 2))
    ensures IsShiftImm(op) ==> Decode(m, p) == Some(Fetched(ShiftImm(op, w, v, r), p + 3))
    ensures op == FLOAD ==> Decode(m, p) == Some(Fetched(FLoad(w, v, r), p + 10))
    ensures IsRegSet(op) ==> Decode(m, p) == Some(Fetched(RegSet(op, w, v, r), p + 4))
  {
    hide Decode, ToLE, FromLE;
    var q := p + 1 + wv.Bytes();
    assert m[q] == r && Fields(m, p, op + w.Code(), v, wv) by {
      FieldsAt(m, p, op + w.Code(), v, wv, [r]);
      assert [r][0] == m[q + 0];
    }
    if IsImmReg(op) {
      DecodeImmReg(m, p, op, w, v);
    } else if IsShiftImm(op) {
      DecodeShiftImm(m, p, op, v);
    } else if op == FLOAD {
      DecodeFLoad(m, p, w, v);
    } else {
      DecodeRegSet(m, p, op, w, v);
    }
  }

  lemma DecodeTwoRegs(m: seq<byte>, p: nat, w: Width, v: u64, ra: byte, rb: byte)
    requires At(m, p, [DIVI + w.Code()] + ToLE(v, w.Bytes()) + [ra, rb])
    requires v < w.Modulus()
    ensures Decode(m, p) == Some(Fetched(DivImm(w, v, ra, rb), p + w.Bytes() + 3))
  {
    hide Decode, ToLE, FromLE;
    var q := p + 1 + w.Bytes();
    assert q + 1 < |m| && m[q] == ra && m[q + 1] == rb && Fields(m, p, DIVI + w.Code(), v, w) by {
      FieldsAt(m, p, DIVI + w.Code(), v, w, [ra, rb]);
      assert [ra, rb][0] == m[q + 0] && [ra, rb][1] == m[q + 1];
    }
    DecodeDivImm(m, p, w, v);
  }

  /** Every well-formed instruction other than a wide shift is fetched back exactly,
      wherever it sits in memory. */
  lemma DecodeEncode(m: seq<byte>, p: nat, i: Instr)
    requires WellFormed(i) && !WideShift(i)
    requires At(m, p, Encode(i))
    ensures Decode(m, p) == Some(Fetched(i, p + |Encode(i)|))
  {
    hide Decode, ToLE, FromLE, At, LoadW;
    match i
    case Offset(op, v) => DecodeOffset(m, p, op, v);
    case Imm32(op, v) => DecodeOffset(m, p, op, v);
    case Refer(v, r) => DecodeRefer(m, p, REFER, v, r);
    case Alloc(v, r) => DecodeRefer(m, p, ALLOC, v, r);
    case NoArg(_) => DecodeBytes(m, p, i);
    case OneReg(_, _) => DecodeBytes(m, p, i);
    case OneRegW(_, _, _) => DecodeBytes(m, p, i);
    case TwoReg(_, _, _, _) => DecodeBytes(m, p, i);
    case DivReg(_, _, _, _) => DecodeBytes(m, p, i);
    case _ => DecodeEncodeWide(m, p, i);
  }

  lemma DecodeEncodeWide(m: seq<byte>, p: nat, i: Instr)
    requires WellFormed(i) && !WideShift(i) && At(m, p, Encode(i))
    requires i.ImmReg? || i.ShiftImm? || i.FLoad? || i.RegSet? || i.DivImm?
    ensures Decode(m, p) == Some(Fetched(i, p + |Encode(i)|))
  {
    hide Decode, ToLE, FromLE, At, LoadW;
    match i {
      case ImmReg(op, w, v, r) => DecodeOneReg(m, p, op, w, v, w, r);
      case ShiftImm(op, w, v, r) => DecodeOneReg(m, p, op, w, v, w, r);
      case FLoad(w, v, r) => DecodeOneReg(m, p, FLOAD, w, v, X, r);
      case RegSet(op, w, v, r) => DecodeOneReg(m, p, op, w, v, W, r);
      case DivImm(w, v, ra, rb) => DecodeTwoRegs(m, p, w, v, ra, rb);
    }
  }

  lemma EncodeSize(i: Instr)
    requires WellFormed(i)
    ensures FetchSize(i) <= |Encode(i)|
    ensures FetchSize(i) == |Encode(i)| <==> !WideShift(i)
  {
  }

  lemma DecodeSize(m: seq<byte>, p: nat)
    ensures Decode(m, p).Some? ==> Decode(m, p).value.next == p + FetchSize(Decode(m, p).value.i)
  {
  }

  /** A straight run of fetches consumes exactly the sizes of the instructions fetched. */
  lemma {:induction false} DecodeAllSize(m: seq<byte>, p: nat)
    requires p <= |m|
    ensures DecodeAll(m, p).Some? ==> FetchSizeAll(DecodeAll(m, p).value) == |m| - p
    decreases |m| - p
  {
    DecodeSize(m, p);
    if DecodeAll(m, p).Some? && p < |m| {
      var f := Decode(m, p).value;
      DecodeAllSize(m, f.next);
      assert DecodeAll(m, p).value[1..] == DecodeAll(m, f.next).value;
    }
  }

  /** The machine's bytes never exceed the assembler's, and match only without wide shifts. */
  lemma {:induction false} EncodeAllSize(code: seq<Instr>)
    requires forall i :: i in code ==> WellFormed(i)
    ensures FetchSizeAll(code) <= |EncodeAll(code)|
    ensures FetchSizeAll(code) == |EncodeAll(code)| <==> forall i :: i in code ==> !WideShift(i)
  {
    if code != [] {
      EncodeSize(code[0]);
      EncodeAllSize(code[1..]);
      assert forall i :: i in code <==> i == code[0] || i in code[1..];
    }
  }

  lemma {:induction false} DecodeAllEncodeAll(m: seq<byte>, p: nat, code: seq<Instr>)
    requires forall i :: i in code ==> WellFormed(i) && !WideShift(i)
    requires p + |EncodeAll(code)| == |m| && m[p..] == EncodeAll(code)
    ensures DecodeAll(m, p) == Some(code)
    decreases |code|
  {
    hide Decode, Encode;
    if code != [] {
      var e, rest := Encode(code[0]), EncodeAll(code[1..]);
      assert At(m, p, e + rest) by { assert m[p..p + |e + rest|] == m[p..]; }
      AtPart(m, p, e, rest);
      DecodeEncode(m, p, code[0]);
      EncodeSize(code[0]);
      assert m[p + |e|..] == m[p + |e|..p + |e| + |rest|];
      DecodeAllEncodeAll(m, p + |e|, code[1..]);
      assert code == [code[0]] + code[1..];
    }
  }

  /** The codec theorem. Assembling a list of instructions and fetching it back as the
      machine does returns the list, consuming exactly its bytes, if and only if no shift
      or rotate by an immediate is wider than a byte. */
  lemma RoundTripIff(code: seq<Instr>)
    requires forall i :: i in code ==> WellFormed(i)
    ensures DecodeAll(EncodeAll(code), 0) == Some(code) <==> forall i :: i in code ==> !WideShift(i)
  {
    EncodeAllSize(code);
    DecodeAllSize(EncodeAll(code), 0);
    if forall i :: i in code ==> !WideShift(i) {
      assert EncodeAll(code)[0..] == EncodeAll(code);
      DecodeAllEncodeAll(EncodeAll(code), 0, code);
    }
  }

  /** An input on which they differ: `roli.w #5 d4` comes back as `roli.w #5 d0`, and
      then the byte of `d4` starts a `load` whose operands are missing. */
  lemma WideShiftMisread()
    ensures WellFormed(ShiftImm(ROLI, W, 5, 4))
    ensures DecodeAll(Encode(ShiftImm(ROLI, W, 5, 4)), 0).None?
    ensures Decode(Encode(ShiftImm(ROLI, W, 5, 4)), 0) == Some(Fetched(ShiftImm(ROLI, W, 5, 0), 3))
  {
    assert ToLE(5, 2) == [5, 0] by { assert ToLE(0, 1) == [0]; }
    MisreadBytes([ROLI + 1, 5, 0, 4]);
  }

  lemma MisreadBytes(m: seq<byte>)
    requires m == [ROLI + 1, 5, 0, 4]
    ensures DecodeAll(m, 0).None?
    ensures Decode(m, 0) == Some(Fetched(ShiftImm(ROLI, W, 5, 0), 3))
  {
    assert Decode(m, 3).None?;
    assert OpcodeOf(m[0]) == ROLI;
  }
}
