/** The virtual machine itself: registers and memory updated in place. Each method is proved
    against the state function of `Machine` that the run-level theorems are about. */
module Vm {
  import opened Words
  import opened Isa
  import opened Rotate
  import opened Machine

  lemma ByteThenWord(m: seq<byte>, a: nat, v: nat)
    requires a + 2 <= |m|
    ensures Splice(Splice(m, a, ToLE(v, 1)), a, ToLE(v, 2)) == Splice(m, a, ToLE(v, 2))
  {
    hide ToLE;
  }

  lemma SizedShape(op: byte, w: Width, m: seq<byte>, p: nat)
    requires p < |m| && DecodeShape(op, w, m, p).Some?
    ensures IsImmReg(op) ==>
      && p + w.Bytes() + 2 <= |m|
      && DecodeShape(op, w, m, p)
         == Some(Fetched(ImmReg(op, w, LoadW(m, p + 1, w), m[p + 1 + w.Bytes()]), p + w.Bytes() + 2))
    ensures op == DIVI ==>
      && !IsImmReg(op) && p + w.Bytes() + 3 <= |m|
      && DecodeShape(op, w, m, p)
         == Some(Fetched(DivImm(w, LoadW(m, p + 1, w), m[p + 1 + w.Bytes()], m[p + 2 + w.Bytes()]), p + w.Bytes() + 3))
  {
    hide LoadW;
  }

  lemma NarrowShape(op: byte, w: Width, m: seq<byte>, p: nat)
    requires p < |m| && op < BRA && DecodeShape(op, w, m, p).Some?
    ensures IsOneRegW(op) ==> p + 2 <= |m| && DecodeShape(op, w, m, p) == Some(Fetched(OneRegW(op, w, m[p + 1]), p + 2))
    ensures IsShiftImm(op) ==>
      !IsOneRegW(op) && p + 3 <= |m|
      && DecodeShape(op, w, m, p) == Some(Fetched(ShiftImm(op, w, m[p + 1], m[p + 2]), p + 3))
    ensures IsTwoReg(op) ==>
      && !IsOneRegW(op) && !IsShiftImm(op) && p + 3 <= |m|
      && DecodeShape(op, w, m, p) == Some(Fetched(TwoReg(op, w, m[p + 1], m[p + 2]), p + 3))
    ensures op == DIV ==>
      && !IsOneRegW(op) && !IsShiftImm(op) && !IsTwoReg(op) && p + 4 <= |m|
      && DecodeShape(op, w, m, p) == Some(Fetched(DivReg(w, m[p + 1], m[p + 2], m[p + 3]), p + 4))
  {
    hide LoadW;
  }

  class Vm {
    const registers: array<u64>
    const memory: array<byte>
    var ip: u32
    var condition: Flags
    var stopped: bool

    ghost predicate Valid() {
      registers.Length == 16 && memory.Length <= TWO32 && (registers as object) != (memory as object)
    }

    ghost function View(): State
      reads this, registers, memory
      requires Valid()
    {
      State(registers[..], memory[..], ip, condition, stopped)
    }

    /** A new machine: everything zero but A7, which points to the end of the memory, and
        the memory, which holds whatever the host left there. */
    constructor (initial: seq<byte>)
      requires |initial| < TWO32
      ensures Valid() && fresh(registers) && fresh(memory)
      ensures View() == State(seq(16, _ => 0)[15 := |initial|], initial, 0, CLEAR, false)
    {
      var r := new u64[16](_ => 0);
      var m := new byte[|initial|](i requires 0 <= i < |initial| => initial[i]);
      registers, memory, ip, condition, stopped := r, m, 0, CLEAR, false;
      new;
      registers[15] := |initial|;
      assert registers[..] == seq(16, _ => 0)[15 := |initial|];
      assert memory[..] == initial;
    }

    // ---- Memory and operands ----

    method ReadMem(address: u32, w: Width) returns (v: u64)
      requires Valid() && ReadMemory(View(), address, w).Some?
      ensures Some(v) == ReadMemory(View(), address, w)
    {
      hide FromLE;
      v := LoadW(memory[..], address, w);
    }

    /** A store of the low `n` bytes of a value, as the little-endian host does it. */
    method Store(a: u32, v: u64, n: nat)
      requires Valid() && a + n <= memory.Length
      modifies memory
      ensures Valid() && View() == old(View()).(mem := Splice(old(memory[..]), a, ToLE(v, n)))
    {
      hide ToLE;
      var bytes := ToLE(v, n);
      forall i | 0 <= i < n {
        memory[a + i] := bytes[i];
      }
      assert memory[..] == Splice(old(memory[..]), a, bytes);
    }

    /** The byte case of the switch on the width runs on into the word case. */
    method WriteMem(address: u32, v: u64, w: Width)
      requires Valid() && WriteMemory(View(), address, v, w).Some?
      modifies memory
      ensures Valid() && Some(View()) == WriteMemory(old(View()), address, v, w)
    {
      hide ToLE, Splice;
      ghost var m := memory[..];
      match w {
        case B =>
          Store(address, v, 1);
          ByteThenWord(m, address, v);
          Store(address, v, 2);
        case W => Store(address, v, 2);
        case L => Store(address, v, 4);
        case X => Store(address, v, 8);
      }
    }

    method SetRegister(k: nat, v: u64)
      requires Valid() && k < 16
      modifies registers
      ensures Valid() && View() == SetReg(old(View()), k, v)
    {
      registers[k] := v;
      assert registers[..] == old(registers[..])[k := v];
    }

    method ReadOp(r: byte, w: Width) returns (v: u64)
      requires Valid() && ReadOperand(View(), r, w).Some?
      modifies registers
      ensures Valid() && Some(Read(View(), v)) == ReadOperand(old(View()), r, w)
    {
      hide ReadMemory;
      var k := r % 16;
      match r - r % 16 {
        case 0x00 => v := registers[k];
        case 0x10 => v := ReadMem(registers[k] % TWO32, w);
        case 0x20 =>
          SetRegister(k, (registers[k] - w.Bytes()) % TWO64);
          v := ReadMem(registers[k] % TWO32, w);
        case 0x30 =>
          v := ReadMem(registers[k] % TWO32, w);
          SetRegister(k, (registers[k] + w.Bytes()) % TWO64);
        case _ => v := 0;
      }
    }

    method WriteOp(r: byte, v: u64, w: Width)
      requires Valid() && WriteOperand(View(), r, v, w).Some?
      modifies registers, memory
      ensures Valid() && Some(View()) == WriteOperand(old(View()), r, v, w)
    {
      hide WriteMemory;
      var k := r % 16;
      match r - r % 16 {
        case 0x00 => SetRegister(k, v);
        case 0x10 => WriteMem(registers[k] % TWO32, v, w);
        case 0x20 =>
          SetRegister(k, (registers[k] - w.Bytes()) % TWO64);
          WriteMem(registers[k] % TWO32, v, w);
        case 0x30 =>
          WriteMem(registers[k] % TWO32, v, w);
          SetRegister(k, (registers[k] + w.Bytes()) % TWO64);
        case _ =>
      }
    }

    // ---- Instructions ----

    method DoResult(r: byte, v: u64, w: Width, carry: bool)
      requires Valid() && Result(View(), r, v, w, carry).Some?
      modifies this`condition, registers, memory
      ensures Valid() && Some(View()) == Result(old(View()), r, v, w, carry)
    {
      hide WriteOperand;
      WriteOp(r, v, w);
      condition := CLEAR.(zero := v == 0, carry := carry);
    }

    method DoInc(w: Width, r: byte)
      requires Valid() && Inc(View(), w, r).Some?
      modifies this`condition, registers, memory
      ensures Valid() && Some(View()) == Inc(old(View()), w, r)
    {
      hide ReadOperand, Result;
      var v := ReadOp(r, w);
      DoResult(r, (v + 1) % TWO64, w, v % w.Modulus() == w.Modulus() - 1);
    }

    method DoDec(w: Width, r: byte)
      requires Valid() && Dec(View(), w, r).Some?
      modifies this`condition, registers, memory
      ensures Valid() && Some(View()) == Dec(old(View()), w, r)
    {
      hide ReadOperand, Result;
      var v := ReadOp(r, w);
      v := v % w.Modulus();
      DoResult(r, (v - 1) % TWO64, w, v == 0);
    }

    method DoPush(mask: u16, r: byte, w: Width)
      requires Valid() && Push(View(), mask, r, w).Some?
      modifies this`condition, registers, memory
      ensures Valid() && Some(View()) == Push(old(View()), mask, r, w)
    {
      hide WriteOperand, InSet;
      for i := 0 to 16
        invariant Valid() && PushFrom(View(), mask, r, w, i) == PushFrom(old(View()), mask, r, w, 0)
      {
        if InSet(mask, i) {
          WriteOp(r, registers[i], w);
        }
      }
      condition := CLEAR;
    }

    method DoPop(mask: u16, r: byte, w: Width)
      requires Valid() && Pop(View(), mask, r, w).Some?
      modifies this`condition, registers
      ensures Valid() && Some(View()) == Pop(old(View()), mask, r, w)
    {
      hide ReadOperand, InSet;
      for i := 16 downto 0
        invariant Valid() && PopBelow(View(), mask, r, w, i) == PopBelow(old(View()), mask, r, w, 16)
      {
        if InSet(mask, i) {
          var v := ReadOp(r, w);
          SetRegister(i, v);
        }
      }
      condition := CLEAR;
    }

    method DoRotation(left: bool, w: Width, bits: nat, r: byte)
      requires Valid() && Rotation(View(), left, w, bits, r).Some?
      modifies this`condition, registers, memory
      ensures Valid() && Some(View()) == Rotation(old(View()), left, w, bits, r)
    {
      hide ReadOperand, Result, Turned;
      var v := ReadOp(r, w);
      DoResult(r, Turned(left, w, v % w.Modulus(), bits), w, false);
    }

    method DoImmediate(op: byte, w: Width, v: u64, r: byte)
      requires Valid() && ImmediateOp(View(), op, w, v, r).Some?
      modifies this`condition, registers, memory
      ensures Valid() && Some(View()) == ImmediateOp(old(View()), op, w, v, r)
    {
      hide ReadOperand, Result;
      if op == LOAD {
        DoResult(r, v, w, false);
      } else {
        var a := ReadOp(r, w);
        if op == CMPI {
          condition := Flags(v == a, false, v > a, v < a);
        } else if op == ADDI {
          DoResult(r, (a + v) % TWO64, w, false);
        } else {
          DoResult(r, (a - v) % TWO64, w, false);
        }
      }
    }

    method DoRegister(op: byte, w: Width, ra: byte, rb: byte)
      requires Valid() && RegisterOp(View(), op, w, ra, rb).Some?
      modifies this`condition, registers, memory
      ensures Valid() && Some(View()) == RegisterOp(old(View()), op, w, ra, rb)
    {
      hide ReadOperand, Result, Rotation;
      var a := ReadOp(ra, if op == ROL || op == ROR then B else w);
      if op == MOVE {
        DoResult(rb, a, w, false);
      } else if op == ROL || op == ROR {
        DoRotation(op == ROL, w, a, rb);
      } else {
        var b := ReadOp(rb, w);
        if op == CMP {
          condition := Flags(b == a, false, b > a, b < a);
        } else if op == ADD {
          DoResult(rb, (a + b) % TWO64, w, false);
        } else {
          DoResult(rb, (a - b) % TWO64, w, false);
        }
      }
    }

    method DoDivide(w: Width, a: u64, b: u64, quotient: byte, remainder: byte)
      requires Valid() && Divide(View(), w, a, b, quotient, remainder).Some?
      modifies this`condition, registers, memory
      ensures Valid() && Some(View()) == Divide(old(View()), w, a, b, quotient, remainder)
    {
      hide WriteOperand;
      WriteOp(quotient, a / b, w);
      WriteOp(remainder, a % b, w);
      condition := CLEAR;
    }

    method DoBranch(op: byte, offset: u32)
      requires Valid() && Branch(View(), op, offset).Some?
      modifies this`ip, registers, memory
      ensures Valid() && Some(View()) == Branch(old(View()), op, offset)
    {
      hide WriteOperand;
      if op == CALL {
        WriteOp(PRE_DEC + A7, ip, L);
      }
      if Taken(op, condition) {
        ip := (ip + offset + 4) % TWO32;
      }
    }

    method DoCallTo(target: u32)
      requires Valid() && CallTo(View(), target).Some?
      modifies this`ip, registers, memory
      ensures Valid() && Some(View()) == CallTo(old(View()), target)
    {
      hide WriteOperand;
      WriteOp(PRE_DEC + A7, ip, L);
      ip := target;
    }

    method DoCallM(r: byte)
      requires Valid() && CallM(View(), r).Some?
      modifies this`ip, registers, memory
      ensures Valid() && Some(View()) == CallM(old(View()), r)
    {
      hide WriteOperand, ReadOperand;
      WriteOp(PRE_DEC + A7, ip, L);
      var a := ReadOp(r, L);
      ip := a % TWO32;
    }

    method DoRet()
      requires Valid() && Ret(View()).Some?
      modifies this`ip, registers
      ensures Valid() && Some(View()) == Ret(old(View()))
    {
      hide ReadOperand;
      var a := ReadOp(POST_INC + A7, L);
      ip := a % TWO32;
    }
  
    // ---- Fetching ----

    /** The next `w`-sized number at the instruction pointer. */
    method ReadNext(w: Width) returns (v: u64)
      requires Valid() && ip + w.Bytes() <= memory.Length
      modifies this`ip
      ensures ip == (old(ip) + w.Bytes()) % TWO32
      ensures v == LoadW(memory[..], old(ip), w)
    {
      hide FromLE;
      v := ReadMem(ip, w);
      ip := (ip + w.Bytes()) % TWO32;
    }

    method ReadByte() returns (v: byte)
      requires Valid() && ip < memory.Length
      modifies this`ip
      ensures ip == (old(ip) + 1) % TWO32 && v == memory[old(ip)]
    {
      v := memory[ip];
      ip := (ip + 1) % TWO32;
    }

    /** The operands of the instructions that come without a width. */
    method FetchPlain(op: byte, w: Width, ghost p: nat) returns (i: Instr)
      requires Valid() && op >= BRA && !IsNoArg(op) && p < memory.Length && ip == (p + 1) % TWO32
      requires DecodeShape(op, w, memory[..], p).Some?
      modifies this`ip
      ensures DecodeShape(op, w, memory[..], p).value.i == i
      ensures ip == DecodeShape(op, w, memory[..], p).value.next % TWO32
    {
      hide LoadW;
      if IsOneReg(op) {
        var r := ReadByte();
        i := OneReg(op, r);
      } else {
        var v := ReadNext(L);
        if IsOffset(op) {
          i := Offset(op, v);
        } else if IsImm32(op) {
          i := Imm32(op, v);
        } else {
          var r := ReadByte();
          i := if op == REFER then Refer(v, r) else Alloc(v, r);
        }
      }
    }

    method FetchNarrow(op: byte, w: Width, ghost p: nat) returns (i: Instr)
      requires Valid() && op < BRA && p < memory.Length && ip == (p + 1) % TWO32
      requires DecodeShape(op, w, memory[..], p).Some?
      requires IsOneRegW(op) || IsTwoReg(op) || op == DIV || IsShiftImm(op)
      modifies this`ip
      ensures DecodeShape(op, w, memory[..], p).value.i == i
      ensures ip == DecodeShape(op, w, memory[..], p).value.next % TWO32
    {
      hide LoadW, DecodeShape, IsOneRegW, IsTwoReg, IsShiftImm;
      NarrowShape(op, w, memory[..], p);
      var a := ReadByte();
      if IsOneRegW(op) {
        i := OneRegW(op, w, a);
      } else {
        var b := ReadByte();
        if IsShiftImm(op) {
          i := ShiftImm(op, w, a, b);
        } else if IsTwoReg(op) {
          i := TwoReg(op, w, a, b);
        } else {
          var c := ReadByte();
          i := DivReg(w, a, b, c);
        }
      }
    }

    /** The operands that begin with an immediate of the instruction's own width. */
    method FetchSized(op: byte, w: Width, ghost p: nat) returns (i: Instr)
      requires Valid() && p < memory.Length && ip == (p + 1) % TWO32
      requires DecodeShape(op, w, memory[..], p).Some?
      requires IsImmReg(op) || op == DIVI
      modifies this`ip
      ensures DecodeShape(op, w, memory[..], p).value.i == i
      ensures ip == DecodeShape(op, w, memory[..], p).value.next % TWO32
    {
      hide LoadW, DecodeShape, IsImmReg;
      SizedShape(op, w, memory[..], p);
      var v := ReadNext(w);
      var a := ReadByte();
      if IsImmReg(op) {
        i := ImmReg(op, w, v, a);
      } else {
        var b := ReadByte();
        i := DivImm(w, v, a, b);
      }
    }

    /** The operands that begin with a register set or a floating-point immediate. */
    method FetchFixed(op: byte, w: Width, ghost p: nat) returns (i: Instr)
      requires Valid() && p < memory.Length && ip == (p + 1) % TWO32
      requires DecodeShape(op, w, memory[..], p).Some?
      requires IsRegSet(op) || op == FLOAD
      modifies this`ip
      ensures DecodeShape(op, w, memory[..], p).value.i == i
      ensures ip == DecodeShape(op, w, memory[..], p).value.next % TWO32
    {
      hide LoadW;
      var v := ReadNext(if op == FLOAD then X else W);
      var a := ReadByte();
      i := if op == FLOAD then FLoad(w, v, a) else RegSet(op, w, v, a);
    }

    /** Fetching an instruction moves the instruction pointer behind it. */
    method Fetch() returns (i: Instr)
      requires Valid() && Decode(memory[..], ip).Some?
      modifies this`ip
      ensures Valid() && View() == old(View()).(ip := ip)
      ensures Decode(memory[..], old(ip)).value.i == i
      ensures ip == Decode(memory[..], old(ip)).value.next % TWO32
    {
      hide LoadW;
      ghost var p := ip;
      var raw := ReadByte();
      var op, w := OpcodeOf(raw), WidthOf(raw % 4);
      if IsNoArg(op) {
        i := NoArg(op);
      } else if op >= BRA {
        i := FetchPlain(op, w, p);
      } else if IsImmReg(op) || op == DIVI {
        i := FetchSized(op, w, p);
      } else if IsRegSet(op) || op == FLOAD {
        i := FetchFixed(op, w, p);
      } else {
        i := FetchNarrow(op, w, p);
      }
    }

    // ---- Execution ----

    method Perform(i: Instr)
      requires Valid() && Exec(View(), i).Some?
      modifies this, registers, memory
      ensures Valid() && Some(View()) == Exec(old(View()), i)
    {
      hide ReadOperand, WriteOperand, Result, Inc, Dec, Divide, Branch, CallTo, CallM, Ret, Push, Pop, ImmediateOp,
           RegisterOp, Rotation;
      match i {
        case NoArg(op) =>
          if op == RET { DoRet(); } else if op == STOP { stopped := true; }
        case Offset(op, offset) => DoBranch(op, offset);
        case Imm32(op, v) =>
          if op == JMPI { ip := v; } else { DoCallTo(v); }
        case OneReg(op, r) =>
          if op == JMPM {
            var a := ReadOp(r, L);
            ip := a % TWO32;
          } else {
            DoCallM(r);
          }
        case OneRegW(op, w, r) =>
          if op == INC { DoInc(w, r); } else if op == DEC { DoDec(w, r); } else { DoResult(r, 0, w, false); }
        case Refer(offset, r) => WriteOp(r, (ip + offset + 3) % TWO32, L);
        case ImmReg(op, w, v, r) => DoImmediate(op, w, v, r);
        case ShiftImm(op, w, v, r) => DoRotation(op == ROLI, w, v, r);
        case TwoReg(op, w, ra, rb) => DoRegister(op, w, ra, rb);
        case RegSet(op, w, mask, r) =>
          if op == PUSH { DoPush(mask, r, w); } else { DoPop(mask, r, w); }
        case DivImm(w, v, ra, rb) =>
          var a := ReadOp(ra, w);
          DoDivide(w, a, v, ra, rb);
        case DivReg(w, ra, rb, rc) =>
          var a := ReadOp(ra, w);
          var b := ReadOp(rb, w);
          DoDivide(w, a, b, rb, rc);
        case Alloc(_, _) => assert false;
        case FLoad(_, _, _) => assert false;
      }
    }

    method Execute()
      requires Valid() && Step(View()).Some?
      modifies this, registers, memory
      ensures Valid() && Some(View()) == Step(old(View()))
    {
      hide Decode, Exec;
      var i := Fetch();
      Perform(i);
    }

    /** Running from an address until the machine stops, for as many instructions as have a
        defined effect, here at most `limit` of them. */
    method Run(address: u32, limit: nat) returns (n: nat)
      requires Valid() && Defined(View().(ip := address), limit)
      modifies this, registers, memory
      ensures Valid() && n <= limit && Some(View()) == Steps(old(View()).(ip := address), n)
      ensures n < limit ==> stopped
    {
      hide Step;
      ip := address;
      ghost var s := View();
      n := 0;
      while n < limit && !stopped
        invariant n <= limit && Valid() && Steps(s, n) == Some(View())
      {
        DefinedNext(s, n, limit);
        StepsAdd(s, n, 1);
        Execute();
        n := n + 1;
      }
    }
  }

  /** Within the first `n` instructions nothing undefined happens. */
  ghost predicate Defined(s: State, n: nat)
    decreases n
  {
    n == 0 || s.stopped || (Step(s).Some? && Defined(Step(s).value, n - 1))
  }

  lemma {:induction false} DefinedNext(s: State, n: nat, limit: nat)
    requires n < limit && Defined(s, limit) && Steps(s, n).Some? && !Steps(s, n).value.stopped
    ensures Step(Steps(s, n).value).Some?
    decreases n
  {
    hide Step;
    if n > 0 { DefinedNext(Step(s).value, n - 1, limit - 1); }
  }
}
