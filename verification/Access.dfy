/** What each addressing mode reads and stores, byte for byte. */
module Access {
  import opened Words
  import opened Isa
  import opened Machine
  import opened Stack

  /** A register on its own is read whole, whatever the width. */
  lemma ReadDirect(s: State, k: nat, w: Width)
    requires k < 16
    ensures ReadOperand(s, k, w) == Some(Read(s, s.regs[k]))
  {
    assert k - k % 16 == 0;
  }

  /** `(r)`: the number in the bytes at the address; nothing changes. */
  lemma ReadReference(s: State, k: nat, w: Width, v: nat)
    requires k < 16 && At(s.mem, s.regs[k] % TWO32, ToLE(v, w.Bytes()))
    ensures ReadOperand(s, 0x10 + k, w) == Some(Read(s, v % w.Modulus()))
  {
    hide ToLE, FromLE, Load;
    assert (0x10 + k) % 16 == k;
    LoadAt(s.mem, s.regs[k] % TWO32, v, w);
  }

  /** `-(r)`: the number in the bytes below the address, which the register then holds. */
  lemma ReadPreDec(s: State, k: nat, w: Width, v: nat)
    requires k < 16 && At(s.mem, (s.regs[k] - w.Bytes()) % TWO64 % TWO32, ToLE(v, w.Bytes()))
    ensures ReadOperand(s, 0x20 + k, w)
         == Some(Read(s.(regs := s.regs[k := (s.regs[k] - w.Bytes()) % TWO64]), v % w.Modulus()))
  {
    hide ToLE, FromLE, Load;
    assert (0x20 + k) % 16 == k;
    LoadAt(s.mem, (s.regs[k] - w.Bytes()) % TWO64 % TWO32, v, w);
  }

  /** `(r)+`: the number in the bytes at the address; the register then points behind them. */
  lemma ReadPostInc(s: State, k: nat, w: Width, v: nat)
    requires k < 16 && At(s.mem, s.regs[k] % TWO32, ToLE(v, w.Bytes()))
    ensures ReadOperand(s, 0x30 + k, w)
         == Some(Read(s.(regs := s.regs[k := (s.regs[k] + w.Bytes()) % TWO64]), v % w.Modulus()))
  {
    hide ToLE, FromLE, Load;
    assert (0x30 + k) % 16 == k;
    LoadAt(s.mem, s.regs[k] % TWO32, v, w);
  }

  /** A read fails exactly if some of its bytes are outside the memory. */
  lemma ReadFailsIff(s: State, k: nat, w: Width)
    requires k < 16
    ensures ReadOperand(s, 0x10 + k, w).None? <==> s.regs[k] % TWO32 + w.Bytes() > |s.mem|
    ensures ReadOperand(s, 0x20 + k, w).None? <==> (s.regs[k] - w.Bytes()) % TWO64 % TWO32 + w.Bytes() > |s.mem|
    ensures ReadOperand(s, 0x30 + k, w).None? <==> s.regs[k] % TWO32 + w.Bytes() > |s.mem|
  {
    hide LoadW;
    assert (0x10 + k) % 16 == (0x20 + k) % 16 == (0x30 + k) % 16 == k;
  }

  /** What is read through `(r)` is a number of that width whose bytes are there. */
  lemma ReadHolds(s: State, k: nat, w: Width)
    requires k < 16 && s.regs[k] % TWO32 + w.Bytes() <= |s.mem|
    ensures var t := ReadOperand(s, 0x10 + k, w);
      && t.Some? && t.value.s == s && t.value.value < w.Modulus()
      && At(s.mem, s.regs[k] % TWO32, ToLE(t.value.value, w.Bytes()))
  {
    hide ToLE, FromLE, ReadOperand;
    var a := s.regs[k] % TWO32;
    var v := LoadW(s.mem, a, w);
    StoreLoad(s.mem[a..a + w.Bytes()]);
    ReadReference(s, k, w, v);
    Words.Remainder(v, w.Modulus(), 0, v);
  }

  /** How many bytes a store replaces: a byte store two. */
  function Stored(w: Width): nat { if w == B then 2 else w.Bytes() }

  /** `t` is `s` with `v` stored at `a`: its low bytes there, all other bytes as they were,
      and the registers given. */
  ghost predicate Stores(s: State, t: State, a: nat, w: Width, v: u64, regs: Registers) {
    && t == s.(regs := regs, mem := t.mem)
    && At(t.mem, a, ToLE(v, Stored(w))) && SameOutside(s.mem, t.mem, a, a + Stored(w))
  }

  lemma StoredAt(s: State, a: u32, w: Width, v: u64)
    requires a + Stored(w) <= |s.mem|
    ensures WriteMemory(s, a, v, w).Some? && Stores(s, WriteMemory(s, a, v, w).value, a, w, v, s.regs)
  {
    hide ToLE, Splice;
    SpliceAt(s.mem, a, ToLE(v, Stored(w)));
  }

  lemma WriteDirect(s: State, k: nat, w: Width, v: u64)
    requires k < 16
    ensures WriteOperand(s, k, v, w) == Some(s.(regs := s.regs[k := v]))
  {
    assert k - k % 16 == 0;
  }

  lemma WriteReference(s: State, k: nat, w: Width, v: u64)
    requires k < 16
    ensures var a, t := s.regs[k] % TWO32, WriteOperand(s, 0x10 + k, v, w);
      && (t.Some? <==> a + Stored(w) <= |s.mem|)
      && (t.Some? ==> Stores(s, t.value, a, w, v, s.regs))
  {
    hide ToLE, Splice, Stores;
    assert (0x10 + k) % 16 == k;
    if s.regs[k] % TWO32 + Stored(w) <= |s.mem| { StoredAt(s, s.regs[k] % TWO32, w, v); }
  }

  lemma WritePreDec(s: State, k: nat, w: Width, v: u64)
    requires k < 16
    ensures var p, t := (s.regs[k] - w.Bytes()) % TWO64, WriteOperand(s, 0x20 + k, v, w);
      && (t.Some? <==> p % TWO32 + Stored(w) <= |s.mem|)
      && (t.Some? ==> Stores(s, t.value, p % TWO32, w, v, s.regs[k := p]))
  {
    hide ToLE, Splice;
    assert (0x20 + k) % 16 == k;
    var p := (s.regs[k] - w.Bytes()) % TWO64;
    if p % TWO32 + Stored(w) <= |s.mem| { StoredAt(s.(regs := s.regs[k := p]), p % TWO32, w, v); }
  }

  lemma WritePostInc(s: State, k: nat, w: Width, v: u64)
    requires k < 16
    ensures var a, t := s.regs[k] % TWO32, WriteOperand(s, 0x30 + k, v, w);
      && (t.Some? <==> a + Stored(w) <= |s.mem|)
      && (t.Some? ==> Stores(s, t.value, a, w, v, s.regs[k := (s.regs[k] + w.Bytes()) % TWO64]))
  {
    hide ToLE, Splice;
    assert (0x30 + k) % 16 == k;
    if s.regs[k] % TWO32 + Stored(w) <= |s.mem| { StoredAt(s, s.regs[k] % TWO32, w, v); }
  }

  /** What has been stored through `(r)` is read through it, as far as it fits the width. */
  lemma StoredIsRead(s: State, k: nat, w: Width, v: u64)
    requires k < 16 && WriteOperand(s, 0x10 + k, v, w).Some?
    ensures var t := WriteOperand(s, 0x10 + k, v, w).value;
      ReadOperand(t, 0x10 + k, w) == Some(Read(t, v % w.Modulus()))
  {
    hide WriteOperand, ReadOperand, At, SameOutside;
    WriteReference(s, k, w, v);
    var t, a := WriteOperand(s, 0x10 + k, v, w).value, s.regs[k] % TWO32;
    if w == B { FirstOfTwo(t.mem, a, v); }
    ReadReference(t, k, w, v);
  }

  lemma FirstOfTwo(m: seq<byte>, a: nat, v: nat)
    requires At(m, a, ToLE(v, 2))
    ensures At(m, a, ToLE(v, 1)) && At(m, a + 1, ToLE(v / 256, 1))
  {
    assert ToLE(v, 2) == ToLE(v, 1) + ToLE(v / 256, 1) by {
      assert ToLE(v / 256, 1) == [v / 256 % 256] && ToLE(v, 1) == [v % 256];
    }
    AtPart(m, a, ToLE(v, 1), ToLE(v / 256, 1));
  }

  /** An operand in no mode reads as 0, and takes nothing. */
  lemma OtherMode(s: State, r: byte, w: Width, v: u64)
    requires r >= 0x40
    ensures ReadOperand(s, r, w) == Some(Read(s, 0)) && WriteOperand(s, r, v, w) == Some(s)
  {
    assert r == 16 * (r / 16) + r % 16;
  }

  // ---- Copies ----

  /** `move` from `(ra)` to `(rb)` copies the bytes; at `.b` it also clears the next one. */
  lemma MoveCopies(s: State, w: Width, j: nat, k: nat, v: u64)
    requires j < 16 && k < 16 && v < w.Modulus() && At(s.mem, s.regs[j] % TWO32, ToLE(v, w.Bytes()))
    requires s.regs[k] % TWO32 + Stored(w) <= |s.mem|
    ensures var a, t := s.regs[k] % TWO32, Exec(s, TwoReg(MOVE, w, 0x10 + j, 0x10 + k));
      && t.Some? && t.value.regs == s.regs && t.value.ip == s.ip && t.value.cond == Flags(v == 0, false, false, false)
      && At(t.value.mem, a, ToLE(v, w.Bytes())) && SameOutside(s.mem, t.value.mem, a, a + Stored(w))
      && (w == B ==> t.value.mem[a + 1] == 0)
  {
    hide WriteOperand, ReadOperand, SameOutside;
    ReadReference(s, j, w, v);
    Words.Remainder(v, w.Modulus(), 0, v);
    WriteReference(s, k, w, v);
    var a, t := s.regs[k] % TWO32, WriteOperand(s, 0x10 + k, v, w).value;
    if w == B {
      FirstOfTwo(t.mem, a, v);
      assert ToLE(v / 256, 1) == [0] && t.mem[a + 1..a + 2][0] == t.mem[a + 1];
    }
  }

  // ---- Transfers of control ----

  /** `stop` stops the machine and does nothing else; a stopped machine makes no step. */
  lemma StopStops(s: State, n: nat)
    requires n > 0
    ensures Exec(s, NoArg(STOP)) == Some(s.(stopped := true)) && Steps(s.(stopped := true), n) == None
    ensures Exec(s, NoArg(NOP)) == Some(s)
  {
  }

  /** `bra` and `jmp` go to their target whatever the flags are. */
  lemma JumpAlways(s: State, op: byte, offset: u32)
    requires op == BRA || op == JMP
    ensures Exec(s, Offset(op, offset)) == Some(s.(ip := (s.ip + offset + 4) % TWO32))
  {
    hide WriteOperand;
  }

  /** `jmpi` goes to its operand, `jmpm` to the number in its operand. */
  lemma JumpImmediate(s: State, target: u32)
    ensures Exec(s, Imm32(JMPI, target)) == Some(s.(ip := target))
  {
  }

  lemma JumpIndirect(s: State, k: nat, v: nat)
    requires k < 16 && At(s.mem, s.regs[k] % TWO32, ToLE(v, 4))
    ensures Exec(s, OneReg(JMPM, 0x10 + k)) == Some(s.(ip := v % TWO32))
  {
    hide WriteOperand, ReadOperand;
    ReadReference(s, k, L, v);
    Words.Remainder(v % TWO32, TWO32, 0, v % TWO32);
  }

  lemma JumpRegister(s: State, k: nat)
    requires k < 16
    ensures Exec(s, OneReg(JMPM, k)) == Some(s.(ip := s.regs[k] % TWO32))
  {
    hide ReadOperand;
    ReadDirect(s, k, L);
  }

  /** Room below A7 for one word. */
  predicate Below(s: State) { 4 <= s.regs[15] <= |s.mem| <= TWO32 }

  /** What a call does: the address of the next instruction is on the stack, A7 points to it, and
      the machine goes to `target`. */
  ghost predicate Called(s: State, t: State, target: u32)
    requires Below(s)
  {
    var a := s.regs[15] - 4;
    && t == s.(regs := s.regs[15 := a], mem := t.mem, ip := target)
    && At(t.mem, a, ToLE(s.ip, 4)) && SameOutside(s.mem, t.mem, a, a + 4)
  }

  lemma ReturnPushed(s: State, target: u32)
    requires Below(s)
    ensures var t := WriteOperand(s, 0x2f, s.ip, L);
      t.Some? && t.value.ip == s.ip && Called(s, t.value.(ip := target), target)
  {
    hide WriteOperand, ToLE, At, SameOutside;
    WritePreDec(s, 15, L, s.ip);
  }

  lemma CallOffset(s: State, offset: u32)
    requires Below(s)
    ensures var t := Exec(s, Offset(CALL, offset)); t.Some? && Called(s, t.value, (s.ip + offset + 4) % TWO32)
  {
    hide WriteOperand, Called;
    ReturnPushed(s, (s.ip + offset + 4) % TWO32);
  }

  lemma CallImmediate(s: State, target: u32)
    requires Below(s)
    ensures var t := Exec(s, Imm32(CALLI, target)); t.Some? && Called(s, t.value, target)
  {
    hide WriteOperand, Called;
    ReturnPushed(s, target);
  }

  /** `callm` goes to the number that its operand holds after the push: if that is where the
      return address is now, to the next instruction. */
  lemma CallIndirect(s: State, k: nat)
    requires k < 16 && Below(s)
    ensures var a, t := (if k == 15 then s.regs[15] - 4 else s.regs[k] % TWO32), Exec(s, OneReg(CALLM, 0x10 + k));
      && (t.Some? <==> a + 4 <= |s.mem|)
      && (t.Some? ==> Called(s, t.value, t.value.ip) && At(t.value.mem, a, ToLE(t.value.ip, 4)))
  {
    hide WriteOperand, ReadOperand, ToLE, At;
    ReturnPushed(s, 0);
    var t := WriteOperand(s, 0x2f, s.ip, L).value;
    Words.Remainder(s.regs[15] - 4, TWO32, 0, s.regs[15] - 4);
    ReadFailsIff(t, k, L);
    if t.regs[k] % TWO32 + 4 <= |t.mem| {
      ReadHolds(t, k, L);
      var v := ReadOperand(t, 0x10 + k, L).value.value;
      Words.Remainder(v, TWO32, 0, v);
    }
  }
}
