/** Rotations as the machine computes them: two shifts in 64 bits, joined by a bitwise or
    and cut to the operand's width. */
module Rotate {
  import opened Words

  function Bit(v: nat, i: nat): bool
    decreases i
  {
    if i == 0 then v % 2 == 1 else Bit(v / 2, i - 1)
  }

  /** `v << k` without an upper bound. */
  function Shl(v: nat, k: nat): nat { if k == 0 then v else 2 * Shl(v, k - 1) }

  function Shr(v: nat, k: nat): nat { if k == 0 then v else Shr(v / 2, k - 1) }

  /** The low `n` bits. */
  function Low(v: nat, n: nat): nat { if n == 0 then 0 else v % 2 + 2 * Low(v / 2, n - 1) }

  function Or(a: nat, b: nat): nat {
    if a == 0 then b else (if a % 2 == 1 || b % 2 == 1 then 1 else 0) + 2 * Or(a / 2, b / 2)
  }

  function RotateLeft(v: nat, n: nat, k: nat): nat
    requires k <= n
  {
    Low(Or(Low(Shl(v, k), 64), Shr(v, n - k)), n)
  }

  function RotateRight(v: nat, n: nat, k: nat): nat
    requires k <= n
  {
    Low(Or(Shr(v, k), Low(Shl(v, n - k), 64)), n)
  }

  // ---- Bits of the parts ----

  lemma {:induction false} BitShl(v: nat, k: nat, i: nat)
    ensures Bit(Shl(v, k), i) == (k <= i && Bit(v, i - k))
    decreases k
  {
    if k > 0 && i > 0 { BitShl(v, k - 1, i - 1); }
  }

  lemma {:induction false} BitShr(v: nat, k: nat, i: nat)
    ensures Bit(Shr(v, k), i) == Bit(v, i + k)
    decreases k
  {
    if k > 0 { BitShr(v / 2, k - 1, i); }
  }

  lemma {:induction false} BitZero(i: nat)
    ensures !Bit(0, i)
  {
    if i > 0 { BitZero(i - 1); }
  }

  lemma {:induction false} BitLow(v: nat, n: nat, i: nat)
    ensures Bit(Low(v, n), i) == (i < n && Bit(v, i))
    decreases n
  {
    if n == 0 { BitZero(i); } else if i > 0 { BitLow(v / 2, n - 1, i - 1); }
  }

  lemma {:induction false} BitOr(a: nat, b: nat, i: nat)
    ensures Bit(Or(a, b), i) == (Bit(a, i) || Bit(b, i))
    decreases i
  {
    if a == 0 { BitZero(i); } else if i > 0 { BitOr(a / 2, b / 2, i - 1); }
  }

  /** Two words of `n` bits with the same bits are equal. */
  lemma {:induction false} SameBits(a: nat, b: nat, n: nat)
    requires Low(a, n) == a && Low(b, n) == b && forall i :: 0 <= i < n ==> Bit(a, i) == Bit(b, i)
    ensures a == b
    decreases n
  {
    if n > 0 {
      assert Bit(a, 0) == Bit(b, 0);
      forall i | 0 <= i < n - 1 ensures Bit(a / 2, i) == Bit(b / 2, i) {
        assert Bit(a, i + 1) == Bit(b, i + 1);
      }
      SameBits(a / 2, b / 2, n - 1);
    }
  }

  lemma {:induction false} LowLow(v: nat, n: nat)
    ensures Low(Low(v, n), n) == Low(v, n)
    decreases n
  {
    if n > 0 { LowLow(v / 2, n - 1); }
  }

  lemma {:induction false} LowIsMod(v: nat, n: nat)
    ensures Low(v, 8 * n) == v % Pow256(n)
    decreases n
  {
    if n > 0 {
      LowIsMod(v / 256, n - 1);
      LowByte(v, 8 * (n - 1));
      DivModStep(v, Pow256(n - 1));
    }
  }

  lemma LowByte(v: nat, n: nat)
    ensures Low(v, n + 8) == v % 256 + 256 * Low(v / 256, n)
  {
    LowNibble(v, n + 4);
    LowNibble(v / 16, n);
  }

  lemma LowNibble(v: nat, n: nat)
    ensures Low(v, n + 4) == v % 16 + 16 * Low(v / 16, n)
  {
    assert v / 2 / 2 / 2 / 2 == v / 16;
    assert Low(v, n + 4) == v % 2 + 2 * Low(v / 2, n + 3);
    assert Low(v / 2, n + 3) == v / 2 % 2 + 2 * Low(v / 2 / 2, n + 2);
    assert Low(v / 2 / 2, n + 2) == v / 2 / 2 % 2 + 2 * Low(v / 2 / 2 / 2, n + 1);
    assert Low(v / 2 / 2 / 2, n + 1) == v / 2 / 2 / 2 % 2 + 2 * Low(v / 16, n);
  }

  // ---- What a rotation does ----

  /** Rotating left by `k` moves bit `j` to bit `j + k`, around the end of the word, and
      the result is a word of the same width. */
  lemma LeftBit(v: nat, n: nat, k: nat, i: nat)
    requires k <= n <= 64 && i < n && Low(v, n) == v
    ensures Bit(RotateLeft(v, n, k), i) == Bit(v, if i >= k then i - k else i + n - k)
    ensures Low(RotateLeft(v, n, k), n) == RotateLeft(v, n, k)
  {
    hide Low, Shl, Shr, Or, Bit;
    var a, b := Low(Shl(v, k), 64), Shr(v, n - k);
    BitLow(Or(a, b), n, i);
    LowLow(Or(a, b), n);
    BitOr(a, b, i);
    BitLow(Shl(v, k), 64, i);
    BitShl(v, k, i);
    BitShr(v, n - k, i);
    BitLow(v, n, i + n - k);
  }

  /** Rotating right by `k` moves bit `j` to bit `j - k`. */
  lemma RightBit(v: nat, n: nat, k: nat, i: nat)
    requires k <= n <= 64 && i < n && Low(v, n) == v
    ensures Bit(RotateRight(v, n, k), i) == Bit(v, if i + k < n then i + k else i + k - n)
    ensures Low(RotateRight(v, n, k), n) == RotateRight(v, n, k)
  {
    hide Low, Shl, Shr, Or, Bit;
    var a, b := Shr(v, k), Low(Shl(v, n - k), 64);
    BitLow(Or(a, b), n, i);
    LowLow(Or(a, b), n);
    BitOr(a, b, i);
    BitLow(Shl(v, n - k), 64, i);
    BitShl(v, n - k, i);
    BitShr(v, k, i);
    BitLow(v, n, i + k);
  }

  lemma LeftWord(v: nat, n: nat, k: nat)
    requires k <= n
    ensures Low(RotateLeft(v, n, k), n) == RotateLeft(v, n, k)
  {
    LowLow(Or(Low(Shl(v, k), 64), Shr(v, n - k)), n);
  }

  lemma RightWord(v: nat, n: nat, k: nat)
    requires k <= n
    ensures Low(RotateRight(v, n, k), n) == RotateRight(v, n, k)
  {
    LowLow(Or(Shr(v, k), Low(Shl(v, n - k), 64)), n);
  }

  /** Rotating right undoes rotating left by the same amount, and the other way round. */
  lemma RightUndoesLeft(v: nat, n: nat, k: nat)
    requires k <= n <= 64 && Low(v, n) == v
    ensures RotateRight(RotateLeft(v, n, k), n, k) == v
    ensures RotateLeft(RotateRight(v, n, k), n, k) == v
  {
    hide Low, Bit, RotateLeft, RotateRight;
    var l, r := RotateLeft(v, n, k), RotateRight(v, n, k);
    LeftWord(v, n, k);
    RightWord(v, n, k);
    LeftWord(r, n, k);
    RightWord(l, n, k);
    forall i | 0 <= i < n
      ensures Bit(RotateRight(l, n, k), i) == Bit(v, i) && Bit(RotateLeft(r, n, k), i) == Bit(v, i)
    {
      RightBit(l, n, k, i);
      LeftBit(v, n, k, if i + k < n then i + k else i + k - n);
      LeftBit(r, n, k, i);
      RightBit(v, n, k, if i >= k then i - k else i + n - k);
    }
    SameBits(RotateRight(l, n, k), v, n);
    SameBits(RotateLeft(r, n, k), v, n);
  }

  /** Rotations add up, modulo the width. */
  lemma LeftAdds(v: nat, n: nat, j: nat, k: nat)
    requires 0 < n <= 64 && j < n && k < n && Low(v, n) == v
    ensures RotateLeft(RotateLeft(v, n, j), n, k) == RotateLeft(v, n, if j + k < n then j + k else j + k - n)
  {
    hide Low, Bit, RotateLeft;
    var sum := if j + k < n then j + k else j + k - n;
    var once := RotateLeft(v, n, j);
    var twice := RotateLeft(once, n, k);
    LeftWord(v, n, j);
    LeftWord(once, n, k);
    LeftWord(v, n, sum);
    forall i | 0 <= i < n ensures Bit(twice, i) == Bit(RotateLeft(v, n, sum), i) {
      LeftBit(once, n, k, i);
      LeftBit(v, n, j, if i >= k then i - k else i + n - k);
      LeftBit(v, n, sum, i);
    }
    SameBits(twice, RotateLeft(v, n, sum), n);
  }

  /** One-bit rotations to the left, `k` of them. */
  function LeftSteps(v: nat, n: nat, k: nat): nat
    requires n > 0
  {
    if k == 0 then v else RotateLeft(LeftSteps(v, n, k - 1), n, 1)
  }

  lemma LeftZero(v: nat, n: nat)
    requires n <= 64 && Low(v, n) == v
    ensures RotateLeft(v, n, 0) == v
  {
    hide Low, Bit, RotateLeft;
    LeftWord(v, n, 0);
    forall i | 0 <= i < n ensures Bit(RotateLeft(v, n, 0), i) == Bit(v, i) {
      LeftBit(v, n, 0, i);
    }
    SameBits(RotateLeft(v, n, 0), v, n);
  }

  /** A rotation is as many one-bit rotations as its amount; a full turn changes nothing. */
  lemma {:induction false} LeftIsSteps(v: nat, n: nat, k: nat)
    requires 1 < n <= 64 && Low(v, n) == v
    ensures LeftSteps(v, n, k) == RotateLeft(v, n, k % n)
    decreases k
  {
    hide Low, RotateLeft;
    if k == 0 {
      LeftZero(v, n);
    } else {
      LeftIsSteps(v, n, k - 1);
      LeftAdds(v, n, (k - 1) % n, 1);
      NextMod(k - 1, n);
    }
  }

  /** Rotating right is rotating left by the rest of the turn. */
  lemma RightIsLeft(v: nat, n: nat, k: nat)
    requires k <= n <= 64 && Low(v, n) == v
    ensures RotateRight(v, n, k) == RotateLeft(v, n, n - k)
  {
    hide Low, Bit, RotateLeft, RotateRight;
    var l, r := RotateLeft(v, n, n - k), RotateRight(v, n, k);
    LeftWord(v, n, n - k);
    RightWord(v, n, k);
    forall i | 0 <= i < n ensures Bit(r, i) == Bit(l, i) {
      RightBit(v, n, k, i);
      LeftBit(v, n, n - k, i);
    }
    SameBits(r, l, n);
  }

  lemma LeftFull(v: nat, n: nat)
    requires 0 < n <= 64 && Low(v, n) == v
    ensures RotateLeft(v, n, n) == v
  {
    hide Low, Bit, RotateLeft, RotateRight;
    RightIsLeft(v, n, 0);
    RightUndoesLeft(v, n, 0);
    LeftZero(v, n);
  }

  /** Rotations to the right add up, modulo the width. */
  lemma RightAdds(v: nat, n: nat, j: nat, k: nat)
    requires 0 < n <= 64 && j < n && k < n && Low(v, n) == v
    ensures RotateRight(RotateRight(v, n, j), n, k) == RotateRight(v, n, if j + k < n then j + k else j + k - n)
  {
    hide Low, Bit, RotateLeft, RotateRight;
    var sum, once := (if j + k < n then j + k else j + k - n), RotateRight(v, n, j);
    RightWord(v, n, j);
    RightIsLeft(v, n, j);
    RightIsLeft(once, n, k);
    RightIsLeft(v, n, sum);
    LeftFull(v, n);
    LeftFull(once, n);
    if j > 0 && k > 0 {
      LeftAdds(v, n, n - j, n - k);
      LeftZero(v, n);
    }
  }

  /** One-bit rotations to the right, `k` of them. */
  function RightSteps(v: nat, n: nat, k: nat): nat
    requires n > 0
  {
    if k == 0 then v else RotateRight(RightSteps(v, n, k - 1), n, 1)
  }

  /** A rotation to the right is as many one-bit rotations as its amount. */
  lemma {:induction false} RightIsSteps(v: nat, n: nat, k: nat)
    requires 1 < n <= 64 && Low(v, n) == v
    ensures RightSteps(v, n, k) == RotateRight(v, n, k % n)
    decreases k
  {
    hide Low, RotateLeft, RotateRight;
    if k == 0 {
      RightIsLeft(v, n, 0);
      LeftFull(v, n);
    } else {
      RightIsSteps(v, n, k - 1);
      RightAdds(v, n, (k - 1) % n, 1);
      NextMod(k - 1, n);
    }
  }

  lemma NextMod(k: nat, n: nat)
    requires n > 1
    ensures (k + 1) % n == if k % n + 1 < n then k % n + 1 else 0
  {
    assert k == k / n * n + k % n;
    if k % n + 1 < n { Remainder(k + 1, n, k / n, k % n + 1); } else { Remainder(k + 1, n, k / n + 1, 0); }
  }
}

/** The rotate instructions on the machine. */
module RotateOps {
  import opened Words
  import opened Isa
  import opened Rotate
  import opened Machine
  import opened Access

  lemma DirectTurn(s: State, left: bool, w: Width, bits: nat, k: nat)
    requires k < 16 && Turnable(bits, w.Bits())
    ensures var v := Turned(left, w, s.regs[k] % w.Modulus(), bits);
      Rotation(s, left, w, bits, k) == Some(s.(regs := s.regs[k := v], cond := CLEAR.(zero := v == 0)))
  {
    hide Turned, ReadMemory, WriteMemory;
    assert Mode(k) == DIRECT && Reg(k) == k;
  }

  /** `rori #b` after `roli #b`, and the other way round, gives a register back its value at
      the width of the operation, and touches nothing but it and the flags. */
  lemma TurnBack(s: State, left: bool, w: Width, bits: byte, k: nat)
    requires k < 16 && Turnable(bits, w.Bits())
    ensures var there := Exec(s, ShiftImm(if left then ROLI else RORI, w, bits, k));
      && there.Some?
      && var back := Exec(there.value, ShiftImm(if left then RORI else ROLI, w, bits, k));
      var v := s.regs[k] % w.Modulus();
      back == Some(s.(regs := s.regs[k := v], cond := CLEAR.(zero := v == 0)))
  {
    hide Low, Or, Shl, Shr, RotateLeft, RotateRight, ReadOperand, Result;
    var n, v := w.Bits(), s.regs[k] % w.Modulus();
    DirectTurn(s, left, w, bits, k);
    var t := Rotation(s, left, w, bits, k).value;
    DirectTurn(t, !left, w, bits, k);
    WordLow(v, w);
    RightUndoesLeft(v, n, bits);
    assert s.regs[k := t.regs[k]][k := v] == s.regs[k := v];
    Remainder(t.regs[k], w.Modulus(), 0, t.regs[k]);
  }

  /** Two rotations of a register in the same direction are one by the sum of their
      amounts, modulo the width; as an instruction too, where that amount is defined. */
  lemma TurnsAdd(s: State, left: bool, w: Width, a: byte, b: byte, k: nat)
    requires k < 16 && a < w.Bits() && b < w.Bits() && Turnable(a, w.Bits()) && Turnable(b, w.Bits())
    ensures var op, n := (if left then ROLI else RORI), w.Bits();
      var once := Exec(s, ShiftImm(op, w, a, k));
      && once.Some?
      && var twice := Exec(once.value, ShiftImm(op, w, b, k));
      && twice.Some? && (a + b) % n <= n && Moved(s, twice.value, left, w, (a + b) % n, k)
      && (Turnable((a + b) % n, n) ==> twice == Exec(s, ShiftImm(op, w, (a + b) % n, k)))
  {
    hide Low, Or, Shl, Shr, RotateLeft, RotateRight, ReadOperand, Result, Moved;
    var n, v := w.Bits(), s.regs[k] % w.Modulus();
    DirectTurn(s, left, w, a, k);
    var t := Rotation(s, left, w, a, k).value;
    DirectTurn(t, left, w, b, k);
    WordLow(v, w);
    LeftAdds(v, n, a, b);
    RightAdds(v, n, a, b);
    Remainder(a + b, n, if a + b < n then 0 else 1, if a + b < n then a + b else a + b - n);
    Remainder(t.regs[k], w.Modulus(), 0, t.regs[k]);
    if Turnable((a + b) % n, n) { DirectTurn(s, left, w, (a + b) % n, k); }
    var u := Turned(left, w, v, (a + b) % n);
    assert s.regs[k := t.regs[k]][k := u] == s.regs[k := u];
    TurnedMoves(s, s.(regs := s.regs[k := u], cond := CLEAR.(zero := u == 0)), left, w, (a + b) % n, k);
  }

  /** Where bit `j` of a word of `n` bits goes. */
  function Place(left: bool, n: nat, b: nat, j: nat): nat
    requires b <= n && j < n
  {
    if left then (if j + b < n then j + b else j + b - n) else if j >= b then j - b else j - b + n
  }

  /** The bits of register `k` below the width have moved up by `b`, or down, around the end
      of the word; the others are 0, and the zero flag says whether all are. */
  ghost predicate Moved(s: State, t: State, left: bool, w: Width, b: nat, k: nat)
    requires k < 16 && b <= w.Bits()
  {
    var n, v := w.Bits(), t.regs[k];
    && t == s.(regs := s.regs[k := v], cond := Flags(v == 0, false, false, false)) && v < w.Modulus()
    && forall j :: 0 <= j < n ==>
         Bit(v, Place(left, n, b, j)) == Bit(s.regs[k], j)
  }

  /** The machine's shifts are defined: by no more than the width, and never by 64. */
  predicate Shiftable(b: nat, w: Width) { b <= w.Bits() && !(w == X && (b == 0 || b == 64)) }

  lemma TurnedMoves(s: State, t: State, left: bool, w: Width, b: nat, k: nat)
    requires k < 16 && b <= w.Bits()
    requires var v := Turned(left, w, s.regs[k] % w.Modulus(), b);
      t == s.(regs := s.regs[k := v], cond := CLEAR.(zero := v == 0))
    ensures Moved(s, t, left, w, b, k)
  {
    hide Low, Or, Shl, Shr, RotateLeft, RotateRight, Bit;
    var n, x, v := w.Bits(), s.regs[k], t.regs[k];
    var low := x % w.Modulus();
    LowIsMod(x, w.Bytes());
    WidthModulus(w);
    WordLow(low, w);
    forall j | 0 <= j < n
      ensures Bit(v, Place(left, n, b, j)) == Bit(x, j)
    {
      BitLow(x, n, j);
      if left { LeftBit(low, n, b, Place(left, n, b, j)); } else { RightBit(low, n, b, Place(left, n, b, j)); }
    }
  }

  /** `roli` and `rori` with an immediate. */
  lemma TurnByImmediate(s: State, left: bool, w: Width, b: u64, k: nat)
    requires k < 16
    ensures var t := Exec(s, ShiftImm(if left then ROLI else RORI, w, b, k));
      (t.Some? <==> Shiftable(b, w)) && (t.Some? ==> Moved(s, t.value, left, w, b, k))
  {
    hide Turned, ReadOperand, Result, Moved;
    assert ReadOperand(s, k, w).Some? by { ReadDirect(s, k, w); }
    if Turnable(b, w.Bits()) {
      DirectTurn(s, left, w, b, k);
      TurnedMoves(s, Rotation(s, left, w, b, k).value, left, w, b, k);
    }
  }

  /** `rol` and `ror` by what their first operand holds, read as a byte if it is in memory. */
  lemma TurnByOperand(s: State, left: bool, w: Width, ra: byte, b: u64, read: State, k: nat)
    requires k < 16 && ReadOperand(s, ra, B) == Some(Machine.Read(read, b))
    ensures var t := Exec(s, TwoReg(if left then ROL else ROR, w, ra, k));
      (t.Some? <==> Shiftable(b, w)) && (t.Some? ==> Moved(read, t.value, left, w, b, k))
  {
    hide Turned, ReadOperand, Result, Moved;
    ReadDirect(read, k, w);
    if Turnable(b, w.Bits()) {
      DirectTurn(read, left, w, b, k);
      TurnedMoves(read, Rotation(read, left, w, b, k).value, left, w, b, k);
    }
  }

  /** By a register: all of it counts. */
  lemma TurnByRegister(s: State, left: bool, w: Width, j: nat, k: nat)
    requires j < 16 && k < 16
    ensures var b, t := s.regs[j], Exec(s, TwoReg(if left then ROL else ROR, w, j, k));
      (t.Some? <==> Shiftable(b, w)) && (t.Some? ==> Moved(s, t.value, left, w, b, k))
  {
    hide Turned, ReadOperand, Result, Moved;
    ReadDirect(s, j, B);
    TurnByOperand(s, left, w, j, s.regs[j], s, k);
  }

  lemma WordLow(v: nat, w: Width)
    requires v < w.Modulus()
    ensures Low(v, w.Bits()) == v
  {
    hide Low;
    LowIsMod(v, w.Bytes());
    WidthModulus(w);
  }
}
