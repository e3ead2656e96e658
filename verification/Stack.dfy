/** Push against pop, and call against return, over the machine's memory. */
module Stack {
  import opened Words
  import opened Isa
  import opened Machine

  // ---- Memory ----

  lemma SpliceAt(m: seq<byte>, a: nat, s: seq<byte>)
    requires a + |s| <= |m|
    ensures At(Splice(m, a, s), a, s)
    ensures forall j :: 0 <= j < |m| && !(a <= j < a + |s|) ==> Splice(m, a, s)[j] == m[j]
  {
  }

  /** Same bytes at and above address `a`. */
  ghost predicate SameFrom(m: seq<byte>, m': seq<byte>, a: nat) {
    |m| == |m'| && forall j :: a <= j < |m| ==> m[j] == m'[j]
  }

  /** Same bytes outside `[lo, hi)`. */
  ghost predicate SameOutside(m: seq<byte>, m': seq<byte>, lo: nat, hi: nat) {
    |m| == |m'| && forall j :: 0 <= j < |m| && !(lo <= j < hi) ==> m[j] == m'[j]
  }

  lemma AtSame(m: seq<byte>, m': seq<byte>, a: nat, p: nat, s: seq<byte>)
    requires SameFrom(m, m', a) && a <= p && At(m, p, s)
    ensures At(m', p, s)
  {
    assert m'[p..p + |s|] == m[p..p + |s|];
  }

  /** A byte store also replaces the next byte, by the second byte of the value. */
  lemma ByteStoreClobbers(s: State, a: u32, v: u64)
    requires a + 2 <= |s.mem|
    ensures var t := WriteMemory(s, a, v, B);
      t.Some? && t.value.mem[a] == v % 256 && t.value.mem[a + 1] == v / 256 % 256
    ensures WriteMemory(s, a, v, B).value.mem == s.mem[a := v % 256] <==> s.mem[a + 1] == v / 256 % 256
  {
    assert ToLE(v / 256, 1) == [v / 256 % 256];
    assert ToLE(v, 2) == [v % 256, v / 256 % 256];
    var m := Splice(s.mem, a, [v % 256, v / 256 % 256]);
    assert m[a + 1] == v / 256 % 256;
    assert s.mem[a := v % 256][a + 1] == s.mem[a + 1];
  }

  // ---- Push and pop of register sets ----

  /** Bytes that the registers from `lo` up to `hi` in the set take. */
  function Span(mask: u16, lo: nat, hi: nat, w: Width): nat
    requires lo <= hi
    decreases hi - lo
  {
    if lo == hi then 0 else (if InSet(mask, lo) then w.Bytes() else 0) + Span(mask, lo + 1, hi, w)
  }

  /** The pops of the registers from `i - 1` down to `lo`. */
  function PopTo(s: State, mask: u16, r: byte, w: Width, i: nat, lo: nat): Option<State>
    requires lo <= i <= 16
    decreases i - lo
  {
    if i == lo then Some(s)
    else if !InSet(mask, i - 1) then PopTo(s, mask, r, w, i - 1, lo)
    else
      var t := ReadOperand(s, r, w);
      if t.None? then None else PopTo(SetReg(t.value.s, i - 1, t.value.value), mask, r, w, i - 1, lo)
  }

  lemma {:induction false} PopSplits(s: State, mask: u16, r: byte, w: Width, i: nat, mid: nat)
    requires mid <= i <= 16
    ensures var t := PopTo(s, mask, r, w, i, mid);
      PopBelow(s, mask, r, w, i) == if t.None? then None else PopBelow(t.value, mask, r, w, mid)
    decreases i - mid
  {
    hide ReadOperand, InSet;
    if i > mid {
      if !InSet(mask, i - 1) {
        PopSplits(s, mask, r, w, i - 1, mid);
      } else if ReadOperand(s, r, w).Some? {
        var t := ReadOperand(s, r, w).value;
        PopSplits(SetReg(t.s, i - 1, t.value), mask, r, w, i - 1, mid);
      }
    }
  }

  lemma {:induction false} PopToNext(s: State, mask: u16, r: byte, w: Width, i: nat, lo: nat)
    requires lo < i <= 16
    ensures var t := PopTo(s, mask, r, w, i, lo + 1);
      PopTo(s, mask, r, w, i, lo) == if t.None? then None else PopTo(t.value, mask, r, w, lo + 1, lo)
    decreases i - lo
  {
    hide ReadOperand, InSet;
    if i > lo + 1 {
      if !InSet(mask, i - 1) {
        PopToNext(s, mask, r, w, i - 1, lo);
      } else if ReadOperand(s, r, w).Some? {
        var t := ReadOperand(s, r, w).value;
        PopToNext(SetReg(t.s, i - 1, t.value), mask, r, w, i - 1, lo);
      }
    }
  }

  /** The operands `-(r)` and `(r)+` for register `k`. */
  function PreDec(k: nat): byte
    requires k < 16
  {
    PRE_DEC + k
  }

  function PostInc(k: nat): byte
    requires k < 16
  {
    POST_INC + k
  }

  /** Room for `n` bytes below the address in register `k`. */
  predicate Room(s: State, k: nat, n: nat)
    requires k < 16
  {
    n <= s.regs[k] <= |s.mem| <= TWO32
  }

  lemma WriteBelow(s: State, k: nat, v: u64, w: Width)
    requires k < 16 && w != B && Room(s, k, w.Bytes())
    ensures var a := s.regs[k] - w.Bytes();
      WriteOperand(s, PreDec(k), v, w) == Some(s.(regs := s.regs[k := a], mem := Splice(s.mem, a, ToLE(v, w.Bytes()))))
  {
    hide ToLE, Splice;
    assert Mode(PreDec(k)) == PRE_DEC && Reg(PreDec(k)) == k;
    assert (s.regs[k] - w.Bytes()) % TWO64 == s.regs[k] - w.Bytes();
  }

  lemma ReadAbove(s: State, k: nat, w: Width, v: nat)
    requires k < 16 && s.regs[k] + w.Bytes() <= |s.mem| <= TWO32 && At(s.mem, s.regs[k], ToLE(v, w.Bytes()))
    ensures ReadOperand(s, PostInc(k), w) == Some(Read(s.(regs := s.regs[k := s.regs[k] + w.Bytes()]), v % w.Modulus()))
  {
    hide ToLE, FromLE;
    assert Mode(PostInc(k)) == POST_INC && Reg(PostInc(k)) == k;
    LoadAt(s.mem, s.regs[k], v, w);
  }

  /** The value pushed for the pointer register itself, if it is in the set: the pointer
      after the registers below it have been pushed. */
  predicate Fits(s: State, mask: u16, k: nat, w: Width, i: nat)
    requires i <= 16 && k < 16
  {
    i <= k && InSet(mask, k) ==> s.regs[k] - Span(mask, i, k, w) < w.Modulus()
  }

  /** What pushing the registers from `i` up does. */
  ghost predicate Pushed(s: State, t: State, mask: u16, k: nat, w: Width, i: nat)
    requires i <= 16 && k < 16
  {
    var n := Span(mask, i, 16, w);
    && n <= s.regs[k]
    && t == s.(regs := s.regs[k := s.regs[k] - n], mem := t.mem)
    && SameOutside(s.mem, t.mem, s.regs[k] - n, s.regs[k])
  }

  lemma {:induction false} PushEffect(s: State, mask: u16, k: nat, w: Width, i: nat)
    requires k < 16 && i <= 16 && w != B && Room(s, k, Span(mask, i, 16, w))
    ensures PushFrom(s, mask, PreDec(k), w, i).Some?
    ensures Pushed(s, PushFrom(s, mask, PreDec(k), w, i).value, mask, k, w, i)
    decreases 16 - i
  {
    hide WriteOperand, ToLE, InSet, Splice, SameOutside, At, Pushed;
    if i < 16 {
      var s1 := s;
      if !InSet(mask, i) {
        PushEffect(s, mask, k, w, i + 1);
      } else {
        s1 := PushOne(s, mask, k, w, i);
        PushEffect(s1, mask, k, w, i + 1);
      }
      PushedStep(s, s1, PushFrom(s1, mask, PreDec(k), w, i + 1).value, mask, k, w, i);
    } else {
      NothingPushed(s, mask, k, w);
    }
  }

  lemma NothingPushed(s: State, mask: u16, k: nat, w: Width)
    requires k < 16
    ensures Pushed(s, s, mask, k, w, 16)
  {
    assert s.regs[k := s.regs[k]] == s.regs;
  }

  lemma PushedStep(s: State, s1: State, t: State, mask: u16, k: nat, w: Width, i: nat)
    requires k < 16 && i < 16 && Pushed(s1, t, mask, k, w, i + 1)
    requires InSet(mask, i) ==>
      && w.Bytes() <= s.regs[k]
      && s1 == s.(regs := s.regs[k := s.regs[k] - w.Bytes()], mem := s1.mem)
      && SameOutside(s.mem, s1.mem, s.regs[k] - w.Bytes(), s.regs[k])
    requires !InSet(mask, i) ==> s1 == s
    ensures Pushed(s, t, mask, k, w, i)
  {
    hide InSet;
  }

  /** The state after one push, and what the rest of the pushes start from. */
  lemma PushOne(s: State, mask: u16, k: nat, w: Width, i: nat) returns (s1: State)
    requires k < 16 && i < 16 && w != B && Room(s, k, Span(mask, i, 16, w)) && InSet(mask, i)
    ensures var low := s.regs[k] - w.Bytes();
      && low >= 0 && |s1.mem| == |s.mem|
      && s1 == s.(regs := s.regs[k := low], mem := s1.mem)
      && SameOutside(s.mem, s1.mem, low, s.regs[k]) && At(s1.mem, low, ToLE(s.regs[i], w.Bytes()))
    ensures WriteOperand(s, PreDec(k), s.regs[i], w) == Some(s1)
    ensures PushFrom(s, mask, PreDec(k), w, i) == PushFrom(s1, mask, PreDec(k), w, i + 1)
    ensures Room(s1, k, Span(mask, i + 1, 16, w))
  {
    hide WriteOperand, ToLE, InSet, Splice, At;
    var low := s.regs[k] - w.Bytes();
    WriteBelow(s, k, s.regs[i], w);
    s1 := s.(regs := s.regs[k := low], mem := Splice(s.mem, low, ToLE(s.regs[i], w.Bytes())));
    SpliceAt(s.mem, low, ToLE(s.regs[i], w.Bytes()));
  }

  /** What the pointer points to stays there under further pushes. */
  lemma PushedKept(s: State, mask: u16, k: nat, w: Width, i: nat, bytes: seq<byte>)
    requires k < 16 && i <= 16 && w != B && Room(s, k, Span(mask, i, 16, w)) && At(s.mem, s.regs[k], bytes)
    ensures PushFrom(s, mask, PreDec(k), w, i).Some?
    ensures At(PushFrom(s, mask, PreDec(k), w, i).value.mem, s.regs[k], bytes)
  {
    hide WriteOperand, PushFrom, InSet, Splice, At;
    PushEffect(s, mask, k, w, i);
    AtSame(s.mem, PushFrom(s, mask, PreDec(k), w, i).value.mem, s.regs[k], s.regs[k], bytes);
  }

  /** Where each register of the set is after the push: the lowest number on top, each next one
      below it. The pointer itself is pushed as it is when its turn comes. */
  lemma {:induction false} PushedAt(s: State, mask: u16, k: nat, w: Width, from: nat, i: nat)
    requires k < 16 && from <= i < 16 && w != B && Room(s, k, Span(mask, from, 16, w)) && InSet(mask, i)
    ensures PushFrom(s, mask, PreDec(k), w, from).Some?
    ensures Span(mask, from, i + 1, w) <= s.regs[k]
    ensures var v := if i == k then s.regs[k] - Span(mask, from, k, w) else s.regs[i];
      v >= 0 && At(PushFrom(s, mask, PreDec(k), w, from).value.mem, s.regs[k] - Span(mask, from, i + 1, w),
                   ToLE(v, w.Bytes()))
    decreases i - from
  {
    hide PushFrom, Span, ToLE, InSet, At;
    PushEffect(s, mask, k, w, from);
    SpanStep(mask, from, i + 1, w);
    SpanStep(mask, from, 16, w);
    if from < k { SpanStep(mask, from, k, w); }
    if !InSet(mask, from) {
      NotPushed(s, mask, PreDec(k), w, from);
      PushedAt(s, mask, k, w, from + 1, i);
    } else {
      var s1 := PushOne(s, mask, k, w, from);
      if from == i {
        SpanNone(mask, i, w);
        PushedKept(s1, mask, k, w, i + 1, ToLE(s.regs[i], w.Bytes()));
      } else {
        PushedAt(s1, mask, k, w, from + 1, i);
      }
    }
  }

  lemma SpanStep(mask: u16, lo: nat, hi: nat, w: Width)
    requires lo < hi
    ensures Span(mask, lo, hi, w) == (if InSet(mask, lo) then w.Bytes() else 0) + Span(mask, lo + 1, hi, w)
  {
  }

  lemma SpanNone(mask: u16, i: nat, w: Width)
    ensures Span(mask, i, i, w) == 0 == Span(mask, i + 1, i + 1, w)
  {
  }

  lemma NotPushed(s: State, mask: u16, r: byte, w: Width, i: nat)
    requires i < 16 && !InSet(mask, i)
    ensures PushFrom(s, mask, r, w, i) == PushFrom(s, mask, r, w, i + 1)
  {
  }

  /** The registers after the pops of those from `i` up: the pointer is back, the others in
      the set hold what fitted the width. */
  function Restored(regs: Registers, mask: u16, k: nat, w: Width, i: nat): Registers {
    seq(16, j requires 0 <= j < 16 => if j != k && i <= j && InSet(mask, j) then regs[j] % w.Modulus() else regs[j])
  }

  lemma RestoredStep(regs: Registers, mask: u16, k: nat, w: Width, i: nat, low: u64)
    requires k < 16 && i < 16 && (i == k && InSet(mask, k) ==> regs[k] < w.Modulus())
    ensures InSet(mask, i) ==>
      Restored(regs[k := low], mask, k, w, i + 1)[k := regs[k]][i := regs[i] % w.Modulus()]
      == Restored(regs, mask, k, w, i)
    ensures !InSet(mask, i) ==> Restored(regs, mask, k, w, i + 1) == Restored(regs, mask, k, w, i)
  {
    hide InSet;
  }

  /** The state reached when the registers from `i` up have been pushed and `p` is any state
      with that memory and those registers: popping them again undoes the pushes. */
  lemma {:induction false} PopUndoes(s: State, p: State, mask: u16, k: nat, w: Width, i: nat)
    requires k < 16 && i <= 16 && w != B && Room(s, k, Span(mask, i, 16, w)) && Fits(s, mask, k, w, i)
    requires PushFrom(s, mask, PreDec(k), w, i).Some?
    requires p.regs == PushFrom(s, mask, PreDec(k), w, i).value.regs
    requires p.mem == PushFrom(s, mask, PreDec(k), w, i).value.mem
    ensures PopTo(p, mask, PostInc(k), w, 16, i) == Some(p.(regs := Restored(s.regs, mask, k, w, i)))
    decreases 16 - i, 1
  {
    hide WriteOperand, ReadOperand, ToLE, InSet, Splice, Restored, At;
    if i == 16 {
      NothingRestored(s.regs, mask, k, w);
    } else {
      PopToNext(p, mask, PostInc(k), w, 16, i);
      RestoredStep(s.regs, mask, k, w, i, if InSet(mask, i) then s.regs[k] - w.Bytes() else 0);
      if !InSet(mask, i) {
        PopUndoes(s, p, mask, k, w, i + 1);
      } else {
        PopUndoesOne(s, p, mask, k, w, i);
      }
    }
  }

  lemma NothingRestored(regs: Registers, mask: u16, k: nat, w: Width)
    ensures Restored(regs, mask, k, w, 16) == regs
  {
  }

  lemma {:induction false} PopUndoesOne(s: State, p: State, mask: u16, k: nat, w: Width, i: nat)
    requires k < 16 && i < 16 && w != B && Room(s, k, Span(mask, i, 16, w)) && Fits(s, mask, k, w, i) && InSet(mask, i)
    requires PushFrom(s, mask, PreDec(k), w, i).Some?
    requires p.regs == PushFrom(s, mask, PreDec(k), w, i).value.regs
    requires p.mem == PushFrom(s, mask, PreDec(k), w, i).value.mem
    ensures PopTo(p, mask, PostInc(k), w, 16, i) == Some(p.(regs := Restored(s.regs, mask, k, w, i)))
    decreases 16 - i, 0
  {
    hide WriteOperand, ReadOperand, ToLE, InSet, Splice, Restored, At;
    var low := s.regs[k] - w.Bytes();
    var bytes := ToLE(s.regs[i], w.Bytes());
    var s1 := PushOne(s, mask, k, w, i);
    PushEffect(s1, mask, k, w, i + 1);
    PopUndoes(s1, p, mask, k, w, i + 1);
    var u := p.(regs := Restored(s1.regs, mask, k, w, i + 1));
    PopToNext(p, mask, PostInc(k), w, 16, i);
    RestoredStep(s.regs, mask, k, w, i, low);
    RestoredPointer(s1.regs, mask, k, w, i + 1);
    AtSame(s1.mem, p.mem, low, low, bytes);
    ReadAbove(u, k, w, s.regs[i]);
  }

  lemma RestoredPointer(regs: Registers, mask: u16, k: nat, w: Width, i: nat)
    requires k < 16
    ensures Restored(regs, mask, k, w, i)[k] == regs[k]
  {
  }

  /** The round trip. For every register set, pushing it below the address in register `k`
      and popping it again restores each register of the set as far as it fits the width
      and the pointer itself, even when it is in the set, provided the pointer value pushed
      fits; in between only the bytes pushed, right below the pointer, have changed. */
  lemma PushPopRoundTrip(s: State, mask: u16, k: nat, w: Width)
    requires k < 16 && w != B && Room(s, k, Span(mask, 0, 16, w)) && Fits(s, mask, k, w, 0)
    ensures var t := Push(s, mask, PreDec(k), w);
      && t.Some?
      && t.value.regs == s.regs[k := s.regs[k] - Span(mask, 0, 16, w)]
      && SameOutside(s.mem, t.value.mem, s.regs[k] - Span(mask, 0, 16, w), s.regs[k])
      && var u := Pop(t.value, mask, PostInc(k), w);
      && u == Some(t.value.(regs := Restored(s.regs, mask, k, w, 0)))
  {
    hide WriteOperand, ReadOperand, ToLE, InSet, Splice, Restored, SameOutside, Span, PopTo, PushFrom;
    PushEffect(s, mask, k, w, 0);
    var t := Push(s, mask, PreDec(k), w).value;
    PopUndoes(s, t, mask, k, w, 0);
    PopSplits(t, mask, PostInc(k), w, 16, 0);
  }

  /** Both clear the flags. */
  lemma FlagsCleared(s: State, mask: u16, r: byte, w: Width)
    ensures Push(s, mask, r, w).Some? ==> Push(s, mask, r, w).value.cond == Flags(false, false, false, false)
    ensures Pop(s, mask, r, w).Some? ==> Pop(s, mask, r, w).value.cond == Flags(false, false, false, false)
  {
    hide PushFrom, PopBelow;
  }

  // ---- The condition is exact ----

  /** The pushes of the registers from `i` up to `hi`. */
  function PushTo(s: State, mask: u16, r: byte, w: Width, i: nat, hi: nat): Option<State>
    requires i <= hi <= 16
    decreases hi - i
  {
    if i == hi then Some(s)
    else if !InSet(mask, i) then PushTo(s, mask, r, w, i + 1, hi)
    else
      var t := WriteOperand(s, r, s.regs[i], w);
      if t.None? then None else PushTo(t.value, mask, r, w, i + 1, hi)
  }

  lemma {:induction false} SpanSplits(mask: u16, i: nat, mid: nat, hi: nat, w: Width)
    requires i <= mid <= hi
    ensures Span(mask, i, hi, w) == Span(mask, i, mid, w) + Span(mask, mid, hi, w)
    decreases mid - i
  {
    if i < mid { SpanSplits(mask, i + 1, mid, hi, w); }
  }

  lemma SpanLast(mask: u16, i: nat, w: Width)
    requires i > 0
    ensures Span(mask, 0, i, w) == Span(mask, 0, i - 1, w) + if InSet(mask, i - 1) then w.Bytes() else 0
  {
    hide InSet;
    SpanSplits(mask, 0, i - 1, i, w);
    SpanNone(mask, i, w);
  }

  lemma {:induction false} PushSplits(s: State, mask: u16, k: nat, w: Width, i: nat, hi: nat)
    requires i <= hi <= 16 && k < 16 && w != B && Room(s, k, Span(mask, i, 16, w))
    ensures var t := PushTo(s, mask, PreDec(k), w, i, hi);
      && t.Some?
      && PushFrom(s, mask, PreDec(k), w, i) == PushFrom(t.value, mask, PreDec(k), w, hi)
      && Span(mask, i, hi, w) <= s.regs[k]
      && t.value.regs == s.regs[k := s.regs[k] - Span(mask, i, hi, w)] && |t.value.mem| == |s.mem|
      && Room(t.value, k, Span(mask, hi, 16, w))
    decreases hi - i
  {
    hide WriteOperand, ToLE, InSet, Splice, At, SameOutside;
    if i == hi {
      assert s.regs[k := s.regs[k]] == s.regs;
    } else if !InSet(mask, i) {
      PushSplits(s, mask, k, w, i + 1, hi);
    } else {
      var s1 := PushOne(s, mask, k, w, i);
      PushSplits(s1, mask, k, w, i + 1, hi);
      assert Span(mask, i, hi, w) == w.Bytes() + Span(mask, i + 1, hi, w);
      assert PushTo(s, mask, PreDec(k), w, i, hi) == PushTo(s1, mask, PreDec(k), w, i + 1, hi);
    }
  }

  lemma ReadMovesPointer(s: State, k: nat, w: Width)
    requires k < 16
    ensures var t := ReadOperand(s, PostInc(k), w); t.Some? ==> t.value.s.regs[k] == (s.regs[k] + w.Bytes()) % TWO64
  {
    hide FromLE;
    assert Mode(PostInc(k)) == POST_INC && Reg(PostInc(k)) == k;
  }

  /** Pops of registers below the pointer register move the pointer by what they read. */
  lemma {:induction false} PopMovesPointer(s: State, mask: u16, k: nat, w: Width, i: nat)
    requires k < 16 && i <= k
    ensures PopBelow(s, mask, PostInc(k), w, i).Some? ==>
      PopBelow(s, mask, PostInc(k), w, i).value.regs[k] == (s.regs[k] + Span(mask, 0, i, w)) % TWO64
    decreases i
  {
    hide InSet, ReadOperand, Span;
    SpanNone(mask, i, w);
    if i > 0 {
      SpanLast(mask, i, w);
      if !InSet(mask, i - 1) {
        PopMovesPointer(s, mask, k, w, i - 1);
      } else if ReadOperand(s, PostInc(k), w).Some? {
        var t := ReadOperand(s, PostInc(k), w).value;
        ReadMovesPointer(s, k, w);
        PopMovesPointer(SetReg(t.s, i - 1, t.value), mask, k, w, i - 1);
        Carry(s.regs[k], w.Bytes(), Span(mask, 0, i - 1, w));
      }
    }
  }

  lemma Carry(x: nat, b: nat, n: nat)
    ensures ((x + b) % TWO64 + n) % TWO64 == (x + (n + b)) % TWO64
  {
    var q, r := (x + b) / TWO64, (x + b) % TWO64;
    assert x + b == q * TWO64 + r;
    var q', r' := (r + n) / TWO64, (r + n) % TWO64;
    assert r + n == q' * TWO64 + r';
    Remainder(x + (n + b), TWO64, q + q', r');
  }

  /** If the value pushed for the pointer does not fit, its pop reads only the remainder. */
  lemma PointerPopped(s: State, p: State, mask: u16, k: nat, w: Width)
    requires k < 16 && w != B && Room(s, k, Span(mask, k, 16, w)) && InSet(mask, k)
    requires PushFrom(s, mask, PreDec(k), w, k).Some?
    requires p.regs == PushFrom(s, mask, PreDec(k), w, k).value.regs
    requires p.mem == PushFrom(s, mask, PreDec(k), w, k).value.mem
    ensures var u := PopTo(p, mask, PostInc(k), w, 16, k); u.Some? && u.value.regs[k] == s.regs[k] % w.Modulus()
  {
    hide WriteOperand, ReadOperand, ToLE, InSet, Restored, At, Splice;
    var s1 := PushOne(s, mask, k, w, k);
    PushEffect(s1, mask, k, w, k + 1);
    PopUndoes(s1, p, mask, k, w, k + 1);
    PopToNext(p, mask, PostInc(k), w, 16, k);
    var u1 := p.(regs := Restored(s1.regs, mask, k, w, k + 1));
    RestoredPointer(s1.regs, mask, k, w, k + 1);
    AtSame(s1.mem, p.mem, s1.regs[k], s1.regs[k], ToLE(s.regs[k], w.Bytes()));
    ReadAbove(u1, k, w, s.regs[k]);
  }

  /** If the pointer is in the set and the value pushed for it does not fit, it is lost. */
  lemma PointerLost(s: State, mask: u16, k: nat, w: Width)
    requires k < 16 && w != B && Room(s, k, Span(mask, 0, 16, w)) && !Fits(s, mask, k, w, 0)
    ensures Push(s, mask, PreDec(k), w).Some?
    ensures var u := Pop(Push(s, mask, PreDec(k), w).value, mask, PostInc(k), w);
      u.Some? ==> u.value.regs[k] != s.regs[k]
  {
    hide WriteOperand, ReadOperand, ToLE, InSet, PushFrom, PopBelow, PopTo, PushTo, Span;
    PushSplits(s, mask, k, w, 0, k);
    PushEffect(s, mask, k, w, 0);
    var sk := PushTo(s, mask, PreDec(k), w, 0, k).value;
    var t := Push(s, mask, PreDec(k), w).value;
    PointerPopped(sk, t, mask, k, w);
    PopSplits(t, mask, PostInc(k), w, 16, k);
    PopMovesPointer(PopTo(t, mask, PostInc(k), w, 16, k).value, mask, k, w, k);
  }

  /** It happens to a pointer of 65536 in a set of its own, pushed and popped as a word. */
  lemma PointerLostHappens(s: State)
    requires s.regs[15] == 0x1_0000 <= |s.mem| <= TWO32
    ensures var mask: u16 := 0x8000;
      var t := Push(s, mask, PreDec(15), W);
      && t.Some?
      && var u := Pop(t.value, mask, PostInc(15), W);
      u.Some? && u.value.regs[15] == 0
  {
    hide InSet, WriteOperand, ReadOperand, ToLE, Splice, At;
    var mask: u16, low := 0x8000, 0xfffe;
    forall i: nat | i < 16 ensures InSet(mask, i) <==> i == 15 { OnlyA7(i); }
    WriteBelow(s, 15, s.regs[15], W);
    SpliceAt(s.mem, low, ToLE(s.regs[15], 2));
    NonePushed(s, mask, PreDec(15), W, 0);
    var t := Push(s, mask, PreDec(15), W).value;
    ReadAbove(t, 15, W, s.regs[15]);
    var u := SetReg(ReadOperand(t, PostInc(15), W).value.s, 15, 0);
    NonePopped(u, mask, PostInc(15), W, 15);
  }

  lemma {:induction false} NonePushed(s: State, mask: u16, r: byte, w: Width, i: nat)
    requires i <= 15 && forall j :: 0 <= j < 15 ==> !InSet(mask, j)
    ensures PushFrom(s, mask, r, w, i) == PushFrom(s, mask, r, w, 15)
    decreases 15 - i
  {
    hide InSet, WriteOperand;
    if i < 15 { NonePushed(s, mask, r, w, i + 1); }
  }

  lemma {:induction false} NonePopped(s: State, mask: u16, r: byte, w: Width, i: nat)
    requires i <= 15 && forall j :: 0 <= j < 15 ==> !InSet(mask, j)
    ensures PopBelow(s, mask, r, w, i) == Some(s)
    decreases i
  {
    hide InSet, ReadOperand;
    if i > 0 { NonePopped(s, mask, r, w, i - 1); }
  }

  /** Bit 15 alone. */
  lemma OnlyA7(i: nat)
    requires i < 16
    ensures InSet(0x8000, i) <==> i == 15
  {
    assert Pow2(4) == 16 && Pow2(8) == 256 && Pow2(12) == 4096;
    assert Pow2(1) == 2 && Pow2(2) == 4 && Pow2(3) == 8 && Pow2(5) == 32 && Pow2(6) == 64 && Pow2(7) == 128;
    assert Pow2(9) == 512 && Pow2(10) == 1024 && Pow2(11) == 2048 && Pow2(13) == 8192 && Pow2(14) == 16384;
    assert Pow2(15) == 32768;
  }

  /** Push then pop gives the pointer register back if and only if the value pushed for
      it, if any, fits the width. */
  lemma PointerRestoredIff(s: State, mask: u16, k: nat, w: Width)
    requires k < 16 && w != B && Room(s, k, Span(mask, 0, 16, w))
    ensures Push(s, mask, PreDec(k), w).Some?
    ensures var u := Pop(Push(s, mask, PreDec(k), w).value, mask, PostInc(k), w);
      (u.Some? && u.value.regs[k] == s.regs[k]) <==> Fits(s, mask, k, w, 0)
  {
    hide Push, Pop, Restored;
    if Fits(s, mask, k, w, 0) {
      PushPopRoundTrip(s, mask, k, w);
      RestoredPointer(s.regs, mask, k, w, 0);
    } else {
      PointerLost(s, mask, k, w);
    }
  }
}
