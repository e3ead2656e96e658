/** Calls and returns on the A7 stack: over any run, the memory between A7 and the top of
    the stack holds the words pushed and not yet popped, and a return goes back to the byte
    after its call. */
module Calls {
  import opened Words
  import opened Isa
  import opened Machine
  import opened Stack

  const SP: nat := 15

  /** The stack's bytes, the last word pushed first. */
  function Encoded(g: seq<nat>): (s: seq<byte>)
    ensures |s| == 4 * |g|
  {
    if g == [] then [] else ToLE(g[|g| - 1], 4) + Encoded(g[..|g| - 1])
  }

  /** A7 to `top` holds the words of `g` (their low 32 bits), the last one at A7. */
  predicate Holds(s: State, top: nat, g: seq<nat>) {
    s.regs[SP] + 4 * |g| == top <= |s.mem| < TWO32 && At(s.mem, s.regs[SP], Encoded(g))
  }

  lemma EncodedPush(g: seq<nat>, v: nat)
    ensures Encoded(g + [v]) == ToLE(v, 4) + Encoded(g)
  {
    assert (g + [v])[..|g|] == g;
  }

  lemma AtJoin(m: seq<byte>, p: nat, a: seq<byte>, b: seq<byte>)
    requires At(m, p, a) && At(m, p + |a|, b)
    ensures At(m, p, a + b)
  {
    assert m[p..p + |a + b|] == m[p..p + |a|] + m[p + |a|..p + |a| + |b|];
  }

  lemma PushWord(s: State, top: nat, g: seq<nat>, v: u64)
    requires Holds(s, top, g) && WriteOperand(s, PRE_DEC + A7, v, L).Some?
    ensures var t := WriteOperand(s, PRE_DEC + A7, v, L).value;
      && s.regs[SP] >= 4 && t == s.(regs := s.regs[SP := s.regs[SP] - 4], mem := t.mem)
      && Holds(t, top, g + [v]) && SameFrom(s.mem, t.mem, s.regs[SP])
  {
    hide ToLE, Encoded, Splice, At;
    RoomToPush(s, v);
    var low := s.regs[SP] - 4;
    assert PreDec(SP) == PRE_DEC + A7;
    WriteBelow(s, SP, v, L);
    var t := WriteOperand(s, PRE_DEC + A7, v, L).value;
    SpliceAt(s.mem, low, ToLE(v, 4));
    AtSame(s.mem, t.mem, s.regs[SP], s.regs[SP], Encoded(g));
    AtJoin(t.mem, low, ToLE(v, 4), Encoded(g));
    EncodedPush(g, v);
  }

  /** With less than 4 GiB of memory a push that runs below address 0 is out of bounds. */
  lemma RoomToPush(s: State, v: u64)
    requires s.regs[SP] <= |s.mem| < TWO32 && WriteOperand(s, PRE_DEC + A7, v, L).Some?
    ensures s.regs[SP] >= 4
  {
    hide ToLE, Splice;
    assert Mode(PRE_DEC + A7) == PRE_DEC && Reg(PRE_DEC + A7) == SP;
    BelowZero(s.regs[SP]);
  }

  lemma BelowZero(x: nat)
    ensures x < 4 ==> (x - 4) % TWO64 % TWO32 + 4 >= TWO32
  {
    if x < 4 {
      Remainder(x - 4, TWO64, -1, TWO64 + x - 4);
      Remainder(TWO64 + x - 4, TWO32, TWO32 - 1, TWO32 + x - 4);
    }
  }

  lemma PopWord(s: State, top: nat, g: seq<nat>)
    requires Holds(s, top, g) && g != []
    ensures ReadOperand(s, POST_INC + A7, L)
         == Some(Read(s.(regs := s.regs[SP := s.regs[SP] + 4]), g[|g| - 1] % TWO32))
    ensures Holds(s.(regs := s.regs[SP := s.regs[SP] + 4]), top, g[..|g| - 1])
  {
    hide ToLE, At, ReadOperand;
    var v := g[|g| - 1];
    AtPart(s.mem, s.regs[SP], ToLE(v, 4), Encoded(g[..|g| - 1]));
    assert PostInc(SP) == POST_INC + A7;
    ReadAbove(s, SP, L, v);
  }

  // ---- What each instruction does to the stack of words ----

  /** The words a push of the registers from `i` up stacks; A7 itself goes in as it stands. */
  function PushedWords(regs: Registers, mask: u16, i: nat): seq<nat>
    requires i <= 16
    decreases 16 - i
  {
    if i == 16 then []
    else if !InSet(mask, i) then PushedWords(regs, mask, i + 1)
    else [regs[i]] + PushedWords(regs[SP := Sub64(regs[SP], 4)], mask, i + 1)
  }

  /** How many registers below number `i` are in the set. */
  function Count(mask: u16, i: nat): nat {
    if i == 0 then 0 else Count(mask, i - 1) + if InSet(mask, i - 1) then 1 else 0
  }

  /** The registers after popping those below `i`: the highest gets the last word. */
  function PoppedInto(regs: Registers, mask: u16, g: seq<nat>, i: nat): Registers
    requires i <= 16 && Count(mask, i) <= |g|
    decreases i
  {
    if i == 0 then regs
    else if !InSet(mask, i - 1) then PoppedInto(regs, mask, g, i - 1)
    else PoppedInto(regs[i - 1 := g[|g| - 1] % TWO32], mask, g[..|g| - 1], i - 1)
  }

  datatype StackOp = Calls | Returns | Pushes(mask: u16) | Pops(mask: u16) | Other | Forbidden

  function OpOf(i: Instr): StackOp {
    match i
    case NoArg(op) => if op == RET then Returns else Other
    case Offset(op, _) => if op == CALL then Calls else Other
    case Imm32(op, _) => if op == CALLI then Calls else Other
    case OneReg(op, r) => if op != CALLM then Other else if Reg(r) == SP then Forbidden else Calls
    case RegSet(op, w, mask, r) =>
      if op == PUSH && w == L && r == PRE_DEC + A7 then Pushes(mask)
      else if op == POP && w == L && r == POST_INC + A7 then Pops(mask)
      else Other
    case _ => Other
  }

  /** A step that leaves A7 and everything stacked as they are. */
  predicate Quiet(s: State) {
    var t := Step(s);
    t.Some? && t.value.regs[SP] == s.regs[SP] && |t.value.mem| == |s.mem| &&
    (s.regs[SP] <= |s.mem| ==> t.value.mem[s.regs[SP]..] == s.mem[s.regs[SP]..])
  }

  /** What a pop asks of the words: there are as many as registers in the set, and if A7 is
      among these, the word for it, the first one taken, is the address of the next one. */
  predicate Poppable(a7: u64, mask: u16, g: seq<nat>) {
    Count(mask, 16) <= |g| && (InSet(mask, SP) ==> g[|g| - 1] % TWO32 == a7 + 4)
  }

  /** The stack of words after the instruction at `s.ip`; None if it takes more words than
      there are, sets A7 to anything but the next word, or touches the stack in another way. */
  function Stacked(s: State, g: seq<nat>): Option<seq<nat>> {
    var f := Decode(s.mem, s.ip);
    if f.None? then None else
    match OpOf(f.value.i)
    case Calls => Some(g + [f.value.next % TWO32])
    case Returns => if g == [] then None else Some(g[..|g| - 1])
    case Pushes(mask) => Some(g + PushedWords(s.regs, mask, 0))
    case Pops(mask) => if Poppable(s.regs[SP], mask, g) then Some(g[..|g| - Count(mask, 16)]) else None
    case Other => if Quiet(s) then Some(g) else None
    case Forbidden => None
  }

  // ---- One step ----

  /** Same registers except A7, same flags and instruction pointer. */
  ghost predicate OnlyStack(s: State, t: State) {
    t == s.(regs := s.regs[SP := t.regs[SP]], mem := t.mem)
  }

  lemma {:induction false} PushAll(s: State, top: nat, g: seq<nat>, mask: u16, i: nat)
    requires i <= 16 && Holds(s, top, g) && PushFrom(s, mask, PRE_DEC + A7, L, i).Some?
    ensures var t := PushFrom(s, mask, PRE_DEC + A7, L, i).value;
      Holds(t, top, g + PushedWords(s.regs, mask, i)) && SameFrom(s.mem, t.mem, s.regs[SP]) && OnlyStack(s, t)
    decreases 16 - i
  {
    hide InSet, WriteOperand, Holds;
    if i == 16 {
      assert g + [] == g && s.regs[SP := s.regs[SP]] == s.regs;
    } else if !InSet(mask, i) {
      PushAll(s, top, g, mask, i + 1);
    } else {
      PushWord(s, top, g, s.regs[i]);
      var t := WriteOperand(s, PRE_DEC + A7, s.regs[i], L).value;
      PushAll(t, top, g + [s.regs[i]], mask, i + 1);
      assert g + [s.regs[i]] + PushedWords(t.regs, mask, i + 1) == g + ([s.regs[i]] + PushedWords(t.regs, mask, i + 1));
    }
  }

  lemma {:induction false} PopAll(s: State, top: nat, g: seq<nat>, mask: u16, i: nat)
    requires i <= 16 && Holds(s, top, g) && Count(mask, i) <= |g| && (i == 16 ==> Poppable(s.regs[SP], mask, g))
    ensures var t := PopBelow(s, mask, POST_INC + A7, L, i);
      && t.Some? && Holds(t.value, top, g[..|g| - Count(mask, i)]) && t.value.mem == s.mem
      && t.value == s.(regs := PoppedInto(s.regs, mask, g, i)[SP := t.value.regs[SP]])
    decreases i
  {
    hide InSet, ReadOperand, At;
    if i == 0 {
      assert g[..|g|] == g && s.regs[SP := s.regs[SP]] == s.regs;
    } else if !InSet(mask, i - 1) {
      PopAll(s, top, g, mask, i - 1);
    } else {
      PopWord(s, top, g);
      var init, v := g[..|g| - 1], g[|g| - 1] % TWO32;
      var u := s.(regs := s.regs[SP := s.regs[SP] + 4][i - 1 := v]);
      PopAll(u, top, init, mask, i - 1);
      PoppedIntoOther(s.regs[i - 1 := v], mask, init, i - 1, s.regs[SP] + 4);
      assert u.regs == s.regs[i - 1 := v][SP := s.regs[SP] + 4];
      assert init[..|init| - Count(mask, i - 1)] == g[..|g| - Count(mask, i)];
    }
  }

  /** Pops below A7 do not look at A7. */
  lemma {:induction false} PoppedIntoOther(regs: Registers, mask: u16, g: seq<nat>, i: nat, v: u64)
    requires i <= 15 && Count(mask, i) <= |g|
    ensures PoppedInto(regs[SP := v], mask, g, i) == PoppedInto(regs, mask, g, i)[SP := v]
    decreases i
  {
    hide InSet;
    if i > 0 {
      if !InSet(mask, i - 1) {
        PoppedIntoOther(regs, mask, g, i - 1, v);
      } else {
        var w := g[|g| - 1] % TWO32;
        PoppedIntoOther(regs[i - 1 := w], mask, g[..|g| - 1], i - 1, v);
        assert regs[SP := v][i - 1 := w] == regs[i - 1 := w][SP := v];
      }
    }
  }

  lemma CallStacks(s: State, top: nat, g: seq<nat>, f: Fetched)
    requires Holds(s, top, g) && OpOf(f.i) == Calls && Exec(s.(ip := f.next % TWO32), f.i).Some?
    ensures var t := Exec(s.(ip := f.next % TWO32), f.i).value;
      Holds(t, top, g + [f.next % TWO32]) && SameFrom(s.mem, t.mem, s.regs[SP])
  {
    hide WriteOperand, At, Encoded, FromLE;
    var s0 := s.(ip := f.next % TWO32);
    PushWord(s0, top, g, s0.ip);
  }

  lemma RetUnstacks(s: State, top: nat, g: seq<nat>)
    requires Holds(s, top, g) && g != []
    ensures var t := Ret(s);
      && t == Some(s.(regs := s.regs[SP := s.regs[SP] + 4], ip := g[|g| - 1] % TWO32))
      && Holds(t.value, top, g[..|g| - 1])
  {
    hide ReadOperand, At, Encoded;
    PopWord(s, top, g);
    Remainder(g[|g| - 1] % TWO32, TWO32, 0, g[|g| - 1] % TWO32);
  }

  lemma PushStacks(s: State, top: nat, g: seq<nat>, mask: u16)
    requires Holds(s, top, g) && Push(s, mask, PRE_DEC + A7, L).Some?
    ensures var t := Push(s, mask, PRE_DEC + A7, L).value;
      Holds(t, top, g + PushedWords(s.regs, mask, 0)) && SameFrom(s.mem, t.mem, s.regs[SP])
  {
    hide At, Encoded, PushFrom, PushedWords;
    PushAll(s, top, g, mask, 0);
  }

  lemma PopUnstacks(s: State, top: nat, g: seq<nat>, mask: u16)
    requires Holds(s, top, g) && Poppable(s.regs[SP], mask, g)
    ensures var t := Pop(s, mask, POST_INC + A7, L);
      && t.Some? && Holds(t.value, top, g[..|g| - Count(mask, 16)]) && t.value.mem == s.mem
      && t.value.regs == PoppedInto(s.regs, mask, g, 16)[SP := t.value.regs[SP]]
  {
    hide At, Encoded, PopBelow, InSet, Count;
    PopAll(s, top, g, mask, 16);
  }

  // ---- Pops into A7 ----

  lemma {:induction false} SpanIsCount(mask: u16, i: nat)
    ensures Span(mask, 0, i, L) == 4 * Count(mask, i) && Count(mask, i) <= i
    decreases i
  {
    hide InSet, Span;
    if i == 0 {
      SpanNone(mask, 0, L);
    } else {
      SpanIsCount(mask, i - 1);
      SpanLast(mask, i, L);
    }
  }

  /** A pop whose set contains A7 leaves A7 behind the words it takes if and only if the
      first word it takes is the address of the second. */
  lemma PopKeepsIff(s: State, top: nat, g: seq<nat>, mask: u16)
    requires Holds(s, top, g) && InSet(mask, SP) && Count(mask, 16) <= |g|
    requires Pop(s, mask, POST_INC + A7, L).Some?
    ensures Holds(Pop(s, mask, POST_INC + A7, L).value, top, g[..|g| - Count(mask, 16)])
        <==> g[|g| - 1] % TWO32 == s.regs[SP] + 4
  {
    hide At, Encoded, InSet, ReadOperand, Span;
    var w, n := g[|g| - 1] % TWO32, Count(mask, 15);
    if w == s.regs[SP] + 4 {
      PopUnstacks(s, top, g, mask);
    } else {
      PopWord(s, top, g);
      assert PostInc(SP) == POST_INC + A7;
      PopMovesPointer(s.(regs := s.regs[SP := s.regs[SP] + 4][SP := w]), mask, SP, L, 15);
      SpanIsCount(mask, 15);
      Remainder(w + 4 * n, TWO64, 0, w + 4 * n);
    }
  }

  /** The word a push stacks for A7 is the one that the pop of the same set asks for, as
      long as it fits 32 bits. */
  lemma {:induction false} PushedPointer(regs: Registers, mask: u16, i: nat)
    requires i <= 15 && InSet(mask, SP) && 4 * (Count(mask, 16) - Count(mask, i)) <= regs[SP] < TWO32
    ensures var ws := PushedWords(regs, mask, i);
      && |ws| == Count(mask, 16) - Count(mask, i) > 0
      && ws[|ws| - 1] % TWO32 == regs[SP] - 4 * |ws| + 4
    decreases 16 - i
  {
    hide InSet;
    if i == 15 {
      assert PushedWords(regs, mask, 15) == [regs[15]];
      Remainder(regs[SP], TWO32, 0, regs[SP]);
    } else if !InSet(mask, i) {
      PushedPointer(regs, mask, i + 1);
    } else {
      CountGrows(mask, i + 1);
      Remainder(regs[SP] - 4, TWO64, 0, regs[SP] - 4);
      PushedPointer(regs[SP := regs[SP] - 4], mask, i + 1);
    }
  }

  lemma {:induction false} CountGrows(mask: u16, i: nat)
    requires i <= 15 && InSet(mask, SP)
    ensures Count(mask, 16) - Count(mask, i) > 0
    decreases 16 - i
  {
    hide InSet;
    if i < 15 { CountGrows(mask, i + 1); }
  }

  lemma {:induction false} WordsCount(regs: Registers, mask: u16, i: nat)
    requires i <= 16
    ensures |PushedWords(regs, mask, i)| == Count(mask, 16) - Count(mask, i)
    decreases 16 - i
  {
    hide InSet;
    if i < 16 {
      WordsCount(regs, mask, i + 1);
      WordsCount(regs[SP := Sub64(regs[SP], 4)], mask, i + 1);
    }
  }

  /** So a pop of the set just pushed is always a pop of the words stacked, A7 or not. */
  lemma SavedIsPoppable(s: State, top: nat, g: seq<nat>, mask: u16)
    requires Holds(s, top, g) && Push(s, mask, PRE_DEC + A7, L).Some?
    ensures Poppable(Push(s, mask, PRE_DEC + A7, L).value.regs[SP], mask, g + PushedWords(s.regs, mask, 0))
  {
    hide At, Encoded, PushFrom, InSet, Push, PushedWords;
    var ws := PushedWords(s.regs, mask, 0);
    PushStacks(s, top, g, mask);
    WordsCount(s.regs, mask, 0);
    if InSet(mask, SP) {
      PushedPointer(s.regs, mask, 0);
      assert (g + ws)[|g + ws| - 1] == ws[|ws| - 1];
    }
  }

  lemma QuietHolds(s: State, top: nat, g: seq<nat>)
    requires Holds(s, top, g) && Quiet(s)
    ensures Holds(Step(s).value, top, g) && SameFrom(s.mem, Step(s).value.mem, s.regs[SP])
  {
    hide Step, Encoded, At;
    var t, a := Step(s).value, s.regs[SP];
    forall j | a <= j < |s.mem| ensures s.mem[j] == t.mem[j] {
      assert s.mem[a..][j - a] == t.mem[a..][j - a];
    }
    AtSame(s.mem, t.mem, a, a, Encoded(g));
  }

  /** Every step keeps the stack of words: calls stack the address of the next instruction,
      returns and pops take words off, pushes add registers. */
  lemma StepStacks(s: State, top: nat, g: seq<nat>)
    requires Holds(s, top, g) && Step(s).Some? && Stacked(s, g).Some?
    ensures Holds(Step(s).value, top, Stacked(s, g).value)
    ensures SameFrom(s.mem, Step(s).value.mem, s.regs[SP])
  {
    hide Decode, Holds, Quiet, Push, Pop, Ret, SameFrom, PushedWords, Count, InSet, PushFrom, PopBelow, ReadOperand,
         WriteOperand;
    var f := Decode(s.mem, s.ip).value;
    var s0 := s.(ip := f.next % TWO32);
    match OpOf(f.i)
    case Calls => CallStacks(s, top, g, f);
    case Returns => HoldsIp(s, s0, top, g); RetUnstacks(s0, top, g);
    case Pushes(mask) => HoldsIp(s, s0, top, g); PushStacks(s0, top, g, mask);
    case Pops(mask) => HoldsIp(s, s0, top, g); PopUnstacks(s0, top, g, mask);
    case Other => QuietHolds(s, top, g);
  }

  lemma HoldsIp(s: State, t: State, top: nat, g: seq<nat>)
    requires Holds(s, top, g) && t.regs == s.regs && t.mem == s.mem
    ensures Holds(t, top, g) && SameFrom(s.mem, t.mem, s.regs[SP])
  {
  }

  // ---- Runs ----

  /** The stack of words after `n` steps, `g` being the words before. */
  function StackedRun(s: State, g: seq<nat>, n: nat): Option<seq<nat>>
    decreases n
  {
    if n == 0 then Some(g)
    else if s.stopped || Step(s).None? || Stacked(s, g).None? then None
    else StackedRun(Step(s).value, Stacked(s, g).value, n - 1)
  }

  /** A run that takes all the words it stacks and no others: what happens between a call
      and its return. */
  predicate Nested(s: State, n: nat) { StackedRun(s, [], n) == Some([]) }

  /** Words stacked before make no difference to what a step does to those above. */
  lemma StackedAbove(s: State, g: seq<nat>, e: seq<nat>)
    requires Stacked(s, e).Some?
    ensures Stacked(s, g + e) == Some(g + Stacked(s, e).value)
  {
    hide Decode, Quiet, PushedWords, Count, InSet, Step;
    var f := Decode(s.mem, s.ip).value;
    match OpOf(f.i)
    case Calls => assert g + e + [f.next % TWO32] == g + (e + [f.next % TWO32]);
    case Returns => assert (g + e)[..|g + e| - 1] == g + e[..|e| - 1];
    case Pushes(mask) => assert g + e + PushedWords(s.regs, mask, 0) == g + (e + PushedWords(s.regs, mask, 0));
    case Pops(mask) =>
      assert (g + e)[..|g + e| - Count(mask, 16)] == g + e[..|e| - Count(mask, 16)];
      if InSet(mask, SP) { LastWord(g, e, mask); }
    case Other =>
  }

  lemma LastWord(g: seq<nat>, e: seq<nat>, mask: u16)
    requires InSet(mask, SP) && Count(mask, 16) <= |e|
    ensures |e| > 0 && (g + e)[|g + e| - 1] == e[|e| - 1]
  {
    hide InSet;
  }

  /** The invariant of every run: after any number of steps the memory from A7 to the top
      holds the words stacked and not yet taken. Words that the run does not take stay where
      they are, and so does the memory from the last of them up. */
  lemma {:induction false} RunStacks(s: State, top: nat, g: seq<nat>, e: seq<nat>, n: nat)
    requires Holds(s, top, g + e) && StackedRun(s, e, n).Some?
    ensures Steps(s, n).Some? && Holds(Steps(s, n).value, top, g + StackedRun(s, e, n).value)
    ensures SameFrom(s.mem, Steps(s, n).value.mem, top - 4 * |g|)
    decreases n
  {
    hide Step, Stacked, At, Encoded;
    if n > 0 {
      StackedAbove(s, g, e);
      StepStacks(s, top, g + e);
      RunStacks(Step(s).value, top, g, Stacked(s, e).value, n - 1);
    }
  }

  /** Said of all words. */
  lemma RunHolds(s: State, top: nat, g: seq<nat>, n: nat)
    requires Holds(s, top, g) && StackedRun(s, g, n).Some?
    ensures Steps(s, n).Some? && Holds(Steps(s, n).value, top, StackedRun(s, g, n).value)
  {
    hide Holds, StackedRun, Steps;
    assert [] + g == g && [] + StackedRun(s, g, n).value == StackedRun(s, g, n).value;
    RunStacks(s, top, [], g, n);
  }

  /** A nested run leaves the words below it, and the memory above them, as they were. */
  lemma NestedKeeps(s: State, top: nat, g: seq<nat>, n: nat)
    requires Holds(s, top, g) && Nested(s, n)
    ensures Steps(s, n).Some? && Holds(Steps(s, n).value, top, g)
    ensures SameFrom(s.mem, Steps(s, n).value.mem, top - 4 * |g|)
  {
    hide Holds, StackedRun, Steps, SameFrom;
    assert g + [] == g;
    RunStacks(s, top, g, [], n);
  }

  /** The instruction about to run is a return. */
  predicate AtReturn(s: State) {
    var f := Decode(s.mem, s.ip);
    !s.stopped && f.Some? && OpOf(f.value.i) == Returns
  }

  /** Every return that matches a call: when the run between them is nested, the return
      resumes at the byte after the call, with A7 as it was before it, and with the memory
      from there up unchanged. */
  lemma ReturnMatchesCall(s: State, top: nat, g: seq<nat>, f: Fetched, n: nat)
    requires Holds(s, top, g) && Decode(s.mem, s.ip) == Some(f) && OpOf(f.i) == Calls && !s.stopped && Step(s).Some?
    requires Nested(Step(s).value, n)
    requires var v := Steps(Step(s).value, n); v.Some? && AtReturn(v.value)
    ensures var u := Steps(s, n + 2);
      && u.Some? && u.value.ip == f.next % TWO32 && u.value.regs[SP] == s.regs[SP]
      && SameFrom(s.mem, u.value.mem, s.regs[SP]) && Holds(u.value, top, g)
  {
    hide Decode, At, Encoded, ReadOperand, WriteOperand, Push, Pop, Quiet, InSet, Branch, CallTo, CallM;
    var ret := f.next % TWO32;
    var t := Step(s).value;
    StepStacks(s, top, g);
    NestedKeeps(t, top, g + [ret], n);
    var v := Steps(t, n).value;
    var r := Decode(v.mem, v.ip).value;
    var v0 := v.(ip := r.next % TWO32);
    HoldsIp(v, v0, top, g + [ret]);
    RetUnstacks(v0, top, g + [ret]);
    StepsAdd(t, n, 1);
    assert (g + [ret])[..|g|] == g;
  }

  /** The same for every call that a run comes to, whatever it has stacked by then. */
  lemma ReturnMatchesCallInRun(s0: State, top: nat, g0: seq<nat>, m: nat, f: Fetched, n: nat)
    requires Holds(s0, top, g0) && StackedRun(s0, g0, m).Some?
    requires var s := Steps(s0, m);
      && s.Some? && Decode(s.value.mem, s.value.ip) == Some(f) && OpOf(f.i) == Calls && !s.value.stopped
      && Step(s.value).Some? && Nested(Step(s.value).value, n)
      && var v := Steps(Step(s.value).value, n);
      v.Some? && AtReturn(v.value)
    ensures var s, u := Steps(s0, m).value, Steps(s0, m + (n + 2));
      && u.Some? && u.value.ip == f.next % TWO32 && u.value.regs[SP] == s.regs[SP]
      && Holds(u.value, top, StackedRun(s0, g0, m).value)
  {
    hide Decode, Step, Holds, StackedRun, Nested, AtReturn, OpOf, SameFrom;
    RunHolds(s0, top, g0, m);
    ReturnMatchesCall(Steps(s0, m).value, top, StackedRun(s0, g0, m).value, f, n);
    StepsAdd(s0, m, n + 2);
  }
}
