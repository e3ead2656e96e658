/** Counted loops. `dec` and a conditional branch close the two loops that programs use:
    a body followed by `dec r`, `bcb end`, `bra loop`, and one followed by `dec r`,
    `bne loop`. */
module Loops {
  import opened Words
  import opened Isa
  import opened Assembly
  import opened Backpatch
  import opened Machine
  import opened Landing

  /** Counter register `k`, read at width `w`; `close` is the conditional branch. The body
      starts at `head`, `dec` is the address after it, `out` where the loop ends. */
  datatype Loop = Loop(close: byte, w: Width, k: nat, head: u32, dec: u32, out: u32) {
    ghost predicate Ok() { k < 16 && (close == BCB || close == BNE) }

    /** The counter value at which the loop ends. */
    function Last(): nat { if close == BCB then 0 else 1 }
  }

  /** What closes the loop, as the machine fetches it. */
  ghost predicate Closes(m: seq<byte>, l: Loop)
    requires l.Ok()
  {
    var a, b, c := Decode(m, l.dec), Decode(m, l.dec + 2), Decode(m, l.dec + 7);
    && l.dec + 12 < TWO32
    && a == Some(Fetched(OneRegW(DEC, l.w, l.k), l.dec + 2))
    && b.Some? && b.value.next == l.dec + 7 && b.value.i.Offset? && b.value.i.op == l.close
    && var target := (l.dec + 7 + b.value.i.offset + 4) % TWO32;
    if l.close == BNE then target == l.head && l.out == l.dec + 7
    else
      && target == l.out
      && c.Some? && c.value.next == l.dec + 12 && c.value.i.Offset? && c.value.i.op == BRA
      && (l.dec + 12 + c.value.i.offset + 4) % TWO32 == l.head
  }

  function Counter(s: State, l: Loop): (c: u64)
    requires l.k < 16
    ensures c < l.w.Modulus()
  {
    s.regs[l.k] % l.w.Modulus()
  }

  /** The state after `dec` with counter value `c`, and the branch to `ip`. */
  function Counted(s: State, l: Loop, c: u64, ip: u32): State
    requires l.k < 16
  {
    s.(regs := s.regs[l.k := Sub64(c, 1)], cond := CLEAR.(zero := c == 1, carry := c == 0), ip := ip)
  }

  /** How many of the `n` states from `s` on, one step apart, are at address `a`. */
  function Visits(s: State, n: nat, a: u32): nat
    decreases n
  {
    if n == 0 then 0 else
    (if s.ip == a then 1 else 0) + if Step(s).Some? then Visits(Step(s).value, n - 1, a) else 0
  }

  lemma {:induction false} VisitsAdd(s: State, m: nat, n: nat, a: u32)
    requires Steps(s, m).Some?
    ensures Visits(s, m + n, a) == Visits(s, m, a) + Visits(Steps(s, m).value, n, a)
    decreases m
  {
    hide Step;
    if m > 0 { VisitsAdd(Step(s).value, m - 1, n, a); }
  }

  lemma MinusOne(c: u64)
    ensures Sub64(c, 1) == if c == 0 then TWO64 - 1 else c - 1
  {
    if c > 0 { Remainder(c - 1, TWO64, 0, c - 1); } else { Remainder(c - 1, TWO64, -1, TWO64 - 1); }
  }

  lemma DecDirect(s: State, w: Width, k: nat, c: u64)
    requires k < 16 && c == s.regs[k] % w.Modulus()
    ensures Dec(s, w, k) == Some(s.(regs := s.regs[k := Sub64(c, 1)], cond := CLEAR.(zero := c == 1, carry := c == 0)))
  {
    hide WriteMemory, ReadMemory;
    MinusOne(c);
    assert Mode(k) == DIRECT && Reg(k) == k;
  }

  lemma DecStep(s: State, l: Loop)
    requires l.Ok() && s.ip == l.dec && Closes(s.mem, l)
    ensures Step(s) == Some(Counted(s, l, Counter(s, l), l.dec + 2))
  {
    hide Decode, Dec, Width.Modulus;
    DecDirect(s.(ip := l.dec + 2), l.w, l.k, Counter(s, l));
  }

  lemma JumpStep(s: State, f: Fetched)
    requires Decode(s.mem, s.ip) == Some(f) && f.i.Offset? && f.i.op != CALL && f.next < TWO32
    ensures Step(s) == Some(s.(ip := if Taken(f.i.op, s.cond) then (f.next + f.i.offset + 4) % TWO32 else f.next))
  {
    hide Decode, WriteOperand;
  }

  /** One pass through the closing instructions: out with the last counter value, back to
      the body with any other. */
  lemma CloseRound(s: State, l: Loop)
    requires l.Ok() && s.ip == l.dec && !s.stopped && Closes(s.mem, l)
    ensures var c := Counter(s, l);
      var n := if l.close == BNE || c == 0 then 2 else 3;
      && Steps(s, n) == Some(Counted(s, l, c, if c == l.Last() then l.out else l.head))
      && Visits(s, n, l.dec) == 1
  {
    hide Decode, Step;
    var c := Counter(s, l);
    DecStep(s, l);
    var s1 := Counted(s, l, c, l.dec + 2);
    JumpStep(s1, Decode(s.mem, l.dec + 2).value);
    var s2 := Step(s1).value;
    assert Steps(s, 2) == Some(s2);
    if l.close == BCB && c != 0 {
      JumpStep(s2, Decode(s.mem, l.dec + 7).value);
      assert Steps(s, 3) == Step(s2);
    }
  }

  /** Where the machine is when the body has come to its end, `n` steps after its start,
      without having been there before: the counter still reads the same, the closing
      instructions are still there, and `inv` holds again when the body starts anew. */
  ghost predicate BodyRun(l: Loop, inv: State -> bool, s: State, n: nat)
    requires l.Ok()
  {
    Steps(s, n).Some? && Visits(s, n, l.dec) == 0 &&
    var t, c := Steps(s, n).value, Counter(s, l);
    && t.ip == l.dec && !t.stopped && Counter(t, l) == c && Closes(t.mem, l)
    && (c != l.Last() ==> inv(Counted(t, l, c, l.head)))
  }

  /** Any body that keeps the counter and comes to its end does so from every state that
      satisfies `inv`. */
  ghost predicate BodyOk(l: Loop, inv: State -> bool, len: State -> nat)
    requires l.Ok()
  {
    forall s: State :: s.ip == l.head && inv(s) ==> BodyRun(l, inv, s, len(s))
  }

  /** How often the body runs: `bcb` leaves after the run with counter 0, `bne` after the
      run with counter 1, which from 0 takes the whole way round. */
  function Rounds(l: Loop, c: nat): nat {
    if l.close == BCB then c + 1 else if c == 0 then l.w.Modulus() else c
  }

  lemma {:induction false} RunLoop(l: Loop, inv: State -> bool, len: State -> nat, s: State) returns (n: nat)
    requires l.Ok() && BodyOk(l, inv, len) && s.ip == l.head && inv(s)
    ensures Ends(l, s, n, Rounds(l, Counter(s, l)))
    decreases Rounds(l, Counter(s, l))
  {
    hide Step, Steps, Visits, Closes;
    assert BodyRun(l, inv, s, len(s));
    var c := Counter(s, l);
    n := OneRound(l, inv, s, len(s));
    if c != l.Last() {
      var u := Steps(s, n).value;
      CounterAfter(Steps(s, len(s)).value, l, c);
      var more := RunLoop(l, inv, len, u);
      StepsAdd(s, n, more);
      VisitsAdd(s, n, more, l.dec);
      n := n + more;
    }
  }

  /** The body once and the closing instructions. */
  lemma OneRound(l: Loop, inv: State -> bool, s: State, len: nat) returns (n: nat)
    requires l.Ok() && BodyRun(l, inv, s, len)
    ensures var c := Counter(s, l);
      && Steps(s, n) == Some(Counted(Steps(s, len).value, l, c, if c == l.Last() then l.out else l.head))
      && Visits(s, n, l.dec) == 1
  {
    hide Step, Steps, Visits, Closes, Counted;
    var t, c := Steps(s, len).value, Counter(s, l);
    var close := if l.close == BNE || c == 0 then 2 else 3;
    CloseRound(t, l);
    StepsAdd(s, len, close);
    VisitsAdd(s, len, close, l.dec);
    n := len + close;
  }

  lemma CounterAfter(t: State, l: Loop, c: u64)
    requires l.Ok() && c < l.w.Modulus()
    ensures Counter(Counted(t, l, c, l.head), l) == if c == 0 then l.w.Modulus() - 1 else c - 1
  {
    WidthModulus(l.w);
    MinusOne(c);
    if c > 0 { Remainder(c - 1, l.w.Modulus(), 0, c - 1); }
  }

  /** After `n` steps the loop has been left with the counter at the end of its count,
      having come to the end of the body, where `dec` is, `rounds` times. */
  ghost predicate Ends(l: Loop, s: State, n: nat, rounds: nat)
    requires l.Ok()
  {
    && Steps(s, n).Some? && Steps(s, n).value.ip == l.out
    && Steps(s, n).value.regs[l.k] == Sub64(l.Last(), 1)
    && Visits(s, n, l.dec) == rounds
  }

  /** The loop runs its body exactly `Rounds` times and is then left: with `bcb` one time
      more than the counter says, with `bne` as often as a counter above zero says. */
  lemma LoopCounts(l: Loop, inv: State -> bool, len: State -> nat, s: State)
    requires l.Ok() && BodyOk(l, inv, len) && s.ip == l.head && inv(s)
    ensures exists n :: Ends(l, s, n, Rounds(l, Counter(s, l)))
  {
    var n := RunLoop(l, inv, len, s);
  }

  /** The loop without a body, a delay loop, needs nothing but its own code. */
  lemma DelayLoop(l: Loop, s: State)
    requires l.Ok() && l.head == l.dec && s.ip == l.head && !s.stopped && Closes(s.mem, l)
    ensures exists n :: Ends(l, s, n, Rounds(l, Counter(s, l)))
  {
    hide Closes;
    var inv := (t: State) => t.mem == s.mem && !t.stopped;
    LoopCounts(l, inv, t => 0, s);
  }

  // ---- The loop as a program ----

  /** Lines `i` on are the closing instructions, line `h` carries the label of the body and,
      for `bcb`, line `e` the label where the loop ends. */
  ghost predicate LoopLines(prog: seq<Line>, close: byte, w: Width, k: nat, i: nat, h: nat, e: nat) {
    && k < 16 && i + 2 < |prog| && h < |prog| && e < |prog|
    && prog[i].stmt == Some(Code(OneRegW(DEC, w, k)))
    && prog[h].name.Some? && prog[e].name.Some?
    && if close == BNE then prog[i + 1].stmt == Some(Jump(BNE, prog[h].name.value)) && e == i + 2
       else
         && close == BCB
         && prog[i + 1].stmt == Some(Jump(BCB, prog[e].name.value))
         && prog[i + 2].stmt == Some(Jump(BRA, prog[h].name.value))
  }

  lemma JumpFetched(prog: seq<Line>, m: seq<byte>, base: nat, k: nat, d: nat)
    requires WellDefined(prog) && Loaded(m, base, Reference(prog))
    requires k < |prog| && d < |prog| && prog[k].stmt.Some? && prog[k].stmt.value.Jump?
    requires prog[d].name == Some(prog[k].stmt.value.target)
    requires AddressOf(prog, d, base) < TWO32
    ensures var a := AddressOf(prog, k, base); var f := Decode(m, a);
      && f.Some? && f.value.next == a + 5 && f.value.i.Offset? && f.value.i.op == prog[k].stmt.value.op
      && (a + 5 + f.value.i.offset + 4) % TWO32 == AddressOf(prog, d, base)
    ensures AddressOf(prog, k + 1, base) == AddressOf(prog, k, base) + 5
  {
    hide ToLE, FromLE, Encode, Defs, Decode, Loaded, Reference, Rel, Start, UniqueLabels, Recognised, TargetsIn;
    LoadedStmt(prog, m, base, k);
    RefOffset(prog, m, base, k, d);
    StartNext(prog, k, 0);
    var st := prog[k].stmt.value;
    DecodeOffset(m, AddressOf(prog, k, base), st.op,
                 Rel(Defs(prog, |HEADER|)[st.target], |HEADER| + Start(prog, k, 0) + 1));
  }

  /** An assembled loop, wherever it is loaded, is closed by what `LoopCounts` is about. */
  lemma AssembledLoop(prog: seq<Line>, m: seq<byte>, base: nat, close: byte, w: Width, k: nat, i: nat, h: nat, e: nat)
    requires WellDefined(prog) && Loaded(m, base, Reference(prog)) && LoopLines(prog, close, w, k, i, h, e)
    requires AddressOf(prog, i, base) + 12 < TWO32
    requires AddressOf(prog, h, base) < TWO32 && AddressOf(prog, e, base) < TWO32
    ensures var l := Loop(close, w, k, AddressOf(prog, h, base), AddressOf(prog, i, base), AddressOf(prog, e, base));
      l.Ok() && Closes(m, l)
  {
    hide ToLE, FromLE, Encode, Defs, Decode, Loaded, Reference, Rel, Start, UniqueLabels, Recognised, TargetsIn;
    CodeFetched(prog, m, base, i);
    DecodeSize(m, AddressOf(prog, i, base));
    JumpFetched(prog, m, base, i + 1, if close == BNE then h else e);
    if close == BCB { JumpFetched(prog, m, base, i + 2, h); }
  }
}
