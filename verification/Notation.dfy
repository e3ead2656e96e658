/** The assembler's notation, instruction by instruction: which lines of text are read as which
    statements. What the disassembler prints is one way of writing them. */
module Notation {
  import opened Words
  import opened Isa
  import opened Symbols
  import opened Assembly
  import opened Opcodes
  import opened SourceText
  import Immediate
  import Operands
  import RegSet
  import Lexer

  // ---- What is written for a statement ----

  predicate WidthIs(t: string, w: Width) {
    (t == "" && w == B) || (t == "b" && w == B) || (t == "w" && w == W) || (t == "l" && w == L) || (t == "x" && w == X)
  }

  /** Operands: `Operands.Spelled`, `Immediate.PrefixedValue` and its neighbours, and
      `RegSet.ParseIsUnion` say which texts these are. */
  predicate RegisterIs(t: string, r: byte) { Operands.Parse(t) == r }

  predicate NumberIs(t: string, v: nat, w: Width) { Immediate.Parse(t) % w.Modulus() == v }

  predicate SetIs(t: string, mask: nat) { RegSet.Parse(t) % 0x1_0000 == mask }

  /** An immediate or a target comes before the register it goes to, the set pushed before the
      stack pointer, and the set popped behind it. */
  predicate Denotes(width: string, args: seq<string>, st: Stmt) {
    match st
    case Jump(op, l) => IsOffset(op) && width == "" && l != "" && args == [l]
    case ReferTo(l, r) => width == "" && l != "" && |args| == 2 && args[0] == l && RegisterIs(args[1], r)
    case Code(i) => WellFormed(i) && CodeDenotes(width, args, i)
    case _ => false
  }

  predicate CodeDenotes(width: string, args: seq<string>, i: Instr) {
    match i
    case NoArg(_) => width == "" && args == []
    case Imm32(_, v) => width == "" && |args| == 1 && NumberIs(args[0], v, L)
    case OneReg(_, r) => width == "" && |args| == 1 && RegisterIs(args[0], r)
    case OneRegW(_, w, r) => WidthIs(width, w) && |args| == 1 && RegisterIs(args[0], r)
    case Alloc(v, r) => width == "" && |args| == 2 && NumberIs(args[0], v, L) && RegisterIs(args[1], r)
    case ImmReg(_, w, v, r) => WidthIs(width, w) && |args| == 2 && NumberIs(args[0], v, w) && RegisterIs(args[1], r)
    case ShiftImm(_, w, v, r) => WidthIs(width, w) && |args| == 2 && NumberIs(args[0], v, w) && RegisterIs(args[1], r)
    case TwoReg(_, w, ra, rb) => WidthIs(width, w) && |args| == 2 && RegisterIs(args[0], ra) && RegisterIs(args[1], rb)
    case RegSet(op, w, mask, r) =>
      && WidthIs(width, w) && |args| == 2
      && if op == PUSH then SetIs(args[0], mask) && RegisterIs(args[1], r)
         else RegisterIs(args[0], r) && SetIs(args[1], mask)
    case DivImm(w, v, ra, rb) =>
      WidthIs(width, w) && |args| == 3 && NumberIs(args[0], v, w) && RegisterIs(args[1], ra) && RegisterIs(args[2], rb)
    case DivReg(w, ra, rb, rc) =>
      && WidthIs(width, w) && |args| == 3
      && RegisterIs(args[0], ra) && RegisterIs(args[1], rb) && RegisterIs(args[2], rc)
    case _ => false
  }

  function OpcodeFor(st: Stmt): byte {
    match st
    case Jump(op, _) => op
    case ReferTo(_, _) => REFER
    case Code(ImmReg(op, _, _, _)) => op
    case Code(ShiftImm(op, _, _, _)) => op
    case Code(i) => OpcodeIn(i)
    case _ => NOP
  }

  lemma WidthIsNamed(t: string, w: Width)
    requires WidthIs(t, w)
    ensures WidthNamed(t) == Some(w)
  {
  }

  lemma DenotedNamed(width: string, args: seq<string>, st: Stmt)
    requires Denotes(width, args, st)
    ensures Get(Table(), Mnemonic(OpcodeFor(st))) == Found(OpcodeFor(st))
  {
    hide Mnemonic, IndexOf, Table, WidthIs, RegisterIs, NumberIs, SetIs;
    ShapesNamed(OpcodeFor(st));
    MnemonicFound(OpcodeFor(st));
  }

  lemma DenotedIsRead(width: string, args: seq<string>, st: Stmt)
    requires Denotes(width, args, st)
    ensures Statement(OpcodeFor(st), width, args) == Some(st)
  {
    hide WidthIs, WidthNamed, Operands.Parse, Immediate.Parse, RegSet.Parse;
    match st
    case Code(i) => CodeIsRead(width, args, i);
    case _ => NoWidth();
  }

  lemma CodeIsRead(width: string, args: seq<string>, i: Instr)
    requires WellFormed(i) && CodeDenotes(width, args, i)
    ensures Statement(OpcodeFor(Code(i)), width, args) == Some(Code(i))
  {
    hide WidthIs, WidthNamed, RegisterIs, NumberIs, SetIs, Statement;
    match i {
      case NoArg(_) => PlainIsRead(width, args, i);
      case Imm32(_, _) => PlainIsRead(width, args, i);
      case OneReg(_, _) => PlainIsRead(width, args, i);
      case Alloc(_, _) => PlainIsRead(width, args, i);
      case OneRegW(_, w, _) => WidthIsNamed(width, w); WideIsRead(width, args, i);
      case ImmReg(_, w, _, _) => WidthIsNamed(width, w); WideIsRead(width, args, i);
      case ShiftImm(_, w, _, _) => WidthIsNamed(width, w); WideIsRead(width, args, i);
      case TwoReg(_, w, _, _) => WidthIsNamed(width, w); WideIsRead(width, args, i);
      case RegSet(_, w, _, _) => WidthIsNamed(width, w); LongIsRead(width, args, i);
      case DivImm(w, _, _, _) => WidthIsNamed(width, w); LongIsRead(width, args, i);
      case DivReg(w, _, _, _) => WidthIsNamed(width, w); LongIsRead(width, args, i);
      case _ =>
    }
  }

  lemma PlainIsRead(width: string, args: seq<string>, i: Instr)
    requires (i.NoArg? || i.Imm32? || i.OneReg? || i.Alloc?) && WellFormed(i) && CodeDenotes(width, args, i)
    ensures Statement(OpcodeFor(Code(i)), width, args) == Some(Code(i))
  {
    hide WidthNamed, Operands.Parse, Immediate.Parse, RegSet.Parse;
    NoWidth();
  }

  lemma WideIsRead(width: string, args: seq<string>, i: Instr)
    requires (i.OneRegW? || i.ImmReg? || i.ShiftImm? || i.TwoReg?) && WellFormed(i) && CodeDenotes(width, args, i)
    requires WidthNamed(width) == Some(i.w)
    ensures Statement(OpcodeFor(Code(i)), width, args) == Some(Code(i))
  {
    hide WidthIs, WidthNamed, Operands.Parse, Immediate.Parse, RegSet.Parse;
  }

  lemma LongIsRead(width: string, args: seq<string>, i: Instr)
    requires (i.RegSet? || i.DivImm? || i.DivReg?) && WellFormed(i) && CodeDenotes(width, args, i)
    requires WidthNamed(width) == Some(i.w)
    ensures Statement(OpcodeFor(Code(i)), width, args) == Some(Code(i))
  {
    hide WidthIs, WidthNamed, Operands.Parse, Immediate.Parse, RegSet.Parse;
  }

  // ---- Lines ----

  /** The lexer's pieces, in small letters. */
  lemma PiecesOfSource(src: Lexer.Source, lead: string, gaps: seq<string>, tail: string)
    requires Lexer.SourceOk(src) && Lexer.GapsOk(src, lead, gaps, tail) && src.opcode != ""
    ensures Pieces(Lexer.Text(src, lead, gaps, tail))
         == Lexer.Source(Lexer.Lower(src.name), Lexer.Lower(src.opcode), Lexer.Lower(src.width),
                         Lexer.LowerAll(src.args), Lexer.Lower(src.comment))
  {
    hide Lexer.Text, Lexer.Parse, Lexer.SourceOk, Lexer.GapsOk, Lexer.InOrder, Lexer.Lower, Lexer.LowerAll,
         Lexer.GetSegment, Lexer.ArgsOf;
    Lexer.ParseRecovers(src, lead, gaps, tail);
  }

  /** Whatever the label, the comment, the white space and the case of the letters: a line whose
      words denote a statement is read as that statement. */
  lemma NotationReads(src: Lexer.Source, lead: string, gaps: seq<string>, tail: string, st: Stmt)
    requires Lexer.SourceOk(src) && Lexer.GapsOk(src, lead, gaps, tail) && src.opcode != ""
    requires Lexer.Lower(src.opcode) == Mnemonic(OpcodeFor(st))
    requires Denotes(Lexer.Lower(src.width), Lexer.LowerAll(src.args), st)
    ensures Read(Lexer.Text(src, lead, gaps, tail))
         == Some(Line(if src.name == "" then None else Some(Lexer.Lower(src.name)), Some(st)))
  {
    hide Lexer.Text, Lexer.SourceOk, Lexer.GapsOk, Lexer.LowerAll, Mnemonic, Table, Denotes, Statement, Pieces,
         OpcodeFor;
    PiecesOfSource(src, lead, gaps, tail);
    DenotedNamed(Lexer.Lower(src.width), Lexer.LowerAll(src.args), st);
    DenotedIsRead(Lexer.Lower(src.width), Lexer.LowerAll(src.args), st);
  }

  // ---- The load group ----

  lemma {:induction false} LowerValue(s: string, base: nat)
    requires Immediate.IsNumeral(s, base)
    ensures Immediate.IsNumeral(Lexer.Lower(s), base)
    ensures Immediate.Value(Lexer.Lower(s), base) == Immediate.Value(s, base)
    decreases |s|
  {
    assert forall i :: 0 <= i < |s| ==> Immediate.Worth(Lexer.LowerChar(s[i])) == Immediate.Worth(s[i]);
    if s != "" {
      var front := s[..|s| - 1];
      LowerValue(front, base);
      assert Lexer.Lower(s)[..|s| - 1] == Lexer.Lower(front);
    }
  }

  /** The ways to write `v`: behind any of the prefixes, in letters of either case, with as many
      zeros in front as one likes; a plain numeral without such zeros stops at 2^63 - 1. */
  ghost predicate Spells(t: string, v: u64) {
    exists prefix, digits :: t == prefix + digits && SpellsAs(prefix, digits, v)
  }

  function BaseOf(prefix: string): nat {
    if prefix in {"#0x", "#0X"} then 16 else if prefix in {"#0b", "#0B"} then 2 else 10
  }

  predicate SpellsAs(prefix: string, digits: string, v: u64) {
    && digits != ""
    && var base := BaseOf(prefix);
    && Immediate.IsNumeral(digits, base) && Immediate.Value(digits, base) == v
    && (prefix in {"#0x", "#0X", "#0b", "#0B", "#0d", "#0D"}
        || (prefix == "#" && (digits[0] == '0' || v <= Immediate.MAX_SIGNED)))
  }

  lemma LowerJoin(a: string, b: string)
    ensures Lexer.Lower(a + b) == Lexer.Lower(a) + Lexer.Lower(b)
  {
  }

  lemma LowerPrefix()
    ensures Lexer.Lower("#0x") == Lexer.Lower("#0X") == "#0x" && Lexer.Lower("#0b") == Lexer.Lower("#0B") == "#0b"
    ensures Lexer.Lower("#0d") == Lexer.Lower("#0D") == "#0d" && Lexer.Lower("#") == "#"
  {
  }

  lemma SpelledValue(t: string, v: u64)
    requires Spells(t, v)
    ensures Immediate.Parse(Lexer.Lower(t)) == v
  {
    hide Immediate.Parse, Immediate.Value, Immediate.Worth, Lexer.Lower;
    var prefix, digits :| t == prefix + digits && SpellsAs(prefix, digits, v);
    var base := BaseOf(prefix);
    var low := Lexer.Lower(digits);
    LowerValue(digits, base);
    LowerJoin(prefix, digits);
    LowerPrefix();
    if prefix == "#" {
      assert low[0] == '0' <==> digits[0] == '0' by { LowerZero(digits); }
      Immediate.PlainValue(low);
    } else {
      Immediate.PrefixedValue(low, Lexer.Lower(prefix), base);
    }
  }

  lemma LowerZero(s: string)
    requires s != ""
    ensures Lexer.Lower(s)[0] == '0' <==> s[0] == '0'
  {
  }

  /** Instructions with an immediate and a register, read from any of those spellings, with or
      without a label. */
  lemma ImmediateReads(src: Lexer.Source, lead: string, gaps: seq<string>, tail: string, i: Instr)
    requires (i.ImmReg? || i.ShiftImm?) && WellFormed(i) && i.r < 64
    requires Lexer.SourceOk(src) && Lexer.GapsOk(src, lead, gaps, tail)
    requires Lexer.Lower(src.opcode) == Mnemonic(i.op) && WidthIs(Lexer.Lower(src.width), i.w)
    requires |src.args| == 2 && Spells(src.args[0], i.imm) && Lexer.Lower(src.args[1]) == Operands.Print(i.r)
    ensures Read(Lexer.Text(src, lead, gaps, tail))
         == Some(Line(if src.name == "" then None else Some(Lexer.Lower(src.name)), Some(Code(i))))
  {
    hide Lexer.Text, Lexer.GapsOk, Lexer.Lower, Lexer.Plain, Mnemonic, WidthIs, Immediate.Parse, Operands.Parse,
         Operands.Print, Spells, Pieces, ReadParts;
    SpelledValue(src.args[0], i.imm);
    Remainder(i.imm, i.w.Modulus(), 0, i.imm);
    Operands.RoundTripIff(i.r);
    NotationReads(src, lead, gaps, tail, Code(i));
  }

  /** A quoted capital reaches the conversion as a small letter. */
  lemma CapitalQuoted(c: char, rest: string)
    requires 'A' <= c <= 'Z'
    ensures Immediate.Parse(Lexer.Lower("#'" + [c] + rest)) == c as nat + 32
  {
    hide Immediate.Parse;
    var low := Lexer.Lower(rest);
    assert Lexer.Lower("#'" + [c] + rest) == "#'" + [c - 'A' + 'a'] + low;
    Immediate.QuotedValue(c - 'A' + 'a', low);
  }
}
