/** Listings as text: what the disassembler prints for a line, and what the assembler reads
    from a line of text. */
module SourceText {
  import opened Words
  import opened Isa
  import opened Symbols
  import opened Assembly
  import opened Opcodes
  import Immediate
  import Operands
  import RegSet
  import Lexer
  import Rotate

  // ---- Reading ----

  function WidthNamed(s: string): Option<Width> {
    if s == "" || s == "b" then Some(B)
    else if s == "w" then Some(W)
    else if s == "l" then Some(L)
    else if s == "x" then Some(X)
    else None
  }

  function Arg(args: seq<string>, i: nat): string { if i < |args| then args[i] else "" }

  function Register(s: string): byte { Operands.Parse(s) % 256 }

  function Number(s: string, w: Width): u64 { Immediate.Parse(s) % w.Modulus() }

  function Mask(s: string): u16 { RegSet.Parse(s) % 0x1_0000 }

  /** The statement for an opcode and its arguments; None for what is not modelled: data,
      floating-point immediates, unknown widths, a width where the opcode has none, and
      references without a label. */
  function Statement(op: byte, width: string, args: seq<string>): Option<Stmt> {
    var w := WidthNamed(width);
    var a, b, c := Arg(args, 0), Arg(args, 1), Arg(args, 2);
    if w.None? then None
    else if IsOneRegW(op) then Some(Code(OneRegW(op, w.value, Register(a))))
    else if IsImmReg(op) then Some(Code(ImmReg(op, w.value, Number(a, w.value), Register(b))))
    else if IsShiftImm(op) then Some(Code(ShiftImm(op, w.value, Number(a, w.value), Register(b))))
    else if IsTwoReg(op) then Some(Code(TwoReg(op, w.value, Register(a), Register(b))))
    else if op == PUSH then Some(Code(Isa.RegSet(op, w.value, Mask(a), Register(b))))
    else if op == POP then Some(Code(Isa.RegSet(op, w.value, Mask(b), Register(a))))
    else if op == DIVI then Some(Code(DivImm(w.value, Number(a, w.value), Register(b), Register(c))))
    else if op == DIV then Some(Code(DivReg(w.value, Register(a), Register(b), Register(c))))
    else if width != "" then None
    else if IsNoArg(op) then Some(Code(NoArg(op)))
    else if IsOffset(op) then if a == "" then None else Some(Jump(op, a))
    else if IsImm32(op) then Some(Code(Imm32(op, Number(a, L))))
    else if IsOneReg(op) then Some(Code(OneReg(op, Register(a))))
    else if op == REFER then if a == "" then None else Some(ReferTo(a, Register(b)))
    else if op == ALLOC then Some(Code(Alloc(Number(a, L), Register(b))))
    else None
  }

  /** A name that only begins an opcode's name is found, with the value 0. */
  function ReadParts(src: Lexer.Source): Option<Line> {
    var name := if src.name == "" then None else Some(src.name);
    if src.opcode == "" then Some(Line(name, None)) else
    match Get(Table(), src.opcode)
    case Absent => Some(Line(name, Some(Unknown)))
    case Interior =>
      var s := Statement(0, src.width, src.args);
      if s.None? then None else Some(Line(name, s))
    case Found(v) =>
      var s := if v < 256 then Statement(v, src.width, src.args) else None;
      if s.None? then None else Some(Line(name, s))
  }

  /** The pieces that the lexer finds in a line. */
  function Pieces(text: string): Lexer.Source {
    var o := Lexer.Parse(text);
    Lexer.Source(Lexer.GetSegment(text, o.name), Lexer.GetSegment(text, o.opcode), Lexer.GetSegment(text, o.width),
                 Lexer.ArgsOf(text, o), Lexer.GetSegment(text, o.comment))
  }

  function Read(text: string): Option<Line> { ReadParts(Pieces(text)) }

  /** Whatever its arguments, such a word is read as `nop`. */
  lemma BeginningReadsAsNop(src: Lexer.Source)
    requires src.opcode != "" && src.width == "" && Get(Table(), src.opcode) == Interior
    ensures ReadParts(src) == Some(Line(if src.name == "" then None else Some(src.name), Some(Code(NoArg(NOP)))))
  {
    hide Table;
  }

  /** `lo`, for one. */
  lemma LoReadsAsNop(args: seq<string>)
    ensures ReadParts(Lexer.Source("", "lo", "", args, "")) == Some(Line(None, Some(Code(NoArg(NOP)))))
  {
    hide Table;
    LoIsABeginning();
    BeginningReadsAsNop(Lexer.Source("", "lo", "", args, ""));
  }

  // ---- Printing ----

  function WidthName(w: Width): string {
    match w
    case B => "b"
    case W => "w"
    case L => "l"
    case X => "x"
  }

  /** Opcode, width and arguments as the disassembler prints them. */
  function Parts(s: Stmt): (string, string, seq<string>) {
    match s
    case Jump(op, l) => (Mnemonic(op), "", [l])
    case ReferTo(l, r) => (Mnemonic(REFER), "", [l, Operands.Print(r)])
    case Code(i) => CodeParts(i)
    case _ => ("", "", [])
  }

  function CodeParts(i: Instr): (string, string, seq<string>) {
    match i
    case NoArg(op) => (Mnemonic(op), "", [])
    case Imm32(op, v) => (Mnemonic(op), "", [Immediate.Print(v)])
    case OneReg(op, r) => (Mnemonic(op), "", [Operands.Print(r)])
    case OneRegW(op, w, r) => (Mnemonic(op), WidthName(w), [Operands.Print(r)])
    case Alloc(v, r) => (Mnemonic(ALLOC), "", [Immediate.Print(v), Operands.Print(r)])
    case TwoReg(op, w, ra, rb) => (Mnemonic(op), WidthName(w), [Operands.Print(ra), Operands.Print(rb)])
    case RegSet(op, w, mask, r) =>
      (Mnemonic(op), WidthName(w),
       if op == PUSH then [RegSet.Print(mask), Operands.Print(r)] else [Operands.Print(r), RegSet.Print(mask)])
    case DivImm(w, v, ra, rb) =>
      (Mnemonic(DIVI), WidthName(w), [Immediate.Print(v), Operands.Print(ra), Operands.Print(rb)])
    case DivReg(w, ra, rb, rc) =>
      (Mnemonic(DIV), WidthName(w), [Operands.Print(ra), Operands.Print(rb), Operands.Print(rc)])
    case _ => ("", "", [])
  }

  function SourceOf(l: Line): Lexer.Source
    requires l.stmt.Some?
  {
    var (op, width, args) := Parts(l.stmt.value);
    Lexer.Source(if l.name.Some? then l.name.value else "", op, width, args, "")
  }

  /** One line of the listing. */
  function TextOf(l: Line): string
    requires l.stmt.Some?
  {
    var src := SourceOf(l);
    Lexer.Text(src, if l.name.Some? then "\t" else "\t\t", seq(|src.args|, _ => " "), " ")
  }

  // ---- Printed words ----

  predicate TokenChar(c: char) {
    'a' <= c <= 'z' || '0' <= c <= '9' || c == '(' || c == ')'
    || c == '-' || c == '+' || c == '#' || c == ',' || c == '/'
  }

  predicate AllToken(s: string) { forall i :: 0 <= i < |s| ==> TokenChar(s[i]) }

  predicate Token(s: string) { s != "" && AllToken(s) && s[0] != '/' }

  lemma TokenIsPlain(s: string)
    requires Token(s)
    ensures Lexer.Plain(s) && Lexer.Lower(s) == s && forall i :: 0 <= i < |s| ==> s[i] != '.'
  {
    assert forall i :: 0 <= i < |s| ==> TokenChar(s[i]);
  }

  lemma {:induction false} NumeralToken(n: nat, base: nat)
    requires Immediate.BaseOk(base)
    ensures AllToken(Immediate.Numeral(n, base)) && Immediate.Numeral(n, base) != ""
    decreases n
  {
    if n >= base { NumeralToken(n / base, base); }
  }

  lemma ImmediateToken(v: u64)
    ensures Token(Immediate.Print(v))
  {
    hide Immediate.Numeral;
    NumeralToken(v, 16);
  }

  lemma OperandToken(r: byte)
    ensures Token(Operands.Print(r))
  {
  }

  lemma MnemonicToken(op: byte)
    requires IndexOf(op) < COUNT && op != DATA
    ensures Token(Mnemonic(op))
  {
    hide NameAt, IndexOf;
    NamesAreWords(IndexOf(op));
    assert IsName(Mnemonic(op));
  }

  lemma {:induction false} BankToken(mask: nat, letter: char, i: nat, run: nat, first: bool)
    requires i <= 8 && run <= i && (letter == 'd' || letter == 'a')
    ensures AllToken(RegSet.PrintBank(mask, letter, i, run, first))
    decreases 8 - i
  {
    hide Rotate.Bit;
    if i < 8 {
      BankToken(mask, letter, i + 1, 0, first);
      BankToken(mask, letter, i + 1, run + 1, false);
    }
  }

  /** A bank with a register in it begins with the bank's letter. */
  lemma {:induction false} BankBegins(mask: nat, letter: char, i: nat, j: nat)
    requires i <= j < 8 && Rotate.Bit(mask, RegSet.Base(letter) + j)
    ensures RegSet.PrintBank(mask, letter, i, 0, true) != "" && RegSet.PrintBank(mask, letter, i, 0, true)[0] == letter
    decreases 8 - i
  {
    hide Rotate.Bit;
    if !Rotate.Bit(mask, RegSet.Base(letter) + i) {
      BankBegins(mask, letter, i + 1, j);
      assert "" + RegSet.PrintBank(mask, letter, i + 1, 0, true) == RegSet.PrintBank(mask, letter, i + 1, 0, true);
    }
  }

  lemma NoBits(v: nat)
    requires forall k :: 0 <= k < 8 ==> !Rotate.Bit(v, k)
    ensures v % 256 == 0
  {
    Pow256Values();
    Rotate.LowIsMod(v, 1);
    var low := Rotate.Low(v, 8);
    forall k | 0 <= k < 8 ensures Rotate.Bit(low, k) == Rotate.Bit(0, k) {
      Rotate.BitLow(v, 8, k);
      Rotate.BitZero(k);
    }
    Rotate.LowLow(v, 8);
    RegSet.LowZero(8);
    Rotate.SameBits(low, 0, 8);
  }

  /** A byte that is not zero has a bit. */
  lemma SomeBit(v: nat) returns (j: nat)
    requires v % 256 != 0
    ensures j < 8 && Rotate.Bit(v, j)
  {
    hide Rotate.Bit;
    if forall k :: 0 <= k < 8 ==> !Rotate.Bit(v, k) { NoBits(v); }
    j :| 0 <= j < 8 && Rotate.Bit(v, j);
  }

  lemma SetToken(mask: u16)
    requires mask != 0
    ensures Token(RegSet.Print(mask))
  {
    hide RegSet.PrintBank, Rotate.Bit;
    BankToken(mask, 'd', 0, 0, true);
    BankToken(mask, 'a', 0, 0, true);
    if mask % 256 != 0 {
      var j := SomeBit(mask);
      BankBegins(mask, 'd', 0, j);
    } else {
      assert mask / 256 % 256 != 0;
      var j := SomeBit(mask / 256);
      RegSet.ShrByte(mask);
      Rotate.BitShr(mask, 8, j);
      BankBegins(mask, 'a', 0, j);
    }
  }

  // ---- Lines that can be printed ----

  predicate Operand(r: byte) { r < 64 }

  /** Instructions the disassembler prints as they are: no immediate of the load group, no
      floating-point immediate, no empty register set, and operands in one of the four
      addressing modes. */
  predicate PrintableCode(i: Instr) {
    WellFormed(i) &&
    match i
    case NoArg(_) | Imm32(_, _) => true
    case OneReg(_, r) => Operand(r)
    case OneRegW(_, _, r) => Operand(r)
    case Alloc(_, r) => Operand(r)
    case TwoReg(_, _, ra, rb) => Operand(ra) && Operand(rb)
    case RegSet(_, _, mask, r) => mask != 0 && Operand(r)
    case DivImm(_, _, ra, rb) => Operand(ra) && Operand(rb)
    case DivReg(_, ra, rb, rc) => Operand(ra) && Operand(rb) && Operand(rc)
    case _ => false
  }

  /** Behind a label the parser keeps two arguments only. */
  predicate Printable(l: Line) {
    && l.stmt.Some? && (l.name.Some? ==> Token(l.name.value))
    && match l.stmt.value
       case Jump(op, target) => IsOffset(op) && Token(target)
       case ReferTo(target, r) => Token(target) && Operand(r)
       case Code(i) => PrintableCode(i) && (i.DivImm? || i.DivReg? ==> l.name.None?)
       case _ => false
  }

  /** All words of a printed line. */
  predicate AllWords(op: string, width: string, args: seq<string>) {
    && Token(op) && |width| <= 1 && (width != "" ==> Token(width)) && |args| <= 3
    && (|args| > 0 ==> Token(args[0])) && (|args| > 1 ==> Token(args[1])) && (|args| > 2 ==> Token(args[2]))
  }

  lemma MakeWords(op: string, width: string, a: string, b: string, c: string)
    requires Token(op) && |width| <= 1 && (width != "" ==> Token(width))
    ensures AllWords(op, width, [])
    ensures Token(a) ==> AllWords(op, width, [a])
    ensures Token(a) && Token(b) ==> AllWords(op, width, [a, b])
    ensures Token(a) && Token(b) && Token(c) ==> AllWords(op, width, [a, b, c])
  {
    hide Token;
  }

  lemma CodeWords(i: Instr)
    requires PrintableCode(i)
    ensures var (op, width, args) := CodeParts(i); AllWords(op, width, args) && (|args| == 3 ==> i.DivImm? || i.DivReg?)
  {
    hide Mnemonic, IndexOf, Immediate.Print, Operands.Print, RegSet.Print, Token, AllWords, IsTwoReg, WidthName, Table;
    match i
    case NoArg(op) => NamedToken(op); MakeWords(Mnemonic(op), "", "", "", "");
    case Imm32(op, v) => NamedToken(op); ImmediateToken(v); MakeWords(Mnemonic(op), "", Immediate.Print(v), "", "");
    case OneReg(op, r) => NamedToken(op); OperandToken(r); MakeWords(Mnemonic(op), "", Operands.Print(r), "", "");
    case OneRegW(op, w, r) =>
      NamedToken(op); OperandToken(r); WidthToken(w);
      MakeWords(Mnemonic(op), WidthName(w), Operands.Print(r), "", "");
    case Alloc(v, r) =>
      NamedToken(ALLOC); ImmediateToken(v); OperandToken(r);
      MakeWords(Mnemonic(ALLOC), "", Immediate.Print(v), Operands.Print(r), "");
    case TwoReg(op, w, ra, rb) =>
      NamedToken(op); WidthToken(w); OperandToken(ra); OperandToken(rb);
      MakeWords(Mnemonic(op), WidthName(w), Operands.Print(ra), Operands.Print(rb), "");
    case RegSet(op, w, mask, r) =>
      NamedToken(op); WidthToken(w); SetToken(mask); OperandToken(r);
      MakeWords(Mnemonic(op), WidthName(w), RegSet.Print(mask), Operands.Print(r), "");
      MakeWords(Mnemonic(op), WidthName(w), Operands.Print(r), RegSet.Print(mask), "");
    case DivImm(w, v, ra, rb) =>
      NamedToken(DIVI); WidthToken(w); ImmediateToken(v); OperandToken(ra); OperandToken(rb);
      MakeWords(Mnemonic(DIVI), WidthName(w), Immediate.Print(v), Operands.Print(ra), Operands.Print(rb));
    case DivReg(w, ra, rb, rc) =>
      NamedToken(DIV); WidthToken(w); OperandToken(ra); OperandToken(rb); OperandToken(rc);
      MakeWords(Mnemonic(DIV), WidthName(w), Operands.Print(ra), Operands.Print(rb), Operands.Print(rc));
  }

  lemma NamedToken(op: byte)
    requires IsNoArg(op) || IsOffset(op) || IsImm32(op) || IsOneReg(op) || IsOneRegW(op) || IsTwoReg(op) || IsRegSet(op)
          || op == REFER || op == ALLOC || op == DIVI || op == DIV
    ensures Token(Mnemonic(op)) && Get(Table(), Mnemonic(op)) == Found(op)
  {
    hide Mnemonic, IndexOf, Token, Table;
    ShapesNamed(op);
    MnemonicToken(op);
    MnemonicFound(op);
  }

  lemma WidthToken(w: Width)
    ensures Token(WidthName(w)) && |WidthName(w)| == 1 && WidthNamed(WidthName(w)) == Some(w)
  {
  }

  lemma WordsNotEmpty(src: Lexer.Source)
    requires AllWords(src.opcode, src.width, src.args)
    ensures src.opcode != "" && |src.args| <= 3
  {
  }

  lemma LineWords(l: Line)
    requires Printable(l)
    ensures var src := SourceOf(l);
      src.opcode != "" && AllWords(src.opcode, src.width, src.args)
      && (src.name != "" ==> Token(src.name) && |src.args| <= 2)
  {
    hide Mnemonic, IndexOf, Operands.Print, Token, CodeParts, AllWords, PrintableCode, Table;
    match l.stmt.value {
      case Jump(op, target) => NamedToken(op); MakeWords(Mnemonic(op), "", target, "", "");
      case ReferTo(target, r) =>
        NamedToken(REFER); OperandToken(r);
        MakeWords(Mnemonic(REFER), "", target, Operands.Print(r), "");
      case Code(i) => CodeWords(i);
    }
    WordsNotEmpty(SourceOf(l));
  }

  // ---- Reading back ----

  lemma WordsLower(src: Lexer.Source)
    requires AllWords(src.opcode, src.width, src.args)
    requires (src.name != "" ==> Token(src.name) && |src.args| <= 2) && src.comment == ""
    ensures Lexer.SourceOk(src) && Lexer.LowerAll(src.args) == src.args
    ensures Lexer.Lower(src.name) == src.name
    ensures Lexer.Lower(src.opcode) == src.opcode && Lexer.Lower(src.width) == src.width
    ensures Lexer.Lower(src.comment) == src.comment
  {
    hide Token, Lexer.Lower, Lexer.Plain;
    TokenIsPlain(src.opcode);
    if src.width != "" { TokenIsPlain(src.width); WidthIsWord(src.width); }
    if src.name != "" { TokenIsPlain(src.name); }
    forall i | 0 <= i < |src.args| ensures Lexer.Lower(src.args[i]) == src.args[i] && Lexer.Plain(src.args[i]) {
      TokenIsPlain(src.args[i]);
    }
    assert forall a :: a in src.args ==> Lexer.Plain(a);
    Lexer.PlainIsWord(src.opcode);
    assert Lexer.Lower("") == "";
    DotFree(src.opcode);
  }

  lemma WidthIsWord(w: string)
    requires Token(w) && |w| <= 1
    ensures Lexer.IsWord(w) && |w| == 1
  {
    TokenIsPlain(w);
  }

  lemma DotFree(op: string)
    requires Token(op)
    ensures CharAt(op, |op| - 2) != '.'
  {
    TokenIsPlain(op);
  }

  /** The lexer gives the printed words back. */
  lemma PiecesOfText(l: Line)
    requires Printable(l)
    ensures Pieces(TextOf(l)) == SourceOf(l)
  {
    hide Mnemonic, Parts, Token, Lexer.Text, Lexer.Parse, Lexer.SourceOk, Lexer.InOrder;
    var src := SourceOf(l);
    LineWords(l);
    WordsLower(src);
    var gaps := seq(|src.args|, _ => " ");
    var lead := if l.name.Some? then "\t" else "\t\t";
    assert forall g :: g in gaps ==> g == " ";
    Lexer.ParseRecovers(src, lead, gaps, " ");
  }

  lemma RegisterBack(r: byte)
    requires Operand(r)
    ensures Register(Operands.Print(r)) == r
  {
    hide Operands.Parse, Operands.Print;
    Operands.RoundTripIff(r);
  }

  lemma NumberBack(v: u64, w: Width)
    requires v < w.Modulus()
    ensures Number(Immediate.Print(v), w) == v
  {
    hide Immediate.Parse, Immediate.Print;
    Immediate.PrintParses(v);
  }

  lemma MaskBack(mask: u16)
    ensures Mask(RegSet.Print(mask)) == mask
  {
    hide RegSet.Parse, RegSet.Print;
    RegSet.PrintParses(mask);
  }

  function OpcodeIn(i: Instr): byte {
    match i
    case NoArg(op) => op
    case Imm32(op, _) => op
    case OneReg(op, _) => op
    case OneRegW(op, _, _) => op
    case Alloc(_, _) => ALLOC
    case TwoReg(op, _, _, _) => op
    case RegSet(op, _, _, _) => op
    case DivImm(_, _, _, _) => DIVI
    case _ => DIV
  }

  /** The arguments give the operands back. */
  lemma CodeBack(i: Instr)
    requires PrintableCode(i)
    ensures var (op, width, args) := CodeParts(i);
      op == Mnemonic(OpcodeIn(i)) && Get(Table(), op) == Found(OpcodeIn(i))
      && Statement(OpcodeIn(i), width, args) == Some(Code(i))
  {
    hide Mnemonic, Table, Operands.Print, Immediate.Print, RegSet.Print, Register, Number, Mask, WidthName,
         WidthNamed, Statement;
    NamedToken(OpcodeIn(i));
    match i {
      case NoArg(_) => PlainBack(i);
      case Imm32(_, _) => PlainBack(i);
      case OneReg(_, _) => PlainBack(i);
      case Alloc(_, _) => PlainBack(i);
      case OneRegW(_, _, _) => WideBack(i);
      case TwoReg(_, _, _, _) => WideBack(i);
      case _ => LongBack(i);
    }
  }

  lemma PlainBack(i: Instr)
    requires PrintableCode(i) && (i.NoArg? || i.Imm32? || i.OneReg? || i.Alloc?)
    ensures var (_, width, args) := CodeParts(i); Statement(OpcodeIn(i), width, args) == Some(Code(i))
  {
    hide Mnemonic, Operands.Print, Immediate.Print, Register, Number, Mask, WidthNamed;
    NoWidth();
    match i {
      case NoArg(_) =>
      case Imm32(_, v) => NumberBack(v, L);
      case OneReg(_, r) => RegisterBack(r);
      case Alloc(v, r) => NumberBack(v, L); RegisterBack(r);
    }
  }

  lemma WideBack(i: Instr)
    requires PrintableCode(i) && (i.OneRegW? || i.TwoReg?)
    ensures var (_, width, args) := CodeParts(i); Statement(OpcodeIn(i), width, args) == Some(Code(i))
  {
    hide Mnemonic, Operands.Print, Register, Number, Mask, WidthName, WidthNamed;
    match i {
      case OneRegW(_, w, r) => WidthToken(w); RegisterBack(r);
      case TwoReg(_, w, ra, rb) => WidthToken(w); RegisterBack(ra); RegisterBack(rb);
    }
  }

  lemma LongBack(i: Instr)
    requires PrintableCode(i) && (i.RegSet? || i.DivImm? || i.DivReg?)
    ensures var (_, width, args) := CodeParts(i); Statement(OpcodeIn(i), width, args) == Some(Code(i))
  {
    hide Mnemonic, Operands.Print, Immediate.Print, RegSet.Print, Register, Number, Mask, WidthName, WidthNamed;
    match i {
      case RegSet(_, w, mask, r) => WidthToken(w); MaskBack(mask); RegisterBack(r);
      case DivImm(w, v, ra, rb) => WidthToken(w); NumberBack(v, w); RegisterBack(ra); RegisterBack(rb);
      case DivReg(w, ra, rb, rc) => WidthToken(w); RegisterBack(ra); RegisterBack(rb); RegisterBack(rc);
    }
  }

  lemma NoWidth()
    ensures WidthNamed("") == Some(B)
  {
  }

  /** Every printable line, printed and read, is the line again. */
  lemma ReadsBack(l: Line)
    requires Printable(l)
    ensures Read(TextOf(l)) == Some(l)
  {
    hide Mnemonic, Table, Operands.Print, Register, CodeParts, Pieces, TextOf, Token, PrintableCode;
    PiecesOfText(l);
    LineWords(l);
    var src := SourceOf(l);
    assert l.name.Some? ==> l.name.value != "" by { TokenNotEmpty(l); }
    match l.stmt.value {
      case Code(i) => CodeBack(i);
      case Jump(op, target) => NamedToken(op); JumpBack(op, target);
      case ReferTo(target, r) => NamedToken(REFER); ReferBack(target, r);
    }
  }

  lemma TokenNotEmpty(l: Line)
    requires Printable(l)
    ensures l.name.Some? ==> l.name.value != ""
  {
  }

  lemma JumpBack(op: byte, target: string)
    requires IsOffset(op) && Token(target)
    ensures Statement(op, "", [target]) == Some(Jump(op, target))
  {
  }

  lemma ReferBack(target: string, r: byte)
    requires Token(target) && Operand(r)
    ensures Statement(REFER, "", [target, Operands.Print(r)]) == Some(ReferTo(target, r))
  {
    hide Register, Operands.Print;
    RegisterBack(r);
  }

  // ---- Labelled divisions ----

  /** The lexer drops the last operand of a division that has a label. */
  lemma PiecesOfDivision(l: Line)
    requires l.name.Some? && Token(l.name.value) && l.stmt.Some? && l.stmt.value.Code?
    requires PrintableCode(l.stmt.value.i) && (l.stmt.value.i.DivImm? || l.stmt.value.i.DivReg?)
    ensures |SourceOf(l).args| == 3 && Pieces(TextOf(l)) == SourceOf(l).(args := SourceOf(l).args[..2])
  {
    hide Mnemonic, Token, AllWords, Lexer.Text, Lexer.Parse, Lexer.SourceOk, Lexer.InOrder, Lexer.LowerAll,
         Lexer.Plain, Operands.Print, Immediate.Print;
    CodeWords(l.stmt.value.i);
    var full := SourceOf(l);
    var src, c := full.(args := full.args[..2]), full.args[2];
    LastWord(full);
    LabelNotEmpty(l.name.value);
    WordsLower(src);
    var gaps := seq(2, _ => " ");
    assert forall g :: g in gaps ==> g == " ";
    assert gaps + [" "] == seq(3, _ => " ") && src.args + [c] == full.args;
    Lexer.ThirdArgumentLost(src, c, "\t", gaps, " ", " ");
    assert src.(args := src.args + [c]) == full;
  }

  lemma LastWord(full: Lexer.Source)
    requires AllWords(full.opcode, full.width, full.args) && |full.args| == 3
    ensures AllWords(full.opcode, full.width, full.args[..2]) && Lexer.Plain(full.args[2])
  {
    TokenIsPlain(full.args[2]);
  }

  lemma LabelNotEmpty(s: string)
    requires Token(s)
    ensures s != ""
  {
  }

  /** So a labelled division reads back with 255 for its last operand. */
  lemma LabelledDivisionLost(l: Line)
    requires l.name.Some? && Token(l.name.value) && l.stmt.Some? && l.stmt.value.Code?
    requires PrintableCode(l.stmt.value.i) && (l.stmt.value.i.DivImm? || l.stmt.value.i.DivReg?)
    ensures Read(TextOf(l)) == Some(Line(l.name, Some(Code(
      match l.stmt.value.i
      case DivImm(w, v, ra, _) => DivImm(w, v, ra, 255)
      case DivReg(w, ra, rb, _) => DivReg(w, ra, rb, 255)
      case i => i))))
  {
    hide Mnemonic, Table, Operands.Print, Immediate.Print, Register, Number, Pieces, TextOf, Token, PrintableCode,
         WidthName, WidthNamed;
    PiecesOfDivision(l);
    LabelNotEmpty(l.name.value);
    var i := l.stmt.value.i;
    CodeWords(i);
    WordsNotEmpty(SourceOf(l));
    NamedToken(OpcodeIn(i));
    NoOperand();
    WidthToken(i.w);
    match i {
      case DivImm(w, v, ra, rb) => DivisionOperands(i); NumberBack(v, w); RegisterBack(ra);
      case DivReg(w, ra, rb, rc) => DivisionOperands(i); RegisterBack(ra); RegisterBack(rb);
    }
  }

  lemma DivisionOperands(i: Instr)
    requires PrintableCode(i)
    ensures i.DivImm? ==> i.imm < i.w.Modulus() && Operand(i.ra) && Operand(i.rb)
    ensures i.DivReg? ==> Operand(i.ra) && Operand(i.rb) && Operand(i.rc)
  {
  }

  lemma NoOperand()
    ensures Register("") == 255
  {
  }

  function Texts(prog: seq<Line>): seq<string>
    requires forall l :: l in prog ==> l.stmt.Some?
  {
    if prog == [] then [] else [TextOf(prog[0])] + Texts(prog[1..])
  }

  function ReadAll(texts: seq<string>): Option<seq<Line>> {
    if texts == [] then Some([]) else
    var l, rest := Read(texts[0]), ReadAll(texts[1..]);
    if l.None? || rest.None? then None else Some([l.value] + rest.value)
  }

  lemma {:induction false} AllReadBack(prog: seq<Line>)
    requires forall l :: l in prog ==> l.stmt.Some? && Printable(l)
    ensures ReadAll(Texts(prog)) == Some(prog)
    decreases |prog|
  {
    hide Read, TextOf, Printable;
    if prog != [] {
      assert prog[0] in prog && forall l :: l in prog[1..] ==> l in prog;
      ReadsBack(prog[0]);
      AllReadBack(prog[1..]);
      assert Texts(prog)[0] == TextOf(prog[0]) && Texts(prog)[1..] == Texts(prog[1..]);
      assert prog == [prog[0]] + prog[1..];
    }
  }
}
