/** The opcode table: names for the assembler's symbol table and for the disassembler. */
module Opcodes {
  import opened Words
  import opened Isa
  import opened Symbols

  const COUNT: nat := 74

  /** The names, in alphabetical order. */
  function NameAt(k: nat): string {
    if k < 10 then NameAt0(k)
    else if k < 20 then NameAt1(k)
    else if k < 30 then NameAt2(k)
    else if k < 40 then NameAt3(k)
    else if k < 50 then NameAt4(k)
    else if k < 60 then NameAt5(k)
    else if k < 70 then NameAt6(k)
    else NameAt7(k)
  }

  function NameAt0(k: nat): string {
    match k
    case 0 => "add" case 1 => "addi" case 2 => "alloc" case 3 => "and" case 4 => "andi" case 5 => "bcb"
    case 6 => "beq" case 7 => "bge" case 8 => "bgt" case 9 => "ble" case _ => ""
  }

  function NameAt1(k: nat): string {
    match k
    case 10 => "blt" case 11 => "bne" case 12 => "bra" case 13 => "call" case 14 => "calli" case 15 => "callm"
    case 16 => "clr" case 17 => "cmp" case 18 => "cmpi" case 19 => "data" case _ => ""
  }

  function NameAt2(k: nat): string {
    match k
    case 20 => "dec" case 21 => "div" case 22 => "divi" case 23 => "ext" case 24 => "fadd" case 25 => "fcast"
    case 26 => "fceil" case 27 => "fcos" case 28 => "fdiv" case 29 => "fexp" case _ => ""
  }

  function NameAt3(k: nat): string {
    match k
    case 30 => "ffloor" case 31 => "fload" case 32 => "flog" case 33 => "flog10" case 34 => "fmod" case 35 => "fmul"
    case 36 => "fpow" case 37 => "free" case 38 => "fround" case 39 => "fsin" case _ => ""
  }

  function NameAt4(k: nat): string {
    match k
    case 40 => "fsqrt" case 41 => "fsub" case 42 => "ftan" case 43 => "inc" case 44 => "jmp" case 45 => "jmpi"
    case 46 => "jmpm" case 47 => "load" case 48 => "lsl" case 49 => "lsli" case _ => ""
  }

  function NameAt5(k: nat): string {
    match k
    case 50 => "lsr" case 51 => "lsri" case 52 => "move" case 53 => "mul" case 54 => "muli" case 55 => "nop"
    case 56 => "not" case 57 => "or" case 58 => "ori" case 59 => "pop" case _ => ""
  }

  function NameAt6(k: nat): string {
    match k
    case 60 => "push" case 61 => "refer" case 62 => "ret" case 63 => "rol" case 64 => "roli" case 65 => "ror"
    case 66 => "rori" case 67 => "stop" case 68 => "sub" case 69 => "subi" case _ => ""
  }

  function NameAt7(k: nat): string {
    match k
    case 70 => "syscall" case 71 => "tst" case 72 => "xor" case 73 => "xori" case _ => ""
  }

  /** Their opcodes. */
  function ValueAt(k: nat): byte {
    if k < 10 then ValueAt0(k)
    else if k < 20 then ValueAt1(k)
    else if k < 30 then ValueAt2(k)
    else if k < 40 then ValueAt3(k)
    else if k < 50 then ValueAt4(k)
    else if k < 60 then ValueAt5(k)
    else if k < 70 then ValueAt6(k)
    else ValueAt7(k)
  }

  function ValueAt0(k: nat): byte {
    match k
    case 0 => 0x24 case 1 => 0x20 case 2 => 0xf7 case 3 => 0x44 case 4 => 0x40 case 5 => 0xeb case 6 => 0xe9
    case 7 => 0xef case 8 => 0xed case 9 => 0xee case _ => 0
  }

  function ValueAt1(k: nat): byte {
    match k
    case 10 => 0xec case 11 => 0xea case 12 => 0xe8 case 13 => 0xf5 case 14 => 0xf3 case 15 => 0xf4 case 16 => 0x1c
    case 17 => 0x88 case 18 => 0x84 case 19 => 0xdc case _ => 0
  }

  function ValueAt2(k: nat): byte {
    match k
    case 20 => 0x18 case 21 => 0x3c case 22 => 0x38 case 23 => 0xff case 24 => 0x98 case 25 => 0x90 case 26 => 0xbc
    case 27 => 0xcc case 28 => 0xa4 case 29 => 0xb0 case _ => 0
  }

  function ValueAt3(k: nat): byte {
    match k
    case 30 => 0xc0 case 31 => 0x8c case 32 => 0xb4 case 33 => 0xb8 case 34 => 0xa8 case 35 => 0xa0 case 36 => 0xc4
    case 37 => 0xf8 case 38 => 0x94 case 39 => 0xc8 case _ => 0
  }

  function ValueAt4(k: nat): byte {
    match k
    case 40 => 0xac case 41 => 0x9c case 42 => 0xd0 case 43 => 0x14 case 44 => 0xf2 case 45 => 0xf0 case 46 => 0xf1
    case 47 => 0x04 case 48 => 0x5c case 49 => 0x58 case _ => 0
  }

  function ValueAt5(k: nat): byte {
    match k
    case 50 => 0x64 case 51 => 0x60 case 52 => 0x08 case 53 => 0x34 case 54 => 0x30 case 55 => 0x00 case 56 => 0x78
    case 57 => 0x4c case 58 => 0x48 case 59 => 0x10 case _ => 0
  }

  function ValueAt6(k: nat): byte {
    match k
    case 60 => 0x0c case 61 => 0xfa case 62 => 0xf6 case 63 => 0x6c case 64 => 0x68 case 65 => 0x74 case 66 => 0x70
    case 67 => 0xfd case 68 => 0x2c case 69 => 0x28 case _ => 0
  }

  function ValueAt7(k: nat): byte {
    match k
    case 70 => 0xf9 case 71 => 0x80 case 72 => 0x54 case 73 => 0x50 case _ => 0
  }

  /** Where an opcode is in the table. */
  function IndexOf(op: byte): nat {
    if op < 0x20 then IndexOf0(op)
    else if op < 0x40 then IndexOf1(op)
    else if op < 0x58 then IndexOf2(op)
    else if op < 0x70 then IndexOf3(op)
    else if op < 0x88 then IndexOf4(op)
    else if op < 0xb0 then IndexOf5(op)
    else if op < 0xd8 then IndexOf6(op)
    else if op < 0xf0 then IndexOf7(op)
    else IndexOf8(op)
  }

  function IndexOf0(op: byte): nat {
    match op
    case 0x00 => 55 case 0x04 => 47 case 0x08 => 52 case 0x0c => 60 case 0x10 => 59 case 0x14 => 43 case 0x18 => 20
    case 0x1c => 16 case _ => COUNT
  }

  function IndexOf1(op: byte): nat {
    match op
    case 0x20 => 1 case 0x24 => 0 case 0x28 => 69 case 0x2c => 68 case 0x30 => 54 case 0x34 => 53 case 0x38 => 22
    case 0x3c => 21 case _ => COUNT
  }

  function IndexOf2(op: byte): nat {
    match op
    case 0x40 => 4 case 0x44 => 3 case 0x48 => 58 case 0x4c => 57 case 0x50 => 73 case 0x54 => 72 case _ => COUNT
  }

  function IndexOf3(op: byte): nat {
    match op
    case 0x58 => 49 case 0x5c => 48 case 0x60 => 51 case 0x64 => 50 case 0x68 => 64 case 0x6c => 63 case _ => COUNT
  }

  function IndexOf4(op: byte): nat {
    match op
    case 0x70 => 66 case 0x74 => 65 case 0x78 => 56 case 0x80 => 71 case 0x84 => 18 case _ => COUNT
  }

  function IndexOf5(op: byte): nat {
    match op
    case 0x88 => 17 case 0x8c => 31 case 0x90 => 25 case 0x94 => 38 case 0x98 => 24 case 0x9c => 41 case 0xa0 => 35
    case 0xa4 => 28 case 0xa8 => 34 case 0xac => 40 case _ => COUNT
  }

  function IndexOf6(op: byte): nat {
    match op
    case 0xb0 => 29 case 0xb4 => 32 case 0xb8 => 33 case 0xbc => 26 case 0xc0 => 30 case 0xc4 => 36 case 0xc8 => 39
    case 0xcc => 27 case 0xd0 => 42 case _ => COUNT
  }

  function IndexOf7(op: byte): nat {
    match op
    case 0xdc => 19 case 0xe8 => 12 case 0xe9 => 6 case 0xea => 11 case 0xeb => 5 case 0xec => 10 case 0xed => 8
    case 0xee => 9 case 0xef => 7 case _ => COUNT
  }

  function IndexOf8(op: byte): nat {
    match op
    case 0xf0 => 45 case 0xf1 => 46 case 0xf2 => 44 case 0xf3 => 14 case 0xf4 => 15 case 0xf5 => 13 case 0xf6 => 62
    case 0xf7 => 2 case 0xf8 => 37 case 0xf9 => 70 case 0xfa => 61 case 0xfd => 67 case 0xff => 23 case _ => COUNT
  }

  /** `data` is no instruction: the assembler has a name for it, the disassembler has none. */
  const DATA: byte := 0xdc

  /** The disassembler's name for an opcode; "" if it has none. */
  function Mnemonic(op: byte): string { if op == DATA then "" else NameAt(IndexOf(op)) }

  // The three facts about all entries of the table are proved a part of it at a time.

  lemma Indexed0(op: byte)
    requires 0x00 <= op < 0x58
    ensures IndexOf(op) < COUNT ==> ValueAt(IndexOf(op)) == op
  {
  }

  lemma Indexed1(op: byte)
    requires 0x58 <= op < 0xb0
    ensures IndexOf(op) < COUNT ==> ValueAt(IndexOf(op)) == op
  {
  }

  lemma Indexed2(op: byte)
    requires 0xb0 <= op < 0x100
    ensures IndexOf(op) < COUNT ==> ValueAt(IndexOf(op)) == op
  {
  }

  lemma IndexedValue(op: byte)
    ensures IndexOf(op) < COUNT ==> ValueAt(IndexOf(op)) == op
  {
    hide IndexOf, ValueAt;
    if op < 0x58 { Indexed0(op); } else if op < 0xb0 { Indexed1(op); } else { Indexed2(op); }
  }

  /** Every opcode that is fetched has a name. */
  lemma ShapesNamed(op: byte)
    requires IsNoArg(op) || IsOffset(op) || IsImm32(op) || IsOneReg(op) || IsOneRegW(op) || IsTwoReg(op) || IsRegSet(op)
          || IsImmReg(op) || IsShiftImm(op) || op == REFER || op == ALLOC || op == DIVI || op == DIV
    ensures IndexOf(op) < COUNT && op != DATA
  {
  }

  // ---- The names differ ----

  function CodeAt(s: string, i: nat): nat { if i < |s| then s[i] as nat else 0 }

  /** A number for a name of at most seven letters. */
  function Rank(s: string): nat {
    CodeAt(s, 6) + 0x100 * CodeAt(s, 5) + 0x1_0000 * CodeAt(s, 4) + 0x100_0000 * CodeAt(s, 3)
    + 0x1_0000_0000 * CodeAt(s, 2)
    + 0x100_0000_0000 * CodeAt(s, 1) + 0x1_0000_0000_0000 * CodeAt(s, 0)
  }

  lemma Ascending0(k: nat)
    requires 0 <= k < 10
    ensures Rank(NameAt(k)) < Rank(NameAt(k + 1))
  {
  }

  lemma Ascending1(k: nat)
    requires 10 <= k < 20
    ensures Rank(NameAt(k)) < Rank(NameAt(k + 1))
  {
  }

  lemma Ascending2(k: nat)
    requires 20 <= k < 30
    ensures Rank(NameAt(k)) < Rank(NameAt(k + 1))
  {
  }

  lemma Ascending3(k: nat)
    requires 30 <= k < 40
    ensures Rank(NameAt(k)) < Rank(NameAt(k + 1))
  {
  }

  lemma Ascending4(k: nat)
    requires 40 <= k < 50
    ensures Rank(NameAt(k)) < Rank(NameAt(k + 1))
  {
  }

  lemma Ascending5(k: nat)
    requires 50 <= k < 60
    ensures Rank(NameAt(k)) < Rank(NameAt(k + 1))
  {
  }

  lemma Ascending6(k: nat)
    requires 60 <= k < 70
    ensures Rank(NameAt(k)) < Rank(NameAt(k + 1))
  {
  }

  lemma Ascending7(k: nat)
    requires 70 <= k < 73
    ensures Rank(NameAt(k)) < Rank(NameAt(k + 1))
  {
  }

  lemma {:induction false} Ascending(j: nat, k: nat)
    requires j < k < COUNT
    ensures Rank(NameAt(j)) < Rank(NameAt(k))
    decreases k
  {
    hide NameAt, Rank;
    var i := k - 1;
    if i < 10 { Ascending0(i); }
    else if i < 20 { Ascending1(i); }
    else if i < 30 { Ascending2(i); }
    else if i < 40 { Ascending3(i); }
    else if i < 50 { Ascending4(i); }
    else if i < 60 { Ascending5(i); }
    else if i < 70 { Ascending6(i); }
    else if i < 73 { Ascending7(i); }
    if j < i { Ascending(j, i); }
  }

  lemma NamesDiffer(j: nat, k: nat)
    requires j < COUNT && k < COUNT && NameAt(j) == NameAt(k)
    ensures j == k
  {
    hide NameAt, Rank;
    if j < k { Ascending(j, k); }
    if k < j { Ascending(k, j); }
  }

  lemma AllDiffer()
    ensures forall j, k :: 0 <= j < COUNT && 0 <= k < COUNT && NameAt(j) == NameAt(k) ==> j == k
  {
    hide NameAt;
    forall j, k | 0 <= j < COUNT && 0 <= k < COUNT && NameAt(j) == NameAt(k) ensures j == k {
      NamesDiffer(j, k);
    }
  }

  /** The assembler's table. */
  function Table(): map<string, nat> {
    AllDiffer();
    map k | 0 <= k < COUNT :: NameAt(k) := ValueAt(k)
  }

  /** The assembler finds the opcode that the disassembler names. */
  lemma MnemonicFound(op: byte)
    requires IndexOf(op) < COUNT && op != DATA
    ensures Get(Table(), Mnemonic(op)) == Found(op)
  {
    hide NameAt, ValueAt, IndexOf;
    AllDiffer();
    IndexedValue(op);
    assert NameAt(IndexOf(op)) in Table();
  }

  lemma Named0()
    ensures
      && IndexOf(NOP) == 55 && NameAt(55) == "nop" && IndexOf(LOAD) == 47 && NameAt(47) == "load"
      && IndexOf(MOVE) == 52 && NameAt(52) == "move" && IndexOf(PUSH) == 60 && NameAt(60) == "push"
      && IndexOf(POP) == 59 && NameAt(59) == "pop" && IndexOf(INC) == 43 && NameAt(43) == "inc"
      && IndexOf(DEC) == 20 && NameAt(20) == "dec" && IndexOf(CLR) == 16 && NameAt(16) == "clr"
      && IndexOf(ADDI) == 1 && NameAt(1) == "addi" && IndexOf(ADD) == 0 && NameAt(0) == "add"
  {
  }

  lemma Named1()
    ensures
      && IndexOf(SUBI) == 69 && NameAt(69) == "subi" && IndexOf(SUB) == 68 && NameAt(68) == "sub"
      && IndexOf(MULI) == 54 && NameAt(54) == "muli" && IndexOf(MUL) == 53 && NameAt(53) == "mul"
      && IndexOf(DIVI) == 22 && NameAt(22) == "divi" && IndexOf(DIV) == 21 && NameAt(21) == "div"
      && IndexOf(ANDI) == 4 && NameAt(4) == "andi" && IndexOf(AND) == 3 && NameAt(3) == "and"
      && IndexOf(ORI) == 58 && NameAt(58) == "ori" && IndexOf(OR) == 57 && NameAt(57) == "or"
  {
  }

  lemma Named2()
    ensures
      && IndexOf(XORI) == 73 && NameAt(73) == "xori" && IndexOf(XOR) == 72 && NameAt(72) == "xor"
      && IndexOf(LSLI) == 49 && NameAt(49) == "lsli" && IndexOf(LSL) == 48 && NameAt(48) == "lsl"
      && IndexOf(LSRI) == 51 && NameAt(51) == "lsri" && IndexOf(LSR) == 50 && NameAt(50) == "lsr"
      && IndexOf(ROLI) == 64 && NameAt(64) == "roli" && IndexOf(ROL) == 63 && NameAt(63) == "rol"
      && IndexOf(RORI) == 66 && NameAt(66) == "rori" && IndexOf(ROR) == 65 && NameAt(65) == "ror"
  {
  }

  lemma Named3()
    ensures
      && IndexOf(NOT) == 56 && NameAt(56) == "not" && IndexOf(TST) == 71 && NameAt(71) == "tst"
      && IndexOf(CMPI) == 18 && NameAt(18) == "cmpi" && IndexOf(CMP) == 17 && NameAt(17) == "cmp"
      && IndexOf(FLOAD) == 31 && NameAt(31) == "fload" && IndexOf(FCAST) == 25 && NameAt(25) == "fcast"
      && IndexOf(FTAN) == 42 && NameAt(42) == "ftan" && IndexOf(BRA) == 12 && NameAt(12) == "bra"
      && IndexOf(BEQ) == 6 && NameAt(6) == "beq" && IndexOf(BNE) == 11 && NameAt(11) == "bne"
  {
  }

  lemma Named4()
    ensures
      && IndexOf(BCB) == 5 && NameAt(5) == "bcb" && IndexOf(BLT) == 10 && NameAt(10) == "blt"
      && IndexOf(BGT) == 8 && NameAt(8) == "bgt" && IndexOf(BLE) == 9 && NameAt(9) == "ble"
      && IndexOf(BGE) == 7 && NameAt(7) == "bge" && IndexOf(JMPI) == 45 && NameAt(45) == "jmpi"
      && IndexOf(JMPM) == 46 && NameAt(46) == "jmpm" && IndexOf(JMP) == 44 && NameAt(44) == "jmp"
      && IndexOf(CALLI) == 14 && NameAt(14) == "calli" && IndexOf(CALLM) == 15 && NameAt(15) == "callm"
  {
  }

  lemma Named5()
    ensures
      && IndexOf(CALL) == 13 && NameAt(13) == "call" && IndexOf(RET) == 62 && NameAt(62) == "ret"
      && IndexOf(ALLOC) == 2 && NameAt(2) == "alloc" && IndexOf(FREE) == 37 && NameAt(37) == "free"
      && IndexOf(SYSCALL) == 70 && NameAt(70) == "syscall" && IndexOf(REFER) == 61 && NameAt(61) == "refer"
      && IndexOf(STOP) == 67 && NameAt(67) == "stop"
  {
  }

  /** The assembler finds `word` as `op`, and the disassembler prints it so. */
  predicate Finds(word: string, op: byte) { Get(Table(), word) == Found(op) && Mnemonic(op) == word }

  lemma NamedFinds()
    ensures forall op: byte :: IndexOf(op) < COUNT && op != DATA ==> Finds(NameAt(IndexOf(op)), op)
  {
    hide NameAt, ValueAt, IndexOf, Table;
    forall op: byte | IndexOf(op) < COUNT && op != DATA ensures Finds(NameAt(IndexOf(op)), op) { MnemonicFound(op); }
  }

  /** Each word stands for the opcode that the machine takes it for. */
  lemma WordsFound()
    ensures
      && Finds("nop", NOP) && Finds("load", LOAD) && Finds("move", MOVE) && Finds("push", PUSH) && Finds("pop", POP)
      && Finds("inc", INC) && Finds("dec", DEC) && Finds("clr", CLR) && Finds("addi", ADDI) && Finds("add", ADD)
      && Finds("subi", SUBI) && Finds("sub", SUB) && Finds("muli", MULI) && Finds("mul", MUL) && Finds("divi", DIVI)
      && Finds("div", DIV) && Finds("andi", ANDI) && Finds("and", AND) && Finds("ori", ORI) && Finds("or", OR)
      && Finds("xori", XORI) && Finds("xor", XOR) && Finds("lsli", LSLI) && Finds("lsl", LSL) && Finds("lsri", LSRI)
      && Finds("lsr", LSR) && Finds("roli", ROLI) && Finds("rol", ROL) && Finds("rori", RORI) && Finds("ror", ROR)
      && Finds("not", NOT) && Finds("tst", TST) && Finds("cmpi", CMPI) && Finds("cmp", CMP) && Finds("fload", FLOAD)
      && Finds("fcast", FCAST) && Finds("ftan", FTAN) && Finds("bra", BRA) && Finds("beq", BEQ) && Finds("bne", BNE)
      && Finds("bcb", BCB) && Finds("blt", BLT) && Finds("bgt", BGT) && Finds("ble", BLE) && Finds("bge", BGE)
      && Finds("jmpi", JMPI) && Finds("jmpm", JMPM) && Finds("jmp", JMP) && Finds("calli", CALLI)
      && Finds("callm", CALLM) && Finds("call", CALL) && Finds("ret", RET) && Finds("alloc", ALLOC)
      && Finds("free", FREE) && Finds("syscall", SYSCALL) && Finds("refer", REFER) && Finds("stop", STOP)
  {
    hide NameAt, IndexOf, Finds;
    NamedFinds();
    Named0(); Named1(); Named2(); Named3(); Named4(); Named5();
  }

  /** A proper beginning of a name is found too, as a node without a value: opcode 0. Apart
      from "-", where the tree begins, these are all. */
  lemma BeginningIsFound(s: string)
    ensures Get(Table(), s) == Interior <==>
      s !in Table() && (s == "-" || exists k :: 0 <= k < COUNT && s < NameAt(k))
  {
    hide NameAt, ValueAt, IndexOf;
    AllDiffer();
    if k :| 0 <= k < COUNT && s < NameAt(k) { assert NameAt(k) in Table().Keys; }
    if name :| name in Table().Keys && s < name {
      var k :| 0 <= k < COUNT && NameAt(k) == name;
    }
  }

  lemma NoNameIsLo(k: nat)
    requires k < COUNT
    ensures NameAt(k) != "lo"
  {
    assert k != 57 ==> |NameAt(k)| != 2;
    assert k == 57 ==> NameAt(k)[0] == 'o';
  }

  lemma LoIsABeginning()
    ensures Get(Table(), "lo") == Interior
  {
    assert "lo" < NameAt(47);
    AllDiffer();
    forall k | 0 <= k < COUNT ensures NameAt(k) != "lo" { NoNameIsLo(k); }
    BeginningIsFound("lo");
  }

  // ---- The names are words ----

  predicate IsLetter(c: char) { 'a' <= c <= 'z' || '0' <= c <= '9' }

  predicate IsName(s: string) { s != "" && forall i :: 0 <= i < |s| ==> IsLetter(s[i]) }

  lemma Letters0(k: nat, i: nat)
    requires 0 <= k < 19 && i < |NameAt(k)|
    ensures IsLetter(NameAt(k)[i])
  {
  }

  lemma Letters1(k: nat, i: nat)
    requires 19 <= k < 38 && i < |NameAt(k)|
    ensures IsLetter(NameAt(k)[i])
  {
  }

  lemma Letters2(k: nat, i: nat)
    requires 38 <= k < 57 && i < |NameAt(k)|
    ensures IsLetter(NameAt(k)[i])
  {
  }

  lemma Letters3(k: nat, i: nat)
    requires 57 <= k < 74 && i < |NameAt(k)|
    ensures IsLetter(NameAt(k)[i])
  {
  }

  lemma NameNotEmpty(k: nat)
    requires k < COUNT
    ensures NameAt(k) != ""
  {
  }

  lemma NamesAreWords(k: nat)
    requires k < COUNT
    ensures IsName(NameAt(k))
  {
    hide NameAt, IsLetter;
    NameNotEmpty(k);
    forall i | 0 <= i < |NameAt(k)| ensures IsLetter(NameAt(k)[i]) {
      if k < 19 { Letters0(k, i); }
      else if k < 38 { Letters1(k, i); }
      else if k < 57 { Letters2(k, i); }
      else { Letters3(k, i); }
    }
  }
}
