/** Once around: assemble a program, disassemble the file to text, read the text, and
    assemble it again. */
module Toolchain {
  import opened Words
  import opened Isa
  import opened Assembly
  import opened Backpatch
  import opened Landing
  import opened Names
  import opened Relist
  import opened Recapture
  import opened SourceText
  import opened Immediate
  import Disasm

  lemma {:induction false} DigitsToken(n: nat)
    ensures Token(NameOf(n))
  {
    hide Numeral;
    NumeralToken(n, 10);
  }

  /** Every line prints as it is: see `PrintableCode`; and no division, which has three
      operands, gets a label in the listing. */
  ghost predicate Retypable(prog: seq<Line>) {
    Listable(prog) && forall k: nat :: k < |prog| && prog[k].stmt.Some? ==> RetypableLine(prog, k)
  }

  ghost predicate RetypableLine(prog: seq<Line>, k: nat)
    requires PlainProgram(prog) && k < |prog| && prog[k].stmt.Some?
  {
    match prog[k].stmt.value
    case Jump(_, _) => true
    case ReferTo(_, r) => Operand(r)
    case Code(i) =>
      && PrintableCode(i)
      && (i.DivImm? || i.DivReg? ==> Disasm.Number(Disasm.Keys(CodeOf(prog)), Start(prog, k, 0) % TWO32) == 0)
    case _ => false
  }

  lemma RenamedPrintable(prog: seq<Line>, k: nat)
    requires Listable(prog) && k < |prog| && prog[k].stmt.Some? && RetypableLine(prog, k)
    ensures Printable(Renamed(prog, Disasm.Keys(CodeOf(prog)), Start(prog, k, 0), prog[k]))
  {
    hide Token, PrintableCode, Place, Disasm.Number, CodeOf, Disasm.Keys, Start, NameOf, Reference, Defs,
         UniqueLabels, Recognised, TargetsIn;
    var keys := Disasm.Keys(CodeOf(prog));
    DigitsToken(Disasm.Number(keys, Start(prog, k, 0) % TWO32));
    assert prog[k] in prog && LineOk(prog[k]);
    match prog[k].stmt.value {
      case Jump(_, l) => DigitsToken(Disasm.Number(keys, Place(prog, l) % TWO32));
      case ReferTo(l, _) => DigitsToken(Disasm.Number(keys, Place(prog, l) % TWO32));
      case Code(_) =>
    }
  }

  lemma {:induction false} TailPrintable(prog: seq<Line>, j: nat)
    requires Retypable(prog) && j <= |prog|
    ensures forall l :: l in Tail(prog, Disasm.Keys(CodeOf(prog)), j) ==> Printable(l)
    decreases |prog| - j
  {
    hide CodeOf, Disasm.Keys, Start, Renamed, Printable, RetypableLine, Reference, Defs, UniqueLabels, Recognised,
         TargetsIn, Plain;
    if j < |prog| {
      TailPrintable(prog, j + 1);
      if prog[j].stmt.Some? {
        assert RetypableLine(prog, j);
        RenamedPrintable(prog, j);
      }
    }
  }

  lemma ListingReadsBack(prog: seq<Line>)
    requires Retypable(prog)
    ensures var listing := Listing(CodeOf(prog));
      (forall l :: l in listing ==> l.stmt.Some?) && ReadAll(Texts(listing)) == Some(listing)
  {
    hide CodeOf, Disasm.Keys, Start, Tail, Printable, RetypableLine, Reference, Defs, UniqueLabels, Recognised,
         TargetsIn, Plain, Lines;
    StartZero(prog);
    ListedIsTail(prog, Disasm.Keys(CodeOf(prog)), 0);
    TailPrintable(prog, 0);
    var listing := Listing(CodeOf(prog));
    assert forall l :: l in listing ==> l.stmt.Some? && Printable(l) by { PrintableHasStatement(listing); }
    AllReadBack(listing);
  }

  /** The text of the listing of an assembled file is read as the listing, and assembling it
      gives the file again, byte for byte, if and only if no label of the listing is
      captured by a longer one. */
  lemma OnceAround(prog: seq<Line>, order: seq<string>)
    requires Retypable(prog)
    requires var end := Run(START, Listing(CodeOf(prog))); !end.Crashed? ==> Enumerates(order, end.asm.fwd.Keys)
    ensures var listing := Listing(CodeOf(prog)); var end := Run(START, listing);
      && (forall l :: l in listing ==> l.stmt.Some?) && ReadAll(Texts(listing)) == Some(listing)
      && (!end.Crashed? ==> HolesOk(end.asm))
      && (Finish(end, order) == Some(Reference(prog)) <==> Clean(listing, {}, {}))
  {
    hide CodeOf, RetypableLine, Reference, Defs, UniqueLabels, Recognised, TargetsIn, Plain, Listing, Clean, Run;
    ListingReadsBack(prog);
    Reassembles(prog, order);
  }

  /** For one program it does not: the text is read back as the listing, and what is assembled
      from it is another file. */
  lemma OnceAroundFails()
    ensures Retypable(NINETEEN)
    ensures var listing := Listing(CodeOf(NINETEEN)); var end := Run(START, listing);
      && (forall l :: l in listing ==> l.stmt.Some?) && ReadAll(Texts(listing)) == Some(listing)
      && (!end.Crashed? ==> HolesOk(end.asm))
      && forall order | !end.Crashed? ==> Enumerates(order, end.asm.fwd.Keys) ::
           Finish(end, order) != Some(Reference(NINETEEN))
  {
    hide NINETEEN, CodeOf, Disasm.Keys, Start, Reference, Defs, UniqueLabels, Recognised, TargetsIn, Plain, Clean, Run,
         Listing, Enumerates, Disasm.Number;
    NineteenReferencesFail();
    NineteenLines();
    forall k: nat | k < |NINETEEN| && NINETEEN[k].stmt.Some? ensures RetypableLine(NINETEEN, k) { }
    ListingReadsBack(NINETEEN);
  }

  lemma PrintableHasStatement(prog: seq<Line>)
    requires forall l :: l in prog ==> Printable(l)
    ensures forall l :: l in prog ==> l.stmt.Some? && Printable(l)
  {
  }
}
