/** The labels of a listing come from the order of the references alone, and nineteen of them
    can be enough for a listing that does not assemble to the same file. */
module Recapture {
  import opened Words
  import opened Isa
  import opened Assembly
  import opened Backpatch
  import opened Landing
  import opened OnePass
  import opened Names
  import opened Relist
  import opened Immediate
  import Disasm
  import Loops

  // ---- The keys of an assembled file ----

  /** The places referred to from line `j` on, in order. */
  ghost function Places(prog: seq<Line>, j: nat): seq<u32>
    requires ProgramOk(prog) && j <= |prog|
    decreases |prog| - j
  {
    if j == |prog| then [] else
    (if Target(prog[j]).Some? then [Place(prog, Target(prog[j]).value) % TWO32] else []) + Places(prog, j + 1)
  }

  lemma FetchedReference(m: seq<byte>, p: nat)
    requires Decode(m, p).Some?
    ensures p < |m| && (Disasm.References(OpcodeOf(m[p])) <==>
      Decode(m, p).value.i.Offset? || Decode(m, p).value.i.Refer?)
  {
    hide LoadW;
  }

  /** What the first pass enters for line `k`. */
  lemma LineEntered(prog: seq<Line>, k: nat)
    requires Listable(prog) && k < |prog| && prog[k].stmt.Some?
    ensures var m, p := CodeOf(prog), Start(prog, k, 0);
      && p < |m|
      && (Disasm.References(OpcodeOf(m[p])) <==> Target(prog[k]).Some?)
      && (Target(prog[k]).Some? ==> p + 5 <= |m| && Disasm.Target(m, p) == Place(prog, Target(prog[k]).value) % TWO32)
  {
    hide ToLE, FromLE, Encode, Defs, Decode, Loaded, Reference, Start, UniqueLabels, Recognised, CodeOf, Place;
    CodeLoaded(prog);
    var m := CodeOf(prog);
    assert prog[k] in prog && Plain(prog[k]);
    if prog[k].stmt.value.Code? {
      CodeFetched(prog, m, 0, k);
      FetchedReference(m, Start(prog, k, 0));
    } else {
      var d := PlaceOf(prog, k);
      ReferenceFetched(prog, m, k, d);
      Remainder(Start(prog, d, 0), TWO32, 0, Start(prog, d, 0));
    }
  }

  lemma EnteredStep(m: seq<byte>, p: nat, next: nat)
    requires SizedAlike(m, p, next)
    ensures p < next <= |m| && (Disasm.References(OpcodeOf(m[p])) ==> p + 5 <= |m|)
    ensures Disasm.Entered(m, p, (p + 4) % TWO32) ==
      (if Disasm.References(OpcodeOf(m[p])) then [Disasm.Target(m, p)] else [])
      + Disasm.Entered(m, next, (next + 4) % TWO32)
  {
    hide LoadW, Disasm.OneSize, Disasm.TwoSize, Disasm.References;
    var op, w := OpcodeOf(m[p]), WidthOf(m[p] % 4);
    var n := Disasm.OneSize(op, w);
    Disasm.ReferenceSize(op, w);
    Disasm.ModAdd(p + 4, n, TWO32);
    if Disasm.References(op) { Disasm.ModAdd(p + 4, 5 + LoadW(m, p + 1, L), TWO32); }
  }

  lemma NothingEntered(m: seq<byte>)
    ensures Disasm.Entered(m, |m|, (|m| + 4) % TWO32) == []
  {
  }

  lemma EnteredLine(prog: seq<Line>, j: nat)
    requires Listable(prog) && j < |prog|
    ensures var m, p, next := CodeOf(prog), Start(prog, j, 0), Start(prog, j + 1, 0);
      Disasm.Entered(m, p, (p + 4) % TWO32) ==
        (if Target(prog[j]).Some? then [Place(prog, Target(prog[j]).value) % TWO32] else [])
        + Disasm.Entered(m, next, (next + 4) % TWO32)
  {
    hide CodeOf, Start, UniqueLabels, Recognised, TargetsIn, Defs, Reference, Place, Plain, SizedAlike, OpcodeOf,
         Disasm.References, Disasm.Target, Disasm.Entered, LineOk;
    if prog[j].stmt.Some? {
      LineSized(prog, j);
      LineEntered(prog, j);
      EnteredStep(CodeOf(prog), Start(prog, j, 0), Start(prog, j + 1, 0));
    } else {
      StartNext(prog, j, 0);
    }
  }

  lemma {:induction false} EnteredIsPlaces(prog: seq<Line>, j: nat)
    requires Listable(prog) && j <= |prog|
    ensures var p := Start(prog, j, 0); Disasm.Entered(CodeOf(prog), p, (p + 4) % TWO32) == Places(prog, j)
    decreases |prog| - j
  {
    hide CodeOf, Start, UniqueLabels, Recognised, TargetsIn, Defs, Reference, Place, Plain, Target, Disasm.Entered,
         LineOk, CodeSize;
    if j == |prog| {
      StartEnd(prog, 0);
      CodeLoaded(prog);
      NothingEntered(CodeOf(prog));
    } else {
      EnteredIsPlaces(prog, j + 1);
      EnteredLine(prog, j);
    }
  }

  /** The first pass over an assembled file enters the places of all references, in order. */
  lemma KeysArePlaces(prog: seq<Line>)
    requires Listable(prog)
    ensures Disasm.Keys(CodeOf(prog)) == Places(prog, 0)
  {
    hide CodeOf, Start, UniqueLabels, Recognised, TargetsIn, Defs, Reference, Place, Places, Disasm.Entered;
    StartZero(prog);
    EnteredIsPlaces(prog, 0);
  }

  // ---- A listing with a captured label ----

  /** Eighteen references to `e`, then one to `a`: in the listing `e` is `label2` and `a`, in
      front of the first reference, is `label20`. */
  const NINETEEN: seq<Line> :=
    [Line(None, Some(Code(NoArg(NOP)))), Line(Some("a"), Some(Jump(BRA, "e")))]
    + seq(17, _ => Line(None, Some(Jump(BRA, "e"))))
    + [Line(None, Some(Jump(BRA, "a"))), Line(Some("e"), Some(Code(NoArg(STOP))))]

  lemma NineteenLines()
    ensures |NINETEEN| == 21 && NINETEEN[0] == Line(None, Some(Code(NoArg(NOP))))
    ensures forall k :: 1 <= k < 20 ==>
      NINETEEN[k] == Line(if k == 1 then Some("a") else None, Some(Jump(BRA, if k == 19 then "a" else "e")))
    ensures NINETEEN[20] == Line(Some("e"), Some(Code(NoArg(STOP))))
    ensures ProgramOk(NINETEEN)
  {
  }

  lemma {:induction false} NineteenStart(k: nat)
    requires 1 <= k <= 21
    ensures ProgramOk(NINETEEN) && |NINETEEN| == 21
    ensures Start(NINETEEN, k, 0) == if k == 21 then 97 else 5 * k - 4
  {
    hide NINETEEN, Start;
    NineteenLines();
    if k == 1 { StartZero(NINETEEN); } else { NineteenStart(k - 1); }
    StartNext(NINETEEN, k - 1, 0);
  }

  lemma NineteenPlain()
    ensures PlainProgram(NINETEEN)
  {
    hide NINETEEN, Start, RefCode;
    NineteenLines();
    NineteenStart(21);
    StartEnd(NINETEEN, 0);
    DefsNames(NINETEEN, |HEADER|);
    var F := Defs(NINETEEN, |HEADER|);
    assert NINETEEN[1].name == Some("a") && NINETEEN[20].name == Some("e");
    assert "a" in F && "e" in F && "a" != "e";
    ReferenceSize(NINETEEN, F, |HEADER|);
  }

  lemma NineteenPlace(k: nat)
    requires 1 <= k < 20
    ensures PlainProgram(NINETEEN) && |NINETEEN| == 21 && Target(NINETEEN[k]).Some?
    ensures Place(NINETEEN, Target(NINETEEN[k]).value) == if k == 19 then 1 else 96
  {
    hide NINETEEN, Start, PlainProgram, Place;
    NineteenLines();
    NineteenPlain();
    var d := PlaceOf(NINETEEN, k);
    assert "a" != "e";
    NineteenStart(if k == 19 then 1 else 20);
  }

  lemma NineteenListable()
    ensures Listable(NINETEEN)
  {
    hide NINETEEN, Start, PlainProgram, Place, CodeSize;
    NineteenLines();
    NineteenPlain();
    NineteenStart(21);
    StartEnd(NINETEEN, 0);
    forall l | l in NINETEEN && Target(l).Some? ensures Place(NINETEEN, Target(l).value) < CodeSize(NINETEEN) {
      var k :| 0 <= k < |NINETEEN| && NINETEEN[k] == l;
      NineteenPlace(k);
    }
  }

  lemma {:induction false} NineteenPlaces(j: nat)
    requires j <= 19
    ensures PlainProgram(NINETEEN) && |NINETEEN| == 21
    ensures Places(NINETEEN, j) == seq(if j == 0 then 18 else 19 - j, _ => 96) + [1]
    decreases 19 - j
  {
    hide NINETEEN, PlainProgram, Place;
    NineteenLines();
    if j > 0 { NineteenPlace(j); }
    if j < 19 {
      NineteenPlaces(j + 1);
    } else {
      assert Places(NINETEEN, 21) == [] && Places(NINETEEN, 20) == [];
    }
  }

  lemma {:induction false} NumberBehind(n: nat, next: nat)
    ensures Disasm.NumberFrom(seq(n, _ => 96) + [1], 1, next) == next + n
  {
    if n > 0 {
      assert (seq(n, _ => 96) + [1])[1..] == seq(n - 1, _ => 96) + [1];
      NumberBehind(n - 1, next + 1);
    }
  }

  lemma NumbersOfPlaces(keys: seq<u32>)
    requires keys == seq(18, _ => 96) + [1]
    ensures |keys| == 19 && Disasm.Number(keys, 0) == 1 && Disasm.Number(keys, 96) == 2 && Disasm.Number(keys, 1) == 20
  {
    assert keys[0] == 96;
    NumberBehind(18, 2);
  }

  lemma NineteenKeys()
    ensures Listable(NINETEEN)
    ensures var keys := Disasm.Keys(CodeOf(NINETEEN));
      && |keys| == 19 && Disasm.Number(keys, 0) == 1
      && Disasm.Number(keys, 96) == 2 && Disasm.Number(keys, 1) == 20
  {
    hide NINETEEN, UniqueLabels, Recognised, TargetsIn, Reference, Plain, CodeOf, Disasm.Keys, Places, Place,
         Disasm.Number;
    NineteenListable();
    KeysArePlaces(NINETEEN);
    NineteenPlaces(0);
    NumbersOfPlaces(Disasm.Keys(CodeOf(NINETEEN)));
  }

  lemma CapturedSecond(first: Line, second: Line, rest: seq<Line>, l: string, n: string)
    requires Target(first).None? && Target(second) == Some(l) && second.name == Some(n)
    requires l < n && first.name != Some(l)
    ensures !Clean([first, second] + rest, {}, {})
  {
    var lines := [first, second] + rest;
    assert lines[1..] == [second] + rest && lines[1..][0] == second;
    assert l != n;
    var known := if first.name.Some? then {first.name.value} else {};
    assert Captured(l, known + {n}, {});
    assert !Clean(lines[1..], known, {});
  }

  /** Its listing begins with `label1` and `label20 bra label2`. */
  lemma NineteenListing() returns (first: Line, second: Line, rest: seq<Line>)
    ensures Listable(NINETEEN) && Listing(CodeOf(NINETEEN)) == [first, second] + rest
    ensures first.name == Some(NameOf(1)) && Target(first).None?
    ensures second.name == Some(NameOf(20)) && Target(second) == Some(NameOf(2))
  {
    hide NINETEEN, UniqueLabels, Recognised, TargetsIn, Reference, Defs, LineOk, Plain, CodeOf, Disasm.Keys, CodeSize,
         Start, Place, NameOf, Disasm.Number, Lines;
    NineteenLines();
    NineteenKeys();
    var keys := Disasm.Keys(CodeOf(NINETEEN));
    StartZero(NINETEEN);
    ListedIsTail(NINETEEN, keys, 0);
    NineteenStart(1);
    NineteenPlace(1);
    first, second := Renamed(NINETEEN, keys, 0, NINETEEN[0]), Renamed(NINETEEN, keys, 1, NINETEEN[1]);
    rest := Tail(NINETEEN, keys, 2);
  }

  lemma NineteenNotClean()
    ensures Listable(NINETEEN) && !Clean(Listing(CodeOf(NINETEEN)), {}, {})
  {
    hide NINETEEN, WellDefined, Plain, Reference, CodeOf, Clean, NameOf, Listing;
    var first, second, rest := NineteenListing();
    LongerName();
    CapturedSecond(first, second, rest, NameOf(2), NameOf(20));
  }

  lemma LongerName()
    ensures NameOf(2) < NameOf(20) && NameOf(1) != NameOf(2)
  {
    assert Numeral(20, 10) == Numeral(2, 10) + ['0'];
    assert Numeral(1, 10)[0] != Numeral(2, 10)[0];
    assert NameOf(1)[5] != NameOf(2)[5];
  }

  /** Nineteen references can be too many: disassembled and assembled again, this program
      gives another file. */
  lemma NineteenReferencesFail()
    ensures Listable(NINETEEN) && |Disasm.Keys(CodeOf(NINETEEN))| == 19
    ensures var end := Run(START, Listing(CodeOf(NINETEEN)));
      && (!end.Crashed? ==> HolesOk(end.asm))
      && forall order | !end.Crashed? ==> Enumerates(order, end.asm.fwd.Keys) ::
           Finish(end, order) != Some(Reference(NINETEEN))
  {
    hide NINETEEN, WellDefined, Plain, CodeOf, Disasm.Keys, Clean, Listing, Reference, Run;
    NineteenKeys();
    NineteenNotClean();
    var end := Run(START, Listing(CodeOf(NINETEEN)));
    RunExtends(START, Listing(CodeOf(NINETEEN)));
    forall order | !end.Crashed? ==> Enumerates(order, end.asm.fwd.Keys)
      ensures (!end.Crashed? ==> HolesOk(end.asm)) && Finish(end, order) != Some(Reference(NINETEEN))
    {
      Reassembles(NINETEEN, order);
    }
  }
}
