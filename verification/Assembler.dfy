/** The assembler as the program runs it: one object whose fields are updated as each line
    is read, and a final loop that seeks back into the output to fill the holes. */
module OnePass {
  import opened Words
  import opened Isa
  import opened Symbols
  import opened Assembly
  import opened Backpatch
  import opened Holes

  datatype Progress = Continue | Stop | NullDereference

  class Assembler {
    var dest: seq<byte>
    var pos: nat
    var labels: map<string, nat>
    var fwd: map<string, seq<nat>>

    ghost function View(): Asm
      reads this
    {
      Asm(dest, labels, fwd)
    }

    /** The position counter tracks the length of the output and fits 32 bits. */
    ghost predicate InStep()
      reads this
    {
      pos == |dest| < TWO32
    }

    ghost predicate Valid()
      reads this
    {
      InStep() && HolesOk(View())
    }

    constructor ()
      ensures Valid() && View() == START
    {
      dest, pos, labels, fwd := HEADER, |HEADER|, map[], map[];
    }

    method WriteBytes(s: seq<byte>)
      requires InStep() && |dest| + |s| < TWO32
      modifies this`dest, this`pos
      ensures InStep() && dest == old(dest) + s
      ensures old(Valid()) ==> Valid()
    {
      dest := dest + s;
      pos := pos + |s|;
    }

    method WriteUint32(v: u32)
      requires InStep() && |dest| + 4 < TWO32
      modifies this`dest, this`pos
      ensures InStep() && dest == old(dest) + ToLE(v, 4)
      ensures old(Valid()) ==> Valid()
    {
      WriteBytes(ToLE(v, 4));
    }

    /** The value to write for a label, entering a forward reference when it is unknown. */
    method ParseLabel(l: string) returns (ok: bool, v: u32)
      requires Valid() && |dest| + 4 < TWO32
      modifies this`fwd
      ensures EmitLabel(old(View()), l) == if ok then Running(View().(dest := dest + ToLE(v, 4))) else Crashed
    {
      match Get(labels, l)
      case Found(p) =>
        v := (p - pos - 8) % TWO32;
        return true, v;
      case Interior =>
        v := (0 - pos - 8) % TWO32;
        return true, v;
      case Absent =>
        PlaceholderBytes();
        match Get(fwd, l) {
          case Absent => fwd := fwd[l := [pos]];
          case Found(holes) => fwd := fwd[l := holes + [pos]];
          case Interior => return false, 0;
        }
        return true, 0xA5A5A5A5;
    }

    method WriteLabel(l: string) returns (ok: bool)
      requires Valid() && |dest| + 4 < TWO32
      modifies this
      ensures EmitLabel(old(View()), l) == if ok then Running(View()) else Crashed
      ensures ok ==> Valid() && |dest| == |old(dest)| + 4
    {
      ghost var before := View();
      var v;
      ok, v := ParseLabel(l);
      if ok {
        EmitLabelExtends(before, l);
        WriteUint32(v);
      }
    }

    method AssembleStmt(s: Stmt) returns (r: Progress)
      requires Valid() && StmtOk(s) && |dest| + Size(s) < TWO32
      modifies this
      ensures match r
        case Continue => EmitStmt(old(View()), s) == Running(View()) && Valid() && |dest| == |old(dest)| + Size(s)
        case Stop => EmitStmt(old(View()), s) == Halted(View()) && Valid() && dest == old(dest)
        case NullDereference => EmitStmt(old(View()), s) == Crashed
    {
      r := Continue;
      match s
      case Code(i) => WriteBytes(Encode(i));
      case Data(bytes) => WriteBytes(bytes);
      case Unknown => r := Stop;
      case Jump(op, l) =>
        WriteBytes([op]);
        var ok := WriteLabel(l);
        if !ok { r := NullDereference; }
      case ReferTo(l, reg) =>
        WriteBytes([REFER]);
        var ok := WriteLabel(l);
        if ok { WriteBytes([reg]); } else { r := NullDereference; }
    }

    method AssembleLine(line: Line) returns (r: Progress)
      requires Valid() && LineOk(line) && |dest| + LineSize(line) < TWO32
      modifies this
      ensures match r
        case Continue => EmitLine(old(View()), line) == Running(View())
          && Valid() && |dest| == |old(dest)| + LineSize(line)
        case Stop => EmitLine(old(View()), line) == Halted(View()) && Valid()
        case NullDereference => EmitLine(old(View()), line) == Crashed
    {
      if line.name.Some? {
        if line.name.value in labels && labels[line.name.value] != 0 {
          return Stop;
        }
        labels := labels[line.name.value := pos];
      }
      r := Continue;
      if line.stmt.Some? {
        r := AssembleStmt(line.stmt.value);
      }
    }

    /** All holes of one label, in the order of the list. */
    method FixOne(p: nat, holes: seq<nat>)
      requires Valid() && InRange(holes, |dest|)
      modifies this`dest
      ensures Valid() && dest == PatchAll(old(dest), p, holes)
    {
      var k := 0;
      while k < |holes|
        invariant 0 <= k <= |holes| && |dest| == |old(dest)|
        invariant PatchAll(dest, p, holes[k..]) == PatchAll(old(dest), p, holes)
      {
        var h := holes[k];
        assert holes[k..][0] == h && holes[k..][1..] == holes[k + 1..];
        dest := dest[..h] + ToLE((p - h - 8) % TWO32, 4) + dest[h + 4..];
        k := k + 1;
      }
    }

    /** The walk over the forward table, in the order its keys come up. */
    method FixFwdLabels() returns (ghost order: seq<string>)
      requires Valid()
      modifies this`dest
      ensures Enumerates(order, fwd.Keys) && NoRepeats(order)
      ensures |dest| == |old(dest)| && dest == FixUp(old(dest), labels, fwd, order)
    {
      order := [];
      var todo := fwd.Keys;
      while todo != {}
        invariant Valid() && |dest| == |old(dest)| && todo <= fwd.Keys
        invariant Enumerates(order, fwd.Keys - todo) && NoRepeats(order)
        invariant dest == FixUp(old(dest), labels, fwd, order)
        decreases |todo|
      {
        var l :| l in todo;
        FixUpSnoc(old(dest), labels, fwd, order, l);
        match Get(labels, l) {
          case Found(p) => FixOne(p, fwd[l]);
          case Interior => FixOne(0, fwd[l]);
          case Absent =>
        }
        order := order + [l];
        todo := todo - {l};
      }
    }
  }

  lemma PlaceholderBytes()
    ensures ToLE(0xA5A5A5A5, 4) == HOLE
  {
    assert ToLE(0xA5A5A5, 3) == [0xA5, 0xA5, 0xA5];
    assert ToLE(0xA5A5, 2) == [0xA5, 0xA5];
  }

  function FixStep(d: seq<byte>, labels: map<string, nat>, fwd: map<string, seq<nat>>, l: string): (r: seq<byte>)
    requires l in fwd && InRange(fwd[l], |d|)
    ensures |r| == |d|
  {
    match Get(labels, l)
    case Found(p) => PatchAll(d, p, fwd[l])
    case Interior => PatchAll(d, 0, fwd[l])
    case Absent => d
  }

  /** One more key at the end of the walk is one more step on its result. */
  lemma {:induction false} FixUpSnoc(d: seq<byte>, labels: map<string, nat>, fwd: map<string, seq<nat>>,
                                     order: seq<string>, l: string)
    requires forall x :: x in order + [l] ==> x in fwd
    requires forall x :: x in fwd ==> InRange(fwd[x], |d|)
    ensures FixUp(d, labels, fwd, order + [l]) == FixStep(FixUp(d, labels, fwd, order), labels, fwd, l)
    decreases |order|
  {
    if order == [] {
      assert order + [l] == [l] && [l][1..] == [];
    } else {
      assert (order + [l])[1..] == order[1..] + [l] && (order + [l])[0] == order[0];
      assert forall x :: x in order[1..] + [l] ==> x in order + [l];
      FixUpSnoc(FixStep(d, labels, fwd, order[0]), labels, fwd, order[1..], l);
    }
  }

  function CodeSize(prog: seq<Line>): nat
    requires ProgramOk(prog)
    decreases |prog|
  {
    if prog == [] then 0 else LineSize(prog[0]) + CodeSize(prog[1..])
  }

  /** The whole program: header, lines until the end or an error, fix-ups. The result is
      the file left behind, or None if the assembler dereferences NULL. */
  method Assemble(prog: seq<Line>) returns (out: Option<seq<byte>>, ghost order: seq<string>)
    requires ProgramOk(prog) && |HEADER| + CodeSize(prog) < TWO32
    ensures out.None? <==> Run(START, prog).Crashed?
    ensures out.Some? ==>
      HolesOk(Run(START, prog).asm) && Enumerates(order, Run(START, prog).asm.fwd.Keys) && NoRepeats(order)
    ensures out == Finish(Run(START, prog), order)
    ensures WellDefined(prog) ==> (out == Some(Reference(prog)) <==> Clean(prog, {}, {}))
  {
    var a := new Assembler();
    var k := 0;
    assert prog[0..] == prog;
    while k < |prog|
      invariant 0 <= k <= |prog| && a.Valid() && fresh(a)
      invariant |a.dest| + CodeSize(prog[k..]) < TWO32
      invariant Run(a.View(), prog[k..]) == Run(START, prog)
    {
      assert prog[k] in prog && prog[k..][0] == prog[k] && prog[k..][1..] == prog[k + 1..];
      var r := a.AssembleLine(prog[k]);
      k := k + 1;
      if r == NullDereference {
        if WellDefined(prog) { CrashIsNotClean(prog); }
        return None, [];
      }
      if r == Stop { break; }
    }
    ghost var s := Run(START, prog);
    assert s.asm == a.View();
    order := a.FixFwdLabels();
    out := Some(a.dest);
    if WellDefined(prog) {
      ReferenceSize(prog, Defs(prog, |HEADER|), |HEADER|);
      OnePassIsTwoPass(prog, order);
    }
  }

  lemma {:induction false} ReferenceSize(prog: seq<Line>, table: map<string, nat>, at: nat)
    requires ProgramOk(prog) && TargetsIn(prog, table.Keys)
    ensures |RefCode(prog, table, at)| == CodeSize(prog)
    decreases |prog|
  {
    if prog != [] {
      assert prog[0] in prog && forall l :: l in prog[1..] ==> l in prog;
      ReferenceSize(prog[1..], table, at + LineSize(prog[0]));
    }
  }

  lemma CrashIsNotClean(prog: seq<Line>)
    requires WellDefined(prog) && |HEADER| + CodeSize(prog) < TWO32 && Run(START, prog).Crashed?
    ensures !Clean(prog, {}, {})
  {
    ReferenceSize(prog, Defs(prog, |HEADER|), |HEADER|);
    OnePassIsTwoPass(prog, []);
  }
}
