/** What a symbol-table lookup can answer. The tables are ternary search trees (see
    `STree`), and looking up a proper prefix of a stored key reaches a node that carries
    no value; the root node stands for the key "-" from the start. */
module Symbols {
  datatype Lookup<+T> = Absent | Interior | Found(value: T)

  /** Some name in the table is longer than `s` and starts with it. */
  predicate Prefixes(s: string, names: set<string>) {
    exists k :: k in names && s < k
  }

  function Get<T>(m: map<string, T>, s: string): Lookup<T> {
    if s in m then Found(m[s])
    else if s == "-" || Prefixes(s, m.Keys) then Interior
    else Absent
  }
}

/** The one-pass assembler: code is emitted as it is read, references to labels not yet
    seen leave a four-byte hole, and the holes are filled after the last line. */
module Assembly {
  import opened Words
  import opened Isa
  import opened Symbols

  /** One source line after lexing. Operands other than labels are already values. */
  datatype Stmt =
    | Code(i: Instr)
    | Jump(op: byte, target: string)
    | ReferTo(target: string, r: byte)
    | Data(bytes: seq<byte>)
    | Unknown

  datatype Line = Line(name: Option<string>, stmt: Option<Stmt>)

  predicate StmtOk(s: Stmt) {
    match s
    case Code(i) => WellFormed(i)
    case Jump(op, l) => IsOffset(op) && l != ""
    case ReferTo(l, _) => l != ""
    case Data(_) => true
    case Unknown => true
  }

  predicate LineOk(l: Line) {
    && (l.name.Some? ==> l.name.value != "")
    && (l.stmt.Some? ==> StmtOk(l.stmt.value))
  }

  predicate ProgramOk(prog: seq<Line>) { forall l :: l in prog ==> LineOk(l) }

  const HEADER: seq<byte> := [109, 105, 104, 105, 110, 105, 1, 0, 0, 0]
  const HOLE: seq<byte> := [0xA5, 0xA5, 0xA5, 0xA5]

  /** The offset stored at file position `at` to reach file position `target`. */
  function Rel(target: nat, at: nat): u32 { (target - at - 8) % TWO32 }

  /** The assembler's state: bytes written so far, labels defined so far, and for each
      label referenced too early the positions of its holes. */
  datatype Asm = Asm(dest: seq<byte>, labels: map<string, nat>, fwd: map<string, seq<nat>>)

  /** A run goes on, stops at an error (the fix-ups still happen), or dereferences NULL. */
  datatype Status = Running(asm: Asm) | Halted(asm: Asm) | Crashed

  const START := Asm(HEADER, map[], map[])

  /** Writing the offset of a label at the end of the output. */
  function EmitLabel(a: Asm, l: string): Status {
    var at := |a.dest|;
    match Get(a.labels, l)
    case Found(p) => Running(a.(dest := a.dest + ToLE(Rel(p, at), 4)))
    case Interior => Running(a.(dest := a.dest + ToLE(Rel(0, at), 4)))
    case Absent =>
      match Get(a.fwd, l)
      case Absent => Running(a.(dest := a.dest + HOLE, fwd := a.fwd[l := [at]]))
      case Found(holes) => Running(a.(dest := a.dest + HOLE, fwd := a.fwd[l := holes + [at]]))
      case Interior => Crashed
  }

  function EmitStmt(a: Asm, s: Stmt): Status
    requires StmtOk(s)
  {
    match s
    case Code(i) => Running(a.(dest := a.dest + Encode(i)))
    case Jump(op, l) => EmitLabel(a.(dest := a.dest + [op]), l)
    case ReferTo(l, r) =>
      (match EmitLabel(a.(dest := a.dest + [REFER]), l)
       case Running(b) => Running(b.(dest := b.dest + [r]))
       case other => other)
    case Data(bytes) => Running(a.(dest := a.dest + bytes))
    case Unknown => Halted(a)
  }

  function EmitLine(a: Asm, line: Line): Status
    requires LineOk(line)
  {
    if line.name.Some? && line.name.value in a.labels && a.labels[line.name.value] != 0 then Halted(a) else
    var b := if line.name.Some? then a.(labels := a.labels[line.name.value := |a.dest|]) else a;
    if line.stmt.None? then Running(b) else EmitStmt(b, line.stmt.value)
  }

  function Run(a: Asm, prog: seq<Line>): Status
    requires ProgramOk(prog)
    decreases |prog|
  {
    if prog == [] then Running(a) else
    match EmitLine(a, prog[0])
    case Running(b) => Run(b, prog[1..])
    case other => other
  }

  function Patch(d: seq<byte>, at: nat, v: u32): (r: seq<byte>)
    requires at + 4 <= |d|
    ensures |r| == |d|
  {
    d[..at] + ToLE(v, 4) + d[at + 4..]
  }

  predicate InRange(holes: seq<nat>, n: nat) { forall k :: 0 <= k < |holes| ==> holes[k] + 4 <= n }

  function PatchAll(d: seq<byte>, p: nat, holes: seq<nat>): (r: seq<byte>)
    requires InRange(holes, |d|)
    ensures |r| == |d|
    decreases |holes|
  {
    if holes == [] then d else PatchAll(Patch(d, holes[0], Rel(p, holes[0])), p, holes[1..])
  }

  /** Filling the holes, label by label in the order in which the table gets iterated. */
  function FixUp(d: seq<byte>, labels: map<string, nat>, fwd: map<string, seq<nat>>, order: seq<string>): (r: seq<byte>)
    requires forall l :: l in order ==> l in fwd
    requires forall l :: l in fwd ==> InRange(fwd[l], |d|)
    ensures |r| == |d|
    decreases |order|
  {
    if order == [] then d else
    var l := order[0];
    var d' :=
      match Get(labels, l)
      case Found(p) => PatchAll(d, p, fwd[l])
      case Interior => PatchAll(d, 0, fwd[l])
      case Absent => d;
    FixUp(d', labels, fwd, order[1..])
  }

  predicate HolesOk(a: Asm) { forall l :: l in a.fwd ==> InRange(a.fwd[l], |a.dest|) }

  ghost predicate Enumerates(order: seq<string>, keys: set<string>) {
    forall l :: l in order <==> l in keys
  }

  /** The file the assembler leaves, given the order in which the forward table is
      iterated; None when it dereferences NULL. */
  function Finish(s: Status, order: seq<string>): Option<seq<byte>>
    requires !s.Crashed? ==> HolesOk(s.asm) && forall l :: l in order ==> l in s.asm.fwd
  {
    if s.Crashed? then None else Some(FixUp(s.asm.dest, s.asm.labels, s.asm.fwd, order))
  }

  // ---- Frame: what a run can touch ----

  /** Positions covered by some hole. */
  ghost predicate InHole(fwd: map<string, seq<nat>>, j: nat) {
    exists l, h :: l in fwd && h in fwd[l] && h <= j < h + 4
  }

  /** Labels that are defined keep their positions. */
  ghost predicate KeepsLabels(a: map<string, nat>, b: map<string, nat>) {
    forall l :: l in a && a[l] != 0 ==> l in b && b[l] == a[l]
  }

  /** The holes of a label are only added to, at the end. */
  ghost predicate KeepsHoles(a: map<string, seq<nat>>, b: map<string, seq<nat>>) {
    forall l :: l in a ==> l in b && a[l] <= b[l]
  }

  /** `b` continues `a`: output only grows, defined labels stay, old holes stay, and new
      holes lie in the new output. */
  ghost predicate Extends(a: Asm, b: Asm) {
    && a.dest <= b.dest
    && HolesOk(b) && KeepsLabels(a.labels, b.labels) && KeepsHoles(a.fwd, b.fwd)
    && forall l, h :: l in b.fwd && h in b.fwd[l] ==> (l in a.fwd && h in a.fwd[l]) || h >= |a.dest|
  }

  lemma EmitLabelExtends(a: Asm, l: string)
    requires HolesOk(a)
    ensures EmitLabel(a, l).Running? ==> Extends(a, EmitLabel(a, l).asm)
    ensures EmitLabel(a, l).Running? ==>
      |EmitLabel(a, l).asm.dest| == |a.dest| + 4 && EmitLabel(a, l).asm.labels == a.labels
    ensures !EmitLabel(a, l).Halted?
  {
    hide ToLE, Rel, Prefixes;
    assert forall m :: m in a.fwd ==> InRange(a.fwd[m], |a.dest| + 4);
  }

  lemma EmitLineExtends(a: Asm, line: Line)
    requires HolesOk(a) && LineOk(line)
    ensures !EmitLine(a, line).Crashed? ==> Extends(a, EmitLine(a, line).asm)
  {
    if line.name.Some? && line.name.value in a.labels && a.labels[line.name.value] != 0 { return; }
    var b := if line.name.Some? then a.(labels := a.labels[line.name.value := |a.dest|]) else a;
    if line.stmt.None? { return; }
    match line.stmt.value
    case Jump(op, l) => EmitLabelExtends(b.(dest := b.dest + [op]), l);
    case ReferTo(l, r) => EmitLabelExtends(b.(dest := b.dest + [REFER]), l);
    case _ =>
  }

  lemma ExtendsTransitive(a: Asm, b: Asm, c: Asm)
    requires Extends(a, b) && Extends(b, c)
    ensures Extends(a, c)
  {
  }

  lemma {:induction false} RunExtends(a: Asm, prog: seq<Line>)
    requires HolesOk(a) && ProgramOk(prog)
    ensures !Run(a, prog).Crashed? ==> Extends(a, Run(a, prog).asm)
    decreases |prog|
  {
    if prog != [] {
      EmitLineExtends(a, prog[0]);
      if EmitLine(a, prog[0]).Running? {
        RunExtends(EmitLine(a, prog[0]).asm, prog[1..]);
        if !Run(a, prog).Crashed? {
          ExtendsTransitive(a, EmitLine(a, prog[0]).asm, Run(a, prog).asm);
        }
      }
    }
  }

  lemma {:induction false} PatchAllFrame(d: seq<byte>, p: nat, holes: seq<nat>, j: nat)
    requires InRange(holes, |d|) && j < |d|
    requires forall k :: 0 <= k < |holes| ==> !(holes[k] <= j < holes[k] + 4)
    ensures PatchAll(d, p, holes)[j] == d[j]
    decreases |holes|
  {
    if holes != [] {
      PatchAllFrame(Patch(d, holes[0], Rel(p, holes[0])), p, holes[1..], j);
    }
  }

  /** Fix-ups change no byte outside the holes. */
  lemma {:induction false} FixUpFrame(d: seq<byte>, labels: map<string, nat>, fwd: map<string, seq<nat>>,
                                      order: seq<string>, j: nat)
    requires forall l :: l in order ==> l in fwd
    requires forall l :: l in fwd ==> InRange(fwd[l], |d|)
    requires j < |d| && !InHole(fwd, j)
    ensures FixUp(d, labels, fwd, order)[j] == d[j]
    decreases |order|
  {
    if order != [] {
      var l := order[0];
      var g := Get(labels, l);
      var d' := if g.Absent? then d else PatchAll(d, if g.Found? then g.value else 0, fwd[l]);
      assert forall k :: 0 <= k < |fwd[l]| ==> fwd[l][k] in fwd[l];
      if !g.Absent? { PatchAllFrame(d, if g.Found? then g.value else 0, fwd[l], j); }
      FixUpFrame(d', labels, fwd, order[1..], j);
    }
  }
}
