/** Splitting a source line into label, opcode, width, arguments and comment. */
module Lexer {
  import opened Words

  /** A piece of the line; empty if `start == end`. */
  datatype Segment = Segment(start: nat, end: nat) {
    predicate Empty() { start >= end }
  }

  const NONE := Segment(0, 0)

  datatype Offsets = Offsets(name: Segment, opcode: Segment, width: Segment, arg1: Segment, arg2: Segment,
    arg3: Segment, comment: Segment)

  const BLANK := Offsets(NONE, NONE, NONE, NONE, NONE, NONE, NONE)

  predicate IsSpace(c: char) { c == ' ' || c == '\t' || c == '\r' || c == '\n' }

  function SkipSpace(line: string, pos: nat): (r: nat)
    requires pos <= |line|
    ensures pos <= r <= |line|
    decreases |line| - pos
  {
    if pos < |line| && IsSpace(line[pos]) then SkipSpace(line, pos + 1) else pos
  }

  function SkipText(line: string, pos: nat): (r: nat)
    requires pos <= |line|
    ensures pos <= r <= |line|
    decreases |line| - pos
  {
    if pos < |line| && !IsSpace(line[pos]) then SkipText(line, pos + 1) else pos
  }

  function NextSegment(line: string, pos: nat): (s: Segment)
    requires pos <= |line|
    ensures pos <= s.start <= s.end <= |line|
  {
    var start := SkipSpace(line, pos);
    Segment(start, SkipText(line, start))
  }

  predicate IsComment(line: string, s: Segment) { CharAt(line, s.start) == '/' && CharAt(line, s.start + 1) == '/' }

  /** An opcode that ends in a dot and one more character carries a width. */
  function WithOpcode(line: string, o: Offsets, s: Segment): Offsets {
    if CharAt(line, s.end - 2) == '.'
    then o.(opcode := Segment(s.start, if s.end >= 2 then s.end - 2 else 0), width := Segment(s.end - 1, s.end))
    else o.(opcode := s)
  }

  /** What the piece found at stage `n` is taken for. */
  function Take(line: string, o: Offsets, n: nat, s: Segment): Offsets {
    if n == 1 then (if s.start == 0 then o.(name := s) else WithOpcode(line, o, s))
    else if n == 2 then (if o.opcode.Empty() then WithOpcode(line, o, s) else o.(arg1 := s))
    else if n == 3 then (if o.arg1.Empty() then o.(arg1 := s) else o.(arg2 := s))
    else if n == 4 then (if o.arg2.Empty() then o.(arg2 := s) else o.(arg3 := s))
    else o
  }

  /** The five stages of the parser. */
  function Stage(line: string, o: Offsets, pos: nat, n: nat): Offsets
    requires pos <= |line|
    decreases 6 - n
  {
    if n >= 6 then o else
    var s := NextSegment(line, pos);
    if n > 1 && s.Empty() then o
    else if IsComment(line, s) then o.(comment := Segment(s.start, |line|))
    else if n == 5 then o
    else Stage(line, Take(line, o, n, s), s.end, n + 1)
  }

  function Parse(line: string): Offsets { Stage(line, BLANK, 0, 1) }

  function LowerChar(c: char): char { if 'A' <= c <= 'Z' then c - 'A' + 'a' else c }

  function Lower(s: string): (r: string)
    ensures |r| == |s|
  {
    seq(|s|, i requires 0 <= i < |s| => LowerChar(s[i]))
  }

  function GetSegment(line: string, s: Segment): string {
    if s.start <= s.end <= |line| then Lower(line[s.start..s.end]) else ""
  }

  // ---- The notation ----

  /** The parts of a line; "" stands for a part that is missing. */
  datatype Source = Source(name: string, opcode: string, width: string, args: seq<string>, comment: string)

  predicate IsWord(s: string) { s != "" && forall i :: 0 <= i < |s| ==> !IsSpace(s[i]) }

  predicate IsGap(s: string) { s != "" && forall i :: 0 <= i < |s| ==> IsSpace(s[i]) }

  predicate StartsComment(s: string) { |s| >= 2 && s[0] == '/' && s[1] == '/' }

  predicate Plain(s: string) { IsWord(s) && !StartsComment(s) }

  /** A label begins in the first column, an opcode does not; the opcode must not look as if
      it had a width when it has none. At most three arguments, two behind a label. */
  predicate SourceOk(s: Source) {
    && (s.name != "" ==> Plain(s.name))
    && (s.opcode != "" ==> Plain(s.opcode))
    && (s.width == "" ==> CharAt(s.opcode, |s.opcode| - 2) != '.')
    && (s.width != "" ==> s.opcode != "" && |s.width| == 1 && IsWord(s.width))
    && (forall a :: a in s.args ==> Plain(a))
    && (s.args != [] ==> s.opcode != "")
    && |s.args| <= (if s.name != "" then 2 else 3)
    && (s.comment != "" ==> StartsComment(s.comment))
  }

  /** The end of a line: nothing, or a comment behind a gap. */
  predicate Ending(rest: string, gap: string, comment: string) {
    if comment == "" then rest == "" else IsGap(gap) && StartsComment(comment) && rest == gap + comment
  }

  /** Arguments, each behind a gap. */
  function ArgsText(gaps: seq<string>, args: seq<string>): string
    requires |gaps| == |args|
  {
    if args == [] then "" else gaps[0] + args[0] + ArgsText(gaps[1..], args[1..])
  }

  function OpcodeText(s: Source): string { s.opcode + if s.width == "" then "" else "." + s.width }

  /** A line as written: `lead` before the opcode, or before a lone comment. */
  function Text(s: Source, lead: string, gaps: seq<string>, tail: string): string
    requires |gaps| == |s.args|
  {
    s.name
    + (if s.opcode == "" then "" else lead + OpcodeText(s) + ArgsText(gaps, s.args))
    + (if s.comment == "" then "" else tail + s.comment)
  }

  // ---- Pieces ----

  lemma {:induction false} SkipSpaceIs(line: string, pos: nat, k: nat)
    requires pos + k <= |line| && forall i :: pos <= i < pos + k ==> IsSpace(line[i])
    requires pos + k < |line| ==> !IsSpace(line[pos + k])
    ensures SkipSpace(line, pos) == pos + k
    decreases k
  {
    if k > 0 { SkipSpaceIs(line, pos + 1, k - 1); }
  }

  lemma {:induction false} SkipTextIs(line: string, pos: nat, k: nat)
    requires pos + k <= |line| && forall i :: pos <= i < pos + k ==> !IsSpace(line[i])
    requires pos + k < |line| ==> IsSpace(line[pos + k])
    ensures SkipText(line, pos) == pos + k
    decreases k
  {
    if k > 0 { SkipTextIs(line, pos + 1, k - 1); }
  }

  predicate AllSpace(s: string) { forall i :: 0 <= i < |s| ==> IsSpace(s[i]) }

  /** `rest` does not go on with the word before it. */
  predicate Breaks(rest: string) { rest != "" ==> IsSpace(rest[0]) }

  lemma WordSegment(line: string, pos: nat, gap: string, word: string, rest: string)
    requires pos <= |line| && line[pos..] == gap + word + rest && AllSpace(gap) && IsWord(word) && Breaks(rest)
    ensures NextSegment(line, pos) == Segment(pos + |gap|, pos + |gap| + |word|)
    ensures line[pos + |gap|..pos + |gap| + |word|] == word && line[pos + |gap| + |word|..] == rest
  {
    var a, b := pos + |gap|, pos + |gap| + |word|;
    forall i | pos <= i < |line| ensures line[i] == (gap + word + rest)[i - pos] {
      assert line[i] == line[pos..][i - pos];
    }
    assert forall i :: pos <= i < a ==> line[i] == gap[i - pos];
    assert forall i :: a <= i < b ==> line[i] == word[i - a];
    assert b < |line| ==> line[b] == rest[0];
    SkipSpaceIs(line, pos, |gap|);
    SkipTextIs(line, a, |word|);
    assert line[b..] == line[pos..][b - pos..];
  }

  lemma CommentSegment(line: string, pos: nat, gap: string, comment: string)
    requires pos <= |line| && line[pos..] == gap + comment && AllSpace(gap) && StartsComment(comment)
    ensures var s := NextSegment(line, pos); s.start == pos + |gap| && !s.Empty() && IsComment(line, s)
    ensures line[pos + |gap|..] == comment
  {
    var a := pos + |gap|;
    forall i | pos <= i < |line| ensures line[i] == (gap + comment)[i - pos] {
      assert line[i] == line[pos..][i - pos];
    }
    assert forall i :: pos <= i < a ==> line[i] == gap[i - pos];
    assert line[a] == '/' && line[a + 1] == '/';
    SkipSpaceIs(line, pos, |gap|);
    assert SkipText(line, a) >= SkipText(line, a + 1) >= a + 1;
    assert line[a..] == line[pos..][|gap|..];
  }

  // ---- Stages ----

  lemma TakeWord(line: string, o: Offsets, pos: nat, n: nat, gap: string, word: string, rest: string)
    requires 1 <= n <= 4 && pos <= |line| && line[pos..] == gap + word + rest
    requires AllSpace(gap) && Plain(word) && Breaks(rest)
    ensures var s := Segment(pos + |gap|, pos + |gap| + |word|);
      && s.end <= |line| && line[s.start..s.end] == word && line[s.end..] == rest
      && NextSegment(line, pos) == s
      && Stage(line, o, pos, n) == Stage(line, Take(line, o, n, s), s.end, n + 1)
  {
    WordSegment(line, pos, gap, word, rest);
    var a := pos + |gap|;
    assert line[a] == word[0] && (|word| > 1 ==> line[a + 1] == word[1]) by {
      assert line[a..a + |word|][0] == word[0];
      assert |word| > 1 ==> line[a..a + |word|][1] == word[1];
    }
    assert |word| == 1 && a + 1 < |line| ==> line[a + 1] == rest[0] by {
      assert a + 1 < |line| ==> line[a + 1..][0] == line[a + 1];
    }
  }

  lemma TakeComment(line: string, o: Offsets, pos: nat, n: nat, gap: string, comment: string)
    requires 1 <= n <= 5 && pos <= |line| && line[pos..] == gap + comment && AllSpace(gap) && StartsComment(comment)
    ensures Stage(line, o, pos, n) == o.(comment := Segment(pos + |gap|, |line|))
    ensures line[pos + |gap|..] == comment
  {
    CommentSegment(line, pos, gap, comment);
  }

  lemma TakeEnd(line: string, o: Offsets, pos: nat, n: nat)
    requires 2 <= n && pos == |line|
    ensures Stage(line, o, pos, n) == o
  {
  }

  // ---- What is recovered ----

  function ArgsOf(line: string, o: Offsets): seq<string> {
    if o.arg1.Empty() then []
    else if o.arg2.Empty() then [GetSegment(line, o.arg1)]
    else if o.arg3.Empty() then [GetSegment(line, o.arg1), GetSegment(line, o.arg2)]
    else [GetSegment(line, o.arg1), GetSegment(line, o.arg2), GetSegment(line, o.arg3)]
  }

  function LowerAll(args: seq<string>): (r: seq<string>)
    ensures |r| == |args|
  {
    seq(|args|, i requires 0 <= i < |args| => Lower(args[i]))
  }

  function Pieces(o: Offsets): seq<Segment> { [o.name, o.opcode, o.width, o.arg1, o.arg2, o.arg3, o.comment] }

  /** The pieces found lie before `pos`, in order and without overlap. */
  ghost predicate InOrder(ps: seq<Segment>, pos: nat) {
    && (forall i :: 0 <= i < |ps| && !ps[i].Empty() ==> ps[i].end <= pos)
    && (forall i, j :: 0 <= i < j < |ps| && !ps[i].Empty() && !ps[j].Empty() ==> ps[i].end <= ps[j].start)
  }

  lemma AddPiece(ps: seq<Segment>, k: nat, s: Segment, pos: nat, end: nat)
    requires InOrder(ps, pos) && k < |ps| && (forall j :: k < j < |ps| ==> ps[j].Empty())
    requires pos <= s.start && s.end <= end && pos <= end
    ensures InOrder(ps[k := s], end)
  {
  }

  /** `k` arguments found so far, and no comment. */
  predicate HasArgs(o: Offsets, k: nat) {
    && (o.arg1.Empty() <==> k < 1) && (o.arg2.Empty() <==> k < 2) && (o.arg3.Empty() <==> k < 3) && k <= 3
    && o.comment.Empty()
  }

  ghost predicate SameFront(o: Offsets, r: Offsets) { r.name == o.name && r.opcode == o.opcode && r.width == o.width }

  lemma CommentFound(line: string, o: Offsets, pos: nat, n: nat, gap: string, comment: string)
    requires 2 <= n <= 5 && pos <= |line| && Ending(line[pos..], gap, comment)
    requires InOrder(Pieces(o), pos) && o.comment == NONE
    ensures var r := Stage(line, o, pos, n);
      && r == o.(comment := r.comment) && GetSegment(line, r.comment) == Lower(comment) && InOrder(Pieces(r), |line|)
  {
    hide Stage, InOrder;
    if comment == "" {
      TakeEnd(line, o, pos, n);
      assert line[0..0] == "";
      assert Pieces(o)[6 := NONE] == Pieces(o);
      Wider(Pieces(o), pos, |line|);
    } else {
      TakeComment(line, o, pos, n, gap, comment);
      var s := Segment(pos + |gap|, |line|);
      assert line[s.start..s.end] == comment;
      AddPiece(Pieces(o), 6, s, pos, |line|);
      assert Pieces(o.(comment := s)) == Pieces(o)[6 := s];
    }
  }

  lemma Wider(ps: seq<Segment>, pos: nat, end: nat)
    requires InOrder(ps, pos) && pos <= end
    ensures InOrder(ps, end)
  {
  }

  /** One more argument, at the stage where it is due. */
  lemma ArgTaken(line: string, o: Offsets, n: nat, s: Segment, pos: nat, k: nat, word: string)
    requires HasArgs(o, k) && k < 3 && !o.opcode.Empty() && (n == k + 2 || (n == k + 3 && n <= 4)) && o.comment == NONE
    requires pos <= s.start < s.end <= |line| && line[s.start..s.end] == word && InOrder(Pieces(o), pos)
    ensures var r := Take(line, o, n, s);
      && HasArgs(r, k + 1) && SameFront(o, r) && ArgsOf(line, r) == ArgsOf(line, o) + [Lower(word)] && r.comment == NONE
      && InOrder(Pieces(r), s.end)
  {
    hide InOrder, Lower;
    var r := Take(line, o, n, s);
    assert GetSegment(line, s) == Lower(word);
    AddPiece(Pieces(o), 3 + k, s, pos, s.end);
    assert Pieces(r) == Pieces(o)[3 + k := s];
  }

  /** The arguments, up to what is behind them. */
  lemma {:induction false} ArgsTaken(line: string, o: Offsets, pos: nat, n: nat, k: nat, gaps: seq<string>,
                                     args: seq<string>, tail: string)
    returns (q: Offsets, next: nat)
    requires pos <= |line| && |gaps| == |args| && line[pos..] == ArgsText(gaps, args) + tail && Breaks(tail)
    requires (forall g :: g in gaps ==> IsGap(g)) && (forall a :: a in args ==> Plain(a))
    requires HasArgs(o, k) && !o.opcode.Empty() && (n == k + 2 || n == k + 3) && n + |args| <= 5 && o.comment == NONE
    requires InOrder(Pieces(o), pos)
    ensures next <= |line| && line[next..] == tail && Stage(line, o, pos, n) == Stage(line, q, next, n + |args|)
    ensures SameFront(o, q) && ArgsOf(line, q) == ArgsOf(line, o) + LowerAll(args)
    ensures q.comment == NONE && InOrder(Pieces(q), next)
    decreases |args|
  {
    hide Stage, InOrder, Lower, NextSegment, Take, Plain, IsGap, ArgsOf, LowerAll, GetSegment;
    LowerAllCons(args);
    if args == [] {
      q, next := o, pos;
      assert line[pos..] == tail;
    } else {
      var rest := ArgsText(gaps[1..], args[1..]) + tail;
      assert gaps[0] in gaps && args[0] in args;
      assert line[pos..] == gaps[0] + args[0] + rest;
      ArgsBreak(gaps[1..], args[1..], tail);
      GapIsSpace(gaps[0]);
      TakeWord(line, o, pos, n, gaps[0], args[0], rest);
      var s := Segment(pos + |gaps[0]|, pos + |gaps[0]| + |args[0]|);
      PlainIsWord(args[0]);
      ArgTaken(line, o, n, s, pos, k, args[0]);
      q, next := ArgsTaken(line, Take(line, o, n, s), s.end, n + 1, k + 1, gaps[1..], args[1..], tail);
    }
  }

  lemma ArgsBreak(gaps: seq<string>, args: seq<string>, tail: string)
    requires |gaps| == |args| && Breaks(tail) && forall g :: g in gaps ==> IsGap(g)
    ensures Breaks(ArgsText(gaps, args) + tail)
  {
    if args != [] { assert gaps[0] in gaps; }
  }

  /** All that is behind the opcode. */
  lemma {:induction false} ArgsFound(line: string, o: Offsets, pos: nat, n: nat, k: nat, gaps: seq<string>,
                                     args: seq<string>, tail: string, gap: string, comment: string)
    requires pos <= |line| && |gaps| == |args|
    requires line[pos..] == ArgsText(gaps, args) + tail && Ending(tail, gap, comment)
    requires (forall g :: g in gaps ==> IsGap(g)) && (forall a :: a in args ==> Plain(a))
    requires HasArgs(o, k) && !o.opcode.Empty() && (n == k + 2 || n == k + 3) && n + |args| <= 5 && o.comment == NONE
    requires InOrder(Pieces(o), pos)
    ensures var r := Stage(line, o, pos, n);
      && SameFront(o, r) && ArgsOf(line, r) == ArgsOf(line, o) + LowerAll(args)
      && GetSegment(line, r.comment) == Lower(comment) && InOrder(Pieces(r), |line|)
  {
    hide Stage, InOrder, Lower, Plain, ArgsOf, LowerAll, GetSegment, ArgsText, HasArgs, Ending, IsGap;
    EndingBreaks(tail, gap, comment);
    var q, next := ArgsTaken(line, o, pos, n, k, gaps, args, tail);
    CommentFound(line, q, next, n + |args|, gap, comment);
    SameArgs(line, q, Stage(line, q, next, n + |args|));
  }

  lemma EndingBreaks(tail: string, gap: string, comment: string)
    requires Ending(tail, gap, comment)
    ensures Breaks(tail)
  {
  }

  lemma LowerAllCons(args: seq<string>)
    ensures args == [] ==> LowerAll(args) == []
    ensures args != [] ==> LowerAll(args) == [Lower(args[0])] + LowerAll(args[1..])
  {
  }

  lemma SameArgs(line: string, o: Offsets, r: Offsets)
    requires r == o.(comment := r.comment)
    ensures ArgsOf(line, r) == ArgsOf(line, o)
  {
  }

  lemma GapIsSpace(g: string)
    requires IsGap(g)
    ensures AllSpace(g)
  {
  }

  lemma PlainIsWord(w: string)
    requires Plain(w)
    ensures IsWord(w) && w != ""
  {
  }

  lemma RestBreaks(gaps: seq<string>, args: seq<string>, tail: string, gap: string, comment: string)
    requires |gaps| == |args| && Ending(tail, gap, comment) && forall g :: g in gaps ==> IsGap(g)
    ensures Breaks(ArgsText(gaps, args) + tail)
  {
    if args != [] { assert gaps[0] in gaps; }
  }

  lemma Slices(line: string, p: nat, a: string, b: string, c: string)
    requires p + |a| + |b| + |c| <= |line| && line[p..p + |a| + |b| + |c|] == a + b + c
    ensures line[p..p + |a|] == a && line[p + |a|..p + |a| + |b|] == b && line[p + |a| + |b|..p + |a| + |b| + |c|] == c
  {
    var t := line[p..p + |a| + |b| + |c|];
    Slice(line, p, t, 0, |a|);
    Slice(line, p, t, |a|, |a| + |b|);
    Slice(line, p, t, |a| + |b|, |a| + |b| + |c|);
    assert t[..|a|] == a && t[|a|..|a| + |b|] == b && t[|a| + |b|..] == c;
  }

  lemma Slice(line: string, p: nat, t: string, i: nat, j: nat)
    requires p + |t| <= |line| && line[p..p + |t|] == t && i <= j <= |t|
    ensures line[p + i..p + j] == t[i..j]
  {
    forall k | i <= k < j ensures line[p + k] == t[k] {
      assert line[p + k] == line[p..p + |t|][k];
    }
  }

  /** The opcode word, with or without a width. */
  lemma OpcodeTaken(line: string, o: Offsets, s: Segment, pos: nat, src: Source)
    requires SourceOk(src) && src.opcode != "" && o == BLANK.(name := o.name)
    requires 0 < s.start && pos <= s.start < s.end <= |line|
    requires line[s.start..s.end] == OpcodeText(src) && InOrder(Pieces(o), pos)
    requires IsSpace(line[s.start - 1])
    ensures var r := WithOpcode(line, o, s);
      && r.name == o.name && GetSegment(line, r.opcode) == Lower(src.opcode)
      && GetSegment(line, r.width) == Lower(src.width)
      && !r.opcode.Empty() && HasArgs(r, 0) && ArgsOf(line, r) == [] && r.comment == NONE && InOrder(Pieces(r), s.end)
  {
    hide InOrder, Lower;
    var text, r, m := OpcodeText(src), WithOpcode(line, o, s), |src.opcode|;
    forall i | 0 <= i < |text| ensures line[s.start + i] == text[i] {
      assert line[s.start..s.end][i] == text[i];
    }
    assert line[0..0] == "";
    if src.width == "" {
      assert text == src.opcode;
      assert CharAt(line, s.end - 2) == if m >= 2 then src.opcode[m - 2] else line[s.start - 1];
      AddPiece(Pieces(o), 1, s, pos, s.end);
      assert Pieces(r) == Pieces(o)[1 := s];
    } else {
      assert text == src.opcode + "." + src.width && text[m] == '.' && |text| == m + 2;
      var a, b := Segment(s.start, s.end - 2), Segment(s.end - 1, s.end);
      Slices(line, s.start, src.opcode, ".", src.width);
      AddPiece(Pieces(o), 1, a, pos, a.end);
      AddPiece(Pieces(o)[1 := a], 2, b, a.end, s.end);
      assert Pieces(r) == Pieces(o)[1 := a][2 := b];
    }
  }

  /** What parsing a line gives back for its source. */
  ghost predicate Recovers(line: string, o: Offsets, src: Source) {
    && GetSegment(line, o.name) == Lower(src.name)
    && GetSegment(line, o.opcode) == Lower(src.opcode) && GetSegment(line, o.width) == Lower(src.width)
    && ArgsOf(line, o) == LowerAll(src.args) && GetSegment(line, o.comment) == Lower(src.comment)
    && InOrder(Pieces(o), |line|)
  }

  /** The gaps between the parts of a line; a lone comment needs none in front. */
  predicate GapsOk(src: Source, lead: string, gaps: seq<string>, tail: string) {
    && |gaps| == |src.args| && (forall g :: g in gaps ==> IsGap(g))
    && IsGap(lead) && AllSpace(tail) && (src.name != "" || src.opcode != "" ==> IsGap(tail))
  }

  lemma EmptyInOrder()
    ensures InOrder(Pieces(BLANK), 0)
  {
  }

  lemma OpcodeIsPlain(src: Source)
    requires SourceOk(src) && src.opcode != ""
    ensures Plain(OpcodeText(src))
  {
    var text, m := OpcodeText(src), |src.opcode|;
    forall i | 0 <= i < |text| ensures !IsSpace(text[i]) {
      if i < m { assert text[i] == src.opcode[i]; }
    }
  }

  /** Everything from the opcode on. */
  lemma {:induction false} OpcodeFound(line: string, src: Source, o: Offsets, pos: nat, n: nat, lead: string,
                                       gaps: seq<string>, ending: string, tail: string)
    requires SourceOk(src) && src.opcode != "" && o == BLANK.(name := o.name) && n in {1, 2} && n + |src.args| <= 4
    requires |gaps| == |src.args| && (forall g :: g in gaps ==> IsGap(g)) && IsGap(lead)
    requires pos <= |line| && line[pos..] == lead + OpcodeText(src) + (ArgsText(gaps, src.args) + ending)
    requires Ending(ending, tail, src.comment) && InOrder(Pieces(o), pos)
    ensures var r := Stage(line, o, pos, n);
      && r.name == o.name && GetSegment(line, r.opcode) == Lower(src.opcode)
      && GetSegment(line, r.width) == Lower(src.width)
      && ArgsOf(line, r) == LowerAll(src.args)
      && GetSegment(line, r.comment) == Lower(src.comment) && InOrder(Pieces(r), |line|)
  {
    hide Stage, InOrder, Lower, LowerAll, NextSegment, Plain, ArgsOf, GetSegment, OpcodeText, Ending, WithOpcode,
         SourceOk;
    OpcodeIsPlain(src);
    PlainIsWord(OpcodeText(src));
    GapIsSpace(lead);
    RestBreaks(gaps, src.args, ending, tail, src.comment);
    var text, rest := OpcodeText(src), ArgsText(gaps, src.args) + ending;
    TakeWord(line, o, pos, n, lead, text, rest);
    var s := Segment(pos + |lead|, pos + |lead| + |text|);
    assert line[s.start - 1] == line[pos..][|lead| - 1] == lead[|lead| - 1];
    OpcodeTaken(line, o, s, pos, src);
    assert forall a :: a in src.args ==> Plain(a) by { ArgsPlain(src); }
    ArgsFound(line, WithOpcode(line, o, s), s.end, n + 1, 0, gaps, src.args, ending, tail, src.comment);
  }

  lemma ArgsPlain(src: Source)
    requires SourceOk(src)
    ensures forall a :: a in src.args ==> Plain(a)
  {
  }

  lemma LabelFound(line: string, src: Source, rest: string)
    requires Plain(src.name) && line == src.name + rest && Breaks(rest)
    ensures var o := BLANK.(name := Segment(0, |src.name|));
      && Stage(line, BLANK, 0, 1) == Stage(line, o, |src.name|, 2) && line[|src.name|..] == rest
      && GetSegment(line, o.name) == Lower(src.name) && InOrder(Pieces(o), |src.name|)
  {
    hide Stage, Lower, NextSegment, InOrder, Plain;
    PlainIsWord(src.name);
    assert line[0..] == "" + src.name + rest;
    TakeWord(line, BLANK, 0, 1, "", src.name, rest);
    EmptyInOrder();
    var s := Segment(0, |src.name|);
    AddPiece(Pieces(BLANK), 0, s, 0, s.end);
    assert Pieces(BLANK.(name := s)) == Pieces(BLANK)[0 := s];
  }

  lemma LoneComment(src: Source, tail: string)
    requires StartsComment(src.comment) && AllSpace(tail) && src == Source("", "", "", [], src.comment)
    ensures Recovers(tail + src.comment, Parse(tail + src.comment), src)
  {
    hide Stage, Lower, NextSegment;
    var line := tail + src.comment;
    assert line[0..] == line;
    TakeComment(line, BLANK, 0, 1, tail, src.comment);
    assert line[|tail|..|line|] == src.comment && line[0..0] == "";
  }

  /** The end of the line, after a label or an opcode. */
  lemma EndingOf(src: Source, tail: string)
    requires IsGap(tail) && (src.comment != "" ==> StartsComment(src.comment))
    ensures var ending := if src.comment == "" then "" else tail + src.comment;
      Ending(ending, tail, src.comment) && Breaks(ending)
  {
  }

  /** The pieces of every well-formed line, whatever white space is between them, are its
      parts in lower case. */
  lemma ParseRecovers(src: Source, lead: string, gaps: seq<string>, tail: string)
    requires SourceOk(src) && GapsOk(src, lead, gaps, tail)
    requires src.name != "" || src.opcode != "" || src.comment != ""
    ensures var line := Text(src, lead, gaps, tail); Recovers(line, Parse(line), src)
  {
    hide Stage, InOrder, Lower, NextSegment, Plain, IsGap, LowerAll;
    var line := Text(src, lead, gaps, tail);
    var ending := if src.comment == "" then "" else tail + src.comment;
    if src.name == "" && src.opcode == "" {
      assert src == Source("", "", "", [], src.comment);
      LoneComment(src, tail);
    } else if src.name == "" {
      EmptyInOrder();
      EndingOf(src, tail);
      assert line[0..] == lead + OpcodeText(src) + (ArgsText(gaps, src.args) + ending);
      OpcodeFound(line, src, BLANK, 0, 1, lead, gaps, ending, tail);
      NoPiece(line);
    } else {
      LabelRecovers(src, lead, gaps, tail);
    }
  }

  lemma NoPiece(line: string)
    ensures GetSegment(line, NONE) == Lower("") == ""
  {
  }

  lemma LabelRecovers(src: Source, lead: string, gaps: seq<string>, tail: string)
    requires SourceOk(src) && GapsOk(src, lead, gaps, tail) && src.name != ""
    ensures var line := Text(src, lead, gaps, tail); Recovers(line, Parse(line), src)
  {
    hide Stage, InOrder, Lower, NextSegment, Plain, IsGap, LowerAll;
    var line := Text(src, lead, gaps, tail);
    var ending := if src.comment == "" then "" else tail + src.comment;
    EndingOf(src, tail);
    var m := |src.name|;
    var o := BLANK.(name := Segment(0, m));
    if src.opcode == "" {
      assert line == src.name + ending;
      LabelFound(line, src, ending);
      CommentFound(line, o, m, 2, tail, src.comment);
      NoPiece(line);
      LowerAllCons(src.args);
    } else {
      var rest := lead + OpcodeText(src) + (ArgsText(gaps, src.args) + ending);
      assert line == src.name + rest;
      GapBreaks(lead, OpcodeText(src) + (ArgsText(gaps, src.args) + ending));
      assert rest == lead + (OpcodeText(src) + (ArgsText(gaps, src.args) + ending));
      LabelFound(line, src, rest);
      OpcodeFound(line, src, o, m, 2, lead, gaps, ending, tail);
    }
  }

  /** The text of three arguments, the last set apart. */
  lemma {:induction false} LastArg(gaps: seq<string>, args: seq<string>, gap: string, c: string)
    requires |gaps| == |args| == 2
    ensures ArgsText(gaps + [gap], args + [c]) == ArgsText(gaps, args) + (gap + c)
  {
    assert (gaps + [gap])[1..] == [gaps[1], gap] && (args + [c])[1..] == [args[1], c];
    assert gaps[1..] == [gaps[1]] && args[1..] == [args[1]];
    assert ArgsText([gap], [c]) == gap + c;
    assert ArgsText([gaps[1]], [args[1]]) == gaps[1] + args[1];
    assert [gaps[1], gap][1..] == [gap] && [args[1], c][1..] == [c];
  }

  /** At the fifth stage only a comment is kept. */
  lemma FifthDropped(line: string, o: Offsets, pos: nat, gap: string, word: string, rest: string)
    requires pos <= |line| && line[pos..] == gap + word + rest && AllSpace(gap) && Plain(word) && Breaks(rest)
    ensures Stage(line, o, pos, 5) == o
  {
    hide Take;
    WordSegment(line, pos, gap, word, rest);
    var a := pos + |gap|;
    assert line[a] == word[0] && (|word| > 1 ==> line[a + 1] == word[1]) by {
      assert line[a..a + |word|][0] == word[0];
      assert |word| > 1 ==> line[a..a + |word|][1] == word[1];
    }
    assert |word| == 1 && a + 1 < |line| ==> line[a + 1] == rest[0] by {
      assert a + 1 < |line| ==> line[a + 1..][0] == line[a + 1];
    }
  }

  /** Opcode and two arguments behind a label, and what is behind them dropped. */
  lemma {:induction false} OpcodeThenTwo(line: string, src: Source, o: Offsets, pos: nat, lead: string,
                                         gaps: seq<string>, gap: string, c: string, ending: string)
    requires SourceOk(src) && src.opcode != "" && o == BLANK.(name := o.name) && |src.args| == 2 == |gaps|
    requires (forall g :: g in gaps ==> IsGap(g)) && IsGap(lead) && IsGap(gap) && Plain(c) && Breaks(ending)
    requires pos <= |line| && line[pos..] == lead + OpcodeText(src) + (ArgsText(gaps, src.args) + (gap + c + ending))
    requires InOrder(Pieces(o), pos)
    ensures var r := Stage(line, o, pos, 2);
      && r.name == o.name && GetSegment(line, r.opcode) == Lower(src.opcode)
      && GetSegment(line, r.width) == Lower(src.width)
      && ArgsOf(line, r) == LowerAll(src.args) && r.comment == NONE && InOrder(Pieces(r), |line|)
  {
    hide Stage, InOrder, Lower, LowerAll, NextSegment, Plain, ArgsOf, GetSegment, OpcodeText, WithOpcode, SourceOk,
         ArgsText, IsGap;
    OpcodeIsPlain(src);
    PlainIsWord(OpcodeText(src));
    GapIsSpace(lead);
    GapIsSpace(gap);
    var text, tail := OpcodeText(src), gap + c + ending;
    GapBreaks(gap, c + ending);
    assert gap + (c + ending) == tail;
    ArgsBreak(gaps, src.args, tail);
    TakeWord(line, o, pos, 2, lead, text, ArgsText(gaps, src.args) + tail);
    var s := Segment(pos + |lead|, pos + |lead| + |text|);
    assert |lead| > 0 && IsSpace(lead[|lead| - 1]) by { GapEnds(lead); }
    assert line[s.start - 1] == line[pos..][|lead| - 1] == lead[|lead| - 1];
    OpcodeTaken(line, o, s, pos, src);
    ArgsPlain(src);
    var q, next := ArgsTaken(line, WithOpcode(line, o, s), s.end, 3, 0, gaps, src.args, tail);
    FifthDropped(line, q, next, gap, c, ending);
    Wider(Pieces(q), next, |line|);
  }

  lemma GapEnds(gap: string)
    requires IsGap(gap)
    ensures |gap| > 0 && IsSpace(gap[|gap| - 1])
  {
  }

  /** Behind a label a third argument is lost, and with it a comment. */
  lemma {:induction false} ThirdArgumentLost(src: Source, c: string, lead: string, gaps: seq<string>, gap: string,
                                             tail: string)
    requires SourceOk(src) && src.name != "" && |src.args| == 2
    requires Plain(c) && GapsOk(src, lead, gaps, tail) && IsGap(gap)
    ensures var line := Text(src.(args := src.args + [c]), lead, gaps + [gap], tail);
      Recovers(line, Parse(line), src.(comment := ""))
  {
    hide Stage, InOrder, Lower, NextSegment, Plain, IsGap, LowerAll, ArgsText, ArgsOf, GetSegment;
    var line, m := Text(src.(args := src.args + [c]), lead, gaps + [gap], tail), |src.name|;
    var ending := if src.comment == "" then "" else tail + src.comment;
    EndingOf(src, tail);
    LastArg(gaps, src.args, gap, c);
    var args := ArgsText(gaps, src.args) + (gap + c + ending);
    var rest := lead + OpcodeText(src) + args;
    assert line == src.name + rest;
    GapBreaks(lead, OpcodeText(src) + args);
    assert rest == lead + (OpcodeText(src) + args);
    LabelFound(line, src, rest);
    OpcodeThenTwo(line, src, BLANK.(name := Segment(0, m)), m, lead, gaps, gap, c, ending);
    NoPiece(line);
  }

  lemma GapBreaks(gap: string, rest: string)
    requires IsGap(gap)
    ensures Breaks(gap + rest)
  {
  }

  // ---- The loops ----

  /** The scanner's position is kept in eight bits, so the word must end within the first 255
      characters. */
  predicate InReach(s: Segment) { s.end < 256 }

  /** Where a loop over white space, or over text, stops; None if it is still going after so
      many steps. */
  function Skip(line: string, pos: nat, space: bool, steps: nat): (r: Option<nat>)
    requires pos < 256
    ensures r.Some? ==> r.value < 256
    decreases steps
  {
    if pos >= |line| || IsSpace(line[pos]) != space then Some(pos)
    else if steps == 0 then None
    else Skip(line, (pos + 1) % 256, space, steps - 1)
  }

  function Scan(line: string, from: nat, steps: nat): Option<Segment>
    requires from < 256
  {
    var start := Skip(line, from, true, steps);
    if start.None? then None else
    var end := Skip(line, start.value, false, steps);
    if end.None? then None else Some(Segment(start.value, end.value))
  }

  lemma {:induction false} SkipReaches(line: string, pos: nat, space: bool, steps: nat)
    requires pos < 256 && pos <= |line|
    ensures var end := if space then SkipSpace(line, pos) else SkipText(line, pos);
      pos <= end <= |line| && (end < 256 && end - pos <= steps ==> Skip(line, pos, space, steps) == Some(end))
    decreases |line| - pos
  {
    if pos < 255 && pos < |line| && IsSpace(line[pos]) == space && steps > 0 {
      SkipReaches(line, pos + 1, space, steps - 1);
    }
  }

  /** The scanner finds the next word if and only if the word is in reach. */
  lemma ScanIff(line: string, from: nat)
    requires from < 256 && from <= |line|
    ensures (exists steps :: Scan(line, from, steps) == Some(NextSegment(line, from))) <==>
      InReach(NextSegment(line, from))
  {
    if InReach(NextSegment(line, from)) {
      SkipReaches(line, from, true, |line|);
      SkipReaches(line, NextSegment(line, from).start, false, |line|);
      assert Scan(line, from, |line|) == Some(NextSegment(line, from));
    }
  }

  /** Inside a word of 256 characters it never stops. */
  lemma {:induction false} ScanEndless(line: string, pos: nat, steps: nat)
    requires pos < 256 <= |line| && forall i :: 0 <= i < 256 ==> !IsSpace(line[i])
    ensures Skip(line, pos, false, steps) == None && Scan(line, pos, steps) == None
    decreases steps
  {
    if steps > 0 { ScanEndless(line, (pos + 1) % 256, steps - 1); }
  }

  /** All words that the parser looks at from stage `n` on are in reach. */
  predicate StagesInReach(line: string, o: Offsets, pos: nat, n: nat)
    requires pos <= |line|
    decreases 6 - n
  {
    n >= 6 ||
    var s := NextSegment(line, pos);
    InReach(s) && ((n > 1 && s.Empty()) || IsComment(line, s) || StagesInReach(line, Take(line, o, n, s), s.end, n + 1))
  }

  /** So they are on every line of up to 255 characters. */
  lemma {:induction false} ShortLineInReach(line: string, o: Offsets, pos: nat, n: nat)
    requires pos <= |line| < 256
    ensures StagesInReach(line, o, pos, n)
    decreases 6 - n
  {
    hide NextSegment, Take;
    if n < 6 {
      var s := NextSegment(line, pos);
      ShortLineInReach(line, Take(line, o, n, s), s.end, n + 1);
    }
  }

  /** The scanner's two loops, when they end. */
  method ScanSegment(line: string, from: nat, ghost steps: nat) returns (s: Segment, next: nat)
    requires from < 256 && Scan(line, from, steps).Some?
    ensures Some(s) == Scan(line, from, steps) && next == (s.end + 1) % 256
  {
    var pos := from;
    ghost var left := steps;
    while pos < |line| && IsSpace(line[pos])
      invariant 0 <= pos < 256 && Skip(line, pos, true, left) == Skip(line, from, true, steps)
      decreases left
    {
      pos, left := (pos + 1) % 256, left - 1;
    }
    var start := pos;
    left := steps;
    while pos < |line| && !IsSpace(line[pos])
      invariant 0 <= pos < 256 && Skip(line, pos, false, left) == Skip(line, start, false, steps)
      decreases left
    {
      pos, left := (pos + 1) % 256, left - 1;
    }
    s := Segment(start, pos);
    next := (pos + 1) % 256;
  }

  /** One stage; `done` if the line or its interesting part ends there. */
  method ParseStage(line: string, o: Offsets, pos: nat, n: nat) returns (r: Offsets, next: nat, done: bool)
    requires pos <= |line| && 1 <= n <= 5 && StagesInReach(line, o, pos, n)
    ensures done ==> r == Stage(line, o, pos, n)
    ensures !done ==> n < 5 && next <= |line| && Stage(line, o, pos, n) == Stage(line, r, next, n + 1)
    ensures !done ==> StagesInReach(line, r, next, n + 1)
  {
    ScanIff(line, pos);
    ghost var steps :| Scan(line, pos, steps) == Some(NextSegment(line, pos));
    var s, _ := ScanSegment(line, pos, steps);
    if n > 1 && s.Empty() { return o, pos, true; }
    if IsComment(line, s) { return o.(comment := Segment(s.start, |line|)), pos, true; }
    if n == 5 { return o, pos, true; }
    return Take(line, o, n, s), s.end, false;
  }

  method ParseLine(line: string) returns (o: Offsets)
    requires StagesInReach(line, BLANK, 0, 1)
    ensures o == Parse(line)
  {
    hide Stage;
    var pos, done;
    o, pos, done := ParseStage(line, BLANK, 0, 1);
    if done { return; }
    o, pos, done := ParseStage(line, o, pos, 2);
    if done { return; }
    o, pos, done := ParseStage(line, o, pos, 3);
    if done { return; }
    o, pos, done := ParseStage(line, o, pos, 4);
    if done { return; }
    o, pos, done := ParseStage(line, o, pos, 5);
  }

  /** Copying a piece in lower case, with positions in eight bits. */
  method CopySegment(line: string, s: Segment) returns (dest: string)
    requires s.start <= s.end <= |line| && InReach(s)
    ensures dest == GetSegment(line, s)
  {
    dest := "";
    var i := s.start;
    while i < s.end
      invariant s.start <= i <= s.end && dest == Lower(line[s.start..i])
      decreases s.end - i
    {
      assert line[s.start..i + 1] == line[s.start..i] + [line[i]];
      dest := dest + [LowerChar(line[i])];
      i := (i + 1) % 256;
    }
  }
}
