/** Register sets as text: `d0-d3,d6/a1`, and the 16-bit masks they stand for. */
module RegSet {
  import opened Words
  import opened Rotate

  // ---- Bits of a mask ----

  /** The registers of a mask are those that the machine pushes and pops for it. */
  lemma {:induction false} InSetIsBit(mask: nat, i: nat)
    ensures mask / Pow2(i) % 2 == 1 <==> Bit(mask, i)
    decreases i
  {
    if i > 0 {
      InSetIsBit(mask / 2, i - 1);
      HalfDivides(mask, Pow2(i - 1));
    }
  }

  lemma HalfDivides(m: nat, p: nat)
    requires p > 0
    ensures m / (2 * p) == m / 2 / p
  {
    var h := m / 2;
    var q, r, b := h / p, h % p, m % 2;
    Expand(h, p, q, r);
    assert m == 2 * h + b;
    Remainder(m, 2 * p, q, 2 * r + b);
  }

  lemma Expand(h: nat, p: nat, q: nat, r: nat)
    requires p > 0 && q == h / p && r == h % p
    ensures h == q * p + r && 2 * h == q * (2 * p) + 2 * r
  {
  }

  const MASK_BITS: nat := 16

  predicate IsMask(m: nat) { Low(m, MASK_BITS) == m }

  lemma {:induction false} OrWord(a: nat, b: nat, n: nat)
    requires Low(a, n) == a && Low(b, n) == b
    ensures Low(Or(a, b), n) == Or(a, b)
    decreases n
  {
    if n > 0 { OrWord(a / 2, b / 2, n - 1); }
  }

  lemma {:induction false} OneBit(k: nat, n: nat, j: nat)
    requires k < n
    ensures Low(Shl(1, k), n) == Shl(1, k) && (Bit(Shl(1, k), j) <==> j == k)
    decreases k
  {
    if k == 0 {
      assert Low(0, n - 1) == 0 by { LowZero(n - 1); }
      BitShl(1, 0, j);
      if j > 0 { BitZero(j - 1); }
    } else {
      OneBit(k - 1, n - 1, if j > 0 then j - 1 else 0);
    }
  }

  lemma {:induction false} LowZero(n: nat)
    ensures Low(0, n) == 0
  {
    if n > 0 { LowZero(n - 1); }
  }

  /** Adding one register to a mask, as `out |= 1 << k`. */
  function With(m: nat, k: nat): nat { Or(m, Shl(1, k)) }

  lemma WithBit(m: nat, k: nat, j: nat)
    requires IsMask(m) && k < MASK_BITS
    ensures IsMask(With(m, k)) && (Bit(With(m, k), j) <==> Bit(m, j) || j == k)
  {
    hide Low, Or, Shl, Bit;
    OneBit(k, MASK_BITS, j);
    OrWord(m, Shl(1, k), MASK_BITS);
    BitOr(m, Shl(1, k), j);
  }

  /** Adding the registers from `lo` to `hi`, from the lowest on. */
  function WithRange(m: nat, lo: nat, hi: nat): nat
    decreases hi - lo
  {
    if lo > hi then m else WithRange(With(m, lo), lo + 1, hi)
  }

  lemma {:induction false} WithRangeBit(m: nat, lo: nat, hi: nat, j: nat)
    requires IsMask(m) && hi < MASK_BITS
    ensures IsMask(WithRange(m, lo, hi)) && (Bit(WithRange(m, lo, hi), j) <==> Bit(m, j) || lo <= j <= hi)
    decreases hi - lo
  {
    hide With, Low, Bit;
    if lo <= hi {
      WithBit(m, lo, j);
      WithRangeBit(With(m, lo), lo + 1, hi, j);
    }
  }

  // ---- Parsing ----

  /** The parser's state: the mask so far, and the letter and number of a register that may
      begin a range. */
  datatype Parser = Parser(out: nat, letter: char, last: nat)

  /** A digit's value in eight bits; anything but '0' to '7' gives more than 7. */
  function Digit(s: string, i: nat): nat { (if i < |s| then s[i] as int - '0' as int else -('0' as int)) % 256 }

  /** Where a bank of registers begins in the mask. */
  function Base(letter: char): nat { if letter == 'd' then 0 else 8 }

  /** One turn of the loop: the new state and the characters consumed, or an error value. */
  datatype Turn = Next(p: Parser, used: nat) | Fail(value: nat)

  function Take(p: Parser, s: string): Turn
    requires s != ""
  {
    var c := s[0];
    if c == 'd' || c == 'a' then
      var n := Digit(s, 1);
      if n > 7 then Fail(0xFF) else Next(Parser(With(p.out, Base(c) + n), c, n), 2)
    else if c == '-' then
      if |s| < 2 || s[1] != p.letter then Fail(0xFF) else
      var n := Digit(s, 2);
      var lo, hi := if n < p.last then n else p.last, if n < p.last then p.last else n;
      if lo > 7 || hi > 7 then Fail(0xFF)
      else Next(Parser(WithRange(p.out, Base(p.letter) + lo, Base(p.letter) + hi), 'x', 0xFF), 3)
    else if c == ',' || c == '/' then Next(p, 1)
    else Fail(0xFFFF)
  }

  lemma TakeUses(p: Parser, s: string)
    requires s != ""
    ensures Take(p, s).Next? ==> 0 < Take(p, s).used <= |s|
  {
    if |s| < 3 { assert Digit(s, 2) == 208; }
    if |s| < 2 { assert Digit(s, 1) == 208; }
  }

  function ParseFrom(p: Parser, s: string): nat
    decreases |s|
  {
    if s == "" then p.out else
    TakeUses(p, s);
    match Take(p, s)
    case Fail(v) => v
    case Next(q, used) => ParseFrom(q, s[used..])
  }

  const START := Parser(0, 'x', 0xFF)

  function Parse(s: string): nat { ParseFrom(START, s) }

  // ---- The notation ----

  /** Registers, ranges in either direction, and separators. */
  datatype Token = Single(letter: char, n: nat) | Range(letter: char, from: nat, to: nat) | Separator(c: char)

  predicate TokenOk(t: Token) {
    match t
    case Single(l, n) => (l == 'd' || l == 'a') && n < 8
    case Range(l, m, n) => (l == 'd' || l == 'a') && m < 8 && n < 8
    case Separator(c) => c == ',' || c == '/'
  }

  function Name(letter: char, n: nat): string
    requires n < 8
  {
    [letter, '0' + n as char]
  }

  function TokenText(t: Token): string
    requires TokenOk(t)
  {
    match t
    case Single(l, n) => Name(l, n)
    case Range(l, m, n) => Name(l, m) + "-" + Name(l, n)
    case Separator(c) => [c]
  }

  function Text(ts: seq<Token>): string
    requires forall t :: t in ts ==> TokenOk(t)
  {
    if ts == [] then "" else TokenText(ts[0]) + Text(ts[1..])
  }

  /** Whether a token denotes register `j`, counting a0 as 8. */
  predicate Denotes(t: Token, j: nat) {
    match t
    case Single(l, n) => j == Base(l) + n
    case Range(l, m, n) => Base(l) + m <= j <= Base(l) + n || Base(l) + n <= j <= Base(l) + m
    case Separator(_) => false
  }

  lemma NameParses(p: Parser, l: char, n: nat, rest: string, j: nat)
    requires IsMask(p.out) && (l == 'd' || l == 'a') && n < 8
    ensures var q := Parser(With(p.out, Base(l) + n), l, n);
      && ParseFrom(p, Name(l, n) + rest) == ParseFrom(q, rest)
      && IsMask(q.out) && (Bit(q.out, j) <==> Bit(p.out, j) || j == Base(l) + n)
  {
    hide With, WithRange, Bit, Low;
    var s := Name(l, n) + rest;
    assert s[0] == l && s[1] == '0' + n as char && s[2..] == rest;
    assert Digit(s, 1) == n;
    WithBit(p.out, Base(l) + n, j);
  }

  lemma DashParses(p: Parser, n: nat, rest: string, j: nat)
    requires IsMask(p.out) && (p.letter == 'd' || p.letter == 'a') && p.last < 8 && n < 8
    ensures var b := Base(p.letter);
      var lo, hi := if n < p.last then n else p.last, if n < p.last then p.last else n;
      var q := Parser(WithRange(p.out, b + lo, b + hi), 'x', 0xFF);
      && ParseFrom(p, "-" + Name(p.letter, n) + rest) == ParseFrom(q, rest)
      && IsMask(q.out)
      && (Bit(q.out, j) <==> Bit(p.out, j) || b + p.last <= j <= b + n || b + n <= j <= b + p.last)
  {
    hide With, WithRange, Bit, Low;
    var s := "-" + Name(p.letter, n) + rest;
    assert s[0] == '-' && s[1] == p.letter && s[2] == '0' + n as char && s[3..] == rest;
    assert Digit(s, 2) == n;
    WithRangeBit(p.out,
                 Base(p.letter) + if n < p.last then n else p.last,
                 Base(p.letter) + if n < p.last then p.last else n, j);
  }

  /** Tokens in any order, overlapping or not: the parser returns the registers that some
      token denotes, on top of those it had. */
  lemma {:induction false} ParseFromIsUnion(p: Parser, ts: seq<Token>, j: nat)
    requires IsMask(p.out) && forall t :: t in ts ==> TokenOk(t)
    ensures IsMask(ParseFrom(p, Text(ts)))
    ensures Bit(ParseFrom(p, Text(ts)), j) <==> Bit(p.out, j) || exists t :: t in ts && Denotes(t, j)
    decreases |ts|
  {
    hide With, WithRange, Bit, Low, Digit;
    if ts != [] {
      var t, rest := ts[0], ts[1..];
      assert ts == [t] + rest;
      var q := AfterToken(p, t, Text(rest), j);
      ParseFromIsUnion(q, rest, j);
    }
  }

  lemma AfterToken(p: Parser, t: Token, rest: string, j: nat) returns (q: Parser)
    requires IsMask(p.out) && TokenOk(t)
    ensures ParseFrom(p, TokenText(t) + rest) == ParseFrom(q, rest)
    ensures IsMask(q.out) && (Bit(q.out, j) <==> Bit(p.out, j) || Denotes(t, j))
  {
    hide With, WithRange, Bit, Low, Digit, ParseFrom;
    match t
    case Single(l, n) =>
      NameParses(p, l, n, rest, j);
      q := Parser(With(p.out, Base(l) + n), l, n);
    case Range(l, m, n) =>
      var tail := "-" + Name(l, n) + rest;
      NameParses(p, l, m, tail, j);
      var o := Parser(With(p.out, Base(l) + m), l, m);
      DashParses(o, n, rest, j);
      q := Parser(WithRange(o.out, Base(l) + if n < m then n else m, Base(l) + if n < m then m else n), 'x', 0xFF);
      assert TokenText(t) + rest == Name(l, m) + tail;
    case Separator(c) =>
      q := p;
      SeparatorParses(p, c, rest);
  }

  lemma SeparatorParses(p: Parser, c: char, rest: string)
    requires c == ',' || c == '/'
    ensures ParseFrom(p, [c] + rest) == ParseFrom(p, rest)
  {
    assert ([c] + rest)[1..] == rest;
  }

  /** The mask of a well-formed set has exactly the registers its items denote. */
  lemma ParseIsUnion(ts: seq<Token>, j: nat)
    requires forall t :: t in ts ==> TokenOk(t)
    ensures IsMask(Parse(Text(ts)))
    ensures Bit(Parse(Text(ts)), j) <==> exists t :: t in ts && Denotes(t, j)
  {
    hide ParseFrom, Text, Bit, Low;
    ZeroMask(j);
    ParseFromIsUnion(START, ts, j);
  }

  lemma ZeroMask(j: nat)
    ensures IsMask(0) && !Bit(0, j)
  {
    LowZero(MASK_BITS);
    BitZero(j);
  }

  // ---- Printing ----

  /** Printing one bank from number `i` on: `run` registers up to the one before are set and
      only the first of them has been written. */
  function PrintBank(mask: nat, letter: char, i: nat, run: nat, first: bool): string
    requires i <= 8 && run <= i
    decreases 8 - i
  {
    var finish := if run > 1 then "-" + Name(letter, i - 1) else "";
    if i == 8 then finish
    else if !Bit(mask, Base(letter) + i) then finish + PrintBank(mask, letter, i + 1, 0, first)
    else
      (if run > 0 then "" else (if first then "" else ",") + Name(letter, i))
      + PrintBank(mask, letter, i + 1, run + 1, false)
  }

  /** How many runs of registers begin at number `i` or behind it; `inside` if the register
      before is set. */
  function Runs(mask: nat, letter: char, i: nat, inside: bool): nat
    requires i <= 8
    decreases 8 - i
  {
    if i == 8 then 0 else
    var here := Bit(mask, Base(letter) + i);
    (if here && !inside then 1 else 0) + Runs(mask, letter, i + 1, here)
  }

  function Count(s: string, c: char): nat { if s == "" then 0 else (if s[0] == c then 1 else 0) + Count(s[1..], c) }

  lemma {:induction false} CountJoin(a: string, b: string, c: char)
    ensures Count(a + b, c) == Count(a, c) + Count(b, c)
  {
    if a == "" {
      assert a + b == b;
    } else {
      assert (a + b)[1..] == a[1..] + b;
      CountJoin(a[1..], b, c);
    }
  }

  predicate Between(c: char) { c == ',' || c == '/' }

  lemma NoneInName(letter: char, n: nat, c: char)
    requires n < 8 && Between(c) && letter != c
    ensures Count(Name(letter, n), c) == 0 && Count("-" + Name(letter, n), c) == 0
    ensures Count("," + Name(letter, n), c) == (if c == ',' then 1 else 0) && Count("", c) == 0
    ensures Count("" + Name(letter, n), c) == 0
  {
    var s := Name(letter, n);
    assert s == [s[0], s[1]] && s[1..] == [s[1]] && s[1..][1..] == "";
    assert Count([s[1]], c) == 0;
    assert ("-" + s)[1..] == s && ("," + s)[1..] == s && "" + s == s;
  }

  /** What is printed when register `i` has been looked at. */
  function Item(letter: char, i: nat, here: bool, run: nat, first: bool): string
    requires i < 8 && run <= i
  {
    if here then (if run > 0 then "" else (if first then "" else ",") + Name(letter, i))
    else if run > 1 then "-" + Name(letter, i - 1) else ""
  }

  lemma ItemCounts(letter: char, i: nat, here: bool, run: nat, first: bool, c: char)
    requires i < 8 && run <= i && Between(c) && letter != c
    ensures Count(Item(letter, i, here, run, first), c) == if c == ',' && here && run == 0 && !first then 1 else 0
  {
    hide Name, Count;
    if i > 0 { NoneInName(letter, i - 1, c); }
    NoneInName(letter, i, c);
  }

  /** One item is printed for each run of registers, with commas between them, and no slash. */
  lemma {:induction false} PrintsRuns(mask: nat, letter: char, i: nat, run: nat, first: bool, c: char)
    requires i <= 8 && run <= i && Between(c) && letter != c && (run > 0 ==> !first)
    ensures var n := Runs(mask, letter, i, run > 0);
      Count(PrintBank(mask, letter, i, run, first), c)
        == if c == '/' then 0 else if first && n > 0 then n - 1 else n
    decreases 8 - i
  {
    hide Bit, Name, Count, PrintBank, Item;
    if i < 8 {
      var here := Bit(mask, Base(letter) + i);
      ItemStep(mask, letter, i, run, first);
      ItemCounts(letter, i, here, run, first, c);
      PrintsRuns(mask, letter, i + 1, if here then run + 1 else 0, first && !here, c);
      CountJoin(Item(letter, i, here, run, first),
                PrintBank(mask, letter, i + 1, if here then run + 1 else 0, first && !here), c);
    } else {
      LastStep(mask, letter, run, first);
      NoneInName(letter, 7, c);
    }
  }

  lemma ItemStep(mask: nat, letter: char, i: nat, run: nat, first: bool)
    requires i < 8 && run <= i
    ensures var here := Bit(mask, Base(letter) + i);
      PrintBank(mask, letter, i, run, first)
        == Item(letter, i, here, run, first)
         + PrintBank(mask, letter, i + 1, if here then run + 1 else 0, first && !here)
  {
    hide Name, Bit;
  }

  /** The banks are printed with a slash between them, when there are registers in both. */
  lemma PrintsSlash(mask: nat)
    ensures Count(Print(mask), '/') == if mask % 256 != 0 && mask / 256 % 256 != 0 then 1 else 0
  {
    hide PrintBank, Runs;
    var d := if mask % 256 != 0 then PrintBank(mask, 'd', 0, 0, true) else "";
    var slash := if mask % 256 != 0 && mask / 256 % 256 != 0 then "/" else "";
    var a := if mask / 256 % 256 != 0 then PrintBank(mask, 'a', 0, 0, true) else "";
    PrintsRuns(mask, 'd', 0, 0, true, '/');
    PrintsRuns(mask, 'a', 0, 0, true, '/');
    CountJoin(d, slash, '/');
    CountJoin(d + slash, a, '/');
    assert "/"[1..] == "";
  }

  function Print(mask: nat): string {
    (if mask % 256 != 0 then PrintBank(mask, 'd', 0, 0, true) else "") +
    (if mask % 256 != 0 && mask / 256 % 256 != 0 then "/" else "") +
    (if mask / 256 % 256 != 0 then PrintBank(mask, 'a', 0, 0, true) else "")
  }

  ghost predicate AllSet(mask: nat, lo: nat, hi: nat) { forall k :: lo <= k < hi ==> Bit(mask, k) }

  /** The parser while a run is open: it has read the run's first register. */
  predicate Reading(p: Parser, letter: char, i: nat, run: nat) {
    IsMask(p.out) && (run > 0 ==> run <= i && p.letter == letter && p.last == i - run)
  }

  /** Parsing the printed bank adds exactly the bank's registers from the open run on. */
  lemma {:induction false} BankParses(p: Parser, mask: nat, letter: char, i: nat, run: nat, first: bool, rest: string,
                                      j: nat)
    returns (q: Parser)
    requires i <= 8 && run <= i && (letter == 'd' || letter == 'a') && Reading(p, letter, i, run)
    requires AllSet(mask, Base(letter) + i - run, Base(letter) + i)
    requires run > 0 ==> (j == Base(letter) + p.last ==> Bit(p.out, j))
    ensures ParseFrom(p, PrintBank(mask, letter, i, run, first) + rest) == ParseFrom(q, rest) && IsMask(q.out)
    ensures var b := Base(letter); Bit(q.out, j) <==> Bit(p.out, j) || (b + i - run <= j < b + 8 && Bit(mask, j))
    decreases 8 - i
  {
    hide With, WithRange, Bit, Low, Digit, ParseFrom, PrintBank, Name;
    if i < 8 && Bit(mask, Base(letter) + i) {
      q := OpenRun(p, mask, letter, i, run, first, rest, j);
    } else {
      var more := (if i == 8 then "" else PrintBank(mask, letter, i + 1, 0, first)) + rest;
      q := CloseRun(p, letter, i, run, more, j);
      BankCloses(mask, letter, i, run, first, rest);
      if i < 8 {
        q := BankParses(q, mask, letter, i + 1, 0, first, rest, j);
      } else {
        assert more == rest;
      }
    }
  }

  lemma BankCloses(mask: nat, letter: char, i: nat, run: nat, first: bool, rest: string)
    requires i <= 8 && run <= i && (i < 8 ==> !Bit(mask, Base(letter) + i))
    ensures PrintBank(mask, letter, i, run, first) + rest ==
      (if run > 1 then "-" + Name(letter, i - 1) else "") +
      ((if i == 8 then "" else PrintBank(mask, letter, i + 1, 0, first)) + rest)
  {
    hide Bit, Name;
  }

  lemma CloseRun(p: Parser, letter: char, i: nat, run: nat, rest: string, j: nat) returns (q: Parser)
    requires i <= 8 && run <= i && (letter == 'd' || letter == 'a') && Reading(p, letter, i, run)
    requires run > 0 ==> (j == Base(letter) + p.last ==> Bit(p.out, j))
    ensures ParseFrom(p, (if run > 1 then "-" + Name(letter, i - 1) else "") + rest) == ParseFrom(q, rest)
    ensures IsMask(q.out)
    ensures var b := Base(letter); Bit(q.out, j) <==> Bit(p.out, j) || b + i - run <= j < b + i
  {
    hide With, WithRange, Bit, Low, Digit, ParseFrom;
    q := p;
    if run > 1 {
      DashParses(p, i - 1, rest, j);
      q := Parser(WithRange(p.out, Base(letter) + p.last, Base(letter) + i - 1), 'x', 0xFF);
    } else {
      assert "" + rest == rest;
    }
  }

  lemma BankOpens(mask: nat, letter: char, i: nat, run: nat, first: bool, rest: string)
    requires i < 8 && run <= i && Bit(mask, Base(letter) + i)
    ensures var more := PrintBank(mask, letter, i + 1, run + 1, false) + rest;
      PrintBank(mask, letter, i, run, first) + rest ==
        if run > 0 then more else if first then Name(letter, i) + more else "," + (Name(letter, i) + more)
  {
    hide Bit, Name;
    var more := PrintBank(mask, letter, i + 1, run + 1, false);
    if run == 0 {
      assert "" + Name(letter, i) + more == Name(letter, i) + more;
      assert "," + Name(letter, i) + more + rest == "," + (Name(letter, i) + (more + rest));
    }
  }

  lemma OpenRun(p: Parser, mask: nat, letter: char, i: nat, run: nat, first: bool, rest: string,
                j: nat) returns (q: Parser)
    requires i < 8 && run <= i && (letter == 'd' || letter == 'a') && Reading(p, letter, i, run)
    requires AllSet(mask, Base(letter) + i - run, Base(letter) + i + 1)
    requires run > 0 ==> (j == Base(letter) + p.last ==> Bit(p.out, j))
    ensures ParseFrom(p, PrintBank(mask, letter, i, run, first) + rest) == ParseFrom(q, rest) && IsMask(q.out)
    ensures var b := Base(letter); Bit(q.out, j) <==> Bit(p.out, j) || (b + i - run <= j < b + 8 && Bit(mask, j))
    decreases 8 - i, 0
  {
    hide With, WithRange, Bit, Low, Digit, ParseFrom, PrintBank, Name;
    var more := PrintBank(mask, letter, i + 1, run + 1, false) + rest;
    var o := p;
    BankOpens(mask, letter, i, run, first, rest);
    if run == 0 {
      NameParses(p, letter, i, more, j);
      o := Parser(With(p.out, Base(letter) + i), letter, i);
      SeparatorParses(p, ',', Name(letter, i) + more);
    }
    q := BankParses(o, mask, letter, i + 1, run + 1, false, rest, j);
  }

  // ---- Round trip ----

  lemma ShrByte(m: nat)
    ensures Shr(m, 8) == m / 256
  {
    var a := m / 2; var b := a / 2; var c := b / 2; var d := c / 2;
    var e := d / 2; var f := e / 2; var g := f / 2;
    assert Shr(m, 8) == Shr(a, 7) == Shr(b, 6) == Shr(c, 5) == Shr(d, 4)
       == Shr(e, 3) == Shr(f, 2) == Shr(g, 1) == Shr(g / 2, 0);
    assert b == m / 4 && d == m / 16 && f == m / 64 && g / 2 == m / 256;
  }

  /** A bank whose byte is zero has no register set. */
  lemma EmptyBank(mask: nat, j: nat)
    ensures mask % 256 == 0 && j < 8 ==> !Bit(mask, j)
    ensures mask / 256 % 256 == 0 && 8 <= j < 16 ==> !Bit(mask, j)
  {
    hide Low, Shr, Bit;
    Pow256Values();
    LowIsMod(mask, 1);
    BitLow(mask, 8, j);
    BitZero(j);
    if j >= 8 {
      ShrByte(mask);
      LowIsMod(mask / 256, 1);
      BitLow(mask / 256, 8, j - 8);
      BitShr(mask, 8, j - 8);
      BitZero(j - 8);
    }
  }

  lemma {:induction false} PrintBit(mask: nat, j: nat)
    requires j < MASK_BITS
    ensures IsMask(Parse(Print(mask))) && (Bit(Parse(Print(mask)), j) <==> Bit(mask, j))
  {
    hide ParseFrom, PrintBank, Bit, Low, Print, With, WithRange;
    ZeroMask(j);
    EmptyBank(mask, j);
    var d, a := mask % 256 != 0, mask / 256 % 256 != 0;
    var tail := if a then PrintBank(mask, 'a', 0, 0, true) else "";
    var slash := if d && a then "/" else "";
    var p := START;
    if d { p := BankParses(START, mask, 'd', 0, 0, true, slash + tail, j); }
    if d && a { SeparatorParses(p, '/', tail); }
    var q := p;
    if a { q := BankParses(p, mask, 'a', 0, 0, true, "", j); }
    assert tail + "" == tail;
    PrintParts(mask);
    assert ParseFrom(q, "") == q.out by { NothingLeft(q); }
  }

  lemma NothingLeft(q: Parser)
    ensures ParseFrom(q, "") == q.out
  {
  }

  lemma PrintParts(mask: nat)
    ensures var d, a := mask % 256 != 0, mask / 256 % 256 != 0;
      var tail := if a then PrintBank(mask, 'a', 0, 0, true) else "";
      var slash := if d && a then "/" else "";
      Print(mask) == if d then PrintBank(mask, 'd', 0, 0, true) + (slash + tail) else tail
  {
    hide PrintBank;
  }

  /** Every mask is read back from what is printed for it. */
  lemma PrintParses(mask: u16)
    ensures Parse(Print(mask)) == mask
  {
    hide Parse, Print, Bit, Low;
    Pow256Values();
    LowIsMod(mask, 2);
    forall j | 0 <= j < MASK_BITS ensures Bit(Parse(Print(mask)), j) == Bit(mask, j) && IsMask(Parse(Print(mask))) {
      PrintBit(mask, j);
    }
    PrintBit(mask, 0);
    SameBits(Parse(Print(mask)), mask, MASK_BITS);
  }

  lemma {:induction false} FailsBehind(p: Parser, ts: seq<Token>, bad: string, v: nat)
    requires IsMask(p.out) && (forall t :: t in ts ==> TokenOk(t)) && bad != ""
    requires forall q :: Take(q, bad) == Fail(v)
    ensures ParseFrom(p, Text(ts) + bad) == v
    decreases |ts|
  {
    hide With, WithRange, Bit, Low, Digit, Take, TokenText;
    if ts == [] {
      assert Text(ts) + bad == bad;
      FailsAtOnce(p, bad, v);
    } else {
      assert ts[0] in ts && forall t :: t in ts[1..] ==> t in ts;
      assert Text(ts) + bad == TokenText(ts[0]) + (Text(ts[1..]) + bad);
      var q := AfterToken(p, ts[0], Text(ts[1..]) + bad, 0);
      FailsBehind(q, ts[1..], bad, v);
    }
  }

  lemma FailsAtOnce(p: Parser, bad: string, v: nat)
    requires bad != "" && Take(p, bad) == Fail(v)
    ensures ParseFrom(p, bad) == v
  {
  }

  /** Behind any good items, a character that begins no item makes the whole set 65535, and a
      register that does not exist makes it 255. */
  lemma BadItem(ts: seq<Token>, c: char, rest: string)
    requires forall t :: t in ts ==> TokenOk(t)
    ensures c !in {'d', 'a', '-', ',', '/'} ==> Parse(Text(ts) + ([c] + rest)) == 0xFFFF
    ensures (c == 'd' || c == 'a') && Digit([c] + rest, 1) > 7 ==> Parse(Text(ts) + ([c] + rest)) == 0xFF
  {
    hide ParseFrom, Text, Digit, With, WithRange, Low;
    ZeroMask(0);
    if c !in {'d', 'a', '-', ',', '/'} { FailsBehind(START, ts, [c] + rest, 0xFFFF); }
    if (c == 'd' || c == 'a') && Digit([c] + rest, 1) > 7 { FailsBehind(START, ts, [c] + rest, 0xFF); }
  }

  /** What is returned for registers that do not exist is itself the mask of a set. */
  lemma ErrorIsASet(s: string)
    requires s != "" && (s[0] == 'd' || s[0] == 'a') && Digit(s, 1) > 7
    ensures Parse(s) == Parse(Print(0xFF))
  {
    hide Print;
    PrintParses(0xFF);
    assert Take(START, s) == Fail(0xFF);
  }

  // ---- The loops ----

  /** The parser's loop over the text. */
  method ParseSet(s: string) returns (mask: nat)
    ensures mask == Parse(s)
  {
    hide With, WithRange;
    var out, last, letter, i := 0, 0xFF, 'x', 0;
    while i < |s|
      invariant i <= |s| && ParseFrom(Parser(out, letter, last), s[i..]) == Parse(s)
      decreases |s| - i
    {
      TakeUses(Parser(out, letter, last), s[i..]);
      var c := s[i];
      if c == 'd' || c == 'a' {
        last := Digit(s, i + 1);
        if last > 7 { return 0xFF; }
        letter := c;
        out := With(out, Base(c) + last);
        i := i + 2;
      } else if c == '-' {
        if i + 1 >= |s| || s[i + 1] != letter { return 0xFF; }
        var to := Digit(s, i + 2);
        if to < last { last, to := to, last; }
        if last > 7 || to > 7 { return 0xFF; }
        out := AddRange(out, Base(letter) + last, Base(letter) + to);
        letter, last, i := 'x', 0xFF, i + 3;
      } else if c == ',' || c == '/' {
        i := i + 1;
      } else {
        return 0xFFFF;
      }
    }
    mask := out;
  }

  method AddRange(m: nat, lo: nat, hi: nat) returns (out: nat)
    requires lo <= hi
    ensures out == WithRange(m, lo, hi)
  {
    hide With;
    out := m;
    for i := lo to hi + 1
      invariant WithRange(out, i, hi) == WithRange(m, lo, hi)
    {
      out := With(out, i);
    }
  }

  /** The printer's loop over one bank. */
  method PrintOneBank(mask: nat, letter: char, buffer: string) returns (text: string)
    ensures text == buffer + PrintBank(mask, letter, 0, 0, true)
  {
    hide Bit, Name, PrintBank;
    text := buffer;
    var run, last, first := 0, 0, true;
    for i := 0 to 8
      invariant run <= i && (run > 0 ==> last == i - 1)
      invariant text + PrintBank(mask, letter, i, run, first) == buffer + PrintBank(mask, letter, 0, 0, true)
    {
      ghost var before := text;
      BankStep(mask, letter, i, run, first);
      if Bit(mask, Base(letter) + i) {
        if run == 0 {
          if !first { text := text + ","; }
          text := text + Name(letter, i);
        }
        last := i;
        run := run + 1;
        first := false;
      } else {
        if run > 1 { text := text + ("-" + Name(letter, last)); }
        run := 0;
      }
    }
    LastStep(mask, letter, run, first);
    if run > 1 { text := text + ("-" + Name(letter, last)); }
  }

  lemma LastStep(mask: nat, letter: char, run: nat, first: bool)
    requires run <= 8
    ensures PrintBank(mask, letter, 8, run, first) == if run > 1 then "-" + Name(letter, 7) else ""
  {
  }

  lemma BankStep(mask: nat, letter: char, i: nat, run: nat, first: bool)
    requires i < 8 && run <= i
    ensures PrintBank(mask, letter, i, run, first) ==
      if Bit(mask, Base(letter) + i)
        then (if run > 0 then "" else (if first then "" else ",") + Name(letter, i))
          + PrintBank(mask, letter, i + 1, run + 1, false)
        else (if run > 1 then "-" + Name(letter, i - 1) else "") + PrintBank(mask, letter, i + 1, 0, first)
  {
  }

  method PrintSet(mask: u16) returns (text: string)
    ensures text == Print(mask)
  {
    hide PrintBank;
    text := "";
    if mask % 256 != 0 { text := PrintOneBank(mask, 'd', text); }
    if mask % 256 != 0 && mask / 256 % 256 != 0 { text := text + "/"; }
    if mask / 256 % 256 != 0 { text := PrintOneBank(mask, 'a', text); }
  }
}

/** One operand as text: `d3`, `(a0)`, `-(a7)`, `(a7)+`, and the byte it stands for. */
module Operands {
  import opened Words
  import opened Rotate

  /** An operand in the given mode: direct, `(r)`, `-(r)`, `(r)+`. */
  function Text(mode: nat, address: bool, n: nat): string
    requires n < 8
  {
    var name := [if address then 'a' else 'd', '0' + n as char];
    match mode
    case 1 => "(" + name + ")"
    case 2 => "-(" + name + ")"
    case 3 => "(" + name + ")+"
    case _ => name
  }

  function Print(r: byte): string { Text(r / 16 % 8, r / 8 % 2 == 1, r % 8) }

  /** The digit is or'ed onto the base; one above 7 is reported, and used all the same. */
  function Number(base: nat, letter: char, digit: char): Option<nat> {
    var v := (digit as int - '0' as int) % 256;
    if letter == 'd' then Some(Or(base, v)) else if letter == 'a' then Some(Or(base + 8, v)) else None
  }

  /** What is not an operand gives 255. The length is kept in eight bits. */
  function Parse(s: string): nat {
    var len := |s| % 256;
    var r :=
      if len == 2 then Number(0, s[0], s[1])
      else if len == 4 && s[0] == '(' && s[3] == ')' then Number(0x10, s[1], s[2])
      else if len == 5 && s[0] == '-' && s[1] == '(' && s[4] == ')' then Number(0x20, s[2], s[3])
      else if len == 5 && s[0] == '(' && s[3] == ')' && s[4] == '+' then Number(0x30, s[1], s[2])
      else None;
    if r.Some? then r.value else 0xFF
  }

  lemma OrDigit(base: nat, v: nat)
    requires base % 8 == 0 && v < 8
    ensures Or(base, v) == base + v
  {
    hide Or;
    var q := base / 8;
    assert base == 2 * (2 * (2 * q));
    OrDouble(2 * (2 * q), v);
    OrDouble(2 * q, v / 2);
    OrDouble(q, v / 4);
    OrZero(q);
    assert v / 2 / 2 == v / 4 && v / 4 / 2 == 0;
  }

  lemma OrDouble(a: nat, b: nat)
    ensures Or(2 * a, b) == b % 2 + 2 * Or(a, b / 2)
  {
  }

  lemma {:induction false} OrZero(a: nat)
    ensures Or(a, 0) == a
  {
    if a > 0 { OrZero(a / 2); }
  }

  lemma NumberIs(base: nat, n: nat)
    requires base % 8 == 0 && n < 8
    ensures Number(base, 'd', '0' + n as char) == Some(base + n)
    ensures Number(base, 'a', '0' + n as char) == Some(base + 8 + n)
  {
    hide Or;
    OrDigit(base, n);
    OrDigit(base + 8, n);
    assert ('0' + n as char) as int - '0' as int == n;
  }

  /** The eight spellings: data registers are 0 to 7, address registers 8 to 15, and the mode
      is in the upper half. */
  lemma Spelled(n: nat)
    requires n < 8
    ensures var d := ['0' + n as char];
      && Parse("d" + d) == n && Parse("a" + d) == 0x08 + n
      && Parse("(d" + d + ")") == 0x10 + n && Parse("(a" + d + ")") == 0x18 + n
      && Parse("-(d" + d + ")") == 0x20 + n && Parse("-(a" + d + ")") == 0x28 + n
      && Parse("(d" + d + ")+") == 0x30 + n && Parse("(a" + d + ")+") == 0x38 + n
  {
    hide Number;
    NumberIs(0, n);
    NumberIs(0x10, n);
    NumberIs(0x20, n);
    NumberIs(0x30, n);
  }

  /** A digit above 7 is reported and used all the same: `d8` and `d9` are `a0` and `a1`. Two
      characters that begin with another letter are 255. */
  lemma TooLarge(c: char, digit: char)
    ensures Parse("d8") == Parse("a0") && Parse("d9") == Parse("a1")
    ensures c != 'd' && c != 'a' ==> Parse([c, digit]) == 255
  {
    hide Or;
    Spelled(0);
    Spelled(1);
    assert "a" + ['0' + 0 as char] == "a0" && "a" + ['0' + 1 as char] == "a1";
    assert Or(0, 8) == 8 && Or(0, 9) == 9 by { OrNothing(); }
  }

  lemma OrNothing()
    ensures forall b :: Or(0, b) == b
  {
  }

  lemma TextReads(mode: nat, address: bool, n: nat)
    requires n < 8
    ensures Parse(Text(mode, address, n)) == (if mode < 4 then 16 * mode else 0) + (if address then 8 else 0) + n
  {
    hide Number;
    NumberIs(0, n);
    NumberIs(0x10, n);
    NumberIs(0x20, n);
    NumberIs(0x30, n);
  }

  /** A printed operand reads back exactly for the four addressing modes. */
  lemma RoundTripIff(r: byte)
    ensures Parse(Print(r)) == r <==> r < 64
  {
    hide Parse, Text;
    var h := r / 8;
    var q, bank, n := h / 2, h % 2, r % 8;
    assert r == 8 * h + n && h == 2 * q + bank && r / 16 == q < 16;
    TextReads(r / 16 % 8, r / 8 % 2 == 1, n);
    if q < 8 { assert q % 8 == q; } else { assert q % 8 == q - 8; }
  }
}
