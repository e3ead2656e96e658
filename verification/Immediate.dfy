/** Immediate operands as text: `#0x1f`, `#0b101`, `#0d12`, `#12`, `#'c'`. */
module Immediate {
  import opened Words

  const MAX_UNSIGNED: nat := TWO64 - 1
  const MAX_SIGNED: nat := 0x7FFF_FFFF_FFFF_FFFF

  // ---- Numbers in a base ----

  predicate BaseOk(base: nat) { base == 2 || base == 10 || base == 16 }

  /** What a character is worth as a digit; 36 or more if it is none. */
  function Worth(c: char): nat {
    if '0' <= c <= '9' then c as nat - '0' as nat
    else if 'a' <= c <= 'z' then c as nat - 'a' as nat + 10
    else if 'A' <= c <= 'Z' then c as nat - 'A' as nat + 10
    else 36
  }

  predicate IsNumeral(s: string, base: nat) { forall i :: 0 <= i < |s| ==> Worth(s[i]) < base }

  /** The positional value of a numeral: the last digit counts for one. */
  function Value(s: string, base: nat): nat {
    if s == "" then 0 else Value(s[..|s| - 1], base) * base + Worth(s[|s| - 1])
  }

  /** A number's shortest numeral, as it is printed. */
  function Numeral(n: nat, base: nat): string
    requires BaseOk(base)
  {
    var d := n % base;
    var last := [if d < 10 then '0' + d as char else 'a' + (d - 10) as char];
    if n < base then last else Numeral(n / base, base) + last
  }

  lemma {:induction false} NumeralValue(n: nat, base: nat)
    requires BaseOk(base)
    ensures Numeral(n, base) != "" && IsNumeral(Numeral(n, base), base) && Value(Numeral(n, base), base) == n
    ensures n > 0 ==> Numeral(n, base)[0] != '0'
    decreases n
  {
    var s := Numeral(n, base);
    var c := s[|s| - 1];
    assert Worth(c) == n % base;
    if n >= base {
      NumeralValue(n / base, base);
      assert s[..|s| - 1] == Numeral(n / base, base);
    } else {
      assert s[..|s| - 1] == "" && Value("", base) == 0;
    }
  }

  // ---- The library's conversions ----

  /** Reading digits from the left until one does not belong to the base. */
  function Accumulate(s: string, base: nat, acc: nat): nat
    decreases |s|
  {
    if s == "" || Worth(s[0]) >= base then acc else Accumulate(s[1..], base, acc * base + Worth(s[0]))
  }

  predicate IsBlank(c: char) { c == ' ' || '\t' <= c <= '\r' }

  function SkipSpace(s: string): string { if s != "" && IsBlank(s[0]) then SkipSpace(s[1..]) else s }

  /** A sign, and the magnitude behind it and behind a second `0x`. */
  function Signed(s: string, base: nat): (bool, nat) {
    var t := SkipSpace(s);
    var negative := t != "" && t[0] == '-';
    var u := if t != "" && (t[0] == '-' || t[0] == '+') then t[1..] else t;
    var v :=
      if base == 16 && |u| > 2 && u[0] == '0' && (u[1] == 'x' || u[1] == 'X') && Worth(u[2]) < 16
      then u[2..] else u;
    (negative, Accumulate(v, base, 0))
  }

  /** `strtoul`: saturates; a minus sign is taken modulo 2^64. */
  function StrToUL(s: string, base: nat): u64 {
    var (negative, m) := Signed(s, base);
    if m > MAX_UNSIGNED then MAX_UNSIGNED else if negative then (TWO64 - m) % TWO64 else m
  }

  /** `strtol`, saturating at both ends, as a 64-bit pattern. */
  function StrToL(s: string, base: nat): u64 {
    var (negative, m) := Signed(s, base);
    if negative then (if m > MAX_SIGNED then MAX_SIGNED + 1 else (TWO64 - m) % TWO64)
    else if m > MAX_SIGNED then MAX_SIGNED else m
  }

  // ---- Printing and parsing ----

  function Print(v: u64): string { "#0x" + Numeral(v, 16) }

  /** A character as a signed byte, widened to 64 bits. */
  function Widened(c: char): u64 {
    var b := c as nat % 256;
    if b < 128 then b else TWO64 - 256 + b
  }

  function Parse(s: string): u64 {
    if |s| < 2 || s[0] != '#' then 0xFFFF_FFFF
    else if s[1] == '0' then
      var c := CharAt(s, 2);
      if c == 'x' || c == 'X' then StrToUL(s[3..], 16)
      else if c == 'b' || c == 'B' then StrToUL(s[3..], 2)
      else if c == 'd' then StrToUL(s[3..], 10)
      else StrToUL(s[1..], 10)
    else if s[1] == '\'' then
      if CharAt(s, 2) != '\\' then Widened(CharAt(s, 2))
      else
        match CharAt(s, 3)
        case 'r' => 13
        case 'n' => 10
        case 't' => 9
        case '\\' => 92
        case _ => 0xFF
    else StrToL(s[1..], 10)
  }

  lemma {:induction false} AccumulateValue(s: string, base: nat)
    requires BaseOk(base) && IsNumeral(s, base)
    ensures Accumulate(s, base, 0) == Value(s, base)
  {
    AccumulateFrom(s, "", base);
    assert "" + s == s;
  }

  /** Reading on from a prefix already read. */
  lemma {:induction false} AccumulateFrom(s: string, read: string, base: nat)
    requires BaseOk(base) && IsNumeral(s, base)
    ensures Accumulate(s, base, Value(read, base)) == Value(read + s, base)
    decreases |s|
  {
    if s == "" {
      assert read + s == read;
    } else {
      var next := read + [s[0]];
      assert next[..|next| - 1] == read;
      AccumulateFrom(s[1..], next, base);
      assert next + s[1..] == read + s;
    }
  }

  /** A numeral has no blanks, no sign and no second prefix. */
  lemma SignedNumeral(s: string, base: nat)
    requires BaseOk(base) && IsNumeral(s, base) && s != ""
    ensures Signed(s, base) == (false, Value(s, base))
  {
    assert Worth(s[0]) < base && (|s| > 1 ==> Worth(s[1]) < base);
    AccumulateValue(s, base);
  }

  function Min(a: nat, b: nat): nat { if a < b then a else b }

  /** The prefixed spellings of a numeral, whatever its length and leading zeros, give its
      value, as far as 64 bits go. */
  lemma PrefixedValue(s: string, prefix: string, base: nat)
    requires s != "" && IsNumeral(s, base)
    requires (prefix, base) in {("#0x", 16), ("#0X", 16), ("#0b", 2), ("#0B", 2), ("#0d", 10)}
    ensures Parse(prefix + s) == Min(Value(s, base), MAX_UNSIGNED)
  {
    hide Signed, Value, Accumulate, IsBlank, SkipSpace, Widened, StrToL;
    var t := prefix + s;
    assert t[0] == prefix[0] && t[1] == prefix[1] && t[2] == prefix[2] && t[3..] == s;
    SignedNumeral(s, base);
  }

  /** The plain spelling goes through the signed conversion unless it begins with a zero. */
  lemma PlainValue(s: string)
    requires s != "" && IsNumeral(s, 10)
    ensures Parse("#" + s) == Min(Value(s, 10), if s[0] == '0' then MAX_UNSIGNED else MAX_SIGNED)
  {
    hide Signed, Value, Accumulate, IsBlank, SkipSpace, Widened;
    var t := "#" + s;
    assert t[1] == s[0] && t[1..] == s && CharAt(t, 2) == CharAt(s, 1);
    assert |s| > 1 ==> Worth(s[1]) < 10;
    assert Worth(s[0]) < 10;
    SignedNumeral(s, 10);
  }

  /** Anything else gives 2^32 - 1. */
  lemma NoImmediate(s: string)
    requires |s| < 2 || s[0] != '#'
    ensures Parse(s) == TWO32 - 1
  {
  }

  /** What is printed is a hexadecimal numeral without zeros in front. */
  lemma PrintsHex(v: u64)
    ensures var t := Print(v);
      && |t| > 3 && t[..3] == "#0x" && IsNumeral(t[3..], 16) && Value(t[3..], 16) == v
      && (t[3] == '0' ==> v == 0)
  {
    NumeralValue(v, 16);
    assert Print(v)[3..] == Numeral(v, 16);
  }

  /** What is printed for a value reads back as it. */
  lemma PrintParses(v: u64)
    ensures Parse(Print(v)) == v
  {
    hide Parse;
    NumeralValue(v, 16);
    PrefixedValue(Numeral(v, 16), "#0x", 16);
  }

  /** The four spellings of one number agree, except that the plain one stops at 2^63 - 1. */
  lemma SpellingsAgree(v: u64)
    ensures Parse("#0x" + Numeral(v, 16)) == Parse("#0b" + Numeral(v, 2)) == Parse("#0d" + Numeral(v, 10)) == v
    ensures Parse("#" + Numeral(v, 10)) == v <==> v <= MAX_SIGNED
  {
    hide Parse;
    NumeralValue(v, 16);
    NumeralValue(v, 2);
    NumeralValue(v, 10);
    PrefixedValue(Numeral(v, 16), "#0x", 16);
    PrefixedValue(Numeral(v, 2), "#0b", 2);
    PrefixedValue(Numeral(v, 10), "#0d", 10);
    PlainValue(Numeral(v, 10));
  }

  /** With a capital D the prefix is not recognised, and the value is always 0. */
  lemma CapitalDIsZero(s: string)
    ensures Parse("#0D" + s) == 0
  {
    var t := "#0D" + s;
    assert t[0] == '#' && t[1] == '0' && t[2] == 'D' && t[1..][0] == '0' && t[1..][1] == 'D';
    var u := t[1..];
    assert u[1..][0] == 'D';
    assert Accumulate(u, 10, 0) == Accumulate(u[1..], 10, 0) == 0;
  }

  /** A quoted character is its code, as a signed byte; what is behind it does not matter. */
  lemma QuotedValue(c: char, rest: string)
    requires c != '\\' && c as nat < 256
    ensures Parse("#'" + [c] + rest) == if c as nat < 128 then c as nat else TWO64 - 256 + c as nat
  {
    var t := "#'" + [c] + rest;
    assert t[0] == '#' && t[1] == '\'' && t[2] == c;
  }

  /** Four characters have an escape; behind a backslash all others give 255. */
  lemma EscapedValue(c: char, rest: string)
    ensures Parse("#'\\" + [c] + rest) ==
      if c == 'r' then 13 else if c == 'n' then 10 else if c == 't' then 9 else if c == '\\' then 92 else 255
  {
    var t := "#'\\" + [c] + rest;
    assert t[0] == '#' && t[1] == '\'' && t[2] == '\\' && t[3] == c;
  }

  /** Conversion ends at the first character that is no digit of the base. */
  lemma {:induction false} AccumulateStops(s: string, rest: string, base: nat, acc: nat)
    requires BaseOk(base) && IsNumeral(s, base) && (rest != "" ==> Worth(rest[0]) >= base)
    ensures Accumulate(s + rest, base, acc) == Accumulate(s, base, acc)
    decreases |s|
  {
    if s == "" {
      assert s + rest == rest;
    } else {
      assert (s + rest)[1..] == s[1..] + rest;
      AccumulateStops(s[1..], rest, base, acc * base + Worth(s[0]));
    }
  }

  /** So what is behind a numeral is ignored, and a plus sign in front makes no difference. */
  lemma RestIgnored(s: string, rest: string)
    requires s != "" && IsNumeral(s, 10) && s[0] != '0' && (rest != "" ==> Worth(rest[0]) >= 10)
    ensures Parse("#" + s + rest) == Parse("#" + s) == Parse("#+" + s + rest)
  {
    hide Accumulate, Widened;
    var t, plus := "#" + s + rest, "#+" + s + rest;
    assert Worth(s[0]) < 10;
    AccumulateStops(s, rest, 10, 0);
    assert t[1] == s[0] && t[1..] == s + rest && ("#" + s)[1..] == s;
    assert plus[1] == '+' && plus[1..] == "+" + (s + rest) && ("+" + (s + rest))[1..] == s + rest;
    assert Signed(s + rest, 10).1 == Signed(s, 10).1 == Signed("+" + (s + rest), 10).1;
  }

  /** A negative number is its two's complement, down to -2^63, at every width. */
  lemma NegativeValue(s: string, w: Width)
    requires s != "" && IsNumeral(s, 10)
    ensures var v := Min(Value(s, 10), MAX_SIGNED + 1);
      Parse("#-" + s) == (0 - v) % TWO64 && Parse("#-" + s) % w.Modulus() == (0 - v) % w.Modulus()
  {
    hide Value, Accumulate, Widened;
    var t, v := "#-" + s, Value(s, 10);
    assert t[0] == '#' && t[1] == '-' && t[1..] == "-" + s && ("-" + s)[1..] == s;
    AccumulateValue(s, 10);
    assert Signed("-" + s, 10) == (true, v);
    var m: int := Min(v, MAX_SIGNED + 1);
    if m > 0 { Remainder(-m, TWO64, -1, TWO64 - m); }
    LowOfWord(-m, w);
  }
}
