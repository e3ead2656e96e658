/** Machine words: bytes, operand widths and the little-endian layout in which the
    assembler writes them and the machine reads them. */
module Words {
  type byte = b: int | 0 <= b < 0x100
  type u16 = x: int | 0 <= x < 0x1_0000
  type u32 = x: int | 0 <= x < 0x1_0000_0000
  type u64 = x: int | 0 <= x < 0x1_0000_0000_0000_0000

  const TWO32 := 0x1_0000_0000
  const TWO64 := 0x1_0000_0000_0000_0000

  datatype Option<+T> = None | Some(value: T)

  /** Operand widths `.b .w .l .x`, the two low bits of every opcode below `bra`. */
  datatype Width = B | W | L | X {
    function Code(): byte {
      match this
      case B => 0
      case W => 1
      case L => 2
      case X => 3
    }

    function Bytes(): nat {
      match this
      case B => 1
      case W => 2
      case L => 4
      case X => 8
    }

    function Bits(): nat { 8 * Bytes() }

    /** One more than the largest value of this width. */
    function Modulus(): nat {
      match this
      case B => 0x100
      case W => 0x1_0000
      case L => TWO32
      case X => TWO64
    }
  }

  function WidthOf(code: byte): Width {
    if code == 0 then B else if code == 1 then W else if code == 2 then L else X
  }

  /** A character of a text that ends with a NUL. */
  function CharAt(s: string, i: int): char { if 0 <= i < |s| then s[i] else '\0' }

  function Pow2(n: nat): (p: nat)
    ensures p > 0
  {
    if n == 0 then 1 else 2 * Pow2(n - 1)
  }

  function Pow256(n: nat): (p: nat)
    ensures p > 0
  {
    if n == 0 then 1 else 256 * Pow256(n - 1)
  }

  /** The `n` low bytes of `v`, least significant first. */
  function ToLE(v: nat, n: nat): (s: seq<byte>)
    ensures |s| == n
  {
    if n == 0 then [] else [v % 256] + ToLE(v / 256, n - 1)
  }

  /** The number that a little-endian byte string denotes. */
  function FromLE(s: seq<byte>): nat {
    if s == [] then 0 else s[0] + 256 * FromLE(s[1..])
  }

  lemma Pow256Values()
    ensures Pow256(1) == 0x100 && Pow256(2) == 0x1_0000 && Pow256(4) == TWO32 && Pow256(8) == TWO64
  {
    assert Pow256(3) == 0x100_0000;
    assert Pow256(5) == 0x100_0000_0000;
    assert Pow256(6) == 0x1_0000_0000_0000;
    assert Pow256(7) == 0x100_0000_0000_0000;
  }

  lemma WidthModulus(w: Width)
    ensures Pow256(w.Bytes()) == w.Modulus()
  {
    Pow256Values();
  }

  lemma {:induction false} FromLEBound(s: seq<byte>)
    ensures FromLE(s) < Pow256(|s|)
  {
    if s != [] { FromLEBound(s[1..]); }
  }

  /** Storing a number and loading it back keeps exactly its low `n` bytes. */
  lemma {:induction false} LoadStore(v: nat, n: nat)
    ensures FromLE(ToLE(v, n)) == v % Pow256(n)
  {
    if n > 0 {
      LoadStore(v / 256, n - 1);
      assert ToLE(v, n)[1..] == ToLE(v / 256, n - 1);
      DivModStep(v, Pow256(n - 1));
    }
  }

  /** Loading a byte string and storing it again reproduces it. */
  lemma {:induction false} StoreLoad(s: seq<byte>)
    ensures ToLE(FromLE(s), |s|) == s
  {
    if s != [] {
      StoreLoad(s[1..]);
      var r := FromLE(s[1..]);
      assert FromLE(s) == r * 256 + s[0];
      Remainder(FromLE(s), 256, r, s[0]);
      assert ToLE(FromLE(s), |s|) == [s[0]] + ToLE(r, |s| - 1);
    }
  }

  /** Two numbers that agree modulo the width have the same stored bytes, and conversely. */
  lemma SameBytes(a: nat, b: nat, n: nat)
    ensures ToLE(a, n) == ToLE(b, n) <==> a % Pow256(n) == b % Pow256(n)
  {
    LoadStore(a, n);
    LoadStore(b, n);
    if a % Pow256(n) == b % Pow256(n) {
      StoreLoad(ToLE(a, n));
      StoreLoad(ToLE(b, n));
    }
  }

  lemma DivModStep(v: nat, m: nat)
    requires m > 0
    ensures v % (256 * m) == v % 256 + 256 * (v / 256 % m)
  {
    var q, r := v / 256, v % 256;
    var t, u := q / m, q % m;
    assert v == 256 * (t * m + u) + r;
    assert v == t * (256 * m) + (256 * u + r);
    assert 256 * u + r < 256 * m;
    Remainder(v, 256 * m, t, 256 * u + r);
  }

  /** Uniqueness of quotient and remainder. */
  lemma Remainder(v: int, m: nat, q: int, r: nat)
    requires v == q * m + r && r < m
    ensures v % m == r && v / m == q
  {
    var d := q - v / m;
    assert v % m == d * m + r;
    MulAtLeast(d, m);
  }

  /** Cutting to 64 bits changes nothing at a width. */
  lemma LowOfWord(v: int, w: Width)
    ensures v % TWO64 % w.Modulus() == v % w.Modulus()
  {
    var m, c := w.Modulus(), (match w case B => 0x100_0000_0000_0000 case W => 0x1_0000_0000_0000 case L => TWO32
                                      case X => 1);
    var q, x := v / TWO64, v % TWO64;
    assert c * m == TWO64;
    SumOfProducts(q, c, x / m, m);
    Remainder(v, m, q * c + x / m, x % m);
  }

  lemma SumOfProducts(q: int, c: nat, r: int, m: nat)
    ensures q * (c * m) + r * m == (q * c + r) * m
  {
  }

  lemma MulAtLeast(d: int, m: nat)
    ensures d >= 1 ==> d * m >= m
    ensures d <= -1 ==> d * m + m <= 0
  {
  }
}
