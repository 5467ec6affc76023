/** Bytes in memory: the little-endian words the x86-64 loader reads and writes,
    and 64-bit modular arithmetic. */
module Bytes {
  type u8 = x: int | 0 <= x < 0x100
  type u16 = x: int | 0 <= x < 0x1_0000
  type u32 = x: int | 0 <= x < 0x1_0000_0000
  type u64 = x: int | 0 <= x < TWO_64

  const TWO_64: nat := 0x1_0000_0000_0000_0000

  function Pow256(n: nat): (p: nat)
    ensures p > 0
  {
    if n == 0 then 1 else 0x100 * Pow256(n - 1)
  }

  lemma WordSizes()
    ensures Pow256(2) == 0x1_0000 && Pow256(4) == 0x1_0000_0000 && Pow256(8) == TWO_64
  {
    assert Pow256(1) == 0x100;
    assert Pow256(3) == 0x100_0000;
    assert Pow256(5) == 0x100_0000_0000;
    assert Pow256(6) == 0x1_0000_0000_0000;
    assert Pow256(7) == 0x100_0000_0000_0000;
  }

  /** The little-endian number in the `n` bytes at `a`. */
  function LittleEndian(m: seq<u8>, a: nat, n: nat): (v: nat)
    requires a + n <= |m|
    ensures v < Pow256(n)
    decreases n, |m|
  {
    if n == 0 then 0 else m[a] as int + 0x100 * LittleEndian(m, a + 1, n - 1)
  }

  function Digits(v: nat, n: nat): (s: seq<u8>)
    requires v < Pow256(n)
    ensures |s| == n
    decreases n, v
  {
    if n == 0 then [] else [v % 0x100] + Digits(v / 0x100, n - 1)
  }

  function U16(m: seq<u8>, a: nat): u16
    requires a + 2 <= |m|
  {
    WordSizes(); LittleEndian(m, a, 2)
  }

  function U32(m: seq<u8>, a: nat): u32
    requires a + 4 <= |m|
  {
    WordSizes(); LittleEndian(m, a, 4)
  }

  function U64(m: seq<u8>, a: nat): u64
    requires a + 8 <= |m|
  {
    WordSizes(); LittleEndian(m, a, 8)
  }

  function Bytes16(v: u16): (s: seq<u8>)
    ensures |s| == 2
  {
    WordSizes(); Digits(v, 2)
  }

  function Bytes32(v: u32): (s: seq<u8>)
    ensures |s| == 4
  {
    WordSizes(); Digits(v, 4)
  }

  function Bytes64(v: u64): (s: seq<u8>)
    ensures |s| == 8
  {
    WordSizes(); Digits(v, 8)
  }

  function Zeros(n: nat): (s: seq<u8>)
    ensures |s| == n && forall k :: 0 <= k < n ==> s[k] == 0
  {
    seq(n, _ => 0)
  }

  /** Memory `m` with `data` stored from address `a` on. */
  function Write(m: seq<u8>, a: nat, data: seq<u8>): (r: seq<u8>)
    requires a + |data| <= |m|
    ensures |r| == |m|
    ensures forall k :: 0 <= k < |m| ==> r[k] == if a <= k < a + |data| then data[k - a] else m[k]
  {
    m[..a] + data + m[a + |data|..]
  }

  /** `m` and `r` are the same size and hold the same bytes at [lo, hi), as far as memory reaches. */
  ghost predicate Same(m: seq<u8>, r: seq<u8>, lo: nat, hi: nat) {
    |m| == |r| && forall k :: lo <= k < hi && k < |m| ==> m[k] == r[k]
  }

  /** A word depends on its own bytes only. */
  lemma {:induction false} SameBytes(m: seq<u8>, a: nat, r: seq<u8>, b: nat, n: nat)
    requires a + n <= |m| && b + n <= |r| && m[a..a + n] == r[b..b + n]
    ensures LittleEndian(m, a, n) == LittleEndian(r, b, n)
    decreases n
  {
    if n > 0 {
      assert m[a] == m[a..a + n][0] == r[b];
      assert m[a + 1..a + n] == m[a..a + n][1..] == r[b + 1..b + n];
      SameBytes(m, a + 1, r, b + 1, n - 1);
    }
  }

  lemma SameWord(m: seq<u8>, r: seq<u8>, a: nat, n: nat)
    requires a + n <= |m| && Same(m, r, a, a + n)
    ensures LittleEndian(m, a, n) == LittleEndian(r, a, n)
  {
    assert m[a..a + n] == r[a..a + n];
    SameBytes(m, a, r, a, n);
  }

  lemma {:induction false} DigitsValue(v: nat, n: nat)
    requires v < Pow256(n)
    ensures LittleEndian(Digits(v, n), 0, n) == v
  {
    if n > 0 {
      var s := Digits(v, n);
      DigitsValue(v / 0x100, n - 1);
      assert s[1..n] == Digits(v / 0x100, n - 1)[0..n - 1];
      SameBytes(s, 1, Digits(v / 0x100, n - 1), 0, n - 1);
    }
  }

  /** The digits of the number in a field are the field's bytes. */
  lemma {:induction false} DigitsOfField(m: seq<u8>, a: nat, n: nat)
    requires a + n <= |m|
    ensures Digits(LittleEndian(m, a, n), n) == m[a..a + n]
    decreases n
  {
    if n > 0 {
      var v, rest := LittleEndian(m, a, n), LittleEndian(m, a + 1, n - 1);
      DivMod(v, 0x100, rest, m[a]);
      DigitsOfField(m, a + 1, n - 1);
      assert m[a..a + n] == [m[a]] + m[a + 1..a + n];
    }
  }

  /** Little-endian words, byte by byte. */
  lemma WordValues(m: seq<u8>, a: nat)
    ensures a + 2 <= |m| ==>
      U16(m, a) == m[a] as int + 0x100 * m[a + 1] as int
    ensures a + 4 <= |m| ==>
      U32(m, a) == m[a] as int + 0x100 * m[a + 1] as int + 0x1_0000 * m[a + 2] as int + 0x100_0000 * m[a + 3] as int
    ensures a + 8 <= |m| ==>
      U64(m, a) ==
        m[a] as int + 0x100 * m[a + 1] as int + 0x1_0000 * m[a + 2] as int + 0x100_0000 * m[a + 3] as int
        + 0x1_0000_0000 * m[a + 4] as int + 0x100_0000_0000 * m[a + 5] as int
        + 0x1_0000_0000_0000 * m[a + 6] as int + 0x100_0000_0000_0000 * m[a + 7] as int
  {
    if a + 2 <= |m| {
      TwoBytes(m, a, 0);
    }
    if a + 4 <= |m| {
      TwoBytes(m, a, 2);
      TwoBytes(m, a + 2, 0);
    }
    if a + 8 <= |m| {
      TwoBytes(m, a, 6);
      TwoBytes(m, a + 2, 4);
      TwoBytes(m, a + 4, 2);
      TwoBytes(m, a + 6, 0);
    }
  }

  lemma TwoBytes(m: seq<u8>, a: nat, n: nat)
    requires a + 2 + n <= |m|
    ensures LittleEndian(m, a, n + 2) == m[a] as int + 0x100 * m[a + 1] as int + 0x1_0000 * LittleEndian(m, a + 2, n)
    ensures LittleEndian(m, a, 0) == 0
  {
    assert LittleEndian(m, a, n + 2) == m[a] as int + 0x100 * LittleEndian(m, a + 1, n + 1);
  }

  /** 64-bit addition and subtraction are addition and subtraction modulo 2^64. */
  lemma Modular(x: u64, y: u64)
    ensures Add64(x, y) == (x + y) % TWO_64 && Sub64(x, y) == (x - y) % TWO_64
  {
  }

  lemma {:induction false} ZeroField(m: seq<u8>, a: nat, n: nat)
    requires a + n <= |m| && forall k :: a <= k < a + n ==> m[k] == 0
    ensures LittleEndian(m, a, n) == 0
    decreases n
  {
    if n > 0 {
      ZeroField(m, a + 1, n - 1);
    }
  }

  lemma ZeroWord(m: seq<u8>, a: nat)
    requires a + 8 <= |m| && forall k :: a <= k < a + 8 ==> m[k] == 0
    ensures U64(m, a) == 0
  {
    ZeroField(m, a, 8);
  }

  lemma {:induction false} ZeroDigits(n: nat)
    ensures forall k :: 0 <= k < n ==> Digits(0, n)[k] == 0
  {
    if n > 0 {
      ZeroDigits(n - 1);
    }
  }

  /** A field that holds a number's digits reads as the number. */
  lemma FieldIs(m: seq<u8>, a: nat, v: nat, n: nat)
    requires v < Pow256(n) && a + n <= |m| && m[a..a + n] == Digits(v, n)
    ensures LittleEndian(m, a, n) == v
  {
    assert Digits(v, n)[0..n] == Digits(v, n);
    SameBytes(m, a, Digits(v, n), 0, n);
    DigitsValue(v, n);
  }

  /** What is stored is read back. */
  lemma ReadBack(m: seq<u8>, a: nat, v: nat, n: nat)
    requires v < Pow256(n) && a + n <= |m|
    ensures LittleEndian(Write(m, a, Digits(v, n)), a, n) == v
  {
    var r := Write(m, a, Digits(v, n));
    assert r[a..a + n] == Digits(v, n);
    FieldIs(r, a, v, n);
  }

  lemma ReadBack32(m: seq<u8>, a: nat, v: u32)
    requires a + 4 <= |m|
    ensures U32(Write(m, a, Bytes32(v)), a) == v
  {
    WordSizes();
    ReadBack(m, a, v, 4);
  }

  lemma ReadBack64(m: seq<u8>, a: nat, v: u64)
    requires a + 8 <= |m|
    ensures U64(Write(m, a, Bytes64(v)), a) == v
  {
    WordSizes();
    ReadBack(m, a, v, 8);
  }

  lemma MulMono(a: int, b: int, d: nat)
    requires a <= b
    ensures a * d <= b * d
  {
    assert (b - a) * d >= 0;
    assert b * d == a * d + (b - a) * d;
  }

  lemma Euclid(x: nat, d: nat)
    requires d > 0
    ensures x / d * d <= x < (x / d + 1) * d
    ensures x % d == x - x / d * d
  {
    assert x == d * (x / d) + x % d;
  }

  /** Quotient and remainder are determined. */
  lemma DivMod(x: nat, d: nat, q: nat, r: nat)
    requires r < d && x == q * d + r
    ensures x / d == q && x % d == r
  {
    Euclid(x, d);
    var p := x / d;
    if p < q {
      MulMono(p + 1, q, d);
    } else if q < p {
      MulMono(q + 1, p, d);
    }
  }

  function Add64(x: u64, y: u64): u64 {
    if x + y < TWO_64 then x + y else x + y - TWO_64
  }

  function Sub64(x: u64, y: u64): u64 {
    if y <= x then x - y else x - y + TWO_64
  }

  method Store(ram: array<u8>, a: nat, data: seq<u8>)
    requires a + |data| <= ram.Length
    modifies ram
    ensures ram[..] == Write(old(ram[..]), a, data)
  {
    for k := 0 to |data|
      invariant forall x :: 0 <= x < ram.Length ==>
        ram[x] == if a <= x < a + k then data[x - a] else old(ram[x])
    {
      ram[a + k] := data[k];
    }
  }
}
