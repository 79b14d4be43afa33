/**
  Machine-word operations as the decoder uses them: masks, `|`, `^`, shifts and two's complement,
  defined bit by bit on naturals, with the lemmas that turn each use into arithmetic.
*/
module Bits {
  type u8 = x: int | 0 <= x < 0x100
  type u32 = x: int | 0 <= x < 0x1_0000_0000
  type u64 = x: int | 0 <= x < 0x1_0000_0000_0000_0000

  function Pow2(n: nat): (p: nat)
    ensures p > 0
  {
    if n == 0 then 1 else 2 * Pow2(n - 1)
  }

  function And(a: nat, b: nat): nat
    decreases a + b
  {
    if a == 0 || b == 0 then 0
    else 2 * And(a / 2, b / 2) + (if a % 2 == 1 && b % 2 == 1 then 1 else 0)
  }

  function Or(a: nat, b: nat): nat
    decreases a + b
  {
    if a == 0 && b == 0 then 0
    else 2 * Or(a / 2, b / 2) + (if a % 2 == 1 || b % 2 == 1 then 1 else 0)
  }

  function Xor(a: nat, b: nat): nat
    decreases a + b
  {
    if a == 0 && b == 0 then 0
    else 2 * Xor(a / 2, b / 2) + (if a % 2 != b % 2 then 1 else 0)
  }

  /** `x << s` on a word of `w` bits: bits pushed past the top are lost. */
  function Shl(w: nat, x: nat, s: nat): nat {
    (x * Pow2(s)) % Pow2(w)
  }

  /** `x >> s` on an unsigned word. */
  function Shr(x: nat, s: nat): nat {
    DivNonNegative(x, Pow2(s));
    x / Pow2(s)
  }

  lemma DivNonNegative(x: nat, p: nat)
    requires p > 0
    ensures x / p >= 0
  {
  }

  /** `v >> s` on a signed word: division by a positive number rounds down, as an arithmetic shift does. */
  function Sar(v: int, s: nat): int {
    v / Pow2(s)
  }

  /** The signed reading of a `w`-bit pattern. */
  function Signed(w: nat, x: nat): int
    requires w > 0
  {
    if x < Pow2(w - 1) then x else x - Pow2(w)
  }

  lemma {:induction false} PowAdd(a: nat, b: nat)
    ensures Pow2(a + b) == Pow2(a) * Pow2(b)
    decreases b
  {
    if b > 0 {
      PowAdd(a, b - 1);
      assert Pow2(a + b) == 2 * Pow2(a + (b - 1));
      DoubleOnce(Pow2(a), Pow2(b - 1));
    }
  }

  lemma DoubleOnce(x: nat, y: nat)
    ensures 2 * (x * y) == x * (2 * y)
  {
  }

  lemma PowTwice(n: nat)
    ensures Pow2(n + 1) == 2 * Pow2(n)
  {
  }

  lemma {:induction false} PowMono(a: nat, b: nat)
    requires a <= b
    ensures Pow2(a) <= Pow2(b)
  {
    if a < b { PowMono(a, b - 1); }
  }

  lemma Distribute(a: int, b: int, p: int)
    ensures (a + b) * p == a * p + b * p
  {
  }

  lemma Associate(a: int, b: int, p: int)
    ensures (a * b) * p == a * (b * p)
  {
  }

  lemma MulMono(a: int, b: int, p: int)
    requires a <= b && p >= 0
    ensures a * p <= b * p
  {
  }

  lemma MulAtLeast(k: int, d: int)
    requires k >= 1 && d >= 0
    ensures k * d >= d
  {
    assert k * d == (k - 1) * d + d;
  }

  lemma PowValues()
    ensures Pow2(8) == 0x100 && Pow2(16) == 0x1_0000 && Pow2(28) == 0x1000_0000
    ensures Pow2(31) == 0x8000_0000 && Pow2(32) == 0x1_0000_0000 && Pow2(35) == 0x8_0000_0000
    ensures Pow2(63) == 0x8000_0000_0000_0000 && Pow2(64) == 0x1_0000_0000_0000_0000
  {
    assert Pow2(8) == 0x100;
    PowAdd(8, 8);
    assert Pow2(12) == 0x1000;
    PowAdd(16, 12);
    PowAdd(28, 3);
    PowAdd(31, 1);
    PowAdd(32, 3);
    PowAdd(32, 31);
    PowAdd(63, 1);
  }

  lemma DivModUnique(x: int, d: int, q: int, r: int)
    requires 0 <= r < d && x == q * d + r
    ensures x / d == q && x % d == r
  {
    var q', r' := x / d, x % d;
    var k := q - q';
    assert k * d == r' - r by {
      assert x == d * q' + r';
      assert k * d == q * d - d * q';
    }
    assert (-k) * d == -(k * d);
    if k >= 1 { MulAtLeast(k, d); }
    if k <= -1 { MulAtLeast(-k, d); }
  }

  /** Dividing by `2p` is halving, then dividing by `p`. */
  lemma HalveThenDivide(x: nat, p: nat)
    requires p > 0
    ensures x / (2 * p) == (x / 2) / p
    ensures x % (2 * p) == 2 * ((x / 2) % p) + x % 2
  {
    var q, r := (x / 2) / p, (x / 2) % p;
    assert x / 2 == q * p + r;
    assert 2 * (q * p) == q * (2 * p);
    DivModUnique(x, 2 * p, q, 2 * r + x % 2);
  }

  lemma AndOdd(x: nat, h: nat)
    ensures And(x, 2 * h + 1) == 2 * And(x / 2, h) + x % 2
  {
  }

  /** `x & (2^k - 1)` keeps the low `k` bits. */
  lemma {:induction false} AndMask(x: nat, k: nat)
    ensures And(x, Pow2(k) - 1) == x % Pow2(k)
  {
    hide And;
    if x == 0 || k == 0 {
      AndZero(x, Pow2(k) - 1);
      DivModUnique(0, Pow2(k), 0, 0);
    } else {
      var p := Pow2(k - 1);
      AndMask(x / 2, k - 1);
      HalveThenDivide(x, p);
      AndOdd(x, p - 1);
    }
  }

  lemma AndZero(a: nat, b: nat)
    requires a == 0 || b == 0
    ensures And(a, b) == 0
  {
  }

  /** `x & 2^k` is zero exactly when bit `k` is clear. */
  lemma {:induction false} AndBit(x: nat, k: nat)
    ensures And(x, Pow2(k)) == if (x / Pow2(k)) % 2 == 1 then Pow2(k) else 0
  {
    if x == 0 {
      DivModUnique(0, Pow2(k), 0, 0);
    } else if k == 0 {
      assert And(x / 2, 0) == 0;
    } else {
      AndBit(x / 2, k - 1);
      HalveThenDivide(x, Pow2(k - 1));
    }
  }

  lemma {:induction false} OrZero(a: nat)
    ensures Or(a, 0) == a
    decreases a
  {
    if a > 0 { OrZero(a / 2); }
  }

  lemma {:induction false} OrLeftZero(a: nat)
    ensures Or(0, a) == a
    decreases a
  {
    if a > 0 { OrLeftZero(a / 2); }
  }

  lemma {:induction false} OrCommutes(a: nat, b: nat)
    ensures Or(a, b) == Or(b, a)
    decreases a + b
  {
    if a > 0 || b > 0 { OrCommutes(a / 2, b / 2); }
  }

  /** Or-ing in a field above all bits set so far is addition. */
  lemma {:induction false} OrDisjoint(a: nat, b: nat, k: nat)
    requires a < Pow2(k)
    ensures Or(a, b * Pow2(k)) == a + b * Pow2(k)
    decreases k
  {
    if k == 0 {
      OrLeftZero(b);
    } else {
      var p := Pow2(k - 1);
      assert b * (2 * p) == 2 * (b * p);
      OrDisjoint(a / 2, b, k - 1);
      DivModUnique(b * (2 * p), 2, b * p, 0);
      if a == 0 && b * Pow2(k) == 0 {
      } else {
        assert Or(a, b * Pow2(k)) == 2 * Or(a / 2, b * p) + (if a % 2 == 1 then 1 else 0);
      }
    }
  }

  lemma {:induction false} XorZero(a: nat)
    ensures Xor(a, 0) == a
    decreases a
  {
    if a > 0 { XorZero(a / 2); }
  }

  /** Toggling a bit that is set clears it. */
  lemma {:induction false} XorBit(x: nat, k: nat)
    requires (x / Pow2(k)) % 2 == 1
    ensures Xor(x, Pow2(k)) == x - Pow2(k)
    decreases k
  {
    if k == 0 {
      XorZero(x / 2);
      assert Pow2(0) == 1;
    } else {
      HalveThenDivide(x, Pow2(k - 1));
      XorBit(x / 2, k - 1);
    }
  }

  // ---------- little-endian words ----------

  function LittleEndian(b: seq<u8>): nat {
    if b == [] then 0 else b[0] + 0x100 * LittleEndian(b[1..])
  }

  function ToLittleEndian(v: nat, n: nat): (b: seq<u8>)
    ensures |b| == n
  {
    if n == 0 then [] else [v % 0x100] + ToLittleEndian(v / 0x100, n - 1)
  }

  lemma {:induction false} LittleEndianRange(b: seq<u8>)
    ensures LittleEndian(b) < Pow2(8 * |b|)
  {
    if b != [] {
      LittleEndianRange(b[1..]);
      PowAdd(8, 8 * |b| - 8);
      assert Pow2(8) == 0x100;
    }
  }

  lemma {:induction false} LittleEndianRoundTrip(v: nat, n: nat)
    requires v < Pow2(8 * n)
    ensures LittleEndian(ToLittleEndian(v, n)) == v
    decreases n
  {
    if n > 0 {
      PowAdd(8, 8 * n - 8);
      assert Pow2(8) == 0x100;
      LittleEndianRoundTrip(v / 0x100, n - 1);
    }
  }

  /** The first byte is the least significant. */
  lemma LittleEndianDigits(a: u8, b: u8, c: u8, d: u8, rest: seq<u8>)
    ensures LittleEndian([a]) == a as int
    ensures LittleEndian([a, b]) == a as int + 0x100 * b as int
    ensures LittleEndian([a, b, c, d]) == a as int + 0x100 * b as int + 0x1_0000 * c as int + 0x100_0000 * d as int
    ensures LittleEndian([a, b, c, d] + rest)
         == a as int + 0x100 * b as int + 0x1_0000 * c as int + 0x100_0000 * d as int + 0x1_0000_0000 * LittleEndian(rest)
  {
    LittleEndianStep(d, []);
    LittleEndianStep(c, [d]);
    LittleEndianStep(b, [c, d]);
    LittleEndianStep(a, [b, c, d]);
    LittleEndianStep(a, []);
    LittleEndianStep(b, []);
    LittleEndianStep(a, [b]);
    LittleEndianStep(d, rest);
    LittleEndianStep(c, [d] + rest);
    LittleEndianStep(b, [c] + ([d] + rest));
    LittleEndianStep(a, [b] + ([c] + ([d] + rest)));
    assert [d] + [] == [d] && [c] + [d] == [c, d] && [b] + [c, d] == [b, c, d] && [a] + [b, c, d] == [a, b, c, d];
    assert [a] + [] == [a] && [b] + [] == [b] && [a] + [b] == [a, b];
    assert [a] + ([b] + ([c] + ([d] + rest))) == [a, b, c, d] + rest;
  }

  lemma LittleEndianStep(a: u8, rest: seq<u8>)
    ensures LittleEndian([a] + rest) == a as int + 0x100 * LittleEndian(rest)
  {
    assert ([a] + rest)[1..] == rest;
  }
}
