/**
  The `wide-arithmetic` instructions (`wasmi_core/src/wasm.rs`): 128-bit sums, differences and products on
  pairs of 64-bit words.
*/
module Wide128 {
  import opened Bits

  const W63 := 0x8000_0000_0000_0000
  const W64 := 0x1_0000_0000_0000_0000
  const W127 := 0x8000_0000_0000_0000_0000_0000_0000_0000
  const W128 := 0x1_0000_0000_0000_0000_0000_0000_0000_0000

  type i64 = x: int | -0x8000_0000_0000_0000 <= x < 0x8000_0000_0000_0000
  type i128 = x: int | -0x8000_0000_0000_0000_0000_0000_0000_0000 <= x < 0x8000_0000_0000_0000_0000_0000_0000_0000

  /** `x as u64` */
  function Unsigned(x: i64): u64 {
    if x < 0 then x as int + W64 else x as int
  }

  /** `v as i64`: the low 64 bits, read as a signed word. */
  function Low(v: int): i64 {
    (v + W63) % W64 - W63
  }

  /** `v as i128`, and what the wrapping operations on `i128` do to a result out of range. */
  function Wrap128(v: int): i128 {
    (v + W127) % W128 - W127
  }

  /** `combine128`: `(hi << 64) | lo` with both words zero-extended. */
  function Combine128(lo: i64, hi: i64): i128 {
    CombineBits(lo, hi);
    Wrap128(Or(Shl(128, Unsigned(hi), 64), Unsigned(lo)))
  }

  /** `split128` */
  function Split128(v: i128): (i64, i64) {
    (Low(v), Low(v as int / W64))
  }

  function Add128(lhsLo: i64, lhsHi: i64, rhsLo: i64, rhsHi: i64): (i64, i64) {
    Split128(Wrap128(Combine128(lhsLo, lhsHi) as int + Combine128(rhsLo, rhsHi) as int))
  }

  function Sub128(lhsLo: i64, lhsHi: i64, rhsLo: i64, rhsHi: i64): (i64, i64) {
    Split128(Wrap128(Combine128(lhsLo, lhsHi) as int - Combine128(rhsLo, rhsHi) as int))
  }

  function MulWideS(lhs: i64, rhs: i64): (i64, i64) {
    Split128(Wrap128(lhs as int * rhs as int))
  }

  /** The product is taken on `u128`, where it cannot wrap. */
  function MulWideU(lhs: i64, rhs: i64): (i64, i64) {
    Split128(Wrap128((Unsigned(lhs) as int * Unsigned(rhs) as int) % W128))
  }

  // ---------- combining and splitting ----------

  lemma PowWide()
    ensures Pow2(64) == W64 && Pow2(128) == W128
  {
    PowValues();
    PowAdd(64, 64);
  }

  lemma CombineBits(lo: i64, hi: i64)
    ensures Or(Shl(128, Unsigned(hi), 64), Unsigned(lo)) == Unsigned(hi) as int * W64 + Unsigned(lo) as int
  {
    hide Pow2, Or;
    PowWide();
    var h := Unsigned(hi) as int;
    DivModUnique(h * Pow2(64), Pow2(128), 0, h * Pow2(64));
    OrCommutes(h * Pow2(64), Unsigned(lo));
    OrDisjoint(Unsigned(lo), h, 64);
  }

  /** Words wrap to the only representative in range. */
  lemma WrapUnique(x: int, y: i128, k: int)
    requires x == y as int + k * W128
    ensures Wrap128(x) == y
  {
    DivModUnique(x + W127, W128, k, y as int + W127);
  }

  lemma LowUnique(x: int, y: i64, k: int)
    requires x == y as int + k * W64
    ensures Low(x) == y
  {
    DivModUnique(x + W63, W64, k, y as int + W63);
  }

  /** The combined number is the signed high word over the unsigned low word. */
  lemma CombineValue(lo: i64, hi: i64)
    ensures Combine128(lo, hi) == hi as int * W64 + Unsigned(lo) as int
  {
    hide Or, Shl, Wrap128;
    CombineBits(lo, hi);
    WrapUnique(Unsigned(hi) as int * W64 + Unsigned(lo) as int, hi as int * W64 + Unsigned(lo) as int, if hi < 0 then 1 else 0);
  }

  lemma SplitValue(v: i128, lo: i64, hi: i64)
    requires v == hi as int * W64 + Unsigned(lo) as int
    ensures Split128(v) == (lo, hi)
  {
  }

  lemma SplitCombine(lo: i64, hi: i64)
    ensures Split128(Combine128(lo, hi)) == (lo, hi)
  {
    hide Split128, Combine128;
    CombineValue(lo, hi);
    SplitValue(Combine128(lo, hi), lo, hi);
  }

  lemma CombineSplit(v: i128)
    ensures Combine128(Split128(v).0, Split128(v).1) == v
  {
    hide Split128, Combine128;
    var q, r := v as int / W64, v as int % W64;
    var lo: i64 := if r < W63 then r else r - W64;
    SplitValue(v, lo, q);
    CombineValue(lo, q);
  }

  // ---------- sums and differences ----------

  /** Adding 128 bits is adding words with a carry. */
  lemma AddIsCarry(lhsLo: i64, lhsHi: i64, rhsLo: i64, rhsHi: i64)
    ensures var carry := if Unsigned(lhsLo) as int + Unsigned(rhsLo) as int >= W64 then 1 else 0;
      Add128(lhsLo, lhsHi, rhsLo, rhsHi) == (Low(lhsLo as int + rhsLo as int), Low(lhsHi as int + rhsHi as int + carry))
  {
    hide Split128, Combine128, Wrap128;
    CombineValue(lhsLo, lhsHi);
    CombineValue(rhsLo, rhsHi);
    var carry := if Unsigned(lhsLo) as int + Unsigned(rhsLo) as int >= W64 then 1 else 0;
    Recombine(lhsLo as int + rhsLo as int, Unsigned(lhsLo) as int + Unsigned(rhsLo) as int - carry * W64,
              lhsHi as int + rhsHi as int + carry);
  }

  /** Subtracting 128 bits is subtracting words with a borrow. */
  lemma SubIsBorrow(lhsLo: i64, lhsHi: i64, rhsLo: i64, rhsHi: i64)
    ensures var borrow := if Unsigned(lhsLo) < Unsigned(rhsLo) then 1 else 0;
      Sub128(lhsLo, lhsHi, rhsLo, rhsHi) == (Low(lhsLo as int - rhsLo as int), Low(lhsHi as int - rhsHi as int - borrow))
  {
    hide Split128, Combine128, Wrap128;
    CombineValue(lhsLo, lhsHi);
    CombineValue(rhsLo, rhsHi);
    var borrow := if Unsigned(lhsLo) < Unsigned(rhsLo) then 1 else 0;
    Recombine(lhsLo as int - rhsLo as int, Unsigned(lhsLo) as int - Unsigned(rhsLo) as int + borrow * W64,
              lhsHi as int - rhsHi as int - borrow);
  }

  /** A number given by its low word, unsigned and reduced, and any high part, splits into the two words reduced. */
  lemma Recombine(low: int, reduced: u64, high: int)
    requires (low - reduced as int) % W64 == 0
    ensures Split128(Wrap128(high * W64 + reduced as int)) == (Low(low), Low(high))
  {
    var hi := Low(high);
    var k := (high - hi as int) / W64;
    LowSplit(high);
    var lo: i64 := if reduced < W63 then reduced as int else reduced as int - W64;
    hide Wrap128, Split128, Low;
    WrapUnique(high * W64 + reduced as int, hi as int * W64 + reduced as int, k);
    SplitValue(hi as int * W64 + reduced as int, lo, hi);
    LowUnique(low, lo, (low - lo as int) / W64);
  }

  lemma LowSplit(x: int)
    ensures x == Low(x) as int + ((x - Low(x) as int) / W64) * W64
  {
  }

  lemma Wrap128Split(x: int) returns (k: int)
    ensures x == Wrap128(x) as int + k * W128
  {
    k := (x + W127) / W128;
  }

  /** Subtraction undoes addition, and addition undoes subtraction, on every pair of words. */
  lemma AddSubInverse(aLo: i64, aHi: i64, bLo: i64, bHi: i64)
    ensures var s := Add128(aLo, aHi, bLo, bHi); Sub128(s.0, s.1, bLo, bHi) == (aLo, aHi)
    ensures var d := Sub128(aLo, aHi, bLo, bHi); Add128(d.0, d.1, bLo, bHi) == (aLo, aHi)
  {
    hide Split128, Combine128, Wrap128;
    var a, b := Combine128(aLo, aHi), Combine128(bLo, bHi);
    var sum, diff := Wrap128(a as int + b as int), Wrap128(a as int - b as int);
    CombineSplit(sum);
    CombineSplit(diff);
    var k := Wrap128Split(a as int + b as int);
    var l := Wrap128Split(a as int - b as int);
    WrapUnique(sum as int - b as int, a, -k);
    WrapUnique(diff as int + b as int, a, -l);
    SplitCombine(aLo, aHi);
  }

  // ---------- products ----------

  lemma ProductBounds(a: int, b: int, m: nat)
    requires 0 - m <= a <= m && 0 - m <= b <= m
    ensures 0 - m * m <= a * b <= m * m
  {
  }

  /** The signed product is exact: no bit is lost. */
  lemma MulWideSExact(a: i64, b: i64)
    ensures Combine128(MulWideS(a, b).0, MulWideS(a, b).1) == a as int * b as int
  {
    hide Split128, Combine128, Wrap128;
    ProductBounds(a, b, W63);
    WrapUnique(a as int * b as int, a as int * b as int, 0);
    CombineSplit(a as int * b as int);
  }

  /** So is the unsigned one, read as an unsigned number. */
  lemma MulWideUExact(a: i64, b: i64)
    ensures var r := MulWideU(a, b);
      Unsigned(r.1) as int * W64 + Unsigned(r.0) as int == Unsigned(a) as int * Unsigned(b) as int
  {
    hide Split128, Combine128, Wrap128, Unsigned;
    var x, y := Unsigned(a), Unsigned(b);
    ProductFits(x, y);
    var r := MulWideU(a, b);
    UnsignedWords(x as int * y as int, r.0, r.1);
  }

  lemma ProductFits(x: u64, y: u64)
    ensures 0 <= x as int * y as int < W128
  {
    ProductBounds(x, y, W64 - 1);
    MulMono(0, x, y);
  }

  /** An unsigned 128-bit number is its two unsigned words. */
  lemma UnsignedWords(v: int, lo: i64, hi: i64)
    requires 0 <= v < W128 && (lo, hi) == Split128(Wrap128(v % W128))
    ensures Unsigned(hi) as int * W64 + Unsigned(lo) as int == v
  {
    hide Split128, Combine128;
    CombineSplit(Wrap128(v));
    CombineValue(lo, hi);
  }

  /** Signed and unsigned products share the low word; the high words differ by the other factor for each negative one. */
  lemma HighWordsDiffer(a: i64, b: i64)
    ensures MulWideU(a, b).0 == MulWideS(a, b).0
    ensures MulWideU(a, b).1 == Low(MulWideS(a, b).1 as int + (if a < 0 then b as int else 0) + (if b < 0 then a as int else 0))
  {
    hide MulWideS, MulWideU, Combine128, Low;
    var s, u := MulWideS(a, b), MulWideU(a, b);
    MulWideSExact(a, b);
    MulWideUExact(a, b);
    CombineValue(s.0, s.1);
    var shift := (if a < 0 then b as int else 0) + (if b < 0 then a as int else 0);
    var both := if a < 0 && b < 0 then 1 else 0;
    UnsignedProduct(a, b, shift, both);
    SameWords(Unsigned(u.1), Unsigned(u.0), s.1 as int + shift + both * W64, Unsigned(s.0));
    LowUnique(s.1 as int + shift, u.1, if u.1 < 0 then 1 - both else 0 - both);
  }

  lemma UnsignedProduct(a: i64, b: i64, shift: int, both: int)
    requires shift == (if a < 0 then b as int else 0) + (if b < 0 then a as int else 0)
    requires both == if a < 0 && b < 0 then 1 else 0
    ensures Unsigned(a) as int * Unsigned(b) as int == a as int * b as int + shift * W64 + both * W128
  {
  }

  lemma SameWords(h1: int, l1: u64, h2: int, l2: u64)
    requires h1 * W64 + l1 as int == h2 * W64 + l2 as int
    ensures h1 == h2 && l1 == l2
  {
  }
}
