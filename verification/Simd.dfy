/**
  Lane operations of the `simd` proposal (`wasmi_core/src/simd.rs`): vectors are 16 bytes, read as lanes in
  little-endian order. Integer lanes only.
*/
module Simd {
  import opened Bits

  /** An integer lane type by its size in bytes. */
  datatype Kind = Kind(bytes: nat, signed: bool)

  predicate IsKind(k: Kind) {
    k.bytes == 1 || k.bytes == 2 || k.bytes == 4 || k.bytes == 8
  }

  const I16 := Kind(2, true)
  const I32 := Kind(4, true)
  const U64 := Kind(8, false)

  /** The number of values of a lane. */
  function Range(k: Kind): (r: nat)
    ensures r > 0
  {
    Pow2(8 * k.bytes)
  }

  predicate InRange(k: Kind, v: int) {
    if k.signed then 0 - Range(k) <= 2 * v < Range(k) else 0 <= v < Range(k)
  }

  // ---------- bytes and lanes ----------

  function Decode(k: Kind, s: seq<u8>): int {
    var x := LittleEndian(s);
    if k.signed && 2 * x >= Range(k) then x - Range(k) else x
  }

  /** The bytes of a value cut to the lane. */
  function Encode(k: Kind, v: int): (s: seq<u8>)
    ensures |s| == k.bytes
  {
    ToLittleEndian(v % Range(k), k.bytes)
  }

  /** `from_v128`, on any run of bytes. */
  function Lanes(k: Kind, v: seq<u8>): seq<int>
    requires IsKind(k)
    decreases |v|
  {
    if |v| < k.bytes then [] else [Decode(k, v[..k.bytes])] + Lanes(k, v[k.bytes..])
  }

  /** `into_v128` */
  function FromLanes(k: Kind, lanes: seq<int>): seq<u8>
    requires IsKind(k)
  {
    if lanes == [] then [] else Encode(k, lanes[0]) + FromLanes(k, lanes[1..])
  }

  lemma PowByte(n: nat)
    requires n > 0
    ensures Pow2(8 * n) == 0x100 * Pow2(8 * (n - 1))
  {
    PowValues();
    PowAdd(8, 8 * (n - 1));
  }

  lemma PowZero()
    ensures Pow2(0) == 1
  {
  }

  lemma DecodeEncode(k: Kind, v: int)
    requires InRange(k, v)
    ensures Decode(k, Encode(k, v)) == v
  {
    hide LittleEndian, ToLittleEndian, Pow2;
    var x := v % Range(k);
    DivModUnique(v, Range(k), if v < 0 then -1 else 0, if v < 0 then v + Range(k) else v);
    LittleEndianRoundTrip(x, k.bytes);
  }

  /** Lanes written to a vector are the lanes read from it. */
  lemma {:induction false} LanesFromLanes(k: Kind, lanes: seq<int>)
    requires IsKind(k) && forall i :: 0 <= i < |lanes| ==> InRange(k, lanes[i])
    ensures Lanes(k, FromLanes(k, lanes)) == lanes
  {
    if lanes != [] {
      hide Decode, Encode, InRange;
      var head, more := Encode(k, lanes[0]), FromLanes(k, lanes[1..]);
      assert (head + more)[..k.bytes] == head && (head + more)[k.bytes..] == more;
      DecodeEncode(k, lanes[0]);
      LanesFromLanes(k, lanes[1..]);
      assert [lanes[0]] + lanes[1..] == lanes;
    }
  }

  lemma {:induction false} LanesAppend(k: Kind, a: seq<u8>, b: seq<u8>, count: nat)
    requires IsKind(k) && |a| == count * k.bytes
    ensures |Lanes(k, a)| == count
    ensures Lanes(k, a + b) == Lanes(k, a) + Lanes(k, b)
    decreases count
  {
    if count == 0 {
      assert a + b == b;
    } else {
      hide Decode;
      Distribute(count - 1, 1, k.bytes);
      MulAtLeast(count, k.bytes);
      var n := k.bytes;
      assert (a + b)[..n] == a[..n] && (a + b)[n..] == a[n..] + b;
      LanesAppend(k, a[n..], b, count - 1);
    }
  }

  // ---------- extending loads ----------

  function Wide(k: Kind): Kind {
    Kind(2 * k.bytes, k.signed)
  }

  /** `…_extend_low_…`: the lower half of the lanes, each as a wide lane. */
  function ExtendLow(k: Kind, v: seq<u8>): seq<u8>
    requires IsKind(k) && IsKind(Wide(k))
  {
    FromLanes(Wide(k), Lanes(k, v)[..|Lanes(k, v)| / 2])
  }

  /** `load_nxm`: the eight bytes split into lanes, each extended. */
  function LoadNxM(k: Kind, bits: u64): seq<u8>
    requires IsKind(k) && IsKind(Wide(k))
  {
    FromLanes(Wide(k), Lanes(k, ToLittleEndian(bits, 8)))
  }

  /** `v128_load64_zero`: the word in lane 0 of a zero vector. */
  function Load64Zero(bits: u64): seq<u8> {
    FromLanes(U64, [0, 0][0 := bits as int])
  }

  /** Loading and extending is loading and then extending: for every width and signedness. */
  lemma LoadExtends(k: Kind, bits: u64)
    requires k.bytes == 1 || k.bytes == 2 || k.bytes == 4
    ensures LoadNxM(k, bits) == ExtendLow(k, Load64Zero(bits))
  {
    hide Lanes, ToLittleEndian, Pow2;
    PowValues();
    DivModUnique(bits, Range(U64), 0, bits);
    var low, high := Encode(U64, bits), Encode(U64, 0);
    assert low == ToLittleEndian(bits, 8);
    var lanes := [bits as int, 0];
    assert [0, 0][0 := bits as int] == lanes && lanes[1..] == [0];
    assert FromLanes(U64, [0]) == high + [] by { assert [0][1..] == []; }
    assert Load64Zero(bits) == low + FromLanes(U64, lanes[1..]);
    assert high + [] == high;
    var count := 8 / k.bytes;
    LanesAppend(k, low, high, count);
    assert high + [] == high;
    LanesAppend(k, high, [], count);
    assert (Lanes(k, low) + Lanes(k, high))[..count] == Lanes(k, low);
  }

  /** An extending load keeps every number: lane `i` is the `i`-th group of bytes, with its sign if it has one. */
  lemma LoadLanes(k: Kind, bits: u64)
    requires k.bytes == 1 || k.bytes == 2 || k.bytes == 4
    ensures Lanes(Kind(2 * k.bytes, k.signed), LoadNxM(k, bits)) == Lanes(k, ToLittleEndian(bits, 8))
    ensures |Lanes(k, ToLittleEndian(bits, 8))| == 8 / k.bytes
  {
    hide Lanes, ToLittleEndian, InRange, FromLanes;
    var s := ToLittleEndian(bits, 8);
    LanesAppend(k, s, [], 8 / k.bytes);
    LanesInRange(k, s);
    forall i | 0 <= i < |Lanes(k, s)|
      ensures InRange(Wide(k), Lanes(k, s)[i])
    {
      WiderRange(k, Lanes(k, s)[i]);
    }
    LanesFromLanes(Wide(k), Lanes(k, s));
  }

  lemma WiderRange(k: Kind, v: int)
    requires InRange(k, v)
    ensures InRange(Wide(k), v)
  {
    PowMono(8 * k.bytes, 16 * k.bytes);
  }

  /** A lane's first byte is its least significant, and the sign of a signed lane is in its last. */
  lemma TwoByteLane(a: u8, b: u8, signed: bool, rest: seq<u8>)
    ensures var v := Lanes(Kind(2, signed), [a, b] + rest);
      v != [] && v[0] == a as int + 0x100 * b as int - (if signed && b >= 0x80 then 0x1_0000 else 0)
  {
    hide LittleEndian;
    PowValues();
    LittleEndianDigits(a, b, 0, 0, []);
    assert ([a, b] + rest)[..2] == [a, b];
  }

  lemma FourByteLane(a: u8, b: u8, c: u8, d: u8, signed: bool, rest: seq<u8>)
    ensures var v := Lanes(Kind(4, signed), [a, b, c, d] + rest);
      v != [] && v[0] == a as int + 0x100 * b as int + 0x1_0000 * c as int + 0x100_0000 * d as int
                       - (if signed && d >= 0x80 then 0x1_0000_0000 else 0)
  {
    hide LittleEndian;
    PowValues();
    LittleEndianDigits(a, b, c, d, []);
    assert ([a, b, c, d] + rest)[..4] == [a, b, c, d];
  }

  // ---------- products ----------

  type i16 = x: int | -0x8000 <= x < 0x8000

  /** A product or sum on 32 bits wraps. */
  function Wrap32(v: int): int {
    (v + 0x8000_0000) % 0x1_0000_0000 - 0x8000_0000
  }

  function Products(a: seq<int>, b: seq<int>): (e: seq<int>)
    requires |a| == |b|
    ensures |e| == |a|
  {
    seq(|a|, i requires 0 <= i < |a| => Wrap32(a[i] * b[i]))
  }

  lemma EightLanes(v: seq<u8>)
    requires |v| == 16
    ensures |Lanes(I16, v)| == 8
  {
    LanesAppend(I16, v, [], 8);
  }

  /** `i32x4_extmul_low_i16x8_s` and its high counterpart. */
  function ExtMulLow(a: seq<u8>, b: seq<u8>): seq<u8>
    requires |a| == 16 && |b| == 16
  {
    EightLanes(a);
    EightLanes(b);
    FromLanes(I32, Products(Lanes(I16, a)[..4], Lanes(I16, b)[..4]))
  }

  function ExtMulHigh(a: seq<u8>, b: seq<u8>): seq<u8>
    requires |a| == 16 && |b| == 16
  {
    EightLanes(a);
    EightLanes(b);
    FromLanes(I32, Products(Lanes(I16, a)[4..], Lanes(I16, b)[4..]))
  }

  function Dot(a0: int, a1: int, b0: int, b1: int): int {
    Wrap32(Wrap32(a0 * b0) + Wrap32(a1 * b1))
  }

  /** `i32x4_dot_i16x8_s`, by `pairwise_binary`. */
  function DotI16x8(a: seq<u8>, b: seq<u8>): seq<u8>
    requires |a| == 16 && |b| == 16
  {
    EightLanes(a);
    EightLanes(b);
    var x, y := Lanes(I16, a), Lanes(I16, b);
    FromLanes(I32, seq(4, i requires 0 <= i < 4 => Dot(x[2 * i], x[2 * i + 1], y[2 * i], y[2 * i + 1])))
  }

  lemma Wrap32InRange(v: int)
    ensures InRange(I32, Wrap32(v))
  {
    PowValues();
  }

  lemma {:induction false} DecodeInRange(k: Kind, s: seq<u8>)
    requires k.bytes > 0 && |s| == k.bytes
    ensures InRange(k, Decode(k, s))
  {
    LittleEndianRange(s);
    PowByte(k.bytes);
  }

  lemma {:induction false} LanesInRange(k: Kind, v: seq<u8>)
    requires IsKind(k)
    ensures forall i :: 0 <= i < |Lanes(k, v)| ==> InRange(k, Lanes(k, v)[i])
    decreases |v|
  {
    if |v| >= k.bytes {
      hide Decode, InRange;
      DecodeInRange(k, v[..k.bytes]);
      LanesInRange(k, v[k.bytes..]);
    }
  }

  /** Lane `i` of the low and the high product is the exact product of lanes `i` and of lanes `i + 4` of the operands. */
  lemma ExtMulLanes(a: seq<u8>, b: seq<u8>, i: nat)
    requires |a| == 16 && |b| == 16 && i < 4
    ensures |Lanes(I16, a)| == 8 && |Lanes(I16, b)| == 8
    ensures |Lanes(I32, ExtMulLow(a, b))| == 4 && |Lanes(I32, ExtMulHigh(a, b))| == 4
    ensures Lanes(I32, ExtMulLow(a, b))[i] == Lanes(I16, a)[i] * Lanes(I16, b)[i]
    ensures Lanes(I32, ExtMulHigh(a, b))[i] == Lanes(I16, a)[i + 4] * Lanes(I16, b)[i + 4]
  {
    hide Lanes, FromLanes, Wrap32, InRange;
    EightLanes(a);
    EightLanes(b);
    var x, y := Lanes(I16, a), Lanes(I16, b);
    forall v ensures InRange(I32, Wrap32(v)) { Wrap32InRange(v); }
    LanesFromLanes(I32, Products(x[..4], y[..4]));
    LanesFromLanes(I32, Products(x[4..], y[4..]));
    LanesInRange(I16, a);
    LanesInRange(I16, b);
    ExactProduct(x[i], y[i]);
    ExactProduct(x[i + 4], y[i + 4]);
  }

  lemma ExactProduct(x: int, y: int)
    requires InRange(I16, x) && InRange(I16, y)
    ensures Wrap32(x * y) == x * y
  {
    PowValues();
    ProductRange(x, y);
  }

  /** Lane `i` of the dot product is the wrapping sum of lanes `2i` and `2i + 1` of the low and high products. */
  lemma DotIsPairwiseSum(a: seq<u8>, b: seq<u8>, i: nat)
    requires |a| == 16 && |b| == 16 && i < 4
    ensures var e := Lanes(I32, ExtMulLow(a, b)) + Lanes(I32, ExtMulHigh(a, b));
      var d := Lanes(I32, DotI16x8(a, b));
      |e| == 8 && |d| == 4 && d[i] == Wrap32(e[2 * i] + e[2 * i + 1])
  {
    hide Lanes, FromLanes, Wrap32, InRange;
    EightLanes(a);
    EightLanes(b);
    var x, y := Lanes(I16, a), Lanes(I16, b);
    var low, high := Products(x[..4], y[..4]), Products(x[4..], y[4..]);
    var dots := seq(4, j requires 0 <= j < 4 => Dot(x[2 * j], x[2 * j + 1], y[2 * j], y[2 * j + 1]));
    forall v ensures InRange(I32, Wrap32(v)) { Wrap32InRange(v); }
    LanesFromLanes(I32, low);
    LanesFromLanes(I32, high);
    LanesFromLanes(I32, dots);
    assert forall j :: 0 <= j < 8 ==> (low + high)[j] == Wrap32(x[j] * y[j]);
  }

  /** The products never wrap; their sum does exactly if all four operands are the minimum. */
  lemma DotWrapsIff(a0: i16, a1: i16, b0: i16, b1: i16)
    ensures Wrap32(a0 as int * b0 as int) == a0 as int * b0 as int
    ensures Dot(a0, a1, b0, b1) == a0 as int * b0 as int + a1 as int * b1 as int
       <==> !(a0 == -0x8000 && a1 == -0x8000 && b0 == -0x8000 && b1 == -0x8000)
  {
    ProductRange(a0, b0);
    ProductRange(a1, b1);
  }

  lemma ProductRange(x: i16, y: i16)
    ensures -0x3fff_8000 <= x as int * y as int <= 0x4000_0000
    ensures x as int * y as int == 0x4000_0000 <==> x == -0x8000 && y == -0x8000
    ensures x as int * y as int <= 0x3fff_8000 || (x == -0x8000 && y == -0x8000)
  {
    var m, n := x as int, y as int;
    var p, q := if m < 0 then -m else m, if n < 0 then -n else n;
    assert p * q == m * n || p * q == -(m * n);
    assert p * q >= 0;
    if p < 0x8000 {
      MulMono(p, 0x7fff, q);
      assert p * q <= 0x7fff * 0x8000;
    } else if q < 0x8000 {
      MulMono(q, 0x7fff, p);
      assert p * q <= 0x7fff * 0x8000;
    }
  }

  // ---------- rounding Q15 product ----------

  function Clamp16(v: int): i16 {
    if v < -0x8000 then -0x8000 else if v > 0x7fff then 0x7fff else v
  }

  /** `i16x8_q15mulr_sat` on one lane: `((x * y + (1 << 14)) >> 15).clamp(MIN, MAX)`. */
  function Q15MulRSat(x: i16, y: i16): i16 {
    Clamp16((x as int * y as int + 0x4000) / 0x8000)
  }

  /** The result is the product in Q15, rounded to nearest; only the minimum squared is clamped. */
  lemma Q15ClampsIff(x: i16, y: i16)
    ensures -0x4000 <= x as int * y as int - 0x8000 * Q15MulRSat(x, y) as int < 0x4000 <==> !(x == -0x8000 && y == -0x8000)
    ensures x == -0x8000 && y == -0x8000 ==> Q15MulRSat(x, y) == 0x7fff
  {
    ProductRange(x, y);
  }

  // ---------- reductions ----------

  /** `…_bitmask`, with the loop of `lanewise_reduce`. */
  method Bitmask(lanes: seq<int>) returns (mask: nat)
    requires |lanes| <= 16
    ensures mask < Pow2(|lanes|)
    ensures forall i :: 0 <= i < |lanes| ==> ((mask / Pow2(i)) % 2 == 1 <==> lanes[i] < 0)
  {
    hide Pow2, Or, Shl;
    mask := 0;
    PowZero();
    for n := 0 to |lanes|
      invariant mask < Pow2(n)
      invariant forall i :: 0 <= i < n ==> ((mask / Pow2(i)) % 2 == 1 <==> lanes[i] < 0)
    {
      var bit: nat := if lanes[n] < 0 then 1 else 0;
      ghost var before := mask;
      BitAdded(before, bit, n);
      mask := Or(mask, Shl(32, bit, n));
      forall i | 0 <= i < n
        ensures (mask / Pow2(i)) % 2 == (before / Pow2(i)) % 2
      {
        LowerBitKept(before, bit, n, i);
      }
    }
  }

  lemma PowOne()
    ensures Pow2(1) == 2
  {
  }

  /** Or-ing in a shifted bit sets bit `n` of a number of `n` bits. */
  lemma BitAdded(x: nat, bit: nat, n: nat)
    requires x < Pow2(n) && bit <= 1 && n < 16
    ensures Or(x, Shl(32, bit, n)) == x + bit * Pow2(n) < Pow2(n + 1)
    ensures ((x + bit * Pow2(n)) / Pow2(n)) % 2 == bit
  {
    hide Pow2, Or;
    PowMono(n, 16);
    PowValues();
    DivModUnique(bit * Pow2(n), Pow2(32), 0, bit * Pow2(n));
    OrDisjoint(x, bit, n);
    PowAdd(n, 1);
    PowOne();
    DivModUnique(x + bit * Pow2(n), Pow2(n), bit, x);
  }

  /** Adding a multiple of a higher power leaves the lower bits alone. */
  lemma LowerBitKept(x: nat, bit: nat, n: nat, i: nat)
    requires i < n
    ensures ((x + bit * Pow2(n)) / Pow2(i)) % 2 == (x / Pow2(i)) % 2
  {
    hide Pow2;
    var p, h := Pow2(i), Pow2(n - i - 1);
    PowAdd(i + 1, n - i - 1);
    PowAdd(i, 1);
    PowOne();
    Associate(p, 2, h);
    EvenMultiple(bit, h, p);
    AddEvenMultiple(x, p, bit * h);
  }

  lemma EvenMultiple(b: nat, h: nat, p: nat)
    ensures b * (p * (2 * h)) == (2 * (b * h)) * p
  {
  }

  lemma AddEvenMultiple(x: nat, p: nat, c: nat)
    requires p > 0
    ensures ((x + (2 * c) * p) / p) % 2 == (x / p) % 2
  {
    var q, r := x / p, x % p;
    Distribute(q, 2 * c, p);
    DivModUnique(x + (2 * c) * p, p, q + 2 * c, r);
  }

  /** `…_all_true`, with the loop of `lanewise_reduce`. */
  method AllTrue(lanes: seq<int>) returns (all: bool)
    ensures all <==> forall i :: 0 <= i < |lanes| ==> lanes[i] != 0
  {
    all := true;
    for n := 0 to |lanes|
      invariant all <==> forall i :: 0 <= i < n ==> lanes[i] != 0
    {
      all := all && lanes[n] != 0;
    }
  }
}
