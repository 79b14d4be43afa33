/**
  Arithmetic behind the decoder's LEB128 loops: what one `result |= (byte & 0x7f) << shift` does,
  what the last-byte tests accept, and what the final shift-left-then-right computes.
*/
module LebLoops {
  import opened Bits
  import opened Leb128

  /** The outcome of a decode whose first `used` bytes contributed `lo` below bit `shift`. */
  ghost function Prepend(lo: nat, shift: nat, used: nat, step: Step<int>): Step<int> {
    match step
    case Done(v, k) => Done(lo + v * Pow2(shift), used + k)
    case Fail(k, at) => Fail(used + k, used + at)
  }

  lemma PrependTwice(lo: nat, shift: nat, used: nat, c: nat, step: Step<int>)
    ensures Prepend(lo, shift, used, Prepend(c, 7, 1, step))
         == Prepend(lo + c * Pow2(shift), shift + 7, used + 1, step)
  {
    hide Pow2;
    SmallPowers();
    if step.Done? {
      var p, v := Pow2(shift), step.value;
      assert Pow2(shift + 7) == p * 0x80 by { PowAdd(shift, 7); }
      Distribute(c, v * 0x80, p);
      Associate(v, 0x80, p);
    }
  }

  lemma PayloadBits(byte: u8)
    ensures And(byte, 0x7F) == byte % 0x80
  {
    LowBits(byte, 7, 0x7F);
  }

  lemma ContinuationBit(byte: u8)
    ensures And(byte, 0x80) == 0 <==> byte < 0x80
  {
    BitOfByte(byte, 7, 0x80);
  }

  lemma SignBit(byte: u8)
    ensures And(byte, 0x40) == 0 <==> byte % 0x80 < 0x40
  {
    BitOfByte(byte, 6, 0x40);
    Quarter(byte);
  }

  lemma SmallPowers()
    ensures Pow2(0) == 1 && Pow2(1) == 2 && Pow2(3) == 8 && Pow2(4) == 16
    ensures Pow2(6) == 0x40 && Pow2(7) == 0x80
  {
  }

  lemma SevenBits(byte: u8)
    requires byte < 0x80
    ensures byte < Pow2(7)
  {
    assert Pow2(7) == 0x80;
  }

  lemma Quarter(byte: u8)
    ensures (byte / 0x40) % 2 == 0 <==> byte % 0x80 < 0x40
  {
  }

  lemma LowBits(x: nat, k: nat, mask: nat)
    requires mask == Pow2(k) - 1
    ensures And(x, mask) == x % (mask + 1)
  {
    AndMask(x, k);
  }

  lemma BitOfByte(x: nat, k: nat, mask: nat)
    requires mask == Pow2(k)
    ensures And(x, mask) == 0 <==> (x / mask) % 2 == 0
  {
    AndBit(x, k);
  }

  /** `result |= field << shift` adds the field when nothing is shifted out. */
  lemma OrShifted(w: nat, result: nat, field: nat, shift: nat)
    requires result < Pow2(shift) && shift <= w && field < Pow2(w - shift)
    ensures Or(result, Shl(w, field, shift)) == result + field * Pow2(shift) < Pow2(w)
  {
    var p, q := Pow2(shift), Pow2(w - shift);
    assert Pow2(w) == q * p by { PowAdd(w - shift, shift); }
    MulMono(field + 1, q, p);
    Distribute(field, 1, p);
    MulMono(0, field, p);
    DivModUnique(field * p, Pow2(w), 0, field * p);
    OrDisjoint(result, field, shift);
  }

  /** `(x << (w - k)) >> (w - k)` on a signed word sign-extends a `k`-bit field. */
  lemma SignExtend(w: nat, k: nat, x: nat)
    requires 0 < k <= w && x < Pow2(k)
    ensures Sar(Signed(w, Shl(w, x, w - k)), w - k) == Signed(k, x)
  {
    var p, h := Pow2(w - k), Pow2(k - 1);
    assert Pow2(w) == 2 * (h * p) && Pow2(w - 1) == h * p by {
      PowAdd(k - 1, w - k);
      assert Pow2(w) == 2 * Pow2(w - 1);
    }
    ScaledSign(x, h, p);
    assert Shl(w, x, w - k) == x * p by { DivModUnique(x * p, Pow2(w), 0, x * p); }
    var v := if x < h then x else x - 2 * h;
    assert Signed(w, x * p) == v * p;
    DivModUnique(v * p, p, v, 0);
  }

  /** Scaling a field by `p` keeps its sign and its range. */
  lemma ScaledSign(x: nat, h: nat, p: nat)
    requires x < 2 * h && p > 0
    ensures 0 <= x * p < 2 * (h * p)
    ensures x < h <==> x * p < h * p
    ensures (x - 2 * h) * p == x * p - 2 * (h * p)
  {
  }

  lemma GroupFits(lo: nat, shift: nat, c: nat)
    requires lo < Pow2(shift) && c < 0x80
    ensures 0 <= lo + c * Pow2(shift) < Pow2(shift + 7)
  {
    var p := Pow2(shift);
    assert Pow2(shift + 7) == p * 0x80 by {
      PowAdd(shift, 7);
      assert Pow2(7) == 0x80;
    }
    Distribute(c, 1, p);
    MulMono(0, c, p);
    MulMono(c + 1, 0x80, p);
  }

  /** Reading the accumulated bits as signed makes the last group signed. */
  lemma SignedTop(lo: nat, shift: nat, c: nat)
    requires lo < Pow2(shift) && c < 0x80
    ensures lo + c * Pow2(shift) < Pow2(shift + 7)
    ensures Signed(shift + 7, lo + c * Pow2(shift)) == lo + (if c < 0x40 then c else c as int - 0x80) * Pow2(shift)
  {
    var p := Pow2(shift);
    assert Pow2(shift + 7) == p * 0x80 && Pow2(shift + 6) == p * 0x40 by {
      PowAdd(shift, 7);
      PowAdd(shift, 6);
      assert Pow2(7) == 0x80 && Pow2(6) == 0x40;
    }
    Distribute(c, 1, p);
    Distribute(c, -0x80, p);
    MulMono(0, c, p);
    MulMono(c + 1, 0x80, p);
    if c < 0x40 { MulMono(c + 1, 0x40, p); } else { MulMono(0x40, c, p); }
  }

  // ---------- one turn of each loop ----------

  /** After `used` continuation bytes of `s`, `result` holds the low `shift` bits of the number. */
  ghost predicate PartialU(n: nat, s: seq<u8>, used: nat, shift: nat, result: nat) {
    && used <= |s| && shift <= n
    && result < Pow2(shift)
    && ReadU(n, s) == Prepend(result, shift, used, ReadU(n - shift, s[used..]))
  }

  ghost predicate PartialS(n: nat, s: seq<u8>, used: nat, shift: nat, result: nat) {
    && used <= |s| && shift < n
    && result < Pow2(shift)
    && ReadS(n, s) == Prepend(result, shift, used, ReadS(n - shift, s[used..]))
  }

  lemma BeginU(n: nat, s: seq<u8>)
    ensures PartialU(n, s, 0, 0, 0)
  {
    assert s[0..] == s;
  }

  lemma BeginS(n: nat, s: seq<u8>)
    requires n > 0
    ensures PartialS(n, s, 0, 0, 0)
  {
    assert s[0..] == s;
  }

  /** Running out of bytes. */
  lemma EofU(n: nat, s: seq<u8>, used: nat, shift: nat, result: nat)
    requires PartialU(n, s, used, shift, result) && used == |s|
    ensures ReadU(n, s) == Fail(used, used)
  {
  }

  lemma EofS(n: nat, s: seq<u8>, used: nat, shift: nat, result: nat)
    requires PartialS(n, s, used, shift, result) && used == |s|
    ensures ReadS(n, s) == Fail(used, used)
  {
  }

  lemma PrependSeven(c: nat, step: Step<int>)
    ensures Prepend(c, 7, 1, step) == match step case Done(v, k) => Done(0x80 * v + c, k + 1)
                                                 case Fail(k, at) => Fail(k + 1, at + 1)
  {
  }

  /** A byte with room for all seven bits. */
  lemma SplitU(m: nat, s: seq<u8>)
    requires m > 7 && |s| > 0
    ensures ReadU(m, s) == if s[0] < 0x80 then Done(s[0], 1)
                         else Prepend(s[0] % 0x80, 7, 1, ReadU(m - 7, s[1..]))
  {
    hide Prepend;
    if s[0] >= 0x80 { PrependSeven(s[0] % 0x80, ReadU(m - 7, s[1..])); }
  }

  lemma SplitS(m: nat, s: seq<u8>)
    requires m > 7 && |s| > 0
    ensures ReadS(m, s) == if s[0] < 0x80 then Done(if s[0] < 0x40 then s[0] else s[0] as int - 0x80, 1)
                         else Prepend(s[0] % 0x80, 7, 1, ReadS(m - 7, s[1..]))
  {
    hide Prepend;
    if s[0] >= 0x80 { PrependSeven(s[0] % 0x80, ReadS(m - 7, s[1..])); }
  }

  lemma TurnU(n: nat, s: seq<u8>, used: nat, shift: nat, result: nat)
    requires PartialU(n, s, used, shift, result) && used < |s| && n - shift > 7
    ensures var next := Or(result, Shl(n, s[used] % 0x80, shift));
      && (s[used] < 0x80 ==> ReadU(n, s) == Done(next, used + 1))
      && (s[used] >= 0x80 ==> PartialU(n, s, used + 1, shift + 7, next))
  {
    hide ReadU, Shl, Pow2;
    var c := s[used] % 0x80;
    var next := Or(result, Shl(n, c, shift));
    assert next == result + c * Pow2(shift) by {
      PowAtLeast128(n - shift);
      OrShifted(n, result, c, shift);
    }
    GroupFits(result, shift, c);
    SplitU(n - shift, s[used..]);
    if s[used] >= 0x80 {
      assert s[used..][1..] == s[used + 1..];
      PrependTwice(result, shift, used, c, ReadU(n - shift - 7, s[used + 1..]));
    }
  }

  lemma TurnS(n: nat, s: seq<u8>, used: nat, shift: nat, result: nat)
    requires PartialS(n, s, used, shift, result) && used < |s| && n - shift > 7
    ensures var next := Or(result, Shl(n, s[used] % 0x80, shift));
      && next < Pow2(shift + 7)
      && (s[used] < 0x80 ==> ReadS(n, s) == Done(Signed(shift + 7, next), used + 1))
      && (s[used] >= 0x80 ==> PartialS(n, s, used + 1, shift + 7, next))
  {
    hide ReadS, Signed, Shl, Pow2;
    var c := s[used] % 0x80;
    var next := Or(result, Shl(n, c, shift));
    assert next == result + c * Pow2(shift) by {
      PowAtLeast128(n - shift);
      OrShifted(n, result, c, shift);
    }
    SignedTop(result, shift, c);
    SplitS(n - shift, s[used..]);
    if s[used] >= 0x80 {
      assert s[used..][1..] == s[used + 1..];
      PrependTwice(result, shift, used, c, ReadS(n - shift - 7, s[used + 1..]));
    }
  }

  /** The byte that reaches the top of the word, unsigned. */
  lemma LastU(n: nat, s: seq<u8>, used: nat, shift: nat, result: nat)
    requires PartialU(n, s, used, shift, result) && used < |s|
    requires n - shift == 4 || n - shift == 1
    ensures var next := Or(result, Shl(n, s[used] % 0x80, shift));
      if Shr(s[used], n - shift) != 0 then ReadU(n, s) == Fail(used + 1, used)
      else s[used] < 0x80 && ReadU(n, s) == Done(next, used + 1)
  {
    hide Pow2, Or, Shl, Shr;
    SmallPowers();
    var byte, k := s[used], n - shift;
    LastByteU(byte, k);
    assert ReadU(k, s[used..]) == if byte < Pow2(k) then Done(byte, 1) else Fail(1, 0);
    if byte < Pow2(k) {
      assert byte % 0x80 == byte;
      OrShifted(n, result, byte, shift);
    }
  }

  /** The unused bits of the last byte of a 32- or 64-bit unsigned number. */
  lemma LastByteU(byte: u8, k: nat)
    requires k == 4 || k == 1
    ensures Shr(byte, k) == 0 <==> byte < Pow2(k)
  {
    hide Pow2;
    SmallPowers();
  }

  function SignAndUnused(byte: u8, k: nat): int {
    Sar(Signed(8, Shl(8, byte, 1)), k)
  }

  /** The sign bit and the unused bits of the last byte are equal. */
  lemma LastByteS(byte: u8, k: nat)
    requires byte < 0x80 && (k == 1 || k == 4 || k == 5)
    ensures SignAndUnused(byte, k) == 0 <==> byte < Pow2(k - 1)
    ensures SignAndUnused(byte, k) == -1 <==> byte >= 0x80 - Pow2(k - 1)
  {
    hide Pow2;
    SmallPowers();
    PowValues();
    assert Pow2(5) == 32 by { PowAdd(4, 1); }
  }

  /** The byte that reaches the top of the word, signed: the spare bits must repeat the sign bit. */
  lemma LastS(n: nat, s: seq<u8>, used: nat, shift: nat, result: nat)
    requires PartialS(n, s, used, shift, result) && used < |s|
    requires n - shift == 5 || n - shift == 4 || n - shift == 1
    ensures var k := n - shift;
      if s[used] >= 0x80 || (SignAndUnused(s[used], k) != 0 && SignAndUnused(s[used], k) != -1) then
        ReadS(n, s) == Fail(used + 1, used)
      else
        && (s[used] < Pow2(k - 1) || s[used] >= 0x80 - Pow2(k - 1))
        && ReadS(n, s) == Done(result + TopGroup(s[used], k) * Pow2(shift), used + 1)
  {
    var byte, k := s[used], n - shift;
    if byte < 0x80 { LastByteS(byte, k); }
    assert Pow2(0) == 1 && Pow2(3) == 8 && Pow2(4) == 16;
  }

  function TopGroup(byte: u8, k: nat): int
    requires k > 0
  {
    if byte < Pow2(k - 1) then byte else byte as int - 0x80
  }

  /** Only the low bits of a group shifted to the top of a word survive. */
  lemma ShlWraps(n: nat, shift: nat, byte: nat)
    requires shift <= n
    ensures Shl(n, byte, shift) == (byte % Pow2(n - shift)) * Pow2(shift)
  {
    hide Pow2;
    var p, m := Pow2(shift), Pow2(n - shift);
    var q, f := byte / m, byte % m;
    assert Pow2(n) == m * p by { PowAdd(n - shift, shift); }
    assert byte * p == q * (m * p) + f * p by {
      Distribute(q * m, f, p);
      Associate(q, m, p);
    }
    MulMono(0, f, p);
    MulMono(f + 1, m, p);
    Distribute(f, 1, p);
    DivModUnique(byte * p, m * p, q, f * p);
  }

  /** Shifting the last group to the top of an `n`-bit word wraps it to the signed value. */
  lemma TopWraps(n: nat, shift: nat, result: nat, byte: u8)
    requires shift < n && result < Pow2(shift) && byte < 0x80
    requires var k := n - shift; (k == 4 || k == 1) && (byte < Pow2(k - 1) || byte >= 0x80 - Pow2(k - 1))
    ensures Signed(n, Or(result, Shl(n, byte, shift))) == result + TopGroup(byte, n - shift) * Pow2(shift)
  {
    hide Or, Shl, Pow2, Signed, TopGroup;
    var k, p := n - shift, Pow2(shift);
    var h := Pow2(k - 1);
    PowTwice(k - 1);
    PowTwice(n - 1);
    PowAdd(k - 1, shift);
    var f := byte % (2 * h);
    ShlWraps(n, shift, byte);
    OrDisjoint(result, f, shift);
    SignedSum(n, result, f, h, p);
    TopField(byte, k);
  }

  /** The last group, read as the signed top field of the word. */
  lemma TopField(byte: u8, k: nat)
    requires (k == 4 || k == 1) && byte < 0x80 && (byte < Pow2(k - 1) || byte >= 0x80 - Pow2(k - 1))
    ensures var h := Pow2(k - 1); var f := byte % (2 * h);
      TopGroup(byte, k) == if f < h then f else f - 2 * h
  {
    assert Pow2(0) == 1 && Pow2(3) == 8;
  }

  lemma SignedSum(n: nat, result: nat, f: nat, h: nat, p: nat)
    requires n > 0 && result < p && f < 2 * h && Pow2(n) == 2 * (h * p) && Pow2(n - 1) == h * p
    ensures Signed(n, result + f * p) == result + (if f < h then f as int else f - 2 * h) * p
  {
    hide Pow2;
    ScaledSign(f, h, p);
    if f < h {
      MulMono(f + 1, h, p);
      Distribute(f, 1, p);
    } else {
      MulMono(h, f, p);
    }
  }

  /** In a 64-bit word the last group of an s33 does not reach the sign bit. */
  lemma TopStaysBelow(result: nat, byte: u8)
    requires result < Pow2(28) && byte < 0x80 && (byte < 16 || byte >= 112)
    ensures Signed(64, Or(result, Shl(64, byte, 28)))
         == result + TopGroup(byte, 5) * Pow2(28) + (if byte < 16 then 0 else 0x8_0000_0000)
  {
    PowValues();
    assert Pow2(4) == 16;
    OrShifted(64, result, byte, 28) by { PowMono(8, 36); }
  }

  /** Single-byte fast paths. */
  lemma FastS(n: nat, s: seq<u8>)
    requires n > 7 && |s| > 0 && s[0] < 0x80
    ensures ReadS(n, s) == Done(Signed(7, s[0]), 1)
  {
    assert Pow2(6) == 0x40 && Pow2(7) == 0x80;
  }

  /** The first group lands at bit 0 unchanged. */
  lemma FirstGroup(n: nat, byte: u8)
    requires n > 7
    ensures Or(0, Shl(n, byte % 0x80, 0)) == byte % 0x80
  {
    PowAtLeast128(n);
    assert Pow2(0) == 1;
    OrShifted(n, 0, byte % 0x80, 0);
  }

  /** A group that fits a narrow word is shifted the same way in a wider one. */
  lemma WiderShift(n: nat, w: nat, result: nat, field: nat, shift: nat)
    requires n <= w && shift <= n && result < Pow2(shift) && field < 0x80 && n - shift > 7
    ensures Or(result, Shl(w, field, shift)) == Or(result, Shl(n, field, shift))
  {
    PowAtLeast128(n - shift);
    PowAtLeast128(w - shift);
    OrShifted(n, result, field, shift);
    OrShifted(w, result, field, shift);
  }

  lemma S33Last(lo: nat, byte: u8)
    requires lo < Pow2(28) && byte < 0x80 && (byte < 16 || byte >= 112)
    ensures lo + TopGroup(byte, 5) * Pow2(28) < 0 <==> byte >= 112
  {
    PowValues();
    assert Pow2(4) == 16;
  }

  lemma ReadUFits(n: nat, s: seq<u8>)
    requires n > 0 && ReadU(n, s).Done?
    ensures ReadU(n, s).value < Pow2(n)
    ensures n == 32 ==> ReadU(n, s).value < 0x1_0000_0000
    ensures n == 64 ==> ReadU(n, s).value < 0x1_0000_0000_0000_0000
  {
    ReadUSound(n, s);
    DenoteURange(n, s[..ReadU(n, s).used]);
    PowValues();
  }

  /** The tests on the byte that reaches the top of the word: no continuation, spare bits all equal. */
  predicate BadLastByte(byte: u8, k: nat) {
    byte >= 0x80 || (SignAndUnused(byte, k) != 0 && SignAndUnused(byte, k) != -1)
  }

  lemma FinishS(n: nat, s: seq<u8>, used: nat, shift: nat, result: nat)
    requires PartialS(n, s, used, shift, result) && used < |s| && (n - shift == 4 || n - shift == 1)
    ensures if BadLastByte(s[used], n - shift) then ReadS(n, s) == Fail(used + 1, used)
            else ReadS(n, s) == Done(Signed(n, Or(result, Shl(n, s[used] % 0x80, shift))), used + 1)
  {
    hide ReadS, Or, Shl, Signed, SignAndUnused, Pow2;
    LastS(n, s, used, shift, result);
    if !BadLastByte(s[used], n - shift) { TopWraps(n, shift, result, s[used]); }
  }

  lemma FinishS33(s: seq<u8>, result: nat)
    requires PartialS(33, s, 4, 28, result) && 4 < |s|
    ensures if BadLastByte(s[4], 5) then ReadS33(s) == Fail(5, 4)
            else ReadS33(s) == Done(Signed(64, Or(result, Shl(64, s[4] % 0x80, 28))), 5)
  {
    hide PartialS, ReadS, Or, Shl, Signed, SignAndUnused, Pow2;
    var byte := s[4];
    LastS(33, s, 4, 28, result);
    if !BadLastByte(byte, 5) { TopOfS33(s, result, byte); }
  }

  lemma TopOfS33(s: seq<u8>, result: nat, byte: u8)
    requires PartialS(33, s, 4, 28, result) && byte < 0x80
    requires byte < Pow2(4) || byte >= 0x80 - Pow2(4)
    ensures var v := result + TopGroup(byte, 5) * Pow2(28);
      Signed(64, Or(result, Shl(64, byte, 28))) == if v < 0 then v + 0x8_0000_0000 else v
  {
    hide ReadS, Or, Shl, Signed;
    assert Pow2(4) == 16;
    TopStaysBelow(result, byte);
    S33Last(result, byte);
  }

  /** The end of the loop before the top of the word is reached: sign extension. */
  lemma ExtendS(n: nat, w: nat, s: seq<u8>, used: nat, shift: nat, result: nat)
    requires PartialS(n, s, used, shift, result) && used < |s| && n - shift > 7 && n <= w
    ensures var next := Or(result, Shl(w, s[used] % 0x80, shift));
      && (s[used] >= 0x80 ==> PartialS(n, s, used + 1, shift + 7, next))
      && (s[used] < 0x80 ==>
            ReadS(n, s) == Done(Sar(Signed(w, Shl(w, next, w - shift - 7)), w - shift - 7), used + 1))
  {
    TurnS(n, s, used, shift, result);
    WiderShift(n, w, result, s[used] % 0x80, shift);
    SignExtend(w, shift + 7, Or(result, Shl(n, s[used] % 0x80, shift)));
  }

  /** A number that ends before its fifth byte is read as the grammar says. */
  lemma ShortS33(s: seq<u8>)
    requires ReadS(33, s).used < 5
    ensures ReadS33(s) == ReadS(33, s)
  {
  }

  // ---------- flag words ----------

  lemma TwentyBits()
    ensures Pow2(20) == 0x10_0000
  {
    PowValues();
    PowAdd(16, 4);
    SmallPowers();
  }

  /** `flags & (1 << 6)` tests bit 6 and `flags ^= 1 << 6` clears it when it is set. */
  lemma MemoryFlag(flags: nat)
    ensures And(flags, 64) != 0 <==> (flags / 64) % 2 == 1
    ensures And(flags, 64) != 0 ==> Xor(flags, 64) == flags - 64
  {
    SmallPowers();
    BitOfByte(flags, 6, 64);
    if (flags / 64) % 2 == 1 { ClearBit(flags, 6, 64); }
  }

  lemma ClearBit(x: nat, k: nat, mask: nat)
    requires mask == Pow2(k) && (x / mask) % 2 == 1
    ensures Xor(x, mask) == x - mask
  {
    XorBit(x, k);
  }
}
