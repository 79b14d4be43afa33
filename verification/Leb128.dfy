/**
  LEB128 integers as section 5.2.2 of the WebAssembly Core Specification 2.0 defines them.

  `DenoteU`/`DenoteS` are the grammar: what a whole byte string denotes, if anything.
  `ReadU`/`ReadS` decode the front of a stream and also say where a failed decode stops. They agree
  with the grammar on every input, so a decode depends only on the bytes it consumes.
*/
module Leb128 {
  import opened Wrappers
  import opened Bits

  /** Outcome of decoding the front of a stream; `used` bytes are consumed either way and an error
      is reported `at` bytes after the start. */
  datatype Step<+T> = Done(value: T, used: nat) | Fail(used: nat, at: int)

  // ---------- the grammar ----------

  ghost function DenoteU(n: nat, b: seq<u8>): Option<nat>
    decreases |b|
  {
    if |b| == 0 then None
    else if |b| == 1 then if b[0] < 0x80 && b[0] < Pow2(n) then Some(b[0]) else None
    else if b[0] < 0x80 || n <= 7 then None
    else
      match DenoteU(n - 7, b[1..])
      case None => None
      case Some(m) => Some(0x80 * m + (b[0] - 0x80))
  }

  ghost function DenoteS(n: nat, b: seq<u8>): Option<int>
    requires n > 0
    decreases |b|
  {
    if |b| == 0 then None
    else if |b| == 1 then
      if b[0] < 0x40 && b[0] < Pow2(n - 1) then Some(b[0])
      else if 0x40 <= b[0] < 0x80 && b[0] >= 0x80 - Pow2(n - 1) then Some(b[0] as int - 0x80)
      else None
    else if b[0] < 0x80 || n <= 7 then None
    else
      match DenoteS(n - 7, b[1..])
      case None => None
      case Some(m) => Some(0x80 * m + (b[0] - 0x80))
  }

  // ---------- decoding the front of a stream ----------

  function ReadU(n: nat, s: seq<u8>): (r: Step<nat>)
    ensures r.used <= |s|
    ensures r.Done? ==> r.used > 0
    decreases |s|
  {
    if |s| == 0 then Fail(0, 0)
    else if n <= 7 then if s[0] < 0x80 && s[0] < Pow2(n) then Done(s[0], 1) else Fail(1, 0)
    else if s[0] < 0x80 then Done(s[0], 1)
    else
      match ReadU(n - 7, s[1..])
      case Done(m, k) => Done(0x80 * m + (s[0] - 0x80), k + 1)
      case Fail(k, at) => Fail(k + 1, at + 1)
  }

  function ReadS(n: nat, s: seq<u8>): (r: Step<int>)
    requires n > 0
    ensures r.used <= |s|
    ensures r.Done? ==> r.used > 0
    decreases |s|
  {
    if |s| == 0 then Fail(0, 0)
    else if n <= 7 then
      if s[0] < 0x40 && s[0] < Pow2(n - 1) then Done(s[0], 1)
      else if 0x40 <= s[0] < 0x80 && s[0] >= 0x80 - Pow2(n - 1) then Done(s[0] as int - 0x80, 1)
      else Fail(1, 0)
    else if s[0] < 0x40 then Done(s[0], 1)
    else if s[0] < 0x80 then Done(s[0] as int - 0x80, 1)
    else
      match ReadS(n - 7, s[1..])
      case Done(m, k) => Done(0x80 * m + (s[0] - 0x80), k + 1)
      case Fail(k, at) => Fail(k + 1, at + 1)
  }

  /** What `read_var_s33` returns: a five-byte negative number comes back without its sign. */
  function ReadS33(s: seq<u8>): (r: Step<int>)
    ensures r.used <= |s|
    ensures r.Done? ==> r.used > 0
  {
    match ReadS(33, s)
    case Done(v, k) => Done(if k == 5 && v < 0 then v + 0x8_0000_0000 else v, k)
    case Fail(k, at) => Fail(k, at)
  }

  lemma PowAtLeast128(n: nat)
    requires n >= 7
    ensures Pow2(n) >= 0x80
  {
    PowMono(7, n);
  }

  lemma {:induction false} ReadUSound(n: nat, s: seq<u8>)
    requires ReadU(n, s).Done?
    ensures DenoteU(n, s[..ReadU(n, s).used]) == Some(ReadU(n, s).value)
    decreases |s|
  {
    var k := ReadU(n, s).used;
    if n > 7 {
      PowAtLeast128(n);
      if s[0] >= 0x80 {
        ReadUSound(n - 7, s[1..]);
        assert s[..k][1..] == s[1..][..k - 1];
      }
    }
  }

  lemma {:induction false} ReadUComplete(n: nat, s: seq<u8>, k: nat)
    requires k <= |s| && DenoteU(n, s[..k]).Some?
    ensures ReadU(n, s) == Done(DenoteU(n, s[..k]).value, k)
    decreases |s|
  {
    if k > 1 {
      assert s[..k][1..] == s[1..][..k - 1];
      ReadUComplete(n - 7, s[1..], k - 1);
    }
  }

  lemma {:induction false} ReadSSound(n: nat, s: seq<u8>)
    requires n > 0 && ReadS(n, s).Done?
    ensures DenoteS(n, s[..ReadS(n, s).used]) == Some(ReadS(n, s).value)
    decreases |s|
  {
    var k := ReadS(n, s).used;
    if n > 7 {
      PowAtLeast128(n - 1);
      if s[0] >= 0x80 {
        ReadSSound(n - 7, s[1..]);
        assert s[..k][1..] == s[1..][..k - 1];
      }
    }
  }

  lemma {:induction false} ReadSComplete(n: nat, s: seq<u8>, k: nat)
    requires n > 0 && k <= |s| && DenoteS(n, s[..k]).Some?
    ensures ReadS(n, s) == Done(DenoteS(n, s[..k]).value, k)
    decreases |s|
  {
    if k > 1 {
      assert s[..k][1..] == s[1..][..k - 1];
      ReadSComplete(n - 7, s[1..], k - 1);
    }
  }

  /** The decoder accepts exactly the strings of the grammar, with exactly their value and length. */
  lemma ReadUExact(n: nat, s: seq<u8>, k: nat, v: nat)
    requires k <= |s|
    ensures ReadU(n, s) == Done(v, k) <==> DenoteU(n, s[..k]) == Some(v)
  {
    if ReadU(n, s) == Done(v, k) { ReadUSound(n, s); }
    if DenoteU(n, s[..k]) == Some(v) { ReadUComplete(n, s, k); }
  }

  lemma ReadSExact(n: nat, s: seq<u8>, k: nat, v: int)
    requires n > 0 && k <= |s|
    ensures ReadS(n, s) == Done(v, k) <==> DenoteS(n, s[..k]) == Some(v)
  {
    if ReadS(n, s) == Done(v, k) { ReadSSound(n, s); }
    if DenoteS(n, s[..k]) == Some(v) { ReadSComplete(n, s, k); }
  }

  /** A decode fails exactly if no prefix of the input is an encoding. */
  lemma ReadFailureIsTotal(n: nat, s: seq<u8>)
    requires n > 0
    ensures ReadU(n, s).Fail? <==> forall k :: 0 <= k <= |s| ==> DenoteU(n, s[..k]).None?
    ensures ReadS(n, s).Fail? <==> forall k :: 0 <= k <= |s| ==> DenoteS(n, s[..k]).None?
  {
    hide DenoteU, DenoteS, ReadU, ReadS;
    forall k | 0 <= k <= |s|
      ensures DenoteU(n, s[..k]).Some? ==> ReadU(n, s).Done?
      ensures DenoteS(n, s[..k]).Some? ==> ReadS(n, s).Done?
    {
      if DenoteU(n, s[..k]).Some? { ReadUComplete(n, s, k); }
      if DenoteS(n, s[..k]).Some? { ReadSComplete(n, s, k); }
    }
    if ReadU(n, s).Done? { ReadUSound(n, s); }
    if ReadS(n, s).Done? { ReadSSound(n, s); }
  }

  lemma PowSeven(n: nat)
    ensures Pow2(n + 7) == 0x80 * Pow2(n)
  {
    PowAdd(n, 7);
    assert Pow2(7) == 0x80;
  }

  /** Encodings have at most ceil(N/7) bytes and denote numbers that fit in N bits. */
  lemma {:induction false} DenoteURange(n: nat, b: seq<u8>)
    requires n > 0 && DenoteU(n, b).Some?
    ensures |b| <= (n + 6) / 7
    ensures DenoteU(n, b).value < Pow2(n)
    decreases |b|
  {
    hide Pow2;
    if |b| > 1 {
      DenoteURange(n - 7, b[1..]);
      PowSeven(n - 7);
    }
  }

  lemma {:induction false} DenoteSRange(n: nat, b: seq<u8>)
    requires n > 0 && DenoteS(n, b).Some?
    ensures |b| <= (n + 6) / 7
    ensures 0 - Pow2(n - 1) <= DenoteS(n, b).value < Pow2(n - 1)
    decreases |b|
  {
    hide Pow2;
    if |b| > 1 {
      DenoteSRange(n - 7, b[1..]);
      PowSeven(n - 8);
    }
  }

  // ---------- locality ----------

  /** A decode depends only on the bytes it consumes. */
  lemma ReadULocal(n: nat, s: seq<u8>, t: seq<u8>)
    requires ReadU(n, s).Done?
    ensures ReadU(n, s[..ReadU(n, s).used] + t) == ReadU(n, s)
  {
    var k := ReadU(n, s).used;
    ReadUSound(n, s);
    assert (s[..k] + t)[..k] == s[..k];
    ReadUComplete(n, s[..k] + t, k);
  }

  lemma ReadSLocal(n: nat, s: seq<u8>, t: seq<u8>)
    requires n > 0 && ReadS(n, s).Done?
    ensures ReadS(n, s[..ReadS(n, s).used] + t) == ReadS(n, s)
  {
    var k := ReadS(n, s).used;
    ReadSSound(n, s);
    assert (s[..k] + t)[..k] == s[..k];
    ReadSComplete(n, s[..k] + t, k);
  }

  // ---------- shortest encodings ----------

  function EncodeU(v: nat): (b: seq<u8>)
    ensures |b| > 0
  {
    if v < 0x80 then [v] else [v % 0x80 + 0x80] + EncodeU(v / 0x80)
  }

  function EncodeS(v: int): (b: seq<u8>)
    ensures |b| > 0
    decreases if v < 0 then -v else v
  {
    if -0x40 <= v < 0x40 then [v % 0x80] else [v % 0x80 + 0x80] + EncodeS(v / 0x80)
  }

  lemma {:induction false} DenoteEncodeU(n: nat, v: nat)
    requires v < Pow2(n)
    ensures DenoteU(n, EncodeU(v)) == Some(v)
    decreases v
  {
    if v >= 0x80 {
      PowMono(if n <= 7 then n else 7, 7);
      assert Pow2(7) == 0x80;
      PowSeven(n - 7);
      DenoteEncodeU(n - 7, v / 0x80);
      assert EncodeU(v)[1..] == EncodeU(v / 0x80);
    }
  }

  lemma {:induction false} DenoteEncodeS(n: nat, v: int)
    requires n > 0 && 0 - Pow2(n - 1) <= v < Pow2(n - 1)
    ensures DenoteS(n, EncodeS(v)) == Some(v)
    decreases if v < 0 then -v else v
  {
    if !(-0x40 <= v < 0x40) {
      assert Pow2(6) == 0x40;
      PowMono(if n <= 7 then n - 1 else 6, 6);
      PowSeven(n - 8);
      DenoteEncodeS(n - 7, v / 0x80);
      assert EncodeS(v)[1..] == EncodeS(v / 0x80);
    }
  }

  /** Decoding undoes encoding, whatever follows. */
  lemma ReadEncodeU(n: nat, v: nat, rest: seq<u8>)
    requires v < Pow2(n)
    ensures ReadU(n, EncodeU(v) + rest) == Done(v, |EncodeU(v)|)
  {
    var s := EncodeU(v) + rest;
    DenoteEncodeU(n, v);
    assert s[..|EncodeU(v)|] == EncodeU(v);
    ReadUComplete(n, s, |EncodeU(v)|);
  }

  lemma ReadEncodeS(n: nat, v: int, rest: seq<u8>)
    requires n > 0 && 0 - Pow2(n - 1) <= v < Pow2(n - 1)
    ensures ReadS(n, EncodeS(v) + rest) == Done(v, |EncodeS(v)|)
  {
    var s := EncodeS(v) + rest;
    DenoteEncodeS(n, v);
    assert s[..|EncodeS(v)|] == EncodeS(v);
    ReadSComplete(n, s, |EncodeS(v)|);
  }

  // ---------- the s33 reader ----------

  /** Four continued bytes and a fifth with the sign bit. */
  predicate FiveByteNegative(s: seq<u8>) {
    |s| >= 5 && s[0] >= 0x80 && s[1] >= 0x80 && s[2] >= 0x80 && s[3] >= 0x80 && s[4] >= 0x40
  }

  /** `read_var_s33` returns the denoted number exactly when the bytes are not those of a five-byte negative. */
  lemma ReadS33ValueIff(s: seq<u8>)
    requires ReadS33(s).Done?
    ensures ReadS(33, s).Done? && ReadS(33, s).used == ReadS33(s).used
    ensures ReadS33(s).value == ReadS(33, s).value <==> !FiveByteNegative(s)
    ensures FiveByteNegative(s) ==> ReadS33(s).value == ReadS(33, s).value + 0x8_0000_0000
  {
    hide ReadS;
    var k := ReadS(33, s).used;
    ReadSSound(33, s);
    FiveBytes(s);
    if k == 5 {
      SignOfLastByte(33, s[..5]);
      assert s[..5][4] == s[4];
    }
  }

  /** A decode is five bytes long exactly if the first four are continued. */
  lemma FiveBytes(s: seq<u8>)
    requires ReadS(33, s).Done?
    ensures ReadS(33, s).used == 5 <==> |s| >= 5 && s[0] >= 0x80 && s[1] >= 0x80 && s[2] >= 0x80 && s[3] >= 0x80
    ensures ReadS(33, s).used <= 5
  {
    Continued(33, s);
    if s[0] >= 0x80 {
      Continued(26, s[1..]);
      if s[1] >= 0x80 {
        Continued(19, s[2..]);
        assert s[1..][1..] == s[2..];
        if s[2] >= 0x80 {
          Continued(12, s[3..]);
          assert s[2..][1..] == s[3..];
          if s[3] >= 0x80 { assert s[3..][1..] == s[4..]; }
        }
      }
    }
  }

  /** One byte, or one continued byte and what follows it. */
  lemma Continued(n: nat, s: seq<u8>)
    requires n > 7 && ReadS(n, s).Done?
    ensures |s| > 0
    ensures s[0] < 0x80 ==> ReadS(n, s).used == 1
    ensures s[0] >= 0x80 ==> ReadS(n - 7, s[1..]).Done? && ReadS(n, s).used == 1 + ReadS(n - 7, s[1..]).used
  {
  }

  /** The last byte decides the sign. */
  lemma {:induction false} SignOfLastByte(n: nat, b: seq<u8>)
    requires n > 0 && DenoteS(n, b).Some?
    ensures DenoteS(n, b).value < 0 <==> b[|b| - 1] >= 0x40
    decreases |b|
  {
    if |b| > 1 { SignOfLastByte(n - 7, b[1..]); }
  }

  /** A five-byte encoding of -1 shows the difference. */
  lemma ReadS33LosesSign()
    ensures DenoteS(33, [0xff, 0xff, 0xff, 0xff, 0x7f]) == Some(-1)
    ensures ReadS33([0xff, 0xff, 0xff, 0xff, 0x7f]) == Done(0x7_ffff_ffff, 5)
  {
  }
}
