/**
  Operators (`visit_operator` in binary_reader.rs): an opcode byte and its immediates.
  `ImmediateOf` is the opcode table; `DecodeOperator` reads one operator from the front of a stream.
*/
module Operators {
  import opened Bits
  import opened Leb128
  import opened Formats

  datatype Immediate =
    | NoImmediate
    | BlockImmediate
    | IndexImmediate
    | TwoIndexImmediate
    | CallIndirectImmediate
    | BrTableImmediate
    | MemArgImmediate(maxAlign: u8)
    | MemoryImmediate
    | I32Immediate
    | I64Immediate
    | F32Immediate
    | F64Immediate
    | SelectImmediate
    | HeapTypeImmediate
    | Illegal

  datatype Operator =
    | Plain(code: u8)
    | Block(code: u8, blockType: BlockType)
    | Index(code: u8, index: u32)
    | TwoIndex(code: u8, first: u32, second: u32)
    | BranchTable(table: BrTable)
    | Memory(code: u8, memArg: MemArg)
    | I32Const(i32: int)
    | I64Const(i64: int)
    | F32Const(bits32: nat)
    | F64Const(bits64: nat)
    | TypedSelect(ty: ValType)
    | RefNull(heap: HeapType)

  const END: u8 := 0x0b

  function MaxAlign(code: u8): u8 {
    if code in {0x29, 0x2b, 0x37, 0x39} then 3
    else if code in {0x28, 0x2a, 0x34, 0x35, 0x36, 0x38, 0x3e} then 2
    else if code in {0x2e, 0x2f, 0x32, 0x33, 0x3b, 0x3d} then 1
    else 0
  }

  function ImmediateOf(code: u8): Immediate {
    if code in {0x00, 0x01, 0x05, 0x0a, 0x0b, 0x0f, 0x19, 0x1a, 0x1b, 0xd1, 0xd3, 0xd4} || 0x45 <= code <= 0xc4 then NoImmediate
    else if code in {0x02, 0x03, 0x04, 0x06} then BlockImmediate
    else if code in {0x07, 0x08, 0x09, 0x0c, 0x0d, 0x10, 0x12, 0x14, 0x15, 0x18, 0xd2, 0xd5, 0xd6, 0xe0, 0xe2}
            || 0x20 <= code <= 0x26 then IndexImmediate
    else if code in {0x13, 0xe1, 0xe5} then TwoIndexImmediate
    else if code == 0x0e then BrTableImmediate
    else if code == 0x11 then CallIndirectImmediate
    else if code == 0x1c then SelectImmediate
    else if 0x28 <= code <= 0x3e then MemArgImmediate(MaxAlign(code))
    else if code in {0x3f, 0x40} then MemoryImmediate
    else if code == 0x41 then I32Immediate
    else if code == 0x42 then I64Immediate
    else if code == 0x43 then F32Immediate
    else if code == 0x44 then F64Immediate
    else if code == 0xd0 then HeapTypeImmediate
    else Illegal
  }

  // ---------- fixed-width words ----------

  /** Too few bytes: the error is an end-of-file at the current position and nothing is consumed. */
  function ReadWord(n: nat, s: seq<u8>): (r: Step<nat>)
    ensures r.used <= |s|
    ensures r.Done? ==> r.used == n && r.value < Pow2(8 * n)
  {
    if |s| < n then Fail(0, 0)
    else
      LittleEndianRange(s[..n]);
      Done(LittleEndian(s[..n]), n)
  }

  // ---------- decoding ----------

  /** Without the feature the index must be one zero byte, not merely an encoding of zero. */
  function ReadIndexOrZero(feature: bool, s: seq<u8>): (r: Step<u32>)
    ensures r.used <= |s|
  {
    if feature then ReadU32(s)
    else if |s| == 0 then Fail(0, 0)
    else if s[0] == 0 then Done(0, 1)
    else Fail(1, 0)
  }

  function Wrap<T>(step: Step<T>, op: T -> Operator): Step<Operator> {
    match step
    case Done(v, u) => Done(op(v), u)
    case Fail(u, at) => Fail(u, at)
  }

  function ReadPair(s: seq<u8>, secondFeature: bool): (r: Step<(u32, u32)>)
    ensures r.used <= |s|
  {
    match ReadU32(s)
    case Fail(u, at) => Fail(u, at)
    case Done(a, k) =>
      match ReadIndexOrZero(secondFeature, s[k..])
      case Done(b, u) => Done((a, b), k + u)
      case Fail(u, at) => Fail(k + u, k + at)
  }

  /** The arity error of a typed select carries the reader's own position, without the reader's
      original offset. */
  function ReadSelect(origin: nat, s: seq<u8>): (r: Step<ValType>)
    ensures r.used <= |s|
  {
    match ReadU32(s)
    case Fail(u, at) => Fail(u, at)
    case Done(n, k) =>
      if n != 1 then Fail(k, k - origin)
      else
        match ReadValType(s[k..])
        case Done(t, u) => Done(t, k + u)
        case Fail(u, at) => Fail(k + u, k + at)
  }

  function ReadImmediate(f: Features, origin: nat, base: nat, code: u8, s: seq<u8>): (r: Step<Operator>)
    ensures r.used <= |s|
  {
    match ImmediateOf(code)
    case NoImmediate => Done(Plain(code), 0)
    case BlockImmediate => Wrap(ReadBlockType(s), b => Block(code, b))
    case IndexImmediate => Wrap(ReadU32(s), i => Index(code, i))
    case TwoIndexImmediate => Wrap(ReadPair(s, true), (p: (u32, u32)) => TwoIndex(code, p.0, p.1))
    case CallIndirectImmediate =>
      Wrap(ReadPair(s, f.referenceTypes), (p: (u32, u32)) => TwoIndex(code, p.0, p.1))
    case BrTableImmediate => Wrap(ReadBrTable(base, s), t => BranchTable(t))
    case MemArgImmediate(a) => Wrap(ReadMemArg(f, a, s), m => Memory(code, m))
    case MemoryImmediate => Wrap(ReadIndexOrZero(f.multiMemory, s), i => Index(code, i))
    case I32Immediate => Wrap(ReadS(32, s), v => I32Const(v))
    case I64Immediate => Wrap(ReadS(64, s), v => I64Const(v))
    case F32Immediate => Wrap(ReadWord(4, s), v => F32Const(v))
    case F64Immediate => Wrap(ReadWord(8, s), v => F64Const(v))
    case SelectImmediate => Wrap(ReadSelect(origin, s), t => TypedSelect(t))
    case HeapTypeImmediate => Wrap(ReadHeapType(s), h => RefNull(h))
    case Illegal => Fail(0, -1)
  }

  /** Reads one operator; `base` is the place of `s` in the whole binary and `origin` that of the
      reader's buffer. */
  function DecodeOperator(f: Features, origin: nat, base: nat, s: seq<u8>): (r: Step<Operator>)
    ensures r.used <= |s|
    ensures r.Done? ==> r.used > 0
  {
    if |s| == 0 then Fail(0, 0)
    else After(1, ReadImmediate(f, origin, base + 1, s[0], s[1..]))
  }

  // ---------- locality ----------

  lemma ReadIndexOrZeroLocality(feature: bool, s: seq<u8>, t: seq<u8>)
    requires ReadIndexOrZero(feature, s).Done? && Agree(ReadIndexOrZero(feature, s).used, s, t)
    ensures ReadIndexOrZero(feature, t) == ReadIndexOrZero(feature, s)
  {
    hide ReadU;
    if feature { ReadULocality(32, s, t); } else { AgreeLess(1, 1, s, t); }
  }

  lemma ReadPairLocality(s: seq<u8>, feature: bool, t: seq<u8>)
    requires ReadPair(s, feature).Done? && Agree(ReadPair(s, feature).used, s, t)
    ensures ReadPair(t, feature) == ReadPair(s, feature)
  {
    hide ReadU;
    var k := ReadU32(s).used;
    AgreeAfter(k, ReadPair(s, feature).used - k, s, t);
    ReadULocality(32, s, t);
    ReadIndexOrZeroLocality(feature, s[k..], t[k..]);
  }

  lemma ReadSelectLocality(origin: nat, s: seq<u8>, t: seq<u8>)
    requires ReadSelect(origin, s).Done? && Agree(ReadSelect(origin, s).used, s, t)
    ensures ReadSelect(origin, t) == ReadSelect(origin, s)
  {
    hide ReadU, ReadValType;
    var k := ReadU32(s).used;
    AgreeAfter(k, ReadSelect(origin, s).used - k, s, t);
    ReadULocality(32, s, t);
    ReadValTypeLocality(s[k..], t[k..]);
  }

  lemma ReadImmediateLocality(f: Features, origin: nat, base: nat, code: u8, s: seq<u8>, t: seq<u8>)
    requires ReadImmediate(f, origin, base, code, s).Done?
    requires Agree(ReadImmediate(f, origin, base, code, s).used, s, t)
    ensures ReadImmediate(f, origin, base, code, t) == ReadImmediate(f, origin, base, code, s)
  {
    hide ImmediateOf, ReadBlockType, ReadU, ReadPair, ReadMemArg, ReadIndexOrZero, ReadS, ReadBrTable, ReadSelect, ReadHeapType;
    match ImmediateOf(code)
    case NoImmediate =>
    case BlockImmediate => ReadBlockTypeLocality(s, t);
    case IndexImmediate => ReadULocality(32, s, t);
    case TwoIndexImmediate => ReadPairLocality(s, true, t);
    case CallIndirectImmediate => ReadPairLocality(s, f.referenceTypes, t);
    case BrTableImmediate => ReadBrTableLocality(base, s, t);
    case MemArgImmediate(a) => ReadMemArgLocality(f, a, s, t);
    case MemoryImmediate => ReadIndexOrZeroLocality(f.multiMemory, s, t);
    case I32Immediate => ReadSLocality(32, s, t);
    case I64Immediate => ReadSLocality(64, s, t);
    case F32Immediate =>
    case F64Immediate =>
    case SelectImmediate => ReadSelectLocality(origin, s, t);
    case HeapTypeImmediate => ReadHeapTypeLocality(s, t);
    case Illegal =>
  }

  /** Reading an operator depends only on the bytes it consumes. */
  lemma DecodeOperatorLocality(f: Features, origin: nat, base: nat, s: seq<u8>, rest: seq<u8>)
    requires DecodeOperator(f, origin, base, s).Done?
    ensures var k := DecodeOperator(f, origin, base, s).used;
      DecodeOperator(f, origin, base, s[..k] + rest) == DecodeOperator(f, origin, base, s)
  {
    hide ReadImmediate;
    var k := DecodeOperator(f, origin, base, s).used;
    var t := s[..k] + rest;
    assert t[..k] == s[..k];
    AgreeLess(1, k, s, t);
    AgreeAfter(1, k - 1, s, t);
    ReadImmediateLocality(f, origin, base + 1, s[0], s[1..], t[1..]);
  }

  // ---------- encoding ----------

  function OpCode(op: Operator): u8 {
    match op
    case Plain(c) => c
    case Block(c, _) => c
    case Index(c, _) => c
    case TwoIndex(c, _, _) => c
    case BranchTable(_) => 0x0e
    case Memory(c, _) => c
    case I32Const(_) => 0x41
    case I64Const(_) => 0x42
    case F32Const(_) => 0x43
    case F64Const(_) => 0x44
    case TypedSelect(_) => 0x1c
    case RefNull(_) => 0xd0
  }

  /** Operators that exist in the binary format at `base` under the features. */
  predicate ValidOperator(f: Features, base: nat, op: Operator) {
    match op
    case Plain(c) => ImmediateOf(c).NoImmediate?
    case Block(c, b) => ImmediateOf(c).BlockImmediate? && ValidBlockType(b)
    case Index(c, i) => ImmediateOf(c).IndexImmediate? || (ImmediateOf(c).MemoryImmediate? && (f.multiMemory || i == 0))
    case TwoIndex(c, _, i) =>
      ImmediateOf(c).TwoIndexImmediate? || (ImmediateOf(c).CallIndirectImmediate? && (f.referenceTypes || i == 0))
    case BranchTable(t) => ValidBrTable(base + 1, t)
    case Memory(c, m) => ImmediateOf(c) == MemArgImmediate(m.maxAlign) && ValidMemArg(f, m)
    case I32Const(v) => -0x8000_0000 <= v < 0x8000_0000
    case I64Const(v) => -0x8000_0000_0000_0000 <= v < 0x8000_0000_0000_0000
    case F32Const(b) => b < 0x1_0000_0000
    case F64Const(b) => b < 0x1_0000_0000_0000_0000
    case TypedSelect(t) => ValidValType(t)
    case RefNull(h) => ValidHeapType(h)
  }

  function EncodeImmediate(op: Operator): seq<u8> {
    match op
    case Plain(_) => []
    case Block(_, b) => EncodeBlockType(b)
    case Index(_, i) => EncodeU(i)
    case TwoIndex(_, i, j) => EncodeU(i) + EncodeU(j)
    case BranchTable(t) => EncodeBrTable(t)
    case Memory(_, m) => EncodeMemArg(m)
    case I32Const(v) => EncodeS(v)
    case I64Const(v) => EncodeS(v)
    case F32Const(b) => ToLittleEndian(b, 4)
    case F64Const(b) => ToLittleEndian(b, 8)
    case TypedSelect(t) => EncodeU(1) + EncodeValType(t)
    case RefNull(h) => EncodeHeapType(h)
  }

  function EncodeOperator(op: Operator): (b: seq<u8>)
    ensures |b| > 0
  {
    [OpCode(op)] + EncodeImmediate(op)
  }

  lemma EncodedU32(i: u32)
    ensures ReadU32(EncodeU(i)) == Done(i, |EncodeU(i)|)
  {
    assert EncodeU(i) + [] == EncodeU(i);
    ReadEncodedU32(i, []);
  }

  lemma EncodedS(n: nat, v: int)
    requires n > 0 && 0 - Pow2(n - 1) <= v < Pow2(n - 1)
    ensures ReadS(n, EncodeS(v)) == Done(v, |EncodeS(v)|)
  {
    assert EncodeS(v) + [] == EncodeS(v);
    ReadEncodeS(n, v, []);
  }

  lemma EncodedIndexOrZero(feature: bool, i: u32)
    requires feature || i == 0
    ensures ReadIndexOrZero(feature, EncodeU(i)) == Done(i, |EncodeU(i)|)
  {
    if feature { EncodedU32(i); }
  }

  lemma EncodedPair(feature: bool, i: u32, j: u32)
    requires feature || j == 0
    ensures ReadPair(EncodeU(i) + EncodeU(j), feature) == Done((i, j), |EncodeU(i)| + |EncodeU(j)|)
  {
    hide ReadU, EncodeU;
    ReadEncodedU32(i, EncodeU(j));
    assert (EncodeU(i) + EncodeU(j))[|EncodeU(i)|..] == EncodeU(j);
    EncodedIndexOrZero(feature, j);
  }

  lemma EncodedSelect(origin: nat, t: ValType)
    requires ValidValType(t)
    ensures ReadSelect(origin, EncodeU(1) + EncodeValType(t)) == Done(t, |EncodeU(1) + EncodeValType(t)|)
  {
    hide ReadU, EncodeU, ReadValType, EncodeValType;
    ReadEncodedU32(1, EncodeValType(t));
    assert (EncodeU(1) + EncodeValType(t))[|EncodeU(1)|..] == EncodeValType(t);
    ValTypeRoundTrip(t);
  }

  lemma EncodedWord(n: nat, v: nat)
    requires v < Pow2(8 * n)
    ensures ReadWord(n, ToLittleEndian(v, n)) == Done(v, n)
  {
    var b := ToLittleEndian(v, n);
    assert b[..n] == b;
    LittleEndianRoundTrip(v, n);
  }

  lemma FixedCodes()
    ensures ImmediateOf(0x0e) == BrTableImmediate && ImmediateOf(0x1c) == SelectImmediate
    ensures ImmediateOf(0x41) == I32Immediate && ImmediateOf(0x42) == I64Immediate
    ensures ImmediateOf(0x43) == F32Immediate && ImmediateOf(0x44) == F64Immediate
    ensures ImmediateOf(0xd0) == HeapTypeImmediate
  {
  }

  lemma ImmediateRoundTrip(f: Features, origin: nat, base: nat, op: Operator)
    requires ValidOperator(f, base, op)
    ensures ReadImmediate(f, origin, base + 1, OpCode(op), EncodeImmediate(op)) == Done(op, |EncodeImmediate(op)|)
  {
    hide ImmediateOf, ReadBlockType, ReadU, ReadPair, ReadMemArg, ReadIndexOrZero, ReadS, ReadBrTable, ReadSelect, ReadHeapType,
      EncodeU, EncodeS, ReadWord, ToLittleEndian, EncodeBlockType, EncodeMemArg, EncodeBrTable, EncodeValType, EncodeHeapType, Pow2,
      ValidBlockType, ValidBrTable, ValidMemArg, ValidValType, ValidHeapType;
    FixedCodes();
    PowValues();
    match op
    case Plain(_) =>
    case Block(_, b) => EncodedBlockType(b);
    case Index(c, i) => if ImmediateOf(c).IndexImmediate? { EncodedU32(i); } else { EncodedIndexOrZero(f.multiMemory, i); }
    case TwoIndex(c, i, j) => EncodedPair(if ImmediateOf(c).TwoIndexImmediate? then true else f.referenceTypes, i, j);
    case BranchTable(t) => BrTableRoundTrip(base + 1, t);
    case Memory(_, m) => MemArgRoundTrip(f, m);
    case I32Const(v) => EncodedS(32, v);
    case I64Const(v) => EncodedS(64, v);
    case F32Const(b) => EncodedWord(4, b);
    case F64Const(b) => EncodedWord(8, b);
    case TypedSelect(t) => EncodedSelect(origin, t);
    case RefNull(h) => HeapTypeRoundTrip(h);
  }

  /** Decoding undoes encoding, whatever follows, and consumes exactly the encoding. */
  lemma OperatorRoundTrip(f: Features, origin: nat, base: nat, op: Operator, rest: seq<u8>)
    requires ValidOperator(f, base, op)
    ensures DecodeOperator(f, origin, base, EncodeOperator(op) + rest) == Done(op, |EncodeOperator(op)|)
  {
    hide ReadImmediate, EncodeImmediate, ValidOperator;
    var b := EncodeOperator(op);
    ImmediateRoundTrip(f, origin, base, op);
    assert b[1..] == EncodeImmediate(op);
    assert b[..|b|] == b;
    DecodeOperatorLocality(f, origin, base, b, rest);
  }

  // ---------- constant expressions ----------

  /** `skip_const_expr`: operators up to and including the first `end`. Every operator consumes a
      byte, so the bytes remaining bound the loop. */
  function SkipConstExpr(f: Features, origin: nat, base: nat, s: seq<u8>): (r: Step<()>)
    ensures r.used <= |s|
    decreases |s|
  {
    match DecodeOperator(f, origin, base, s)
    case Fail(u, at) => Fail(u, at)
    case Done(op, k) =>
      if op == Plain(END) then Done((), k) else After(k, SkipConstExpr(f, origin, base + k, s[k..]))
  }

  function EncodeAll(ops: seq<Operator>): seq<u8> {
    if ops == [] then [] else EncodeOperator(ops[0]) + EncodeAll(ops[1..])
  }

  predicate ValidSequence(f: Features, base: nat, ops: seq<Operator>)
    decreases ops
  {
    ops == [] || (ValidOperator(f, base, ops[0]) && ValidSequence(f, base + |EncodeOperator(ops[0])|, ops[1..]))
  }

  /** Skipping an encoded expression stops right behind its `end`, whatever follows. */
  lemma {:induction false} SkipConstExprRoundTrip(f: Features, origin: nat, base: nat, ops: seq<Operator>, rest: seq<u8>)
    requires ValidSequence(f, base, ops) && Plain(END) !in ops
    ensures SkipConstExpr(f, origin, base, EncodeAll(ops) + [END] + rest) == Done((), |EncodeAll(ops)| + 1)
    decreases ops
  {
    hide ReadImmediate, EncodeImmediate, ValidOperator, DecodeOperator;
    var s := EncodeAll(ops) + [END] + rest;
    if ops == [] {
      EndIsPlain(f, base);
      assert s == EncodeOperator(Plain(END)) + rest;
      OperatorRoundTrip(f, origin, base, Plain(END), rest);
    } else {
      var head, tail := EncodeOperator(ops[0]), EncodeAll(ops[1..]) + [END] + rest;
      assert s == head + tail;
      OperatorRoundTrip(f, origin, base, ops[0], tail);
      assert s[|head|..] == tail;
      SkipConstExprRoundTrip(f, origin, base + |head|, ops[1..], rest);
    }
  }

  lemma EndIsPlain(f: Features, base: nat)
    ensures ValidOperator(f, base, Plain(END)) && EncodeOperator(Plain(END)) == [END]
  {
  }

  // ---------- where errors point ----------

  /** A typed select whose result count is not 1. */
  predicate SelectArityError(s: seq<u8>) {
    |s| > 0 && s[0] == 0x1c && ReadU32(s[1..]).Done? && ReadU32(s[1..]).value != 1
  }

  ghost predicate PointsInto<T>(step: Step<T>, s: seq<u8>) {
    step.Fail? ==> 0 <= step.at <= |s|
  }

  /**
    The arity error is reported `at` bytes after `base`. It belongs where the count ends, `used` bytes after `base`;
    it is reported there if and only if the reader's buffer begins at offset zero of the binary.
  */
  lemma SelectArityOffsetIff(f: Features, origin: nat, base: nat, s: seq<u8>)
    requires SelectArityError(s)
    ensures var r := DecodeOperator(f, origin, base, s);
      r.Fail? && r.used == 1 + ReadU32(s[1..]).used && r.at == r.used - origin && (r.at == r.used <==> origin == 0)
  {
    hide ReadU;
    SelectIsOneCode(s[0]);
  }

  /** Every other error is reported among the bytes the operator was to be read from, or right behind them. */
  lemma OtherErrorsPointAhead(f: Features, origin: nat, base: nat, s: seq<u8>)
    requires DecodeOperator(f, origin, base, s).Fail? && !SelectArityError(s)
    ensures 0 <= DecodeOperator(f, origin, base, s).at <= |s|
  {
    hide ImmediateOf, ReadImmediate, ReadU;
    if |s| > 0 {
      var t := s[1..];
      SelectIsOneCode(s[0]);
      if ImmediateOf(s[0]).SelectImmediate? {
        SelectErrors(f, origin, base + 1, s[0], t);
      } else {
        ImmediateErrors(f, origin, base + 1, s[0], t);
      }
    }
  }

  /** Immediates other than the typed select's report errors among their own bytes; an illegal
      opcode is reported at the opcode itself. */
  lemma ImmediateErrors(f: Features, origin: nat, base: nat, code: u8, s: seq<u8>)
    requires !ImmediateOf(code).SelectImmediate?
    ensures var r := ReadImmediate(f, origin, base, code, s); r.Fail? ==> -1 <= r.at <= |s|
  {
    hide ImmediateOf, ReadU, ReadS, ReadS33, ReadHeapType, ReadBlockType, ReadMemArg, ReadBrTable, ReadPair, ReadIndexOrZero, ReadWord, MaxAlign;
    SimpleErrors(f, base, s);
    match ImmediateOf(code)
    case BlockImmediate => BlockTypeErrors(s);
    case BrTableImmediate => BrTableErrors(base, s);
    case MemArgImmediate(a) => MemArgErrors(f, a, s);
    case _ =>
  }

  lemma SelectErrors(f: Features, origin: nat, base: nat, code: u8, s: seq<u8>)
    requires ImmediateOf(code).SelectImmediate?
    ensures var r := ReadImmediate(f, origin, base, code, s);
      r.Fail? ==> if ReadU32(s).Done? && ReadU32(s).value != 1 then r.at == r.used - origin else 0 <= r.at <= |s|
  {
    hide ImmediateOf, ReadU, ReadValType;
    UErrors(32, s);
    if ReadU32(s).Done? { ValTypeErrors(s[ReadU32(s).used..]); }
  }

  lemma SelectIsOneCode(code: u8)
    ensures ImmediateOf(code).SelectImmediate? <==> code == 0x1c
  {
  }

  lemma {:induction false} UErrors(n: nat, s: seq<u8>)
    ensures PointsInto(ReadU(n, s), s)
    decreases |s|
  {
    if |s| > 0 && n > 7 { UErrors(n - 7, s[1..]); }
  }

  lemma {:induction false} SErrors(n: nat, s: seq<u8>)
    requires n > 0
    ensures PointsInto(ReadS(n, s), s)
    decreases |s|
  {
    if |s| > 0 && n > 7 { SErrors(n - 7, s[1..]); }
  }

  lemma ValTypeErrors(s: seq<u8>)
    ensures PointsInto(ReadValType(s), s) && PointsInto(ReadHeapType(s), s)
  {
    hide ReadS;
    SErrors(33, s);
    if |s| > 0 { SErrors(33, s[1..]); }
  }

  lemma SimpleErrors(f: Features, base: nat, s: seq<u8>)
    ensures PointsInto(ReadU32(s), s) && PointsInto(ReadS(32, s), s) && PointsInto(ReadS(64, s), s)
    ensures PointsInto(ReadIndexOrZero(f.multiMemory, s), s) && PointsInto(ReadHeapType(s), s)
    ensures PointsInto(ReadPair(s, true), s) && PointsInto(ReadPair(s, f.referenceTypes), s)
    ensures PointsInto(ReadWord(4, s), s) && PointsInto(ReadWord(8, s), s)
  {
    hide ReadU, ReadS, ReadHeapType;
    UErrors(32, s);
    SErrors(32, s);
    SErrors(64, s);
    ValTypeErrors(s);
    if ReadU32(s).Done? { UErrors(32, s[ReadU32(s).used..]); }
  }

  lemma {:induction false} IndicesErrors(cnt: nat, s: seq<u8>)
    ensures PointsInto(ReadIndices(cnt, s), s)
  {
    hide ReadU;
    UErrors(32, s);
    if cnt > 0 && ReadU32(s).Done? { IndicesErrors(cnt - 1, s[ReadU32(s).used..]); }
  }

  lemma BlockTypeErrors(s: seq<u8>)
    ensures PointsInto(ReadBlockType(s), s)
  {
    hide ReadS, ReadValType;
    SErrors(33, s);
    ValTypeErrors(s);
  }

  lemma MemArgErrors(f: Features, a: u8, s: seq<u8>)
    ensures PointsInto(ReadMemArg(f, a, s), s)
  {
    hide ReadU;
    UErrors(32, s);
    if ReadU32(s).Done? {
      var k := ReadU32(s).used;
      UErrors(32, s[k..]);
      OffsetErrors(f, s[k..]);
      if ReadU32(s[k..]).Done? { OffsetErrors(f, s[k + ReadU32(s[k..]).used..]); }
    }
  }

  lemma OffsetErrors(f: Features, s: seq<u8>)
    ensures PointsInto(ReadOffset(f, s), s)
  {
    hide ReadU;
    UErrors(if f.memory64 then 64 else 32, s);
  }

  lemma BrTableErrors(base: nat, s: seq<u8>)
    ensures PointsInto(ReadBrTable(base, s), s)
  {
    hide ReadU, ReadIndices;
    UErrors(32, s);
    if ReadU32(s).Done? {
      var t, cnt := s[ReadU32(s).used..], ReadU32(s).value;
      IndicesErrors(cnt, t);
      UErrors(32, t[ReadIndices(cnt, t).used..]);
    }
  }

  /** `1c 00` at position 3 of a buffer that begins at offset 100 is reported at 5, and at 5 too of one that begins at 1. */
  lemma SelectErrorOffsetExample()
    ensures DecodeOperator(Features(true, true, true), 100, 103, [0x1c, 0x00]) == Fail(2, 5 - 103)
    ensures DecodeOperator(Features(true, true, true), 1, 4, [0x1c, 0x00]) == Fail(2, 5 - 4)
  {
    assert [0x1c, 0x00][1..] == [0x00];
    assert ReadU(32, [0x00]) == Done(0, 1);
  }
}
