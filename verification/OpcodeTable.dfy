/**
  The opcode table against section 5.4 of the WebAssembly Core Specification 2.0 and the proposals the decoder
  knows: which immediates follow which opcode byte, for every operand and whatever comes behind.
*/
module OpcodeTable {
  import opened Bits
  import opened Leb128
  import opened Formats
  import opened Operators

  /** unreachable, nop, else, throw_ref, end, return, catch_all, drop, select, ref.is_null, ref.eq, ref.as_non_null. */
  const BARE: set<u8> := {0x00, 0x01, 0x05, 0x0a, 0x0b, 0x0f, 0x19, 0x1a, 0x1b, 0xd1, 0xd3, 0xd4}

  /** block, loop, if, try. */
  const BLOCKS: set<u8> := {0x02, 0x03, 0x04, 0x06}

  /**
    catch, throw, rethrow, br, br_if, call, return_call, call_ref, return_call_ref, delegate, the local, global and
    table accesses, ref.func, br_on_null, br_on_non_null, cont.new and suspend.
  */
  const INDEXED: set<u8> := {
    0x07, 0x08, 0x09, 0x0c, 0x0d, 0x10, 0x12, 0x14, 0x15, 0x18,
    0x20, 0x21, 0x22, 0x23, 0x24, 0x25, 0x26,
    0xd2, 0xd5, 0xd6, 0xe0, 0xe2}

  /** return_call_indirect, cont.bind, switch. */
  const TWO_INDEXED: set<u8> := {0x13, 0xe1, 0xe5}

  /** How many bytes each of the loads and stores 0x28 to 0x3e touches. */
  const ACCESS_BYTES: seq<nat> := [
    4, 8, 4, 8, // i32.load, i64.load, f32.load, f64.load
    1, 1, 2, 2, // i32.load8_s, i32.load8_u, i32.load16_s, i32.load16_u
    1, 1, 2, 2, 4, 4, // i64.load8_s to i64.load32_u
    4, 8, 4, 8, // i32.store, i64.store, f32.store, f64.store
    1, 2, 1, 2, 4] // i32.store8, i32.store16, i64.store8, i64.store16, i64.store32

  /** Opcodes of one byte, the numeric ones 0x45 to 0xc4 among them. */
  lemma BareOpcodes(f: Features, origin: nat, base: nat, c: u8, rest: seq<u8>)
    requires c in BARE || 0x45 <= c <= 0xc4
    ensures DecodeOperator(f, origin, base, [c] + rest) == Done(Plain(c), 1)
  {
    OperatorRoundTrip(f, origin, base, Plain(c), rest);
    assert EncodeOperator(Plain(c)) == [c];
  }

  lemma BlockOpcodes(f: Features, origin: nat, base: nat, c: u8, b: BlockType, rest: seq<u8>)
    requires c in BLOCKS && ValidBlockType(b)
    ensures DecodeOperator(f, origin, base, [c] + EncodeBlockType(b) + rest) == Done(Block(c, b), 1 + |EncodeBlockType(b)|)
  {
    hide DecodeOperator;
    OperatorRoundTrip(f, origin, base, Block(c, b), rest);
  }

  lemma IndexOpcodes(f: Features, origin: nat, base: nat, c: u8, i: u32, rest: seq<u8>)
    requires c in INDEXED
    ensures DecodeOperator(f, origin, base, [c] + EncodeU(i) + rest) == Done(Index(c, i), 1 + |EncodeU(i)|)
  {
    hide DecodeOperator, EncodeU;
    OperatorRoundTrip(f, origin, base, Index(c, i), rest);
  }

  /** Two indices; the second one of `call_indirect` must be a zero byte without reference types. */
  lemma TwoIndexOpcodes(f: Features, origin: nat, base: nat, c: u8, i: u32, j: u32, rest: seq<u8>)
    requires c in TWO_INDEXED || (c == 0x11 && (f.referenceTypes || j == 0))
    ensures DecodeOperator(f, origin, base, [c] + EncodeU(i) + EncodeU(j) + rest)
         == Done(TwoIndex(c, i, j), 1 + |EncodeU(i)| + |EncodeU(j)|)
  {
    hide DecodeOperator, EncodeU;
    OperatorRoundTrip(f, origin, base, TwoIndex(c, i, j), rest);
    assert [c] + EncodeU(i) + EncodeU(j) == [c] + (EncodeU(i) + EncodeU(j));
  }

  /** `br_table`: the count, that many label indices, and the default label. */
  lemma BrTableOpcode(f: Features, origin: nat, base: nat, labels: seq<u32>, default: u32, rest: seq<u8>)
    requires |labels| <= 131072
    ensures var head, body := EncodeU(|labels|), EncodeIndices(labels);
      DecodeOperator(f, origin, base, [0x0e] + head + body + EncodeU(default) + rest)
        == Done(BranchTable(BrTable(body, base + 1 + |head|, |labels|, default)), 1 + |head| + |body| + |EncodeU(default)|)
  {
    hide DecodeOperator, EncodeU, EncodeIndices, ReadIndices;
    var head, body, last := EncodeU(|labels|), EncodeIndices(labels), EncodeU(default);
    IndicesRoundTrip(labels, []);
    assert body + [] == body;
    var t := BrTable(body, base + 1 + |head|, |labels|, default);
    OperatorRoundTrip(f, origin, base, BranchTable(t), rest);
    assert [0x0e] + head + body + last == [0x0e] + (head + body + last);
  }

  /**
    Loads and stores: an alignment exponent below 64, a memory index where bit 6 announces one, and the offset. The
    largest alignment reported is the width of the access.
  */
  lemma MemoryOpcodes(f: Features, origin: nat, base: nat, c: u8, align: u8, memory: u32, offset: u64, rest: seq<u8>)
      returns (maxAlign: u8)
    requires 0x28 <= c <= 0x3e && align < 64 && (f.memory64 || offset < 0x1_0000_0000)
    ensures Pow2(maxAlign) == ACCESS_BYTES[c - 0x28]
    ensures DecodeOperator(f, origin, base, [c] + EncodeU(align) + EncodeU(offset) + rest)
         == Done(Memory(c, MemArg(align, maxAlign, offset, 0)), 1 + |EncodeU(align)| + |EncodeU(offset)|)
    ensures f.multiMemory ==>
      DecodeOperator(f, origin, base, [c] + EncodeU(64 + align) + EncodeU(memory) + EncodeU(offset) + rest)
        == Done(Memory(c, MemArg(align, maxAlign, offset, memory)), 1 + |EncodeU(64 + align)| + |EncodeU(memory)| + |EncodeU(offset)|)
  {
    hide DecodeOperator, EncodeU, ReadMemArg;
    maxAlign := MaxAlign(c);
    AccessWidths(c);
    MemArgForms(f, maxAlign, align, memory, offset);
    var plain := EncodeU(align) + EncodeU(offset);
    MemoryOperand(f, origin, base, c, plain, rest);
    assert [c] + EncodeU(align) + EncodeU(offset) + rest == [c] + plain + rest;
    var flagged := EncodeU(64 + align) + EncodeU(memory) + EncodeU(offset);
    if f.multiMemory {
      MemoryOperand(f, origin, base, c, flagged, rest);
      assert [c] + EncodeU(64 + align) + EncodeU(memory) + EncodeU(offset) + rest == [c] + flagged + rest;
    }
  }

  lemma AccessWidths(c: u8)
    requires 0x28 <= c <= 0x3e
    ensures Pow2(MaxAlign(c)) == ACCESS_BYTES[c - 0x28]
  {
    assert Pow2(0) == 1 && Pow2(1) == 2 && Pow2(2) == 4 && Pow2(3) == 8;
  }

  lemma MemoryOperand(f: Features, origin: nat, base: nat, c: u8, operand: seq<u8>, rest: seq<u8>)
    requires 0x28 <= c <= 0x3e
    requires ReadMemArg(f, MaxAlign(c), operand).Done? && ReadMemArg(f, MaxAlign(c), operand).used == |operand|
    ensures DecodeOperator(f, origin, base, [c] + operand + rest)
         == Done(Memory(c, ReadMemArg(f, MaxAlign(c), operand).value), 1 + |operand|)
  {
    hide ReadMemArg, MaxAlign;
    var s := [c] + operand;
    assert s[1..] == operand && s[..|s|] == s;
    DecodeOperatorLocality(f, origin, base, s, rest);
  }

  /** `memory.size` and `memory.grow`: without multi-memory, one zero byte and no other. */
  lemma MemoryIndexOpcodes(f: Features, origin: nat, base: nat, c: u8, i: u32, b: u8, rest: seq<u8>)
    requires c == 0x3f || c == 0x40
    ensures f.multiMemory ==> DecodeOperator(f, origin, base, [c] + EncodeU(i) + rest) == Done(Index(c, i), 1 + |EncodeU(i)|)
    ensures !f.multiMemory ==>
      DecodeOperator(f, origin, base, [c, b] + rest) == if b == 0 then Done(Index(c, 0), 2) else Fail(2, 1)
  {
    hide EncodeU, ReadU;
    if f.multiMemory {
      hide DecodeOperator;
      OperatorRoundTrip(f, origin, base, Index(c, i), rest);
    } else {
      assert ([c, b] + rest)[1..] == [b] + rest;
    }
  }

  /** The reserved byte of `call_indirect` without reference types is zero and nothing else. */
  lemma CallIndirectReserved(f: Features, origin: nat, base: nat, i: u32, b: u8, rest: seq<u8>)
    requires !f.referenceTypes && b != 0
    ensures DecodeOperator(f, origin, base, [0x11] + EncodeU(i) + [b] + rest) == Fail(2 + |EncodeU(i)|, 1 + |EncodeU(i)|)
  {
    hide EncodeU, ReadU;
    var e := EncodeU(i);
    ReadEncodedU32(i, [b] + rest);
    assert ([0x11] + e + [b] + rest)[1..] == e + ([b] + rest);
    assert (e + ([b] + rest))[|e|..] == [b] + rest;
  }

  /** The constants: signed numbers of 32 and 64 bits, and the bytes of floats, lowest first. */
  lemma IntegerConstants(f: Features, origin: nat, base: nat, v: int, rest: seq<u8>)
    ensures -0x8000_0000 <= v < 0x8000_0000 ==>
      DecodeOperator(f, origin, base, [0x41] + EncodeS(v) + rest) == Done(I32Const(v), 1 + |EncodeS(v)|)
    ensures -0x8000_0000_0000_0000 <= v < 0x8000_0000_0000_0000 ==>
      DecodeOperator(f, origin, base, [0x42] + EncodeS(v) + rest) == Done(I64Const(v), 1 + |EncodeS(v)|)
  {
    hide DecodeOperator, EncodeS;
    if -0x8000_0000 <= v < 0x8000_0000 { OperatorRoundTrip(f, origin, base, I32Const(v), rest); }
    if -0x8000_0000_0000_0000 <= v < 0x8000_0000_0000_0000 { OperatorRoundTrip(f, origin, base, I64Const(v), rest); }
  }

  function Word(a: u8, b: u8, c: u8, d: u8): nat {
    a as int + 0x100 * b as int + 0x1_0000 * c as int + 0x100_0000 * d as int
  }

  lemma FloatConstants(f: Features, origin: nat, base: nat, a: u8, b: u8, c: u8, d: u8, e: u8, g: u8, h: u8, i: u8, rest: seq<u8>)
    ensures DecodeOperator(f, origin, base, [0x43, a, b, c, d] + rest) == Done(F32Const(Word(a, b, c, d)), 5)
    ensures DecodeOperator(f, origin, base, [0x44, a, b, c, d, e, g, h, i] + rest)
         == Done(F64Const(Word(a, b, c, d) + 0x1_0000_0000 * Word(e, g, h, i)), 9)
  {
    hide LittleEndian, DecodeOperator;
    var low, high := [a, b, c, d], [e, g, h, i];
    FloatBytes(f, origin, base, low, low + high, rest);
    assert [0x43] + low + rest == [0x43, a, b, c, d] + rest;
    assert low + high == [a, b, c, d, e, g, h, i];
    assert [0x44] + (low + high) + rest == [0x44, a, b, c, d, e, g, h, i] + rest;
    LittleEndianDigits(a, b, c, d, high);
    LittleEndianDigits(e, g, h, i, []);
  }

  lemma FloatBytes(f: Features, origin: nat, base: nat, four: seq<u8>, eight: seq<u8>, rest: seq<u8>)
    requires |four| == 4 && |eight| == 8
    ensures DecodeOperator(f, origin, base, [0x43] + four + rest) == Done(F32Const(LittleEndian(four)), 5)
    ensures DecodeOperator(f, origin, base, [0x44] + eight + rest) == Done(F64Const(LittleEndian(eight)), 9)
  {
    hide LittleEndian, ImmediateOf;
    FixedCodes();
    var s, t := [0x43] + four + rest, [0x44] + eight + rest;
    assert s[1..][..4] == four && t[1..][..8] == eight;
  }

  /** A typed select names one type; `ref.null` names a heap type. */
  lemma TypedOpcodes(f: Features, origin: nat, base: nat, t: ValType, h: HeapType, rest: seq<u8>)
    ensures ValidValType(t) ==>
      DecodeOperator(f, origin, base, [0x1c, 1] + EncodeValType(t) + rest) == Done(TypedSelect(t), 2 + |EncodeValType(t)|)
    ensures ValidHeapType(h) ==>
      DecodeOperator(f, origin, base, [0xd0] + EncodeHeapType(h) + rest) == Done(RefNull(h), 1 + |EncodeHeapType(h)|)
  {
    hide DecodeOperator, EncodeValType, EncodeHeapType, ValidValType, ValidHeapType;
    if ValidValType(t) {
      OperatorRoundTrip(f, origin, base, TypedSelect(t), rest);
      assert EncodeU(1) == [1];
      assert [0x1c] + ([1] + EncodeValType(t)) == [0x1c, 1] + EncodeValType(t);
    }
    if ValidHeapType(h) { OperatorRoundTrip(f, origin, base, RefNull(h), rest); }
  }

  predicate Listed(c: u8) {
    || c in BARE || c in BLOCKS || c in INDEXED || c in TWO_INDEXED
    || c in {0x0e, 0x11, 0x1c, 0xd0}
    || 0x28 <= c <= 0xc4
  }

  /** Every other opcode is rejected at the opcode. */
  lemma OtherOpcodes(f: Features, origin: nat, base: nat, c: u8, rest: seq<u8>)
    requires !Listed(c)
    ensures DecodeOperator(f, origin, base, [c] + rest) == Fail(1, 0)
  {
  }
}
