/**
  The composite formats of the Wasm binary: what `binary_reader.rs` and `readers/core/types.rs`
  decode from the front of a stream, as functions, with an encoder for each.
*/
module Formats {
  import opened Wrappers
  import opened Bits
  import opened Leb128

  const MAX_WASM_BR_TABLE_SIZE: nat := 128 * 1024
  const MAX_TYPE_INDEX: nat := 0xF_FFFF

  datatype Features = Features(multiMemory: bool, memory64: bool, referenceTypes: bool)

  datatype HeapType = Concrete(index: u32) | Abstract(shared: bool, code: u8)
  datatype ValType = I32 | I64 | F32 | F64 | V128 | Ref(nullable: bool, heap: HeapType)
  datatype BlockType = Empty | Type(ty: ValType) | FuncType(index: u32)
  datatype MemArg = MemArg(align: u8, maxAlign: u8, offset: u64, memory: u32)

  /** `bytes` is the sub-reader's buffer and `offset` its place in the whole binary. */
  datatype BrTable = BrTable(bytes: seq<u8>, offset: nat, cnt: u32, default: u32)

  /** A step taken after `k` bytes. */
  function After<T>(k: nat, step: Step<T>): Step<T> {
    match step
    case Done(v, u) => Done(v, k + u)
    case Fail(u, at) => Fail(k + u, k + at)
  }

  ghost predicate InBounds<T>(step: Step<T>, s: seq<u8>) {
    step.used <= |s| && (step.Done? ==> step.used > 0)
  }

  // ---------- value types ----------

  function ReadAbstract(s: seq<u8>): (r: Step<u8>)
    ensures InBounds(r, s)
  {
    if |s| == 0 then Fail(0, 0)
    else if 0x68 <= s[0] <= 0x75 then Done(s[0], 1)
    else Fail(1, 0)
  }

  /** A non-negative s33 is a type index; otherwise the same bytes are read again as an abstract type. */
  function ReadHeapType(s: seq<u8>): (r: Step<HeapType>)
    ensures InBounds(r, s)
  {
    match ReadS33(s)
    case Fail(_, at) => Fail(0, at)
    case Done(v, k) =>
      if 0 <= v < 0x1_0000_0000 then
        if v <= MAX_TYPE_INDEX then Done(Concrete(v), k) else Fail(k, k)
      else ReadAbstractHeap(s)
  }

  function ReadAbstractHeap(s: seq<u8>): (r: Step<HeapType>)
    requires |s| > 0
    ensures InBounds(r, s)
  {
    if s[0] == 0x65 then
      match ReadAbstract(s[1..])
      case Done(c, u) => Done(Abstract(true, c), 1 + u)
      case Fail(u, at) => Fail(1 + u, 1 + at)
    else
      match ReadAbstract(s)
      case Done(c, u) => Done(Abstract(false, c), u)
      case Fail(u, at) => Fail(u, at)
  }

  function ReadRef(nullable: bool, k: nat, step: Step<HeapType>): Step<ValType> {
    match step
    case Done(h, u) => Done(Ref(nullable, h), k + u)
    case Fail(u, at) => Fail(k + u, k + at)
  }

  function ReadValType(s: seq<u8>): (r: Step<ValType>)
    ensures InBounds(r, s)
  {
    if |s| == 0 then Fail(0, 0)
    else if s[0] == 0x7F then Done(I32, 1)
    else if s[0] == 0x7E then Done(I64, 1)
    else if s[0] == 0x7D then Done(F32, 1)
    else if s[0] == 0x7C then Done(F64, 1)
    else if s[0] == 0x7B then Done(V128, 1)
    else if s[0] == 0x63 || s[0] == 0x64 then ReadRef(s[0] == 0x63, 1, ReadHeapType(s[1..]))
    else ReadRef(true, 0, ReadHeapType(s))
  }

  /** 0x40, a canonical one-byte value type, or a type index written as an s33. */
  function ReadBlockType(s: seq<u8>): (r: Step<BlockType>)
    ensures InBounds(r, s)
  {
    if |s| == 0 then Fail(0, 0)
    else if 0x40 <= s[0] < 0x80 then
      if s[0] == 0x40 then Done(Empty, 1)
      else
        match ReadValType(s)
        case Done(t, k) => Done(Type(t), k)
        case Fail(u, at) => Fail(u, at)
    else
      match ReadS33(s)
      case Done(v, k) => if 0 <= v < 0x1_0000_0000 then Done(FuncType(v), k) else Fail(k, k)
      case Fail(u, at) => Fail(u, at)
  }

  // ---------- memory arguments ----------

  function ReadMemArg(f: Features, maxAlign: u8, s: seq<u8>): (r: Step<MemArg>)
    ensures InBounds(r, s)
  {
    match ReadU32(s)
    case Fail(u, at) => Fail(u, at)
    case Done(flags, k) =>
      var indexed := f.multiMemory && (flags / 64) % 2 == 1;
      match if indexed then After(k, ReadU32(s[k..])) else Done(0, k)
      case Fail(u, at) => Fail(u, at)
      case Done(memory, j) =>
        var align := if indexed then flags - 64 else flags;
        if align >= 64 then Fail(j, 0)
        else
          match ReadOffset(f, s[j..])
          case Done(offset, u) => Done(MemArg(align, maxAlign, offset, memory), j + u)
          case Fail(u, at) => Fail(j + u, j + at)
  }

  function ReadU32(s: seq<u8>): (r: Step<u32>)
    ensures InBounds(r, s)
    ensures r == ReadU(32, s)
  {
    if ReadU(32, s).Done? then U32Range(s); Done(ReadU(32, s).value, ReadU(32, s).used)
    else Fail(ReadU(32, s).used, ReadU(32, s).at)
  }

  lemma U32Range(s: seq<u8>)
    requires ReadU(32, s).Done?
    ensures ReadU(32, s).value < 0x1_0000_0000
  {
    ReadUSound(32, s);
    DenoteURange(32, s[..ReadU(32, s).used]);
    PowValues();
  }

  function ReadOffset(f: Features, s: seq<u8>): (r: Step<u64>)
    ensures InBounds(r, s)
    ensures r == ReadU(if f.memory64 then 64 else 32, s)
  {
    var n := if f.memory64 then 64 else 32;
    if ReadU(n, s).Done? then OffsetRange(n, s); Done(ReadU(n, s).value, ReadU(n, s).used)
    else Fail(ReadU(n, s).used, ReadU(n, s).at)
  }

  lemma OffsetRange(n: nat, s: seq<u8>)
    requires (n == 64 || n == 32) && ReadU(n, s).Done?
    ensures ReadU(n, s).value < 0x1_0000_0000_0000_0000
  {
    ReadUSound(n, s);
    DenoteURange(n, s[..ReadU(n, s).used]);
    PowValues();
  }

  // ---------- branch tables ----------

  function ReadSize(limit: nat, s: seq<u8>): (r: Step<u32>)
    ensures InBounds(r, s)
  {
    match ReadU32(s)
    case Done(size, k) => if size > limit then Fail(k, 0) else Done(size, k)
    case Fail(u, at) => Fail(u, at)
  }

  function ReadIndices(cnt: nat, s: seq<u8>): (r: Step<seq<u32>>)
    ensures r.used <= |s|
    ensures r.Done? ==> |r.value| == cnt
  {
    if cnt == 0 then Done([], 0)
    else
      match ReadU32(s)
      case Fail(u, at) => Fail(u, at)
      case Done(v, k) =>
        match ReadIndices(cnt - 1, s[k..])
        case Done(vs, u) => Done([v] + vs, k + u)
        case Fail(u, at) => Fail(k + u, k + at)
  }

  /** What the closure given to `skip` does: the indices are checked, not kept. */
  function SkipIndices(cnt: nat, s: seq<u8>): (r: Step<()>)
    ensures r.used <= |s|
  {
    match ReadIndices(cnt, s)
    case Done(_, k) => Done((), k)
    case Fail(k, at) => Fail(k, at)
  }

  lemma SkipNoIndices(s: seq<u8>)
    ensures SkipIndices(0, s) == Done((), 0)
  {
  }

  lemma SkipOneIndex(cnt: nat, s: seq<u8>)
    requires cnt > 0
    ensures SkipIndices(cnt, s) ==
      match ReadU32(s) case Fail(u, at) => Fail(u, at) case Done(_, k) => After(k, SkipIndices(cnt - 1, s[k..]))
  {
    hide ReadU, ReadU32;
  }

  lemma AfterAfter<T>(k: nat, u: nat, step: Step<T>)
    ensures After(k, After(u, step)) == After(k + u, step)
  {
  }

  /** `base` is the place of `s` in the whole binary. */
  function ReadBrTable(base: nat, s: seq<u8>): (r: Step<BrTable>)
    ensures InBounds(r, s)
  {
    match ReadSize(MAX_WASM_BR_TABLE_SIZE, s)
    case Fail(u, at) => Fail(u, at)
    case Done(cnt, k) => After(k, ReadBrTargets(base + k, cnt, s[k..]))
  }

  function ReadBrTargets(base: nat, cnt: u32, s: seq<u8>): (r: Step<BrTable>)
    ensures InBounds(r, s)
  {
    match SkipIndices(cnt, s)
    case Fail(u, at) => Fail(u, at)
    case Done(_, u) =>
      match ReadU32(s[u..])
      case Fail(w, at) => Fail(u + w, u + at)
      case Done(d, w) => Done(BrTable(s[..u], base, cnt, d), u + w)
  }

  // ---------- locality ----------

  /** `s` and `t` begin with the same `k` bytes. */
  ghost predicate Agree(k: nat, s: seq<u8>, t: seq<u8>) {
    k <= |s| && k <= |t| && s[..k] == t[..k]
  }

  lemma AgreeAfter(k: nat, u: nat, s: seq<u8>, t: seq<u8>)
    requires Agree(k + u, s, t)
    ensures Agree(k, s, t) && Agree(u, s[k..], t[k..])
    ensures s[k..k + u] == t[k..k + u]
  {
    assert s[..k] == s[..k + u][..k] && t[..k] == t[..k + u][..k];
    assert s[k..][..u] == s[..k + u][k..] && t[k..][..u] == t[..k + u][k..];
    assert s[k..k + u] == s[..k + u][k..] && t[k..k + u] == t[..k + u][k..];
  }

  lemma AgreeLess(k: nat, m: nat, s: seq<u8>, t: seq<u8>)
    requires k <= m && Agree(m, s, t)
    ensures Agree(k, s, t)
    ensures k > 0 ==> s[0] == t[0]
  {
    AgreeAfter(k, m - k, s, t);
    if k > 0 { assert s[..k][0] == t[..k][0]; }
  }

  lemma ReadULocality(n: nat, s: seq<u8>, t: seq<u8>)
    requires ReadU(n, s).Done? && Agree(ReadU(n, s).used, s, t)
    ensures ReadU(n, t) == ReadU(n, s)
  {
    ReadUSound(n, s);
    ReadUComplete(n, t, ReadU(n, s).used);
  }

  lemma ReadSLocality(n: nat, s: seq<u8>, t: seq<u8>)
    requires n > 0 && ReadS(n, s).Done? && Agree(ReadS(n, s).used, s, t)
    ensures ReadS(n, t) == ReadS(n, s)
  {
    ReadSSound(n, s);
    ReadSComplete(n, t, ReadS(n, s).used);
  }

  lemma ReadAbstractLocality(s: seq<u8>, t: seq<u8>)
    requires ReadAbstract(s).Done? && Agree(ReadAbstract(s).used, s, t)
    ensures ReadAbstract(t) == ReadAbstract(s)
  {
    AgreeLess(1, 1, s, t);
  }

  /** An abstract heap type is one byte that also reads as a negative s33. */
  lemma AbstractIsNegative(s: seq<u8>)
    requires |s| > 0 && 0x40 <= s[0] < 0x80
    ensures ReadS33(s).Done? && ReadS33(s).value == s[0] as int - 0x80 && ReadS33(s).used == 1
  {
  }

  lemma ReadHeapTypeLocality(s: seq<u8>, t: seq<u8>)
    requires ReadHeapType(s).Done? && Agree(ReadHeapType(s).used, s, t)
    ensures ReadHeapType(t) == ReadHeapType(s)
  {
    hide ReadS;
    var k := ReadHeapType(s).used;
    AgreeLess(1, k, s, t);
    if ReadHeapType(s).value.Concrete? {
      ReadSLocality(33, s, t);
    } else {
      AbstractIsNegative(s);
      AbstractIsNegative(t);
      if s[0] == 0x65 {
        AgreeAfter(1, 1, s, t);
        ReadAbstractLocality(s[1..], t[1..]);
      } else {
        ReadAbstractLocality(s, t);
      }
    }
  }

  lemma ReadValTypeLocality(s: seq<u8>, t: seq<u8>)
    requires ReadValType(s).Done? && Agree(ReadValType(s).used, s, t)
    ensures ReadValType(t) == ReadValType(s)
  {
    hide ReadHeapType;
    var k := ReadValType(s).used;
    AgreeLess(1, k, s, t);
    if s[0] == 0x63 || s[0] == 0x64 {
      AgreeAfter(1, k - 1, s, t);
      ReadHeapTypeLocality(s[1..], t[1..]);
    } else if s[0] < 0x7B || s[0] >= 0x80 {
      ReadHeapTypeLocality(s, t);
    }
  }

  lemma ReadBlockTypeLocality(s: seq<u8>, t: seq<u8>)
    requires ReadBlockType(s).Done? && Agree(ReadBlockType(s).used, s, t)
    ensures ReadBlockType(t) == ReadBlockType(s)
  {
    hide ReadS, ReadValType;
    AgreeLess(1, ReadBlockType(s).used, s, t);
    if 0x40 <= s[0] < 0x80 {
      if s[0] != 0x40 { ReadValTypeLocality(s, t); }
    } else {
      ReadSLocality(33, s, t);
    }
  }

  lemma ReadMemArgLocality(f: Features, a: u8, s: seq<u8>, t: seq<u8>)
    requires ReadMemArg(f, a, s).Done? && Agree(ReadMemArg(f, a, s).used, s, t)
    ensures ReadMemArg(f, a, t) == ReadMemArg(f, a, s)
  {
    hide ReadU, ReadU32, ReadOffset;
    var n := ReadMemArg(f, a, s).used;
    var k := ReadU32(s).used;
    AgreeAfter(k, n - k, s, t);
    ReadULocality(32, s, t);
    var flags := ReadU32(s).value;
    var j := k;
    if f.multiMemory && (flags / 64) % 2 == 1 {
      j := k + ReadU32(s[k..]).used;
      AgreeLess(j - k, n - k, s[k..], t[k..]);
      ReadULocality(32, s[k..], t[k..]);
    }
    AgreeAfter(j, n - j, s, t);
    ReadULocality(if f.memory64 then 64 else 32, s[j..], t[j..]);
  }

  lemma {:induction false} ReadIndicesLocality(cnt: nat, s: seq<u8>, t: seq<u8>)
    requires ReadIndices(cnt, s).Done? && Agree(ReadIndices(cnt, s).used, s, t)
    ensures ReadIndices(cnt, t) == ReadIndices(cnt, s)
  {
    hide ReadU;
    if cnt > 0 {
      var k := ReadU32(s).used;
      AgreeAfter(k, ReadIndices(cnt, s).used - k, s, t);
      ReadULocality(32, s, t);
      ReadIndicesLocality(cnt - 1, s[k..], t[k..]);
    }
  }

  lemma ReadBrTargetsLocality(base: nat, cnt: u32, s: seq<u8>, t: seq<u8>)
    requires ReadBrTargets(base, cnt, s).Done? && Agree(ReadBrTargets(base, cnt, s).used, s, t)
    ensures ReadBrTargets(base, cnt, t) == ReadBrTargets(base, cnt, s)
  {
    hide ReadU, ReadIndices;
    var u := ReadIndices(cnt, s).used;
    AgreeAfter(u, ReadBrTargets(base, cnt, s).used - u, s, t);
    ReadIndicesLocality(cnt, s, t);
    ReadULocality(32, s[u..], t[u..]);
  }

  lemma ReadBrTableLocality(base: nat, s: seq<u8>, t: seq<u8>)
    requires ReadBrTable(base, s).Done? && Agree(ReadBrTable(base, s).used, s, t)
    ensures ReadBrTable(base, t) == ReadBrTable(base, s)
  {
    hide ReadU, ReadBrTargets;
    var k := ReadU32(s).used;
    AgreeAfter(k, ReadBrTable(base, s).used - k, s, t);
    ReadULocality(32, s, t);
    ReadBrTargetsLocality(base + k, ReadU32(s).value, s[k..], t[k..]);
  }

  // ---------- encoders ----------

  predicate ValidHeapType(h: HeapType) {
    match h
    case Concrete(i) => i <= MAX_TYPE_INDEX
    case Abstract(_, c) => 0x68 <= c <= 0x75
  }

  function EncodeHeapType(h: HeapType): (b: seq<u8>)
    ensures |b| > 0
  {
    match h
    case Concrete(i) => EncodeS(i)
    case Abstract(shared, c) => if shared then [0x65, c] else [c]
  }

  predicate ValidValType(t: ValType) {
    t.Ref? ==> ValidHeapType(t.heap)
  }

  /** A nullable abstract reference has a one- or two-byte shorthand. */
  function EncodeValType(t: ValType): (b: seq<u8>)
    ensures |b| > 0
  {
    match t
    case I32 => [0x7F]
    case I64 => [0x7E]
    case F32 => [0x7D]
    case F64 => [0x7C]
    case V128 => [0x7B]
    case Ref(nullable, h) =>
      if nullable && h.Abstract? then EncodeHeapType(h)
      else [if nullable then 0x63 else 0x64] + EncodeHeapType(h)
  }

  predicate ValidBlockType(b: BlockType) {
    b.Type? ==> ValidValType(b.ty)
  }

  function EncodeBlockType(b: BlockType): (bytes: seq<u8>)
    ensures |bytes| > 0
  {
    match b
    case Empty => [0x40]
    case Type(t) => EncodeValType(t)
    case FuncType(i) => EncodeS(i)
  }

  predicate ValidMemArg(f: Features, m: MemArg) {
    && m.align < 64
    && (m.memory != 0 ==> f.multiMemory)
    && (f.memory64 || m.offset < 0x1_0000_0000)
  }

  function EncodeMemArg(m: MemArg): (b: seq<u8>)
    ensures |b| > 0
  {
    if m.memory == 0 then EncodeU(m.align) + EncodeU(m.offset)
    else EncodeU(m.align + 64) + EncodeU(m.memory) + EncodeU(m.offset)
  }

  function EncodeIndices(vs: seq<u32>): seq<u8> {
    if vs == [] then [] else EncodeU(vs[0]) + EncodeIndices(vs[1..])
  }

  /** The table's window holds exactly its entries, in any accepted encoding, right after the count. */
  predicate ValidBrTable(base: nat, t: BrTable) {
    && t.cnt <= MAX_WASM_BR_TABLE_SIZE
    && ReadIndices(t.cnt, t.bytes).Done?
    && ReadIndices(t.cnt, t.bytes).used == |t.bytes|
    && t.offset == base + |EncodeU(t.cnt)|
  }

  function EncodeBrTable(t: BrTable): (b: seq<u8>)
    ensures |b| > 0
  {
    EncodeU(t.cnt) + t.bytes + EncodeU(t.default)
  }

  // ---------- decoding undoes encoding ----------

  lemma ReadEncodedU32(v: u32, rest: seq<u8>)
    ensures ReadU32(EncodeU(v) + rest) == Done(v, |EncodeU(v)|)
  {
    PowValues();
    ReadEncodeU(32, v, rest);
  }

  lemma ReadEncodedIndex(i: u32, rest: seq<u8>)
    ensures ReadS33(EncodeS(i) + rest) == Done(i, |EncodeS(i)|)
    ensures !(0x40 <= EncodeS(i)[0] < 0x80)
  {
    PowValues();
    ReadEncodeS(33, i, rest);
  }

  lemma HeapTypeRoundTrip(h: HeapType)
    requires ValidHeapType(h)
    ensures ReadHeapType(EncodeHeapType(h)) == Done(h, |EncodeHeapType(h)|)
  {
    hide ReadS, EncodeS;
    var b := EncodeHeapType(h);
    assert b + [] == b;
    match h
    case Concrete(i) => ReadEncodedIndex(i, []);
    case Abstract(shared, c) => AbstractIsNegative(b);
  }

  lemma ValTypeRoundTrip(t: ValType)
    requires ValidValType(t)
    ensures ReadValType(EncodeValType(t)) == Done(t, |EncodeValType(t)|)
    ensures 0x40 < EncodeValType(t)[0] < 0x80
  {
    if t.Ref? {
      hide ReadHeapType;
      HeapTypeRoundTrip(t.heap);
      assert EncodeValType(t)[1..] == EncodeHeapType(t.heap) || (t.nullable && t.heap.Abstract?);
    }
  }

  /** Reading undoes encoding, whatever follows. */
  lemma BlockTypeRoundTrip(b: BlockType, rest: seq<u8>)
    requires ValidBlockType(b)
    ensures ReadBlockType(EncodeBlockType(b) + rest) == Done(b, |EncodeBlockType(b)|)
  {
    hide ReadBlockType, EncodeBlockType;
    var e := EncodeBlockType(b);
    EncodedBlockType(b);
    assert (e + rest)[..|e|] == e;
    ReadBlockTypeLocality(e, e + rest);
  }

  lemma EncodedBlockType(b: BlockType)
    requires ValidBlockType(b)
    ensures ReadBlockType(EncodeBlockType(b)) == Done(b, |EncodeBlockType(b)|)
  {
    hide ReadValType, ReadS33, EncodeS;
    match b
    case Empty =>
    case Type(t) => ValTypeRoundTrip(t);
    case FuncType(i) =>
      assert EncodeS(i) + [] == EncodeS(i);
      ReadEncodedIndex(i, []);
  }

  /** Bit 6 of the flags says that a memory index follows; the rest is the alignment, and the offset comes last. */
  lemma MemArgForms(f: Features, maxAlign: u8, align: u8, memory: u32, offset: u64)
    requires align < 64 && (f.memory64 || offset < 0x1_0000_0000)
    ensures ReadMemArg(f, maxAlign, EncodeU(align) + EncodeU(offset))
         == Done(MemArg(align, maxAlign, offset, 0), |EncodeU(align)| + |EncodeU(offset)|)
    ensures f.multiMemory ==>
      ReadMemArg(f, maxAlign, EncodeU(64 + align) + EncodeU(memory) + EncodeU(offset))
        == Done(MemArg(align, maxAlign, offset, memory), |EncodeU(64 + align)| + |EncodeU(memory)| + |EncodeU(offset)|)
  {
    hide ReadU, EncodeU;
    var off := EncodeU(offset);
    ReadEncodedOffset(f, offset);
    var head := EncodeU(align);
    ReadEncodedU32(align, off);
    assert (head + off)[|head|..] == off;
    var flags, mid := EncodeU(64 + align), EncodeU(memory);
    assert flags + mid + off == flags + (mid + off);
    ReadEncodedU32(64 + align, mid + off);
    ReadEncodedU32(memory, off);
    assert (flags + mid + off)[|flags|..] == mid + off;
    assert (flags + mid + off)[|flags| + |mid|..] == off;
  }

  lemma MemArgRoundTrip(f: Features, m: MemArg)
    requires ValidMemArg(f, m)
    ensures ReadMemArg(f, m.maxAlign, EncodeMemArg(m)) == Done(m, |EncodeMemArg(m)|)
  {
    hide ReadMemArg, EncodeU;
    MemArgForms(f, m.maxAlign, m.align, m.memory, m.offset);
  }

  lemma ReadEncodedOffset(f: Features, offset: u64)
    requires f.memory64 || offset < 0x1_0000_0000
    ensures ReadOffset(f, EncodeU(offset)) == Done(offset, |EncodeU(offset)|)
  {
    PowValues();
    assert EncodeU(offset) + [] == EncodeU(offset);
    ReadEncodeU(if f.memory64 then 64 else 32, offset, []);
  }

  lemma {:induction false} IndicesRoundTrip(vs: seq<u32>, rest: seq<u8>)
    ensures ReadIndices(|vs|, EncodeIndices(vs) + rest) == Done(vs, |EncodeIndices(vs)|)
  {
    hide ReadU, EncodeU;
    if vs != [] {
      var head, tail := EncodeU(vs[0]), EncodeIndices(vs[1..]);
      assert head + tail + rest == head + (tail + rest);
      ReadEncodedU32(vs[0], tail + rest);
      assert (head + tail + rest)[|head|..] == tail + rest;
      IndicesRoundTrip(vs[1..], rest);
      assert [vs[0]] + vs[1..] == vs;
    }
  }

  lemma BrTargetsRoundTrip(base: nat, t: BrTable)
    requires ReadIndices(t.cnt, t.bytes).Done? && ReadIndices(t.cnt, t.bytes).used == |t.bytes| && t.offset == base
    ensures ReadBrTargets(base, t.cnt, t.bytes + EncodeU(t.default)) == Done(t, |t.bytes| + |EncodeU(t.default)|)
  {
    hide ReadU, ReadU32, EncodeU, ReadIndices;
    var tail := EncodeU(t.default);
    var body := t.bytes + tail;
    assert body[..|t.bytes|] == t.bytes[..|t.bytes|] == t.bytes;
    ReadIndicesLocality(t.cnt, t.bytes, body);
    assert body[|t.bytes|..] == tail && tail + [] == tail;
    ReadEncodedU32(t.default, []);
  }

  lemma BrTableRoundTrip(base: nat, t: BrTable)
    requires ValidBrTable(base, t)
    ensures ReadBrTable(base, EncodeBrTable(t)) == Done(t, |EncodeBrTable(t)|)
  {
    hide ReadU, ReadU32, EncodeU, ReadIndices, ReadBrTargets;
    var head, body := EncodeU(t.cnt), t.bytes + EncodeU(t.default);
    assert EncodeBrTable(t) == head + body && (head + body)[|head|..] == body;
    ReadEncodedU32(t.cnt, body);
    BrTargetsRoundTrip(base + |head|, t);
  }

  // ---------- block types ----------

  /** A function type is read exactly when the next bytes are an s33 encoding of its index, and
      no encoding of a negative number is ever read as one, although `read_var_s33` itself returns
      five-byte negatives as large positive numbers. */
  lemma FuncTypeIff(s: seq<u8>, i: u32, k: nat)
    requires k <= |s|
    ensures ReadBlockType(s) == Done(FuncType(i), k) <==> DenoteS(33, s[..k]) == Some(i as int)
  {
    ReadSExact(33, s, k, i);
    if ReadBlockType(s) == Done(FuncType(i), k) {
      S33SmallIsExact(s);
    } else if ReadS(33, s) == Done(i as int, k) {
      if 0x40 <= s[0] < 0x80 { AbstractIsNegative(s); }
    }
  }

  /** Adding 2^35 puts every five-byte negative above the `u32` range. */
  lemma S33SmallIsExact(s: seq<u8>)
    requires ReadS33(s).Done? && ReadS33(s).value < 0x1_0000_0000
    ensures ReadS(33, s) == Done(ReadS33(s).value, ReadS33(s).used)
  {
    ReadSSound(33, s);
    DenoteSRange(33, s[..ReadS(33, s).used]);
    PowValues();
  }

  // ---------- the codes themselves ----------

  /** The value types of section 5.3.1, and reference types with their prefixes. */
  lemma ValTypeCodes(rest: seq<u8>)
    ensures ReadValType([0x7F] + rest) == Done(I32, 1) && ReadValType([0x7E] + rest) == Done(I64, 1)
    ensures ReadValType([0x7D] + rest) == Done(F32, 1) && ReadValType([0x7C] + rest) == Done(F64, 1)
    ensures ReadValType([0x7B] + rest) == Done(V128, 1)
  {
  }

  lemma RefTypeCodes(c: u8, i: u32, rest: seq<u8>)
    requires 0x68 <= c <= 0x75 && i <= 0xF_FFFF
    ensures ReadValType([c] + rest) == Done(Ref(true, Abstract(false, c)), 1)
    ensures ReadValType([0x65, c] + rest) == Done(Ref(true, Abstract(true, c)), 2)
    ensures ReadValType([0x63, c] + rest) == Done(Ref(true, Abstract(false, c)), 2)
    ensures ReadValType([0x64, c] + rest) == Done(Ref(false, Abstract(false, c)), 2)
    ensures ReadValType([0x63] + EncodeS(i) + rest) == Done(Ref(true, Concrete(i)), 1 + |EncodeS(i)|)
    ensures ReadValType([0x64] + EncodeS(i) + rest) == Done(Ref(false, Concrete(i)), 1 + |EncodeS(i)|)
  {
    hide ReadS, EncodeS;
    AbstractHeapCodes(c, rest);
    ConcreteHeapType(i, rest);
    assert ([0x63, c] + rest)[1..] == [c] + rest && ([0x64, c] + rest)[1..] == [c] + rest;
    assert ([0x63] + EncodeS(i) + rest)[1..] == EncodeS(i) + rest && ([0x64] + EncodeS(i) + rest)[1..] == EncodeS(i) + rest;
  }

  lemma AbstractHeapCodes(c: u8, rest: seq<u8>)
    requires 0x68 <= c <= 0x75
    ensures ReadHeapType([c] + rest) == Done(Abstract(false, c), 1)
    ensures ReadHeapType([0x65, c] + rest) == Done(Abstract(true, c), 2)
  {
    hide ReadS33;
    AbstractIsNegative([c] + rest);
    AbstractIsNegative([0x65, c] + rest);
    assert ([0x65, c] + rest)[1..] == [c] + rest;
  }

  lemma ConcreteHeapType(i: u32, rest: seq<u8>)
    requires i <= 0xF_FFFF
    ensures ReadHeapType(EncodeS(i) + rest) == Done(Concrete(i), |EncodeS(i)|)
  {
    hide ReadS33, EncodeS;
    ReadEncodedIndex(i, rest);
  }

  /** The block types that are not function types: 0x40 for none, otherwise a value type. */
  lemma BlockTypeCodes(rest: seq<u8>)
    ensures ReadBlockType([0x40] + rest) == Done(Empty, 1)
    ensures ReadBlockType([0x7F] + rest) == Done(Type(I32), 1) && ReadBlockType([0x7E] + rest) == Done(Type(I64), 1)
    ensures ReadBlockType([0x7D] + rest) == Done(Type(F32), 1) && ReadBlockType([0x7C] + rest) == Done(Type(F64), 1)
    ensures ReadBlockType([0x7B] + rest) == Done(Type(V128), 1)
  {
    hide ReadValType;
    ValTypeCodes(rest);
  }

  // ---------- what is rejected, and where ----------

  /** A count above its limit is rejected where the count begins. */
  lemma SizeWithinLimit(limit: nat, s: seq<u8>, k: nat, size: nat)
    requires k <= |s| && DenoteU(32, s[..k]) == Some(size)
    ensures ReadSize(limit, s).Done? <==> size <= limit
    ensures size <= limit ==> ReadSize(limit, s).value == size && ReadSize(limit, s).used == k
    ensures size > limit ==> ReadSize(limit, s) == Fail(k, 0)
  {
    hide ReadU, DenoteU;
    ReadUExact(32, s, k, size);
  }

  /** So is a branch table of more than 131072 targets. */
  lemma BrTableTooLarge(base: nat, s: seq<u8>, k: nat, cnt: nat)
    requires k <= |s| && DenoteU(32, s[..k]) == Some(cnt) && cnt > 131072
    ensures ReadBrTable(base, s) == Fail(k, 0)
  {
    hide ReadU, DenoteU, ReadSize;
    SizeWithinLimit(MAX_WASM_BR_TABLE_SIZE, s, k, cnt);
  }

  /** An alignment of 64 or more is rejected where the flags begin, behind the memory index if there is one. */
  lemma AlignmentTooLarge(f: Features, maxAlign: u8, s: seq<u8>, k: nat, flags: nat)
    requires k <= |s| && DenoteU(32, s[..k]) == Some(flags)
    ensures flags >= 64 && !(f.multiMemory && (flags / 64) % 2 == 1) ==> ReadMemArg(f, maxAlign, s) == Fail(k, 0)
    ensures flags >= 128 && f.multiMemory && (flags / 64) % 2 == 1 ==>
      forall j :: 0 <= j <= |s| - k && DenoteU(32, s[k..][..j]).Some? ==> ReadMemArg(f, maxAlign, s) == Fail(k + j, 0)
  {
    hide ReadU, DenoteU, ReadOffset;
    ReadUExact(32, s, k, flags);
    forall j | 0 <= j <= |s| - k && DenoteU(32, s[k..][..j]).Some?
      ensures ReadU32(s[k..]) == Done(DenoteU(32, s[k..][..j]).value, j)
    {
      ReadUExact(32, s[k..], j, DenoteU(32, s[k..][..j]).value);
    }
  }

  /** A type index is at most 2^20 - 1; a larger one is rejected behind it. */
  lemma TypeIndexWithinLimit(s: seq<u8>, k: nat, i: int)
    requires k <= |s| && DenoteS(33, s[..k]) == Some(i) && 0 <= i
    ensures i <= 0xF_FFFF ==> ReadHeapType(s) == Done(Concrete(i), k)
    ensures i > 0xF_FFFF ==> ReadHeapType(s) == Fail(k, k)
  {
    hide ReadS, DenoteS;
    ReadSExact(33, s, k, i);
    DenoteSRange(33, s[..k]);
    PowValues();
  }
}
