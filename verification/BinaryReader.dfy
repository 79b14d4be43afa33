/**
  The cursor over a Wasm binary (`patches/wasmparser/src/binary_reader.rs`) and its LEB128 loops,
  proved against the grammar's decoders in module Leb128.
*/
module BinaryReaders {
  import opened Wrappers
  import opened Bits
  import opened Leb128
  import opened LebLoops
  import opened Formats
  import opened Operators

  /** Errors carry the offset they report; their text is not modelled. */
  type ReadResult<+T> = Result<T, nat>

  class BinaryReader {
    const buffer: seq<u8>
    const originalOffset: nat
    const features: Features
    var position: nat

    constructor (buffer: seq<u8>, originalOffset: nat, features: Features)
      ensures this.buffer == buffer && this.originalOffset == originalOffset && this.features == features
      ensures position == 0 && Valid() && Rest() == buffer
    {
      this.buffer, this.originalOffset, this.features := buffer, originalOffset, features;
      position := 0;
    }

    ghost predicate Valid()
      reads this
    {
      position <= |buffer|
    }

    /** The bytes still to be parsed. */
    function Rest(): (s: seq<u8>)
      requires Valid()
      reads this
    {
      buffer[position..]
    }

    function OriginalPosition(): nat
      reads this
    {
      originalOffset + position
    }

    /** From `start`, the reader has done what `step` says and answered `r`. */
    ghost predicate Took<T>(start: nat, step: Step<T>, r: ReadResult<T>)
      reads this
    {
      && position == start + step.used
      && match step
         case Done(v, _) => r == Ok(v)
         case Fail(_, at) => r == Err(originalOffset + start + at)
    }

    /** The reader over the unread bytes; it addresses the same absolute bytes. */
    method Shrink() returns (reader: BinaryReader)
      requires Valid()
      ensures fresh(reader) && reader.Valid()
      ensures reader.Rest() == Rest() && reader.buffer == Rest() && reader.features == features
      ensures reader.OriginalPosition() == OriginalPosition()
    {
      reader := new BinaryReader(buffer[position..], originalOffset + position, features);
    }

    predicate Eof()
      reads this
    {
      position >= |buffer|
    }

    method ReadU8() returns (r: ReadResult<u8>)
      requires Valid()
      modifies this`position
      ensures Valid()
      ensures old(position) < |buffer| ==> position == old(position) + 1 && r == Ok(buffer[old(position)])
      ensures old(position) == |buffer| ==> position == old(position) && r == Err(originalOffset + position)
    {
      if position < |buffer| {
        position := position + 1;
        return Ok(buffer[position - 1]);
      }
      r := Err(originalOffset + position);
    }

    method Peek() returns (r: ReadResult<u8>)
      requires Valid()
      ensures r == if position < |buffer| then Ok(buffer[position]) else Err(originalOffset + position)
    {
      if position < |buffer| { return Ok(buffer[position]); }
      r := Err(originalOffset + position);
    }

    method ReadVarU32() returns (r: ReadResult<u32>)
      requires Valid()
      modifies this`position
      ensures Valid() && Took(old(position), ReadU(32, old(Rest())), r)
    {
      hide And, Pow2;
      var first := ReadU8();
      if first.Err? { return Err(first.error); }
      var byte := first.value;
      ContinuationBit(byte);
      if And(byte, 0x80) == 0 {
        r := Ok(byte);
      } else {
        r := ReadVarU32Big(byte);
      }
    }

    method ReadVarU32Big(byte: u8) returns (r: ReadResult<u32>)
      requires Valid() && 0 < position && buffer[position - 1] == byte && byte >= 0x80
      modifies this`position
      ensures Valid() && Took(old(position) - 1, ReadU(32, buffer[old(position) - 1..]), r)
    {
      hide PartialU, And, Or, Shl, Shr, Pow2, ReadU;
      ghost var start := position - 1;
      ghost var s := buffer[start..];
      BeginU(32, s);
      TurnU(32, s, 0, 0, 0);
      PayloadBits(byte);
      FirstGroup(32, byte);
      var result: nat := And(byte, 0x7F);
      var shift := 7;
      while true
        invariant Valid() && 7 <= shift <= 28 && start <= position && shift == 7 * (position - start)
        invariant PartialU(32, s, position - start, shift, result)
        decreases 32 - shift
      {
        ghost var lo, used := result, position - start;
        if position == |buffer| { EofU(32, s, used, shift, lo); }
        var next := ReadU8();
        if next.Err? { return Err(next.error); }
        var byte := next.value;
        PayloadBits(byte);
        ContinuationBit(byte);
        result := Or(result, Shl(32, And(byte, 0x7F), shift));
        if shift < 25 { TurnU(32, s, used, shift, lo); } else { LastU(32, s, used, shift, lo); }
        if shift >= 25 && Shr(byte, 32 - shift) != 0 {
          return Err(originalOffset + position - 1);
        }
        shift := shift + 7;
        if And(byte, 0x80) == 0 { break; }
      }
      ReadUFits(32, s);
      r := Ok(result);
    }

    method ReadVarU64() returns (r: ReadResult<u64>)
      requires Valid()
      modifies this`position
      ensures Valid() && Took(old(position), ReadU(64, old(Rest())), r)
    {
      hide And, Pow2;
      var first := ReadU8();
      if first.Err? { return Err(first.error); }
      var byte := first.value;
      ContinuationBit(byte);
      if And(byte, 0x80) == 0 {
        r := Ok(byte);
      } else {
        r := ReadVarU64Big(byte);
      }
    }

    method ReadVarU64Big(byte: u8) returns (r: ReadResult<u64>)
      requires Valid() && 0 < position && buffer[position - 1] == byte && byte >= 0x80
      modifies this`position
      ensures Valid() && Took(old(position) - 1, ReadU(64, buffer[old(position) - 1..]), r)
    {
      hide PartialU, And, Or, Shl, Shr, Pow2, ReadU;
      ghost var start := position - 1;
      ghost var s := buffer[start..];
      BeginU(64, s);
      TurnU(64, s, 0, 0, 0);
      PayloadBits(byte);
      FirstGroup(64, byte);
      var result: nat := And(byte, 0x7F);
      var shift := 7;
      while true
        invariant Valid() && 7 <= shift <= 63 && start <= position && shift == 7 * (position - start)
        invariant PartialU(64, s, position - start, shift, result)
        decreases 64 - shift
      {
        ghost var lo, used := result, position - start;
        if position == |buffer| { EofU(64, s, used, shift, lo); }
        var next := ReadU8();
        if next.Err? { return Err(next.error); }
        var byte := next.value;
        PayloadBits(byte);
        ContinuationBit(byte);
        result := Or(result, Shl(64, And(byte, 0x7F), shift));
        if shift < 57 { TurnU(64, s, used, shift, lo); } else { LastU(64, s, used, shift, lo); }
        if shift >= 57 && Shr(byte, 64 - shift) != 0 {
          return Err(originalOffset + position - 1);
        }
        shift := shift + 7;
        if And(byte, 0x80) == 0 { break; }
      }
      ReadUFits(64, s);
      r := Ok(result);
    }

    method ReadVarI32() returns (r: ReadResult<int>)
      requires Valid()
      modifies this`position
      ensures Valid() && Took(old(position), ReadS(32, old(Rest())), r)
    {
      hide And, Shl, Pow2, Sar, Signed;
      var first := ReadU8();
      if first.Err? { return Err(first.error); }
      var byte := first.value;
      ContinuationBit(byte);
      if And(byte, 0x80) == 0 {
        FastS(32, old(Rest()));
        SevenBits(byte);
        SignExtend(32, 7, byte);
        r := Ok(Sar(Signed(32, Shl(32, byte, 25)), 25));
      } else {
        r := ReadVarI32Big(byte);
      }
    }

    method ReadVarI32Big(byte: u8) returns (r: ReadResult<int>)
      requires Valid() && 0 < position && buffer[position - 1] == byte && byte >= 0x80
      modifies this`position
      ensures Valid() && Took(old(position) - 1, ReadS(32, buffer[old(position) - 1..]), r)
    {
      hide PartialS, And, Or, Shl, Pow2, ReadS, ReadS33, Sar, Signed, SignAndUnused;
      ghost var start := position - 1;
      ghost var s := buffer[start..];
      BeginS(32, s);
      TurnS(32, s, 0, 0, 0);
      PayloadBits(byte);
      FirstGroup(32, byte);
      var result: nat := And(byte, 0x7F);
      var shift := 7;
      while true
        invariant Valid() && 7 <= shift <= 28 && start <= position && shift == 7 * (position - start)
        invariant PartialS(32, s, position - start, shift, result)
        decreases 32 - shift
      {
        ghost var lo, used := result, position - start;
        if position == |buffer| { EofS(32, s, used, shift, lo); }
        var next := ReadU8();
        if next.Err? { return Err(next.error); }
        var byte := next.value;
        PayloadBits(byte);
        ContinuationBit(byte);
        result := Or(result, Shl(32, And(byte, 0x7F), shift));
        if shift >= 25 {
          FinishS(32, s, used, shift, lo);
          var continuationBit := And(byte, 0x80) != 0;
          var signAndUnusedBit := SignAndUnused(byte, 32 - shift);
          if continuationBit || (signAndUnusedBit != 0 && signAndUnusedBit != -1) {
            return Err(originalOffset + position - 1);
          }
          return Ok(Signed(32, result));
        }
        ExtendS(32, 32, s, used, shift, lo);
        shift := shift + 7;
        if And(byte, 0x80) == 0 { break; }
      }
      var ashift := 32 - shift;
      r := Ok(Sar(Signed(32, Shl(32, result, ashift)), ashift));
    }

    method ReadVarS33() returns (r: ReadResult<int>)
      requires Valid()
      modifies this`position
      ensures Valid() && Took(old(position), ReadS33(old(Rest())), r)
    {
      hide PartialS, And, Or, Shl, Pow2, ReadS, ReadS33, Sar, Signed, SignAndUnused;
      ghost var start := position;
      ghost var s := buffer[start..];
      if position == |buffer| { BeginS(33, s); EofS(33, s, 0, 0, 0); ShortS33(s); }
      var first := ReadU8();
      if first.Err? { return Err(first.error); }
      var byte := first.value;
      ContinuationBit(byte);
      if And(byte, 0x80) == 0 {
        FastS(33, s);
        ShortS33(s);
        SevenBits(byte);
        SignExtend(8, 7, byte);
        return Ok(Sar(Signed(8, Shl(8, byte, 1)), 1));
      }
      BeginS(33, s);
      TurnS(33, s, 0, 0, 0);
      PayloadBits(byte);
      FirstGroup(33, byte);
      var result: nat := And(byte, 0x7F);
      var shift := 7;
      while true
        invariant Valid() && 7 <= shift <= 28 && start <= position && shift == 7 * (position - start)
        invariant PartialS(33, s, position - start, shift, result)
        decreases 33 - shift
      {
        ghost var lo, used := result, position - start;
        if position == |buffer| { EofS(33, s, used, shift, lo); ShortS33(s); }
        var next := ReadU8();
        if next.Err? { return Err(next.error); }
        var byte := next.value;
        PayloadBits(byte);
        ContinuationBit(byte);
        result := Or(result, Shl(64, And(byte, 0x7F), shift));
        if shift >= 25 {
          FinishS33(s, lo);
          var continuationBit := And(byte, 0x80) != 0;
          var signAndUnusedBit := SignAndUnused(byte, 33 - shift);
          if continuationBit || (signAndUnusedBit != 0 && signAndUnusedBit != -1) {
            return Err(originalOffset + position - 1);
          }
          return Ok(Signed(64, result));
        }
        ExtendS(33, 64, s, used, shift, lo);
        if byte < 0x80 { ShortS33(s); }
        shift := shift + 7;
        if And(byte, 0x80) == 0 { break; }
      }
      var ashift := 64 - shift;
      r := Ok(Sar(Signed(64, Shl(64, result, ashift)), ashift));
    }

    method ReadVarI64() returns (r: ReadResult<int>)
      requires Valid()
      modifies this`position
      ensures Valid() && Took(old(position), ReadS(64, old(Rest())), r)
    {
      hide PartialS, And, Or, Shl, Pow2, ReadS, ReadS33, Sar, Signed, SignAndUnused;
      ghost var start := position;
      ghost var s := buffer[start..];
      BeginS(64, s);
      var result: nat := 0;
      var shift := 0;
      while true
        invariant Valid() && 0 <= shift <= 63 && start <= position && shift == 7 * (position - start)
        invariant PartialS(64, s, position - start, shift, result)
        decreases 64 - shift
      {
        ghost var lo, used := result, position - start;
        if position == |buffer| { EofS(64, s, used, shift, lo); }
        var next := ReadU8();
        if next.Err? { return Err(next.error); }
        var byte := next.value;
        PayloadBits(byte);
        ContinuationBit(byte);
        result := Or(result, Shl(64, And(byte, 0x7F), shift));
        if shift >= 57 {
          FinishS(64, s, used, shift, lo);
          var continuationBit := And(byte, 0x80) != 0;
          var signAndUnusedBit := SignAndUnused(byte, 64 - shift);
          if continuationBit || (signAndUnusedBit != 0 && signAndUnusedBit != -1) {
            return Err(originalOffset + position - 1);
          }
          return Ok(Signed(64, result));
        }
        ExtendS(64, 64, s, used, shift, lo);
        shift := shift + 7;
        if And(byte, 0x80) == 0 { break; }
      }
      var ashift := 64 - shift;
      r := Ok(Sar(Signed(64, Shl(64, result, ashift)), ashift));
    }

    // ---------- composite formats ----------

    /** The bytes behind the first `k` of those left at `start`. */
    lemma Behind(start: nat, k: nat)
      requires start + k <= |buffer|
      ensures buffer[start..][k..] == buffer[start + k..]
    {
    }

    method ReadAbstractHeapType() returns (r: ReadResult<u8>)
      requires Valid()
      modifies this`position
      ensures Valid() && Took(old(position), ReadAbstract(old(Rest())), r)
    {
      var b := ReadU8();
      if b.Err? { return b; }
      if 0x68 <= b.value <= 0x75 { return b; }
      r := Err(originalOffset + position - 1);
    }

    /** Reads an s33 on a copy of the reader; `end` is where the copy stopped. */
    method ReadS33OnClone() returns (r: ReadResult<int>, end: nat)
      requires Valid()
      ensures end <= |buffer|
      ensures ReadS33(Rest()).Done? ==> r == Ok(ReadS33(Rest()).value) && end == position + ReadS33(Rest()).used
      ensures ReadS33(Rest()).Fail? ==> r == Err(originalOffset + position + ReadS33(Rest()).at)
    {
      hide ReadS33;
      var clone := new BinaryReader(buffer, originalOffset, features);
      clone.position := position;
      r := clone.ReadVarS33();
      end := clone.position;
    }

    /** Only an index keeps what was read on the copy; anything else is read again as an abstract type. */
    method ReadHeapTypeAt() returns (r: ReadResult<HeapType>)
      requires Valid()
      modifies this`position
      ensures Valid() && Took(old(position), ReadHeapType(old(Rest())), r)
    {
      hide ReadS33, ReadAbstractHeap, And;
      var s33, end := ReadS33OnClone();
      if s33.Err? { return Err(s33.error); }
      if 0 <= s33.value < 0x1_0000_0000 {
        position := end;
        LowBits(s33.value, 20, 0xF_FFFF) by { TwentyBits(); }
        if And(s33.value, 0xF_FFFF) != s33.value { return Err(originalOffset + position); }
        return Ok(Concrete(s33.value));
      }
      var heap := ReadSharedOrPlain();
      r := heap;
    }

    method ReadSharedOrPlain() returns (r: ReadResult<HeapType>)
      requires Valid() && position < |buffer|
      modifies this`position
      ensures Valid() && Took(old(position), ReadAbstractHeap(old(Rest())), r)
    {
      var first := Peek();
      var shared := first.value == 0x65;
      if shared {
        var _ := ReadU8();
        Behind(position - 1, 1);
      }
      var ty := ReadAbstractHeapType();
      if ty.Err? { return Err(ty.error); }
      r := Ok(Abstract(shared, ty.value));
    }

    method ReadValTypeAt() returns (r: ReadResult<ValType>)
      requires Valid()
      modifies this`position
      ensures Valid() && Took(old(position), ReadValType(old(Rest())), r)
    {
      hide ReadHeapType;
      ghost var start := position;
      var first := Peek();
      if first.Err? { return Err(first.error); }
      match first.value {
        case 0x7F => var _ := ReadU8(); return Ok(I32);
        case 0x7E => var _ := ReadU8(); return Ok(I64);
        case 0x7D => var _ := ReadU8(); return Ok(F32);
        case 0x7C => var _ := ReadU8(); return Ok(F64);
        case 0x7B => var _ := ReadU8(); return Ok(V128);
        case _ =>
      }
      var nullable := true;
      if first.value == 0x63 || first.value == 0x64 {
        var _ := ReadU8();
        Behind(start, 1);
        nullable := first.value == 0x63;
      }
      var heap := ReadHeapTypeAt();
      if heap.Err? { return Err(heap.error); }
      r := Ok(Ref(nullable, heap.value));
    }

    method ReadBlockTypeAt() returns (r: ReadResult<BlockType>)
      requires Valid()
      modifies this`position
      ensures Valid() && Took(old(position), ReadBlockType(old(Rest())), r)
    {
      hide ReadS33, ReadValType, And;
      var b := Peek();
      if b.Err? { return Err(b.error); }
      ContinuationBit(b.value);
      SignBit(b.value);
      if And(b.value, 0x80) == 0 && And(b.value, 0x40) != 0 {
        if b.value == 0x40 {
          position := position + 1;
          return Ok(Empty);
        }
        var ty := ReadValTypeAt();
        if ty.Err? { return Err(ty.error); }
        return Ok(Type(ty.value));
      }
      var idx := ReadVarS33();
      if idx.Err? { return Err(idx.error); }
      if 0 <= idx.value < 0x1_0000_0000 { return Ok(FuncType(idx.value)); }
      r := Err(originalOffset + position);
    }

    method ReadMemArgAt(maxAlign: u8) returns (r: ReadResult<MemArg>)
      requires Valid()
      modifies this`position
      ensures Valid() && Took(old(position), ReadMemArg(features, maxAlign, old(Rest())), r)
    {
      hide ReadU, ReadU32, ReadOffset, And, Xor;
      ghost var start := position;
      var flagsPos := OriginalPosition();
      var first := ReadVarU32();
      if first.Err? { return Err(first.error); }
      var flags: nat := first.value;
      Behind(start, position - start);
      MemoryFlag(flags);
      var memory: u32 := 0;
      if features.multiMemory && And(flags, 64) != 0 {
        flags := Xor(flags, 64);
        var index := ReadVarU32();
        if index.Err? { return Err(index.error); }
        memory := index.value;
        Behind(start, position - start);
      }
      if flags >= 64 { return Err(flagsPos); }
      var offset := ReadOffsetAt();
      if offset.Err? { return Err(offset.error); }
      r := Ok(MemArg(flags, maxAlign, offset.value, memory));
    }

    /** The offset of a memarg: 64 bits wide under `memory64`. */
    method ReadOffsetAt() returns (r: ReadResult<u64>)
      requires Valid()
      modifies this`position
      ensures Valid() && Took(old(position), ReadOffset(features, old(Rest())), r)
    {
      hide ReadU;
      if features.memory64 {
        r := ReadVarU64();
      } else {
        var narrow := ReadVarU32();
        r := if narrow.Ok? then Ok(narrow.value) else Err(narrow.error);
      }
    }

    method ReadSizeAt(limit: nat) returns (r: ReadResult<u32>)
      requires Valid()
      modifies this`position
      ensures Valid() && Took(old(position), ReadSize(limit, old(Rest())), r)
    {
      hide ReadU;
      var pos := OriginalPosition();
      r := ReadVarU32();
      if r.Ok? && r.value > limit { return Err(pos); }
    }

    /** The body of the closure that `read_br_table` passes to `skip`. */
    method SkipIndicesAt(cnt: nat) returns (r: ReadResult<()>)
      requires Valid()
      modifies this`position
      ensures Valid() && Took(old(position), SkipIndices(cnt, old(Rest())), r)
    {
      hide ReadU, ReadU32, SkipIndices;
      ghost var start := position;
      assert SkipIndices(0, buffer[start..]) == Done((), 0) by { SkipNoIndices(buffer[start..]); }
      for i := 0 to cnt
        invariant Valid() && start <= position
        invariant SkipIndices(cnt, buffer[start..]) == After(position - start, SkipIndices(cnt - i, buffer[position..]))
      {
        ghost var before := position;
        SkipOneIndex(cnt - i, buffer[before..]);
        var v := ReadVarU32();
        if v.Err? { return Err(v.error); }
        Behind(before, position - before);
        AfterAfter(before - start, position - before, SkipIndices(cnt - i - 1, buffer[position..]));
      }
      SkipNoIndices(buffer[position..]);
      r := Ok(());
    }

    /** The second half of `skip`: a reader over what was skipped since `start`. */
    method Skipped(start: nat) returns (window: BinaryReader)
      requires Valid() && start <= position
      ensures fresh(window) && window.Valid() && window.Rest() == buffer[start..position]
      ensures window.features == features && window.OriginalPosition() == originalOffset + start
      ensures window.buffer == buffer[start..position] && window.position == 0 && window.originalOffset == originalOffset + start
    {
      window := new BinaryReader(buffer[start..position], originalOffset + start, features);
    }

    method ReadBrTableAt() returns (r: ReadResult<BrTable>)
      requires Valid()
      modifies this`position
      ensures Valid() && Took(old(position), ReadBrTable(old(OriginalPosition()), old(Rest())), r)
    {
      hide ReadU, ReadU32, ReadSize, ReadBrTargets;
      ghost var start := position;
      var cnt := ReadSizeAt(MAX_WASM_BR_TABLE_SIZE);
      if cnt.Err? { return Err(cnt.error); }
      Behind(start, position - start);
      r := ReadBrTargetsAt(cnt.value);
    }

    method ReadBrTargetsAt(cnt: u32) returns (r: ReadResult<BrTable>)
      requires Valid()
      modifies this`position
      ensures Valid() && Took(old(position), ReadBrTargets(old(OriginalPosition()), cnt, old(Rest())), r)
    {
      hide ReadU, ReadU32, SkipIndices;
      var start := position;
      var skipped := SkipIndicesAt(cnt);
      if skipped.Err? { return Err(skipped.error); }
      Behind(start, position - start);
      assert buffer[start..][..position - start] == buffer[start..position];
      var window := Skipped(start);
      var default := ReadVarU32();
      if default.Err? { return Err(default.error); }
      r := Ok(BrTable(window.buffer, window.originalOffset, cnt, default.value));
    }

    // ---------- operators ----------

    method ReadWordAt(n: nat) returns (r: ReadResult<nat>)
      requires Valid()
      modifies this`position
      ensures Valid() && Took(old(position), ReadWord(n, old(Rest())), r)
    {
      hide Pow2, LittleEndian;
      if position + n > |buffer| { return Err(originalOffset + position); }
      assert buffer[position..][..n] == buffer[position..position + n];
      position := position + n;
      r := Ok(LittleEndian(buffer[position - n..position]));
    }

    method ReadIndexOrZeroAt(feature: bool) returns (r: ReadResult<u32>)
      requires Valid()
      modifies this`position
      ensures Valid() && Took(old(position), ReadIndexOrZero(feature, old(Rest())), r)
    {
      hide ReadU, ReadU32;
      if feature {
        r := ReadVarU32();
      } else {
        var b := ReadU8();
        if b.Err? { return Err(b.error); }
        if b.value == 0 { return Ok(0); }
        r := Err(originalOffset + position - 1);
      }
    }

    method ReadPairAt(feature: bool) returns (r: ReadResult<(u32, u32)>)
      requires Valid()
      modifies this`position
      ensures Valid() && Took(old(position), ReadPair(old(Rest()), feature), r)
    {
      hide ReadU, ReadU32, ReadIndexOrZero;
      ghost var start := position;
      var first := ReadVarU32();
      if first.Err? { return Err(first.error); }
      Behind(start, position - start);
      var second := ReadIndexOrZeroAt(feature);
      if second.Err? { return Err(second.error); }
      r := Ok((first.value, second.value));
    }

    method ReadSelectAt() returns (r: ReadResult<ValType>)
      requires Valid()
      modifies this`position
      ensures Valid() && Took(old(position), ReadSelect(originalOffset, old(Rest())), r)
    {
      hide ReadU, ReadU32, ReadValType;
      ghost var start := position;
      var results := ReadVarU32();
      if results.Err? { return Err(results.error); }
      Behind(start, position - start);
      if results.value != 1 { return Err(position); }
      r := ReadValTypeAt();
    }

    method ReadImmediateAt(code: u8) returns (r: ReadResult<Operator>)
      requires Valid() && position > 0
      modifies this`position
      ensures Valid()
      ensures Took(old(position), ReadImmediate(features, originalOffset, old(OriginalPosition()), code, old(Rest())), r)
    {
      hide ImmediateOf, ReadBlockType, ReadU, ReadU32, ReadPair, ReadMemArg, ReadIndexOrZero, ReadS, ReadBrTable, ReadSelect, ReadHeapType, ReadWord;
      match ImmediateOf(code) {
        case NoImmediate =>
          r := Ok(Plain(code));
        case BlockImmediate =>
          var v := ReadBlockTypeAt();
          r := if v.Ok? then Ok(Block(code, v.value)) else Err(v.error);
        case IndexImmediate =>
          var v := ReadVarU32();
          r := if v.Ok? then Ok(Index(code, v.value)) else Err(v.error);
        case TwoIndexImmediate =>
          var v := ReadPairAt(true);
          r := if v.Ok? then Ok(TwoIndex(code, v.value.0, v.value.1)) else Err(v.error);
        case CallIndirectImmediate =>
          var v := ReadPairAt(features.referenceTypes);
          r := if v.Ok? then Ok(TwoIndex(code, v.value.0, v.value.1)) else Err(v.error);
        case BrTableImmediate =>
          var v := ReadBrTableAt();
          r := if v.Ok? then Ok(BranchTable(v.value)) else Err(v.error);
        case MemArgImmediate(a) =>
          var v := ReadMemArgAt(a);
          r := if v.Ok? then Ok(Memory(code, v.value)) else Err(v.error);
        case MemoryImmediate =>
          var v := ReadIndexOrZeroAt(features.multiMemory);
          r := if v.Ok? then Ok(Index(code, v.value)) else Err(v.error);
        case I32Immediate =>
          var v := ReadVarI32();
          r := if v.Ok? then Ok(I32Const(v.value)) else Err(v.error);
        case I64Immediate =>
          var v := ReadVarI64();
          r := if v.Ok? then Ok(I64Const(v.value)) else Err(v.error);
        case F32Immediate =>
          var v := ReadWordAt(4);
          r := if v.Ok? then Ok(F32Const(v.value)) else Err(v.error);
        case F64Immediate =>
          var v := ReadWordAt(8);
          r := if v.Ok? then Ok(F64Const(v.value)) else Err(v.error);
        case SelectImmediate =>
          var v := ReadSelectAt();
          r := if v.Ok? then Ok(TypedSelect(v.value)) else Err(v.error);
        case HeapTypeImmediate =>
          var v := ReadHeapTypeAt();
          r := if v.Ok? then Ok(RefNull(v.value)) else Err(v.error);
        case Illegal =>
          r := Err(originalOffset + position - 1);
      }
    }

    method ReadOperator() returns (r: ReadResult<Operator>)
      requires Valid()
      modifies this`position
      ensures Valid()
      ensures Took(old(position), DecodeOperator(features, originalOffset, old(OriginalPosition()), old(Rest())), r)
      ensures r.Ok? ==> position > old(position)
    {
      hide ReadImmediate;
      ghost var start := position;
      var code := ReadU8();
      if code.Err? { return Err(code.error); }
      Behind(start, 1);
      r := ReadImmediateAt(code.value);
    }

    method SkipConstExprAt() returns (r: ReadResult<()>)
      requires Valid()
      modifies this`position
      ensures Valid()
      ensures Took(old(position), SkipConstExpr(features, originalOffset, old(OriginalPosition()), old(Rest())), r)
    {
      hide DecodeOperator;
      ghost var start := position;
      ghost var whole := SkipConstExpr(features, originalOffset, OriginalPosition(), Rest());
      while true
        invariant Valid() && start <= position
        invariant whole == After(position - start, SkipConstExpr(features, originalOffset, OriginalPosition(), Rest()))
        decreases |buffer| - position
      {
        ghost var before := position;
        var op := ReadOperator();
        if op.Err? { return Err(op.error); }
        Behind(before, position - before);
        if op.value == Plain(END) { return Ok(()); }
      }
    }
  }
}
