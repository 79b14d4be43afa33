/**
  The iterators over a reader: `BrTableTargets` and `BinaryReaderIter` (binary_reader.rs) and
  `SectionLimitedIntoIter` (readers.rs). Item types are a decoding function on the unread bytes.
*/
module ReaderIterators {
  import opened Wrappers
  import opened Bits
  import opened Leb128
  import opened Formats
  import opened BinaryReaders

  // ---------- branch-table targets ----------

  /** The window of an accepted table holds exactly its entries, at the place the table says. */
  lemma BrTableWindow(base: nat, s: seq<u8>)
    requires ReadBrTable(base, s).Done?
    ensures var t := ReadBrTable(base, s).value;
      && base <= t.offset && t.offset - base + |t.bytes| <= |s|
      && t.bytes == s[t.offset - base..][..|t.bytes|]
      && ReadIndices(t.cnt, s[t.offset - base..]).Done?
      && ReadIndices(t.cnt, t.bytes) == Done(ReadIndices(t.cnt, s[t.offset - base..]).value, |t.bytes|)
  {
    hide ReadU, ReadU32, ReadIndices;
    var t := ReadBrTable(base, s).value;
    var rest := s[t.offset - base..];
    assert t.bytes[..|t.bytes|] == rest[..|t.bytes|];
    ReadIndicesLocality(t.cnt, rest, t.bytes);
  }

  class BrTableTargets {
    const reader: BinaryReader
    var remaining: nat

    /** `targets()`: a fresh reader over the table's window. */
    constructor (table: BrTable, features: Features)
      ensures fresh(reader) && reader.Valid() && remaining == table.cnt
      ensures reader.Rest() == table.bytes && reader.OriginalPosition() == table.offset
    {
      reader := new BinaryReader(table.bytes, table.offset, features);
      remaining := table.cnt;
    }

    /** What is left to read is exactly `todo`. */
    ghost predicate Left(todo: seq<u32>)
      reads this, reader
    {
      reader.Valid() && ReadIndices(remaining, reader.Rest()) == Done(todo, |reader.Rest()|)
    }

    method Next() returns (item: Option<ReadResult<u32>>)
      requires reader.Valid()
      modifies this, reader`position
      ensures reader.Valid()
      ensures old(remaining) == 0 ==> remaining == 0 && reader.position == old(reader.position)
      ensures old(remaining) == 0 ==> item == if reader.Eof() then None else Some(Err(reader.OriginalPosition()))
      ensures old(remaining) > 0 ==> remaining == old(remaining) - 1 && item.Some?
      ensures old(remaining) > 0 ==> reader.Took(old(reader.position), ReadU(32, old(reader.Rest())), item.value)
    {
      if remaining == 0 {
        if !reader.Eof() { return Some(Err(reader.OriginalPosition())); }
        return None;
      }
      remaining := remaining - 1;
      var v := reader.ReadVarU32();
      item := Some(v);
    }

    /** Neither the "trailing data" branch nor a LEB error can be reached. */
    method NextTarget(ghost todo: seq<u32>) returns (item: Option<ReadResult<u32>>)
      requires Left(todo)
      modifies this, reader`position
      ensures todo == [] ==> item == None && Left([])
      ensures todo != [] ==> item == Some(Ok(todo[0])) && Left(todo[1..])
    {
      hide ReadU, ReadU32;
      ghost var start := reader.position;
      item := Next();
      reader.Behind(start, reader.position - start);
    }
  }

  /** `targets().collect()`: every accepted table yields exactly `cnt` targets, the ones checked
      while skipping, and then ends. */
  method CollectTargets(table: BrTable, features: Features) returns (r: ReadResult<seq<u32>>, last: Option<ReadResult<u32>>)
    requires ReadIndices(table.cnt, table.bytes).Done?
    requires ReadIndices(table.cnt, table.bytes).used == |table.bytes|
    ensures r == Ok(ReadIndices(table.cnt, table.bytes).value) && |r.value| == table.cnt
    ensures last == None
  {
    hide ReadIndices;
    ghost var all := ReadIndices(table.cnt, table.bytes).value;
    var targets := new BrTableTargets(table, features);
    var items: seq<u32> := [];
    last := targets.NextTarget(all);
    while last.Some? && last.value.Ok?
      invariant |items| <= |all| && items == all[..|items|]
      invariant if |items| < |all| then last == Some(Ok(all[|items|])) && targets.Left(all[|items| + 1..])
                else last == None && targets.Left([])
      decreases |all| - |items|
    {
      items := items + [last.value.value];
      last := targets.NextTarget(all[|items|..]);
      assert |items| < |all| ==> all[|items|..][1..] == all[|items| + 1..];
    }
    assert all[..|all|] == all;
    r := Ok(items);
  }

  // ---------- counted items ----------

  /** Decodes `n` items one after the other. */
  function DecodeAll<T>(decode: seq<u8> -> Step<T>, n: nat, s: seq<u8>): (r: Step<seq<T>>)
    requires forall t :: decode(t).used <= |t|
    ensures r.used <= |s|
    ensures r.Done? ==> |r.value| == n
  {
    if n == 0 then Done([], 0)
    else
      match decode(s)
      case Fail(u, at) => Fail(u, at)
      case Done(v, k) =>
        match DecodeAll(decode, n - 1, s[k..])
        case Done(vs, u) => Done([v] + vs, k + u)
        case Fail(u, at) => Fail(k + u, k + at)
  }

  lemma DecodeNone<T>(decode: seq<u8> -> Step<T>, s: seq<u8>)
    requires forall t :: decode(t).used <= |t|
    ensures DecodeAll(decode, 0, s) == Done([], 0)
  {
  }

  /** Decoding `n` items is decoding one, then the others. */
  lemma DecodeTurn<T>(decode: seq<u8> -> Step<T>, n: nat, s: seq<u8>, before: seq<T>)
    requires n > 0 && forall t :: decode(t).used <= |t|
    ensures var all := DecodeAll(decode, n, s);
      match decode(s)
      case Fail(u, _) => all.Fail? && all.used == u
      case Done(v, k) =>
        var rest := DecodeAll(decode, n - 1, s[k..]);
        && all.used == k + rest.used && all.Done? == rest.Done?
        && (all.Done? ==> before + all.value == before + [v] + rest.value)
  {
  }

  /** How many items there are to draw: up to `n`, the first failing one included. */
  function ItemCount<T>(decode: seq<u8> -> Step<T>, n: nat, s: seq<u8>): (count: nat)
    requires forall t :: decode(t).used <= |t|
    ensures count <= n
    ensures DecodeAll(decode, n, s).Done? ==> count == n
  {
    if n == 0 then 0
    else
      match decode(s)
      case Fail(_, _) => 1
      case Done(_, k) => 1 + ItemCount(decode, n - 1, s[k..])
  }

  lemma CountTurn<T>(decode: seq<u8> -> Step<T>, n: nat, s: seq<u8>)
    requires n > 0 && forall t :: decode(t).used <= |t|
    ensures ItemCount(decode, n, s) == 1 + if decode(s).Fail? then 0 else ItemCount(decode, n - 1, s[decode(s).used..])
  {
  }

  /** `BinaryReaderIter`: borrows the reader and decodes `remaining` more items from it. */
  class BinaryReaderIter<T> {
    const reader: BinaryReader
    const decode: seq<u8> -> Step<T>
    var remaining: nat
    ghost const start: nat
    ghost const size: nat
    ghost var yielded: seq<T>

    constructor (reader: BinaryReader, size: nat, decode: seq<u8> -> Step<T>)
      requires reader.Valid() && forall t :: decode(t).used <= |t|
      ensures Valid() && this.reader == reader && this.decode == decode && this.size == size
      ensures start == reader.position && remaining == size && yielded == []
    {
      this.reader, this.decode, remaining, yielded := reader, decode, size, [];
      this.start, this.size := reader.position, size;
    }

    ghost function Whole(): Step<seq<T>>
      requires start <= |reader.buffer| && forall t :: decode(t).used <= |t|
      reads this, reader
    {
      DecodeAll(decode, size, reader.buffer[start..])
    }

    /** How many more items `next` will yield. */
    ghost function Left(): nat
      requires reader.Valid() && forall t :: decode(t).used <= |t|
      reads this, reader
    {
      ItemCount(decode, remaining, reader.Rest())
    }

    /** What was taken and what remains make up the whole run of `size` items. */
    ghost predicate Valid()
      reads this, reader
    {
      && reader.Valid() && start <= reader.position
      && (forall t :: decode(t).used <= |t|)
      && var rest := DecodeAll(decode, remaining, reader.Rest());
      && Whole().used == reader.position - start + rest.used
      && (Whole().Done? ==> rest.Done? && Whole().value == yielded + rest.value)
    }

    method Next() returns (item: Option<Result<T, int>>)
      requires Valid()
      modifies this, reader`position
      ensures Valid()
      ensures old(remaining) == 0 ==> item == None && remaining == 0 && yielded == old(yielded)
      ensures old(remaining) > 0 ==> item.Some? && remaining < old(remaining)
      ensures item.Some? && item.value.Ok? ==> remaining == old(remaining) - 1 && yielded == old(yielded) + [item.value.value]
      ensures item.Some? && item.value.Err? ==> remaining == 0 && yielded == old(yielded) && Whole().Fail?
      ensures item.Some? ==> Left() == old(Left()) - 1
      ensures item.None? ==> old(Left()) == 0
    {
      hide DecodeAll, ItemCount;
      if remaining == 0 {
        item := None;
      } else {
        var before := reader.position;
        var step := decode(reader.Rest());
        DecodeTurn(decode, remaining, reader.Rest(), yielded);
        CountTurn(decode, remaining, reader.Rest());
        reader.Behind(before, step.used);
        reader.position := before + step.used;
        match step
        case Fail(_, at) =>
          DecodeNone(decode, reader.Rest());
          remaining := 0;
          item := Some(Err(reader.originalOffset + before + at));
        case Done(v, _) =>
          remaining := remaining - 1;
          yielded := yielded + [v];
          item := Some(Ok(v));
      }
    }

    /** Dropping the iterator leaves the reader where decoding all items would have, however many
        were taken before. */
    method Drop()
      requires Valid()
      modifies this, reader`position
      ensures reader.Valid() && remaining == 0
      ensures reader.position == start + Whole().used
    {
      var item := Next();
      while item.Some?
        invariant Valid()
        invariant item.None? ==> remaining == 0
        decreases item.Some?, remaining
      {
        item := Next();
      }
    }
  }

  /** `read_iter`: the item count comes first and is checked against a limit. */
  method ReadIter<T>(reader: BinaryReader, limit: nat, decode: seq<u8> -> Step<T>)
      returns (r: ReadResult<BinaryReaderIter<T>>)
    requires reader.Valid() && forall t :: decode(t).used <= |t|
    modifies reader`position
    ensures reader.Valid()
    ensures match ReadSize(limit, old(reader.Rest()))
      case Fail(u, at) => r == Err(reader.originalOffset + old(reader.position) + at) && reader.position == old(reader.position) + u
      case Done(n, k) =>
        && r.Ok? && fresh(r.value) && r.value.Valid() && r.value.reader == reader && r.value.decode == decode
        && r.value.size == r.value.remaining == n && r.value.start == old(reader.position) + k == reader.position && r.value.yielded == []
  {
    hide ReadSize;
    var size := reader.ReadSizeAt(limit);
    if size.Err? { return Err(size.error); }
    var iter := new BinaryReaderIter(reader, size.value, decode);
    r := Ok(iter);
  }

  function Min(a: nat, b: nat): nat {
    if a <= b then a else b
  }

  /** Reading a counted list through the iterator, taking only the first `take` items. */
  method ReadSome<T>(reader: BinaryReader, limit: nat, decode: seq<u8> -> Step<T>, take: nat)
      returns (taken: nat)
    requires reader.Valid() && forall t :: decode(t).used <= |t|
    requires ReadSize(limit, reader.Rest()).Done?
    modifies reader`position
    ensures reader.Valid()
    ensures var n, k := ReadSize(limit, old(reader.Rest())).value, ReadSize(limit, old(reader.Rest())).used;
      && reader.position == old(reader.position) + k + DecodeAll(decode, n, old(reader.Rest())[k..]).used
      && taken == Min(take, ItemCount(decode, n, old(reader.Rest())[k..]))
  {
    hide ReadSize, DecodeAll, ItemCount;
    ghost var begin := reader.position;
    var r := ReadIter(reader, limit, decode);
    var iter := r.value;
    reader.Behind(begin, reader.position - begin);
    taken := 0;
    ghost var total := iter.Left();
    while taken < take
      invariant iter.Valid() && fresh(iter) && iter.reader == reader && iter.decode == decode
      invariant taken <= take && taken + iter.Left() == total
    {
      var item := iter.Next();
      if item.None? { break; }
      taken := taken + 1;
    }
    iter.Drop();
  }

  // ---------- sections ----------

  /** Everything a section iterator will yield; `at` is the place of `s` in the whole binary. */
  function SectionItems<T>(decode: seq<u8> -> Step<T>, remaining: nat, at: int, s: seq<u8>): (r: seq<Result<T, int>>)
    requires forall t :: decode(t).used <= |t|
    decreases remaining
  {
    if remaining == 0 then if s == [] then [] else [Err(at)]
    else
      match decode(s)
      case Fail(_, e) => [Err(at + e)]
      case Done(v, k) => [Ok(v)] + SectionItems(decode, remaining - 1, at + k, s[k..])
  }

  /** One turn: the first item, and the items behind it. */
  lemma SectionTurn<T>(decode: seq<u8> -> Step<T>, remaining: nat, at: int, s: seq<u8>)
    requires forall t :: decode(t).used <= |t|
    ensures var items := SectionItems(decode, remaining, at, s);
      if remaining == 0 then items == (if s == [] then [] else [Err(at)])
      else if decode(s).Fail? then items == [Err(at + decode(s).at)]
      else
        var k := decode(s).used;
        items != [] && items[0] == Ok(decode(s).value) && items[1..] == SectionItems(decode, remaining - 1, at + k, s[k..])
  {
  }

  /**
    What a section yields: all its items, and one error behind them if bytes are left; or the items before the first
    that fails, and that item's error.
  */
  lemma {:induction false} SectionItemsShape<T>(decode: seq<u8> -> Step<T>, count: nat, at: int, s: seq<u8>)
    requires forall t :: decode(t).used <= |t|
    ensures var items := SectionItems(decode, count, at, s);
      && |items| <= count + 1
      && (forall i :: 0 <= i < |items| - 1 ==> items[i].Ok?)
      && match DecodeAll(decode, count, s)
         case Done(values, used) =>
           && |items| == count + (if used == |s| then 0 else 1)
           && (forall i :: 0 <= i < count ==> items[i] == Ok(values[i]))
           && (used < |s| ==> items[count] == Err(at + used))
         case Fail(_, e) => items != [] && |items| <= count && items[|items| - 1] == Err(at + e)
    decreases count
  {
    hide SectionItems, DecodeAll;
    var items := SectionItems(decode, count, at, s);
    SectionTurn(decode, count, at, s);
    if count == 0 {
      DecodeNone(decode, s);
    } else {
      DecodeStep(decode, count, s);
      if decode(s).Done? {
        var k := decode(s).used;
        SectionItemsShape(decode, count - 1, at + k, s[k..]);
        assert items == [items[0]] + items[1..];
      }
    }
  }

  lemma DecodeStep<T>(decode: seq<u8> -> Step<T>, n: nat, s: seq<u8>)
    requires n > 0 && forall t :: decode(t).used <= |t|
    ensures decode(s).Fail? ==> DecodeAll(decode, n, s) == Fail(decode(s).used, decode(s).at)
    ensures decode(s).Done? ==>
      var k := decode(s).used;
      DecodeAll(decode, n, s) ==
        match DecodeAll(decode, n - 1, s[k..])
        case Done(values, u) => Done([decode(s).value] + values, k + u)
        case Fail(u, e) => Fail(k + u, k + e)
  {
  }

  class SectionLimitedIntoIter<T> {
    const reader: BinaryReader
    const decode: seq<u8> -> Step<T>
    var remaining: nat
    var end: bool

    constructor (reader: BinaryReader, count: nat, decode: seq<u8> -> Step<T>)
      requires reader.Valid() && forall t :: decode(t).used <= |t|
      ensures Valid() && this.reader == reader && this.decode == decode
      ensures Items() == SectionItems(decode, count, reader.OriginalPosition(), reader.Rest())
    {
      this.reader, this.decode, remaining, end := reader, decode, count, false;
    }

    ghost predicate Valid()
      reads this, reader
    {
      reader.Valid() && forall t :: decode(t).used <= |t|
    }

    ghost function Items(): seq<Result<T, int>>
      requires Valid()
      reads this, reader
    {
      if end then [] else SectionItems(decode, remaining, reader.OriginalPosition(), reader.Rest())
    }

    /** Each call yields the next of the items, and `None` once they are used up and ever after. */
    method Next() returns (item: Option<Result<T, int>>)
      requires Valid()
      modifies this, reader`position
      ensures Valid()
      ensures item == if old(Items()) == [] then None else Some(old(Items())[0])
      ensures Items() == if old(Items()) == [] then [] else old(Items())[1..]
      ensures item == None ==> end
    {
      hide SectionItems;
      if end { return None; }
      SectionTurn(decode, remaining, reader.OriginalPosition(), reader.Rest());
      if remaining == 0 {
        end := true;
        if reader.Eof() { return None; }
        return Some(Err(reader.OriginalPosition()));
      }
      var before := reader.position;
      var step := decode(reader.Rest());
      reader.position := before + step.used;
      reader.Behind(before, step.used);
      end := step.Fail?;
      remaining := remaining - 1;
      match step
      case Fail(_, e) => item := Some(Err(reader.originalOffset + before + e));
      case Done(v, _) => item := Some(Ok(v));
    }
  }

  /** `SectionLimited::new` and its iterator: the count comes first, then exactly the items it announces. */
  method OpenSection<T>(reader: BinaryReader, decode: seq<u8> -> Step<T>) returns (r: ReadResult<SectionLimitedIntoIter<T>>)
    requires reader.Valid() && forall t :: decode(t).used <= |t|
    modifies reader`position
    ensures reader.Valid()
    ensures match ReadU32(old(reader.Rest()))
      case Fail(u, at) => r == Err(reader.originalOffset + old(reader.position) + at) && reader.position == old(reader.position) + u
      case Done(n, k) =>
        && r.Ok? && fresh(r.value) && r.value.Valid() && r.value.reader == reader
        && r.value.Items() == SectionItems(decode, n, reader.originalOffset + old(reader.position) + k, old(reader.Rest())[k..])
  {
    hide ReadU;
    ghost var before := reader.position;
    var count := reader.ReadVarU32();
    if count.Err? { return Err(count.error); }
    reader.Behind(before, reader.position - before);
    var iter := new SectionLimitedIntoIter(reader, count.value, decode);
    r := Ok(iter);
  }
}
