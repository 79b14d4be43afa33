/**
  The compact representation of function types (`wasmi_core/src/func_type.rs`): short signatures are kept in
  a fixed buffer, longer ones in a slice.
*/
module FuncTypes {
  import opened Bits
  import opened Wrappers

  datatype ValType = I32 | I64 | F32 | F64 | V128 | FuncRef | ExternRef

  type u16 = x: int | 0 <= x < 0x1_0000

  datatype FuncTypeInner =
    | Inline(lenParams: u8, lenResults: u8, cells: seq<ValType>)
    | Big(bigParams: u16, slice: seq<ValType>)

  datatype FuncTypeError = TooManyFunctionParams | TooManyFunctionResults

  const MAX_LEN_PARAMS := 1000
  const MAX_LEN_RESULTS := 1000

  /** `INLINE_SIZE` on 32-bit and 64-bit targets. */
  predicate IsInlineSize(size: nat) {
    size == 14 || size == 21
  }

  /** An `ExactSizeIterator` over value types. */
  class ValIter {
    var rest: seq<ValType>

    constructor (items: seq<ValType>)
      ensures rest == items
    {
      rest := items;
    }

    function Len(): nat
      reads this
    {
      |rest|
    }

    method Next() returns (v: Option<ValType>)
      modifies this
      ensures old(rest) == [] ==> v == None && rest == []
      ensures old(rest) != [] ==> v == Some(old(rest)[0]) && rest == old(rest)[1..]
    {
      if rest == [] { return None; }
      v := Some(rest[0]);
      rest := rest[1..];
    }

    method Collect() returns (items: seq<ValType>)
      modifies this
      ensures items == old(rest) && rest == []
    {
      items := [];
      while rest != []
        invariant items + rest == old(rest)
        decreases |rest|
      {
        var v := Next();
        items := items + [v.value];
      }
    }
  }

  /** The one representation of a signature. */
  function Representation(size: nat, params: seq<ValType>, results: seq<ValType>): FuncTypeInner
    requires IsInlineSize(size) && |params| <= MAX_LEN_PARAMS && |results| <= MAX_LEN_RESULTS
  {
    if |params| + |results| <= size
    then Inline(|params|, |results|, params + results + seq(size - |params| - |results|, _ => I32))
    else Big(|params|, params + results)
  }

  /** `for (cell, item) in cells.iter_mut().zip(items)` over one half of the buffer. */
  method FillCells(cells: array<ValType>, lo: nat, hi: nat, items: ValIter)
    requires lo <= hi <= cells.Length && hi - lo == |items.rest|
    modifies cells, items
    ensures cells[lo..hi] == old(items.rest) && items.rest == []
    ensures cells[..lo] == old(cells[..lo]) && cells[hi..] == old(cells[hi..])
  {
    ghost var all := items.rest;
    for i := lo to hi
      invariant items.rest == all[i - lo..]
      invariant cells[lo..i] == all[..i - lo]
      invariant cells[..lo] == old(cells[..lo]) && cells[i..] == old(cells[i..])
    {
      var item := items.Next();
      cells[i] := item.value;
      assert cells[lo..i + 1] == cells[lo..i] + [cells[i]];
    }
  }

  lemma Split3(s: seq<ValType>, i: nat, j: nat)
    requires i <= j <= |s|
    ensures s == s[..i] + s[i..j] + s[j..]
  {
  }

  /** Returns the inline form, or nothing without having consumed anything. */
  method TryNewSmall(size: nat, params: ValIter, results: ValIter) returns (r: Option<FuncTypeInner>)
    requires IsInlineSize(size) && params != results
    modifies params, results
    ensures r.Some? <==> |old(params.rest)| + |old(results.rest)| <= size
    ensures r.Some? ==> params.rest == [] && results.rest == []
    ensures r.Some? ==> |old(params.rest)| <= MAX_LEN_PARAMS && |old(results.rest)| <= MAX_LEN_RESULTS
    ensures r.Some? ==> r.value == Representation(size, old(params.rest), old(results.rest))
    ensures r.None? ==> params.rest == old(params.rest) && results.rest == old(results.rest)
  {
    var lenParams, lenResults := params.Len(), results.Len();
    if lenParams >= 0x100 || lenResults >= 0x100 { return None; }
    var lenInOut := lenParams + lenResults;
    if lenInOut >= 0x100 { return None; }
    if lenInOut > size { return None; }
    ghost var ps, rs := params.rest, results.rest;
    var cells := new ValType[size](_ => I32);
    FillCells(cells, 0, lenParams, params);
    ghost var padding := seq(size - lenInOut, _ => I32);
    assert cells[lenInOut..] == padding by {
      assert cells[lenInOut..] == cells[lenParams..][lenInOut - lenParams..];
    }
    FillCells(cells, lenParams, lenInOut, results);
    Split3(cells[..], lenParams, lenInOut);
    assert cells[..lenParams] == ps && cells[lenParams..lenInOut] == rs && cells[lenInOut..] == padding;
    r := Some(Inline(lenParams, lenResults, cells[..]));
  }

  /** `FuncTypeInner::new` */
  method New(size: nat, params: ValIter, results: ValIter) returns (r: Result<FuncTypeInner, FuncTypeError>)
    requires IsInlineSize(size) && params != results
    modifies params, results
    ensures r == Err(TooManyFunctionParams) <==> |old(params.rest)| > 1000
    ensures r == Err(TooManyFunctionResults) <==> |old(params.rest)| <= 1000 && |old(results.rest)| > 1000
    ensures r.Ok? ==> |old(params.rest)| <= MAX_LEN_PARAMS && |old(results.rest)| <= MAX_LEN_RESULTS
    ensures r.Ok? ==> r.value == Representation(size, old(params.rest), old(results.rest))
  {
    var lenParams, lenResults := params.Len(), results.Len();
    if lenParams > MAX_LEN_PARAMS { return Err(TooManyFunctionParams); }
    if lenResults > MAX_LEN_RESULTS { return Err(TooManyFunctionResults); }
    var small := TryNewSmall(size, params, results);
    if small.Some? { return Ok(small.value); }
    var buffer := params.Collect();
    var more := results.Collect();
    r := Ok(Big(lenParams, buffer + more));
  }

  // ---------- accessors ----------

  /** The slices the accessors take are in bounds and lengths fit their types. */
  predicate WellFormed(t: FuncTypeInner) {
    match t
    case Inline(p, r, cells) => p as int + r as int <= |cells|
    case Big(p, slice) => p <= |slice| < 0x1_0000
  }

  function Params(t: FuncTypeInner): seq<ValType>
    requires WellFormed(t)
  {
    match t
    case Inline(p, _, cells) => cells[..p]
    case Big(p, slice) => slice[..p]
  }

  function Results(t: FuncTypeInner): seq<ValType>
    requires WellFormed(t)
  {
    match t
    case Inline(p, r, cells) => cells[p..p as int + r as int]
    case Big(p, slice) => slice[p..]
  }

  function LenParams(t: FuncTypeInner): u16
    requires WellFormed(t)
  {
    match t
    case Inline(p, _, _) => p as int
    case Big(p, _) => p
  }

  function LenResults(t: FuncTypeInner): u16
    requires WellFormed(t)
  {
    match t
    case Inline(_, r, _) => r as int
    case Big(p, slice) => |slice| - p as int
  }

  function ParamsResults(t: FuncTypeInner): (seq<ValType>, seq<ValType>)
    requires WellFormed(t)
  {
    match t
    case Inline(p, r, cells) =>
      var used := cells[..p as int + r as int];
      (used[..p], used[p..])
    case Big(p, slice) => (slice[..p], slice[p..])
  }

  /** Every accessor gives back what the type was built from, in both representations. */
  lemma AccessorsGiveBack(size: nat, params: seq<ValType>, results: seq<ValType>)
    requires IsInlineSize(size) && |params| <= MAX_LEN_PARAMS && |results| <= MAX_LEN_RESULTS
    ensures var t := Representation(size, params, results);
      && WellFormed(t)
      && Params(t) == params && Results(t) == results
      && LenParams(t) == |params| && LenResults(t) == |results|
      && ParamsResults(t) == (params, results)
  {
  }

  /** Derived equality is equality of signatures: no signature has two representations. */
  lemma EqualIffSameSignature(size: nat, p1: seq<ValType>, r1: seq<ValType>, p2: seq<ValType>, r2: seq<ValType>)
    requires IsInlineSize(size)
    requires |p1| <= MAX_LEN_PARAMS && |r1| <= MAX_LEN_RESULTS && |p2| <= MAX_LEN_PARAMS && |r2| <= MAX_LEN_RESULTS
    ensures Representation(size, p1, r1) == Representation(size, p2, r2) <==> p1 == p2 && r1 == r2
  {
    hide Representation;
    AccessorsGiveBack(size, p1, r1);
    AccessorsGiveBack(size, p2, r2);
  }
}
