// Tables of the prelude: the generic get / set / fill / copy instantiated for
// funcref and externref tables (DEFINE_TABLE_GET, _SET, _FILL, _COPY),
// funcref_table_init with its three element origins, and externref_table_init.
//
// A table is a host array of slots of which the first `size` (a `uint32_t`)
// are the table.  Every operation checks its ranges with 64-bit sums before it
// writes, so a trap leaves the table as it was.

module Tables {
  import opened Base
  import LinearMemory
  import NatArith

  /** A pointer to a function type: NULL, or the address of a 32-byte type id. */
  datatype FuncTypeRef = NullType | TypeAt(addr: nat, id: TypeId)

  type TypeId = s: seq<Byte> | |s| == 32 witness seq(32, _ => 0 as Byte)

  /** `wasm_rt_funcref_t`: the function's type, its code pointer (0 for NULL), its
      tail-call entry and the module instance it closes over. */
  datatype FuncRef = FuncRef(funcType: FuncTypeRef, func: nat, tailcallee: nat, instance: nat)

  /** `wasm_rt_funcref_null_value`: every field NULL. */
  const NullFuncRef := FuncRef(NullType, 0, 0, 0)

  /** `wasm_rt_externref_t`: an opaque host pointer; 0 is the null reference. */
  newtype ExternRef = x: int | 0 <= x < 0x1_0000_0000_0000_0000

  const NullExternRef: ExternRef := 0

  /** A table (`wasm_rt_funcref_table_t`, `wasm_rt_externref_table_t`). */
  class Table<T> {
    var elems: array<T>
    var size: nat

    predicate Valid()
      reads this
    {
      size <= elems.Length && size < U32
    }

    /** The slots WebAssembly sees. */
    function Contents(): (r: seq<T>)
      reads this, elems
      requires Valid()
      ensures |r| == size
    {
      elems[..size]
    }

    constructor (init: seq<T>)
      requires |init| < U32
      ensures Valid() && Contents() == init && fresh(elems)
    {
      elems := new T[|init|](i requires 0 <= i < |init| => init[i]);
      size := |init|;
      new;
      assert elems[..size] == init;
    }

    /** `*_table_get`: slot i, or an out-of-bounds trap when i is not below the size. */
    function Get(i: nat): (r: Result<T>)
      reads this, elems
      requires Valid() && i < U32
      ensures r.Trap? <==> i >= size
      ensures r.Trap? ==> r.kind == OutOfBounds
      ensures r.Ok? ==> r.value == Contents()[i]
    {
      if i >= size then Trap(OutOfBounds) else Ok(elems[i])
    }

    /** `*_table_set`: slot i becomes `v`; nothing else changes. */
    method Set(i: nat, v: T) returns (r: Result<()>)
      requires Valid() && i < U32
      modifies elems
      ensures r.Trap? <==> i >= size
      ensures r.Trap? ==> r.kind == OutOfBounds && elems[..] == old(elems[..])
      ensures r.Ok? ==> Contents() == old(Contents())[i := v]
      ensures elems[size..] == old(elems[size..])
    {
      if i >= size {
        return Trap(OutOfBounds);
      }
      elems[i] := v;
      r := Ok(());
      assert elems[size..] == old(elems[size..]);
    }

    /** `*_table_fill`: after the 64-bit check `d + n <= size` the loop runs its
        `uint32_t` index from d up to the 32-bit sum d + n, which therefore does
        not wrap; slots d .. d + n become `v`. */
    method Fill(d: nat, v: T, n: nat) returns (r: Result<()>)
      requires Valid() && d < U32 && n < U32
      modifies elems
      ensures r.Trap? <==> d + n > size
      ensures r.Trap? ==> r.kind == OutOfBounds && elems[..] == old(elems[..])
      ensures r.Ok? ==> Contents() == Splice(old(Contents()), d, seq(n, _ => v))
      ensures elems[size..] == old(elems[size..])
    {
      if d + n > size {
        return Trap(OutOfBounds);
      }
      var end := (d + n) % U32;
      assert end == d + n;
      var i := d;
      while i < end
        invariant d <= i <= d + n
        invariant forall j :: 0 <= j < elems.Length && (j < d || i <= j) ==> elems[j] == old(elems[j])
        invariant forall j :: d <= j < i ==> elems[j] == v
      {
        elems[i] := v;
        i := i + 1;
      }
      r := Ok(());
      FilledContents(old(elems[..]), elems[..], size, d, n, v);
    }

    /** `*_table_copy`: both ranges are checked (destination first), then memmove
        moves the old source slots, also when `src` is this table and the ranges
        overlap. */
    method Copy(src: Table<T>, d: nat, s: nat, n: nat) returns (r: Result<()>)
      requires Valid() && src.Valid() && d < U32 && s < U32 && n < U32
      modifies elems
      ensures r.Trap? <==> d + n > size || s + n > src.size
      ensures r.Trap? ==> r.kind == OutOfBounds && elems[..] == old(elems[..])
      ensures r.Ok? ==> Contents() == Splice(old(Contents()), d, old(src.Contents())[s..s + n])
      ensures elems[size..] == old(elems[size..])
    {
      if d + n > size {
        return Trap(OutOfBounds);
      }
      if s + n > src.size {
        return Trap(OutOfBounds);
      }
      var b := src.elems[s..s + n];
      assert b == src.Contents()[s..s + n];
      ghost var before := elems[..];
      forall j | 0 <= j < n {
        elems[d + j] := b[j];
      }
      r := Ok(());
      forall j | d <= j < d + n
        ensures elems[j] == b[j - d]
      {
        assert elems[d + (j - d)] == b[j - d];
      }
      SplicedContents(before, elems[..], size, d, b);
    }
  }

  /** Slot by slot: the first `size` slots of `after` are those of `before` with
      d .. d + n set to `v`, and the slots past `size` are untouched. */
  lemma FilledContents<T>(before: seq<T>, after: seq<T>, size: nat, d: nat, n: nat, v: T)
    requires d + n <= size <= |before| == |after|
    requires forall j :: 0 <= j < |after| && (j < d || d + n <= j) ==> after[j] == before[j]
    requires forall j :: d <= j < d + n ==> after[j] == v
    ensures after[..size] == Splice(before[..size], d, seq(n, _ => v))
    ensures after[size..] == before[size..]
  {
    SpliceAt(before[..size], d, seq(n, _ => v));
  }

  /** The same for a block of slots written as a whole. */
  lemma SplicedContents<T>(before: seq<T>, after: seq<T>, size: nat, d: nat, b: seq<T>)
    requires d + |b| <= size <= |before| == |after|
    requires forall j :: 0 <= j < |after| && (j < d || d + |b| <= j) ==> after[j] == before[j]
    requires forall j :: d <= j < d + |b| ==> after[j] == b[j - d]
    ensures after[..size] == Splice(before[..size], d, b)
    ensures after[size..] == before[size..]
  {
    SpliceAt(before[..size], d, b);
  }

  /** The three origins of an element expression in a segment. */
  datatype ExprType = RefFunc | RefNull | GlobalGet

  /** `wasm_elem_segment_expr_t`. */
  datatype ElemExpr = ElemExpr(exprType: ExprType, funcType: FuncTypeRef, func: nat, tailcallee: nat, moduleOffset: nat)

  /** The funcref an element expression denotes, for a module instance at address
      `base`.  `global` gives the funcref a global holds, by the address of the
      instance field that points to it. */
  function Resolve(e: ElemExpr, base: nat, global: nat -> FuncRef): (r: FuncRef)
    ensures e.exprType == RefNull ==> r == NullFuncRef
    ensures e.exprType == RefFunc ==>
      (r.funcType == e.funcType && r.func == e.func && r.tailcallee == e.tailcallee
       && r.instance == base + e.moduleOffset)
    ensures e.exprType == GlobalGet ==> r == global(base + e.moduleOffset)
  {
    match e.exprType
    case RefFunc => FuncRef(e.funcType, e.func, e.tailcallee, base + e.moduleOffset)
    case RefNull => NullFuncRef
    case GlobalGet => global(base + e.moduleOffset)
  }

  /** The funcrefs of segment entries s .. s + n. */
  function Resolved(src: seq<ElemExpr>, s: nat, n: nat, base: nat, global: nat -> FuncRef): (r: seq<FuncRef>)
    requires s + n <= |src|
    ensures |r| == n
    ensures forall k :: 0 <= k < n ==> r[k] == Resolve(src[s + k], base, global)
  {
    seq(n, k requires 0 <= k < n => Resolve(src[s + k], base, global))
  }

  /** funcref_table_init: the segment range, then the table range, are checked;
      then slot d + i receives the funcref of segment entry s + i, for each i
      below n in turn. */
  method FuncrefTableInit(dest: Table<FuncRef>, src: seq<ElemExpr>, srcSize: nat, d: nat, s: nat, n: nat,
                          base: nat, global: nat -> FuncRef) returns (r: Result<()>)
    requires dest.Valid() && srcSize <= |src| && srcSize < U32
    requires d < U32 && s < U32 && n < U32
    modifies dest.elems
    ensures r.Trap? <==> s + n > srcSize || d + n > dest.size
    ensures r.Trap? ==> r.kind == OutOfBounds && dest.elems[..] == old(dest.elems[..])
    ensures r.Ok? ==> dest.Contents() == Splice(old(dest.Contents()), d, Resolved(src, s, n, base, global))
    ensures dest.elems[dest.size..] == old(dest.elems[dest.size..])
  {
    if s + n > srcSize {
      return Trap(OutOfBounds);
    }
    if d + n > dest.size {
      return Trap(OutOfBounds);
    }
    var i := 0;
    while i < n
      invariant 0 <= i <= n
      invariant forall j :: 0 <= j < dest.elems.Length && (j < d || d + i <= j) ==> dest.elems[j] == old(dest.elems[j])
      invariant forall j :: d <= j < d + i ==> dest.elems[j] == Resolve(src[s + (j - d)], base, global)
    {
      dest.elems[d + i] := Resolve(src[s + i], base, global);
      i := i + 1;
    }
    r := Ok(());
    SplicedContents(old(dest.elems[..]), dest.elems[..], dest.size, d, Resolved(src, s, n, base, global));
  }

  /** externref_table_init, corrected: after the two range checks, slots
      d .. d + n become the null reference (the only initialiser wasm2c accepts
      for externref tables). */
  method ExternrefTableInit(dest: Table<ExternRef>, srcSize: nat, d: nat, s: nat, n: nat) returns (r: Result<()>)
    requires dest.Valid() && srcSize < U32 && d < U32 && s < U32 && n < U32
    modifies dest.elems
    ensures r.Trap? <==> s + n > srcSize || d + n > dest.size
    ensures r.Trap? ==> r.kind == OutOfBounds && dest.elems[..] == old(dest.elems[..])
    ensures r.Ok? ==> dest.Contents() == Splice(old(dest.Contents()), d, seq(n, _ => NullExternRef))
    ensures dest.elems[dest.size..] == old(dest.elems[dest.size..])
  {
    if s + n > srcSize {
      return Trap(OutOfBounds);
    }
    r := dest.Fill(d, NullExternRef, n);
  }

  /** Size of `wasm_rt_externref_t` on a 64-bit host. */
  const ExternRefBytes: nat := 8

  /** The host bytes of an externref table on a little-endian 64-bit host. */
  function SlotBytes(t: seq<ExternRef>): (r: seq<Byte>)
    ensures |r| == ExternRefBytes * |t|
  {
    if t == [] then [] else LinearMemory.EncodeLE(t[0] as nat, ExternRefBytes) + SlotBytes(t[1..])
  }

  /** externref_table_init as written: the range checks count slots, but the
      memset clears n bytes from byte offset d of the slot array.  The result is
      the table's host bytes. */
  function ExternrefTableInitAsWritten(t: seq<ExternRef>, srcSize: nat, d: nat, s: nat, n: nat): (r: Result<seq<Byte>>)
    requires |t| < U32 && srcSize < U32 && d < U32 && s < U32 && n < U32
    ensures r.Trap? <==> s + n > srcSize || d + n > |t|
    ensures r.Ok? ==> |r.value| == ExternRefBytes * |t|
    ensures r.Ok? ==> r.value[d..d + n] == seq(n, _ => 0 as Byte)
    ensures r.Ok? ==> r.value[..d] == SlotBytes(t)[..d] && r.value[d + n..] == SlotBytes(t)[d + n..]
  {
    if s + n > srcSize then Trap(OutOfBounds)
    else if d + n > |t| then Trap(OutOfBounds)
    else Ok(Splice(SlotBytes(t), d, seq(n, _ => 0 as Byte)))
  }

  /** Initialising slot 1 of a two-slot table whose slots both hold a non-null
      reference `v` passes both checks, yet afterwards the eight bytes of slot 1
      still hold `v`: the memset cleared byte 1, which belongs to slot 0. */
  lemma ExternrefTableInitMissesSlot(v: ExternRef)
    requires v != NullExternRef
    ensures var r := ExternrefTableInitAsWritten([v, v], 1, 1, 0, 1);
      r.Ok? && r.value[1] == 0 && LinearMemory.DecodeLE(r.value[8..16]) == v as nat
  {
    var t: seq<ExternRef> := [v, v];
    var e := LinearMemory.EncodeLE(v as nat, ExternRefBytes);
    SlotPair(v, v);
    var r := ExternrefTableInitAsWritten(t, 1, 1, 0, 1);
    assert r.value == Splice(e + e, 1, [0 as Byte]);
    SpliceFar(e + e, 1, [0 as Byte], 8, 16);
    assert r.value[8..16] == e;
    StoredRef(v);
  }

  lemma SlotPair(a: ExternRef, b: ExternRef)
    ensures SlotBytes([a, b]) == LinearMemory.EncodeLE(a as nat, ExternRefBytes) + LinearMemory.EncodeLE(b as nat, ExternRefBytes)
  {
    assert [a, b][1..] == [b];
    assert SlotBytes([b]) == LinearMemory.EncodeLE(b as nat, ExternRefBytes) + SlotBytes([]);
  }

  lemma SpliceFar<T>(s: seq<T>, at: nat, b: seq<T>, i: nat, j: nat)
    requires at + |b| <= i <= j <= |s|
    ensures Splice(s, at, b)[i..j] == s[i..j]
  {
    SpliceAt(s, at, b);
  }

  lemma StoredRef(v: ExternRef)
    ensures LinearMemory.DecodeLE(LinearMemory.EncodeLE(v as nat, ExternRefBytes)) == v as nat
  {
    LinearMemory.DecodeEncode(v as nat, ExternRefBytes);
    Pow2Values();
    assert LinearMemory.ByteModulus(ExternRefBytes) == Pow2(64);
    NatArith.ModUnique(0, Pow2(64), v as nat);
  }
}
