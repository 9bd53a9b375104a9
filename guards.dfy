// Execution guards of the prelude: the function-type comparison func_types_eq,
// the check CHECK_CALL_INDIRECT that precedes every indirect call, and the
// call-depth counter maintained by FUNC_PROLOGUE / FUNC_EPILOGUE when
// WASM_RT_STACK_DEPTH_COUNT is set.

module Guards {
  import opened Base
  import opened Tables

  /** Pointer equality of two function-type pointers (`a == b` in C). */
  predicate SamePointer(a: FuncTypeRef, b: FuncTypeRef)
  {
    (a.NullType? && b.NullType?) || (a.TypeAt? && b.TypeAt? && a.addr == b.addr)
  }

  /** func_types_eq: the same pointer, or two non-null pointers whose 32-byte
      type ids compare equal under memcmp. */
  predicate FuncTypesEq(a: FuncTypeRef, b: FuncTypeRef)
  {
    SamePointer(a, b) || (a.TypeAt? && b.TypeAt? && a.id == b.id)
  }

  /** Two function types are the same type: both absent, or both present with
      the same id. */
  predicate SameType(a: FuncTypeRef, b: FuncTypeRef)
  {
    (a.NullType? && b.NullType?) || (a.TypeAt? && b.TypeAt? && a.id == b.id)
  }

  /** One address holds one type id. */
  predicate Coherent(a: FuncTypeRef, b: FuncTypeRef)
  {
    a.TypeAt? && b.TypeAt? && a.addr == b.addr ==> a.id == b.id
  }

  /** The pointer comparison is only a shortcut: when an address holds one id,
      func_types_eq holds exactly for equal types. */
  lemma FuncTypesEqMeaning(a: FuncTypeRef, b: FuncTypeRef)
    requires Coherent(a, b)
    ensures FuncTypesEq(a, b) <==> SameType(a, b)
  {
  }

  /** CHECK_CALL_INDIRECT(table, ft, x): the call goes ahead, to slot x, only when x
      is below the table size, the slot's function is not NULL and its type
      matches `ft`; every failure, an index out of range included, traps with
      CALL_INDIRECT (where table_get would trap with OOB). */
  function CheckCallIndirect(table: Table<FuncRef>, ft: FuncTypeRef, x: nat): (r: Result<FuncRef>)
    reads table, table.elems
    requires table.Valid() && x < U32
    ensures r.Trap? ==> r.kind == CallIndirect
    ensures r.Ok? <==>
      (table.Get(x).Ok? && table.Get(x).value.func != 0 && FuncTypesEq(ft, table.Get(x).value.funcType))
    ensures r.Ok? ==> r.value == table.Contents()[x]
  {
    if x < table.size && table.elems[x].func != 0 && FuncTypesEq(ft, table.elems[x].funcType)
    then Ok(table.elems[x])
    else Trap(CallIndirect)
  }

  /** With coherent type pointers, an indirect call passes the check exactly when
      slot x holds a non-null function of the expected type. */
  lemma CallIndirectTypeSafe(table: Table<FuncRef>, ft: FuncTypeRef, x: nat)
    requires table.Valid() && x < U32
    requires x < table.size ==> Coherent(ft, table.Contents()[x].funcType)
    ensures CheckCallIndirect(table, ft, x).Ok? <==>
      (x < table.size && table.Contents()[x].func != 0 && SameType(ft, table.Contents()[x].funcType))
  {
    if x < table.size {
      FuncTypesEqMeaning(ft, table.Contents()[x].funcType);
    }
  }

  /** `++wasm_rt_call_stack_depth` on the `uint32_t` counter. */
  function Enter(depth: nat): (r: nat)
    requires depth < U32
    ensures r < U32
    ensures depth + 1 < U32 ==> r == depth + 1
    ensures depth + 1 == U32 ==> r == 0
  {
    (depth + 1) % U32
  }

  /** `--wasm_rt_call_stack_depth` on the `uint32_t` counter. */
  function Leave(depth: nat): (r: nat)
    requires depth < U32
    ensures r < U32
    ensures depth > 0 ==> r == depth - 1
    ensures depth == 0 ==> r == U32 - 1
  {
    (depth + U32 - 1) % U32
  }

  /** An epilogue undoes a prologue, on every counter value. */
  lemma LeaveEnter(depth: nat)
    requires depth < U32
    ensures Leave(Enter(depth)) == depth
  {
    if depth + 1 == U32 {
      assert Enter(depth) == 0;
    }
  }

  /** FUNC_PROLOGUE as a function of the counter: the counter is incremented,
      then compared; the call proceeds at the new depth or traps. */
  function Step(depth: nat, max: nat): (r: Result<nat>)
    requires depth < U32
    ensures r.Trap? ==> r.kind == Exhaustion
  {
    if Enter(depth) > max then Trap(Exhaustion) else Ok(Enter(depth))
  }

  /** n nested prologues from counter value `depth`. */
  function Descend(depth: nat, max: nat, n: nat): (r: Result<nat>)
    requires depth < U32
    decreases n
  {
    if n == 0 then Ok(depth)
    else match Step(depth, max)
      case Trap(k) => Trap(k)
      case Ok(d) => Descend(d, max, n - 1)
  }

  /** From a depth within the limit, n nested calls succeed exactly when they stay
      within the limit, and the depth is then depth + n; a chain from 0 traps with
      EXHAUSTION iff it is longer than the limit. */
  lemma {:induction false} Nesting(depth: nat, max: nat, n: nat)
    requires depth <= max && max + 1 < U32
    ensures Descend(depth, max, n) == if depth + n <= max then Ok(depth + n) else Trap(Exhaustion)
    decreases n
  {
    if n > 0 && depth + 1 <= max {
      Nesting(depth + 1, max, n - 1);
    }
  }

  /** The counter `wasm_rt_call_stack_depth` and the limit WASM_RT_MAX_CALL_STACK_DEPTH. */
  class CallStack {
    var depth: nat
    const max: nat

    predicate Valid()
      reads this
    {
      depth < U32 && max + 1 < U32
    }

    constructor (max: nat)
      requires max + 1 < U32
      ensures Valid() && depth == 0 && this.max == max
    {
      depth := 0;
      this.max := max;
    }

    /** FUNC_PROLOGUE: the counter is incremented first, so at a trap it holds one
        more than the depth that was allowed (max + 1 when entered at max). */
    method Prologue() returns (r: Result<()>)
      requires Valid()
      modifies this
      ensures Valid() && depth == Enter(old(depth))
      ensures r.Trap? <==> Step(old(depth), max).Trap?
      ensures r.Trap? ==> r.kind == Exhaustion
      ensures old(depth) == max ==> r.Trap? && depth == max + 1
    {
      depth := (depth + 1) % U32;
      if depth > max {
        return Trap(Exhaustion);
      }
      r := Ok(());
    }

    /** FUNC_EPILOGUE: the counter is decremented. */
    method Epilogue()
      requires Valid()
      modifies this
      ensures Valid() && depth == Leave(old(depth))
    {
      depth := (depth + U32 - 1) % U32;
    }
  }
}
