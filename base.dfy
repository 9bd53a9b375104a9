// Shared vocabulary of the wasm2c runtime prelude: trap kinds, the result of an
// operation that may trap, the two integer widths and powers of two.

module Base {

  /** The reasons for which generated code traps (the `WASM_RT_TRAP_*` codes used by the prelude). */
  datatype TrapKind =
    | OutOfBounds      // WASM_RT_TRAP_OOB
    | IntOverflow      // WASM_RT_TRAP_INT_OVERFLOW
    | DivByZero        // WASM_RT_TRAP_DIV_BY_ZERO
    | Unreachable      // WASM_RT_TRAP_UNREACHABLE
    | CallIndirect     // WASM_RT_TRAP_CALL_INDIRECT
    | Exhaustion       // WASM_RT_TRAP_EXHAUSTION

  /** An operation either produces a value or raises a trap (the `TRAP` macro never returns). */
  datatype Result<+T> = Ok(value: T) | Trap(kind: TrapKind)

  /** A host byte (`u8`). */
  newtype Byte = x: int | 0 <= x < 0x100

  /** One more than the largest `uint32_t` and `uint64_t`. */
  const U32: nat := 0x1_0000_0000
  const U64: nat := 0x1_0000_0000_0000_0000

  /** `s` read from the other end: a byte block in the opposite order, or a digit
      sequence with the most significant digit first. */
  function Reverse<T>(s: seq<T>): (r: seq<T>)
    ensures |r| == |s|
    ensures forall i :: 0 <= i < |s| ==> r[i] == s[|s| - 1 - i]
  {
    if s == [] then [] else Reverse(s[1..]) + [s[0]]
  }

  /** `s` with the run starting at `at` overwritten by `b`: the state after a
      memset, memcpy or memmove, or a slot-by-slot write loop. */
  function Splice<T>(s: seq<T>, at: nat, b: seq<T>): (r: seq<T>)
    requires at + |b| <= |s|
    ensures |r| == |s|
  {
    s[..at] + b + s[at + |b|..]
  }

  /** A splice changes exactly the run at .. at + |b|. */
  lemma SpliceAt<T>(s: seq<T>, at: nat, b: seq<T>)
    requires at + |b| <= |s|
    ensures forall i :: 0 <= i < |s| ==> Splice(s, at, b)[i] == if at <= i < at + |b| then b[i - at] else s[i]
  {
  }

  /** A splice that ends below `size` is a splice of the first `size` elements and
      leaves the rest alone. */
  lemma SpliceBelow<T>(s: seq<T>, at: nat, b: seq<T>, size: nat)
    requires at + |b| <= size <= |s|
    ensures Splice(s, at, b)[..size] == Splice(s[..size], at, b)
    ensures Splice(s, at, b)[size..] == s[size..]
  {
    var t := Splice(s, at, b);
    assert t[..size] == s[..at] + b + s[at + |b|..size];
    assert t[size..] == s[size..];
  }

  /** A second splice over the same run replaces the first. */
  lemma SpliceTwice<T>(s: seq<T>, at: nat, b: seq<T>, c: seq<T>)
    requires at + |b| <= |s| && |c| == |b|
    ensures Splice(Splice(s, at, b), at, c) == Splice(s, at, c)
  {
    var t := Splice(s, at, b);
    assert t[..at] == s[..at] && t[at + |b|..] == s[at + |b|..];
  }

  /** Reading the run back gives `b`. */
  lemma SpliceRun<T>(s: seq<T>, at: nat, b: seq<T>)
    requires at + |b| <= |s|
    ensures Splice(s, at, b)[at..at + |b|] == b
  {
    assert Splice(s, at, b)[at..at + |b|] == (s[..at] + b + s[at + |b|..])[at..at + |b|];
  }

  /** The two integer widths of WebAssembly: i32/u32 and i64/u64. */
  datatype Width = W32 | W64

  function Bits(w: Width): (r: nat)
    ensures r == 32 || r == 64
  {
    match w
    case W32 => 32
    case W64 => 64
  }

  function Pow2(n: nat): (r: nat)
    ensures r >= 1
  {
    if n == 0 then 1 else 2 * Pow2(n - 1)
  }

  /** 2^bits: the unsigned values of a width are exactly 0 .. Modulus(w) - 1. */
  function Modulus(w: Width): nat
  {
    Pow2(Bits(w))
  }

  /** An unsigned machine word of width `w`, as C's `uint32_t` / `uint64_t` holds it. */
  predicate IsWord(w: Width, x: int)
  {
    0 <= x < Modulus(w)
  }

  lemma {:induction false} Pow2Add(a: nat, b: nat)
    ensures Pow2(a + b) == Pow2(a) * Pow2(b)
    decreases a
  {
    if a > 0 {
      Pow2Add(a - 1, b);
      assert Pow2(a + b) == 2 * Pow2(a - 1 + b);
    }
  }

  /** 2^n splits as 2^(n - k) * 2^k. */
  lemma Pow2Split(n: nat, k: nat)
    requires k <= n
    ensures Pow2(n) == Pow2(n - k) * Pow2(k)
  {
    Pow2Add(n - k, k);
  }

  lemma {:induction false} Pow2Monotone(a: nat, b: nat)
    requires a <= b
    ensures Pow2(a) <= Pow2(b)
    decreases b
  {
    if a < b {
      Pow2Monotone(a, b - 1);
    }
  }

  lemma Pow2One()
    ensures Pow2(1) == 2
  {
    assert Pow2(0) == 1;
  }

  /** Doubling a number of i digits gives one of at most n > i digits. */
  lemma DoubleBelow(r: nat, i: nat, n: nat)
    requires i < n && r < Pow2(i)
    ensures 2 * r < Pow2(n)
  {
    assert Pow2(i + 1) == 2 * Pow2(i);
    Pow2Monotone(i + 1, n);
  }

  lemma Pow2Values()
    ensures Pow2(8) == 0x100
    ensures Pow2(16) == 0x1_0000
    ensures Pow2(32) == 0x1_0000_0000
    ensures Pow2(64) == 0x1_0000_0000_0000_0000
  {
    assert Pow2(8) == 0x100;
    Pow2Add(8, 8);
    Pow2Add(16, 16);
    Pow2Add(32, 32);
  }
}
