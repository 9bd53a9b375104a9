// Counting leading and trailing zero bits: I32/I64_CLZ and I32/I64_CTZ.
// The GCC/Clang configuration guards the compiler builtins against a zero
// operand; the portable configuration counts with loops (IX_CTZ) and computes
// CLZ as the CTZ of the bit-reversed word (REV, IX_CLZ).

module BitCount {
  import opened Base
  import opened NatArith

  // ---------------------------------------------------------------------------
  // Reference counts on a word's binary digits, least significant first.

  /** The number of digits before the first set one; all of them when none is set. */
  function TrailingZeros(s: seq<bool>): (r: nat)
    ensures r <= |s|
    ensures forall j :: 0 <= j < r ==> !s[j]
    ensures r < |s| ==> s[r]
  {
    if s == [] then 0
    else if s[0] then 0
    else 1 + TrailingZeros(s[1..])
  }

  /** The number of clear digits above the highest set one. */
  function LeadingZeros(s: seq<bool>): nat
  {
    TrailingZeros(Reverse(s))
  }

  /** A position before which no digit is set and at which one is set is the trailing-zero count. */
  lemma TrailingZerosUnique(s: seq<bool>, r: nat)
    requires r <= |s|
    requires forall j :: 0 <= j < r ==> !s[j]
    requires r < |s| ==> s[r]
    ensures TrailingZeros(s) == r
  {
  }

  lemma TrailingZerosAppend(a: seq<bool>, b: bool)
    ensures TrailingZeros(a + [b]) ==
      if TrailingZeros(a) < |a| then TrailingZeros(a)
      else if b then |a| else |a| + 1
  {
    var s := a + [b];
    var t := TrailingZeros(a);
    if t < |a| {
      TrailingZerosUnique(s, t);
    } else if b {
      TrailingZerosUnique(s, |a|);
    } else {
      TrailingZerosUnique(s, |a| + 1);
    }
  }

  // ---------------------------------------------------------------------------
  // The GCC/Clang configuration.

  /** `__builtin_ctz`: the index of the lowest set bit; its result for 0 is undefined. */
  function BuiltinCtz(x: nat): nat
    requires x != 0
  {
    if x % 2 == 1 then 0 else 1 + BuiltinCtz(x / 2)
  }

  /** The number of binary digits up to and including the highest set one. */
  function BitLength(x: nat): nat
  {
    if x == 0 then 0 else 1 + BitLength(x / 2)
  }

  /** `__builtin_clz` / `__builtin_clzll`: the number of clear bits above the highest set
      bit of a word; its result for 0 is undefined. */
  function BuiltinClz(w: Width, x: nat): nat
    requires IsWord(w, x) && x != 0
  {
    BitLengthBound(x, Bits(w));
    Bits(w) - BitLength(x)
  }

  /** I32_CTZ / I64_CTZ: `x ? __builtin_ctz(x) : bits`.  It counts the clear digits
      below the lowest set digit, and the zero word has all of them clear. */
  function Ctz(w: Width, x: nat): (r: nat)
    requires IsWord(w, x)
    ensures r == TrailingZeros(ToBits(x, Bits(w)))
  {
    TrailingZerosOfWord(x, Bits(w));
    if x == 0 then Bits(w) else BuiltinCtz(x)
  }

  /** I32_CLZ / I64_CLZ: `x ? __builtin_clz(x) : bits`.  It counts the clear digits
      above the highest set digit, and the zero word has all of them clear. */
  function Clz(w: Width, x: nat): (r: nat)
    requires IsWord(w, x)
    ensures r == LeadingZeros(ToBits(x, Bits(w)))
  {
    LeadingZerosOfWord(x, Bits(w));
    if x == 0 then Bits(w) else BuiltinClz(w, x)
  }

  lemma {:induction false} BitLengthBound(x: nat, n: nat)
    requires x < Pow2(n)
    ensures BitLength(x) <= n
    decreases n
  {
    if n > 0 && x != 0 {
      BitLengthBound(x / 2, n - 1);
    }
  }

  lemma {:induction false} TrailingZerosOfWord(x: nat, n: nat)
    requires x < Pow2(n)
    ensures x == 0 ==> TrailingZeros(ToBits(x, n)) == n
    ensures x != 0 ==> TrailingZeros(ToBits(x, n)) == BuiltinCtz(x)
    decreases n
  {
    if n > 0 {
      TrailingZerosOfWord(x / 2, n - 1);
      assert ToBits(x, n)[1..] == ToBits(x / 2, n - 1);
    }
  }

  lemma {:induction false} LeadingZerosOfWord(x: nat, n: nat)
    requires x < Pow2(n)
    ensures BitLength(x) <= n
    ensures LeadingZeros(ToBits(x, n)) == n - BitLength(x)
    decreases n
  {
    BitLengthBound(x, n);
    if n > 0 {
      var b := x % 2 == 1;
      var t := ToBits(x / 2, n - 1);
      assert Reverse(ToBits(x, n)) == Reverse(t) + [b] by {
        assert ToBits(x, n)[1..] == t;
      }
      LeadingZerosOfWord(x / 2, n - 1);
      TrailingZerosAppend(Reverse(t), b);
      if x / 2 == 0 {
        assert TrailingZeros(Reverse(t)) == n - 1;
        assert BitLength(x) == (if b then 1 else 0);
      } else {
        assert BitLength(x) == 1 + BitLength(x / 2);
      }
    }
  }

  // ---------------------------------------------------------------------------
  // The portable configuration.

  /** IX_CTZ: test the low bit, shift right, up to `bits` times. */
  method CtzPortable(w: Width, x: nat) returns (i: nat)
    requires IsWord(w, x)
    ensures i == Ctz(w, x)
  {
    var n := Bits(w);
    ghost var s := ToBits(x, n);
    var v := x;
    i := 0;
    while i < n
      invariant i <= n
      invariant ToBits(v, n - i) == s[i..]
      invariant forall j :: 0 <= j < i ==> !s[j]
    {
      BitAndLowMask(v, 1);
      if BitAnd(v, 1) == 1 {
        break;
      }
      assert ToBits(v, n - i)[1..] == ToBits(v / 2, n - i - 1);
      v := ShiftRight(v, 1);
      i := i + 1;
    }
    TrailingZerosUnique(s, i);
  }

  /** One pass of the REV loop as written: `r <<= 1; if (x & 1) r |= 1; i >>= 1;`, followed
      by the `i++` of the `for` statement. The word `x` is never shifted, and a counter
      at 0 or 1 comes back as 1. */
  function RevStepAsWritten(w: Width, x: nat, r: nat, i: nat): (p: (nat, nat))
    requires IsWord(w, x) && IsWord(w, r)
    ensures IsWord(w, p.0)
    ensures i <= 1 ==> p.1 == 1
    ensures 2 <= i ==> p.1 <= i
  {
    var r1 := ShiftLeft(w, r, 1);
    var r2 := if BitAnd(x, 1) == 1 then BitOr(r1, 1) else r1;
    // `r |= 1` assigns back to the unsigned type of `r`.
    (r2 % Modulus(w), i / 2 + 1)
  }

  /** The REV loop as written, run for at most `fuel` passes: `Some(r)` when the loop
      condition `i < bits` fails within that many passes, `None` otherwise. */
  function RevAsWritten(w: Width, x: nat, r: nat, i: nat, fuel: nat): (o: Option<nat>)
    requires IsWord(w, x) && IsWord(w, r)
    ensures o.Some? ==> IsWord(w, o.value)
    ensures o.Some? && i < Bits(w) ==> fuel > 0
    decreases fuel
  {
    if !(i < Bits(w)) then Some(r)
    else if fuel == 0 then None
    else
      var (r', i') := RevStepAsWritten(w, x, r, i);
      RevAsWritten(w, x, r', i', fuel - 1)
  }

  datatype Option<T> = None | Some(value: T)

  /** The REV loop as written never exits: `i >>= 1` halves the counter that `i++` then
      increments, so from 0 it only ever takes the values 0 and 1, below every width. */
  lemma {:induction false} RevAsWrittenDiverges(w: Width, x: nat, r: nat, i: nat, fuel: nat)
    requires IsWord(w, x) && IsWord(w, r) && i <= 1
    ensures RevAsWritten(w, x, r, i, fuel) == None
    decreases fuel
  {
    if fuel > 0 {
      var (r', i') := RevStepAsWritten(w, x, r, i);
      assert i' == 1;
      RevAsWrittenDiverges(w, x, r', i', fuel - 1);
    }
  }

  /** REV with the loop shifting the word (`x >>= 1`) as evidently intended: the result
      holds the digits of `x` in reverse order. */
  method Rev(w: Width, x: nat) returns (r: nat)
    requires IsWord(w, x)
    ensures IsWord(w, r)
    ensures ToBits(r, Bits(w)) == Reverse(ToBits(x, Bits(w)))
  {
    var n := Bits(w);
    ghost var s := ToBits(x, n);
    var v := x;
    r := 0;
    var i := 0;
    while i < n
      invariant i <= n
      invariant ToBits(v, n - i) == s[i..]
      invariant r < Pow2(i)
      invariant ToBits(r, i) == Reverse(s[..i])
    {
      RevStep(w, s, v, r, i);
      r := ShiftLeft(w, r, 1);
      if BitAnd(v, 1) == 1 {
        r := BitOr(r, 1);
      }
      v := ShiftRight(v, 1);
      i := i + 1;
    }
    assert s[..n] == s;
  }

  /** One pass of the corrected REV loop keeps its invariant: `v` holds the digits not yet
      consumed and `r` the consumed ones in reverse order. */
  lemma RevStep(w: Width, s: seq<bool>, v: nat, r: nat, i: nat)
    requires |s| == Bits(w) && i < Bits(w)
    requires ToBits(v, Bits(w) - i) == s[i..]
    requires r < Pow2(i) && ToBits(r, i) == Reverse(s[..i])
    ensures var r1 := ShiftLeft(w, r, 1);
      var r2 := if BitAnd(v, 1) == 1 then BitOr(r1, 1) else r1;
      && ToBits(ShiftRight(v, 1), Bits(w) - (i + 1)) == s[i + 1..]
      && r2 < Pow2(i + 1)
      && ToBits(r2, i + 1) == Reverse(s[..i + 1])
  {
    PushLowDigit(w, v, r, i);
    MoveDigit(s, v, r, i, Bits(w));
  }

  /** Moving the low digit of `v` below the digits of `r` advances the REV invariant
      by one digit. */
  lemma MoveDigit(s: seq<bool>, v: nat, r: nat, i: nat, n: nat)
    requires |s| == n && i < n
    requires ToBits(v, n - i) == s[i..]
    requires r < Pow2(i) && ToBits(r, i) == Reverse(s[..i])
    ensures ToBits(v / 2, n - (i + 1)) == s[i + 1..]
    ensures 2 * r + v % 2 < Pow2(i + 1)
    ensures ToBits(2 * r + v % 2, i + 1) == Reverse(s[..i + 1])
  {
    ToBitsDouble(r, v % 2, i);
    assert ToBits(v, n - i)[1..] == ToBits(v / 2, n - i - 1);
    assert s[i] == (v % 2 == 1);
    assert s[..i + 1] == s[..i] + [s[i]];
    ReverseSnoc(s[..i], s[i]);
  }

  /** `r << 1`, then `| 1` when the low bit of `v` is set: the low digit of `v` appended
      below the digits of `r`, with no wrap-around while `r` has fewer than `bits` digits. */
  lemma PushLowDigit(w: Width, v: nat, r: nat, i: nat)
    requires i < Bits(w) && r < Pow2(i)
    ensures ShiftRight(v, 1) == v / 2
    ensures var r1 := ShiftLeft(w, r, 1);
      (if BitAnd(v, 1) == 1 then BitOr(r1, 1) else r1) == 2 * r + v % 2
  {
    LowBit(v);
    DoubleNoWrap(w, r, i);
    SetLowBit(r);
  }

  lemma LowBit(v: nat)
    ensures ShiftRight(v, 1) == v / 2
    ensures BitAnd(v, 1) == v % 2
  {
    assert Pow2(1) == 2;
    BitAndLowMask(v, 1);
  }

  lemma DoubleNoWrap(w: Width, r: nat, i: nat)
    requires i < Bits(w) && r < Pow2(i)
    ensures ShiftLeft(w, r, 1) == 2 * r
  {
    DoubleBelow(r, i, Bits(w));
    ModSmall(2 * r, Modulus(w));
    Pow2One();
    assert r * Pow2(1) == 2 * r;
  }

  lemma SetLowBit(r: nat)
    ensures BitOr(2 * r, 1) == 2 * r + 1
  {
    assert Pow2(1) == 2;
    BitOrDisjoint(r, 1, 1);
  }

  lemma ToBitsDouble(r: nat, c: nat, i: nat)
    requires r < Pow2(i) && c < 2
    ensures 2 * r + c < Pow2(i + 1)
    ensures ToBits(2 * r + c, i + 1) == [c == 1] + ToBits(r, i)
  {
    MulDivExact(r, c, 2);
  }

  lemma ReverseSnoc(a: seq<bool>, b: bool)
    ensures Reverse(a + [b]) == [b] + Reverse(a)
  {
  }

  /** IX_CLZ: the trailing-zero count of the reversed word is the leading-zero count. */
  method ClzPortable(w: Width, x: nat) returns (c: nat)
    requires IsWord(w, x)
    ensures c == Clz(w, x)
  {
    var r := Rev(w, x);
    c := CtzPortable(w, r);
  }
}
