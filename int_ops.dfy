// The integer operators of the prelude that can trap or that are written with
// shifts: I32/I64_DIV_S, REM_S, DIV_U, REM_U and I32/I64_ROTL, ROTR.
// A word of width w is a natural below 2^w, as the C types uint32_t and
// uint64_t hold it; the signed operand is its two's-complement reading.

module IntOps {
  import opened Base
  import opened NatArith

  function Half(w: Width): (r: int)
    ensures r > 0 && Modulus(w) == 2 * r
  {
    Pow2(Bits(w) - 1)
  }

  /** The value of INT32_MIN / INT64_MIN as an unsigned word. */
  function MinSigned(w: Width): nat
  {
    Half(w)
  }

  /** The value of -1 as an unsigned word (all bits set). */
  function AllOnes(w: Width): nat
  {
    Modulus(w) - 1
  }

  /** Two's-complement reading of a word: the cast from uint to int. */
  function Signed(w: Width, x: nat): (r: int)
    requires IsWord(w, x)
    ensures -Half(w) <= r < Half(w)
    ensures x < Half(w) ==> r == x
  {
    if x < Half(w) then x else x - Modulus(w)
  }

  /** Cast from a mathematical integer to an unsigned word: reduction modulo 2^w. */
  function Unsigned(w: Width, v: int): (r: nat)
    ensures IsWord(w, r)
  {
    v % Modulus(w)
  }

  lemma SignedUnsigned(w: Width, v: int)
    requires -Half(w) <= v < Half(w)
    ensures Signed(w, Unsigned(w, v)) == v
  {
    if v < 0 {
      ModUnique(-1, Modulus(w), v + Modulus(w));
    } else {
      ModUnique(0, Modulus(w), v);
    }
  }

  lemma UnsignedSigned(w: Width, x: nat)
    requires IsWord(w, x)
    ensures Unsigned(w, Signed(w, x)) == x
  {
    if x < Half(w) {
      ModUnique(0, Modulus(w), x);
    } else {
      ModUnique(-1, Modulus(w), x);
    }
  }

  function Abs(v: int): nat
  {
    if v < 0 then -v else v
  }

  /** C's `/` on signed integers: the quotient rounded toward zero. */
  function TruncDiv(a: int, b: int): int
    requires b != 0
  {
    if (a < 0) == (b < 0) then Abs(a) / Abs(b) else -(Abs(a) / Abs(b))
  }

  /** C's `%` on signed integers: the remainder takes the sign of the dividend. */
  function TruncRem(a: int, b: int): int
    requires b != 0
  {
    if a < 0 then -(Abs(a) % Abs(b)) else Abs(a) % Abs(b)
  }

  /** The C rules for `/` and `%`: `(a/b)*b + a%b == a`, `|a%b| < |b|`, and the quotient
      never exceeds the dividend in magnitude. */
  lemma TruncDivRem(a: int, b: int)
    requires b != 0
    ensures b * TruncDiv(a, b) + TruncRem(a, b) == a
    ensures Abs(TruncRem(a, b)) < Abs(b)
    ensures Abs(TruncDiv(a, b)) <= Abs(a)
    ensures Abs(b) * Abs(TruncDiv(a, b)) <= Abs(a)
  {
    var q, r := Abs(a) / Abs(b), Abs(a) % Abs(b);
    DivModNat(Abs(a), Abs(b));
    if b < 0 {
      NegateFactor(Abs(b), q);
      assert b * q == -(Abs(b) * q) && b * -q == Abs(b) * q;
    }
  }

  /** Division of naturals: the quotient and remainder recombine, and neither exceeds
      the dividend. */
  lemma DivModNat(x: nat, y: nat)
    requires y > 0
    ensures x == y * (x / y) + x % y && 0 <= x % y < y
    ensures 0 <= x / y <= x && y * (x / y) <= x
  {
    var q := x / y;
    assert x == y * q + x % y;
    DivNonNegative(x, y);
    if q > 0 {
      MulAtLeast(q, y);
      assert y * q == q * y;
    }
  }

  /** Negating one factor negates the product. */
  lemma NegateFactor(m: int, q: int)
    ensures (-m) * q == -(m * q) && (-m) * -q == m * q
  {
  }

  /** DIV_S: signed division, trapping on a zero divisor and on INT_MIN / -1.
      Otherwise the truncated quotient is representable, so the result reads back as it. */
  function DivS(w: Width, x: nat, y: nat): (r: Result<nat>)
    requires IsWord(w, x) && IsWord(w, y)
    ensures y == 0 <==> r == Trap(DivByZero)
    ensures r == Trap(IntOverflow) <==> y != 0 && x == MinSigned(w) && y == AllOnes(w)
    ensures r.Ok? ==> IsWord(w, r.value) && Signed(w, r.value) == TruncDiv(Signed(w, x), Signed(w, y))
    ensures r.Trap? ==> r.kind == DivByZero || r.kind == IntOverflow
  {
    if y == 0 then Trap(DivByZero)
    else if x == MinSigned(w) && y == AllOnes(w) then Trap(IntOverflow)
    else
      var q := TruncDiv(Signed(w, x), Signed(w, y));
      QuotientFits(w, x, y);
      SignedUnsigned(w, q);
      Ok(Unsigned(w, q))
  }

  /** The only signed quotient that is not representable is INT_MIN / -1. */
  lemma QuotientFits(w: Width, x: nat, y: nat)
    requires IsWord(w, x) && IsWord(w, y) && y != 0
    requires !(x == MinSigned(w) && y == AllOnes(w))
    ensures -Half(w) <= TruncDiv(Signed(w, x), Signed(w, y)) < Half(w)
  {
    var a, b := Signed(w, x), Signed(w, y);
    assert a == -Half(w) ==> x == MinSigned(w);
    assert b == -1 ==> y == AllOnes(w);
    QuotientBound(a, b, Half(w));
  }

  lemma QuotientBound(a: int, b: int, h: int)
    requires h > 0 && -h <= a < h && b != 0
    requires !(a == -h && b == -1)
    ensures -h <= TruncDiv(a, b) < h
  {
    var q := TruncDiv(a, b);
    TruncDivRem(a, b);
    if q == h {
      assert false;
    }
  }

  /** REM_S: signed remainder, trapping only on a zero divisor; INT_MIN % -1 gives 0 without
      dividing, and that is exactly the mathematical remainder. */
  function RemS(w: Width, x: nat, y: nat): (r: Result<nat>)
    requires IsWord(w, x) && IsWord(w, y)
    ensures y == 0 <==> r == Trap(DivByZero)
    ensures r.Ok? ==> IsWord(w, r.value) && Signed(w, r.value) == TruncRem(Signed(w, x), Signed(w, y))
    ensures r.Trap? ==> r.kind == DivByZero
  {
    if y == 0 then Trap(DivByZero)
    else if x == MinSigned(w) && y == AllOnes(w) then
      MinRemMinusOne(w);
      Ok(0)
    else
      var rem := TruncRem(Signed(w, x), Signed(w, y));
      TruncDivRem(Signed(w, x), Signed(w, y));
      SignedUnsigned(w, rem);
      Ok(Unsigned(w, rem))
  }

  lemma MinRemMinusOne(w: Width)
    ensures Signed(w, MinSigned(w)) == -Half(w)
    ensures Signed(w, AllOnes(w)) == -1
    ensures TruncRem(-Half(w), -1) == 0
  {
  }

  /** DIV_U: unsigned division, trapping on a zero divisor. */
  function DivU(w: Width, x: nat, y: nat): (r: Result<nat>)
    requires IsWord(w, x) && IsWord(w, y)
    ensures y == 0 <==> r == Trap(DivByZero)
    ensures r.Ok? ==> r.value <= x && r.value == x / y
  {
    if y == 0 then Trap(DivByZero) else DivAtMost(x, y); Ok(x / y)
  }

  /** REM_U: unsigned remainder, trapping on a zero divisor. */
  function RemU(w: Width, x: nat, y: nat): (r: Result<nat>)
    requires IsWord(w, x) && IsWord(w, y)
    ensures y == 0 <==> r == Trap(DivByZero)
    ensures r.Ok? ==> r.value < y && r.value <= x
  {
    if y == 0 then Trap(DivByZero) else DivAtMost(x, y); Ok(x % y)
  }

  /** Signed quotient and remainder recombine to the dividend: y * (x / y) + x % y == x. */
  lemma DivRemS(w: Width, x: nat, y: nat)
    requires IsWord(w, x) && IsWord(w, y)
    requires DivS(w, x, y).Ok?
    ensures RemS(w, x, y).Ok?
    ensures Signed(w, y) * Signed(w, DivS(w, x, y).value) + Signed(w, RemS(w, x, y).value) == Signed(w, x)
  {
    TruncDivRem(Signed(w, x), Signed(w, y));
  }

  /** Unsigned quotient and remainder recombine to the dividend. */
  lemma DivRemU(w: Width, x: nat, y: nat)
    requires IsWord(w, x) && IsWord(w, y) && y != 0
    ensures DivU(w, x, y).Ok? && RemU(w, x, y).Ok?
    ensures y * DivU(w, x, y).value + RemU(w, x, y).value == x
  {
    DivModNat(x, y);
  }

  // ---------------------------------------------------------------------------
  // Rotations, written with the shifts and bitwise operators of NatArith.

  /** The mask 31 or 63 that reduces a rotation count. */
  function CountMask(w: Width): nat
  {
    Bits(w) - 1
  }

  /** ROTL as written: `(x << (y & mask)) | (x >> ((mask - y + 1) & mask))`, where
      `mask - y + 1` is computed in the unsigned type and so wraps. */
  function Rotl(w: Width, x: nat, y: nat): (r: nat)
    requires IsWord(w, x) && IsWord(w, y)
    ensures IsWord(w, r)
    ensures ToBits(r, Bits(w)) == RotateDigits(ToBits(x, Bits(w)), y % Bits(w))
  {
    var m := CountMask(w);
    var v := BitOr(ShiftLeft(w, x, BitAnd(y, m)), ShiftRight(x, BitAnd(Unsigned(w, m - y + 1), m)));
    RotlCorrect(w, x, y, m, v);
    v
  }

  /** ROTR as written: `(x >> (y & mask)) | (x << ((mask - y + 1) & mask))`. */
  function Rotr(w: Width, x: nat, y: nat): (r: nat)
    requires IsWord(w, x) && IsWord(w, y)
    ensures IsWord(w, r)
    ensures ToBits(r, Bits(w)) == RotateDigits(ToBits(x, Bits(w)), (Bits(w) - y % Bits(w)) % Bits(w))
  {
    var m := CountMask(w);
    var v := BitOr(ShiftRight(x, BitAnd(y, m)), ShiftLeft(w, x, BitAnd(Unsigned(w, m - y + 1), m)));
    RotrCorrect(w, x, y, m, v);
    v
  }

  /** Rotating a word left by k moves digit i to position (i + k) mod n; with the digits
      listed least significant first, the top k digits come round to the front. */
  function RotateDigits(s: seq<bool>, k: nat): (r: seq<bool>)
    requires k <= |s|
    ensures |r| == |s|
    ensures forall i :: 0 <= i < |s| - k ==> r[i + k] == s[i]
    ensures forall i :: |s| - k <= i < |s| ==> r[i - (|s| - k)] == s[i]
  {
    s[|s| - k..] + s[..|s| - k]
  }

  lemma CountMaskLog(w: Width) returns (e: nat, c: nat)
    ensures Bits(w) == Pow2(e) && CountMask(w) == Pow2(e) - 1
    ensures c > 0 && Modulus(w) == Bits(w) * c
  {
    e := if w == W32 then 5 else 6;
    assert Pow2(5) == 32 && Pow2(6) == 64;
    c := Pow2(Bits(w) - e);
    Pow2Add(e, Bits(w) - e);
  }

  /** The two shift counts of a rotation: `y & mask` is `y mod n`, and the wrapped
      `(mask - y + 1) & mask` is the complementary count `(n - y mod n) mod n`. */
  lemma ShiftCounts(w: Width, y: nat)
    requires IsWord(w, y)
    ensures BitAnd(y, CountMask(w)) == y % Bits(w)
    ensures BitAnd(Unsigned(w, CountMask(w) - y + 1), CountMask(w)) == (Bits(w) - y % Bits(w)) % Bits(w)
    ensures y % Bits(w) == 0 ==> (Bits(w) - y % Bits(w)) % Bits(w) == 0
    ensures y % Bits(w) != 0 ==> (Bits(w) - y % Bits(w)) % Bits(w) == Bits(w) - y % Bits(w)
  {
    var e, c := CountMaskLog(w);
    BitAndLowMask(y, e);
    BitAndLowMask(Unsigned(w, Bits(w) - y), e);
    ComplementMod(y, Bits(w), c);
  }

  /** A rotation by 0 < k < n: with x = hi * 2^(n-k) + lo, the left shift by k keeps
      lo * 2^k and the right shift by n - k brings hi down, so their OR (in either order)
      is lo * 2^k + hi, whose digits are those of x rotated by k. */
  lemma SplitShifts(w: Width, x: nat, k: nat)
    requires IsWord(w, x) && 0 < k < Bits(w)
    ensures var v := BitOr(ShiftLeft(w, x, k), ShiftRight(x, Bits(w) - k));
      && v == BitOr(ShiftRight(x, Bits(w) - k), ShiftLeft(w, x, k))
      && IsWord(w, v)
      && ToBits(v, Bits(w)) == RotateDigits(ToBits(x, Bits(w)), k)
  {
    var hi, lo := ShiftHalves(w, x, k);
    OrHalves(ShiftLeft(w, x, k), ShiftRight(x, Bits(w) - k), lo, hi, k);
    RotatedDigits(w, x, k, hi, lo);
  }

  /** `x` splits at digit n - k into `hi` (k digits) and `lo` (n - k digits). */
  predicate Halves(w: Width, x: nat, k: nat, hi: nat, lo: nat)
  {
    0 < k < Bits(w) && lo < Pow2(Bits(w) - k) && hi < Pow2(k) && x == Join(hi, lo, Bits(w) - k)
  }

  /** The two shifts of a rotation by 0 < k < n cut x into its halves: the left shift
      keeps lo * 2^k and the right shift brings hi down. */
  lemma ShiftHalves(w: Width, x: nat, k: nat) returns (hi: nat, lo: nat)
    requires IsWord(w, x) && 0 < k < Bits(w)
    ensures Halves(w, x, k, hi, lo)
    ensures ShiftLeft(w, x, k) == lo * Pow2(k) && ShiftRight(x, Bits(w) - k) == hi
    ensures Join(lo, hi, k) < Modulus(w)
  {
    hi, lo := CutDigits(x, Bits(w), k);
  }

  /** The OR of the two halves, in either order, is their sum. */
  lemma OrHalves(l: nat, r: nat, lo: nat, hi: nat, k: nat)
    requires l == lo * Pow2(k) && r == hi < Pow2(k)
    ensures BitOr(l, r) == Join(lo, hi, k) && BitOr(r, l) == Join(lo, hi, k)
  {
    BitOrDisjoint(lo, hi, k);
  }

  /** Moving the high k digits below the rest rotates the digit sequence by k. */
  lemma RotatedDigits(w: Width, x: nat, k: nat, hi: nat, lo: nat)
    requires Halves(w, x, k, hi, lo)
    ensures ToBits(Join(lo, hi, k), Bits(w)) == RotateDigits(ToBits(x, Bits(w)), k)
  {
    var n := Bits(w);
    ToBitsConcat(hi, lo, n - k, n);
    ToBitsConcat(lo, hi, k, n);
    RotateConcat(ToBits(lo, n - k), ToBits(hi, k));
  }

  /** Rotating `a + b` by |b| brings `b` to the bottom. */
  lemma RotateConcat(a: seq<bool>, b: seq<bool>)
    ensures RotateDigits(a + b, |b|) == b + a
  {
    var s, r := a + b, RotateDigits(a + b, |b|);
    forall i | 0 <= i < |s|
      ensures r[i] == (b + a)[i]
    {
      if i < |b| {
        assert r[i] == s[i + |a|];
      } else {
        assert r[i] == s[i - |b|];
      }
    }
  }

  lemma ShiftNone(w: Width, x: nat)
    requires IsWord(w, x)
    ensures ShiftLeft(w, x, 0) == x && ShiftRight(x, 0) == x && BitOr(x, x) == x
    ensures RotateDigits(ToBits(x, Bits(w)), 0) == ToBits(x, Bits(w))
  {
    ShiftLeftZero(w, x);
    ShiftRightZero(x);
    BitOrSelf(x);
  }

  /** Shifting left by k and right by the complementary count rotates by k, whichever
      operand of the OR comes first; a count of 0 makes both shifts the identity. */
  lemma RotateBy(w: Width, x: nat, k: nat, j: nat)
    requires IsWord(w, x)
    requires (k == 0 && j == 0) || (0 < k < Bits(w) && j == Bits(w) - k)
    ensures var v := BitOr(ShiftLeft(w, x, k), ShiftRight(x, j));
      && v == BitOr(ShiftRight(x, j), ShiftLeft(w, x, k))
      && IsWord(w, v)
      && ToBits(v, Bits(w)) == RotateDigits(ToBits(x, Bits(w)), k)
  {
    if k == 0 {
      ShiftNone(w, x);
    } else {
      SplitShifts(w, x, k);
    }
  }

  lemma RotlCorrect(w: Width, x: nat, y: nat, m: nat, v: nat)
    requires IsWord(w, x) && IsWord(w, y) && m == CountMask(w)
    requires v == BitOr(ShiftLeft(w, x, BitAnd(y, m)), ShiftRight(x, BitAnd(Unsigned(w, m - y + 1), m)))
    ensures IsWord(w, v) && ToBits(v, Bits(w)) == RotateDigits(ToBits(x, Bits(w)), y % Bits(w))
  {
    ShiftCounts(w, y);
    RotateBy(w, x, BitAnd(y, m), BitAnd(Unsigned(w, m - y + 1), m));
  }

  lemma RotrCorrect(w: Width, x: nat, y: nat, m: nat, v: nat)
    requires IsWord(w, x) && IsWord(w, y) && m == CountMask(w)
    requires v == BitOr(ShiftRight(x, BitAnd(y, m)), ShiftLeft(w, x, BitAnd(Unsigned(w, m - y + 1), m)))
    ensures IsWord(w, v) && ToBits(v, Bits(w)) == RotateDigits(ToBits(x, Bits(w)), (Bits(w) - y % Bits(w)) % Bits(w))
  {
    var a, b := BitAnd(y, m), BitAnd(Unsigned(w, m - y + 1), m);
    ShiftCounts(w, y);
    assert b == 0 || a == Bits(w) - b;
    RotateBy(w, x, b, a);
  }

  lemma RotateDigitsBack(s: seq<bool>, k: nat)
    requires k <= |s|
    ensures RotateDigits(RotateDigits(s, k), |s| - k) == s
  {
  }

  /** A rotation of the digits by 0 is the identity. */
  lemma RotateNone(s: seq<bool>)
    ensures RotateDigits(s, 0) == s
  {
    assert s[|s|..] == [] && s[..|s|] == s;
  }

  /** The complementary rotation count (n - k) mod n. */
  lemma Complement(n: nat, k: nat)
    requires k < n
    ensures (n - k) % n == if k == 0 then 0 else n - k
  {
    if k == 0 {
      ModUnique(1, n, 0);
    } else {
      ModSmall(n - k, n);
    }
  }

  /** A rotation by k is undone by one by the complementary count. */
  lemma UndoLeft(s: seq<bool>, n: nat, k: nat)
    requires |s| == n && k < n
    ensures RotateDigits(RotateDigits(s, k), (n - k) % n) == s
  {
    Complement(n, k);
    if k == 0 {
      RotateNone(s);
    } else {
      RotateDigitsBack(s, k);
    }
  }

  /** A rotation by the complementary count is undone by one by k. */
  lemma UndoRight(s: seq<bool>, n: nat, k: nat)
    requires |s| == n && k < n
    ensures RotateDigits(RotateDigits(s, (n - k) % n), k) == s
  {
    Complement(n, k);
    if k == 0 {
      RotateNone(s);
    } else {
      RotateDigitsBack(s, n - k);
    }
  }

  /** Rotating by 0 leaves the word unchanged, in either direction. */
  lemma RotateZero(w: Width, x: nat)
    requires IsWord(w, x)
    ensures Rotl(w, x, 0) == x && Rotr(w, x, 0) == x
  {
    var n := Bits(w);
    RotateNone(ToBits(x, n));
    ToBitsInjective(Rotl(w, x, 0), x, n);
    ToBitsInjective(Rotr(w, x, 0), x, n);
  }

  /** ROTR undoes ROTL with the same count. */
  lemma RotrRotl(w: Width, x: nat, y: nat)
    requires IsWord(w, x) && IsWord(w, y)
    ensures Rotr(w, Rotl(w, x, y), y) == x
  {
    var n := Bits(w);
    var s := ToBits(x, n);
    var r := Rotl(w, x, y);
    var t := Rotr(w, r, y);
    ShiftCounts(w, y);
    var k := y % n;
    assert ToBits(t, n) == RotateDigits(RotateDigits(s, k), (n - k) % n);
    UndoLeft(s, n, k);
    ToBitsInjective(t, x, n);
  }

  /** ROTL undoes ROTR with the same count. */
  lemma RotlRotr(w: Width, x: nat, y: nat)
    requires IsWord(w, x) && IsWord(w, y)
    ensures Rotl(w, Rotr(w, x, y), y) == x
  {
    var n := Bits(w);
    var s := ToBits(x, n);
    var r := Rotr(w, x, y);
    var t := Rotl(w, r, y);
    ShiftCounts(w, y);
    var k := y % n;
    assert ToBits(t, n) == RotateDigits(RotateDigits(s, (n - k) % n), k);
    UndoRight(s, n, k);
    ToBitsInjective(t, x, n);
  }
}
