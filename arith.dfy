// Natural-number arithmetic used by the integer operators of the prelude:
// division with remainder, binary digits and the bitwise OR / AND of two
// naturals, each proved against its arithmetic meaning.

module NatArith {
  import opened Base

  lemma MulAtLeast(m: int, t: int)
    requires m > 0 && t >= 1
    ensures m * t >= m
  {
    assert m * t == m * (t - 1) + m;
  }

  lemma DivAtMost(x: nat, y: nat)
    requires y > 0
    ensures x / y <= x && x % y <= x
  {
    var q := x / y;
    assert y * q + x % y == x;
    if q > 0 {
      MulAtLeast(q, y);
      assert y * q == q * y;
    }
  }

  lemma ModUnique(q: int, m: int, r: int)
    requires m > 0 && 0 <= r < m
    ensures (q * m + r) / m == q
    ensures (q * m + r) % m == r
  {
    var x := q * m + r;
    var d := x / m;
    var s := x % m;
    assert x == m * d + s;
    var t := d - q;
    assert m * t == r - s by {
      assert m * t == m * d - m * q;
    }
    if t > 0 {
      MulAtLeast(m, t);
    } else if t < 0 {
      MulAtLeast(m, -t);
    }
  }

  /** A number below the modulus is its own remainder. */
  lemma ModSmall(x: nat, m: nat)
    requires x < m
    ensures x % m == x && x / m == 0
  {
    ModUnique(0, m, x);
  }

  lemma MulLess(a: nat, b: nat, c: nat)
    requires a < b && c > 0
    ensures a * c < b * c
  {
    assert b * c - a * c == (b - a) * c;
    MulAtLeast(c, b - a);
    assert (b - a) * c == c * (b - a);
  }

  /** A number below p * q splits as hi * p + lo; shifting it up by the factor q keeps
      only lo * q modulo p * q, and hi is below q. */
  lemma SplitWord(x: nat, p: nat, q: nat)
    requires p > 0 && q > 0 && x < p * q
    ensures x == (x / p) * p + x % p
    ensures x / p < q
    ensures (x * q) % (p * q) == (x % p) * q
    ensures (x % p) * q + x / p < p * q
  {
    var hi, lo := x / p, x % p;
    assert x == p * hi + lo;
    assert x == hi * p + lo;
    if hi >= q {
      assert false;
    }
    assert x * q == hi * (p * q) + lo * q by {
      assert x * q == (p * hi + lo) * q;
      assert (p * hi + lo) * q == (p * hi) * q + lo * q;
      assert (p * hi) * q == hi * (p * q);
    }
    MulLess(lo, p, q);
    ModUnique(hi, p * q, lo * q);
    assert lo * q + hi < p * q by {
      assert lo <= p - 1;
      assert (p - 1) * q + q == p * q;
      if lo < p - 1 {
        MulLess(lo, p - 1, q);
      }
    }
  }
  /** A number below 2^m * 2^k cut at digit m: hi holds its top k digits, lo its
      bottom m digits, and the two halves swap places within the same bound. */
  lemma CutAt(x: nat, m: nat, k: nat) returns (hi: nat, lo: nat)
    requires x < Pow2(m) * Pow2(k)
    ensures hi == x / Pow2(m) && lo == x % Pow2(m)
    ensures hi < Pow2(k) && lo < Pow2(m) && x == Join(hi, lo, m)
    ensures (x * Pow2(k)) % (Pow2(m) * Pow2(k)) == lo * Pow2(k)
    ensures Join(lo, hi, k) < Pow2(m) * Pow2(k)
  {
    SplitWord(x, Pow2(m), Pow2(k));
    DivNonNegative(x, Pow2(m));
    hi, lo := x / Pow2(m), x % Pow2(m);
  }

  /** CutAt for a number of n digits, cut at digit n - k. */
  lemma CutDigits(x: nat, n: nat, k: nat) returns (hi: nat, lo: nat)
    requires k <= n && x < Pow2(n)
    ensures hi == x / Pow2(n - k) && lo == x % Pow2(n - k)
    ensures hi < Pow2(k) && lo < Pow2(n - k) && x == Join(hi, lo, n - k)
    ensures (x * Pow2(k)) % Pow2(n) == lo * Pow2(k)
    ensures Join(lo, hi, k) < Pow2(n)
  {
    Pow2Split(n, k);
    hi, lo := CutAt(x, n - k, k);
  }


  /** The complementary count of a rotation: (n - y) mod n computed from y mod n. */
  lemma ComplementMod(y: nat, n: nat, c: nat)
    requires n > 0 && c > 0
    ensures ((n - y) % (n * c)) % n == (n - y % n) % n
    ensures y % n == 0 ==> (n - y % n) % n == 0
    ensures y % n != 0 ==> (n - y % n) % n == n - y % n
  {
    ModOfMultiple(n - y, n, c);
    var k := y % n;
    var d := y / n;
    assert y == n * d + k;
    if k == 0 {
      assert n - y == (1 - d) * n + 0;
      ModUnique(1 - d, n, 0);
      ModUnique(1, n, 0);
    } else {
      assert n - y == (-d) * n + (n - k);
      ModUnique(-d, n, n - k);
      ModUnique(0, n, n - k);
    }
  }

  /** Dividing by 2 * p: the low bit, then the remaining quotient by p. */
  lemma ModDouble(a: nat, p: nat)
    requires p > 0
    ensures a % (2 * p) == 2 * ((a / 2) % p) + a % 2
    ensures a / (2 * p) == (a / 2) / p
  {
    var q := (a / 2) / p;
    var r := (a / 2) % p;
    assert a == (2 * p) * q + (2 * r + a % 2);
    ModUnique(q, 2 * p, 2 * r + a % 2);
  }

  lemma ModOfMultiple(v: int, n: nat, c: nat)
    requires n > 0 && c > 0
    ensures (v % (n * c)) % n == v % n
  {
    var r := v % (n * c);
    var q := v / (n * c);
    assert v == (n * c) * q + r;
    assert r == n * (r / n) + r % n;
    assert v == (c * q + r / n) * n + r % n by {
      assert (n * c) * q == (c * q) * n;
      assert (c * q + r / n) * n == (c * q) * n + (r / n) * n;
    }
    ModUnique(c * q + r / n, n, r % n);
  }

  lemma MulDivExact(a: nat, b: nat, m: nat)
    requires m > 0 && b < m
    ensures (a * m + b) / m == a && (a * m + b) % m == b
  {
    ModUnique(a, m, b);
  }

  /** The `n` low-order binary digits of `x`, least significant first. */
  function ToBits(x: nat, n: nat): (r: seq<bool>)
    ensures |r| == n
  {
    if n == 0 then [] else [x % 2 == 1] + ToBits(x / 2, n - 1)
  }

  /** The number whose binary digits, least significant first, are `s`. */
  function FromBits(s: seq<bool>): (r: nat)
    ensures r < Pow2(|s|)
  {
    if s == [] then 0 else (if s[0] then 1 else 0) + 2 * FromBits(s[1..])
  }

  lemma {:induction false} FromToBits(x: nat, n: nat)
    ensures FromBits(ToBits(x, n)) == x % Pow2(n)
    decreases n
  {
    if n > 0 {
      FromToBits(x / 2, n - 1);
      assert ToBits(x, n)[1..] == ToBits(x / 2, n - 1);
      ModDouble(x, Pow2(n - 1));
    }
  }

  lemma {:induction false} ToFromBits(s: seq<bool>)
    ensures ToBits(FromBits(s), |s|) == s
    decreases |s|
  {
    if s != [] {
      var v := FromBits(s);
      var b := if s[0] then 1 else 0;
      MulDivExact(FromBits(s[1..]), b, 2);
      assert v / 2 == FromBits(s[1..]) && v % 2 == b;
      ToFromBits(s[1..]);
    }
  }

  /** Two words with the same digits are equal. */
  lemma ToBitsInjective(x: nat, y: nat, n: nat)
    requires x < Pow2(n) && y < Pow2(n)
    requires ToBits(x, n) == ToBits(y, n)
    ensures x == y
  {
    FromToBits(x, n);
    FromToBits(y, n);
  }

  /** The number whose high digits are those of `hi` and whose low `m` digits are those
      of `lo` (for `lo < 2^m`). */
  function Join(hi: nat, lo: nat, m: nat): nat
  {
    hi * Pow2(m) + lo
  }

  /** The digits of `Join(a, b, m)`, for `b < 2^m`, are those of `b` followed by those of `a`. */
  lemma {:induction false} ToBitsConcat(a: nat, b: nat, m: nat, n: nat)
    requires b < Pow2(m) && m <= n
    ensures ToBits(Join(a, b, m), n) == ToBits(b, m) + ToBits(a, n - m)
    decreases m
  {
    if m > 0 {
      var x, h := Join(a, b, m), Join(a, b / 2, m - 1);
      JoinStep(a, b, m);
      MulDivExact(h, b % 2, 2);
      ToBitsConcat(a, b / 2, m - 1, n - 1);
      calc {
        ToBits(x, n);
        [b % 2 == 1] + ToBits(h, n - 1);
        [b % 2 == 1] + (ToBits(b / 2, m - 1) + ToBits(a, n - m));
        ([b % 2 == 1] + ToBits(b / 2, m - 1)) + ToBits(a, n - m);
      }
    }
  }

  /** Splitting off the lowest digit of a joined number. */
  lemma JoinStep(a: nat, b: nat, m: nat)
    requires m > 0 && b < Pow2(m)
    ensures Join(a, b, m) == 2 * Join(a, b / 2, m - 1) + b % 2
    ensures b / 2 < Pow2(m - 1)
  {
    var p := Pow2(m - 1);
    assert Pow2(m) == 2 * p;
    assert a * (2 * p) == 2 * (a * p);
  }

  /** `x << s` on an unsigned word of width w: multiplication by 2^s, reduced modulo 2^w. */
  function ShiftLeft(w: Width, x: nat, s: nat): (r: nat)
    ensures IsWord(w, r)
  {
    (x * Pow2(s)) % Modulus(w)
  }

  /** `x >> s` on an unsigned word: division by 2^s. */
  function ShiftRight(x: nat, s: nat): nat
  {
    DivNonNegative(x, Pow2(s));
    x / Pow2(s)
  }

  lemma DivNonNegative(x: nat, p: nat)
    requires p > 0
    ensures x / p >= 0
  {
  }

  lemma ShiftLeftZero(w: Width, x: nat)
    requires IsWord(w, x)
    ensures ShiftLeft(w, x, 0) == x
  {
    assert Pow2(0) == 1;
    ModSmall(x, Modulus(w));
  }

  lemma ShiftRightZero(x: nat)
    ensures ShiftRight(x, 0) == x
  {
    assert Pow2(0) == 1;
  }

  /** Bitwise OR of two naturals, digit by digit. */
  function BitOr(a: nat, b: nat): nat
    decreases a
  {
    if a == 0 then b
    else if b == 0 then a
    else 2 * BitOr(a / 2, b / 2) + (if a % 2 == 1 || b % 2 == 1 then 1 else 0)
  }

  /** Bitwise AND of two naturals, digit by digit. */
  function BitAnd(a: nat, b: nat): nat
    decreases a
  {
    if a == 0 || b == 0 then 0
    else 2 * BitAnd(a / 2, b / 2) + (if a % 2 == 1 && b % 2 == 1 then 1 else 0)
  }

  /** Each digit of `BitOr(a, b)` is the OR of the digits of `a` and `b`. */
  lemma {:induction false} BitOrDigits(a: nat, b: nat, n: nat)
    ensures forall i :: 0 <= i < n ==> ToBits(BitOr(a, b), n)[i] == (ToBits(a, n)[i] || ToBits(b, n)[i])
    decreases n
  {
    if n > 0 && a != 0 && b != 0 {
      var o := BitOr(a, b);
      var c := if a % 2 == 1 || b % 2 == 1 then 1 else 0;
      MulDivExact(BitOr(a / 2, b / 2), c, 2);
      assert o / 2 == BitOr(a / 2, b / 2) && o % 2 == c;
      BitOrDigits(a / 2, b / 2, n - 1);
    } else if n > 0 && a == 0 {
      ZeroBits(n);
    } else if n > 0 {
      ZeroBits(n);
    }
  }

  lemma {:induction false} ZeroBits(n: nat)
    ensures forall i :: 0 <= i < n ==> !ToBits(0, n)[i]
    decreases n
  {
    if n > 0 {
      ZeroBits(n - 1);
    }
  }

  /** OR of a multiple of 2^k with a number below 2^k is their sum: the digits do not overlap. */
  lemma {:induction false} BitOrDisjoint(a: nat, b: nat, k: nat)
    requires b < Pow2(k)
    ensures BitOr(a * Pow2(k), b) == a * Pow2(k) + b
    ensures BitOr(b, a * Pow2(k)) == a * Pow2(k) + b
    decreases k
  {
    if k > 0 && a != 0 && b != 0 {
      var x := a * Pow2(k);
      assert x == 2 * (a * Pow2(k - 1));
      MulDivExact(a * Pow2(k - 1), 0, 2);
      BitOrDisjoint(a, b / 2, k - 1);
    }
  }

  /** OR is idempotent. */
  lemma {:induction false} BitOrSelf(a: nat)
    ensures BitOr(a, a) == a
    decreases a
  {
    if a != 0 {
      BitOrSelf(a / 2);
    }
  }

  /** AND with the mask 2^k - 1 keeps the k low digits: it is the remainder modulo 2^k. */
  lemma {:induction false} BitAndLowMask(a: nat, k: nat)
    ensures BitAnd(a, Pow2(k) - 1) == a % Pow2(k)
    decreases k
  {
    if k == 0 {
      ModUnique(a, 1, 0);
    } else if a == 0 {
      ModUnique(0, Pow2(k), 0);
    } else {
      var p := Pow2(k - 1);
      var m := Pow2(k) - 1;
      assert m == (p - 1) * 2 + 1;
      MulDivExact(p - 1, 1, 2);
      assert m / 2 == p - 1 && m % 2 == 1;
      BitAndLowMask(a / 2, k - 1);
      ModDouble(a, p);
      assert BitAnd(a, m) == 2 * BitAnd(a / 2, m / 2) + a % 2;
    }
  }
}
