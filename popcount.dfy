// Population count of the wasm2c runtime prelude: `I32_POPCNT` / `I64_POPCNT`.
// With GCC or Clang these are `__builtin_popcount` / `__builtin_popcountll`, the number
// of one bits of the operand; otherwise POPCOUNT_DEFINE_PORTABLE computes the same number
// with three SWAR ("SIMD within a register") steps and one multiplication.  The model
// keeps the operands as bit-vectors and proves the portable code equal to the builtin.
//
// Proof plan: after the three SWAR steps every byte of the word holds the count of its
// own bits (checked byte by byte against an 8-bit version of the steps); the
// multiplication by 0x01..01 then adds all bytes into the top one, which is shown by
// adding bytes pairwise with no carry between them.  `Same` wraps the multiplication
// identities so that they reach the solver unchanged.

module PopCount {

  /** 1 for a set bit, 0 for a clear one. */
  function Bit(b: bool): nat
  {
    if b then 1 else 0
  }

  /** The number of one bits of a byte, tested one position at a time. */
  function ByteOnes(b: bv8): (r: nat)
    ensures r <= 8
  {
    Bit(b & 1 != 0) + Bit(b & 2 != 0) + Bit(b & 4 != 0) + Bit(b & 8 != 0)
    + Bit(b & 16 != 0) + Bit(b & 32 != 0) + Bit(b & 64 != 0) + Bit(b & 128 != 0)
  }

  /** Byte `k` of a 32-bit word, byte 0 being the least significant. */
  function Byte32(x: bv32, k: nat): bv8
    requires k < 4
  {
    if k == 0 then (x & 0xFF) as bv8
    else if k == 1 then ((x >> 8) & 0xFF) as bv8
    else if k == 2 then ((x >> 16) & 0xFF) as bv8
    else ((x >> 24) & 0xFF) as bv8
  }

  /** Byte `k` of a 64-bit word, byte 0 being the least significant. */
  function Byte64(x: bv64, k: nat): bv8
    requires k < 8
  {
    if k == 0 then (x & 0xFF) as bv8
    else if k == 1 then ((x >> 8) & 0xFF) as bv8
    else if k == 2 then ((x >> 16) & 0xFF) as bv8
    else if k == 3 then ((x >> 24) & 0xFF) as bv8
    else if k == 4 then ((x >> 32) & 0xFF) as bv8
    else if k == 5 then ((x >> 40) & 0xFF) as bv8
    else if k == 6 then ((x >> 48) & 0xFF) as bv8
    else ((x >> 56) & 0xFF) as bv8
  }

  /** `__builtin_popcount`: the number of one bits of a 32-bit word. */
  function BuiltinPopcount32(x: bv32): nat
  {
    ByteOnes(Byte32(x, 0)) + ByteOnes(Byte32(x, 1)) + ByteOnes(Byte32(x, 2)) + ByteOnes(Byte32(x, 3))
  }

  /** `__builtin_popcountll`: the number of one bits of a 64-bit word. */
  function BuiltinPopcount64(x: bv64): nat
  {
    ByteOnes(Byte64(x, 0)) + ByteOnes(Byte64(x, 1)) + ByteOnes(Byte64(x, 2)) + ByteOnes(Byte64(x, 3))
    + ByteOnes(Byte64(x, 4)) + ByteOnes(Byte64(x, 5)) + ByteOnes(Byte64(x, 6)) + ByteOnes(Byte64(x, 7))
  }

  /** The three SWAR steps of the portable code on a 32-bit word: bit pairs, then nibbles,
      then bytes each hold the count of their own bits.  The masks are the source's
      `~0/3`, `~0/15*3` and `~0/255*15` (see PortableMasks32). */
  function Spread32(x0: bv32): bv32
  {
    var x1 := x0 - ((x0 >> 1) & 0x5555_5555);
    var x2 := (x1 & 0x3333_3333) + ((x1 >> 2) & 0x3333_3333);
    (x2 + (x2 >> 4)) & 0x0F0F_0F0F
  }

  /** Portable `I32_POPCNT`: the product by `~0/255` gathers the byte counts in the top byte. */
  function Popcnt32(x: bv32): bv32
  {
    (Spread32(x) * 0x0101_0101) >> 24
  }

  /** The SWAR steps on a 64-bit word. */
  function Spread64(x0: bv64): bv64
  {
    var x1 := x0 - ((x0 >> 1) & 0x5555_5555_5555_5555);
    var x2 := (x1 & 0x3333_3333_3333_3333) + ((x1 >> 2) & 0x3333_3333_3333_3333);
    (x2 + (x2 >> 4)) & 0x0F0F_0F0F_0F0F_0F0F
  }

  /** The conversion of the u64 result to the function's `u32` return type. */
  function Low32(r: bv64): bv32
  {
    (r & 0xFFFF_FFFF) as bv32
  }

  /** Portable `I64_POPCNT`. */
  function Popcnt64(x: bv64): bv32
  {
    Low32((Spread64(x) * 0x0101_0101_0101_0101) >> 56)
  }

  /** The literal masks above are the values of the source's mask expressions. */
  lemma PortableMasks32()
    ensures !(0 as bv32) / 3 == 0x5555_5555
    ensures !(0 as bv32) / 15 * 3 == 0x3333_3333
    ensures !(0 as bv32) / 255 * 15 == 0x0F0F_0F0F
    ensures !(0 as bv32) / 255 == 0x0101_0101
  {
  }

  lemma PortableMasks64()
    ensures !(0 as bv64) / 3 == 0x5555_5555_5555_5555
    ensures !(0 as bv64) / 15 * 3 == 0x3333_3333_3333_3333
    ensures !(0 as bv64) / 255 * 15 == 0x0F0F_0F0F_0F0F_0F0F
    ensures !(0 as bv64) / 255 == 0x0101_0101_0101_0101
  {
  }

  /** The portable 32-bit count is the builtin one. */
  lemma Popcnt32Correct(x: bv32)
    ensures Popcnt32(x) as nat == BuiltinPopcount32(x)
  {
    Popcnt32Product(x);
    TopByte32(x);
    LanesCount32(x);
  }

  lemma Popcnt32Product(x: bv32)
    ensures Same32(Popcnt32(x), (Spread32(x) * 0x0101_0101) >> 24)
  {
  }

  /** The portable 64-bit count is the builtin one. */
  lemma Popcnt64Correct(x: bv64)
    ensures Popcnt64(x) as nat == BuiltinPopcount64(x)
  {
    TopByte64(x);
    LanesCount64(x);
    Narrow((Spread64(x) * 0x0101_0101_0101_0101) >> 56, BuiltinPopcount64(x));
  }

  /** The product leaves the sum of the bytes of the spread word in its top byte. */
  lemma TopByte32(x: bv32)
    ensures ((Spread32(x) * 0x0101_0101) >> 24) as nat == Lane32(Spread32(x), 0) + Lane32(Spread32(x), 1) + Lane32(Spread32(x), 2) + Lane32(Spread32(x), 3)
  {
    Nibbles32(x);
    Sum32(Spread32(x));
  }

  lemma TopByte64(x: bv64)
    ensures ((Spread64(x) * 0x0101_0101_0101_0101) >> 56) as nat
      == Lane64(Spread64(x), 0) + Lane64(Spread64(x), 1) + Lane64(Spread64(x), 2) + Lane64(Spread64(x), 3) + Lane64(Spread64(x), 4) + Lane64(Spread64(x), 5) + Lane64(Spread64(x), 6) + Lane64(Spread64(x), 7)
  {
    Nibbles64(x);
    Sum64(Spread64(x));
  }

  // ---- The SWAR steps, one byte at a time ----

  /** The three SWAR steps on a single byte. */
  function Swar8(b: bv8): bv8
  {
    var a := b - ((b >> 1) & 0x55);
    var c := (a & 0x33) + ((a >> 2) & 0x33);
    (c + (c >> 4)) & 0x0F
  }

  lemma Swar8Count(b: bv8)
    ensures Swar8(b) as nat == ByteOnes(b)
  {
  }

  /** Byte `k` of a word as a number. */
  function Lane32(x: bv32, k: nat): nat
    requires k < 4
  {
    if k == 0 then (x & 0xFF) as nat
    else if k == 1 then ((x >> 8) & 0xFF) as nat
    else if k == 2 then ((x >> 16) & 0xFF) as nat
    else ((x >> 24) & 0xFF) as nat
  }

  function Lane64(x: bv64, k: nat): nat
    requires k < 8
  {
    if k == 0 then (x & 0xFF) as nat
    else if k == 1 then ((x >> 8) & 0xFF) as nat
    else if k == 2 then ((x >> 16) & 0xFF) as nat
    else if k == 3 then ((x >> 24) & 0xFF) as nat
    else if k == 4 then ((x >> 32) & 0xFF) as nat
    else if k == 5 then ((x >> 40) & 0xFF) as nat
    else if k == 6 then ((x >> 48) & 0xFF) as nat
    else ((x >> 56) & 0xFF) as nat
  }

  lemma SpreadByte32_0(x: bv32) ensures (Spread32(x) & 0xFF) as bv8 == Swar8(Byte32(x, 0)) {}
  lemma SpreadByte32_1(x: bv32) ensures ((Spread32(x) >> 8) & 0xFF) as bv8 == Swar8(Byte32(x, 1)) {}
  lemma SpreadByte32_2(x: bv32) ensures ((Spread32(x) >> 16) & 0xFF) as bv8 == Swar8(Byte32(x, 2)) {}
  lemma SpreadByte32_3(x: bv32) ensures ((Spread32(x) >> 24) & 0xFF) as bv8 == Swar8(Byte32(x, 3)) {}
  lemma SpreadByte64_0(x: bv64) ensures (Spread64(x) & 0xFF) as bv8 == Swar8(Byte64(x, 0)) {}
  lemma SpreadByte64_1(x: bv64) ensures ((Spread64(x) >> 8) & 0xFF) as bv8 == Swar8(Byte64(x, 1)) {}
  lemma SpreadByte64_2(x: bv64) ensures ((Spread64(x) >> 16) & 0xFF) as bv8 == Swar8(Byte64(x, 2)) {}
  lemma SpreadByte64_3(x: bv64) ensures ((Spread64(x) >> 24) & 0xFF) as bv8 == Swar8(Byte64(x, 3)) {}
  lemma SpreadByte64_4(x: bv64) ensures ((Spread64(x) >> 32) & 0xFF) as bv8 == Swar8(Byte64(x, 4)) {}
  lemma SpreadByte64_5(x: bv64) ensures ((Spread64(x) >> 40) & 0xFF) as bv8 == Swar8(Byte64(x, 5)) {}
  lemma SpreadByte64_6(x: bv64) ensures ((Spread64(x) >> 48) & 0xFF) as bv8 == Swar8(Byte64(x, 6)) {}
  lemma SpreadByte64_7(x: bv64) ensures ((Spread64(x) >> 56) & 0xFF) as bv8 == Swar8(Byte64(x, 7)) {}

  lemma Widen32(v: bv32) ensures ((v & 0xFF) as bv8) as nat == (v & 0xFF) as nat {}
  lemma Widen64(v: bv64) ensures ((v & 0xFF) as bv8) as nat == (v & 0xFF) as nat {}

  lemma LaneOnes32(v: bv32, b: bv8)
    requires (v & 0xFF) as bv8 == Swar8(b)
    ensures (v & 0xFF) as nat == ByteOnes(b)
  {
    Widen32(v);
    Swar8Count(b);
  }

  lemma LaneOnes64(v: bv64, b: bv8)
    requires (v & 0xFF) as bv8 == Swar8(b)
    ensures (v & 0xFF) as nat == ByteOnes(b)
  {
    Widen64(v);
    Swar8Count(b);
  }

  lemma LaneCount32_0(x: bv32) ensures Lane32(Spread32(x), 0) == ByteOnes(Byte32(x, 0)) { SpreadByte32_0(x); LaneOnes32(Spread32(x), Byte32(x, 0)); }
  lemma LaneCount32_1(x: bv32) ensures Lane32(Spread32(x), 1) == ByteOnes(Byte32(x, 1)) { SpreadByte32_1(x); LaneOnes32(Spread32(x) >> 8, Byte32(x, 1)); }
  lemma LaneCount32_2(x: bv32) ensures Lane32(Spread32(x), 2) == ByteOnes(Byte32(x, 2)) { SpreadByte32_2(x); LaneOnes32(Spread32(x) >> 16, Byte32(x, 2)); }
  lemma LaneCount32_3(x: bv32) ensures Lane32(Spread32(x), 3) == ByteOnes(Byte32(x, 3)) { SpreadByte32_3(x); LaneOnes32(Spread32(x) >> 24, Byte32(x, 3)); }
  lemma LaneCount64_0(x: bv64) ensures Lane64(Spread64(x), 0) == ByteOnes(Byte64(x, 0)) { SpreadByte64_0(x); LaneOnes64(Spread64(x), Byte64(x, 0)); }
  lemma LaneCount64_1(x: bv64) ensures Lane64(Spread64(x), 1) == ByteOnes(Byte64(x, 1)) { SpreadByte64_1(x); LaneOnes64(Spread64(x) >> 8, Byte64(x, 1)); }
  lemma LaneCount64_2(x: bv64) ensures Lane64(Spread64(x), 2) == ByteOnes(Byte64(x, 2)) { SpreadByte64_2(x); LaneOnes64(Spread64(x) >> 16, Byte64(x, 2)); }
  lemma LaneCount64_3(x: bv64) ensures Lane64(Spread64(x), 3) == ByteOnes(Byte64(x, 3)) { SpreadByte64_3(x); LaneOnes64(Spread64(x) >> 24, Byte64(x, 3)); }
  lemma LaneCount64_4(x: bv64) ensures Lane64(Spread64(x), 4) == ByteOnes(Byte64(x, 4)) { SpreadByte64_4(x); LaneOnes64(Spread64(x) >> 32, Byte64(x, 4)); }
  lemma LaneCount64_5(x: bv64) ensures Lane64(Spread64(x), 5) == ByteOnes(Byte64(x, 5)) { SpreadByte64_5(x); LaneOnes64(Spread64(x) >> 40, Byte64(x, 5)); }
  lemma LaneCount64_6(x: bv64) ensures Lane64(Spread64(x), 6) == ByteOnes(Byte64(x, 6)) { SpreadByte64_6(x); LaneOnes64(Spread64(x) >> 48, Byte64(x, 6)); }
  lemma LaneCount64_7(x: bv64) ensures Lane64(Spread64(x), 7) == ByteOnes(Byte64(x, 7)) { SpreadByte64_7(x); LaneOnes64(Spread64(x) >> 56, Byte64(x, 7)); }

  /** After the SWAR steps the bytes hold the counts of the bytes of the operand. */
  lemma LanesCount32(x: bv32)
    ensures Lane32(Spread32(x), 0) + Lane32(Spread32(x), 1) + Lane32(Spread32(x), 2) + Lane32(Spread32(x), 3) == BuiltinPopcount32(x)
  {
    LaneCount32_0(x); LaneCount32_1(x); LaneCount32_2(x); LaneCount32_3(x);
  }

  lemma LanesCount64(x: bv64)
    ensures BuiltinPopcount64(x) <= 64
    ensures Lane64(Spread64(x), 0) + Lane64(Spread64(x), 1) + Lane64(Spread64(x), 2) + Lane64(Spread64(x), 3) + Lane64(Spread64(x), 4) + Lane64(Spread64(x), 5) + Lane64(Spread64(x), 6) + Lane64(Spread64(x), 7)
      == BuiltinPopcount64(x)
  {
    LaneCount64_0(x); LaneCount64_1(x); LaneCount64_2(x); LaneCount64_3(x);
    LaneCount64_4(x); LaneCount64_5(x); LaneCount64_6(x); LaneCount64_7(x);
  }

  /** Each byte of the spread word is below 16. */
  lemma Nibbles32(x: bv32) ensures Spread32(x) & 0xF0F0_F0F0 == 0 {}
  lemma Nibbles64(x: bv64) ensures Spread64(x) & 0xF0F0_F0F0_F0F0_F0F0 == 0 {}

  // ---- The multiplication adds the bytes into the top byte ----

  /** An equation kept as an uninterpreted fact. */
  predicate Same(a: bv64, b: bv64)
  {
    a == b
  }

  predicate Same32(a: bv32, b: bv32)
  {
    a == b
  }

  lemma AddBytes32(a: bv32, b: bv32)
    ensures ((a & 0xFF) + (b & 0xFF)) as nat == (a & 0xFF) as nat + (b & 0xFF) as nat
  {
  }

  lemma AddBytes64(a: bv64, b: bv64)
    ensures ((a & 0xFF) + (b & 0xFF)) as nat == (a & 0xFF) as nat + (b & 0xFF) as nat
  {
  }

  lemma PairBv32_1(c: bv32) requires c & 0xF0F0_F0F0 == 0 ensures ((c + (c << 8)) >> 8) & 0xFF == ((c >> 8) & 0xFF) + (c & 0xFF) {}
  lemma PairLane32_1(c: bv32) requires c & 0xF0F0_F0F0 == 0 ensures Lane32(c + (c << 8), 1) == Lane32(c, 1) + Lane32(c, 0) { PairBv32_1(c); AddBytes32((c >> 8), c); }
  lemma PairBv32_3(c: bv32) requires c & 0xF0F0_F0F0 == 0 ensures ((c + (c << 8)) >> 24) & 0xFF == ((c >> 24) & 0xFF) + ((c >> 16) & 0xFF) {}
  lemma PairLane32_3(c: bv32) requires c & 0xF0F0_F0F0 == 0 ensures Lane32(c + (c << 8), 3) == Lane32(c, 3) + Lane32(c, 2) { PairBv32_3(c); AddBytes32((c >> 24), (c >> 16)); }
  lemma QuadBv32(c: bv32) requires c & 0xF0F0_F0F0 == 0
    ensures ((c + (c << 8) + (c << 16) + (c << 24)) >> 24) & 0xFF == (((c + (c << 8)) >> 24) & 0xFF) + (((c + (c << 8)) >> 8) & 0xFF) {}
  lemma QuadLane32(c: bv32) requires c & 0xF0F0_F0F0 == 0
    ensures Lane32(c + (c << 8) + (c << 16) + (c << 24), 3) == Lane32(c + (c << 8), 3) + Lane32(c + (c << 8), 1)
  { QuadBv32(c); AddBytes32((c + (c << 8)) >> 24, (c + (c << 8)) >> 8); }
  lemma Fold32(c: bv32) ensures Same32(c * 0x0101_0101, c + (c << 8) + (c << 16) + (c << 24)) {}
  lemma TopLane32(q: bv32) ensures (q >> 24) as nat == Lane32(q, 3) {}

  /** For bytes below 16, the top byte of the product by 0x01010101 is the sum of the bytes. */
  lemma Sum32(c: bv32)
    requires c & 0xF0F0_F0F0 == 0
    ensures ((c * 0x0101_0101) >> 24) as nat == Lane32(c, 0) + Lane32(c, 1) + Lane32(c, 2) + Lane32(c, 3)
  {
    Gather32(c);
    PairSum32(c);
    TopLane32(c * 0x0101_0101);
  }

  lemma Gather32(c: bv32) requires c & 0xF0F0_F0F0 == 0
    ensures Lane32(c * 0x0101_0101, 3) == Lane32(c + (c << 8), 3) + Lane32(c + (c << 8), 1)
  {
    QuadLane32(c);
    Fold32(c);
  }

  lemma PairSum32(c: bv32) requires c & 0xF0F0_F0F0 == 0
    ensures Lane32(c + (c << 8), 3) + Lane32(c + (c << 8), 1) == Lane32(c, 0) + Lane32(c, 1) + Lane32(c, 2) + Lane32(c, 3)
  {
    PairLane32_1(c);
    PairLane32_3(c);
  }

  lemma PairMask64(c: bv64) requires c & 0xF0F0_F0F0_F0F0_F0F0 == 0 ensures (c + (c << 8)) & 0xE0E0_E0E0_E0E0_E0E0 == 0 {}
  lemma PairBv64_1(c: bv64) requires c & 0xF0F0_F0F0_F0F0_F0F0 == 0 ensures ((c + (c << 8)) >> 8) & 0xFF == ((c >> 8) & 0xFF) + (c & 0xFF) {}
  lemma PairLane64_1(c: bv64) requires c & 0xF0F0_F0F0_F0F0_F0F0 == 0 ensures Lane64(c + (c << 8), 1) == Lane64(c, 1) + Lane64(c, 0) { PairBv64_1(c); AddBytes64((c >> 8), c); }
  lemma PairBv64_3(c: bv64) requires c & 0xF0F0_F0F0_F0F0_F0F0 == 0 ensures ((c + (c << 8)) >> 24) & 0xFF == ((c >> 24) & 0xFF) + ((c >> 16) & 0xFF) {}
  lemma PairLane64_3(c: bv64) requires c & 0xF0F0_F0F0_F0F0_F0F0 == 0 ensures Lane64(c + (c << 8), 3) == Lane64(c, 3) + Lane64(c, 2) { PairBv64_3(c); AddBytes64((c >> 24), (c >> 16)); }
  lemma PairBv64_5(c: bv64) requires c & 0xF0F0_F0F0_F0F0_F0F0 == 0 ensures ((c + (c << 8)) >> 40) & 0xFF == ((c >> 40) & 0xFF) + ((c >> 32) & 0xFF) {}
  lemma PairLane64_5(c: bv64) requires c & 0xF0F0_F0F0_F0F0_F0F0 == 0 ensures Lane64(c + (c << 8), 5) == Lane64(c, 5) + Lane64(c, 4) { PairBv64_5(c); AddBytes64((c >> 40), (c >> 32)); }
  lemma PairBv64_7(c: bv64) requires c & 0xF0F0_F0F0_F0F0_F0F0 == 0 ensures ((c + (c << 8)) >> 56) & 0xFF == ((c >> 56) & 0xFF) + ((c >> 48) & 0xFF) {}
  lemma PairLane64_7(c: bv64) requires c & 0xF0F0_F0F0_F0F0_F0F0 == 0 ensures Lane64(c + (c << 8), 7) == Lane64(c, 7) + Lane64(c, 6) { PairBv64_7(c); AddBytes64((c >> 56), (c >> 48)); }
  lemma QuadBv64_7(c: bv64) requires c & 0xF0F0_F0F0_F0F0_F0F0 == 0
    ensures ((c + (c << 8) + (c << 16) + (c << 24)) >> 56) & 0xFF == (((c + (c << 8)) >> 56) & 0xFF) + (((c + (c << 8)) >> 40) & 0xFF) {}
  lemma QuadBv64_3(c: bv64) requires c & 0xF0F0_F0F0_F0F0_F0F0 == 0
    ensures ((c + (c << 8) + (c << 16) + (c << 24)) >> 24) & 0xFF == (((c + (c << 8)) >> 24) & 0xFF) + (((c + (c << 8)) >> 8) & 0xFF) {}
  lemma QuadMask64(c: bv64) requires c & 0xF0F0_F0F0_F0F0_F0F0 == 0
    ensures (c + (c << 8) + (c << 16) + (c << 24)) & 0x8080_8080_8080_8080 == 0 {}
  lemma QuadLane64_7(c: bv64) requires c & 0xF0F0_F0F0_F0F0_F0F0 == 0
    ensures Lane64(c + (c << 8) + (c << 16) + (c << 24), 7) == Lane64(c + (c << 8), 7) + Lane64(c + (c << 8), 5)
  { QuadBv64_7(c); AddBytes64((c + (c << 8)) >> 56, (c + (c << 8)) >> 40); }
  lemma QuadLane64_3(c: bv64) requires c & 0xF0F0_F0F0_F0F0_F0F0 == 0
    ensures Lane64(c + (c << 8) + (c << 16) + (c << 24), 3) == Lane64(c + (c << 8), 3) + Lane64(c + (c << 8), 1)
  { QuadBv64_3(c); AddBytes64((c + (c << 8)) >> 24, (c + (c << 8)) >> 8); }
  lemma FoldQuad64(c: bv64) ensures Same(c * 0x0101_0101, c + (c << 8) + (c << 16) + (c << 24)) {}
  lemma FoldHalves64(c: bv64) ensures Same(c * 0x0101_0101_0101_0101, c * 0x0101_0101 + ((c * 0x0101_0101) << 32)) {}

  /** Adding the word shifted by 32 puts the sum of bytes 7 and 3 in the top byte. */
  lemma HalvesBv64(u: bv64) requires u & 0x8080_8080_8080_8080 == 0
    ensures (u + (u << 32)) >> 56 == ((u >> 56) & 0xFF) + ((u >> 24) & 0xFF) {}
  lemma Halves64(u: bv64) requires u & 0x8080_8080_8080_8080 == 0
    ensures ((u + (u << 32)) >> 56) as nat == Lane64(u, 7) + Lane64(u, 3)
  { HalvesBv64(u); AddBytes64(u >> 56, u >> 24); }
  lemma Top64(c: bv64) requires (c * 0x0101_0101) & 0x8080_8080_8080_8080 == 0
    ensures ((c * 0x0101_0101_0101_0101) >> 56) as nat == Lane64(c * 0x0101_0101, 7) + Lane64(c * 0x0101_0101, 3)
  { FoldHalves64(c); Halves64(c * 0x0101_0101); }

  /** For bytes below 16, the top byte of the product by 0x0101010101010101 is the sum of the bytes. */
  lemma Sum64(c: bv64)
    requires c & 0xF0F0_F0F0_F0F0_F0F0 == 0
    ensures ((c * 0x0101_0101_0101_0101) >> 56) as nat
      == Lane64(c, 0) + Lane64(c, 1) + Lane64(c, 2) + Lane64(c, 3) + Lane64(c, 4) + Lane64(c, 5) + Lane64(c, 6) + Lane64(c, 7)
  {
    PairLane64_1(c); PairLane64_3(c); PairLane64_5(c); PairLane64_7(c);
    QuadLane64_3(c); QuadLane64_7(c); QuadMask64(c); FoldQuad64(c);
    Top64(c);
  }

  lemma Narrow(r: bv64, n: nat)
    requires r as nat == n && n <= 64
    ensures Low32(r) as nat == n
  {
  }
}
