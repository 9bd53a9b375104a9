// The linear-memory layer of the prelude: the bounds check RANGE_CHECK, the
// address translation MEM_ADDR under the two host byte orders, the typed loads
// and stores (DEFINE_LOAD / DEFINE_STORE), load_data and the bulk operations
// memory_fill, memory_copy and memory_init.
//
// A memory is a host buffer of bytes plus its size.  WebAssembly sees a
// little-endian array of `size` bytes (View).  On a little-endian host, byte i
// of that array is host byte i.  On a big-endian host, MEM_ADDR places an
// n-byte object at host offset size - addr - n, so byte i is host byte
// size - 1 - i: the whole memory is stored reversed, and a multi-byte value
// lands in host order.  Every operation below is specified on View alone.
// The layout does not appear in those contracts, which is the sense in which
// the two layouts agree.

module LinearMemory {
  import opened Base
  import opened NatArith

  /** The host byte order, fixed when the runtime is built (WABT_BIG_ENDIAN). */
  datatype Layout = LittleEndian | BigEndian

  lemma ReverseReverse(s: seq<Byte>)
    ensures Reverse(Reverse(s)) == s
  {
  }

  /** 2^(8n): one more than the largest value of n bytes. */
  function ByteModulus(n: nat): (r: nat)
    ensures r >= 1
  {
    Pow2(8 * n)
  }

  lemma ByteModulusStep(n: nat)
    requires n > 0
    ensures ByteModulus(n) == 256 * ByteModulus(n - 1)
  {
    Pow2Add(8, 8 * (n - 1));
    assert 8 * n == 8 + 8 * (n - 1);
    assert Pow2(8) == 256;
  }

  /** The number whose little-endian bytes are `s`. */
  function DecodeLE(s: seq<Byte>): (r: nat)
  {
    if s == [] then 0 else s[0] as nat + 256 * DecodeLE(s[1..])
  }

  /** The `n` little-endian bytes of `v` modulo 2^(8n). */
  function EncodeLE(v: nat, n: nat): (r: seq<Byte>)
    ensures |r| == n
  {
    if n == 0 then [] else [(v % 256) as Byte] + EncodeLE(v / 256, n - 1)
  }

  lemma {:induction false} DecodeBound(s: seq<Byte>)
    ensures DecodeLE(s) < ByteModulus(|s|)
    decreases |s|
  {
    if s != [] {
      DecodeBound(s[1..]);
      ByteModulusStep(|s|);
    }
  }

  /** Encoding keeps the low 8n bits: decoding gives the value modulo 2^(8n). */
  lemma {:induction false} DecodeEncode(v: nat, n: nat)
    ensures DecodeLE(EncodeLE(v, n)) == v % ByteModulus(n)
    decreases n
  {
    if n > 0 {
      var e := EncodeLE(v, n);
      assert e[0] as nat == v % 256;
      assert e[1..] == EncodeLE(v / 256, n - 1);
      DecodeEncode(v / 256, n - 1);
      var p := ByteModulus(n - 1);
      ByteModulusStep(n);
      DivModStep(v, p);
      assert DecodeLE(e) == e[0] as nat + 256 * DecodeLE(e[1..]);
    }
  }

  /** v mod 256p = v mod 256 + 256 * ((v / 256) mod p). */
  lemma DivModStep(v: nat, p: nat)
    requires p > 0
    ensures v % (256 * p) == v % 256 + 256 * ((v / 256) % p)
  {
    var q := (v / 256) / p;
    var r := (v / 256) % p;
    assert v / 256 == p * q + r;
    assert v == 256 * (v / 256) + v % 256;
    assert v == (256 * p) * q + (v % 256 + 256 * r);
    assert 0 <= v % 256 + 256 * r < 256 * p by {
      assert r <= p - 1;
      assert 256 * r <= 256 * (p - 1);
    }
    ModUnique(q, 256 * p, v % 256 + 256 * r);
  }

  /** Decoding then encoding gives the bytes back. */
  lemma {:induction false} EncodeDecode(s: seq<Byte>)
    ensures EncodeLE(DecodeLE(s), |s|) == s
    decreases |s|
  {
    if s != [] {
      var v := DecodeLE(s);
      assert v % 256 == s[0] as nat && v / 256 == DecodeLE(s[1..]) by {
        ModUnique(DecodeLE(s[1..]), 256, s[0] as nat);
        assert v == 256 * DecodeLE(s[1..]) + s[0] as nat;
      }
      EncodeDecode(s[1..]);
    }
  }

  /** Bytes in WebAssembly (little-endian) order from bytes in host order, and
      back: the identity on a little-endian host, a reversal on a big-endian one. */
  function Oriented(layout: Layout, s: seq<Byte>): (r: seq<Byte>)
    ensures |r| == |s|
  {
    match layout
    case LittleEndian => s
    case BigEndian => Reverse(s)
  }

  lemma OrientedTwice(layout: Layout, s: seq<Byte>)
    ensures Oriented(layout, Oriented(layout, s)) == s
  {
    if layout == BigEndian {
      ReverseReverse(s);
    }
  }

  /** The value of `n` bytes read from the host in host order, as memcpy into a
      `uintN_t` gives it. */
  function HostDecode(layout: Layout, s: seq<Byte>): nat
  {
    DecodeLE(Oriented(layout, s))
  }

  /** The host bytes of an n-byte value, as memcpy from a `uintN_t` writes them. */
  function HostEncode(layout: Layout, v: nat, n: nat): (r: seq<Byte>)
    ensures |r| == n
  {
    Oriented(layout, EncodeLE(v, n))
  }

  /** MEM_ADDR: the host offset of an n-byte object at address `addr` of a memory of `size` bytes. */
  function MemAddr(layout: Layout, size: nat, addr: nat, n: nat): (r: nat)
    requires addr + n <= size
    ensures r + n <= size
  {
    match layout
    case LittleEndian => addr
    case BigEndian => size - addr - n
  }

  /** The n host bytes at MEM_ADDR are the visible bytes addr .. addr + n, in host order. */
  lemma ReadBlock(layout: Layout, host: seq<Byte>, addr: nat, n: nat)
    requires addr + n <= |host|
    ensures var p := MemAddr(layout, |host|, addr, n);
      Oriented(layout, host)[addr..addr + n] == Oriented(layout, host[p..p + n])
  {
    if layout == BigEndian {
      var p := |host| - addr - n;
      var a := Reverse(host)[addr..addr + n];
      var b := Reverse(host[p..p + n]);
      forall i | 0 <= i < n
        ensures a[i] == b[i]
      {
        assert a[i] == host[|host| - 1 - (addr + i)];
        assert b[i] == host[p..p + n][n - 1 - i];
      }
      assert a == b;
    }
  }

  /** Writing n bytes at MEM_ADDR changes exactly the visible bytes addr .. addr + n,
      to those bytes in WebAssembly order. */
  lemma WriteBlock(layout: Layout, host: seq<Byte>, addr: nat, b: seq<Byte>)
    requires addr + |b| <= |host|
    ensures var p := MemAddr(layout, |host|, addr, |b|);
      Oriented(layout, Splice(host, p, b)) == Splice(Oriented(layout, host), addr, Oriented(layout, b))
  {
    var p := MemAddr(layout, |host|, addr, |b|);
    var h := Splice(host, p, b);
    var w := Splice(Oriented(layout, host), addr, Oriented(layout, b));
    assert |Oriented(layout, h)| == |w|;
    forall i | 0 <= i < |w|
      ensures Oriented(layout, h)[i] == w[i]
    {
    }
  }

  /** The same, for a buffer whose first `size` bytes are the memory: a write of
      `b` at MEM_ADDR leaves the bytes past `size` alone. */
  lemma WriteView(layout: Layout, before: seq<Byte>, after: seq<Byte>, size: nat, addr: nat, b: seq<Byte>)
    requires addr + |b| <= size <= |before|
    requires var p := MemAddr(layout, size, addr, |b|);
      after == Splice(before, p, b)
    ensures |after| == |before| && after[size..] == before[size..]
    ensures Oriented(layout, after[..size]) == Splice(Oriented(layout, before[..size]), addr, Oriented(layout, b))
  {
    SpliceBelow(before, MemAddr(layout, size, addr, |b|), b, size);
    WriteBlock(layout, before[..size], addr, b);
  }

  /** Where byte j of a block of n bytes at p comes from after i swaps of the
      load_data loop: the i outermost bytes at each end have changed places. */
  function Mirror(p: nat, n: nat, i: nat, j: nat): (r: nat)
    requires i <= n / 2
    ensures p <= j < p + n ==> p <= r < p + n
    ensures !(p <= j < p + n) ==> r == j
  {
    if p <= j < p + i || p + n - i <= j < p + n then 2 * p + n - 1 - j else j
  }

  /** `after` is `before` with the block of n bytes at p swapped i times. */
  predicate Swapped(before: seq<Byte>, after: seq<Byte>, p: nat, n: nat, i: nat)
  {
    p + n <= |before| == |after| && i <= n / 2
    && forall j :: 0 <= j < |after| ==> after[j] == before[Mirror(p, n, i, j)]
  }

  /** One more swap, of the bytes at p + i and p + n - i - 1, extends the reversal by
      one byte at each end. */
  lemma SwapStep(before: seq<Byte>, after: seq<Byte>, p: nat, n: nat, i: nat)
    requires i < n / 2 && Swapped(before, after, p, n, i)
    ensures Swapped(before, after[p + i := after[p + n - i - 1]][p + n - i - 1 := after[p + i]], p, n, i + 1)
  {
  }

  /** When the two swap cursors meet in the middle, the block holds its old bytes
      in reverse order and everything else is untouched. */
  lemma SwapsMeet(before: seq<Byte>, after: seq<Byte>, p: nat, n: nat, i: nat)
    requires i == n / 2 && Swapped(before, after, p, n, i)
    ensures after == Splice(before, p, Reverse(before[p..p + n]))
  {
    forall j | p <= j < p + n
      ensures after[j] == before[2 * p + n - 1 - j]
    {
      assert after[j] == before[Mirror(p, n, i, j)];
    }
    forall j | 0 <= j < |after| && (j < p || p + n <= j)
      ensures after[j] == before[j]
    {
      assert after[j] == before[Mirror(p, n, i, j)];
    }
    Reversed(before, after, p, n);
  }

  /** `after` is `before` with the block p .. p + n reversed, given index by index. */
  lemma Reversed(before: seq<Byte>, after: seq<Byte>, p: nat, n: nat)
    requires p + n <= |before| == |after|
    requires forall j :: 0 <= j < |after| && (j < p || p + n <= j) ==> after[j] == before[j]
    requires forall j :: p <= j < p + n ==> after[j] == before[2 * p + n - 1 - j]
    ensures after == Splice(before, p, Reverse(before[p..p + n]))
  {
    var want := Splice(before, p, Reverse(before[p..p + n]));
    forall j | 0 <= j < |after|
      ensures after[j] == want[j]
    {
      if p <= j < p + n {
        assert want[j] == before[p..p + n][n - 1 - (j - p)];
      }
    }
  }

  /** A run of equal bytes reads the same in either order. */
  lemma OrientedConstant(layout: Layout, n: nat, b: Byte)
    ensures Oriented(layout, seq(n, _ => b)) == seq(n, _ => b)
  {
  }

  /** RANGE_CHECK(mem, offset, len) against a memory of `size` bytes.  With
      SUPPORT_MEMORY64 the 64-bit sum is checked for overflow first; without it
      the sum is computed in uint64_t and compared. */
  function RangeCheck(memory64: bool, size: nat, offset: nat, len: nat): (r: Result<()>)
    requires offset < U64 && len < U64
    ensures r.Trap? ==> r.kind == OutOfBounds
  {
    if memory64 then
      if offset + len >= U64 then Trap(OutOfBounds)
      else if offset + len > size then Trap(OutOfBounds)
      else Ok(())
    else
      if (offset + len) % U64 > size then Trap(OutOfBounds) else Ok(())
  }

  /** The check traps exactly when the accessed range ends past the memory; with
      SUPPORT_MEMORY64 this holds for every operand, an overflowing sum never
      wrapping to acceptance. */
  lemma RangeCheckExact(memory64: bool, size: nat, offset: nat, len: nat)
    requires offset < U64 && len < U64 && size < U64
    requires memory64 || offset + len < U64
    ensures RangeCheck(memory64, size, offset, len).Trap? <==> offset + len > size
  {
    if !memory64 {
      ModUnique(0, U64, offset + len);
    }
  }

  /** Without SUPPORT_MEMORY64, 32-bit addresses and lengths cannot overflow the sum. */
  lemma RangeCheck32(size: nat, offset: nat, len: nat)
    requires offset < U32 && len < U32 && size < U64
    ensures RangeCheck(false, size, offset, len).Trap? <==> offset + len > size
  {
    RangeCheckExact(false, size, offset, len);
  }

  /** An effective address handed to a load or store: a 64-bit value; in a
      build without SUPPORT_MEMORY64, a 32-bit address plus a 32-bit static
      offset, which the uint64_t sum in RANGE_CHECK cannot overflow. */
  predicate EffectiveAddress(memory64: bool, addr: nat)
  {
    addr < U64 && (memory64 || addr < 2 * U32)
  }

  /** A typed load: the width of the object read (`t1`), whether it is read as
      signed and extended (`t2`), and the width of the result (`t3`). */
  datatype LoadOp = LoadOp(bytes: nat, signed: bool, result: Width)

  const I32Load := LoadOp(4, false, W32)
  const I64Load := LoadOp(8, false, W64)
  const I32Load8S := LoadOp(1, true, W32)
  const I64Load8S := LoadOp(1, true, W64)
  const I32Load8U := LoadOp(1, false, W32)
  const I64Load8U := LoadOp(1, false, W64)
  const I32Load16S := LoadOp(2, true, W32)
  const I64Load16S := LoadOp(2, true, W64)
  const I32Load16U := LoadOp(2, false, W32)
  const I64Load16U := LoadOp(2, false, W64)
  const I64Load32S := LoadOp(4, true, W64)
  const I64Load32U := LoadOp(4, false, W64)

  /** The integer loads of the prelude; the object fits in the result. */
  predicate ValidLoad(l: LoadOp)
  {
    l in {I32Load, I64Load, I32Load8S, I64Load8S, I32Load8U, I64Load8U,
          I32Load16S, I64Load16S, I32Load16U, I64Load16U, I64Load32S, I64Load32U}
  }

  /** A typed store: the width of the object written (`t1`) and of the operand (`t2`). */
  datatype StoreOp = StoreOp(bytes: nat, operand: Width)

  const I32Store := StoreOp(4, W32)
  const I64Store := StoreOp(8, W64)
  const I32Store8 := StoreOp(1, W32)
  const I32Store16 := StoreOp(2, W32)
  const I64Store8 := StoreOp(1, W64)
  const I64Store16 := StoreOp(2, W64)
  const I64Store32 := StoreOp(4, W64)

  predicate ValidStore(s: StoreOp)
  {
    s in {I32Store, I64Store, I32Store8, I32Store16, I64Store8, I64Store16, I64Store32}
  }

  /** Two's-complement reading of a `bits`-bit value. */
  function SignedOf(bits: nat, v: nat): int
    requires bits > 0
  {
    if v < Pow2(bits - 1) then v else v - Pow2(bits)
  }

  /** `(t3)(t2)result`: a signed object is sign-extended to the result width,
      an unsigned one zero-extended. */
  function Extend(l: LoadOp, v: nat): (r: nat)
    requires ValidLoad(l) && v < ByteModulus(l.bytes)
    ensures r < Modulus(l.result)
    ensures !l.signed ==> r == v
    ensures l.signed ==> SignedOf(Bits(l.result), r) == SignedOf(8 * l.bytes, v)
  {
    LoadWidths(l);
    Pow2Monotone(8 * l.bytes, Bits(l.result));
    Pow2Add(8 * l.bytes - 1, 1);
    Pow2Add(Bits(l.result) - 1, 1);
    Pow2Monotone(8 * l.bytes - 1, Bits(l.result) - 1);
    if l.signed && v >= Pow2(8 * l.bytes - 1) then v + Modulus(l.result) - ByteModulus(l.bytes) else v
  }

  lemma LoadWidths(l: LoadOp)
    requires ValidLoad(l)
    ensures 1 <= l.bytes && 8 * l.bytes <= Bits(l.result)
  {
  }

  /** The load as WebAssembly defines it on the visible bytes of a memory. */
  function LoadView(memory64: bool, view: seq<Byte>, addr: nat, l: LoadOp): (r: Result<nat>)
    requires ValidLoad(l) && EffectiveAddress(memory64, addr)
  {
    match RangeCheck(memory64, |view|, addr, l.bytes)
    case Trap(k) => Trap(k)
    case Ok(_) =>
      RangeCheckOk(memory64, |view|, addr, l.bytes);
      DecodeBound(view[addr..addr + l.bytes]);
      Ok(Extend(l, DecodeLE(view[addr..addr + l.bytes])))
  }

  /** The visible bytes after an n-byte store of `v` at `addr`: the low 8n bits, little-endian. */
  function StoreView(view: seq<Byte>, addr: nat, n: nat, v: nat): (r: seq<Byte>)
    requires addr + n <= |view|
    ensures |r| == |view|
  {
    Splice(view, addr, EncodeLE(v % ByteModulus(n), n))
  }

  /** A load past the end of the visible bytes traps with OOB. */
  lemma LoadOutside(memory64: bool, view: seq<Byte>, addr: nat, l: LoadOp)
    requires ValidLoad(l) && EffectiveAddress(memory64, addr) && |view| < U64
    requires addr + l.bytes > |view|
    ensures LoadView(memory64, view, addr, l) == Trap(OutOfBounds)
  {
    RangeCheckExact(memory64, |view|, addr, l.bytes);
  }

  /** A load within the visible bytes extends the value of the object read in host
      order from the host bytes `b` that hold them. */
  lemma LoadInside(memory64: bool, layout: Layout, view: seq<Byte>, addr: nat, l: LoadOp, b: seq<Byte>)
    requires ValidLoad(l) && EffectiveAddress(memory64, addr) && |view| < U64
    requires addr + l.bytes <= |view| && Oriented(layout, b) == view[addr..addr + l.bytes]
    ensures HostDecode(layout, b) < ByteModulus(l.bytes)
    ensures LoadView(memory64, view, addr, l) == Ok(Extend(l, HostDecode(layout, b)))
  {
    RangeCheckExact(memory64, |view|, addr, l.bytes);
    var o := view[addr..addr + l.bytes];
    assert |o| == l.bytes;
    DecodeBound(o);
    assert HostDecode(layout, b) == DecodeLE(o);
  }

  lemma RangeCheckOk(memory64: bool, size: nat, offset: nat, len: nat)
    requires offset < U64 && len < U64 && (memory64 || offset + len < U64)
    requires RangeCheck(memory64, size, offset, len).Ok?
    ensures offset + len <= size
  {
    if !memory64 {
      ModUnique(0, U64, offset + len);
    }
  }

  /** A store followed by a load of the same width at the same address returns the
      stored operand truncated to the object (a narrow store keeps the low 8, 16 or
      32 bits), sign- or zero-extended by the load. */
  lemma StoreThenLoad(memory64: bool, view: seq<Byte>, addr: nat, s: StoreOp, l: LoadOp, v: nat)
    requires ValidStore(s) && ValidLoad(l) && l.bytes == s.bytes
    requires EffectiveAddress(memory64, addr) && addr + s.bytes <= |view| < U64
    ensures LoadView(memory64, StoreView(view, addr, s.bytes, v), addr, l)
      == Ok(Extend(l, v % ByteModulus(l.bytes)))
  {
    var w := StoreView(view, addr, s.bytes, v);
    RangeCheckExact(memory64, |w|, addr, l.bytes);
    var m := ByteModulus(s.bytes);
    SpliceRun(view, addr, EncodeLE(v % m, s.bytes));
    DecodeEncode(v % m, s.bytes);
    ModUnique(0, m, v % m);
  }


  /** A linear memory (`wasm_rt_memory_t`): a host buffer whose first `size`
      bytes are the memory.  The layout and SUPPORT_MEMORY64 are build settings. */
  class Memory {
    const layout: Layout
    const memory64: bool
    var data: array<Byte>
    var size: nat

    predicate Valid()
      reads this
    {
      size <= data.Length && size < U64
    }

    /** The bytes WebAssembly sees, in address order. */
    function View(): (r: seq<Byte>)
      reads this, data
      requires Valid()
      ensures |r| == size
    {
      Oriented(layout, data[..size])
    }

    constructor (layout: Layout, memory64: bool, bytes: seq<Byte>)
      requires |bytes| < U64
      ensures Valid() && this.layout == layout && this.memory64 == memory64
      ensures View() == bytes
      ensures fresh(data)
    {
      this.layout := layout;
      this.memory64 := memory64;
      data := new Byte[|bytes|](i requires 0 <= i < |bytes| => Oriented(layout, bytes)[i]);
      size := |bytes|;
      new;
      assert data[..size] == Oriented(layout, bytes);
      OrientedTwice(layout, bytes);
    }

    /** DEFINE_LOAD under the bounds-check policy: RANGE_CHECK, then the object
        read from MEM_ADDR in host order, then `(t3)(t2)`.  The result depends on
        the visible bytes only, whatever the layout. */
    function Load(addr: nat, l: LoadOp): (r: Result<nat>)
      reads this, data
      requires Valid() && ValidLoad(l) && EffectiveAddress(memory64, addr)
      ensures r == LoadView(memory64, View(), addr, l)
      ensures r.Trap? <==> addr + l.bytes > size
    {
      RangeCheckExact(memory64, size, addr, l.bytes);
      match RangeCheck(memory64, size, addr, l.bytes)
      case Trap(k) =>
        LoadOutside(memory64, View(), addr, l);
        Trap(k)
      case Ok(_) =>
        var b := Read(addr, l.bytes);
        LoadInside(memory64, layout, View(), addr, l, b);
        Ok(Extend(l, HostDecode(layout, b)))
    }

    /** The n host bytes at MEM_ADDR(addr, n): the visible bytes addr .. addr + n in host order. */
    function Read(addr: nat, n: nat): (b: seq<Byte>)
      reads this, data
      requires Valid() && addr + n <= size
      ensures |b| == n && Oriented(layout, b) == View()[addr..addr + n]
    {
      var p := MemAddr(layout, size, addr, n);
      ReadBlock(layout, data[..size], addr, n);
      assert data[..size][p..p + n] == data[p..p + n];
      data[p..p + n]
    }

    /** memcpy / memmove of `b` to host offset `p`. */
    method Write(p: nat, b: seq<Byte>)
      requires p + |b| <= data.Length
      modifies data
      ensures data[..] == Splice(old(data[..]), p, b)
    {
      forall i | 0 <= i < |b| {
        data[p + i] := b[i];
      }
    }

    /** DEFINE_STORE under the bounds-check policy: the operand truncated to the
        object (`(t1)value`), RANGE_CHECK, then the object written at MEM_ADDR in
        host order.  Bytes past `size` are never touched. */
    method Store(addr: nat, s: StoreOp, value: nat) returns (r: Result<()>)
      requires Valid() && ValidStore(s) && EffectiveAddress(memory64, addr)
      requires value < Modulus(s.operand)
      modifies data
      ensures r.Trap? <==> addr + s.bytes > size
      ensures r.Trap? ==> r.kind == OutOfBounds && data[..] == old(data[..])
      ensures r.Ok? ==> View() == StoreView(old(View()), addr, s.bytes, value)
      ensures data[size..] == old(data[size..])
    {
      RangeCheckExact(memory64, size, addr, s.bytes);
      var wrapped := value % ByteModulus(s.bytes);
      r := RangeCheck(memory64, size, addr, s.bytes);
      if r.Trap? {
        return;
      }
      var b := HostEncode(layout, wrapped, s.bytes);
      Write(MemAddr(layout, size, addr, s.bytes), b);
      WriteView(layout, old(data[..]), data[..], size, addr, b);
      OrientedTwice(layout, EncodeLE(wrapped, s.bytes));
    }

    /** load_data: nothing for n = 0; otherwise memcpy of n bytes to host offset
        `p`, then on a big-endian host the bytes are reversed in place. */
    method LoadData(p: nat, src: seq<Byte>, n: nat)
      requires p + n <= data.Length && n <= |src|
      modifies data
      ensures data[..] == Splice(old(data[..]), p, Oriented(layout, src[..n]))
    {
      if n == 0 {
        assert data[..] == Splice(old(data[..]), p, []);
        return;
      }
      Write(p, src[..n]);
      if layout == BigEndian {
        ghost var written := data[..];
        SwapBytes(p, n);
        SpliceRun(old(data[..]), p, src[..n]);
        SpliceTwice(old(data[..]), p, src[..n], Reverse(src[..n]));
      }
    }

    /** The swap loop of load_data on a big-endian host: byte i of the block and
        byte n - i - 1 change places for every i below n / 2. */
    method SwapBytes(p: nat, n: nat)
      requires p + n <= data.Length
      modifies data
      ensures data[..] == Splice(old(data[..]), p, Reverse(old(data[p..p + n])))
    {
      var i := 0;
      while i < n / 2
        invariant 0 <= i <= n / 2
        invariant Swapped(old(data[..]), data[..], p, n, i)
      {
        ghost var b := data[..];
        var cursor := data[p + i];
        data[p + i] := data[p + n - i - 1];
        data[p + n - i - 1] := cursor;
        assert data[..] == b[p + i := b[p + n - i - 1]][p + n - i - 1 := b[p + i]];
        SwapStep(old(data[..]), b, p, n, i);
        i := i + 1;
      }
      SwapsMeet(old(data[..]), data[..], p, n, i);
    }

    /** memory_fill: RANGE_CHECK, then memset of the low byte of `val` over n bytes. */
    method Fill(d: nat, val: nat, n: nat) returns (r: Result<()>)
      requires Valid() && d < U32 && val < U32 && n < U32
      modifies data
      ensures r.Trap? <==> d + n > size
      ensures r.Trap? ==> r.kind == OutOfBounds && data[..] == old(data[..])
      ensures r.Ok? ==> View() == Splice(old(View()), d, seq(n, _ => (val % 256) as Byte))
      ensures data[size..] == old(data[size..])
    {
      RangeCheckExact(memory64, size, d, n);
      r := RangeCheck(memory64, size, d, n);
      if r.Trap? {
        return;
      }
      var b := seq(n, _ => (val % 256) as Byte);
      Write(MemAddr(layout, size, d, n), b);
      WriteView(layout, old(data[..]), data[..], size, d, b);
      OrientedConstant(layout, n, (val % 256) as Byte);
    }

    /** memory_copy: RANGE_CHECK on the destination, then on the source, then
        memmove, which reads every source byte before it is overwritten even when
        the two ranges (or the two memories) are the same. */
    method Copy(src: Memory, d: nat, s: nat, n: nat) returns (r: Result<()>)
      requires Valid() && src.Valid() && src.layout == layout && src.memory64 == memory64
      requires d < U32 && s < U32 && n < U32
      modifies data
      ensures r.Trap? <==> d + n > size || s + n > src.size
      ensures r.Trap? ==> r.kind == OutOfBounds && data[..] == old(data[..])
      ensures r.Ok? ==> View() == Splice(old(View()), d, old(src.View())[s..s + n])
      ensures data[size..] == old(data[size..])
    {
      RangeCheckExact(memory64, size, d, n);
      RangeCheckExact(memory64, src.size, s, n);
      r := RangeCheck(memory64, size, d, n);
      if r.Trap? {
        return;
      }
      r := RangeCheck(memory64, src.size, s, n);
      if r.Trap? {
        return;
      }
      var b := src.Read(s, n);
      ghost var before := data[..];
      Write(MemAddr(layout, size, d, n), b);
      WriteView(layout, before, data[..], size, d, b);
    }

    /** memory_init: the segment range is checked first (`src_size` bytes are
        readable at `src`), then LOAD_DATA checks the destination and copies. */
    method Init(src: seq<Byte>, srcSize: nat, d: nat, s: nat, n: nat) returns (r: Result<()>)
      requires Valid() && srcSize <= |src| && srcSize < U32
      requires d < U32 && s < U32 && n < U32
      modifies data
      ensures r.Trap? <==> s + n > srcSize || d + n > size
      ensures r.Trap? ==> r.kind == OutOfBounds && data[..] == old(data[..])
      ensures r.Ok? ==> View() == Splice(old(View()), d, src[s..s + n])
      ensures data[size..] == old(data[size..])
    {
      if s + n > srcSize {
        return Trap(OutOfBounds);
      }
      RangeCheckExact(memory64, size, d, n);
      r := RangeCheck(memory64, size, d, n);
      if r.Trap? {
        return;
      }
      LoadData(MemAddr(layout, size, d, n), src[s..], n);
      assert src[s..][..n] == src[s..s + n];
      WriteView(layout, old(data[..]), data[..], size, d, Oriented(layout, src[s..s + n]));
      OrientedTwice(layout, src[s..s + n]);
    }
  }
}
