# wasm2c runtime prelude, modelled in Dafny

wasm2c translates a WebAssembly module into C. Every generated C file begins with a fixed
prelude, `src/template/wasm2c.declarations.c`. The prelude defines the operations whose
WebAssembly semantics C does not give directly:

- the bounds check on linear-memory accesses (`RANGE_CHECK`, `MEMCHECK`);
- the mapping of a Wasm address to a host address on little- and big-endian hosts (`MEM_ADDR`);
- the integer loads and stores, with their sign and zero extension;
- the bulk memory operations `memory.fill`, `memory.copy` and `memory.init`, with `load_data`;
- the table operations `table.get`, `table.set`, `table.fill`, `table.copy` and the two `table.init`s;
- the check made before every `call_indirect`, with `func_types_eq`;
- the call-depth counter of `FUNC_PROLOGUE` / `FUNC_EPILOGUE`;
- trapping signed and unsigned division and remainder;
- rotations;
- count-leading-zeros, count-trailing-zeros and population count, both as compiler builtins and
  as the portable fallbacks.

This project models each of them and proves what WebAssembly expects of it.

Conventions used throughout:

- A trap (`TRAP(OOB)`, `TRAP(DIV_BY_ZERO)`, …) is a `Trap(kind)` result. Operations that return
  normally give `Ok(value)`.
- Unsigned words of 32 and 64 bits are naturals below 2^32 and 2^64.
- C's `<<`, `>>`, `|` and `&` are written out as arithmetic (`BitOr` and `BitAnd` are defined
  digit by digit). Only the bit-count code keeps Dafny bit-vectors.
- C's truncating `/` and `%` are defined explicitly (`TruncDiv`, `TruncRem`), because Dafny's
  division is Euclidean.
- A linear memory is a class. It owns a host byte array `data` and the current `size`.
  - The `Layout` constant says whether the host is big-endian (`WABT_BIG_ENDIAN`).
  - On a big-endian host the prelude keeps the memory byte-reversed: Wasm address `a` lives at
    host offset `size - a - 1`.
  - `View()` is the memory as WebAssembly sees it. Every operation is specified on the view.
  - The class keeps the host-side layout in its body.
- A table is a generic class over its element type, with an element array and a size.
- The depth counter is a class whose `depth` field the prologue and epilogue update.

## Model

| member | source | states |
|---|---|---|
| IntOps.DivS | src/template/wasm2c.declarations.c:367-371 | `DIV_S` traps DIV_BY_ZERO exactly when the divisor is 0. It traps INT_OVERFLOW exactly for MIN / -1, and with no other trap kind. Otherwise the result, read as signed, is the C quotient truncated toward zero. |
| IntOps.QuotientFits | src/template/wasm2c.declarations.c:367-371 | Apart from MIN / -1, a truncated signed quotient fits the signed range, so the non-trapping branch of `DIV_S` never wraps. |
| IntOps.QuotientBound | src/template/wasm2c.declarations.c:367-371 | The arithmetic bound behind QuotientFits, for any half-range h. |
| IntOps.RemS | src/template/wasm2c.declarations.c:373-376 | `REM_S` traps (DIV_BY_ZERO) exactly when the divisor is 0. Otherwise the result, read as signed, is C's truncated remainder. MIN % -1 gives 0 and does not trap. |
| IntOps.MinRemMinusOne | src/template/wasm2c.declarations.c:373-376 | MIN reads as -2^(w-1) and the all-ones word as -1. Their truncated remainder is 0, which is the value `REM_S` returns for that case. |
| IntOps.DivRemS | src/template/wasm2c.declarations.c:378-381 | Whenever `I32_DIV_S` / `I64_DIV_S` succeeds, the matching `REM_S` succeeds as well. Then y * quotient + remainder == x, in signed arithmetic. |
| IntOps.DivU | src/template/wasm2c.declarations.c:383-386 | `DIV_U` traps exactly for a zero divisor. Otherwise it returns the quotient rounded down, which never exceeds the dividend. |
| IntOps.RemU | src/template/wasm2c.declarations.c:383-387 | `REM_U` traps exactly for a zero divisor. A remainder is below the divisor and at most the dividend. |
| IntOps.DivRemU | src/template/wasm2c.declarations.c:383-387 | For a non-zero divisor both operations succeed, and y * quotient + remainder == x. |
| IntOps.TruncDivRem | src/template/wasm2c.declarations.c:367-376 | C's truncating quotient and remainder satisfy b*q + r == a, with \|r\| < \|b\| and \|q\| <= \|a\|. |
| IntOps.SignedUnsigned | src/template/wasm2c.declarations.c:367-381 | Reading a word as signed undoes storing a signed value in range. |
| IntOps.UnsignedSigned | src/template/wasm2c.declarations.c:367-381 | Storing the signed reading of a word gives the word back. |
| IntOps.Rotl | src/template/wasm2c.declarations.c:389-390 | `ROTL` rotates the binary digits of x toward the most significant end by y mod w places. |
| IntOps.Rotr | src/template/wasm2c.declarations.c:391-392 | `ROTR` rotates the digits toward the least significant end by y mod w places. |
| IntOps.RotlCorrect | src/template/wasm2c.declarations.c:389-390 | The source's expression `(x << (y & mask)) \| (x >> ((mask - y + 1) & mask))` rotates left by y mod w. This includes y mod w == 0, where both shifts are by 0. |
| IntOps.RotrCorrect | src/template/wasm2c.declarations.c:391-392 | The mirror expression rotates right by y mod w. |
| IntOps.ShiftCounts | src/template/wasm2c.declarations.c:389-397 | With mask = w - 1, `y & mask` is y mod w, and `(mask - y + 1) & mask` on a w-bit word is (w - y mod w) mod w. |
| IntOps.CountMaskLog | src/template/wasm2c.declarations.c:389-397 | The mask argument (31 or 63) is 2^e - 1 for the bit count w = 2^e. The word modulus is a multiple of w. |
| IntOps.RotatedDigits | src/template/wasm2c.declarations.c:389-390 | Moving the high k digits below the rest is a rotation of the digit sequence by k. |
| IntOps.RotateBy | src/template/wasm2c.declarations.c:389-397 | A shift pair `(x << k) \| (x >> (w-k))` rotates by k, for 0 <= k < w. |
| IntOps.RotateDigits | src/template/wasm2c.declarations.c:389-397 | Digit i moves to position i + k, wrapping around at the top. |
| IntOps.RotateDigitsBack | src/template/wasm2c.declarations.c:389-397 | Rotating by k and then by n - k is the identity. |
| IntOps.RotateZero | src/template/wasm2c.declarations.c:389-392 | `ROTL` and `ROTR` by 0 return the word unchanged. The count is masked to 0 and the other shift count to 0 as well. |
| IntOps.RotrRotl | src/template/wasm2c.declarations.c:389-397 | `ROTR(ROTL(x, y), y) == x` for every x and y. |
| IntOps.RotlRotr | src/template/wasm2c.declarations.c:389-397 | `ROTL(ROTR(x, y), y) == x` for every x and y. |
| BitCount.TrailingZeros | src/template/wasm2c.declarations.c:304-305 | The number of trailing zero digits: all digits below it are 0, and the digit at it is 1 when it exists. |
| BitCount.TrailingZerosUnique | src/template/wasm2c.declarations.c:304-305 | Those two facts determine the count. |
| BitCount.Ctz | src/template/wasm2c.declarations.c:304-305 | `I32_CTZ` / `I64_CTZ`, `x ? __builtin_ctz(x) : w`, is the number of trailing zero digits of the w-digit word. This includes 0, which gives w. |
| BitCount.TrailingZerosOfWord | src/template/wasm2c.declarations.c:304-305 | For a non-zero word the digit count agrees with the builtin's exponent of the lowest set bit. |
| BitCount.Clz | src/template/wasm2c.declarations.c:302-303 | `I32_CLZ` / `I64_CLZ`, `x ? __builtin_clz(x) : w`, is the number of leading zero digits of the w-digit word. This includes 0, which gives w. |
| BitCount.LeadingZerosOfWord | src/template/wasm2c.declarations.c:302-303 | The leading zero digits of a word number w minus its bit length. |
| BitCount.CtzPortable | src/template/wasm2c.declarations.c:309-317 | The portable `_CTZ` loop returns the same count as the builtin definition, including w for 0. |
| BitCount.RevStepAsWritten | src/template/wasm2c.declarations.c:323-327 | One pass of the `_REV` loop as written keeps `r` a word. It sends a counter of 0 or 1 back to 1, and never raises a counter of 2 or more. |
| BitCount.RevAsWritten | src/template/wasm2c.declarations.c:319-329 | The `_REV` loop as written, run with fuel: a result is always a word, and a loop that starts below the width returns one only after at least one pass. |
| BitCount.RevAsWrittenDiverges | src/template/wasm2c.declarations.c:319-329 | The portable `_REV` as written never finishes its loop, for any fuel (see Findings). |
| BitCount.Rev | src/template/wasm2c.declarations.c:319-329 | The corrected `_REV` reverses the w binary digits of x. |
| BitCount.ClzPortable | src/template/wasm2c.declarations.c:331-334 | The portable `_CLZ` (CTZ of REV) equals the builtin definition of the leading-zero count. |
| BitCount.BitLengthBound | src/template/wasm2c.declarations.c:302-303 | A word below 2^n has at most n significant digits. |
| PopCount.Popcnt32Correct | src/template/wasm2c.declarations.c:354-362 | The portable `I32_POPCNT` (the function `PopCount.Popcnt32`) (three SWAR steps and a multiply by ~0/255) equals `__builtin_popcount`, the number of one bits, for every 32-bit word. |
| PopCount.Popcnt64Correct | src/template/wasm2c.declarations.c:354-363 | The portable `I64_POPCNT` (the function `PopCount.Popcnt64`), narrowed to its u32 result, equals `__builtin_popcountll` for every 64-bit word. |
| PopCount.PortableMasks32 | src/template/wasm2c.declarations.c:356-359 | `~0/3`, `~0/15*3`, `~0/255*15` and `~0/255` on 32 bits are the masks 0x55…, 0x33…, 0x0F… and 0x01…. |
| PopCount.PortableMasks64 | src/template/wasm2c.declarations.c:356-359 | The same masks on 64 bits. |
| PopCount.Swar8Count | src/template/wasm2c.declarations.c:356-358 | The three SWAR steps on one byte leave the number of its one bits. |
| PopCount.LanesCount32 | src/template/wasm2c.declarations.c:356-358 | After the SWAR steps, the four bytes of a 32-bit word hold counts that add up to the word's popcount. |
| PopCount.LanesCount64 | src/template/wasm2c.declarations.c:356-358 | The same for the eight bytes of a 64-bit word. |
| PopCount.TopByte32 | src/template/wasm2c.declarations.c:359 | Multiplying the spread word by 0x01010101 and shifting by 24 gives the sum of its bytes. |
| PopCount.TopByte64 | src/template/wasm2c.declarations.c:359 | The same for 64 bits and a shift by 56. |
| PopCount.Sum32 | src/template/wasm2c.declarations.c:359 | When every byte is below 16, the top byte of the product by 0x01010101 is the byte sum, with no carry. |
| PopCount.Sum64 | src/template/wasm2c.declarations.c:359 | The 64-bit counterpart. |
| LinearMemory.MemAddr | src/template/wasm2c.declarations.c:17-21 | The host offset of an n-byte object: addr on a little-endian host and size - addr - n on a big-endian one. The object always lies within the memory. |
| LinearMemory.ReadBlock | src/template/wasm2c.declarations.c:17-21 | The bytes at `MEM_ADDR(addr, n)`, taken in host order, are the Wasm bytes addr..addr+n. |
| LinearMemory.WriteBlock | src/template/wasm2c.declarations.c:17-21 | Writing host-ordered bytes at `MEM_ADDR` changes exactly Wasm bytes addr..addr+n of the view. |
| LinearMemory.WriteView | src/template/wasm2c.declarations.c:17-21 | The same for a host array longer than the memory. Bytes beyond `size` are untouched. |
| Base.Reverse | src/template/wasm2c.declarations.c:17-21 | Element i of the reversal is element n-1-i of the input (the byte order of a block, the digit order of a word). |
| LinearMemory.ReverseReverse | src/template/wasm2c.declarations.c:17-21 | Reversing twice is the identity. |
| LinearMemory.OrientedTwice | src/template/wasm2c.declarations.c:17-21 | Host order and Wasm order convert into each other. |
| LinearMemory.RangeCheck | src/template/wasm2c.declarations.c:113-125 | `RANGE_CHECK` traps only with OOB. |
| LinearMemory.RangeCheckExact | src/template/wasm2c.declarations.c:113-121 | The check traps exactly when offset + len > size. In the memory64 build this holds for every u64 operand, because `__builtin_add_overflow` catches the wrap. |
| LinearMemory.RangeCheck32 | src/template/wasm2c.declarations.c:123-124 | With u32 offset and length, the 32-bit form `offset + (uint64_t)len > size` traps exactly when the range overruns. |
| LinearMemory.RangeCheckOk | src/template/wasm2c.declarations.c:113-125 | A passing check guarantees offset + len <= size. |
| LinearMemory.DecodeBound | src/template/wasm2c.declarations.c:198-206 | A value read from n bytes is below 256^n. |
| LinearMemory.DecodeEncode | src/template/wasm2c.declarations.c:208-214 | Reading back n stored bytes gives the value modulo 256^n: the `(t1)value` truncation of a store. |
| LinearMemory.EncodeDecode | src/template/wasm2c.declarations.c:198-214 | Storing a loaded value over its own bytes gives the same bytes. |
| LinearMemory.Extend | src/template/wasm2c.declarations.c:198-206 | The `(t3)(t2)result` conversions. An unsigned load keeps the value. A signed load keeps the signed reading of the loaded bytes in the wider result type. The result fits the result type. |
| LinearMemory.LoadWidths | src/template/wasm2c.declarations.c:218-231 | Every integer load instance reads 1 to 8 bytes, and no more bits than its result type holds. |
| LinearMemory.StoreThenLoad | src/template/wasm2c.declarations.c:198-240 | A load of the bytes just stored at the same address, with the same width, returns the stored value truncated to that width and then extended by the load. |
| LinearMemory.Memory.constructor | src/template/wasm2c.declarations.c:17-21 | A memory built from a Wasm byte sequence has that sequence as its view. |
| LinearMemory.Memory.View | src/template/wasm2c.declarations.c:17-21 | The view has `size` bytes. |
| LinearMemory.Memory.Load | src/template/wasm2c.declarations.c:198-206 | A checked `DEFINE_LOAD` traps exactly when addr + sizeof(t1) > size. Otherwise it returns the extended little-endian value of the Wasm bytes at addr, on both host layouts. |
| LinearMemory.Memory.Read | src/template/wasm2c.declarations.c:17-21 | The host bytes at `MEM_ADDR(addr, n)`, oriented, are the view's bytes at addr. |
| LinearMemory.Memory.Write | src/template/wasm2c.declarations.c:208-214 | A host-side memcpy replaces exactly the written run of the host array. |
| LinearMemory.Memory.Store | src/template/wasm2c.declarations.c:208-214 | A checked `DEFINE_STORE` traps exactly when addr + sizeof(t1) > size, and then changes nothing. Otherwise the view becomes the old view with the little-endian bytes of the value spliced in at addr. |
| LinearMemory.Memory.LoadData | src/template/wasm2c.declarations.c:165-178 | `load_data` copies n bytes to the host address and, on a big-endian host, reverses them. For n == 0 it does nothing. |
| LinearMemory.Memory.SwapBytes | src/template/wasm2c.declarations.c:171-177 | The big-endian swap loop reverses the n bytes at the host offset in place, and nothing else. |
| LinearMemory.Memory.Fill | src/template/wasm2c.declarations.c:631-634 | `memory_fill` traps exactly when d + n > size. Otherwise n Wasm bytes from d become `val` truncated to a byte. |
| LinearMemory.Memory.Copy | src/template/wasm2c.declarations.c:636-644 | `memory_copy` traps exactly when either range overruns its memory. Otherwise the destination view holds the old source bytes s..s+n at d. This holds even when source and destination overlap in the same memory (memmove). |
| LinearMemory.Memory.Init | src/template/wasm2c.declarations.c:646-655 | `memory_init` traps when the segment range or the memory range overruns. Otherwise the view holds segment bytes s..s+n at d, through `LOAD_DATA` (lines 180-184). |
| Tables.Table.constructor | src/template/wasm2c.declarations.c:731-740 | A table built from a sequence holds that sequence. |
| Tables.Table.Contents | src/template/wasm2c.declarations.c:731-740 | The contents have `size` elements. |
| Tables.Table.Get | src/template/wasm2c.declarations.c:731-740 | `table_get` traps OOB exactly when i >= size. Otherwise it returns element i. |
| Tables.Table.Set | src/template/wasm2c.declarations.c:742-751 | `table_set` traps OOB exactly when i >= size, and then changes nothing. Otherwise only element i changes, to the new value. |
| Tables.Table.Fill | src/template/wasm2c.declarations.c:753-766 | `table_fill` traps OOB exactly when d + n > size. Otherwise elements d..d+n become the value and every other element is kept. |
| Tables.Table.Copy | src/template/wasm2c.declarations.c:715-729 | `table_copy` traps OOB exactly when either range overruns. Otherwise elements d..d+n of the destination are the old source elements s..s+n, even for overlapping ranges of one table (memmove). |
| Tables.FilledContents | src/template/wasm2c.declarations.c:753-766 | A host array written only in d..d+n, with the value, holds the filled contents. |
| Tables.SplicedContents | src/template/wasm2c.declarations.c:715-729 | A host array written only in d..d+n, with a block, holds the spliced contents. |
| Tables.Resolve | src/template/wasm2c.declarations.c:681-697 | One element expression. RefNull gives the null funcref. RefFunc gives the expression's type, function and tail-callee, with instance `module_instance + module_offset`. GlobalGet gives the funcref read through the global at that address. |
| Tables.Resolved | src/template/wasm2c.declarations.c:678-698 | The n resolved expressions starting at the source index. |
| Tables.FuncrefTableInit | src/template/wasm2c.declarations.c:665-699 | `funcref_table_init` traps OOB exactly when the segment range or the table range overruns. Otherwise table slots d..d+n hold the resolved expressions s..s+n and every other slot is kept. |
| Tables.ExternrefTableInit | src/template/wasm2c.declarations.c:702-713 | Corrected `externref_table_init`: the same traps, then slots d..d+n become the null externref. |
| Tables.ExternrefTableInitAsWritten | src/template/wasm2c.declarations.c:702-713 | The as-written function on the table's bytes: the same traps, then n zero bytes at byte offset d. |
| Tables.ExternrefTableInitMissesSlot | src/template/wasm2c.declarations.c:712 | Table [v, v] with v non-null, d = 1, n = 1. The as-written code zeroes a byte of slot 0 and leaves slot 1 holding v (see Findings). |
| Tables.SlotBytes | src/template/wasm2c.declarations.c:702-713 | The host bytes of an externref table: 8 bytes per slot. |
| Guards.FuncTypesEqMeaning | src/template/wasm2c.declarations.c:88-91 | When one address holds one type id, `func_types_eq` (the predicate `Guards.FuncTypesEq`: pointer equality, or two non-null pointers with equal 32-byte ids) holds exactly for equal types. |
| Guards.CheckCallIndirect | src/template/wasm2c.declarations.c:96-99 | `CHECK_CALL_INDIRECT` passes exactly when x < size, the slot's function is non-NULL and the types match under `func_types_eq`. Every failure traps CALL_INDIRECT. A pass yields slot x. |
| Guards.CallIndirectTypeSafe | src/template/wasm2c.declarations.c:96-99 | With coherent type pointers the check passes exactly when slot x holds a non-null function of the expected type. |
| Guards.Enter | src/template/wasm2c.declarations.c:76 | `++wasm_rt_call_stack_depth` on the u32 counter: depth + 1 below 2^32, wrapping at the top. |
| Guards.Leave | src/template/wasm2c.declarations.c:79 | `--wasm_rt_call_stack_depth`: depth - 1 above 0, wrapping at 0. |
| Guards.LeaveEnter | src/template/wasm2c.declarations.c:75-79 | An epilogue undoes a prologue for every counter value, the wrap included. |
| Guards.Step | src/template/wasm2c.declarations.c:75-77 | A prologue either traps EXHAUSTION or proceeds. |
| Guards.Nesting | src/template/wasm2c.declarations.c:75-77 | From a depth within the limit, n nested prologues succeed exactly when depth + n <= limit, reaching depth + n. Otherwise they trap EXHAUSTION. |
| Guards.CallStack.constructor | src/template/wasm2c.declarations.c:74-79 | The counter starts at 0 with the configured limit. |
| Guards.CallStack.Prologue | src/template/wasm2c.declarations.c:75-77 | `FUNC_PROLOGUE` increments the counter and then traps EXHAUSTION exactly when the new value exceeds the limit. Entering at the limit traps and leaves limit + 1. |
| Guards.CallStack.Epilogue | src/template/wasm2c.declarations.c:79 | `FUNC_EPILOGUE` decrements the counter. |

## Left out

- Segue (lines 23-70, 129-138): the x86-64 segment-register fast path for the memory base. It is a host pointer detail with the same semantics as `MEM_ADDR`, which is modelled.
- `MEMCHECK` under the guard-page and the unchecked policies (lines 140-147) is left out. Those builds rely on hardware page faults or do no check at all. Only the bounds-check policy, with `RANGE_CHECK`, is modelled.
- The `WASM_RT_NONCONFORMING_MEMCHECK_NONE` variants of `DEFINE_LOAD`, `DEFINE_STORE`, `RANGE_CHECK` and `CHECK_CALL_INDIRECT` (lines 93-94, 110-111, 186-196) are left out: they omit the checks by design.
- `FORCE_READ_INT` / `FORCE_READ_FLOAT` (lines 150-163): an optimisation barrier with no effect on values.
- Floating point (lines 399-629, the f32/f64 loads and stores of lines 220-221 and 234-235): floating point is outside this model.
- The MSVC intrinsic branch (lines 242-296) is left out. It defines only CLZ and CTZ, through `_BitScanReverse` / `_BitScanForward`, and computes the same counts as the GCC builtins, which are modelled.
- `DO_CALL_INDIRECT` and `CALL_INDIRECT` (lines 102-108): the call itself is a foreign call through a function pointer. Only the check before it is modelled.
- The function-type declaration macros and the remaining plumbing (lines 768-794): declarations only.
- `wasm-rt.h` is not part of this model:
  - `wasm_rt_funcref_nullify` is taken to produce the funcref with null type, function and instance;
  - the externref null value is taken to be 0;
  - the trap handler that resets the depth counter after a trap is not modelled;
  - `WASM_RT_MAX_CALL_STACK_DEPTH` is a parameter, constrained to leave room for one increment (limit + 1 < 2^32).
- Guards.CallStack.Prologue: the trap is returned as a result rather than aborting, so a caller could go on after it. The counter value left by a trap is still stated.
- LinearMemory.Memory.Load: requires the address to be a valid effective address (`EffectiveAddress`), that is, below 2^64 and, without memory64, below 2^33. This is the sum of a u32 operand and a u32 offset. A larger address cannot reach the 32-bit build.
- LinearMemory.Memory.Store: requires the address to be a valid effective address (`EffectiveAddress`), as LinearMemory.Memory.Load does. Without memory64, `DEFINE_STORE` takes any u64 address. `RANGE_CHECK` adds in u64 and wraps (lines 123-124), so an address near 2^64 passes the check and the store lands outside the memory. Generated code cannot form such an address, since it adds a u32 operand to a u32 offset. That out-of-bounds write is not modelled.
- LinearMemory.Memory.Copy: requires both memories to share the host layout and the memory64 setting, as all memories of one compiled module do.
- Tables.Table.Copy: models `table_copy` between two table objects. Copying within one table is the same call with the same object passed twice, and the contract holds then too.
- `wasm_rt_memcpy` and `memmove` are modelled by their effect on the bytes. How they copy, and in which order, is not modelled.
- The in-place swap loop of `load_data` is modelled in place on the host array. Other host memory effects, such as aliasing of `src` with the destination memory, are not modelled: the segment is a value.
- BitCount.RevAsWrittenDiverges: the as-written `_REV` is modelled with a fuel bound. The lemma shows that no fuel ends the loop, not that C's loop runs forever.
- BitCount.ClzPortable: the model runs the portable `_CLZ` over the corrected `_REV`. As written, the source's `_CLZ` never returns (see Findings).
- Tables.ExternrefTableInitAsWritten: models the externref slots as 8 little-endian bytes each, the host representation of a pointer-sized handle on a 64-bit little-endian host.

The code is followed where the specification describes the behaviour differently:

- An out-of-range `call_indirect` index traps with CALL_INDIRECT, not OOB, because the bounds test is part of `CHECK_CALL_INDIRECT` itself (lines 95-99).
- The call-depth counter is incremented before it is compared with the limit (lines 76-77), so after a trap it holds one more than the limit.

## Findings

| source | as written | input that shows it | evidently intended | confidence | as-written member | corrected member |
|---|---|---|---|---|---|---|
| src/template/wasm2c.declarations.c:326 | The `_REV` loop shifts the counter, `i >>= 1`, instead of the operand. `i` falls back to 0 on every pass and the loop never ends. `x` is never shifted either. | any x, 32 or 64 bits, on a build without GCC/Clang/MSVC | `x >>= 1`: reverse the digits of x, so that `_CLZ` is CTZ of the reversal | not executed | BitCount.RevAsWrittenDiverges | BitCount.Rev |
| src/template/wasm2c.declarations.c:712 | `memset` clears n bytes at byte offset `dest_addr` of the element array, not n elements at index `dest_addr`. | table [v, v] with v non-null, d = 1, s = 0, n = 1: slot 1 keeps v and a byte of slot 0 is cleared | set slots d..d+n to the null externref | not executed | Tables.ExternrefTableInitMissesSlot | Tables.ExternrefTableInit |
