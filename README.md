# musys runtime: byte-level core

A Dafny model of the byte-level half of the musys freestanding C runtime
(`src/fw/musys_libc.c`): the memory primitives (`musys_memset`,
`musys_memcmp`, `musys_memcpy`, `musys_memmove`), the string primitives
(`musys_strlen`, `musys_strcpy`, `musys_strcat`, `musys_strjoin`), the heap
allocator (`musys_alloc`, `musys_free`, `musys_calloc`, `musys_realloc`) and
the pseudo-random generator (`seed`, `musys_srand`, `musys_rand`).

The modules follow the runtime's parts:

- `CTypes` — NULL as `Option`, `unsigned char` as `Byte`, `size_t` as a 64-bit `SizeT`, `int` as `Int32`.
- `Memory` — a C pointer is an `array<Byte>` plus an offset; every write is
  specified as `Splice(old contents, offset, bytes)`. Two different arrays are
  two different C objects and never overlap, so `musys_memmove`'s overlap
  tests can only fire inside one array. `Compare` is the reference definition
  of `musys_memcmp`.
- `Allocator` — the class `Heap` holds the live blocks with the size each
  header records. Whether the host heap grants a request is a parameter
  (`hostGrants`). `ReallocDecision` is `musys_realloc`'s decision tree on
  values; `Heap.Realloc` follows it on the heap.
- `Strings` — `CLen` is the reference definition of a NUL-terminated string's
  length; the methods work in place on arrays, as the C functions do.
- `Prng` — the class `Generator` holds the global `seed`. The step wraps
  modulo 2^32 explicitly. `PrevSeed` runs the step backwards, so the step is a
  bijection and distinct seeds keep distinct states. Distinct seeds can still
  draw the same values: the output ignores bit 31 of the state, and seeds that
  differ only in that bit replay the same sequence forever.

## Model

| member | source | states |
|---|---|---|
| Memory.MemSet | src/fw/musys_libc.c:45-51 | the `sz` bytes from the offset become `(unsigned char)c`, every other byte keeps its value, and the buffer itself is returned |
| Memory.LowByte | src/fw/musys_libc.c:49 | the stored byte is the one congruent to `c` modulo 256, as the conversion `(unsigned char)c` gives |
| Memory.Compare | src/fw/musys_libc.c:206-222 | the byte difference returned is always within -255..255 |
| Memory.CompareZeroIffEqual | src/fw/musys_libc.c:206-222 | the comparison is 0 if and only if the two regions hold the same bytes |
| Memory.CompareAtFirstMismatch | src/fw/musys_libc.c:213-218 | when the regions agree before index i and differ at i, the result is the difference of the bytes at i |
| Memory.CompareAntisymmetric | src/fw/musys_libc.c:206-222 | swapping the operands negates the result |
| Memory.CompareNegativeIffLexLess | src/fw/musys_libc.c:206-222 | the result is negative if and only if the first region sorts byte-wise before the second |
| Memory.MemCmp | src/fw/musys_libc.c:206-222 | the loop returns the reference comparison of the two regions, and 0 exactly when they are equal |
| Memory.MemCpy | src/fw/musys_libc.c:236-239 | for a positive count, the destination region ends up holding the source region's old bytes, the rest of the destination is unchanged, and the destination is returned; this holds for disjoint regions and, thanks to the backward order, when the destination starts at or after the source in one buffer |
| Memory.MemCpyFirstIndex | src/fw/musys_libc.c:238 | the first index written is `count - 1` for a positive count, and `SIZE_MAX` for a count of 0 |
| Memory.CopyBytes | src/fw/musys_libc.c:236-239 | the corrected copy: for every count including 0, the destination region reads back as the source region's bytes and nothing else changes |
| Memory.SpliceOwnBytes | src/fw/musys_libc.c:247-248 | writing a region's own bytes back changes nothing, so the early return for `n == 0` or identical pointers is a correct move |
| Memory.MemMove | src/fw/musys_libc.c:241-262 | whatever the overlap, the destination region ends up holding the source region's old bytes and nothing else changes; the backward, forward and `MemCpy` paths are taken under the source's own tests |
| Allocator.MulWrap | src/fw/musys_libc.c:196 | the `size_t` product is the true product when that fits, and in every case agrees with it modulo 2^64 |
| Allocator.DivideBackDetectsOverflow | src/fw/musys_libc.c:196-197 | for a non-zero size, dividing the wrapped product back by `size` gives `number` if and only if the true product fits in `size_t` |
| Allocator.CallocRejects | src/fw/musys_libc.c:196-198 | the rejection test refuses exactly the zero counts, the zero sizes and the products of 2^64 or more |
| Allocator.Heap.Calloc | src/fw/musys_libc.c:191-204 | NULL if and only if a count is zero, the product overflows or the host heap refuses; otherwise a fresh block of `number * size` zero bytes, recorded as live |
| Allocator.ReallocDecision | src/fw/musys_libc.c:169-189 | the growing path only ever copies fewer bytes than the new size |
| Allocator.ReallocGrowsOnlyWhenTooSmall | src/fw/musys_libc.c:175-185 | for a non-NULL pointer, the block is kept if and only if `0 < size <= recorded size`, and grown if and only if `0 < size` and the recorded size is smaller |
| Allocator.ReallocEmptyBlockUnderflows | src/fw/musys_libc.c:183-185 | as written, growing a block whose header records size 0 passes 0 to `musys_memcpy`, whose first index is then `SIZE_MAX` |
| Allocator.Heap.Realloc | src/fw/musys_libc.c:169-189 | NULL allocates; size 0 frees and gives NULL; a block already big enough comes back as is; otherwise a fresh block of `size` bytes starting with the old block's bytes, the old block freed, or NULL with the old block still live when the host heap refuses |
| Allocator.Heap.Alloc | src/fw/musys_libc.c:228-230 | NULL exactly when the host heap refuses, otherwise a fresh block of the requested size, recorded as live |
| Allocator.Heap.Free | src/fw/musys_libc.c:232-234 | the block stops being live and nothing else changes; NULL changes nothing |
| Strings.CLen | src/fw/musys_libc.c:296-304 | the length is the index of the first zero byte: that byte is zero and none before it is |
| Strings.CLenOfTerminated | src/fw/musys_libc.c:296-304 | bytes without a zero followed by a terminator have their own count as length, whatever comes after |
| Strings.StrLen | src/fw/musys_libc.c:296-304 | the loop returns the index of the first zero byte |
| Strings.StrCpy | src/fw/musys_libc.c:273-278 | `dest` starts with `src`'s old bytes and terminator, its later bytes keep their value, and `dest` is returned; this holds also when `dest` and `src` are the same buffer |
| Strings.StrCpyGivesSource | src/fw/musys_libc.c:273-278 | after the copy `dest` is a string of `src`'s length with `src`'s bytes |
| Strings.StrCat | src/fw/musys_libc.c:264-271 | `b` with its terminator is written over `a`'s terminator, every other byte of `a` keeps its value, and `a` is returned |
| Strings.StrCatAppends | src/fw/musys_libc.c:264-271 | after the append `a` is a string whose length is the sum of the two lengths and whose bytes are `a`'s old string followed by `b`'s |
| Strings.StrJoin | src/fw/musys_libc.c:280-293 | NULL if and only if an argument is NULL; otherwise a fresh block holding the first string's bytes, then the second's, then one terminator, recorded as live with that size; the arguments are not modified |
| Strings.JoinLayout | src/fw/musys_libc.c:289-291 | the two moves and the final store over a block of `len + 1` bytes leave exactly the two strings and a terminator |
| Strings.JoinedString | src/fw/musys_libc.c:287-291 | the joined bytes form a string whose length is the sum of the two lengths |
| Prng.NextSeed | src/fw/musys_libc.c:82 | the new state is congruent to `seed * 0x343fd + 0x269ec3` modulo 2^32 |
| Prng.Wrap32 | src/fw/musys_libc.c:82 | the stored `int` has the same low 32 bits as the mathematical result |
| Prng.Output | src/fw/musys_libc.c:83 | every drawn value lies in 0..32767 |
| Prng.OutputIsBits16To30 | src/fw/musys_libc.c:83 | the value is bits 16 to 30 of the state's 32-bit pattern, whichever way `>>` treats the sign |
| Prng.PrevSeedUndoesNextSeed | src/fw/musys_libc.c:82 | the reverse step recovers the state before any step |
| Prng.NextSeedUndoesPrevSeed | src/fw/musys_libc.c:82 | every state is reached by a step from some state, so the step is onto |
| Prng.NextSeedInjective | src/fw/musys_libc.c:82 | two different states never step to the same state |
| Prng.DistinctSeedsStayDistinct | src/fw/musys_libc.c:75-84 | two different seeds never reach the same state, after any number of draws |
| Prng.HalfTurnCommutesWithStep | src/fw/musys_libc.c:82 | flipping bit 31 of a state and then stepping gives the step's result with bit 31 flipped |
| Prng.HalfTurnSameOutput | src/fw/musys_libc.c:83 | the drawn value is the same for two states that differ only in bit 31 |
| Prng.HalfTurnSameDraws | src/fw/musys_libc.c:75-84 | a seed and the different seed with bit 31 flipped draw the same values, however many draws follow |
| Prng.Draws | src/fw/musys_libc.c:80-84 | `k` draws give `k` values, each within 0..32767 |
| Prng.DrawsSplit | src/fw/musys_libc.c:80-84 | the draws after `j` draws are the draws from the state those `j` draws left |
| Prng.StateAfterSplit | src/fw/musys_libc.c:80-84 | one more draw moves the state one more step |
| Prng.SeedFortyTwo | src/fw/musys_libc.c:75-84 | after seeding with 42 the first three values are 175, 400 and 17869 |
| Prng.SeedFortyTwoHalfATurnOn | src/fw/musys_libc.c:75-84 | seeding with -2147483606 gives the same first three values as seeding with 42 |
| Prng.Generator.constructor | src/fw/musys_libc.c:73 | the state starts at 123456789 |
| Prng.Generator.SRand | src/fw/musys_libc.c:75-78 | seeding sets the state to the given value |
| Prng.Generator.Rand | src/fw/musys_libc.c:80-84 | the state takes one step and the value returned is bits 16 to 30 of the new state, within 0..32767 |
| Prng.SeedAndDraw | src/fw/musys_libc.c:73-84 | seeding with `s` and drawing `k` times gives `Draws(s, k)` and leaves the state `k` steps on: the same seed replays the same values |

## Left out

- The floating-point half of `src/fw/musys_libc.c` (square root, trigonometry, exponentials, powers, rounding, `fmod`, `copysign` and the like) and `src/fw/easing.c`: floating point is outside this model.
- `src/fw/musys_libc.h` is not part of this model; its macros and declarations add no behaviour.
- The host heap (`GetProcessHeap`, `HeapAlloc`, `HeapFree`) is not modelled: whether it grants a request is the `hostGrants` parameter, and a block it grants is a fresh array.
- The header `union` layout (`size`, `is_available`, `next`, 32-byte alignment) is not modelled; only the size field is, as the map `Heap.recorded`.
- Concurrency: the global `seed` and the heap are shared without locking; the model is sequential.
- `size_t` is taken to be 64 bits wide. The source does not fix the width; with 32 bits `SIZE_MODULUS` would be 2^32.
- Allocator.Heap.Realloc: requires `Heap.Valid()`, that each live block's header records its usable size. `musys_alloc` never writes such a header, so as written `musys_realloc` reads bytes that were never set; the model states the assumption the code relies on instead.
- Allocator.Heap.Free: requires a live block; double free and freeing a pointer the heap did not hand out are undefined in the source.
- Memory.MemCpy: requires `count > 0`; with 0 the source's first `count--` wraps to `SIZE_MAX` and writes far outside the buffer (see Findings).
- Allocator.Heap.Realloc: the grow path copies through `Memory.CopyBytes`, the corrected copy, not through the bare `musys_memcpy` of line 185. On a block whose header records size 0 the model copies nothing where the source's copy runs out of bounds (see Findings).
- Memory.MemMove: requires `n` to fit an `int` when both regions lie in one buffer, because the overlap tests compare a pointer distance with `(int)n`.
- Strings.StrCat: requires distinct buffers. With `a == b` and a non-empty string, the source copies `a` onto its own end, never meets a terminator, and writes past the buffer; with an empty string the call is a no-op, which the model also excludes.
- Strings.StrJoin: requires the allocation to succeed when both arguments are non-NULL. The source stores through the result of `musys_alloc` without testing it for NULL, so a refused allocation is undefined behaviour rather than the NULL result a caller might expect.
- Strings.StrJoin: computes each string's length once; the source calls `musys_strlen` again before each move, which gives the same lengths since nothing in between writes to the arguments.
- Strings: a string argument points at the start of its array; strings at an offset inside a buffer are not modelled.
- Prng.Generator.Rand: the source computes `seed * 0x343fd + 0x269ec3` in `int`, where overflow is undefined in C; the model takes two's-complement wrap-around modulo 2^32, and an arithmetic `>>` on negative values (the value drawn is the same under a logical shift).

## Findings

| source | as written | input that shows it | evidently intended | confidence | as-written member | corrected member |
|---|---|---|---|---|---|---|
| src/fw/musys_libc.c:183-185 | `musys_realloc` grows a block by calling `musys_memcpy(ret, ptr, header->s.size)`, and `musys_memcpy` starts with `count--`, so a recorded size of 0 makes the first index `SIZE_MAX` and the copy runs far past both blocks | `musys_realloc(p, 1)` where `p`'s header records size 0 (a block from `musys_alloc(0)` under a header that records its usable size) | growing an empty block copies nothing; the corrected realloc copies through `Memory.CopyBytes`, which copies nothing for a count of 0 | not executed | Allocator.ReallocEmptyBlockUnderflows | Allocator.Heap.Realloc |
