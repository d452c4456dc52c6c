# raki decode helpers in Dafny

This project models the shared core of the RISC-V instruction decoder in
`src/decode.rs` of raki, a Rust crate that turns 16-bit (compressed) and 32-bit
instruction words into structured instructions. The core has four parts:

- the RV64 gate `only_rv64`. It lets an opcode through under `Isa::Rv64` and rejects it with `OnlyRv64Inst` under `Isa::Rv32`;
- the closed error set `DecodingError`, with its eight kinds;
- sign extension `to_signed_nbit`. It turns the low `bit_size` bits of an `i32` into a signed value. This is how RISC-V immediates become numbers (section 2.3, "Immediate Encoding Variants", of the RISC-V Unprivileged ISA);
- the bit-field primitives `slice` and `set`. `slice` takes a contiguous bit range. `set`, read by its worked example, gathers bits from listed positions, most significant first.

Files and modules:

- `wrappers.dfy` (`Wrappers`): Rust's `Option` and `Result`.
- `bits.dfy` (`Bits`): `i32`/`u32` as subset types of `int`, and powers of two. It also holds bit `i` of an integer in two's complement; Dafny's `/` by a positive divisor rounds down, so `(x / 2^i) % 2` is that bit for negative `x` too. Rust's `&` and arithmetic `>>` on `i32` are written out bit by bit (`BitAnd32`) and halving by halving (`ShiftRight32`). They model language operators, not functions of the source, so their meaning is stated by the lemmas `MaskIsMod` and `ShiftRightIsDiv`, which connect them to `%` and `/`.
- `decode.dfy` (`Decode`): `Isa`, `DecodingError`, `OnlyRv64`, and the shapes of the `Decode` trait's operations.
- `decode_util.dfy` (`DecodeUtil`): `ToSignedNBit` (`to_signed_nbit`), `Slice` (`slice`), `Gather` (`set`), and the lemmas about them.

`ToSignedNBit` follows the Rust expression operator for operator. The mask is
`2^n - 1` and the `&` is a bitwise AND. The sign test is
`(imm >> (n - 1)) & 1 == 1`; Rust ranks `&` above `==`. The subtraction of
`2^n` comes last. Its partner is the predicate `IsSignExtension`. It holds when
the result is the one value of the signed `n`-bit range that agrees with the
input modulo `2^n`. The contract of `ToSignedNBit` states that it always
computes this value, and `ToSignedNBitUnique` proves that no other value
qualifies.

The bodies of `slice` and `set` live in files that are not part of this model.
Both are specified by their documentation as recursive functions: `slice` by
its prose, `set` by its worked example. `Slice` has a closed form
(`SliceIsShiftMod`) and a bit-by-bit description (`SliceBit`). `Gather` has a
bit-by-bit description (`GatherBit`) and a composition law (`GatherAppend`), and
equals `Slice` on a descending run of positions (`GatherDescendingIsSlice`).

## Model

| member | source | states |
|---|---|---|
| Decode.OnlyRv64 | src/decode.rs:7-13 | The gate fails exactly when the ISA is RV32. The only error it can give is `OnlyRv64Inst`. On RV64 it returns the opcode unchanged. |
| Decode.OnlyRv64VerdictIgnoresOpcode | src/decode.rs:8-13 | Whether the gate accepts depends only on the ISA, never on the opcode. |
| Decode.OnlyRv64Idempotent | src/decode.rs:8-13 | Passing an accepted opcode through the gate again returns the same result. |
| Bits.MaskIsMod | src/decode.rs:86 | For `0 <= n <= 30`, the `i32` expression `x & (2^n - 1)` equals `x mod 2^n`, negative `x` included. |
| Bits.ShiftRightIsDiv | src/decode.rs:87 | `i32` arithmetic `a >> k` is floor division of `a` by `2^k`. |
| DecodeUtil.SignTestIsBit | src/decode.rs:86-87 | The test `(x & (2^n - 1)) >> (n - 1) & 1` equals bit `n - 1` of `x`. |
| DecodeUtil.ToSignedNBitCases | src/decode.rs:85-92 | With bit `n - 1` clear, the result is `x mod 2^n` and non-negative. With it set, the result is `x mod 2^n - 2^n` and negative. |
| DecodeUtil.ToSignedNBit | src/decode.rs:81-92 | For `1 <= n <= 30`, the result lies in `[-2^(n-1), 2^(n-1) - 1]` and agrees with the input modulo `2^n`: it is the sign extension of the low `n` bits. |
| DecodeUtil.ToSignedNBitUnique | src/decode.rs:81-92 | Any value in the signed `n`-bit range that agrees with `x` modulo `2^n` is the result. So the result is pinned down by its meaning. |
| DecodeUtil.ToSignedNBitLowBitsOnly | src/decode.rs:86 | Inputs that agree modulo `2^n` give the same result. Only the low `n` bits matter. |
| DecodeUtil.ToSignedNBitIdempotent | src/decode.rs:85-92 | Applying it twice with the same width gives the same result as applying it once. |
| DecodeUtil.ToSignedNBitFixedPoint | src/decode.rs:85-92 | It returns its input unchanged exactly when the input lies in the signed `n`-bit range (both directions). |
| DecodeUtil.ToSignedNBitRecoversTruncation | src/decode.rs:81-92 | Keep only the low `n` bits of a signed `n`-bit immediate, as an encoder does. Sign-extending those bits gives back the immediate. |
| DecodeUtil.Slice | src/decode.rs:54-65 | `slice(v, end, start)`: bits `start` to `end` inclusive, right-aligned. The result is below `2^(end - start + 1)`. |
| DecodeUtil.SliceBit | src/decode.rs:54-55 | Bit `i` of the slice is bit `start + i` of `v` for `i <= end - start`. Every bit above that is clear. |
| DecodeUtil.SliceIsShiftMod | src/decode.rs:54-65 | The slice equals `(v / 2^start) mod 2^(end - start + 1)`. |
| DecodeUtil.SliceDocumentationExample | src/decode.rs:54-61 | By the prose, `0b0101_0101_1001.slice(5, 2)` is `0b0110`. |
| DecodeUtil.SliceSixToTwoExample | src/decode.rs:58-60 | The value `0b1_0110` in the doc example is bits 6..2 of that word, not bits 5..2. |
| DecodeUtil.Gather | src/decode.rs:67-76 | `set(v, mask)` packs bit `mask[i]` of `v` into output bit `len - 1 - i`. The result is below `2^len(mask)`. |
| DecodeUtil.GatherBit | src/decode.rs:67-76 | Output bit `j` is bit `mask[len - 1 - j]` of `v` for `j < len`. Every higher bit is clear. |
| DecodeUtil.GatherFitsWord | src/decode.rs:76 | With at most 32 positions, the result fits the `u32` that `set` returns. |
| DecodeUtil.GatherAppend | src/decode.rs:67-76 | Gathering `high ++ low` equals `gather(high) * 2^len(low) + gather(low)`; this is how a split immediate is reassembled. |
| DecodeUtil.GatherDescendingIsSlice | src/decode.rs:54-76 | Gathering the positions `end, end - 1, ..., start` equals `slice(v, end, start)`. |
| DecodeUtil.GatherAllBitsIsIdentity | src/decode.rs:67-76 | Gathering positions `n - 1` down to `0` keeps the low `n` bits. For `v < 2^n` it is the identity. |
| DecodeUtil.GatherDocumentationExample | src/decode.rs:67-73 | Positions `[7, 5, 3, 2, 0, 6, 4, 1]` of `0b1010_1101` give `0b1111_1000`. |

## Left out

- `mod inst_16` and `mod inst_32` (src/decode.rs:1-2) are not part of this model. They hold the per-opcode field tables and the real `Decode` implementations.
- `DecodeUtil::extension` (src/decode.rs:79) has no body and no documented mapping, so it is not modelled.
- The `Decode` trait (src/decode.rs:37-50) is only its signatures. It becomes `Decode.DecodeOps`, a datatype of function-valued fields with the trait's argument and `Result`/`Option` result shapes. No behaviour is stated for it. There is no ordering of the parses, no 16/32-bit length check and no short-circuit rule.
- `Instruction`, `OpcodeKind` and `Extensions` come from `crate::instruction`, which is not part of this model. `OpcodeKind` is the type parameter of `OnlyRv64`. `Instruction` is a type parameter of `DecodeOps`.
- `ToSignedNBit`: bit sizes outside `1..=30` are excluded by its precondition. At 0 the `u32` expression `bit_size - 1` underflows. At 31 and 32, `2_i32.pow(bit_size)` overflows `i32`: it panics when overflow checks are on, and when they are off the wrapped arithmetic happens to give the correct 31- and 32-bit sign extensions. Neither the panic nor the wrap-around is modelled. The unused `&self` receiver is dropped.
- `Slice` and `Gather` take the word as an unbounded natural and positions as naturals, so a position past the word's width reads as a clear bit. The source bodies are elsewhere, so what they do with a shift of 32 or more is unknown and not modelled. `Slice` requires `start <= end`, as the documented range `[end, start]` implies.
- `#[derive(Debug)]` (src/decode.rs:16) and the `ignore`d doctests are formatting and test plumbing. They have no counterpart here.
- The doc comments of `Not16BitInst` and `Not32BitInst` (src/decode.rs:18-21) are kept on the constructors as the source writes them. Decoding is not modelled, so nothing depends on which direction each error names.
- `Gather`: `set` returns a `u32` (src/decode.rs:76), but `Gather` accepts masks of any length, so for more than 32 positions its result can exceed `2^32`. What `set` does with such a mask is not part of this model. `GatherFitsWord` states the `u32` bound for masks of at most 32 positions.
- The documentation of `set` reads as if the bits of the value were scattered to the listed positions. Its worked example fits only a gather, so the gather is modelled. The `slice` example (`0b1_0110` for range 5..2) contradicts its prose, so the prose is modelled. Both are noted in comments beside `Gather` and `SliceDocumentationExample`.
