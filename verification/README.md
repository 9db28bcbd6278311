# hypeerlog in Dafny

A model of the core of the Rust crate `hypeerlog`, a HyperLogLog cardinality
estimator that uses a streaming MurmurHash3 (x86_32) hasher by default.

- `ints.dfy` (`Ints`) holds Rust's `u8`, `u32` and `u64` as ranges of mathematical integers.
- `bits.dfy` (`Bits`) holds the integer helpers of `src/utils.rs`: `pow_two`, `get_bucket` and `longest_run`.
  Bit operations are defined arithmetically: `>>` is repeated halving, `&` is bitwise and, `trailing_zeros` is the index of the lowest set bit, and 64 for zero.
  The contracts say which bits of the hash each helper reads.
- `murmur.dfy` (`Murmur`) holds `Murmur3Hasher` and `Murmur3BuildHasher` of `src/murmur.rs`.
  - Words are `bv32`, so `wrapping_mul`, `rotate_left`, `wrapping_shr` and `^` wrap around exactly as they do on `u32`.
  - A reference definition of MurmurHash3_x86_32 over a whole byte string follows the structure of the C reference: a block loop over block indices and a fall-through tail switch. It shares the mixing steps (`BlockStep`, `ScrambleK1`, `FromLeBytes`, `Fmix32`, `Finalise`) with the hasher, so those steps are pinned only by the published test vectors. The vectors cover the empty input, tails of one and three bytes, one whole block, and three whole blocks with a tail.
  - The streaming hasher is proved to compute the reference hash of the concatenation, however the bytes are split over `write` calls.
- `hll.dfy` (`Hll`) holds the estimator of `src/lib.rs`: its constructors, `add` and `batch_add`, and the discrete part of `estimate_card`.
  That part is the zero-register count, the exact-zero branch and the choice of the bias constant.
  `Hll.EstimateCard` chooses the bias constant the way the code is written. `Hll.EstimateCardCorrected` chooses it the way HyperLogLog intends (see "## Findings").
  - `add` is modelled once on the 64-bit hash (`Add`), generic over the hash builder.
  - It is modelled once more on the Murmur3-backed estimator, fed the byte chunks a value's `Hash` implementation writes (`AddBytes`).

The estimator keeps one invariant (`Hll.Invariant`): the precision is in 4..20 and there is one register per bucket.
The main results are:
- Adding is idempotent and commutative.
- A batch gives the same registers in any order, and it is characterised by a per-register maximum.
- A fresh estimator estimates exactly zero, and after any insertion it does not.
- A Murmur3-backed estimator only stores run lengths up to `32 - p`, or 65: every constructor starts that way, and `add` and `batch_add` keep it.

## Model

| member | source | states |
|---|---|---|
| Bits.PowTwo | src/utils.rs:2-6 | for `p <= 31`, `1 << p` is `2^p` and fits in a `u32` |
| Bits.TrailingZeros | src/utils.rs:23 | `trailing_zeros` of a `u64`: 64 exactly for zero; otherwise the bit at the result is set and every lower bit is clear |
| Bits.GetBucket | src/utils.rs:9-19 | the bucket is the hash's low `precision` bits, `hash mod 2^precision`, so it is below `2^precision`; precision 0 gives bucket 0 |
| Bits.LongestRun | src/utils.rs:22-24 | the run is between 1 and 65; it is 65 exactly when the bits above `precision` are all zero; otherwise it is one plus the number of zero bits from `precision` up to the first set bit |
| Bits.GetBucketReadsLowBits | src/utils.rs:13-18 | two hashes that agree below `precision` get the same bucket |
| Bits.LongestRunReadsHighBits | src/utils.rs:23 | two hashes that agree at and above `precision` get the same run length |
| Bits.LongestRunOfU32Hash | src/utils.rs:23 | for a hash below `2^32`, the run is at most `32 - precision` or exactly 65 |
| Murmur.NewHasher | src/murmur.rs:15-22 | a new hasher has an empty buffer and the buffer shape the writes rely on |
| Murmur.BuildHasher | src/murmur.rs:120-122 | `build_hasher` gives a well-formed fresh hasher |
| Murmur.Write | src/murmur.rs:26-76 | `write` keeps a 4-byte buffer that is never full, and counts every written byte |
| Murmur.Finish | src/murmur.rs:78-102 | `finish` returns a value below `2^32` |
| Murmur.WriteMixesBlocks | src/murmur.rs:26-76 | after a write, `h1` has mixed every whole block of the pending bytes followed by the new bytes, and the buffer holds exactly what follows the last whole block |
| Murmur.BlockLoopMixesBlocks | src/murmur.rs:53-68 | the main loop mixes the whole blocks from its start index and stops at the start of their remainder |
| Murmur.WriteConcat | src/murmur.rs:26-76 | two writes leave the same hash state, pending bytes and length as one write of the concatenation |
| Murmur.WriteEmpty | src/murmur.rs:26-76 | writing an empty slice changes nothing |
| Murmur.FinishReadsLiveState | src/murmur.rs:78-102 | `finish` ignores stale bytes beyond `tail_len` in the buffer |
| Murmur.FinishWriteConcat | src/murmur.rs:26-102 | the hash does not depend on how the bytes are split over two writes |
| Murmur.WriteAllFlatten | src/murmur.rs:26-76 | any sequence of writes leaves the live state of one write of all the bytes |
| Murmur.TailLoopIsTailKey | src/murmur.rs:83-85 | the `finish` tail loop builds the same key as the reference's fall-through switch |
| Murmur.FreshWrite | src/murmur.rs:26-76 | a fresh hasher fed `data` holds the reference's state after all whole blocks, the reference's tail and the length |
| Murmur.FinishIsMurmur3 | src/murmur.rs:78-102 | a fresh hasher fed `data` returns MurmurHash3_x86_32 of `data` with the builder's seed |
| Murmur.WriteAllIsMurmur3 | src/murmur.rs:26-122 | whatever chunks the bytes arrive in, the hash is MurmurHash3_x86_32 of their concatenation |
| Murmur.EmptyInputVectors | src/murmur.rs:78-102 | the reference gives the published hashes of the empty input for seeds 0, 1 and 0xffffffff |
| Murmur.HelloVector | src/murmur.rs:26-102 | the reference gives the published hash of "hello" with seed 0 |
| Murmur.SeededVectors | src/murmur.rs:26-102 | the reference gives the published hashes of "aaa" (three-byte tail) and "aaaa" (one block) with seed 0x9747b28c |
| Murmur.HelloWorldVector | src/murmur.rs:26-102 | the reference gives the published hash 0x24884cba of "Hello, world!" (three blocks and a one-byte tail) with seed 0x9747b28c |
| Hll.Invariant | src/lib.rs:22-29 | the state's precision is in 4..20 and there is one register per bucket, so it holds between 16 and 2^20 registers |
| Hll.Clamp | src/lib.rs:50 | `u8::clamp(4, 20)` lands in 4..20 and leaves in-range values unchanged |
| Hll.WithHasher | src/lib.rs:38-44 | precision 14, 16384 zero registers, the given builder |
| Hll.WithHasherPercision | src/lib.rs:49-56 | the precision is the clamped argument, with `2^p` zero registers and the given builder |
| Hll.New | src/lib.rs:62-68 | Murmur3 with seed 0, precision 14, 16384 zero registers |
| Hll.WithPercision | src/lib.rs:72-79 | Murmur3 with seed 0, the clamped precision, `2^p` zero registers |
| Hll.Add | src/lib.rs:82-88 | keeps the invariant, the builder and the precision; the hash's bucket becomes the maximum of its old value and the run length; no other register changes and none decreases |
| Hll.AddBytes | src/lib.rs:82-88 | the Murmur3-backed `add` keeps the invariant |
| Hll.AddBytesIsMurmur3 | src/lib.rs:82-88 | `add` on byte chunks is `Add` of MurmurHash3_x86_32 of their concatenation with the builder's seed |
| Hll.BatchAdd | src/lib.rs:91-95 | `batch_add` keeps the invariant, the builder and the precision |
| Hll.BatchAddBytes | src/lib.rs:91-95 | `batch_add` of values on the Murmur3-backed estimator keeps the invariant, the builder and the precision |
| Hll.BatchAddBytesIsBatchAdd | src/lib.rs:91-95 | `batch_add` of values is `BatchAdd` of their Murmur3 hashes in the same order |
| Hll.AddIdempotent | src/lib.rs:82-88 | adding the same hash twice is adding it once |
| Hll.AddCommutes | src/lib.rs:82-88 | two adds in either order give the same estimator |
| Hll.BatchAddPermutation | src/lib.rs:91-95 | two batches with the same multiset of hashes give the same estimator |
| Hll.BatchAddAppend | src/lib.rs:91-95 | a batch of `xs + ys` is the batch of `xs` followed by the batch of `ys` |
| Hll.BatchAddRegisters | src/lib.rs:82-95 | after a batch each register is at least its old value and at least the run of every hash in its bucket, and equals its old value or one of those runs |
| Hll.BatchAddRepeated | src/lib.rs:91-95 | a batch of one hash repeated `n >= 1` times equals a single add |
| Hll.CountZeros | src/lib.rs:103 | the zero count is the multiplicity of 0 among the registers; it is at most their number and equal to it exactly when all are zero |
| Hll.EstimateCard | src/lib.rs:99-107 | the estimate is exactly zero when every register is zero; otherwise the formula branch, with the multiplicity of 0 as its zero count (fewer than `m`) and the bias constant `get_alpha_m_bias(m)` chooses as written, which is always the general formula |
| Hll.EstimateCardCorrected | src/lib.rs:99-107 | the same branch and zero count, with the bias constant tabulated for precisions 4, 5 and 6 and the formula for the others |
| Hll.EstimateCardCorrectedAgrees | src/lib.rs:99-107 | the estimate as written and the corrected one take the same branch with the same zero count; their bias constants agree exactly from precision 7 up |
| Hll.FreshEstimateIsZero | src/lib.rs:38-79 | every constructor yields an estimator whose estimate is exactly zero |
| Hll.EstimateAfterAdd | src/lib.rs:86-107 | after an add the estimate is never the exact-zero branch |
| Hll.EstimateAfterBatch | src/lib.rs:91-107 | after a non-empty batch the estimate is never the exact-zero branch |
| Hll.AddBytesKeepsU32Registers | src/lib.rs:82-88 | a Murmur3-backed estimator whose registers are all at most `32 - p` or 65 keeps them so |
| Hll.FreshRegistersFromU32Hashes | src/lib.rs:38-79 | every constructor yields registers that are all at most `32 - p` or 65 |
| Hll.BatchAddBytesKeepsU32Registers | src/lib.rs:91-95 | `batch_add` on a Murmur3-backed estimator keeps every register at most `32 - p` or 65 |
| Hll.AlphaChoiceAsWritten | src/utils.rs:34-44 | `get_alpha_m_bias` as written picks a tabulated constant only for `m` in 4..6, so every `m >= 16` gets the general formula |
| Hll.AlphaAsWrittenNeverTabulated | src/utils.rs:34-44 | as written, for every precision in 4..20 the bias constant is the general formula |
| Hll.AlphaCorrectedTabulated | src/utils.rs:34-44 | corrected, precisions 4, 5 and 6 get 0.673, 0.697 and 0.709, and the others get the formula |
| Hll.AlphaDiscrepancyAtPrecision4 | src/utils.rs:34-44 | with 16 registers, the constant as written differs from the corrected one |

## Left out

- The floating-point part of `estimate_card` (src/lib.rs:109-118), `harmonic_mean` and the constant values of `get_alpha_m_bias` are left out, because Dafny has no IEEE doubles. `Hll.EstimateCard` stops at the choice of branch: exactly zero, or the formula with its zero count and bias-constant choice. The linear-counting test compares two floats and is not modelled.
- `Hash::hash` of a value is left out. A value is represented by the byte chunks its `Hash` implementation passes to `write` (`AddBytes`, `BatchAddBytes`), and the generic `Add` takes the 64-bit hash directly.
- In the source, `add` and `batch_add` exist only for the Murmur3-backed estimator. `Hll.Add` and `Hll.BatchAdd` are generic over the builder type because they take the hash, not the value.
- Murmur.Write: `len` is unbounded, where the source's `usize` addition would overflow after 2^64 bytes. `finish` truncates it to 32 bits (`LenAsU32`), as `len as u32` does.
- `read_unaligned().to_le()` is modelled as little-endian decoding of four bytes (`FromLeBytes`).
- Panics: `get_bucket` panics for precision above 63, which `Bits.GetBucket` excludes by its precondition. `Bits.LongestRun` requires `precision <= 63` for the same reason: `hash >> percision` with a shift of 64 or more panics in debug builds and masks the shift amount in release builds, and neither behaviour is modelled. The estimator's precision is always in 4..20. `pow_two` with `p >= 32` overflows and is excluded the same way.
- The doc comments at src/lib.rs:37 and 46 say the precision is clamped to 4-18, but the code clamps to 4-20 (src/lib.rs:50, 73). The model follows the code.
- `Debug`, `PartialEq` and `Default` derivations are left out, as is the crate's benchmark.

## Findings

| source | as written | input that shows it | evidently intended | confidence | as-written member | corrected member |
|---|---|---|---|---|---|---|
| src/utils.rs:35-41 | `get_alpha_m_bias` compares the register count `m` with 4.0, 5.0 and 6.0. But `m = 2^p` with `p` in 4..20, so `m >= 16` and the tabulated constants are never used | precision 4, `m = 16`: gives the general formula 0.7213/(1+1.079/16) ≈ 0.6762 instead of 0.673 | compare `m` with 16, 32 and 64, the register counts HyperLogLog tabulates 0.673, 0.697 and 0.709 for | high (not executed) | Hll.AlphaChoiceAsWritten, Hll.EstimateCard, Hll.AlphaAsWrittenNeverTabulated, Hll.AlphaDiscrepancyAtPrecision4 | Hll.AlphaChoiceCorrected, Hll.EstimateCardCorrected, Hll.AlphaCorrectedTabulated, Hll.EstimateCardCorrectedAgrees |
