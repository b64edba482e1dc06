# XTS engine (block-modes, `xts` crate): a Dafny model

This project models the XTS mode-of-operation engine of `xts/src/xts_core.rs`:
the tweakable storage-encryption mode of IEEE Std 1619-2007. It covers:

- the precomputation of the initial tweak (`precompute_iv`);
- the single-block step (`process_block_inplace`): mask the block with the
  tweak, run the cipher, mask again, advance the tweak with `gf_mul`;
- the batched step (`process_par_blocks_inplace`): lane *i* is masked with
  the *i*-th tweak, the batched primitive runs once, each lane is masked again
  with its saved tweak;
- the buffer orchestrator (`process_all_in_place`), exactly as written;
- the ciphertext-stealing finisher (`ciphertext_stealing`), including the
  decrypting engine's look-ahead tweak and its step back with
  `gf_reverse_mul`.

Files:

- `primitives.dfy` (module `Primitives`): bytes, bytewise xor, and the two
  collaborators the engine is generic over. `Cipher` carries the block size,
  the batch width, the fixed direction (`is_decrypt`) and the one-block and
  batched primitives as function values. `Gf` carries `gf_mul` (new tweak
  and carry) and `gf_reverse_mul`. What the engine relies on about them is
  stated as predicates: sizes, decryption undoing encryption, and
  `gf_reverse_mul` undoing `gf_mul`. `Tweak(gf, t, i)` is the *i*-th tweak
  of a run from `t`, and `Xex` is the one-block XTS step.
- `gf128.dfy` (module `Gf128`): one concrete tweak arithmetic, the
  multiplication by the generator of IEEE Std 1619-2007 section 5.2 and its
  inverse. It shows that the hypotheses on `Gf` can be met. The crate's own
  `gf.rs` is not part of this model.
- `xts_spec.dfy` (module `XtsSpec`): reference functions for each operation.
  Each returns the bytes and the tweak left behind. The file also holds the
  lemmas about them: tweak sequencing, the batched step against the
  sequential one, the byte exchange, agreement with sections 5.3.2 and 5.4.2
  of IEEE Std 1619-2007, and the round trip of the orchestrator.
- `xts_core.dfy` (module `XtsCore`): the engine as a class `Xts`. Its field
  `iv` is the tweak that `get_iv_mut` exposes and the methods update in
  place. The caller's buffer is an `array<Byte>` changed in place, and a
  block is the `bs` bytes of that array from an offset. Each method's
  postcondition ties the new array contents and the new tweak to the
  reference function of `XtsSpec`.

The orchestrator follows the code at `xts/src/xts_core.rs:134`, which
selects ciphertext stealing when the length IS a multiple of the block size.
The standard selects it when the length is NOT a multiple. The model keeps
the code's behaviour (`ProcessAll`, `Xts.ProcessAllInPlace`) and proves its
consequences. It also gives the corrected orchestrator
(`ProcessAllStandard`, `Xts.ProcessAllInPlaceStandard`) and proves it meets
the standard. See "## Findings".

## Model

| member | source | states |
|---|---|---|
| XtsSpec.PrecomputeIvInjective | xts/src/xts_core.rs:13-21 | The initial tweak is one encryption of the sector block under the tweak engine. The inverse cipher recovers the sector block from it, so two sector blocks give the same tweak exactly when they are equal. |
| XtsCore.Xts.ProcessInplace | xts/src/xts_core.rs:26 | The one-block primitive replaces the block at the offset with its image under the cipher. Every other byte and the tweak stay. |
| XtsCore.Xts.ProcessParInplace | xts/src/xts_core.rs:29 | The batched primitive replaces the batch with its image under the cipher's batched function. |
| XtsCore.XorInPlace | xts/src/xts_core.rs:53 | Xoring the tweak into a block changes exactly the block's bytes, each to the xor of the old byte and the matching tweak byte. |
| Primitives.XorCancel | xts/src/xts_core.rs:53-59 | Masking twice with the same tweak restores the block. |
| Primitives.XexInverse | xts/src/xts_core.rs:50-61 | Under the same tweak, the decrypting engine's masked step undoes the encrypting engine's. |
| XtsCore.Xts.ProcessBlockInplace | xts/src/xts_core.rs:50-61 | The block at the offset becomes cipher(block xor T) xor T under the old tweak T. The tweak becomes gf_mul(T). Every other byte stays. |
| Primitives.TweakAdd | xts/src/xts_core.rs:61 | Advancing the k-th tweak m more times gives the (k + m)-th tweak. |
| XtsSpec.ProcessBlocksTweak | xts/src/xts_core.rs:158-160 | After k blocks in order the tweak has been advanced by gf_mul exactly k times. |
| XtsSpec.ProcessBlocksAt | xts/src/xts_core.rs:143-160 | Block j of k blocks processed in order is the XTS step of input block j under the j-th tweak T, gf_mul(T), gf_mul(gf_mul(T)), ... |
| XtsSpec.ProcessBlocksRoundTrip | xts/src/xts_core.rs:158-160 | The decrypting engine, run from the same tweak over the encrypting engine's output, restores the blocks. Both end with the same tweak. |
| XtsCore.Xts.ProcessFullBlocks | xts/src/xts_core.rs:143-160 | The loop over the leading chunks leaves the first k blocks and the tweak as the sequential reference computes them. The bytes after the first k blocks stay. |
| XtsCore.Xts.MaskWithTweaks | xts/src/xts_core.rs:74-84 | After the first lane loop, lane i is the input lane xored with the i-th tweak, and scratch slot i holds that tweak. The tweak has been advanced once per lane. |
| XtsCore.UnmaskLanes | xts/src/xts_core.rs:88-90 | After the second lane loop, each lane is its old value xored with the tweak saved in the same slot. |
| XtsCore.Xts.ProcessParBlocksInplace | xts/src/xts_core.rs:73-91 | The batch becomes, lane by lane, the batched primitive over the lanes masked with their tweaks, masked again with the same tweaks. The tweak is left advanced `width` times. |
| XtsSpec.ProcessBlocksOfLanes | xts/src/xts_core.rs:73-91 | Processing the blocks of a batch one after another gives lane i the XTS step under the i-th tweak and leaves the tweak advanced once per lane. |
| XtsSpec.ParBlocksSequential | xts/src/xts_core.rs:73-91 | When the batched primitive applies the one-block primitive lane by lane, the batched step is bit-identical to `width` single-block steps in order. This covers the blocks, laid end to end, and the final tweak. |
| XtsSpec.SplitIsDivMod | xts/src/xts_core.rs:134-144 | The whole blocks and leftover bytes the model counts are the code's len / bs and len % bs. |
| XtsSpec.ProcessAllSteals | xts/src/xts_core.rs:134-165 | As written, a buffer of k + 1 whole blocks has its first k blocks processed in order and the last block sent through ciphertext stealing. |
| XtsSpec.ProcessAllCopies | xts/src/xts_core.rs:134-160 | As written, a buffer of k >= 1 whole blocks and some leftover bytes has its k blocks processed in order and the rest copied through. |
| XtsSpec.ProcessAllLeadingBlocks | xts/src/xts_core.rs:134-160 | As written, every full block before the split point is processed in forward order, block j under the j-th tweak. |
| XtsSpec.ProcessAllTailUntouched | xts/src/xts_core.rs:134-160 | As written, when the length is not a multiple of the block size, the trailing len % bs bytes come out exactly as they went in. The tweak ends advanced once per full block. |
| XtsSpec.ProcessAllLastBlockTwice | xts/src/xts_core.rs:134-165 | As written, when the length is a multiple of the block size, the last block goes through the XTS step twice. Encrypting uses the tweaks of slots k then k + 1 and leaves the tweak at slot k + 2. Decrypting uses slots k + 1 then k and leaves it at slot k + 1. |
| XtsSpec.ProcessAllRoundTrip | xts/src/xts_core.rs:126-213 | For every length of at least one block, decrypting the encrypted buffer from the same starting tweak restores it. This includes the as-written whole-block case. |
| XtsCore.Xts.ProcessAllInPlace | xts/src/xts_core.rs:126-168 | It returns an error exactly when the buffer is shorter than a block, and then buffer and tweak are unchanged. Otherwise the buffer and tweak become what the as-written reference computes. |
| XtsSpec.SwapPrefix | xts/src/xts_core.rs:171-206 | On a region of bs + n bytes, bytes [0, n) trade places with bytes [bs, bs + n). Bytes [n, bs) stay. |
| XtsSpec.SwapPrefixNothing | xts/src/xts_core.rs:171-206 | With nothing left over (n = 0), the exchange changes nothing. |
| XtsSpec.SwapPrefixTwice | xts/src/xts_core.rs:201-206 | Exchanging twice restores the region. |
| XtsCore.SwapLeftover | xts/src/xts_core.rs:201-206 | The byte-by-byte exchange loop leaves the bytes before the region alone and turns the region into its SwapPrefix. |
| XtsCore.Xts.ProcessBlockAhead | xts/src/xts_core.rs:177-195 | The decrypting branch processes the block under gf_mul(T). It then sets the tweak to gf_reverse_mul of that tweak with the carry gf_mul returned. |
| XtsCore.Xts.FirstPass | xts/src/xts_core.rs:173-199 | The first block of the region is processed under gf_mul(T) when decrypting, or under T when encrypting. The leftover bytes and the bytes before the region stay. |
| XtsCore.Xts.SwapAndProcess | xts/src/xts_core.rs:201-212 | After the exchange, the first block of the region goes through the single-block step under the current tweak, and the exchanged leftover stays. |
| XtsCore.Xts.CiphertextStealing | xts/src/xts_core.rs:170-213 | The region (one block plus 0 to bs leftover bytes) and the tweak become what the stealing reference computes. The bytes before the region stay. |
| XtsSpec.StealEncryptStandard | xts/src/xts_core.rs:196-212 | For 0 < r < bs the encrypting engine's stealing gives the result of IEEE Std 1619-2007 section 5.3.2. That is blockEnc(P_m ‖ CC[r..bs), gf_mul(T)) followed by CC[0..r), where CC = blockEnc(P_{m-1}, T). The tweak ends advanced twice. |
| XtsSpec.StealDecryptStandard | xts/src/xts_core.rs:177-212 | For 0 < r < bs the decrypting engine's stealing gives the result of IEEE Std 1619-2007 section 5.4.2. The first block is decrypted under gf_mul(T) and the tweak is restored to T. The reassembled block is decrypted under T. The tweak ends advanced once. |
| XtsSpec.StealWholeBlockTwice | xts/src/xts_core.rs:171-212 | With nothing left over, stealing runs the block through the XTS step twice. Encrypting uses T then gf_mul(T); decrypting uses gf_mul(T) then T. |
| XtsSpec.StealRoundTrip | xts/src/xts_core.rs:170-213 | For every leftover length 0 to bs, the decrypting engine's stealing from the same tweak undoes the encrypting engine's. |
| XtsSpec.ProcessAllStandardSteals | xts/src/xts_core.rs:134-165 | With the standard's condition, a buffer of k + 1 whole blocks and some leftover bytes steals from block k on. |
| XtsSpec.ProcessAllStandardLeadingBlocks | xts/src/xts_core.rs:134-160 | With the standard's condition, every block of a whole-block buffer is processed exactly once, block j under the j-th tweak. With a partial last unit, every full block before the last one is processed that way. |
| XtsSpec.ProcessAllStandardStealing | xts/src/xts_core.rs:134-165 | With the standard's condition, a buffer with a partial last unit ends with the section 5.3.2 result (encrypting) or the section 5.4.2 result (decrypting). It covers the last full block and the leftover bytes, under the tweak of that block's slot. |
| XtsSpec.ProcessAllStandardRoundTrip | xts/src/xts_core.rs:126-213 | With the standard's condition, decrypting the encrypted buffer from the same starting tweak restores it for every length of at least one block. |
| XtsCore.Xts.ProcessAllInPlaceStandard | xts/src/xts_core.rs:126-168 | This is the orchestrator with the corrected condition. It returns an error exactly when the buffer is shorter than a block, and then nothing changes. Otherwise the buffer and tweak become what the corrected reference computes. |

## Left out

- The block cipher behind `process_inplace` and `process_par_inplace` (AES and the like) is a foreign trait implementation. It is a parameter: a function value on blocks and one on batches. Decryption undoing encryption is a hypothesis (`Inverse`), and the batched primitive working lane by lane is another (`Lanewise`).
- `gf_mul`, `gf_reverse_mul` and `xor` come from `crate::gf` and `crate::xor`, which are not part of this model. `gf_mul` and `gf_reverse_mul` are parameters, and `gf_reverse_mul` undoing `gf_mul` is the hypothesis `GfInverse`. `Gf128` shows one instance per IEEE Std 1619-2007 section 5.2, not the crate's code. `xor` is modelled as bytewise exclusive or.
- `_process`, `process_block`, `process_par_blocks` and `process_tail_blocks` are copy-out wrappers over `InOut`/`InOutBuf` around the in-place operations. They are not modelled. The in-place loop of `process_tail_blocks` is what `Xts.ProcessFullBlocks` proves.
- `_process_par` is unused and discards its result, so it is not modelled.
- `process_tail_blocks_inplace` is not modelled. It is unused, and it masks with the tweak around a full `process_block_inplace` and advances the tweak twice per block, so it is not sequential XTS.
- The commented-out batched dispatch in `process_all_in_place` is not live code. The orchestrator therefore never calls the batched step, which is modelled on its own.
- The type-level sizes (`BlockSizes`, `ParBlocksSize`) are replaced by the value fields `bs > 0` and `width >= 1` of `Cipher`.
- The `expect` and slice-indexing panics in `ciphertext_stealing` are modelled as its precondition (region between one and two blocks). `process_all_in_place` only calls it within those bounds.
- `crate::Error` carries no data and is the single constructor `Err`.
- Aliasing between the engine and the caller's buffer is excluded by the types in the source. In the model the engine's fields are values, so the buffer array cannot share storage with them.

## Findings

| source | as written | input that shows it | evidently intended | confidence | as-written member | corrected member |
|---|---|---|---|---|---|---|
| xts/src/xts_core.rs:134 | Stealing is selected when `buffer.len() % block_size == 0`. A whole-block buffer sends its last block through `ciphertext_stealing` with nothing left over, so that block is encrypted twice (tweaks of slots k and k + 1). A buffer with a partial last unit skips stealing, and its trailing `len % bs` bytes stay as they are. | A 32-byte buffer with 16-byte blocks: block 1 comes out as XTS under tweak 2 of XTS under tweak 1, not as XTS under tweak 1. A 17-byte buffer: byte 16 comes out unencrypted. | Stealing when `buffer.len() % block_size != 0`, as in IEEE Std 1619-2007 sections 5.3.2 and 5.4.2. Then every whole block is processed once and a partial last unit is stolen. | not executed | XtsSpec.ProcessAllLastBlockTwice, XtsSpec.ProcessAllTailUntouched, XtsCore.Xts.ProcessAllInPlace | XtsSpec.ProcessAllStandardStealing, XtsSpec.ProcessAllStandardLeadingBlocks, XtsCore.Xts.ProcessAllInPlaceStandard |
