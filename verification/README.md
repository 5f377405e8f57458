# SPHINCS+ hash address and SHA-2 robust tweakable hash, in Dafny

This project models two pieces of the Rust SPHINCS+ port (json420/sphincsplus):

- **The hash address (ADRS)** of `src/address.rs`. The address is the 32-byte
  structure of section 4.2 of FIPS 205, kept as eight 32-bit words.
  - The model holds it as `seq<bv32>` of length 8 (`Address.Adrs`). Its byte
    view is `seq<bv8>` of length 32 (`Address.AdrsBytes`).
  - The two views are related by `address_to_bytes` / `bytes_to_address`,
    with native byte order fixed to little-endian.
  - Every setter is a pure function from the old address to the new one.
  - Setters follow one of two patterns.
    - Byte-view round trip: convert to bytes, write the field, convert back.
      Used by `set_tree_addr`, `set_type`, `set_keypair_addr`,
      `set_chain_addr`, `set_tree_height` and `set_tree_index`. Their
      contracts say which bytes become what and that every other byte is kept.
    - Raw word shift: `set_addr` / `get_addr`, used by `set_layer_addr`,
      `set_hash_addr` and `copy_keypair_addr`. Their contracts are stated on
      words, as the code behaves. Lemmas give the byte view of those
      contracts, and `AddressFindings` shows where they break field isolation.
- **The SHA-2 robust tweakable hash** of `src/thash_sha2_robust.rs`.
  - The model fixes the mask-seed layout `PK.seed ‖ ADRSc`, the byte-wise
    XOR masking loop, the finalized message `ADRSc ‖ masked input`, the
    truncation of the digest to `SPX_N` bytes, and the SHA-256/SHA-512 path
    dispatch.
  - MGF1 and the SHA-2 finalize calls are abstract function values. The only
    thing known about them is their output length.

The `SPX_*` parameters (`params.rs`) are not part of this model.
- They are fields of `Params.Params`, constrained by `Params.Valid`.
- `Params.Sha2_128s` and `Params.Sha2_256f` instantiate them with the SHA-2
  address layout: layer 0, tree 1..8, type 9, keypair 12/13, chain and tree
  height 17, hash 21, tree index 18..21, 22 hashed address bytes.

`u32_to_bytes` (`utils.rs`) is not part of this model either. It is modelled
as the 4-byte big-endian encoding, toByte(x, 4) of section 4.4 of FIPS 205
(`Bytes.BigEndian32`).

Where the code does not do what its own comments say (for instance the "Copy the layer and tree fields" comment at src/address.rs:73-76, or `// memcpy: SPX_OFFSET_TREE + 8 bytes` at line 107), the model follows the code; see "Notes" and "Findings".

## Model

| member | source | states |
|---|---|---|
| Params.WideKeypairIsDivision | src/address.rs:109 | the keypair field is two bytes wide exactly when `SPX_FULL_HEIGHT / SPX_D > 8` |
| Address.TypeCode | src/address.rs:4-10 | the seven `SPX_ADDR_TYPE_*` values are 0 to 6 |
| Address.TypeCodeInjective | src/address.rs:4-10 | two address types share a code exactly when they are the same type |
| Bytes.Low8 | src/address.rs:69 | `as u8` keeps the low 8 bits: the byte is the value masked with `0xFF`, and a value below 256 is kept as is |
| Bytes.WordToBytes | src/address.rs:178 | `to_ne_bytes` gives 4 bytes which, least significant first, reassemble to the word |
| Bytes.BytesToWord | src/address.rs:170 | `from_ne_bytes` loses nothing: `to_ne_bytes(from_ne_bytes(b)) == b` for every 4 bytes |
| Bytes.WordRoundTrip | src/address.rs:165-181 | `from_ne_bytes(to_ne_bytes(w)) == w` for every word |
| Bytes.ShiftLeftBytesView | src/address.rs:16 | `value << 8k` seen as bytes: `k` zero bytes enter at the bottom, the top `k` bytes of `value` are lost |
| Bytes.ShiftRightBytesView | src/address.rs:21 | `w >> 8k` seen as bytes: the bottom `k` bytes are dropped and zeros fill the top |
| Bytes.ShiftLeftRight | src/address.rs:14-22 | shifting left then right by `k` bytes keeps `value mod 2^(32-8k)` |
| Bytes.ShiftRightLeftRight | src/address.rs:109-114 | a value read with `get_addr` is read back unchanged after `set_addr` at the same offset |
| Bytes.SmallWordBytes | src/address.rs:17 | for a value below 256 only the lowest byte can be non-zero: its bytes are `value mod 256` followed by three zeros |
| Bytes.BigEndian64 | src/address.rs:50 | `tree.to_be_bytes()` is 8 bytes which, most significant first, reassemble to `tree` |
| Bytes.FromBigEndian64 | src/address.rs:50 | every 8 bytes are the big-endian encoding of the value decoded from them |
| Bytes.BigEndian64RoundTrip | src/address.rs:50 | decoding the big-endian encoding of `tree` gives `tree` back |
| Bytes.BigEndian32 | src/address.rs:161 | `u32_to_bytes` writes 4 bytes: the word's native (little-endian) bytes in reverse order |
| Bytes.FromBigEndian32 | src/address.rs:161 | every 4 bytes are the big-endian encoding of the value decoded from them |
| Bytes.BigEndian32RoundTrip | src/address.rs:161 | toInt(toByte(x, 4), 4) == x: decoding the encoding of `tree_index` gives it back |
| Address.AddressByteAt | src/address.rs:174-181 | byte `4w + j` of `address_to_bytes` is byte `j` of word `w`, least significant first |
| Address.AddressToBytes | src/address.rs:174-181 | `address_to_bytes` puts word `w` at bytes `4w .. 4w+4`, in native order |
| Address.BytesToAddress | src/address.rs:165-172 | `bytes_to_address` loses nothing: `address_to_bytes(bytes_to_address(b)) == b` for every 32 bytes |
| Address.SameWordSameByte | src/address.rs:174-181 | addresses with the same word `i / 4` have the same byte `i` |
| Address.AddressRoundTrip | src/address.rs:165-181 | `bytes_to_address(address_to_bytes(a)) == a` for every address |
| Address.WriteBytes | src/address.rs:68-70 | the byte-view round trip writes the field at its offset and keeps every other byte |
| Address.SetAddr | src/address.rs:14-18 | `set_addr` replaces only word `offset / 4`, with `value << 8*(offset mod 4)` mod 2^32 |
| Address.SetAddrBytes | src/address.rs:14-18 | in bytes, `set_addr` zeroes the word's bytes below `offset`, writes `value`'s low bytes from `offset` to the word's end, and keeps the other 28 bytes |
| Address.GetAddrBytes | src/address.rs:20-22 | `get_addr` reads the bytes from `offset` to the end of its word, with zeros above |
| Address.GetSetAddr | src/address.rs:14-22 | `get_addr` after `set_addr` at one offset returns `value mod 2^(32-8*(offset mod 4))` |
| Address.SetLayerAddr | src/address.rs:33-36 | only the layer's word changes; reading the layer back gives `layer` truncated to what fits above its byte |
| Address.SetTreeAddr | src/address.rs:50-53 | bytes `OFFSET_TREE .. +8` become the big-endian encoding of `tree`, which decodes back to `tree`; no other byte changes |
| Address.SetType | src/address.rs:66-71 | byte `OFFSET_TYPE` becomes `type mod 256`; no other byte changes |
| Address.SetTypeSeparates | src/address.rs:60-71 | addresses set to two different types are different |
| Address.CopySubtreeAddr | src/address.rs:77-80 | `out` words 0..3 become `input`'s; words 4..7 are kept |
| Address.CopySubtreeAddrBytes | src/address.rs:73-80 | in bytes, the first 16 bytes are `input`'s and the rest `out`'s; the layer and tree fields come from `input` whenever they end within 16 bytes |
| Address.SetKeypairAddr | src/address.rs:88-99 | byte `KP_ADDR1` becomes `keypair mod 256`; with `FULL_HEIGHT/D > 8`, byte `KP_ADDR2` becomes `(keypair >> 8) mod 256`, otherwise it is kept; no other byte changes |
| Address.CopyKeypairAddr | src/address.rs:105-116 | words `[0, (OFFSET_TREE+8)/4)` are `input`'s; the word of `KP_ADDR1`, and of `KP_ADDR2` when the field is wide and in another word, is `input`'s `get_addr` at that offset shifted back into place, so `get_addr` there agrees with `input`; every other word is `out`'s |
| Address.ShiftedWordByte | src/address.rs:14-18 | byte `j` of a word holding `value << 8k` is 0 below `k` and byte `j - k` of `value` from `k` on |
| Address.MovedWordBytes | src/address.rs:109-114 | a word that `set_addr` wrote with what `get_addr` read from `input` at the same offset has zero bytes below `offset` and `input`'s bytes from `offset` to the word's end |
| Address.SetChainAddr | src/address.rs:122-127 | byte `OFFSET_CHAIN_ADDR` becomes `chain mod 256`; no other byte changes |
| Address.SetHashAddr | src/address.rs:133-135 | only the hash address's word changes; reading it back gives `hash` truncated to what fits above its byte |
| Address.SetTreeHeight | src/address.rs:147-152 | byte `OFFSET_TREE_HGT` becomes `tree_height mod 256`; no other byte changes |
| Address.SetTreeIndex | src/address.rs:158-163 | bytes `OFFSET_TREE_INDEX .. +4` become the big-endian encoding of `tree_index`, which decodes back to it; no other byte changes |
| Thash.XorBytes | src/thash_sha2_robust.rs:36-38 | the masked bytes have the input's length, and each, XORed with its mask byte again, is the input byte |
| Thash.AddrPrefix | src/thash_sha2_robust.rs:30 | the hashed address is `SPX_SHA256_ADDR_BYTES` bytes; byte `i` is byte `i mod 4` of word `i / 4`, in native order |
| Thash.XorBytesInvolution | src/thash_sha2_robust.rs:36-38 | masking twice with the same mask gives the input back |
| Thash.RobustMessageUnmask | src/thash_sha2_robust.rs:36-41 | the finalized message starts with the address prefix, and its tail unmasked with the same MGF1 stream is the input |
| Thash.SeededBuffer | src/thash_sha2_robust.rs:26-30 | the buffer starts with `pub_seed` followed by the address prefix |
| Thash.XorInto | src/thash_sha2_robust.rs:36-38 | the loop writes the masked input at `SPX_N + SPX_SHA256_ADDR_BYTES` and leaves the rest of the buffer alone |
| Thash.MaskedMessage | src/thash_sha2_robust.rs:26-41 | the buffer code produces exactly the robust message `ADRSc ‖ (M xor MGF1(PK.seed ‖ ADRSc, inblocks*N))`, of length `SPX_SHA256_ADDR_BYTES + inblocks*N` |
| Thash.Thash256 | src/thash_sha2_robust.rs:24-42 | `out[..N]` is the first N bytes of SHA-256 over the seeded state and the robust message; the rest of `out` is kept |
| Thash.Thash512 | src/thash_sha2_robust.rs:46-68 | as the 256-bit path with SHA-512's MGF1, state and finalize, still with the 22-byte address prefix |
| Thash.Thash | src/thash_sha2_robust.rs:15-23 | the SHA-512 path is taken exactly when it is built in and `inblocks > 1`, the SHA-256 path otherwise |
| AddressFindings.SetAddrSmallClobbers | src/address.rs:14-18 | `set_addr` with a value below 256 zeroes the other three bytes of the word |
| AddressFindings.SetLayerAddrClobbers | src/address.rs:33-36 | `set_layer_addr` zeroes the bytes that share the layer's word |
| AddressFindings.SetLayerAddrLosesTree | src/address.rs:33-36 | on the SHA-2 layout, `set_layer_addr` wipes tree bytes 1 and 2 |
| AddressFindings.SetLayerAddrByte | src/address.rs:33-36 | corrected: only the layer byte changes, to `layer mod 256` |
| AddressFindings.SetLayerAddrByteKeepsTree | src/address.rs:33-36 | the corrected layer setter keeps the tree field |
| AddressFindings.SetHashAddrClobbers | src/address.rs:133-135 | `set_hash_addr` zeroes the bytes that share the hash address's word |
| AddressFindings.SetHashAddrLosesTreeIndex | src/address.rs:133-135 | on the SHA-2 layout, `set_hash_addr` wipes byte 20, which belongs to the tree index |
| AddressFindings.SetHashAddrByte | src/address.rs:133-138 | corrected: only the hash address byte changes, to `hash mod 256` |
| AddressFindings.CopyKeypairAddrZeroesBelowLow | src/address.rs:113-114 | the bytes below `KP_ADDR1` in its word are zero in the copy, whatever `out` and `input` held |
| AddressFindings.MovedWordBelow | src/address.rs:14-22 | in a word that `set_addr` wrote with what `get_addr` read at the same offset, the bytes below `offset` are zero |
| AddressFindings.CopyKeypairAddrDropsHigh | src/address.rs:109-114 | with both keypair bytes in one word, high byte first, the copied high byte is 0 |
| AddressFindings.CopyKeypairAddrLosesHigh | src/address.rs:109-114 | with SHA2-128s geometry, copying keypair 0x0102 yields high byte 0 |
| AddressFindings.CopyKeypairAddrClearsByte12 | src/address.rs:109-114 | with SHA2-256f geometry (one keypair byte, 13), `out`'s byte 12 = 7 becomes 0 |
| AddressFindings.CopyKeypairAddrKeepsWord | src/address.rs:107-116 | the word holding the last tree byte is `out`'s when no keypair byte shares it |
| AddressFindings.CopyKeypairAddrDropsTreeTail | src/address.rs:107-108 | when `OFFSET_TREE + 8` is not a multiple of 4, the last tree byte stays `out`'s |
| AddressFindings.CopyKeypairAddrLosesTreeTail | src/address.rs:107-108 | on the SHA-2 layout, tree byte 8 is not copied |
| AddressFindings.CopyKeypairAddrByte | src/address.rs:105-116 | corrected: the layer and tree bytes and the keypair bytes come from `input`; every other byte is `out`'s |
| AddressFindings.CopyKeypairAddrByteCarriesKeypair | src/address.rs:88-116 | the corrected copy carries both keypair bytes that `set_keypair_addr` wrote |
| AddressFindings.CopySubtreeAddrCopiesType | src/address.rs:77-80 | when the type byte lies below 16, `copy_subtree_addr` copies it from `input` |
| AddressFindings.CopySubtreeAddrLeaksType | src/address.rs:77-80 | on the SHA-2 layout, `out` takes `input`'s type |
| AddressFindings.CopySubtreeAddrByte | src/address.rs:73-80 | corrected: exactly the layer and tree bytes come from `input` |
| AddressFindings.CopySubtreeAddrByteKeepsType | src/address.rs:73-80 | the corrected subtree copy keeps `out`'s type |

## Left out

- MGF1 (appendix B.2.1 of RFC 8017), `sha256_inc_finalize` and `sha512_inc_finalize` are not modelled: they live in modules that are not part of this model. They are function values of `Thash.Sha2`, constrained only by output length.
- The construction of `SpxCtx`, and the absorption of the public seed into `state_seeded` / `state_seeded_512`, are not modelled; `Thash.Ctx` holds them as given byte strings of 40 and 72 bytes.
- The concrete `params.rs` values are not modelled: the parameters are symbolic under `Params.Valid`.
- `Params.Valid` orders the layer, tree, type and keypair fields, and puts every type-specific field (chain address, hash address, tree height, tree index) above the keypair bytes, but it does not require the type-specific fields to be disjoint from each other. The real SHA-2 layout needs this: the chain address shares a byte with the tree height, and the hash address lies inside the tree index. A given address type uses only one of each pair.
- Native endianness is fixed to little-endian; a big-endian host is not modelled.
- The constant-time requirement on the masking loop and the `SPX_VLA` stack buffers are not modelled: they concern timing and memory, not values.
- Mutation is not modelled: setters return a new address, so the `&mut` arguments `input` of the copies and `addr` of `thash` are unchanged by construction.
- Thash.Thash: `inblocks * SPX_N` and the buffer sizes are computed on unbounded integers; a `u32` overflow of `inblocks * SPX_N` is not modelled. `Thash.Thash`, `Thash.Thash256` and `Thash.Thash512` also require `|input| >= inblocks * SPX_N` and `|out| >= SPX_N`; the code indexes `input[i]` (src/thash_sha2_robust.rs:37, 62) and slices `out[..SPX_N]` (lines 42, 67) without a check, so a shorter buffer is an out-of-bounds panic there, which the model does not represent.
- Address.SetLayerAddr: the contract describes the whole word the layer sits in, not one byte, because the code assigns the whole word. `AddressFindings` gives the byte-level consequence.
- Address.SetHashAddr: the same word-level contract as `SetLayerAddr`, for the same reason.
- Commented-out code is not modelled (src/address.rs:24-28, 43-49, 55-57, 136-138).

## Notes

- `src/thash_sha2_robust.rs` is C-like text that does not compile (`#if`, `SPX_VLA`, `memcpy`, a C `for` loop). The model follows its evident intent.
- Lines 30 and 55 slice the `u32` word array with a byte count (`addr[..SPX_SHA256_ADDR_BYTES]`). The model hashes the first `SPX_SHA256_ADDR_BYTES` bytes of `address_to_bytes(addr)` (`Thash.AddrPrefix`).
- The 256-bit path allocates `SPX_N + SPX_SHA256_OUTPUT_BYTES + inblocks*SPX_N` bytes, but it uses only the first `SPX_N + SPX_SHA256_ADDR_BYTES + inblocks*SPX_N`. The model allocates as written and proves that the extra bytes are never read.
- `Params.WideKeypair` states the code's test `SPX_FULL_HEIGHT/SPX_D > 8` (src/address.rs:93, 109) as `fullHeight >= 9 * d`; `Params.WideKeypairIsDivision` proves the two agree for every `d > 0`.
- The 512-bit path hashes the same 22-byte address prefix as the 256-bit path. That is what the code does, and the model keeps it.
- `copy_subtree_addr` copies four words (16 bytes). Its comment (src/address.rs:73-76) says it copies the layer and tree fields only. The model follows the code (`Address.CopySubtreeAddr`); the consequence is the last row of "Findings".

## Findings

| source | as written | input that shows it | evidently intended | confidence | as-written member | corrected member |
|---|---|---|---|---|---|---|
| src/address.rs:17, 33-36 | `set_layer_addr` assigns the whole word that holds the one-byte layer field | SHA-2 layout, tree bytes 1, 2 = 2, 3 (word 0 = 0x00030200); `set_layer_addr(1)` makes them 0 | write one byte, `layer mod 256`, and keep the tree field | not executed; high that the word is overwritten, medium on impact (callers that set the layer after the tree) | AddressFindings.SetLayerAddrLosesTree | AddressFindings.SetLayerAddrByte |
| src/address.rs:17, 133-135 | `set_hash_addr` assigns the whole word that holds the one-byte hash address | SHA-2 layout, byte 20 = 1 (tree index 0x100); `set_hash_addr(0)` makes it 0 | write one byte, `hash mod 256` (the commented-out lines 136-138) | not executed; high that the word is overwritten, low on impact (byte 20 belongs to another address type) | AddressFindings.SetHashAddrLosesTreeIndex | AddressFindings.SetHashAddrByte |
| src/address.rs:109-114 | `copy_keypair_addr` copies the high keypair byte, then overwrites its word from the low byte on | SHA2-128s geometry (keypair bytes 12, 13 in word 3), input keypair 0x0102; the copy has byte 12 = 0 | both keypair bytes copied | not executed; high | AddressFindings.CopyKeypairAddrLosesHigh | AddressFindings.CopyKeypairAddrByte |
| src/address.rs:113-114 | with a one-byte keypair field, `copy_keypair_addr` assigns the whole word from `SPX_OFFSET_KP_ADDR1` on, zeroing the unused `SPX_OFFSET_KP_ADDR2` byte below it | SHA2-256f geometry (keypair byte 13, byte 12 unused), out byte 12 = 7, input zero; the copy has byte 12 = 0 | copy the keypair byte and keep `out`'s other bytes | not executed; high that the byte is zeroed, low on impact (no setter writes byte 12 when the field is one byte wide) | AddressFindings.CopyKeypairAddrClearsByte12 | AddressFindings.CopyKeypairAddrByte |
| src/address.rs:107-108 | `copy_keypair_addr` copies `(SPX_OFFSET_TREE+8)/4` whole words, rounding down | SHA-2 layout (tree bytes 1..8), input byte 8 = 5, out zero; the copy has byte 8 = 0 | copy `SPX_OFFSET_TREE + 8` bytes, as the comment on line 107 says | not executed; high | AddressFindings.CopyKeypairAddrLosesTreeTail | AddressFindings.CopyKeypairAddrByte |
| src/address.rs:79 | `copy_subtree_addr` copies 16 bytes, past the layer and tree fields | SHA-2 layout (type at byte 9), input type 2, out type 0; the copy has type 2 | copy only the layer and tree fields | not executed; medium (callers usually set the type right after) | AddressFindings.CopySubtreeAddrLeaksType | AddressFindings.CopySubtreeAddrByte |
