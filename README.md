# Unified Binary Tree state and PIR state export of ethrex, in Dafny

This project models four parts of the ethrex Ethereum client and proves what they promise.

- **The in-memory Unified Binary Tree (EIP-7864)** that the node keeps beside its Merkle-Patricia state (`crates/storage/ubt.rs`).
  - `UbtState` is a class. Its fields are the tree contents, the head block and the rebuilding flag. Its methods update them in place.
  - `account_updates_to_ubt` turns a block's account changes into tree writes. The model proves what it writes:
    - a removed account zeroes two leaves;
    - an account with info gets its basic-data and code-hash leaves, then one leaf per code chunk, then one leaf per storage slot;
    - a storage value is stored as the big-endian form of the `U256`.
- **The `ubt_getRoot` JSON-RPC endpoint** (`crates/networking/rpc/ubt/mod.rs`). It parses the block number. It answers with the root only for the head block, and refuses in every other situation with the documented error.
- **The `pir_getStateDelta` and `pir_dumpStorage` endpoints** (`crates/networking/rpc/pir/mod.rs`).
  - Parameter parsing is modelled with every error path.
  - The paging loop of `pir_dumpStorage` is a method proved against a page function.
  - The pages are proved to chain. When the store yields its slots sorted by (address, slot), following `next_cursor` from the first page returns every non-zero slot, exactly once and in order.
- **The PIR state exporter** (`tooling/pir_export/src/exporter.rs`).
  - The 64-byte little-endian `PIR2` header has an encoder, a decoder and a round trip.
  - The plain export collects 84-byte records, sorts them by `keccak256(address ‖ slot)` and writes header then records.
  - The hashed export writes 96-byte records account by account.
  - Both exports are methods over a `Writer` class. For each outcome they state exactly what ends up written:
    - success;
    - a store error;
    - a write error, which leaves the longest prefix of the file, made of the header and whole records, that fits.

The plain export is ordered by `keccak256(address ‖ slot)` (`exporter.rs:109`). This is not the (address, slot) order of the `pir_dumpStorage` pages. The model follows the code here.

Functions from other crates are parameters of the model, with only the properties the code relies on. These are:
- the tree's root hash, constrained so that the empty tree hashes to zero;
- the four EIP-7864 key derivations;
- `chunkify_code` and chunk encoding;
- `BasicDataLeaf` encoding;
- `keccak256`.

A store iterator is a sequence of the items it yields, with a flag saying whether it then fails.

Files:
- `wrappers.dfy`: `Option` and `Result`.
- `bytes.dfy`: integer widths, little- and big-endian encodings, the four-limb `U256`, byte-array order, `copy_from_slice`.
- `hex.dfy`: `hex::encode`, `hex::decode`, `trim_start_matches("0x")`, `u64::from_str_radix(_, 16)`.
- `json_rpc.dfy`: JSON parameter values, `RpcErr`, and `parse_block_number`. The two endpoint files each contain an identical copy of `parse_block_number`; the model defines it once.
- `ubt_state.dfy`, `ubt_keys.dfy`: the tree state and the conversion.
- `ubt_rpc.dfy`, `pir_rpc.dfy`: the endpoints.
- `pir_export.dfy`: the exporter.

## Model

| member | source | states |
|---|---|---|
| Bytes.LERoundTrip | tooling/pir_export/src/exporter.rs:49-53 | the `n`-byte little-endian form of a value below 256^n reads back as that value |
| Bytes.BERoundTrip | crates/storage/ubt.rs:208 | the `n`-byte big-endian form of a value below 256^n reads back as that value |
| Bytes.IsZeroIffValueZero | crates/storage/ubt.rs:202 | `U256::is_zero` holds exactly when the integer is 0 |
| Bytes.BigEndianValue | tooling/pir_export/src/exporter.rs:92 | `to_big_endian` gives 32 bytes whose big-endian reading is the integer |
| Bytes.ZeroBigEndian | crates/storage/ubt.rs:202-203 | a zero `U256` has the all-zero 32-byte form, so the `is_zero` shortcut agrees with the limb loop |
| Bytes.BEOfZero | crates/storage/ubt.rs:202-203 | the big-endian form of 0 is all zero bytes |
| Bytes.LexLessIrreflexive | tooling/pir_export/src/exporter.rs:109 | no byte array sorts before itself under `cmp` |
| Bytes.LexLessAsymmetric | tooling/pir_export/src/exporter.rs:109 | two byte arrays are never each before the other |
| Bytes.LexLessTransitive | tooling/pir_export/src/exporter.rs:109 | byte-array order is transitive |
| Bytes.LexLessTotal | tooling/pir_export/src/exporter.rs:109 | of two distinct arrays of equal length, one sorts first |
| Bytes.CopySlice | tooling/pir_export/src/exporter.rs:48-54 | `copy_from_slice` into `buf[at..at+n]` replaces that range with the source and leaves the rest of the buffer as it was |
| Hex.HexChar | crates/networking/rpc/pir/mod.rs:262 | a digit below 16 becomes a lower-case hex character that reads back as that digit |
| Hex.HexEncode | crates/networking/rpc/pir/mod.rs:262 | `hex::encode` writes two characters per byte |
| Hex.HexDecode | crates/networking/rpc/pir/mod.rs:170 | `hex::decode` succeeds only on text twice as long as the bytes it returns |
| Hex.HexDecodeAccepts | crates/networking/rpc/pir/mod.rs:170 | `hex::decode` succeeds exactly on text of even length whose every character is a hex digit of either case |
| Hex.HexDecodeEitherCase | crates/networking/rpc/pir/mod.rs:170 | `"aB"` and `"Ab"` both decode to the byte `0xab`; odd-length text and a non-hex character are refused |
| Hex.HexRoundTrip | crates/networking/rpc/pir/mod.rs:170 | decoding the encoding of any bytes gives those bytes back |
| Hex.HexEncodeIsLowerHex | crates/networking/rpc/pir/mod.rs:262 | every character of an encoding is a lower-case hex digit |
| Hex.HexDigitsOfEncode | crates/networking/rpc/pir/mod.rs:63 | the digits of an encoding denote the big-endian value of the bytes |
| Hex.ParseU64Radix16 | crates/networking/rpc/pir/mod.rs:63 | `u64::from_str_radix(_, 16)` rejects the empty text and a lone sign |
| Hex.ParseU64Radix16Digits | crates/networking/rpc/pir/mod.rs:63 | for unsigned text, `from_str_radix` gives the hex value of the digits when they are all hex digits and the value is below 2^64, and fails otherwise; one leading `+` changes nothing |
| Hex.ParseU64RoundTrip | crates/networking/rpc/pir/mod.rs:63 | the 16 hex digits of any `u64` parse back to it |
| Hex.TrimHexPrefix | crates/networking/rpc/pir/mod.rs:63 | `trim_start_matches("0x")` returns a suffix of its input that no longer starts with `0x` |
| Hex.TrimRemovesPairs | crates/networking/rpc/pir/mod.rs:63 | `trim_start_matches("0x")` removes exactly the leading `0x` pairs: what it removes has even length and reads `0x0x…0x` |
| Hex.TrimEncoded | crates/networking/rpc/pir/mod.rs:262 | trimming `0x` off `0x` followed by an encoding leaves the encoding |
| JsonRpc.AsU64 | crates/networking/rpc/pir/mod.rs:60 | `as_u64` yields a number exactly when the value is an integer in [0, 2^64), and then yields that integer |
| JsonRpc.ParseBlockNumber | crates/networking/rpc/pir/mod.rs:59-70 | a `u64` is taken as is; a string is accepted iff its text after the `0x` prefixes parses as hex, and gives that number; every other value and every failure is `BadParams` |
| JsonRpc.ParseBlockNumberOverflow | crates/networking/rpc/pir/mod.rs:62-64 | a hex string whose value is 2^64 or more is `BadParams` |
| JsonRpc.ParseBlockNumberOnePastMax | crates/networking/rpc/pir/mod.rs:62-64 | `0x010000000000000000`, which is `u64::MAX + 1`, is refused |
| JsonRpc.ParsePrefixedHex | crates/networking/rpc/ubt/mod.rs:30-32 | `0x` followed by hex digits parses to the digits' value |
| JsonRpc.ParseBlockNumberRoundTrip | crates/networking/rpc/ubt/mod.rs:27-38 | every `u64`, given as a number or as `0x`-prefixed hex, parses back to itself |
| JsonRpc.ParseBlockNumberHexExamples | crates/networking/rpc/ubt/mod.rs:13 | `"0x10"` is block 16, and so is `"0x0x10"`, because every leading `0x` is trimmed |
| JsonRpc.ParseBlockNumberRejects | crates/networking/rpc/pir/mod.rs:63-69 | a bare `"0x"` and a negative number are `BadParams` |
| JsonRpc.ParseBlockNumberUpperCasePrefix | crates/networking/rpc/pir/mod.rs:63 | an upper-case `0X` prefix is not trimmed and the text is refused |
| UbtStore.Entries | crates/storage/ubt.rs:103-106 | the `filter_map` keeps at most one pair per update |
| UbtStore.LastWrite | crates/storage/ubt.rs:103-109 | a key has a last written value exactly when some update writes it |
| UbtStore.Overwritten | crates/storage/ubt.rs:97-115 | after a block the tree's keys are the old keys plus the written ones, and a key no update writes keeps its old value |
| UbtStore.InsertBatchOverwrites | crates/storage/ubt.rs:103-110 | inserting the filtered pairs one after the other yields exactly that tree: each written key holds the value of its last write |
| UbtStore.OverwrittenCompose | crates/storage/ubt.rs:97-115 | applying two blocks one after the other equals applying their concatenated updates |
| UbtStore.OverwrittenIdempotent | crates/storage/ubt.rs:97-115 | applying the same updates twice leaves the tree as applying them once |
| UbtStore.StemsBound | crates/storage/ubt.rs:125-127 | a set of keys never has more distinct stems than keys |
| UbtStore.UbtState.New | crates/storage/ubt.rs:56-62 | a new state has an empty tree with the zero root, no stems, no head, and is not rebuilding |
| UbtStore.UbtState.WithCapacity | crates/storage/ubt.rs:65-71 | pre-allocating gives the same state as `new` |
| UbtStore.UbtState.Root | crates/storage/ubt.rs:231-235 | the empty tree's root is zero |
| UbtStore.UbtState.StemCount | crates/storage/ubt.rs:125-127 | the stem count is at most the number of keys and is 0 for the empty tree |
| UbtStore.UbtState.SetRebuilding | crates/storage/ubt.rs:90-92 | only the flag changes, to the given value |
| UbtStore.UbtState.ApplyBlockUpdates | crates/storage/ubt.rs:97-115 | the tree becomes the old tree overwritten by the block's valued updates, the head becomes the block even when nothing is written, the flag is kept, and the result is the new root |
| UbtStore.UbtState.Reset | crates/storage/ubt.rs:118-122 | the tree is emptied to the zero root, the head is cleared and the rebuilding flag is set |
| UbtStore.ResetAfterBlock | crates/storage/ubt.rs:274-293 | whatever block was applied, a reset leaves the zero root, no head and the rebuilding flag |
| UbtStore.HeadAfterBlock | crates/storage/ubt.rs:238-253 | after one block the head is that block and the flag is clear; a block that writes nothing leaves the tree empty with the zero root |
| UbtKeys.SaturatedBalance | crates/storage/ubt.rs:167-171 | the leaf balance is the balance when it fits in 128 bits and `u128::MAX` otherwise |
| UbtKeys.CodeSize | crates/storage/ubt.rs:161-165 | the code size is 0 without code and the byte length of the code otherwise |
| UbtKeys.StorageValueMeaning | crates/storage/ubt.rs:202-213 | the stored slot value reads back big-endian as the `U256`, equals `to_big_endian`, and is the zero hash exactly when the value is zero |
| UbtKeys.LimbsBigEndian | crates/storage/ubt.rs:207-208 | `n` limbs give `8 n` bytes |
| UbtKeys.LimbsBigEndianAll | crates/storage/ubt.rs:205-211 | placing limb `i` big-endian at bytes `24-8i..32-8i` yields the value's 32-byte big-endian form |
| UbtKeys.StorageValueBytes | crates/storage/ubt.rs:205-211 | the limb loop over a zeroed buffer produces the value's big-endian form |
| UbtKeys.InfoWrites | crates/storage/ubt.rs:160-185 | an account with info produces two writes and one without produces none |
| UbtKeys.ChunkIndex | crates/storage/ubt.rs:190 | `i as u64` is `i` for every index below 2^64 |
| UbtKeys.ChunkWrites | crates/storage/ubt.rs:187-196 | one write per chunk, the `i`-th putting chunk `i` under the chunk key for index `i` |
| UbtKeys.StorageWrites | crates/storage/ubt.rs:198-219 | one write per added slot, putting the slot's value under its storage key |
| UbtKeys.PushInfoWrites | crates/storage/ubt.rs:160-185 | the output grows by exactly the info writes |
| UbtKeys.PushChunkWrites | crates/storage/ubt.rs:187-196 | the chunk loop appends exactly the chunk writes |
| UbtKeys.PushStorageWrites | crates/storage/ubt.rs:198-219 | the slot loop appends exactly the storage writes |
| UbtKeys.AccountUpdatesToUbt | crates/storage/ubt.rs:139-223 | the conversion returns the writes of each account in turn |
| UbtKeys.AllWritesAppend | crates/storage/ubt.rs:142-220 | converting two lists of changes one after the other equals converting their concatenation |
| UbtKeys.AllWritesCount | crates/storage/ubt.rs:139-223 | the number of writes is the sum over accounts of 2 for a removed account, else 2 with info plus chunks plus slots |
| UbtKeys.AllWritesCarryValues | crates/storage/ubt.rs:147-218 | every write carries a value, so applying the block drops none of them |
| UbtKeys.RemovedAccountWrites | crates/storage/ubt.rs:145-158 | a removed account writes zero to its basic-data and code-hash keys and nothing else |
| UbtKeys.InfoLeaves | crates/storage/ubt.rs:160-185 | the first two writes of an account with info are its encoded basic data and its code hash |
| UbtKeys.ChunkLeaves | crates/storage/ubt.rs:187-196 | the code chunks follow the info leaves, each under the key of its own index |
| UbtKeys.SlotLeaves | crates/storage/ubt.rs:198-219 | the slot writes follow the chunks, each under its slot key with a value that reads back as the slot's value |
| UbtKeys.InfoOnlyCount | crates/storage/ubt.rs:296-316 | an account with info and no code or storage gives 2 writes |
| UbtKeys.InfoAndTwoSlotsCount | crates/storage/ubt.rs:318-343 | an account with info and two slots gives 4 writes |
| UbtRpc.ParseGetRoot | crates/networking/rpc/ubt/mod.rs:41-53 | no parameter list is `MissingParam("params")`, an empty one `MissingParam("block_number")`; otherwise the first value is parsed as a block number, with its error passed on |
| UbtRpc.RootText | crates/networking/rpc/ubt/mod.rs:76-77 | `{root:#x}` is `0x` followed by 64 lower-case hex digits that decode back to the root |
| UbtRpc.HandleGetRoot | crates/networking/rpc/ubt/mod.rs:55-87 | without the feature `UnsuportedFork`; a failed lock or no head `Internal`; another block `BadParams`; an answer exactly when the block is the head, and it is the `{:#x}` text of the current root |
| UbtRpc.ParseGetRootHex | crates/networking/rpc/ubt/mod.rs:13 | `"0x10"` asks for block 16 |
| UbtRpc.ParseGetRootExamples | crates/networking/rpc/ubt/mod.rs:41-53 | extra parameters are ignored; a value of the wrong kind is `BadParams`; a missing list or value is `MissingParam` |
| UbtRpc.GetRootAfterBlock | crates/networking/rpc/ubt/mod.rs:63-77 | after a block is applied its root is served, as the root `apply_block_updates` returned, and any other block is `BadParams` |
| UbtRpc.GetRootBeforeAnyBlock | crates/networking/rpc/ubt/mod.rs:63-66 | before any block every request is `Internal` |
| PirRpc.ParseGetStateDeltaWrapping | crates/networking/rpc/pir/mod.rs:73-105 | the parser as written, with a wrapping block count: an accepted range has `from <= to` |
| PirRpc.WrappingAcceptsFullRange | crates/networking/rpc/pir/mod.rs:94-95 | as written, the range `[0, u64::MAX]` of 2^64 blocks is accepted |
| PirRpc.ParseGetStateDelta | crates/networking/rpc/pir/mod.rs:73-105 | a missing list or bound is `MissingParam` with its name; a single parameter is `MissingParam("to_block")` when it parses and `BadParams` when it does not; with two or more, a bound that does not parse is `BadParams`; a request is accepted iff both bounds parse, `from <= to` and at most 100 blocks are spanned, and then holds the two bounds; a refused range is `BadParams` |
| PirRpc.ParseGetStateDeltaAgrees | crates/networking/rpc/pir/mod.rs:94 | the corrected parser differs from the written one only on `[0, u64::MAX]` |
| PirRpc.FullRangeRefused | crates/networking/rpc/pir/mod.rs:95-99 | the corrected parser refuses `[0, u64::MAX]` |
| PirRpc.ParseGetStateDeltaExamples | crates/networking/rpc/pir/mod.rs:83-99 | a reversed range and a range of 150 blocks are refused, 100 blocks are accepted, and a missing `to_block` is named |
| PirRpc.HandleGetStateDelta | crates/networking/rpc/pir/mod.rs:107-112 | every request is answered `MethodNotFound` |
| PirRpc.KeyLessIrreflexive | crates/networking/rpc/pir/mod.rs:233 | no key is before itself in (address, slot) order |
| PirRpc.KeyLessAsymmetric | crates/networking/rpc/pir/mod.rs:233 | two keys are never each before the other |
| PirRpc.KeyLessTransitive | crates/networking/rpc/pir/mod.rs:233 | (address, slot) order is transitive |
| PirRpc.KeyLessTotal | crates/networking/rpc/pir/mod.rs:233 | of two distinct keys one is first |
| PirRpc.CursorString | crates/networking/rpc/pir/mod.rs:257-262 | a cursor is `0x` and 104 hex digits |
| PirRpc.CursorDecodes | crates/networking/rpc/pir/mod.rs:257-262 | a cursor decodes to the key's 20 address bytes followed by its 32 slot bytes |
| PirRpc.CursorBytes | crates/networking/rpc/pir/mod.rs:259-261 | the two copies into the 52-byte buffer give address then slot |
| PirRpc.ParseCursor | crates/networking/rpc/pir/mod.rs:157-188 | there is no cursor exactly when the list or its first value is missing, `null` or `""`; there is a cursor exactly when the first value is a non-empty string whose text after the `0x` prefixes hex-decodes to 52 bytes, and it holds those bytes as address and slot; every failure is `BadParams` |
| PirRpc.ParseLimit | crates/networking/rpc/pir/mod.rs:190-200 | a missing or null limit is 1000; any other value is accepted iff it is a `u64`, and then is that number |
| PirRpc.ParseDumpStorage | crates/networking/rpc/pir/mod.rs:154-213 | a request is accepted iff cursor and limit parse and the limit lies in [1, 10000], and then holds both; every failure is `BadParams` |
| PirRpc.ParseCursorOfKey | crates/networking/rpc/pir/mod.rs:169-180 | the cursor text of a key parses back to that key |
| PirRpc.CursorRoundTrip | crates/networking/rpc/pir/mod.rs:154-213 | a request built from a key's cursor and a valid limit parses to that key and limit |
| PirRpc.ParseDumpStorageExamples | crates/networking/rpc/pir/mod.rs:154-213 | absent, null and empty-string cursors start from the beginning with limit 1000; limits 0 and 10001 and a string limit are refused, 10000 is accepted; a number as cursor is refused |
| PirRpc.WrongCursorLength | crates/networking/rpc/pir/mod.rs:173-177 | a cursor that decodes to anything but 52 bytes is `BadParams` |
| PirRpc.WrongCursorLengthRefused | crates/networking/rpc/pir/mod.rs:173-177 | such a cursor makes the whole request fail |
| PirRpc.Qualifying | crates/networking/rpc/pir/mod.rs:224-236 | the callback's filter keeps at most the entries it is given |
| PirRpc.QualifyingMembers | crates/networking/rpc/pir/mod.rs:228-236 | every kept entry comes from the store, has a non-zero value and lies after the cursor |
| PirRpc.HandleDumpStorage | crates/networking/rpc/pir/mod.rs:215-275 | a failing iteration is `Internal`; otherwise the callback loop with its `done` flag, the pop and the cursor yield the page function's page |
| PirRpc.PageProperties | crates/networking/rpc/pir/mod.rs:252-266 | a page holds at most `limit` entries, all from the store, non-zero and after the cursor; `has_more` iff more than `limit` qualify; a cursor iff `has_more`, and it parses to the last entry's key |
| PirRpc.NothingAfterLast | crates/networking/rpc/pir/mod.rs:232-236 | nothing qualifies after a cursor beyond every key |
| PirRpc.QualifyingIsTail | crates/networking/rpc/pir/mod.rs:134-137 | over a store sorted by (address, slot), the entries after any cursor are a tail of all non-zero entries |
| PirRpc.QualifyingAfterEntry | crates/networking/rpc/pir/mod.rs:232-236 | the entries after the `m`-th non-zero entry are exactly the ones that follow it |
| PirRpc.FullPage | crates/networking/rpc/pir/mod.rs:252-255 | a page with more to come is the first `limit` qualifying entries |
| PirRpc.NextPage | crates/networking/rpc/pir/mod.rs:257-266 | the next request built from a page's cursor parses, keeps the limit, and resumes exactly `limit` entries further on |
| PirRpc.NextRequest | crates/networking/rpc/pir/mod.rs:257-266 | the follow-up request keeps the limit and its qualifying entries are the current ones without the page just returned |
| PirRpc.WalkFrom | crates/networking/rpc/pir/mod.rs:134-147 | following cursors from any request returns all entries that qualify for it, in order |
| PirRpc.WalkComplete | crates/networking/rpc/pir/mod.rs:134-147 | following cursors from the first page returns every non-zero slot in store order, and a slot appears iff it is in the store with a non-zero value |
| PirRpc.NonZeroKept | crates/networking/rpc/pir/mod.rs:228-230 | every non-zero entry of the store passes the filter without a cursor |
| PirExport.Writer.constructor | tooling/pir_export/src/exporter.rs:74 | a writer starts empty with its capacity |
| PirExport.Writer.WriteAll | tooling/pir_export/src/exporter.rs:120 | `write_all` succeeds iff the bytes fit, and then appends them; otherwise nothing is written |
| PirExport.NewHeader | tooling/pir_export/src/exporter.rs:28-44 | the header carries the `PIR2` magic, version 1 and the given size, count, block, chain and hash |
| PirExport.HeaderBytes | tooling/pir_export/src/exporter.rs:46-56 | the header is 64 bytes |
| PirExport.DecodeHeader | tooling/pir_export/src/exporter.rs:46-56 | reading a header succeeds exactly on 64 bytes |
| PirExport.HeaderRoundTrip | tooling/pir_export/src/exporter.rs:46-56 | a header's bytes read back as the same header |
| PirExport.AsBytes | tooling/pir_export/src/exporter.rs:46-56 | the seven copies into a zeroed buffer give the header's byte layout |
| PirExport.HashedRecord | tooling/pir_export/src/exporter.rs:158-160 | a hashed record is 96 bytes |
| PirExport.PlainRecordFields | tooling/pir_export/src/exporter.rs:89-92 | a plain record holds the address, then the slot, then 32 bytes reading big-endian as the value |
| PirExport.HashedRecordFields | tooling/pir_export/src/exporter.rs:158-160 | a hashed record holds the hashed address, then the hashed slot, then the value big-endian |
| PirExport.FillRecord | tooling/pir_export/src/exporter.rs:89-92 | three copies fill the buffer with the three fields in order |
| PirExport.PlainRecordBytes | tooling/pir_export/src/exporter.rs:89-92 | the record buffer ends up as the plain record of the entry |
| PirExport.SortKeyPreimage | tooling/pir_export/src/exporter.rs:84-86 | the 52-byte hash input is address then slot |
| PirExport.KeyLeTransitive | tooling/pir_export/src/exporter.rs:109 | ordering records by sort key is transitive |
| PirExport.NeighboursSortedIsSorted | tooling/pir_export/src/exporter.rs:109 | a sequence whose neighbours are in key order is sorted |
| PirExport.InsertEntry | tooling/pir_export/src/exporter.rs:109 | inserting one more element into the sorted prefix keeps it sorted and permutes the array |
| PirExport.SortByKey | tooling/pir_export/src/exporter.rs:109 | the array ends sorted by `sort_key` and is a permutation of what it was |
| PirExport.Collected | tooling/pir_export/src/exporter.rs:79-101 | the collection has at most one record per store entry |
| PirExport.CollectedMembers | tooling/pir_export/src/exporter.rs:79-101 | every collected record is the plain record of a non-zero store entry, keyed by the keccak of its address and slot |
| PirExport.CollectedComplete | tooling/pir_export/src/exporter.rs:79-101 | conversely, every non-zero store entry is collected, and there are exactly as many records as non-zero entries |
| PirExport.CollectPlain | tooling/pir_export/src/exporter.rs:79-101 | the collecting callback produces the collection |
| PirExport.RecordsLength | tooling/pir_export/src/exporter.rs:122-127 | the records take 84 bytes each |
| PirExport.RecordAt | tooling/pir_export/src/exporter.rs:122-127 | record `i` sits at bytes `84 i .. 84 (i+1)` |
| PirExport.PlainFileLayout | tooling/pir_export/src/exporter.rs:113-127 | the file is 64 + 84 n bytes; its first 64 read as a `PIR2` header of entry size 84 and count n, and the rest are the records in order |
| PirExport.FittingPrefix | tooling/pir_export/src/exporter.rs:122-127 | output that stops at the first whole record that does not fit is exactly the longest whole-record prefix that fits |
| PirExport.WriteRecords | tooling/pir_export/src/exporter.rs:122-127 | the record loop succeeds iff all records fit, and then has written all of them; otherwise exactly the records that fit |
| PirExport.ExportPlain | tooling/pir_export/src/exporter.rs:69-130 | a store error writes nothing; otherwise the records are a sorted permutation of the collection, and the export succeeds iff header and records fit, returning the record count; on success the whole file is written; on a write error nothing past the start if the header does not fit, else the header and exactly the records that fit |
| PirExport.ExportPlainContents | tooling/pir_export/src/exporter.rs:79-109 | each exported record is that of a non-zero store entry |
| PirExport.ExportPlainComplete | tooling/pir_export/src/exporter.rs:79-103 | every non-zero store entry's record is exported, and the count written in the header and returned is the number of non-zero entries |
| PirExport.FirstFailure | tooling/pir_export/src/exporter.rs:148 | the first account whose storage cannot be read, or the number of accounts when every read succeeds |
| PirExport.SlotsBytesRecords | tooling/pir_export/src/exporter.rs:153-163 | one account's output is a whole number of 96-byte records |
| PirExport.HashedBytesRecords | tooling/pir_export/src/exporter.rs:143-169 | the hashed output is a whole number of 96-byte records |
| PirExport.FillHashedRecord | tooling/pir_export/src/exporter.rs:158-160 | the record buffer ends up as the hashed record |
| PirExport.ExportSlot | tooling/pir_export/src/exporter.rs:153-167 | a zero slot is skipped; any other writes its record if it fits and counts it |
| PirExport.ExportSlots | tooling/pir_export/src/exporter.rs:153-168 | one account's slot loop writes all its records, or fails only when they do not fit, having written the whole records that fit and no room for one more |
| PirExport.ExportAccount | tooling/pir_export/src/exporter.rs:143-168 | an account with the empty-trie root or no storage writes nothing; a failed storage read is a store error with nothing written; otherwise its slots are exported, and a write error leaves whole records with no room for one more |
| PirExport.ExportNextAccount | tooling/pir_export/src/exporter.rs:143-169 | one pass of the account loop continues with that account's records appended, stops with a store error exactly at the first unreadable account, or stops on a write error with the longest whole-record prefix of the output that fits |
| PirExport.ExportHashed | tooling/pir_export/src/exporter.rs:137-172 | an unreadable state writes nothing; otherwise everything before the first unreadable account is written, the export succeeds iff no account fails and the output fits, the count is the number of 96-byte records, wrapping at 2^64, and a write error leaves exactly the whole records that fit |

## Left out

- The hash of the tree, the EIP-7864 key derivations, `chunkify_code`, chunk encoding, `BasicDataLeaf` encoding and `keccak256` are parameters. The `ubt` and crypto crates are not part of this model.
- UbtStore.UbtState.StemCount: counts the distinct 31-byte stems of the stored keys. The stem bookkeeping lives in the `ubt` crate, which is not part of this model, so the contract only bounds the count by the number of keys and gives 0 for the empty tree.
- UbtStore.UbtState.ApplyBlockUpdates: `insert_batch` is modelled as a sequence of single insertions in which a later write wins. The tree's internal layout is not modelled.
- A `UbtUpdate` whose value is `None` is dropped by the `filter_map`. No deletion is modelled because the source performs none.
- `removed_storage` and the order of the `added_storage` hash map: `removed_storage` is never read by the conversion. The slots are taken in the order the map yields them, given as a sequence.
- UbtKeys.CodeSize: the `as u32` cast is modelled as wrapping modulo 2^32. The contract only states the value for code shorter than 2^32 bytes.
- JSON serialisation (`serde_json`), error message texts, and the `RpcApiContext` plumbing: errors are compared by kind, plus the parameter name for `MissingParam`.
- The `ubt` feature switch, the mutex, and `async` handling: they become the booleans `enabled` and `locked` of `HandleGetRoot`. Concurrency is not modelled.
- The store's iterators are sequences of what they yield, with a failure flag. Isolation between successive `pir_dumpStorage` pages is not modelled: the completeness proof assumes the same store contents for every page.
- `pir_getStateDelta` has no handler logic beyond its fixed `MethodNotFound` answer.
- The exporter's `W: Write` is a `Writer` whose `write_all` either writes all its bytes or none, and fails once a capacity would be passed. Partial writes before an I/O error are not modelled.
- PirExport.ExportPlain: requires fewer than 2^64 store entries. This makes `entries.len() as u64` lossless.
- PirExport.SortByKey: `sort_unstable_by` is modelled as an insertion sort. The contract leaves the order of records with equal keys open, as `sort_unstable_by` does.
- Progress logging (`info!`, `debug!`), the command-line driver, and the `Default` and `Debug` implementations are not modelled.

## Findings

| source | as written | input that shows it | evidently intended | confidence | as-written member | corrected member |
|---|---|---|---|---|---|---|
| crates/networking/rpc/pir/mod.rs:94 | `to_block - from_block + 1` is computed in `u64`. For the full range this wraps to 0 in a release build, so the `> MAX_DELTA_BLOCKS` check passes. | params `[0, 18446744073709551615]` | a range of more than 100 blocks is always refused | not executed | PirRpc.ParseGetStateDeltaWrapping, PirRpc.WrappingAcceptsFullRange | PirRpc.ParseGetStateDelta, PirRpc.FullRangeRefused |
