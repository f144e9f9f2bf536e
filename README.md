# A verified model of the in-memory core of a small LSM key-value store

This project models, in Dafny, the in-memory core of a log-structured-merge
key-value store. It covers five pieces, each built on the ones before it:

- **Binary codec** (`binary.dfy`, module `Binary`): little-endian encoding and decoding of 32-bit unsigned integers.
- **Record** (`kv.dfy`, module `KeyValues`): a key, a value and a tombstone flag, plus a cached size.
- **Block** (`block.dfy`, module `Blocks`): a 4096-byte page.
  - It has an 8-byte header (`count`, `offset`) and a 4088-byte data area.
  - Each record in the data area is a 4-byte key length, a 4-byte value length, the key and the value.
  - `Get` is a sorted scan over the data area. It returns on an exact key match and stops at the first greater key.
- **MemTable** (`memtable.dfy`, module `MemTables`): the append-only write buffer.
  - It has a byte budget. Reaching the budget flushes the buffer, which here only clears it.
  - Reads scan from the newest entry to the oldest.
- **SSTable assembly** (`sstable.dfy`, module `SSTables`): the in-memory part of a sorted table.
  - It holds the size counter, the key-to-offset index and the list of blocks.
  - `CreateBlock` fills a fresh block with entries, indexes each key, then appends the block.

`common.dfy` (module `Common`) holds the shared types:

- `byte` and `u32` as bounded integers.
- `Wrap32`, Go's uint32 wrap-around, written out explicitly.
- `Option`, `Result` and the error values.

Go strings and byte slices are both `seq<byte>`. The string comparison `strings.Compare` is `Blocks.Less`, a byte-wise lexicographic order.

How each kind of Go state is modelled:

- **Objects updated in place become classes.** These are `BlockHeader`, `Block`, `MemTable`, `SSTableHeader` and `SSTable`. Their methods carry `modifies` clauses and state the whole new state, with one exception. `SSTable.CreateBlock` leaves the appended block's record count and data bytes unstated, because the put that fills them is not part of this model (see "Left out").
- **A record is a datatype.** The write buffer keeps records by value (`[]KeyValue`), so aliasing cannot be observed. `UpdateSize` therefore returns the record with its size recomputed.
- **The block's data area is an array.** `Block.Get` is the Go loop, proved equal to the recursive specification `Blocks.Scan`. What `Scan` finds is then proved about the records laid end to end from an offset. They may fill the whole data area, or only a prefix of it that zero bytes follow, as on a page that is not full.

Block offsets come in two coordinates, and the model keeps them apart:

- The header `offset` counts from the start of the block. It starts at `BLOCK_HEADER_SIZE` = 8.
- The offset passed to `Get` indexes the data area, which excludes the header.

Nothing relates the two.

The source is a draft that does not compile as shown. The model follows the evident intent in each place:

- `block.go:44` stores a `*BlockHeader` in a value field. The model stores the fresh header.
- `block.go:64` writes `VAL + SIZE`. The model uses `VAL_SIZE`, so the key starts 8 bytes after the record.
- `errors` is never imported. The error values are the datatype `Common.Error`.
- `memtable.go:30` appends a `*KeyValue`. The model appends the record.
- `memtable.go:47` calls an undefined `Add`. The model calls `Put(key, "", true)`.
- `memtable.go:63` names an undefined `Entry`. The model uses the empty list of records.
- `sstable.go:61` calls `b.Put`, but block.go defines no `Put`, so its definition is not part of this model. `CreateBlock` takes the outcome of each put as a parameter, `outcomes[i]` of type `SSTables.PutOutcome`. An outcome is either a failure with some error, or a success that left the block header at some offset. On success the model sets the header offset to that value and reads it back, as the source does. The outcome says nothing more about the block.

Where the design of the store as documented and its code disagree, the model follows the code:

- `MemTable.Get` on a tombstone returns the empty value with no error. `Deleted` is never read, so a deleted key reads like a live key with an empty value. A key never written reads as "key not found".
- `MemTable.flush` only clears the buffer. It does not partition entries into blocks and writes nothing to disk.
- The buffer flushes as soon as its size reaches the limit or more (`>=`), not only on equality.
- The index records, for each key, the block header offset left after that key's put. A later duplicate overwrites an earlier one.

Go's run-time panics on out-of-range slicing in `Block.Get` become the error `Common.Error.SliceOutOfRange`. `Block.Get` therefore covers every offset and every key on a block whose data area has 4088 bytes, the only precondition (`Block.Valid`).

Three members are plain field reads and have no row below: `KeyValue.GetSize`, `BlockHeader.GetOffset` and `MemTable.GetSize`. The contracts of the members that use them cover them. The definitions that the lemmas below are stated in also have no row of their own. These are the key order `Less`; the record view `RecordEnd`, `Fits`, `RecordAt`, `TiledTo`, `RecordsTo`, `Sorted`, `Carries` and `Decides`; the reference lookup `Search`; the sample pages; `TotalSize` and `ValueAt`.

## Model

| member | source | states |
|---|---|---|
| `Binary.PutUint32` | binary.go:7-9 | Requires a buffer of at least 4 bytes, as Go's library panics otherwise. Writes byte i = (val >> 8i) & 0xFF into buf[0..4), least significant byte first. Leaves every byte from index 4 on unchanged. The buffer then reads back as val. Writing back the value already there changes nothing. |
| `Binary.GetUint32` | binary.go:11-13 | Requires 4 bytes, as Go's library panics otherwise. Reads little-endian: buf[0] is the value modulo 2^8, its lowest byte, and buf[3] is the value divided by 2^24, its highest byte. `DecodeEncode` and `EncodeDecode` make it the exact inverse of the encoding. |
| `Binary.DecodeEncode` | binary.go:7-13 | Getuint32 of a buffer that starts with the encoding of v is v, whatever bytes follow. |
| `Binary.EncodeDecode` | binary.go:7-13 | Encoding the value read from any buffer of 4 or more bytes gives back exactly its first four bytes. |
| `Binary.DecodePrefixOnly` | binary.go:11-13 | Getuint32 depends only on the first four bytes. |
| `KeyValues.NewKeyValue` | kv.go:10-18 | Stores key, value and tombstone flag exactly as passed. Size is len(key) + len(value) modulo 2^32, and exactly that sum when it fits in uint32. |
| `KeyValues.KeyValue.GetKeySize` | kv.go:20-22 | The key's length, whenever it fits in uint32. |
| `KeyValues.KeyValue.GetValueSize` | kv.go:24-26 | The value's length, whenever it fits in uint32. |
| `KeyValues.KeyValue.UpdateSize` | kv.go:28-30 | Changes only Size. It becomes the uint32 sum of the two lengths, which is the exact sum of the lengths when no wrap occurs. |
| `KeyValues.UpdateSizeIdempotent` | kv.go:28-30 | Recomputing the size a second time changes nothing. |
| `KeyValues.TombstoneSize` | kv.go:10-16 | A tombstone built with an empty value has Size equal to the key's length. |
| `MemTables.Newest` | memtable.go:20-24 | The newest position at or after lo whose key matches. Every later entry's key differs. None means no entry from lo on carries the key. |
| `Blocks.BlockHeader.constructor` | block.go:20-25 | A fresh header has count 0 and offset BLOCK_HEADER_SIZE (8). |
| `Blocks.BlockHeader.SetOffset` | block.go:27-33 | GetOffset then returns the offset set. count is unchanged. |
| `Blocks.Block.constructor` | block.go:42-47 | A fresh header (count 0, offset 8) and a fresh data area of BLOCK_SIZE - BLOCK_HEADER_SIZE = 4088 zero bytes. |
| `Blocks.ScanStep` | block.go:63-79 | One turn of the scan. It decodes the key length from [off, off+4) and the value length from [off+4, off+8). The key follows, then the value. An exact match returns the value. A greater key stops the scan. A slice past the data area panics. Otherwise the scan goes on at the record's end, at least 8 bytes further, so the scan terminates. |
| `Blocks.Scan` | block.go:59-82 | The scan from a data offset. A value it returns lies inside the data area, past the 8 bytes of length prefixes at that offset. It fails only with "value not found" or a slice out of range. |
| `Blocks.Block.Get` | block.go:49-83 | Changes nothing. Fails with "invalid offset" when offset >= BLOCK_DATA_SIZE. Otherwise returns exactly what the scan from that data offset returns. |
| `Blocks.EncodeRecord` | block.go:63-70 | The bytes of one record as the scan reads them: 8 + len(key) + len(value) bytes, the key length, the value length, then the key and the value. |
| `Blocks.RecordRoundTrip` | block.go:63-72 | A record encoded after any bytes and followed by any bytes decodes back to itself, and it ends where its bytes end. |
| `Blocks.SearchFindsFirst` | block.go:59-82 | In the lookup over decoded records, when some record carries the key or a greater key, the result is a value or "value not found", and it does not depend on what lies beyond the records. A value found is that of the first record carrying the key. When no record decides, the lookup goes on beyond them. |
| `Blocks.SearchSortedComplete` | block.go:71-78 | On records sorted by key, one of which carries the key or a greater key, the lookup finds a value exactly when some record carries the key. Stopping at the first greater key misses nothing. |
| `Blocks.ScanDecodes` | block.go:59-82 | Over records that lie end to end from an offset up to some end, the scan decides as the lookup over the decoded records does. When none of them decides, it goes on from the end as if it had started there. |
| `Blocks.ScanFindsFirst` | block.go:59-82 | Assumes records lie end to end from the offset up to some end; what follows is free. If one of them carries the key or a greater key, the scan never panics, and a value it returns belongs to the first record carrying the key. Otherwise the scan goes on from the end. |
| `Blocks.ScanSortedComplete` | block.go:71-82 | Assumes those records are also sorted and one of them carries the key or a greater key. Then "value not found" is reported exactly when no record carries the key, whatever follows the records. |
| `Blocks.ScanFullPage` | block.go:59-82 | On a data area filled to its last byte by sorted records, the scan never panics, and it finds a value exactly when some record at or after the offset carries the key. |
| `Blocks.ScanZeroTail` | block.go:59-80 | Zero bytes read as records with an empty key and an empty value. Over a zero tail, a scan for a non-empty key reports "value not found" when the tail's length is a multiple of 8, and a slice out of range otherwise. |
| `Blocks.StepReadsRecord` | block.go:63-79 | On a record that fits in the data area, one turn of the loop returns its value when the key matches, stops when the record's key is greater, and otherwise moves to the record's end. |
| `Blocks.TileCons` | block.go:63-79 | An encoded record followed by a tiled stretch of records is again tiled, and its records are that record followed by the stretch's. |
| `Blocks.SamplePageRecords` | block.go:59-82 | Any data area laid out as the sample page holds b→2, d→4 and f→6 as 10-byte records from data offset 0, in key order, and then zero bytes. |
| `Blocks.SamplePageLookups` | block.go:59-82 | On any data area laid out as the sample page, "d" is found with value "4". "c" stops at "d", a greater key, with "value not found". |
| `Blocks.SamplePageOverrun` | block.go:59-82 | On any data area laid out as the sample page, a lookup of "g", greater than every key, walks through the 4058 zero bytes. The last step slices past the data area, since 4058 is not a multiple of 8. The bounded scan reports "value not found". |
| `Blocks.ScanWithin` | block.go:59-82 | The scan bounded by the end of the written records. A value it returns lies inside the data area, and it fails only with "value not found" or a slice out of range. |
| `Blocks.ScanWithinDecodes` | block.go:59-82 | Over records lying end to end up to the bound, the bounded scan is the lookup over the decoded records, with "value not found" beyond them. |
| `Blocks.ScanWithinSortedComplete` | block.go:59-82 | Assumes sorted records lie end to end up to the bound. Then the bounded scan never panics, whatever follows the records. It finds a value exactly when some record carries the key, and that value is the first such record's. Whenever a record carries the key or a greater key, it returns what the scan as written returns. |
| `Blocks.Block.GetWithin` | block.go:49-83 | Get with its loop bounded by the end of the written records. Changes nothing. Fails with "invalid offset" when offset >= BLOCK_DATA_SIZE. Otherwise returns exactly what the bounded scan returns. |
| `Blocks.ScanStepAsWritten` | block.go:63-79 | One loop turn in Go's uint32 arithmetic. While the record's end fits in uint32, it equals the model's turn. When it moves on, it moves to the record's end modulo 2^32. |
| `Blocks.WrappedScanRevisits` | block.go:63-79 | Take a record with an empty key and a value length of 0xFFFFFFF8 at offset 0. As written, the next offset wraps back to 0. The model moves past the data area and reports "value not found". |
| `MemTables.MemTable.constructor` | memtable.go:11-17 | Empty entries, Size 0, Limit MEM_TABLE_LIMIT = 4096*1024. The invariant holds. |
| `MemTables.MemTable.Get` | memtable.go:19-26 | Changes nothing. Returns the value of the newest entry at positions 1 and above whose key matches, tombstone or not. Position 0 is never examined. Otherwise reports "key not found". |
| `MemTables.MemTable.GetCorrected` | memtable.go:19-26 | The same scan run down to position 0: the newest matching entry among all entries. |
| `MemTables.MemTable.Put` | memtable.go:28-44 | Appends NewKeyValue(key, val, del) and adds its size, modulo 2^32. When that size reaches Limit, the table is flushed: Entries is empty and Size is 0. Otherwise Size is the old size plus the record's size. Limit never changes and the error is always nil. The invariants are kept: Size is the uint32 sum of the entries' sizes, and Size < Limit. |
| `MemTables.MemTable.Delete` | memtable.go:46-48 | Is Put with an empty value and the tombstone flag set. |
| `MemTables.MemTable.Flush` | memtable.go:50-60 | Leaves no entries and Size 0. Limit is unchanged. |
| `MemTables.MemTable.Clear` | memtable.go:62-66 | Leaves no entries and Size 0. Limit is unchanged. |
| `MemTables.MemTable.IncSize` | memtable.go:72-75 | Adds to Size with uint32 wrap-around. Nothing else changes. |
| `MemTables.MemTable.IsFull` | memtable.go:77-79 | Never holds on a table that keeps the invariant, since Put flushes as soon as Size reaches Limit. |
| `MemTables.OldestEntryIsSkipped` | memtable.go:20-25 | After one Put into a new table, Get of that key reports "key not found" and GetCorrected finds the value. |
| `MemTables.OverwriteThenDelete` | memtable.go:19-48 | After two puts of one key, Get returns the newer value. After Delete, Get returns the empty value with no error. A key never written reports "key not found". |
| `SSTables.SSTableHeader.constructor` | sstable.go:14-18 | Size starts at 0. |
| `SSTables.SSTableHeader.SetSize` | sstable.go:20-22 | Size becomes the given value. |
| `SSTables.SSTableHeader.IncSize` | sstable.go:24-26 | Adds to Size with uint32 wrap-around, which is exact when no wrap occurs. |
| `SSTables.FirstRejected` | sstable.go:59-64 | The position of the first failed put: every earlier put succeeded. Equals the number of entries when none failed. |
| `SSTables.Indexed` | sstable.go:59-68 | Recording each entry's key, in order, keeps every key the index already had. |
| `SSTables.IndexedKeys` | sstable.go:59-68 | The index after recording has exactly the old keys plus the keys of all entries. |
| `SSTables.IndexedCovers` | sstable.go:59-68 | Every entry's key is in the index after recording. |
| `SSTables.IndexedLastWins` | sstable.go:59-68 | After indexing, a key carried by some entry maps to the offset left by the put of the last entry with that key. Every other key keeps its old offset, or stays absent. |
| `SSTables.SSTable.constructor` | sstable.go:35-41 | Header Size 0, an empty index and no blocks. |
| `SSTables.SSTable.AddIndex` | sstable.go:43-45 | Index[key] becomes the offset, replacing any earlier one. Every other key, the blocks and the header are unchanged. |
| `SSTables.SSTable.CreateBlock` | sstable.go:47-74 | On success (an empty entry list included): exactly one fresh block is appended after the unchanged earlier blocks, and the header size grows by BLOCK_SIZE modulo 2^32. The index then maps every entry's key to the header offset after its put, with the last duplicate winning. If put i fails: its error is returned, blocks and size are unchanged, and the keys of entries 0..i-1 stay indexed. |

## Findings

| source | as written | input that shows it | evidently intended | confidence | as-written member | corrected member |
|---|---|---|---|---|---|---|
| block.go:65-79 | `keyEnd` and `valEnd` are uint32, and the next scan offset is `valEnd = keyEnd + valSize`, which wraps modulo 2^32 | A block whose data starts `00 00 00 00 F8 FF FF FF` (an empty key, value length 0xFFFFFFF8). `Get(0, "a")` computes next offset 0 and scans the same record forever. | Each turn moves past the record, at least 8 bytes on, and a record running past the data area ends the scan | not executed; high | `Blocks.ScanStepAsWritten` (shown by `Blocks.WrappedScanRevisits`) | `Blocks.ScanStep` (used by `Blocks.Block.Get`) |
| memtable.go:20 | the loop runs `for i := len-1; i > 0; i--`, so `Entries[0]` is never examined | On a new table, `Put("k", "1", false)`, then `Get("k")`: "key not found" | the loop runs down to `i >= 0` | not executed; high | `MemTables.MemTable.Get` (shown by `MemTables.OldestEntryIsSkipped`) | `MemTables.MemTable.GetCorrected` |
| block.go:59-80 | the loop ends only at `offset >= BLOCK_DATA_SIZE`, a greater key or a match; nothing marks where the written records end, so the scan reads the zero bytes after them as 8-byte records with empty keys | A data area holding b→2, d→4, f→6 (30 bytes) and then zero bytes. `Get(0, "g")` passes the records and steps through the zeros from offset 30. At offset 4086, `b.Data[4086:4090]` is out of range and Go panics. | a key greater than every stored key reports "value not found" once the written records are passed | not executed; medium, since where the records end is decided by code that is not part of this model | `Blocks.Scan` (shown by `Blocks.SamplePageOverrun`) | `Blocks.ScanWithin` (proved by `Blocks.ScanWithinSortedComplete`, used by `Blocks.Block.GetWithin`) |

## Left out

- `SSTable.Write` and `SSTable.Read` (sstable.go:76-191) are left out. They are file I/O through the operating system plus Go `gob` serialization, a foreign format.
- The disk write in `MemTable.flush` is left out. The source holds only a comment there, so `Flush` is `Clear`.
- `Block.Put` is not part of this model. `CreateBlock` takes its outcomes as a parameter. Its effects on `count` and on the header offset are not modelled. `Blocks.EncodeRecord` gives the record layout as the scan reads it.
- Blocks.Block.GetWithin: takes the end of the written records as a parameter. The header's `offset` counts from the start of the block, and no code that is part of this model says how it relates to the data area.
- SSTables.SSTable.CreateBlock: states nothing about the appended block's record count or data bytes, because the missing `Block.Put` would set them.
- Binary.PutUint32: models the Go slice it writes to as a whole array. A caller passing a sub-slice of a larger buffer corresponds to passing that sub-slice.
- Blocks.Block.Get: keeps record offsets exact instead of wrapping them modulo 2^32. This is the evidently intended behaviour, and the two agree while a record's end fits in uint32 (`Blocks.ScanStepAsWritten`). The model has no non-terminating method. It shows the as-written loop one turn at a time instead (`Blocks.ScanStepAsWritten`, `Blocks.WrappedScanRevisits`).
- KeyValues.KeyValue.UpdateSize: returns the updated record instead of assigning the field of a shared record, since records are held by value.
- Multi-table reads, a write-ahead log, compaction and concurrency are left out. None of them is in the modelled files.
