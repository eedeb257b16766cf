# fastdfs core in Dafny

A model of the storage node core of fitan/fastdfs, a small distributed file
store written in Rust, with proofs about it. The model has four parts.

- **The weighted round-robin selector** (`src/wrr.rs`, modules `Wrr` and `WrrTrace`).
  - `new` computes the maximum weight and the gcd of the weights.
  - Each call of `next` walks the server list cyclically. At every wrap to
    index 0 it lowers a threshold by the gcd, and it returns the first server
    whose weight reaches the threshold.
  - The scheduler state is the datatype `Sched`. `NextFrom` is one call of
    `next` as a function, and the class `WeightedRoundRobin` runs the loop
    of the source against that function.
  - `WrrTrace` works out the selector on the servers A:5, B:1, C:1. The code
    produces `B, C`, and from the third call on it repeats the seven results
    `A, A, A, A, A, B, C`. So every window of seven calls holds A five times
    and B and C once each.
  - Smooth weighted round robin would give `A, A, B, A, C, A, A` here; this
    code serves A's five turns in a row.
- **The size-sum file** (`src/next_file.rs`, module `NextFile`).
  - `inset` appends one 8-byte big-endian record and adds the value to an
    in-memory `sum`.
  - `sum()` reads the file back in 8-byte reads, decodes each buffer
    *little-endian*, stores the total and rewrites the file as a single
    big-endian record.
  - The file is a `seq<byte>` field of the class `SumSizeFile`. Every I/O
    failure point is a parameter.
- **The operation journal** (`src/binlog.rs`, module `Binlog`).
  - `inset` fills a zeroed 75-byte buffer through a cursor with an i64
    big-endian timestamp, the path bytes and the operation bytes. It then
    appends the buffer to the journal file.
  - The `std::io::Cursor` it writes through is the class
    `IoCursor.Cursor` over an `array<byte>`.
- **The hash-directory storage** (`src/storage.rs`, module `Storage`).
  - `dir_by_key` takes the first `level` hex digits of the MD5 of a key and
    makes them into a path `/d1/d2/...` of decimal components.
  - `upload_file` renames the uploaded temporary file and returns
    `dir/name`.
  - MD5 and the file-system `rename` are parameters.
  - The comment at `src/storage.rs:36` speaks of 255 directories. With
    `level` 2 there are 256 of them (16 × 16), and `EveryByteHasDir`
    reaches every one.

`Results` holds the `Option` and `Result` datatypes. For `Result`, the error
carries the `anyhow` context string the source attaches. `Bytes` holds the
fixed-width integer codecs: `to_be_bytes`, `from_le_bytes`, `write_u64` and
`swap_bytes`.

## Model

| member | source | states |
|---|---|---|
| Wrr.Gcd | src/wrr.rs:60-66 | the recursion of `gcd` itself, terminating on the decreasing second argument; its properties are the four `Gcd...` lemmas below |
| Wrr.GcdDivides | src/wrr.rs:60-66 | `gcd(a, b)` divides both `a` and `b` |
| Wrr.GcdGreatest | src/wrr.rs:60-66 | every common divisor of `a` and `b` divides `gcd(a, b)`, so it is the greatest common divisor |
| Wrr.GcdZero | src/wrr.rs:60-66 | `gcd(a, b)` is 0 exactly when both arguments are 0 |
| Wrr.GcdIdentities | src/wrr.rs:60-66 | 0 is the identity of `gcd` on both sides, the start value the constructor relies on |
| Wrr.MaxOf | src/wrr.rs:24-29 | the maximum weight is at least every server's weight, is the weight of some server, and is 0 for no servers |
| Wrr.GcdOf | src/wrr.rs:25-30 | the gcd that `new`'s loop folds over the weights from 0; its properties are the three `GcdOf...` lemmas below |
| Wrr.GcdOfDivides | src/wrr.rs:25-30 | the folded gcd divides every server's weight |
| Wrr.GcdOfGreatest | src/wrr.rs:25-30 | every common divisor of all weights divides the folded gcd |
| Wrr.GcdOfZero | src/wrr.rs:25-30 | the folded gcd is 0 exactly when every weight is 0 |
| Wrr.MaxZeroIffGcdZero | src/wrr.rs:24-30 | the maximum weight is 0 exactly when the gcd is 0 |
| Wrr.MaxIndex | src/wrr.rs:24-29 | some index holds the maximum weight |
| Wrr.Advance | src/wrr.rs:43-52 | one probe keeps the index valid and the threshold within `0..max_weight`, and steps the index cyclically |
| Wrr.NextFrom | src/wrr.rs:41-57 | one call of `next` keeps the state valid. It returns either a server whose weight reaches the new threshold, or, only when all weights are 0, the empty string with the state reset |
| Wrr.Run | src/wrr.rs:41-57 | `n` calls of `next` give `n` results |
| Wrr.After | src/wrr.rs:41-57 | the state after `n` calls is valid |
| Wrr.RunSplit | src/wrr.rs:41-57 | `a + b` calls are `a` calls followed by `b` calls from the state they leave |
| Wrr.RunStep | src/wrr.rs:41-57 | a run is the first call's result followed by the run from the state it leaves |
| Wrr.ProbeResets | src/wrr.rs:44-50 | a wrap with all weights 0 returns the empty string and resets the state |
| Wrr.ProbeAccepts | src/wrr.rs:53-55 | a probe whose server reaches the threshold ends the call with that server |
| Wrr.ProbeRejects | src/wrr.rs:42-56 | a probe that falls short continues the call from the advanced state, one step nearer a maximum-weight server, so the loop ends |
| Wrr.FreshProbe | src/wrr.rs:53-55 | from a fresh selector (threshold 0) the probe at index `j > 0` accepts server `j` |
| Wrr.FreshCallsWalkServers | src/wrr.rs:32-57 | the first `n - 1` calls on a fresh selector return servers 1, 2, ..., `n - 1` in order, whatever their weights |
| Wrr.UsizeSub | src/wrr.rs:45 | `usize` subtraction succeeds exactly when it does not go below zero, and then gives the difference |
| Wrr.FirstWrapUnderflows | src/wrr.rs:45 | after the first `n - 1` calls the next call wraps with `current_weight` 0, and `0 - gcd_weight` underflows |
| Wrr.WeightedRoundRobin.constructor | src/wrr.rs:23-39 | the loop leaves the maximum and the gcd of all weights, with threshold and index 0 |
| Wrr.WeightedRoundRobin.Next | src/wrr.rs:41-57 | the loop computes exactly `NextFrom` on the old state and keeps the invariant. It examines between 1 and `servers.len()` servers |
| WrrTrace.SampleConfig | src/wrr.rs:23-39 | for A:5, B:1, C:1 the maximum is 5 and the gcd is 1 |
| WrrTrace.FirstLap | src/wrr.rs:41-57 | from a fresh selector the first calls return B, then C, then A, and the last of them enters the cycle |
| WrrTrace.CycleStep | src/wrr.rs:41-57 | from each of the seven cycle states one call returns the cycle's next result and moves to the next cycle state |
| WrrTrace.RunAroundCycle | src/wrr.rs:41-57 | up to seven calls from a cycle state follow the cycle around |
| WrrTrace.CycleRotation | src/wrr.rs:41-57 | seven calls from any cycle state give the cycle rotated to start there |
| WrrTrace.AfterFirstLap | src/wrr.rs:41-57 | after `m >= 3` calls the selector is in cycle state `(m - 2) mod 7` |
| WrrTrace.FirstLapThenCycle | src/wrr.rs:41-57 | the calls from inside the first lap are the rest of `B, C, A` followed by the calls from the cycle |
| WrrTrace.FirstLapWindow | src/wrr.rs:41-57 | seven calls starting inside the first lap are a rotation of the cycle |
| WrrTrace.FirstTenCalls | src/wrr.rs:41-57 | the first ten calls return `B, C, A, A, A, A, A, B, C, A` |
| WrrTrace.EveryWindowOfSeven | src/wrr.rs:41-57 | every window of seven consecutive calls from a fresh selector is a rotation of `A, A, A, A, A, B, C`, so it holds A five times and B and C once each, in proportion to the weights |
| Bytes.BeBytes | src/next_file.rs:38 | the `n` low-order bytes of a value, most significant first, as `write_u64` writes them with `n` = 8; always `n` bytes long |
| Bytes.FromLe | src/next_file.rs:74 | `u64::from_le_bytes`: the value of bytes read least significant first; `LeReadOfBeWrite` ties it to the big-endian write |
| Bytes.I64Be | src/binlog.rs:29 | `i64::to_be_bytes`: two's complement, most significant byte first, 8 bytes long |
| Bytes.FromBeBeBytes | src/next_file.rs:38 | big-endian decoding gives back a value written with `write_u64` |
| Bytes.BeBytesFromBe | src/next_file.rs:38 | big-endian encoding gives back any 8-byte string it was decoded from |
| Bytes.LeReadOfBeWrite | src/next_file.rs:74 | reading a `write_u64` record with `from_le_bytes` gives the value with its bytes swapped |
| Bytes.ByteSwapInvolution | src/next_file.rs:74 | swapping the bytes of a u64 twice gives it back |
| Bytes.ByteSwapFixedIffPalindrome | src/next_file.rs:74 | a u64 is unchanged by the swap exactly when its 8 bytes read the same in both directions |
| Bytes.I64RoundTrip | src/binlog.rs:29 | `i64::from_be_bytes` inverts `i64::to_be_bytes` |
| IoCursor.Overwrite | src/binlog.rs:28-31 | a cursor write keeps the buffer's length, puts the part of the data that fits at the position and leaves every other byte |
| IoCursor.Cursor.WriteAll | src/binlog.rs:28-31 | `write_all` copies the part that fits into the array, advances the position by that many bytes, and succeeds exactly when everything fit |
| NextFile.ScanTotal | src/next_file.rs:69-75 | the read loop as a function: each `read` overwrites only the bytes it returns, and the whole 8-byte buffer is added little-endian |
| NextFile.ReadTotal | src/next_file.rs:67-75 | the total the loop computes on a file, starting from the zeroed buffer of line 67 |
| NextFile.ScanWholeRecords | src/next_file.rs:69-75 | on whole 8-byte records the read loop sums each record read little-endian |
| NextFile.ReadWholeRecords | src/next_file.rs:67-75 | the total of a whole-record file is the sum of its records read little-endian |
| NextFile.ShortTailReusesBuffer | src/next_file.rs:70-74 | a short last read is decoded together with the stale bytes of the previous read left in the buffer |
| NextFile.Reads | src/next_file.rs:69-75 | the number of `read` calls the loop makes is at least one |
| NextFile.SumLeAppend | src/next_file.rs:74 | the little-endian total of a log grows by the little-endian value of an appended record |
| NextFile.SumBeAppend | src/next_file.rs:36-42 | appending the record of `v` adds exactly `v` to the records' big-endian total, which is what `inset` adds to `sum` |
| NextFile.RecordKeepsTotal | src/next_file.rs:41-42 | after `inset`'s append and add, `sum` is still the total the records hold |
| NextFile.ReadOfCompacted | src/next_file.rs:74-78 | `sum()` on the one record it wrote itself reads the total with its bytes swapped |
| NextFile.CompactTwiceRestores | src/next_file.rs:64-81 | two `sum()` calls in a row give the original total back |
| NextFile.CompactKeepsIffPalindrome | src/next_file.rs:64-81 | a compacted total survives another `sum()` exactly when its 8 bytes are a palindrome |
| NextFile.EmptyLogCompacts | src/next_file.rs:64-81 | an empty file sums to 0 and is rewritten as 8 zero bytes |
| NextFile.RecordsSnoc | src/next_file.rs:41 | each further `inset` appends one 8-byte big-endian record |
| NextFile.RecordsTotal | src/next_file.rs:33-44 | read big-endian, the records of a series of `inset`s hold the total of the values inserted |
| NextFile.RecordsLeTotal | src/next_file.rs:74 | read little-endian record by record, they give the total of the byte-swapped values |
| NextFile.RecordsReadTotal | src/next_file.rs:64-75 | `sum()`'s read loop on those records computes the total of the byte-swapped values |
| NextFile.SwappedSmallTotal | src/next_file.rs:74 | values below 256 come back from the read loop multiplied by 2^56 |
| NextFile.InsetsThenSum | src/next_file.rs:74 | an empty file, then `inset` of 3, 4 and 5, holds the total 12, but `sum()` computes 12 · 2^56 |
| NextFile.TwoInsetsOverflowSum | src/next_file.rs:74 | an empty file, then `inset(200)` twice, holds 400, but the read loop's total is 400 · 2^56, past `u64::MAX`, so a `sum +=` of the next `sum()` overflows |
| NextFile.CorrectedTotalCompacts | src/next_file.rs:74-78 | with a big-endian read, compacting keeps the total the records hold |
| NextFile.SumError | src/next_file.rs:64-80 | `sum()` fails exactly at an injected fault that is reached. A fault in a `read` call after the last one is not reached |
| NextFile.LogAfterSum | src/next_file.rs:76-79 | after a `sum()` that succeeds, the file is the one big-endian record of the read total |
| NextFile.SumSizeFile.constructor | src/next_file.rs:21-26 | the struct starts with `sum` 0 over the opened file |
| NextFile.SumSizeFile.New | src/next_file.rs:19-30 | `new` fails with "open" when the file cannot be created, leaving the disk as it was, and otherwise with exactly `sum()`'s error. In every case after the open it returns the file as `sum()` leaves it, which is empty after a failing rewrite. On success `sum` is the read total and the file is rewritten as its one record |
| NextFile.SumSizeFile.Inset | src/next_file.rs:33-44 | `inset` either fails with "write" and changes nothing, or appends the 8-byte big-endian record and adds the value to `sum`. It keeps `sum` equal to the records' total |
| NextFile.SumSizeFile.GetCursor | src/next_file.rs:46-49 | `get_cursor` returns the current `sum`, a u64 |
| NextFile.SumSizeFile.ReadLoop | src/next_file.rs:67-75 | the loop fails exactly when a fault hits one of its `read` calls, and otherwise returns the stale-buffer little-endian total |
| NextFile.SumSizeFile.Sum | src/next_file.rs:64-81 | `sum()` fails exactly as `SumError` says. It sets `sum` to the read total once the reads are done, even when the rewrite then fails, and leaves the file as `LogAfterSum` says |
| Binlog.Record | src/binlog.rs:27-31 | a journal record is exactly 75 bytes |
| Binlog.RecordLayout | src/binlog.rs:27-31 | bytes 0..8 hold the timestamp, then the path, then the operation, then zeros |
| Binlog.TimestampRoundTrip | src/binlog.rs:29 | the timestamp decodes back from the first 8 bytes of its record |
| Binlog.RecordDetermines | src/binlog.rs:27-31 | equal records have equal timestamps and, for the same total length, the same path-and-operation bytes |
| Binlog.BoundaryNotRecorded | src/binlog.rs:30-31 | moving bytes from the end of the path to the front of the operation gives the same record, so the journal does not record where the path ends |
| Binlog.AppendKeepsRecords | src/binlog.rs:32 | appending a record keeps the journal as a prefix and keeps its length a multiple of 75 |
| Binlog.FillTimestamp | src/binlog.rs:29 | the first cursor write leaves the timestamp followed by zeros |
| Binlog.FillBytes | src/binlog.rs:30-31 | a later cursor write that fits appends its bytes after what was written before |
| Binlog.BindLog.constructor | src/binlog.rs:18-22 | `new` records the path and touches no file |
| Binlog.BindLog.Inset | src/binlog.rs:25-34 | `inset` fails with "open" and changes nothing, or creates the file. It then fails with "write path" or "write op" when those do not fit in 75 bytes, or with "write_all" when the append fails. Otherwise it appends exactly the record |
| Storage.New | src/storage.rs:22-29 | the struct literal of `new`; its settings are stated by `NewSettings` |
| Storage.NewSettings | src/storage.rs:22-29 | `new` gives level 2, 16 directories, no roots and `/tmp`, whatever its argument |
| Storage.HexEncode | src/storage.rs:38 | hex encoding gives two characters per byte |
| Storage.ToDigit16 | src/storage.rs:41 | `to_digit(16)` gives a value below 16 when it succeeds |
| Storage.HexCharDigit | src/storage.rs:41 | `to_digit(16)` inverts the hex digit character of every value below 16 |
| Storage.HexEncodeDigits | src/storage.rs:38-41 | characters `2k` and `2k+1` of the encoded digest are the high and low nibbles of byte `k` |
| Storage.Decimal | src/storage.rs:42 | `format!` of an integer gives a non-empty string of decimal digits |
| Storage.DecimalRoundTrip | src/storage.rs:42 | the decimal digits of a number read back as that number |
| Storage.PathSnoc | src/storage.rs:40-43 | each loop step appends one `/`-component |
| Storage.Nibbles | src/storage.rs:40-41 | the loop reads `level` hex digits, each below 16 |
| Storage.DigestHash | src/storage.rs:38 | the hex encoding of an MD5 digest is 32 hex digits |
| Storage.DigitRun | src/storage.rs:42 | the leading run of digits of a string is within it and all digits |
| Storage.DirOf | src/storage.rs:39-43 | the directory built from the first `level` hex digits, one `/`-component each; it parses back to exactly those digit values |
| Storage.KeyHash | src/storage.rs:38 | the hex-encoded MD5 of the key: 32 hex digits |
| Storage.DirByKey | src/storage.rs:37-45 | the loop builds the directory `DirOf` of the key's hex digest |
| Storage.ParsePath | src/storage.rs:40-43 | a directory built from component values parses back to exactly those values |
| Storage.DirComponents | src/storage.rs:37-45 | a key's directory has exactly `level` components, and component `i` is hex digit `i` of the digest |
| Storage.TwoLevelDirs | src/storage.rs:36-45 | with level 2 two keys share a directory exactly when the first bytes of their digests are equal |
| Storage.EveryByteHasDir | src/storage.rs:36-45 | with level 2 every one of the 256 first-byte values has its own directory `/hi/lo` |
| Storage.UploadFile | src/storage.rs:30-34 | `upload_file` renames `tmp_dir/name` to the key's directory. It returns `dir/name` when the rename succeeds and "rename" when it fails |
| Storage.UploadTargetDiffers | src/storage.rs:32-33 | the path returned is never the path the file was renamed to |
| Storage.IntendedUpload | src/storage.rs:30-34 | the corrected upload renames the file to the path it returns, which lies inside the key's directory. It fails exactly when that rename fails |

## Left out

- Concurrency and async scheduling: the `tokio` mutex and the `.await`
  points. Every operation is modelled as one sequential step. The guard in
  `inset` is dropped as soon as it is taken, so it protects nothing anyway.
- File-system effects are modelled as a byte sequence per file, with each
  failure point as a boolean or fault parameter.
  - Open modes, permissions and `sync_all` durability are not modelled.
  - `std::fs::rename` and its directory semantics are a caller-given predicate.
- NextFile.SumSizeFile.Inset: `write` at `next_file.rs:41` may write part
  of the buffer. The model makes it write all 8 bytes or fail. It requires
  `sum + value` to fit in a u64, so the overflow panic and the release-build
  wrap-around are not modelled.
- NextFile.SumSizeFile.Inset: the `write_u64` into the 8-byte buffer
  always fits, so its "write_u64" error path cannot happen and is not modelled.
- NextFile.SumSizeFile.Sum: requires the read total of the whole file to
  fit in a u64, so the overflow panic at `next_file.rs:74` is not modelled
  as an outcome. `TwoInsetsOverflowSum` shows that two ordinary `inset`s on
  a fresh file already break this requirement (see Findings).
  Each `read` returns `min(8, remaining)` bytes. A short read in the middle
  of the file is not modelled.
- NextFile.SumSizeFile.New: shares `Sum`'s requirement on the read total.
- Binlog.BindLog.Inset: a failing `write_all` appends nothing. A partial
  append before the error is not modelled.
- Path, operation and key text: the journal takes the UTF-8 bytes of the
  path and the operation as given. Storage keys and names are Dafny strings,
  and their bytes reach MD5 only through the caller-given digest function.
- MD5 itself is not modelled. `Md5::digest` is a caller-given function
  returning 16 bytes.
- Storage.DirByKey: requires `level <= 32`. A larger level makes the
  `unwrap` at `storage.rs:41` panic on the 32-character hash, and that
  panic is not modelled.
- Storage: `dir_count`, `root_dirs` and `RootDir::read_write` are kept as
  data, and nothing in the core reads them.
- `BindLog::get` (`binlog.rs:37-50`) only reads the file's metadata and
  opens it, then returns `Ok(())`. Its binary search is not written, so it
  is not modelled. The `Operation` enum is never used, and the journal takes
  the operation as a string.
- The commented-out `get` in `next_file.rs:52-62` is not code.
- `src/http.rs` and `src/main.rs` are not part of this model. They are the
  HTTP front end and the process entry point.
- Wrr: `current_weight` is modelled as an `int`, not a `usize`. This is what
  the `<= 0` test at `wrr.rs:46` evidently intends. `UsizeSub` and
  `FirstWrapUnderflows` state what `usize` arithmetic does instead (see
  Findings).
- Wrr.WeightedRoundRobin.Next: requires a non-empty server list. With no
  servers the source's `% 0` panics, and that panic is not modelled.

## Findings

| source | as written | input that shows it | evidently intended | confidence | as-written member | corrected member |
|---|---|---|---|---|---|---|
| src/wrr.rs:45 | `current_weight` is a `usize` that starts at 0, and the first wrap computes `0 - gcd_weight` | servers A:5, B:1, C:1; the third call of `next` after `new` wraps with `current_weight` 0 and subtracts 1 | a signed threshold that goes to the maximum weight once it is `<= 0`, as the test on the next line expects | not executed; high | Wrr.FirstWrapUnderflows | Wrr.NextFrom |
| src/next_file.rs:74 | records written big-endian by `write_u64` are read back with `u64::from_le_bytes`, so each value comes back byte-swapped | `new` on an empty file, then `inset` of 3, 4 and 5, then `sum()`: 12 · 2^56 instead of 12. With `inset(200)` twice the swapped total is 400 · 2^56, so the `sum +=` overflows: a panic in a debug build, a wrong total in a release build | read each record big-endian, so that the total is the sum of the values inserted and survives compaction | not executed; high | NextFile.TwoInsetsOverflowSum | NextFile.CorrectedTotalCompacts |
| src/storage.rs:32 | the file is renamed to the directory `dir`, but `dir/name` is returned | any upload, e.g. `name` = `a.txt` with directory `/1/2`: the rename target is `/1/2`, and `/1/2/a.txt` is returned | rename `tmp_dir/name` to `dir/name`, the path returned | not executed; medium | Storage.UploadTargetDiffers | Storage.IntendedUpload |
