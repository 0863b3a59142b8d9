# filego split / check / merge in Dafny

A model of the three synchronous processes of the `filego` crate, with proofs
about them.

- **Split** (`Split::run`) reads one file and writes it out as chunk files `0`, `1`, … in an output directory. Every chunk holds `chunk_size` bytes except possibly the last.
- **Check** (`Check::run`) tells whether such a directory holds every chunk `0 .. total_chunks - 1`, and whether together they hold `file_size` bytes.
- **Merge** (`Merge::run`) concatenates the regular files of a directory into one output file, taken in the numeric order of their names.

The filesystem is a `Disk` object holding a tree, `map<Path, Node>`.

- A path is a sequence of components, and `[]` is the root directory.
- A node is either a regular file with its bytes or a directory.
- The `std::fs` calls are methods of `Disk` that update the tree in place.

Every call the source ends with `?` may fail for reasons the tree does not show, such as permissions, a full disk or a device error. The model lets each such primitive fail freely. A failing primitive changes nothing, and the process returns `Err(IoFailure)`.

A `Reader` stands for the buffered reader over an open file. Its `Read` returns 0 only at the end of the file or for an empty slice. Otherwise it returns at least one byte and may return fewer than fit (a short read).

The three builder structs are datatypes, and `run` is a method that takes the `Disk`.

- Split's chunking loop keeps the source's fill offset `current` in `0 .. chunk_size - 1`. It is proved to write exactly `Chunks(input, chunk_size)`. That function cuts the input into pieces that concatenate back to it, all of `chunk_size` bytes but a last one of 1 to `chunk_size` bytes, and there are `ceil(|input| / chunk_size)` of them. With `chunk_size = 0` the buffer is empty and the first read returns 0. The split then writes nothing and reports 0 chunks, whatever the input's length.
- Check's loop is proved to compute the missing ordinals and the present size that two recursive functions define. Its verdict is `Decide`, whose contract gives the fixed decision order: Missing, then Size, then success.
- Merge sorts its entries with an in-place insertion sort, proved sorted by numeric key and a permutation. Its nested copy loop is proved to append every entry's full contents in that order.
- Merge takes its buffer capacity from the size of the first file listed, bounded by `cap_max`. When that capacity is 0 (an empty first file, or `cap_max = 0`), every read into the empty buffer returns 0. The run then ends with `Ok(true)` and an empty output. `Merging.Merge.Run` states this case explicitly.

The `Lifecycle` module proves the round trip.

- Split, then check with the split's own result: the check succeeds.
- With one more chunk asked for, the check fails with kind Missing (code "missing"). With one more byte, it fails with kind Size (code "size"). With a chunk deleted, it fails with exactly that ordinal missing.
- Split into a directory without regular files, then merge it: the output holds the original bytes, whatever order the directory lists the chunks in. The proof needs `parse::<usize>(k.to_string()) == k` for every chunk ordinal.

## Model

| member | source | states |
|---|---|---|
| Config.Min | package/src/split.rs:170 | the buffer capacity is at most both bounds and equal to one of them |
| Decimal.ToDecimal | package/src/split.rs:193 | a chunk name is a non-empty string of decimal digits without a leading zero |
| Decimal.ParseUsize | package/src/merge.rs:200 | a name parses only to a value below 2^64 |
| Decimal.DigitsValueOfDecimal | package/src/split.rs:193 | the digits written for `n` denote `n` |
| Decimal.ParseDecimal | package/src/merge.rs:194-201 | parsing the name written for ordinal `n` gives back `n` |
| Decimal.DecimalInjective | package/src/split.rs:219 | distinct ordinals get distinct chunk names |
| Decimal.NumericNames | package/src/merge.rs:194-201 | "10" parses to 10 though it sorts before "9" as a string; "007" and "+7" parse to 7; "", "+" and "-1" do not parse |
| FileSystem.RegularFiles | package/src/merge.rs:188-192 | a name is listed exactly when `dir/name` is a regular file |
| FileSystem.Reader.Read | package/src/split.rs:187 | a read copies the next bytes of the file into `buf[from..]` and nothing else; it returns 0 exactly at end of file or for an empty slice |
| FileSystem.Disk.CreateDirAll | package/src/split.rs:147 | `create_dir_all` makes every missing prefix of the path a directory and keeps every existing entry |
| FileSystem.Disk.RemoveDirAll | package/src/merge.rs:166 | `remove_dir_all` deletes the directory and everything below it |
| FileSystem.Disk.RemoveFile | package/src/merge.rs:168 | `remove_file` deletes exactly that regular file |
| FileSystem.Disk.WriteFile | package/src/split.rs:195-206 | create + truncate + `write_all` + `flush` leaves a file holding exactly the bytes written, replacing any earlier file |
| FileSystem.Disk.CreateFile | package/src/merge.rs:177-181 | create without truncate keeps an existing file and otherwise makes an empty one |
| FileSystem.Disk.Append | package/src/merge.rs:221 | `write_all` adds the bytes at the end of the output |
| FileSystem.Disk.Flush | package/src/merge.rs:225 | `flush` leaves the tree as it is, because the model's writes reach the tree at once; it may only fail |
| FileSystem.Disk.OpenRead | package/src/split.rs:172-175 | the reader starts at the beginning of the file's bytes, and the metadata length is their number |
| FileSystem.Disk.FileLen | package/src/check.rs:213-217 | the metadata length of a regular file is its number of bytes |
| FileSystem.Disk.ListFiles | package/src/merge.rs:188-192 | `read_dir` filtered to regular files lists each of them once and nothing else |
| Splitting.ChunksFlatten | package/src/split.rs:186-240 | concatenating the chunks in ordinal order gives back the input |
| Splitting.ChunkSizes | package/src/split.rs:189-239 | every chunk but the last has exactly `chunk_size` bytes; the last has 1 to `chunk_size` |
| Splitting.ChunkCount | package/src/split.rs:186-240 | the chunk count is the input length divided by `chunk_size`, rounded up; an empty input gives no chunk |
| Splitting.ChunksSnoc | package/src/split.rs:189-209 | a trailing partial buffer after whole chunks becomes exactly one more chunk |
| Lifecycle.ChunkBounds | package/src/split.rs:186-240 | every chunk holds at least one byte, so there are no more chunks than input bytes, and none exactly for an empty input |
| Splitting.StoredChunk | package/src/split.rs:192-206 | after storing, `dir/k` is a regular file holding chunk `k`, whatever was there before |
| Splitting.StoreChunksElsewhere | package/src/split.rs:218-225 | storing chunks changes no path other than the chunk names |
| Splitting.StoredFiles | package/src/split.rs:193 | the regular files of the output directory afterwards are those it had plus exactly `0 .. total_chunks - 1` |
| Splitting.CopyWithin | package/src/split.rs:237 | `copy_within(from..to, dest)` moves that range to `dest` and leaves the rest of the buffer as it was |
| Splitting.ReadInto | package/src/split.rs:187 | the bytes read land right after the `current` bytes already in the buffer, and a read of 0 means the end of the input or a full buffer |
| Splitting.WriteChunk | package/src/split.rs:192-206 | writing a full or final buffer stores it as the chunk with the next ordinal |
| Splitting.WriteChunks | package/src/split.rs:180-240 | the read loop, with `current` kept within the buffer, writes exactly the chunk files of `Chunks(input)` and counts them; with a chunk size of 0 it writes nothing |
| Splitting.Split.New | package/src/split.rs:57-64 | the defaults are no paths, 2 MiB chunks and a 10 MiB bound, so the reader buffers one whole chunk |
| Splitting.Split.Run | package/src/split.rs:110-243 | the validation errors come in source order and leave the tree unchanged; an absent output directory is created; on success the result is the input length and chunk count, and the tree is the chunk files stored into the ready output directory; a chunk size of 0 gives 0 chunks; the input may be any file but one of the chunk files the split writes |
| Lifecycle.SplitZeroChunkSize | package/src/split.rs:180-211 | with a chunk size of 0 a non-empty input gives no chunk, the directory is left as it was, and the check made from the split's result fails with a size error |
| Checking.CheckResultErrorType.AsCode | package/src/check.rs:52-57 | Missing's code is "missing" and Size's code is "size", and no other kind has either code |
| Checking.CheckResultErrorType.FromCode | package/src/check.rs:43-49 | a code names a kind exactly when it is that kind's code, and no kind for any other string |
| Checking.CheckResultErrorType.ToCode | package/src/check.rs:59-62 | `to_code` equals `as_code`, and `from_code` reads it back as the same kind |
| Checking.Check.New | package/src/check.rs:114-116 | nothing is set, so every run stops at its first validation with InvalidInput |
| Checking.Decide | package/src/check.rs:220-244 | success exactly when nothing is missing and the sizes agree; an error exactly on failure; kind Missing with the list exactly when something is missing, otherwise kind Size with no list |
| Checking.MissingExactly | package/src/check.rs:205-211 | an ordinal is reported missing exactly when it is below `total_chunks` and its file is absent or not a regular file |
| Checking.MissingAscending | package/src/check.rs:205-211 | the missing ordinals are strictly ascending |
| Checking.OnlyOrdinalsBelow | package/src/check.rs:205-218 | files named at or above `total_chunks` do not affect the result |
| Checking.NoChunksExpected | package/src/check.rs:205-244 | with `total_chunks = 0` the check succeeds exactly when `file_size = 0` |
| Checking.Check.Run | package/src/check.rs:151-245 | the validation errors come in source order; a completed run returns the verdict `Decide` gives for the missing ordinals below `total_chunks` and the total size of the present chunks |
| Merging.Key | package/src/merge.rs:194-201 | the sort key is the `usize` a name parses to, below 2^64 |
| Merging.KeyPanics | package/src/merge.rs:194-201 | the key's `unwrap` panics exactly when two or more names are sorted and one of them does not parse |
| Merging.ChunkNamesNeverPanic | package/src/merge.rs:194-201 | chunk names, however many, all parse, so sorting them never panics |
| Merging.KeyOfDecimal | package/src/merge.rs:194-201 | the sort key of the chunk name for ordinal `k` is `k` |
| Merging.SortByKey | package/src/merge.rs:194-202 | the entries end up in ascending order of their numeric keys and are a permutation of what they were |
| Merging.SortEntries | package/src/merge.rs:188-202 | the sorted entries are the listed names, each once, in ascending key order |
| Merging.NumericOrder | package/src/merge.rs:194-202 | "9" is copied before "10" |
| Merging.MergedLength | package/src/merge.rs:205-223 | each entry adds its full length to the output |
| Merging.PreparedKeepsDir | package/src/merge.rs:164-181 | deleting and recreating the output leaves a directory that it is neither above nor directly inside with the same regular files and bytes |
| Merging.PrepareOutput | package/src/merge.rs:163-181 | an existing output is removed (recursively for a directory), its parents are made, and it is created empty |
| Merging.CopyFile | package/src/merge.rs:206-222 | reading until a read returns 0 appends the whole entry to the output, or nothing when the buffer is empty |
| Merging.CopyStep | package/src/merge.rs:216-222 | one turn of the read loop appends exactly the bytes the read gave, and a read of 0 means the buffer is empty or the entry is exhausted |
| Merging.CopyAll | package/src/merge.rs:205-223 | the output grows by the concatenation of the entries in order, or by nothing when the buffer is empty |
| Merging.MergeEntries | package/src/merge.rs:188-227 | after the output is prepared: a non-numeric name among two or more entries panics with the tree unchanged; otherwise the output grows by the entries in merge order and the result is `true` |
| Merging.Merge.New | package/src/merge.rs:59-65 | the defaults are no paths and a 10 MiB bound on the buffer capacity |
| Merging.Merge.Run | package/src/merge.rs:105-228 | the validation errors come in source order; a directory without regular files gives NotFound before the output is touched; two or more entries with a non-numeric name panic; on success the result is `true`, the capacity is `min(size of a listed file, cap_max)`, and the output holds every regular file of the directory once in ascending numeric order (nothing when the capacity is 0), with nothing else changed beyond the output's preparation |
| Lifecycle.OutDirReadyKeepsFiles | package/src/split.rs:145-156 | creating an absent output directory adds no regular file in it, and it is a directory afterwards |
| Lifecycle.SplitLeavesChunks | package/src/split.rs:186-240 | split into a directory without regular files leaves exactly the chunk files there, each non-empty |
| Lifecycle.SplitThenCheck | __test__/src/tokio.rs:109-124 | a check with the split's own `file_size` and `total_chunks` succeeds |
| Lifecycle.SplitThenCheckWrongSize | __test__/src/tokio.rs:85-106 | with `file_size + 1` the check fails with kind Size, code "size" |
| Lifecycle.SplitThenCheckTooMany | __test__/src/tokio.rs:62-83 | asking for extra chunks reports exactly the extra ordinals missing, kind Missing, code "missing" |
| Lifecycle.SplitDeleteThenCheck | package/src/check.rs:205-229 | deleting chunk `k` after a split makes the check report exactly `[k]` missing |
| Lifecycle.ChunkOrder | package/src/merge.rs:194-202 | the chunk names sorted by numeric key are `0, 1, …, n - 1`, whatever the listing order |
| Lifecycle.MergedChunks | package/src/merge.rs:205-223 | merging the chunk names in order concatenates the chunks |
| Lifecycle.SplitThenMerge | __test__/src/tokio.rs:126-142 | after a split, merge passes its checks, and any order it may copy in gives back the input's bytes |
| Lifecycle.SplitCheckMerge | __test__/src/tokio.rs:109-142 | running split, check and merge in turn, when all three complete, leaves the output holding the original file's bytes |

## Left out

- The async versions under `package/src/tokio`, `package/src/async_std`, `package/src/function`, `package/src/functions` and `packages/filego` repeat the same loops around futures. They are not part of this model.
- The builder setters, the `Default` impls and `Check::from` / `Merge::from` only store fields. The model builds the datatype values directly.
- `io::Error` messages: only the error kinds are modelled. The check's two result messages are kept, because they are part of its result.
- I/O failures are nondeterministic. After an `IoFailure` the model states nothing about the tree. A failing primitive changes nothing, so bytes written before a failure stay, but a partially written file is not modelled.
- `read_dir` entries that fail on their own are dropped by `filter_map(Result::ok)`. Here every entry lists. The listing order is left open.
- Symbolic links, permissions, non-UTF-8 names, and the `file_name().unwrap()` / `to_str().unwrap()` panics are not modelled.
- `BufReader` and `BufWriter` internals are not modelled. The reader's capacity only decides how reads are cut, and `Read` leaves that open anyway. Written bytes go straight into the tree, and `flush` can only fail.
- Integer widths are not modelled. `actual_size`, `total_chunks`, `current` and the `len() as usize` casts are unbounded naturals, so overflow and truncation are left out.
- Splitting.Split.Run requires that the input file is not one of the chunk files this split writes, `out_dir/0` .. `out_dir/(total_chunks - 1)`. An input with another name, a numeric one beyond the last chunk included, is allowed. Otherwise the source truncates and rewrites its input while still reading it through an open handle, and the model's reader, a snapshot taken at open, does not capture that.
- Merging.Merge.Run requires that the output file is not directly inside the input directory. Otherwise the freshly created output is listed as an entry itself. With another file present and a non-numeric output name, the key's `unwrap` panics, leaving the output empty. A numeric output name, or an output that is the only entry, would be read while it is being appended to. The model's snapshot reader does not capture that.
- Merging.Merge.Run returns a panic of the key's `unwrap` as `Err(Panic)`, with the output already created empty. The source unwinds instead.
- Merging.SortByKey does not state that the sort is stable, which `sort_by_key` is. Names with equal keys, such as "7" and "007", may end up in either order.
- Lifecycle.SplitThenMerge requires an input shorter than 2^64 bytes, so that every chunk name parses as a `usize`.
- The round-trip lemmas in `Lifecycle` require `chunk_size > 0`. With a chunk size of 0, a non-empty input is not round-tripped (see Lifecycle.SplitZeroChunkSize).
