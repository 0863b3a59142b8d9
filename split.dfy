/**
  The split process: reads one file and writes it out, `chunk_size` bytes at a
  time, as the files `0`, `1`, ... of an output directory.
*/
module Splitting {
  import opened Wrappers
  import opened FileSystem
  import opened Decimal
  import opened Config

  /** What a finished split reports: the input's length and how many chunk files it wrote. */
  datatype SplitResult = SplitResult(file_size: nat, total_chunks: nat)

  /**
    The pieces a split cuts `data` into: consecutive runs of `size` bytes, the
    last one possibly shorter. With `size` 0 there are none: the split's
    buffer is then empty, its first read returns 0, and nothing is written.
  */
  function Chunks(data: seq<byte>, size: nat): seq<seq<byte>>
    decreases |data|
  {
    if size == 0 || |data| == 0 then []
    else if |data| <= size then [data]
    else [data[..size]] + Chunks(data[size..], size)
  }

  /** The bytes of `pieces`, one after the other. */
  function Flatten(pieces: seq<seq<byte>>): seq<byte> {
    if pieces == [] then [] else Flatten(pieces[..|pieces| - 1]) + pieces[|pieces| - 1]
  }

  /** The tree after chunk `k` of `chunks` has been written to `dir/k`, for every `k` in order. */
  function StoreChunks(t: Tree, dir: Path, chunks: seq<seq<byte>>): Tree
    decreases |chunks|
  {
    if chunks == [] then t
    else StoreChunks(t, dir, chunks[..|chunks| - 1])[Join(dir, ToDecimal(|chunks| - 1)) := File(chunks[|chunks| - 1])]
  }

  lemma {:induction false} FlattenCons(piece: seq<byte>, pieces: seq<seq<byte>>)
    ensures Flatten([piece] + pieces) == piece + Flatten(pieces)
    decreases |pieces|
  {
    if pieces != [] {
      var n := |pieces| - 1;
      assert ([piece] + pieces)[..n + 1] == [piece] + pieces[..n];
      FlattenCons(piece, pieces[..n]);
    }
  }

  /** Concatenating the chunks in ordinal order gives back the input. */
  lemma {:induction false} ChunksFlatten(data: seq<byte>, size: nat)
    requires size > 0
    ensures Flatten(Chunks(data, size)) == data
    decreases |data|
  {
    if |data| == 0 {
    } else if |data| <= size {
      assert Flatten([data]) == Flatten([]) + data;
    } else {
      ChunksFlatten(data[size..], size);
      FlattenCons(data[..size], Chunks(data[size..], size));
      assert data[..size] + data[size..] == data;
    }
  }

  /** Every chunk but the last holds exactly `size` bytes; the last holds between 1 and `size`. */
  lemma {:induction false} ChunkSizes(data: seq<byte>, size: nat)
    requires size > 0
    ensures var chunks := Chunks(data, size);
      && (forall i :: 0 <= i < |chunks| - 1 ==> |chunks[i]| == size)
      && (|chunks| > 0 ==> 0 < |chunks[|chunks| - 1]| <= size)
    decreases |data|
  {
    if |data| > size {
      ChunkSizes(data[size..], size);
      var rest := Chunks(data[size..], size);
      assert Chunks(data, size) == [data[..size]] + rest;
      assert |rest| > 0;
    }
  }

  /** The number of chunks is the input length divided by `size`, rounded up: no chunk is empty and none is left over. */
  lemma {:induction false} ChunkCount(data: seq<byte>, size: nat)
    requires size > 0
    ensures |data| <= |Chunks(data, size)| * size
    ensures |Chunks(data, size)| > 0 ==> (|Chunks(data, size)| - 1) * size < |data|
    ensures |Chunks(data, size)| == 0 <==> |data| == 0
    decreases |data|
  {
    if |data| > size {
      ChunkCount(data[size..], size);
      var m := |Chunks(data[size..], size)|;
      assert |Chunks(data, size)| == m + 1;
      assert (m + 1) * size == m * size + size;
      assert m * size == (m - 1) * size + size;
    }
  }

  /** Appending a piece of at most `size` bytes to whole chunks adds exactly that piece as one more chunk. */
  lemma {:induction false} ChunksSnoc(d: seq<byte>, e: seq<byte>, size: nat, k: nat)
    requires size > 0 && |d| == k * size && 0 < |e| <= size
    ensures Chunks(d + e, size) == Chunks(d, size) + [e]
    decreases k
  {
    if k == 0 {
      assert d + e == e;
    } else {
      assert k * size == (k - 1) * size + size;
      var rest := d[size..];
      ChunksSnoc(rest, e, size, k - 1);
      assert (d + e)[..size] == d[..size];
      assert (d + e)[size..] == rest + e;
      assert Chunks(d, size) == [d[..size]] + Chunks(rest, size);
    }
  }

  /** Chunk `k` of the list is the file `dir/k` of the stored tree. */
  lemma {:induction false} StoredChunk(t: Tree, dir: Path, chunks: seq<seq<byte>>, k: nat)
    requires k < |chunks|
    ensures IsFile(StoreChunks(t, dir, chunks), Join(dir, ToDecimal(k)))
    ensures FileData(StoreChunks(t, dir, chunks), Join(dir, ToDecimal(k))) == chunks[k]
    decreases |chunks|
  {
    var n := |chunks| - 1;
    if k < n {
      StoredChunk(t, dir, chunks[..n], k);
      DecimalInjective(k, n);
      assert Join(dir, ToDecimal(k))[|dir|] != Join(dir, ToDecimal(n))[|dir|];
    }
  }

  /** Storing chunks leaves every other path as it was. */
  lemma {:induction false} StoreChunksElsewhere(t: Tree, dir: Path, chunks: seq<seq<byte>>, p: Path)
    requires forall k :: 0 <= k < |chunks| ==> p != Join(dir, ToDecimal(k))
    ensures p in StoreChunks(t, dir, chunks) <==> p in t
    ensures p in t ==> StoreChunks(t, dir, chunks)[p] == t[p]
    decreases |chunks|
  {
    if chunks != [] {
      StoreChunksElsewhere(t, dir, chunks[..|chunks| - 1], p);
    }
  }

  /** After storing, the regular files of `dir` are the ones it had plus the names `0` .. `|chunks| - 1`. */
  lemma {:induction false} StoredFiles(t: Tree, dir: Path, chunks: seq<seq<byte>>)
    ensures RegularFiles(StoreChunks(t, dir, chunks), dir) == RegularFiles(t, dir) + set k | 0 <= k < |chunks| :: ToDecimal(k)
    decreases |chunks|
  {
    if chunks != [] {
      var n := |chunks| - 1;
      StoredFiles(t, dir, chunks[..n]);
      var before := StoreChunks(t, dir, chunks[..n]);
      var after := StoreChunks(t, dir, chunks);
      forall name
        ensures IsFile(after, Join(dir, name)) <==> IsFile(before, Join(dir, name)) || name == ToDecimal(n)
      {
        if name != ToDecimal(n) {
          assert Join(dir, name)[|dir|] != Join(dir, ToDecimal(n))[|dir|];
        }
      }
    }
  }

  /** `buffer.copy_within(from..to, dest)`: moves a slice of the buffer to `dest`, as `memmove` does. */
  method CopyWithin(a: array<byte>, from: nat, to: nat, dest: nat)
    requires from <= to <= a.Length && dest + (to - from) <= a.Length
    modifies a
    ensures a[..] == old(a[..dest]) + old(a[from..to]) + old(a[dest + (to - from)..])
  {
    forall i | dest <= i < dest + (to - from) {
      a[i] := a[from + i - dest];
    }
  }

  /** Writing one more chunk stores it under the next ordinal. */
  lemma StoreNext(t: Tree, dir: Path, written: seq<seq<byte>>, chunk: seq<byte>)
    ensures StoreChunks(t, dir, written + [chunk]) == StoreChunks(t, dir, written)[Join(dir, ToDecimal(|written|)) := File(chunk)]
  {
    assert (written + [chunk])[..|written|] == written;
  }

  /** A full buffer, written as the next chunk, keeps the chunk files equal to the chunks of what was read. */
  lemma FullChunkStep(input: seq<byte>, done: nat, size: nat, written: seq<seq<byte>>, chunk: seq<byte>)
    requires size > 0 && done + size <= |input| && done == |written| * size
    requires written == Chunks(input[..done], size) && chunk == input[done..done + size]
    ensures written + [chunk] == Chunks(input[..done + size], size)
    ensures done + size == |written + [chunk]| * size
  {
    assert input[..done] + chunk == input[..done + size];
    ChunksSnoc(input[..done], chunk, size, |written|);
  }

  /** At the end of the input, the bytes left in the buffer (if any) complete the chunks of the whole input. */
  lemma LastChunkStep(input: seq<byte>, done: nat, size: nat, written: seq<seq<byte>>, tail: seq<byte>)
    requires size > 0 && done <= |input| && done == |written| * size
    requires written == Chunks(input[..done], size) && tail == input[done..] && |tail| < size
    ensures (if |tail| > 0 then written + [tail] else written) == Chunks(input, size)
  {
    assert input[..done] + tail == input;
    if |tail| > 0 {
      ChunksSnoc(input[..done], tail, size, |written|);
    } else {
      assert input[..done] == input;
    }
  }

  /** Writes `chunk` as the chunk file that follows those already written. */
  method WriteChunk(disk: Disk, dir: Path, ghost base: Tree, ghost written: seq<seq<byte>>, ordinal: nat, chunk: seq<byte>) returns (ok: bool)
    requires ordinal == |written| && disk.nodes == StoreChunks(base, dir, written)
    modifies disk
    ensures ok ==> disk.nodes == StoreChunks(base, dir, written + [chunk])
  {
    ok := disk.WriteFile(Join(dir, ToDecimal(ordinal)), chunk);
    if ok {
      StoreNext(base, dir, written, chunk);
    }
  }

  /** `reader.read(&mut buffer[current..])`: the bytes read land right after the `current` already held. */
  method ReadInto(reader: Reader, buffer: array<byte>, current: nat, ghost done: nat) returns (ok: bool, read: nat)
    requires reader.Valid() && current <= buffer.Length
    requires reader.pos == done + current && buffer[..current] == reader.source[done..reader.pos]
    modifies reader, buffer
    ensures reader.Valid()
    ensures ok ==> reader.pos == old(reader.pos) + read && current + read <= buffer.Length
    ensures ok ==> buffer[..current + read] == reader.source[done..reader.pos]
    ensures ok ==> (read == 0 <==> current == buffer.Length || old(reader.pos) == |reader.source|)
  {
    ghost var before := buffer[..];
    ok, read := reader.Read(buffer, current);
    if ok {
      assert buffer[..current + read] == before[..current] + reader.source[done + current..reader.pos];
    }
  }

  /**
    The loop of `Split::run`: fills a buffer of `chunkSize` bytes from the
    reader at offset `current`, writes it out as the next chunk file whenever
    it is full, and writes what is left at the end of the input as one last
    chunk. `current` never leaves `0 .. chunkSize`; with `chunkSize` 0 the
    first read, into an empty slice, returns 0 and no chunk is written.
  */
  method WriteChunks(disk: Disk, reader: Reader, dir: Path, chunkSize: nat) returns (ok: bool, totalChunks: nat)
    requires reader.Valid() && reader.pos == 0
    modifies disk, reader
    ensures ok ==> totalChunks == |Chunks(reader.source, chunkSize)|
    ensures ok ==> disk.nodes == StoreChunks(old(disk.nodes), dir, Chunks(reader.source, chunkSize))
  {
    ghost var base := disk.nodes;
    ghost var input := reader.source;
    var buffer := new byte[chunkSize];
    totalChunks := 0;
    var current: nat := 0;
    ghost var done := 0;
    ghost var written: seq<seq<byte>> := [];
    while true
      invariant reader.Valid() && reader.source == input
      invariant chunkSize == buffer.Length && (current < chunkSize || current == 0)
      invariant reader.pos == done + current
      invariant buffer[..current] == input[done..reader.pos]
      invariant |written| == totalChunks && done == totalChunks * chunkSize
      invariant written == Chunks(input[..done], chunkSize)
      invariant disk.nodes == StoreChunks(base, dir, written)
      decreases |input| - reader.pos
    {
      var read;
      ok, read := ReadInto(reader, buffer, current, done);
      if !ok {
        return;
      }
      if read == 0 {
        // end of input: what is left in the buffer becomes one last, shorter chunk
        if chunkSize > 0 {
          LastChunkStep(input, done, chunkSize, written, buffer[..current]);
        }
        if current > 0 {
          ok := WriteChunk(disk, dir, base, written, totalChunks, buffer[..current]);
          if !ok {
            return;
          }
          written := written + [buffer[..current]];
          totalChunks := totalChunks + 1;
        }
        break;
      }
      current := current + read;
      if current >= chunkSize {
        ok := WriteChunk(disk, dir, base, written, totalChunks, buffer[..chunkSize]);
        if !ok {
          return;
        }
        FullChunkStep(input, done, chunkSize, written, buffer[..chunkSize]);
        written := written + [buffer[..chunkSize]];
        totalChunks := totalChunks + 1;
        done := done + chunkSize;
        // move the bytes read past the chunk boundary (none, as reads stop at it) to the front
        CopyWithin(buffer, chunkSize, current, 0);
        current := current - chunkSize;
      }
    }
  }

  /** The settings of one split, as the builder accumulates them. */
  datatype Split = Split(in_file: Option<Path>, out_dir: Option<Path>, chunk_size: nat, cap_max: nat) {

    /** `Split::new()`: nothing chosen yet, 2 MiB chunks, and a reader that buffers one whole chunk. */
    static function New(): (s: Split)
      ensures s.in_file.None? && s.out_dir.None?
      ensures s.chunk_size > 0 && s.ReaderCapacity() == s.chunk_size == CHUNK_SIZE_DEFAULT
      ensures s.cap_max == BUFFER_CAPACITY_MAX_DEFAULT
    {
      Split(None, None, CHUNK_SIZE_DEFAULT, BUFFER_CAPACITY_MAX_DEFAULT)
    }

    /** The capacity of the reader over the input. */
    function ReaderCapacity(): nat {
      Min(chunk_size, cap_max)
    }

    /** The error `run` returns before it reads anything, in the order it checks, or None. */
    function Precheck(t: Tree): Option<Error> {
      if in_file.None? then Some(InvalidInput)
      else if !Exists(t, in_file.value) then Some(NotFound)
      else if !IsFile(t, in_file.value) then Some(InvalidInput)
      else if out_dir.None? then Some(InvalidInput)
      else if Exists(t, out_dir.value) && IsFile(t, out_dir.value) then Some(InvalidInput)
      else None
    }

    /** The tree once the output directory is there: created, with its missing parents, when it was absent. */
    function OutDirReady(t: Tree): Tree
      requires out_dir.Some?
    {
      if Exists(t, out_dir.value) then t else WithDirs(t, out_dir.value)
    }

    /**
      `Split::run`. On success the input's bytes are in the chunk files
      `out_dir/0` .. `out_dir/(total_chunks - 1)`, cut as `Chunks` cuts them,
      every other path is as it was (apart from the output directory being
      created), and the result carries the input's length and the chunk count.
      With a chunk size of 0 no chunk is written and the count is 0, whatever
      the input's length. The input must not itself be one of the chunk files
      this split writes.
    */
    method Run(disk: Disk) returns (r: Result<SplitResult, Error>)
      requires in_file.Some? && out_dir.Some? ==>
        forall k: nat :: k < |Chunks(FileData(disk.nodes, in_file.value), chunk_size)| ==> in_file.value != Join(out_dir.value, ToDecimal(k))
      modifies disk
      ensures Precheck(old(disk.nodes)).Some? ==> r == Err(Precheck(old(disk.nodes)).value) && disk.nodes == old(disk.nodes)
      ensures r.Err? ==> r.error == IoFailure || Precheck(old(disk.nodes)) == Some(r.error)
      ensures r.Ok? ==> Precheck(old(disk.nodes)).None?
      ensures r.Ok? ==>
        var input := FileData(old(disk.nodes), in_file.value);
        var chunks := Chunks(input, chunk_size);
        && r.value == SplitResult(|input|, |chunks|)
        && disk.nodes == StoreChunks(OutDirReady(old(disk.nodes)), out_dir.value, chunks)
    {
      ghost var t0 := disk.nodes;
      if in_file.None? {
        return Err(InvalidInput);
      }
      var inPath := in_file.value;
      if !Exists(disk.nodes, inPath) {
        return Err(NotFound);
      }
      if !IsFile(disk.nodes, inPath) {
        return Err(InvalidInput);
      }
      if out_dir.None? {
        return Err(InvalidInput);
      }
      var dir := out_dir.value;
      if !Exists(disk.nodes, dir) {
        var created := disk.CreateDirAll(dir);
        if !created {
          return Err(IoFailure);
        }
      } else if IsFile(disk.nodes, dir) {
        return Err(InvalidInput);
      }
      ghost var base := disk.nodes;
      assert base == OutDirReady(t0);
      assert inPath in t0;

      var capacity := ReaderCapacity();
      var ok, reader, fileSize := disk.OpenRead(inPath, capacity);
      if !ok {
        return Err(IoFailure);
      }
      ghost var input := reader.source;
      assert input == FileData(t0, inPath);

      var totalChunks;
      ok, totalChunks := WriteChunks(disk, reader, dir, chunk_size);
      if !ok {
        return Err(IoFailure);
      }
      r := Ok(SplitResult(fileSize, totalChunks));
    }
  }
}
