/**
  What the three processes promise one another: the chunks a split writes
  pass a check made from its result, fail it when one more chunk is asked
  for, when the size is off or when a chunk is deleted, and merge back into
  the bytes of the original file.
*/
module Lifecycle {
  import opened Wrappers
  import opened FileSystem
  import opened Decimal
  import opened Splitting
  import opened Checking
  import opened Merging

  /** The bytes a split of `t` reads. */
  function SplitInput(s: Split, t: Tree): seq<byte>
    requires s.in_file.Some?
  {
    FileData(t, s.in_file.value)
  }

  /** The chunks a split of `t` writes. */
  function SplitChunks(s: Split, t: Tree): seq<seq<byte>>
    requires s.in_file.Some?
  {
    Chunks(SplitInput(s, t), s.chunk_size)
  }

  /** The tree a successful split of `t` leaves. */
  function AfterSplit(s: Split, t: Tree): Tree
    requires s.in_file.Some? && s.out_dir.Some?
  {
    StoreChunks(s.OutDirReady(t), s.out_dir.value, SplitChunks(s, t))
  }

  /** The names of the chunk files of a split into `n` chunks, as a set and in ordinal order. */
  function ChunkNames(n: nat): set<string> {
    set k | 0 <= k < n :: ToDecimal(k)
  }

  function ChunkSequence(n: nat): seq<string> {
    seq(n, k requires 0 <= k < n => ToDecimal(k))
  }

  /** Making the output directory leaves the files directly inside it as they were, and it is a directory afterwards. */
  lemma OutDirReadyKeepsFiles(s: Split, t: Tree)
    requires s.Precheck(t).None?
    ensures IsDir(s.OutDirReady(t), s.out_dir.value)
    ensures forall name :: IsFile(s.OutDirReady(t), Join(s.out_dir.value, name)) <==> IsFile(t, Join(s.out_dir.value, name))
    ensures forall name :: FileData(s.OutDirReady(t), Join(s.out_dir.value, name)) == FileData(t, Join(s.out_dir.value, name))
  {
    var dir := s.out_dir.value;
    if !Exists(t, dir) {
      assert dir[..|dir|] == dir;
      forall name
        ensures Join(dir, name) in s.OutDirReady(t) <==> Join(dir, name) in t
      {
        assert forall i :: 0 < i <= |dir| ==> dir[..i] != Join(dir, name);
      }
    }
  }

  /** Two chunk names in the same directory are the same path only for the same ordinal. */
  lemma ChunkPathsDiffer(dir: Path, j: nat, k: nat)
    requires j != k
    ensures Join(dir, ToDecimal(j)) != Join(dir, ToDecimal(k))
  {
    DecimalInjective(j, k);
    assert Join(dir, ToDecimal(j))[|dir|] == ToDecimal(j);
    assert Join(dir, ToDecimal(k))[|dir|] == ToDecimal(k);
  }

  /** After a split, a chunk name beyond the last chunk names a regular file exactly when it did before. */
  lemma BeyondLastChunk(s: Split, t: Tree, k: nat)
    requires s.chunk_size > 0 && s.Precheck(t).None? && k >= |SplitChunks(s, t)|
    ensures IsFile(AfterSplit(s, t), Join(s.out_dir.value, ToDecimal(k))) <==> IsFile(t, Join(s.out_dir.value, ToDecimal(k)))
  {
    var dir, chunks := s.out_dir.value, SplitChunks(s, t);
    forall j | 0 <= j < |chunks|
      ensures Join(dir, ToDecimal(k)) != Join(dir, ToDecimal(j))
    {
      ChunkPathsDiffer(dir, k, j);
    }
    StoreChunksElsewhere(s.OutDirReady(t), dir, chunks, Join(dir, ToDecimal(k)));
    OutDirReadyKeepsFiles(s, t);
  }

  /** After storing, none of the first `m` ordinals is missing and their sizes add up to the first `m` chunks. */
  lemma {:induction false} StoredAllPresent(t: Tree, dir: Path, chunks: seq<seq<byte>>, m: nat)
    requires m <= |chunks|
    ensures MissingOrdinals(StoreChunks(t, dir, chunks), dir, m) == []
    ensures PresentSize(StoreChunks(t, dir, chunks), dir, m) == |Flatten(chunks[..m])|
  {
    if m > 0 {
      StoredAllPresent(t, dir, chunks, m - 1);
      StoredChunk(t, dir, chunks, m - 1);
      assert chunks[..m][..m - 1] == chunks[..m - 1];
    }
  }

  /** A check of the output directory with the split's own `file_size` and `total_chunks` succeeds. */
  lemma SplitThenCheck(s: Split, t: Tree)
    requires s.chunk_size > 0 && s.Precheck(t).None?
    ensures var input, chunks, after := SplitInput(s, t), SplitChunks(s, t), AfterSplit(s, t);
      && Check(s.out_dir, Some(|input|), Some(|chunks|)).Precheck(after).None?
      && MissingOrdinals(after, s.out_dir.value, |chunks|) == []
      && PresentSize(after, s.out_dir.value, |chunks|) == |input|
      && Decide(MissingOrdinals(after, s.out_dir.value, |chunks|), PresentSize(after, s.out_dir.value, |chunks|), |input|)
         == CheckResult(true, None)
  {
    var dir, input, chunks := s.out_dir.value, SplitInput(s, t), SplitChunks(s, t);
    OutDirReadyKeepsFiles(s, t);
    StoreChunksElsewhere(s.OutDirReady(t), dir, chunks, dir);
    StoredAllPresent(s.OutDirReady(t), dir, chunks, |chunks|);
    ChunksFlatten(input, s.chunk_size);
    assert chunks[..|chunks|] == chunks;
  }

  /** With a `file_size` one more than the split reported, the same check fails with a size error, code "size". */
  lemma SplitThenCheckWrongSize(s: Split, t: Tree)
    requires s.chunk_size > 0 && s.Precheck(t).None?
    ensures var input, chunks, after := SplitInput(s, t), SplitChunks(s, t), AfterSplit(s, t);
      var verdict := Decide(MissingOrdinals(after, s.out_dir.value, |chunks|), PresentSize(after, s.out_dir.value, |chunks|), |input| + 1);
      && verdict == CheckResult(false, Some(CheckResultError(Size, SIZE_MESSAGE, None)))
      && verdict.error.value.error_type.AsCode() == "size"
  {
    SplitThenCheck(s, t);
  }

  /** Ordinals past the ones present, none of them a regular file, are all reported missing, in order. */
  lemma {:induction false} AbsentOrdinals(t: Tree, dir: Path, n: nat, e: nat)
    requires MissingOrdinals(t, dir, n) == []
    requires forall k :: n <= k < n + e ==> !IsFile(t, Join(dir, ToDecimal(k)))
    ensures MissingOrdinals(t, dir, n + e) == seq(e, i requires 0 <= i < e => n + i)
  {
    if e > 0 {
      AbsentOrdinals(t, dir, n, e - 1);
    }
  }

  /**
    Asking for `extra` more chunks than the split wrote, where the output
    directory held no such files before, reports exactly those ordinals as
    missing, and the error kind's code is "missing".
  */
  lemma SplitThenCheckTooMany(s: Split, t: Tree, extra: nat)
    requires s.chunk_size > 0 && s.Precheck(t).None? && extra > 0
    requires var n := |SplitChunks(s, t)|;
      forall k :: n <= k < n + extra ==> !IsFile(t, Join(s.out_dir.value, ToDecimal(k)))
    ensures var input, chunks, after := SplitInput(s, t), SplitChunks(s, t), AfterSplit(s, t);
      var missing := MissingOrdinals(after, s.out_dir.value, |chunks| + extra);
      var verdict := Decide(missing, PresentSize(after, s.out_dir.value, |chunks| + extra), |input|);
      && missing == seq(extra, i requires 0 <= i < extra => |chunks| + i)
      && verdict == CheckResult(false, Some(CheckResultError(Missing, MISSING_MESSAGE, Some(missing))))
      && verdict.error.value.error_type.AsCode() == "missing"
  {
    var n := |SplitChunks(s, t)|;
    SplitThenCheck(s, t);
    forall k | n <= k < n + extra
      ensures !IsFile(AfterSplit(s, t), Join(s.out_dir.value, ToDecimal(k)))
    {
      BeyondLastChunk(s, t, k);
    }
    AbsentOrdinals(AfterSplit(s, t), s.out_dir.value, n, extra);
  }

  /** With chunk `k` deleted after storing, the first `m` ordinals miss exactly `k`, if `k` is among them. */
  lemma {:induction false} DeletedOrdinal(t: Tree, dir: Path, chunks: seq<seq<byte>>, k: nat, m: nat)
    requires k < |chunks| && m <= |chunks|
    ensures MissingOrdinals(StoreChunks(t, dir, chunks) - {Join(dir, ToDecimal(k))}, dir, m) == if m <= k then [] else [k]
  {
    if m > 0 {
      DeletedOrdinal(t, dir, chunks, k, m - 1);
      StoredChunk(t, dir, chunks, m - 1);
      if m - 1 != k {
        ChunkPathsDiffer(dir, m - 1, k);
      }
    }
  }

  /** Deleting chunk `k` after a split makes the check report exactly `[k]` as missing. */
  lemma SplitDeleteThenCheck(s: Split, t: Tree, k: nat)
    requires s.chunk_size > 0 && s.Precheck(t).None? && k < |SplitChunks(s, t)|
    ensures var input, chunks := SplitInput(s, t), SplitChunks(s, t);
      var damaged := AfterSplit(s, t) - {Join(s.out_dir.value, ToDecimal(k))};
      && MissingOrdinals(damaged, s.out_dir.value, |chunks|) == [k]
      && Decide(MissingOrdinals(damaged, s.out_dir.value, |chunks|), PresentSize(damaged, s.out_dir.value, |chunks|), |input|)
         == CheckResult(false, Some(CheckResultError(Missing, MISSING_MESSAGE, Some([k]))))
  {
    DeletedOrdinal(s.OutDirReady(t), s.out_dir.value, SplitChunks(s, t), k, |SplitChunks(s, t)|);
  }

  /** Strictly ascending values below `n` that take every value below `n` are `0, 1, ...` in their first `m` places. */
  lemma {:induction false} IdentityPrefix(keys: seq<nat>, n: nat, m: nat)
    requires m <= |keys|
    requires forall i, j :: 0 <= i < j < |keys| ==> keys[i] < keys[j]
    requires forall i :: 0 <= i < |keys| ==> keys[i] < n
    requires forall v :: 0 <= v < n ==> v in keys
    ensures forall i :: 0 <= i < m ==> keys[i] == i
  {
    if m > 0 {
      IdentityPrefix(keys, n, m - 1);
      var i := m - 1;
      assert i > 0 ==> keys[i - 1] < keys[i];
      assert i < n && i in keys;
      var p :| 0 <= p < |keys| && keys[p] == i;
      assert p >= i;
      assert keys[i] <= keys[p];
    }
  }

  /** The keys of a merge order of the names `0` .. `n - 1`: each below `n`, strictly ascending, and taking every value below `n`. */
  lemma ChunkKeys(order: seq<string>, n: nat) returns (keys: seq<nat>)
    requires n <= USIZE_LIMIT && IsMergeOrder(order, ChunkNames(n))
    ensures |keys| == |order|
    ensures forall i :: 0 <= i < |keys| ==> keys[i] < n && order[i] == ToDecimal(keys[i])
    ensures forall i, j :: 0 <= i < j < |keys| ==> keys[i] < keys[j]
    ensures forall v :: 0 <= v < n ==> v in keys
  {
    keys := seq(|order|, i requires 0 <= i < |order| => Key(order[i]));
    forall i | 0 <= i < |order|
      ensures keys[i] < n && order[i] == ToDecimal(keys[i])
    {
      assert order[i] in ChunkNames(n);
      var k :| 0 <= k < n && order[i] == ToDecimal(k);
      KeyOfDecimal(k);
    }
    forall i, j | 0 <= i < j < |keys|
      ensures keys[i] < keys[j]
    {
      assert order[i] != order[j];
    }
    forall v | 0 <= v < n
      ensures v in keys
    {
      assert ToDecimal(v) in ChunkNames(n);
      var p :| 0 <= p < |order| && order[p] == ToDecimal(v);
      KeyOfDecimal(v);
      assert keys[p] == v;
    }
  }

  /**
    Sorting the names `0` .. `n - 1` by their numeric value leaves exactly
    one order: `0, 1, ..., n - 1`, whatever order the directory listed them in.
  */
  lemma ChunkOrder(order: seq<string>, n: nat)
    requires n <= USIZE_LIMIT && IsMergeOrder(order, ChunkNames(n))
    ensures order == ChunkSequence(n)
  {
    var keys := ChunkKeys(order, n);
    IdentityPrefix(keys, n, |keys|);
    if n > 0 {
      assert n - 1 in keys;
      var p :| 0 <= p < |keys| && keys[p] == n - 1;
    }
    if |keys| > 0 {
      assert keys[|keys| - 1] < n;
    }
  }

  /** Merging the names `0` .. `m - 1` of a directory holding the chunks gives back the first `m` chunks' bytes. */
  lemma {:induction false} MergedChunks(t: Tree, dir: Path, chunks: seq<seq<byte>>, m: nat)
    requires m <= |chunks|
    requires forall k :: 0 <= k < |chunks| ==> FileData(t, Join(dir, ToDecimal(k))) == chunks[k]
    ensures Merged(t, dir, ChunkSequence(m)) == Flatten(chunks[..m])
  {
    if m > 0 {
      MergedChunks(t, dir, chunks, m - 1);
      assert ChunkSequence(m)[..m - 1] == ChunkSequence(m - 1);
      assert chunks[..m][..m - 1] == chunks[..m - 1];
    }
  }

  /** Every chunk holds at least one byte, so there are no more chunks than bytes, and none exactly for an empty input. */
  lemma ChunkBounds(input: seq<byte>, size: nat)
    requires size > 0
    ensures var chunks := Chunks(input, size);
      && |chunks| <= |input|
      && (chunks == [] <==> input == [])
      && forall k :: 0 <= k < |chunks| ==> |chunks[k]| > 0
  {
    var chunks := Chunks(input, size);
    ChunkSizes(input, size);
    ChunkCount(input, size);
  }

  /**
    With a chunk size of 0 a split writes no chunk, so a non-empty input is
    lost to the chunk set: the check made from the split's own result fails
    with a size error, and the directory is left as it was.
  */
  lemma SplitZeroChunkSize(s: Split, t: Tree)
    requires s.chunk_size == 0 && s.Precheck(t).None? && SplitInput(s, t) != []
    ensures var input, chunks, after := SplitInput(s, t), SplitChunks(s, t), AfterSplit(s, t);
      && chunks == [] && after == s.OutDirReady(t)
      && Decide(MissingOrdinals(after, s.out_dir.value, |chunks|), PresentSize(after, s.out_dir.value, |chunks|), |input|)
         == CheckResult(false, Some(CheckResultError(Size, SIZE_MESSAGE, None)))
  {
  }

  /**
    A split into a directory that held no regular files leaves there exactly
    the chunk files, each holding its non-empty chunk; there are no more
    chunks than input bytes.
  */
  lemma SplitLeavesChunks(s: Split, t: Tree)
    requires s.chunk_size > 0 && s.Precheck(t).None?
    requires RegularFiles(t, s.out_dir.value) == {}
    ensures var dir, chunks, after := s.out_dir.value, SplitChunks(s, t), AfterSplit(s, t);
      && |chunks| <= |SplitInput(s, t)|
      && (chunks == [] <==> SplitInput(s, t) == [])
      && RegularFiles(after, dir) == ChunkNames(|chunks|)
      && forall k :: 0 <= k < |chunks| ==> FileData(after, Join(dir, ToDecimal(k))) == chunks[k] && |chunks[k]| > 0
  {
    var dir, input, chunks, after := s.out_dir.value, SplitInput(s, t), SplitChunks(s, t), AfterSplit(s, t);
    ChunkBounds(input, s.chunk_size);
    StoredFiles(s.OutDirReady(t), dir, chunks);
    OutDirReadyKeepsFiles(s, t);
    assert RegularFiles(s.OutDirReady(t), dir) == {};
    forall k | 0 <= k < |chunks|
      ensures FileData(after, Join(dir, ToDecimal(k))) == chunks[k]
    {
      StoredChunk(s.OutDirReady(t), dir, chunks, k);
    }
  }

  /**
    The round trip. Split a file into a directory that held no regular
    files, then merge that directory into an output outside it: the merge
    passes its checks, finds a file to take its buffer capacity from exactly
    when the input was not empty, every file it may take it from is non-empty,
    and whatever order it ends up copying in, the bytes it writes are the
    input's. The input is shorter than `usize::MAX`, so every chunk name
    parses.
  */
  lemma SplitThenMerge(s: Split, t: Tree, m: Merge)
    requires s.chunk_size > 0 && s.Precheck(t).None?
    requires RegularFiles(t, s.out_dir.value) == {}
    requires |SplitInput(s, t)| < USIZE_LIMIT
    requires m.in_dir == s.out_dir && m.out_file.Some? && m.out_file.value != []
    requires !(m.out_file.value <= s.out_dir.value) && !IsChild(m.out_file.value, s.out_dir.value)
    ensures var dir, after := s.out_dir.value, AfterSplit(s, t);
      && m.Precheck(after).None?
      && (RegularFiles(after, dir) == {} <==> SplitInput(s, t) == [])
      && (forall name :: name in RegularFiles(after, dir) ==> |FileData(after, Join(dir, name))| > 0)
      && forall order :: IsMergeOrder(order, RegularFiles(Prepared(after, m.out_file.value), dir)) ==>
           Merged(Prepared(after, m.out_file.value), dir, order) == SplitInput(s, t)
  {
    var dir, out, input, chunks, after := s.out_dir.value, m.out_file.value, SplitInput(s, t), SplitChunks(s, t), AfterSplit(s, t);
    var prepared := Prepared(after, out);
    SplitThenCheck(s, t);
    SplitLeavesChunks(s, t);
    ChunksFlatten(input, s.chunk_size);
    assert chunks[..|chunks|] == chunks;
    assert RegularFiles(after, dir) == {} <==> input == [] by {
      if |chunks| > 0 {
        assert ToDecimal(0) in ChunkNames(|chunks|);
      }
    }
    PreparedKeepsDir(after, out, dir);
    forall order | IsMergeOrder(order, RegularFiles(prepared, dir))
      ensures Merged(prepared, dir, order) == input
    {
      ChunkOrder(order, |chunks|);
      MergedChunks(prepared, dir, chunks, |chunks|);
    }
  }

  /**
    The three processes run one after another on the same disk, as a caller
    would: split, check with the split's result, then merge into `out`. When
    all three finish, the check reports success and `out` holds the bytes
    the input file held before.
  */
  method SplitCheckMerge(disk: Disk, s: Split, out: Path, capMax: nat) returns (restored: bool)
    requires s.chunk_size > 0 && s.Precheck(disk.nodes).None? && capMax > 0
    requires RegularFiles(disk.nodes, s.out_dir.value) == {}
    requires |SplitInput(s, disk.nodes)| < USIZE_LIMIT
    requires out != [] && !(out <= s.out_dir.value) && !IsChild(out, s.out_dir.value)
    modifies disk
    ensures restored ==> IsFile(disk.nodes, out) && FileData(disk.nodes, out) == old(FileData(disk.nodes, s.in_file.value))
  {
    ghost var t := disk.nodes;
    assert forall k: nat :: ToDecimal(k) !in RegularFiles(t, s.out_dir.value);
    var split := s.Run(disk);
    if split.Err? {
      return false;
    }
    var c := Check(s.out_dir, Some(split.value.file_size), Some(split.value.total_chunks));
    var checked := c.Run(disk);
    if checked.Err? {
      return false;
    }
    SplitThenCheck(s, t);
    assert checked.value.success;
    var m := Merge(s.out_dir, Some(out), capMax);
    var merged, sample, capacity, order := m.Run(disk);
    if merged.Err? {
      return false;
    }
    SplitThenMerge(s, t, m);
    assert capacity > 0;
    return true;
  }
}
