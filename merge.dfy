/**
  The merge process: concatenates the regular files of a directory, taken in
  the numeric order of their names, into one output file.
*/
module Merging {
  import opened Wrappers
  import opened FileSystem
  import opened Decimal
  import opened Config

  /** The sort key of a name: the `usize` it parses to (0 stands in for a name that does not parse). */
  function Key(name: string): (k: nat)
    ensures k < USIZE_LIMIT
    ensures ParseUsize(name).Some? ==> k == ParseUsize(name).value
  {
    var k := ParseUsize(name);
    if k.Some? then k.value else 0
  }

  predicate AllNumeric(names: seq<string>) {
    forall i :: 0 <= i < |names| ==> ParseUsize(names[i]).Some?
  }

  predicate SortedByKey(names: seq<string>) {
    forall i, j :: 0 <= i < j < |names| ==> Key(names[i]) <= Key(names[j])
  }

  /**
    Whether `sort_by_key` with the `parse::<usize>().unwrap()` key panics:
    a sort of two or more names computes the key of every one of them, a sort
    of fewer computes none.
  */
  predicate KeyPanics(names: seq<string>): (p: bool)
    ensures p <==> |names| >= 2 && exists i :: 0 <= i < |names| && ParseUsize(names[i]).None?
  {
    |names| >= 2 && !AllNumeric(names)
  }

  /** Names that are all chunk names, whatever their number, never make the key panic. */
  lemma ChunkNamesNeverPanic(names: seq<string>)
    requires forall i :: 0 <= i < |names| ==> exists k: nat :: k < USIZE_LIMIT && names[i] == ToDecimal(k)
    ensures AllNumeric(names) && !KeyPanics(names)
  {
    forall i | 0 <= i < |names|
      ensures ParseUsize(names[i]).Some?
    {
      var k: nat :| k < USIZE_LIMIT && names[i] == ToDecimal(k);
      ParseDecimal(k);
    }
  }

  /** A chunk name read back gives its ordinal as the key. */
  lemma KeyOfDecimal(k: nat)
    requires k < USIZE_LIMIT
    ensures Key(ToDecimal(k)) == k
  {
    ParseDecimal(k);
  }

  /** `entries.sort_by_key(..)`: puts the names in ascending order of their keys, keeping every name. */
  method SortByKey(a: array<string>)
    modifies a
    ensures SortedByKey(a[..])
    ensures multiset(a[..]) == multiset(old(a[..]))
  {
    for i := 0 to a.Length
      invariant SortedByKey(a[..i])
      invariant multiset(a[..]) == multiset(old(a[..]))
    {
      InsertInto(a, i);
    }
    assert a[..] == a[..a.Length];
  }

  /** One step of the insertion sort: moves `a[i]` down into the sorted `a[..i]`. */
  method InsertInto(a: array<string>, i: nat)
    requires i < a.Length && SortedByKey(a[..i])
    modifies a
    ensures SortedByKey(a[..i + 1])
    ensures multiset(a[..]) == multiset(old(a[..]))
  {
    var j := i;
    assert SortedApartFrom(a[..], i, i) by {
      assert forall p :: 0 <= p < i ==> a[..i][p] == a[p];
    }
    while j > 0 && Key(a[j - 1]) > Key(a[j])
      invariant 0 <= j <= i < a.Length
      invariant SortedApartFrom(a[..], i, j) && LeastFrom(a[..], i, j)
      invariant multiset(a[..]) == multiset(old(a[..]))
    {
      SwapKeepsOrder(a[..], i, j);
      SwapDown(a, j);
      j := j - 1;
    }
    InsertedInOrder(a[..], i, j);
  }

  /** The keys of `s[..i + 1]` ascend, leaving out position `j`. */
  predicate SortedApartFrom(s: seq<string>, i: nat, j: nat)
    requires i < |s|
  {
    forall p, q :: 0 <= p < q <= i && p != j && q != j ==> Key(s[p]) <= Key(s[q])
  }

  /** The key at `j` is no larger than any key after it in `s[..i + 1]`. */
  predicate LeastFrom(s: seq<string>, i: nat, j: nat)
    requires j <= i < |s|
  {
    forall q :: j < q <= i ==> Key(s[j]) <= Key(s[q])
  }

  lemma SwapKeepsOrder(s: seq<string>, i: nat, j: nat)
    requires 0 < j <= i < |s| && Key(s[j - 1]) > Key(s[j])
    requires SortedApartFrom(s, i, j) && LeastFrom(s, i, j)
    ensures var swapped := s[j - 1 := s[j]][j := s[j - 1]];
      SortedApartFrom(swapped, i, j - 1) && LeastFrom(swapped, i, j - 1)
  {
  }

  lemma InsertedInOrder(s: seq<string>, i: nat, j: nat)
    requires j <= i < |s| && SortedApartFrom(s, i, j) && LeastFrom(s, i, j)
    requires j > 0 ==> Key(s[j - 1]) <= Key(s[j])
    ensures SortedByKey(s[..i + 1])
  {
  }

  /** Exchanges `a[j - 1]` and `a[j]`. */
  method SwapDown(a: array<string>, j: nat)
    requires 0 < j < a.Length
    modifies a
    ensures a[..] == old(a[..])[j - 1 := old(a[j])][j := old(a[j - 1])]
    ensures multiset(a[..]) == multiset(old(a[..]))
  {
    a[j - 1], a[j] := a[j], a[j - 1];
  }

  /** A sequence with the same elements, as often, as a sequence without repeats has no repeats either. */
  lemma {:induction false} DistinctByMultiset(s: seq<string>)
    ensures Distinct(s) <==> forall x :: multiset(s)[x] <= 1
  {
    if s != [] {
      var init, last := s[..|s| - 1], s[|s| - 1];
      assert s == init + [last];
      DistinctByMultiset(init);
      assert multiset(s) == multiset(init) + multiset{last};
      if Distinct(s) {
        assert Distinct(init);
        assert forall k :: 0 <= k < |init| ==> init[k] == s[k] && s[k] != s[|s| - 1];
        assert last !in init;
      } else {
        var p, q :| 0 <= p < q < |s| && s[p] == s[q];
        if q < |s| - 1 {
          assert init[p] == init[q];
          assert !Distinct(init);
          var x :| multiset(init)[x] > 1;
          assert multiset(s)[x] > 1;
        } else {
          assert init[p] == last;
          assert multiset(s)[last] >= 2;
        }
      }
    }
  }

  /** The order in which `run` copies: every listed file once, ascending by key, all numeric when there are two or more. */
  ghost predicate IsMergeOrder(order: seq<string>, files: set<string>) {
    && Distinct(order)
    && (forall name :: name in order <==> name in files)
    && SortedByKey(order)
    && (|order| >= 2 ==> AllNumeric(order))
  }

  /** Names sort by number, not as strings: "10" is copied after "9". */
  lemma NumericOrder(order: seq<string>)
    requires IsMergeOrder(order, {"9", "10"})
    ensures order == ["9", "10"]
  {
    NumericNames();
    assert "9" in order && "10" in order;
    var i :| 0 <= i < |order| && order[i] == "9";
    var j :| 0 <= j < |order| && order[j] == "10";
    assert i < j;
    DistinctByMultiset(order);
    assert multiset(order) == multiset{"9", "10"} by {
      forall x
        ensures multiset(order)[x] == multiset{"9", "10"}[x]
      {
        assert x in order <==> multiset(order)[x] > 0;
      }
    }
    assert |order| == |multiset(order)| == 2;
  }

  /** The bytes of the files `names` of `dir`, concatenated in that order. */
  function Merged(t: Tree, dir: Path, names: seq<string>): seq<byte> {
    if names == [] then []
    else Merged(t, dir, names[..|names| - 1]) + FileData(t, Join(dir, names[|names| - 1]))
  }

  /** The merged bytes are as many as the files hold together. */
  lemma {:induction false} MergedLength(t: Tree, dir: Path, names: seq<string>, name: string)
    ensures |Merged(t, dir, names + [name])| == |Merged(t, dir, names)| + |FileData(t, Join(dir, name))|
    ensures name in names ==> |FileData(t, Join(dir, name))| <= |Merged(t, dir, names)|
  {
    assert (names + [name])[..|names|] == names;
    if name in names {
      var init := names[..|names| - 1];
      assert names == init + [names[|names| - 1]];
      if name != names[|names| - 1] {
        MergedLength(t, dir, init, names[|names| - 1]);
        MergedLength(t, dir, init, name);
      }
    }
  }

  /** The tree once an existing `out` is deleted: a directory with all below it, or a file. */
  function Cleared(t: Tree, out: Path): Tree {
    if !Exists(t, out) then t
    else if IsDir(t, out) then RemoveTree(t, out)
    else t - {out}
  }

  /** The tree once `out` is deleted, its parent directories made, and `out` created empty. */
  function Prepared(t: Tree, out: Path): Tree
    requires out != []
  {
    WithDirs(Cleared(t, out), Parent(out))[out := File([])]
  }

  /**
    Preparing the output leaves a directory `d` that `out` is neither inside
    of, nor directly within, as it was: the same regular files with the same bytes.
  */
  lemma PreparedKeepsDir(t: Tree, out: Path, d: Path)
    requires out != [] && !(out <= d) && !IsChild(out, d)
    ensures IsDir(t, d) ==> IsDir(Prepared(t, out), d)
    ensures RegularFiles(Prepared(t, out), d) == RegularFiles(t, d)
    ensures forall name :: FileData(Prepared(t, out), Join(d, name)) == FileData(t, Join(d, name))
  {
    var p := Prepared(t, out);
    forall name
      ensures IsFile(p, Join(d, name)) <==> IsFile(t, Join(d, name))
      ensures FileData(p, Join(d, name)) == FileData(t, Join(d, name))
    {
      var q := Join(d, name);
      assert IsChild(q, d) && q[..|d|] == d;
      assert q != out && !(out <= q);
      assert q in Cleared(t, out) <==> q in t;
      assert q in t ==> Cleared(t, out)[q] == t[q];
    }
    assert IsDir(t, d) ==> IsDir(Cleared(t, out), d);
  }

  /** The settings of one merge, as the builder accumulates them. */
  datatype Merge = Merge(in_dir: Option<Path>, out_file: Option<Path>, cap_max: nat) {

    /** `Merge::new()`: no directories, the default bound on the buffer capacity. */
    static function New(): (m: Merge)
      ensures m.in_dir.None? && m.out_file.None?
      ensures m.cap_max == BUFFER_CAPACITY_MAX_DEFAULT
    {
      Merge(None, None, BUFFER_CAPACITY_MAX_DEFAULT)
    }

    /** The error `run` returns before it touches the filesystem, in the order it checks, or None. */
    function Precheck(t: Tree): Option<Error> {
      if in_dir.None? then Some(InvalidInput)
      else if !Exists(t, in_dir.value) then Some(NotFound)
      else if !IsDir(t, in_dir.value) then Some(InvalidInput)
      else if out_file.None? then Some(InvalidInput)
      else None
    }

    /**
      `Merge::run`. On success the output file holds the bytes of the
      regular files of `in_dir` in ascending order of their numeric names,
      each file once, unless the buffer capacity (the size of the file read
      first, bounded by `cap_max`) is 0, in which case it holds nothing.
      Nothing else in the tree changes beyond deleting the old output and
      making its parent directories. The ghost results name the file the
      capacity was taken from, that capacity, and the order of the copy.
    */
    method Run(disk: Disk) returns (r: Result<bool, Error>, ghost sample: string, ghost capacity: nat, ghost order: seq<string>)
      requires in_dir.Some? && out_file.Some? ==> !IsChild(out_file.value, in_dir.value)
      modifies disk
      ensures Precheck(old(disk.nodes)).Some? ==> r == Err(Precheck(old(disk.nodes)).value) && disk.nodes == old(disk.nodes)
      ensures r.Err? ==>
        Precheck(old(disk.nodes)) == Some(r.error) || r.error == NotFound || r.error == IoFailure || r.error == Panic
      ensures Precheck(old(disk.nodes)).None? && RegularFiles(old(disk.nodes), in_dir.value) == {} ==>
        r.Err? && (r.error == NotFound || r.error == IoFailure) && disk.nodes == old(disk.nodes)
      ensures Precheck(old(disk.nodes)).None? && r == Err(NotFound) ==>
        RegularFiles(old(disk.nodes), in_dir.value) == {} && disk.nodes == old(disk.nodes)
      ensures r == Err(Panic) ==>
        && Precheck(old(disk.nodes)).None? && out_file.value != []
        && disk.nodes == Prepared(old(disk.nodes), out_file.value)
        && KeyPanics(order) && forall name :: name in order <==> name in RegularFiles(disk.nodes, in_dir.value)
      ensures r.Ok? ==> r.value && Precheck(old(disk.nodes)).None? && out_file.value != []
      ensures r.Ok? ==>
        && sample in RegularFiles(old(disk.nodes), in_dir.value)
        && capacity == Min(|FileData(old(disk.nodes), Join(in_dir.value, sample))|, cap_max)
      ensures r.Ok? ==>
        var prepared := Prepared(old(disk.nodes), out_file.value);
        && IsMergeOrder(order, RegularFiles(prepared, in_dir.value))
        && disk.nodes == prepared[out_file.value := File(if capacity == 0 then [] else Merged(prepared, in_dir.value, order))]
    {
      sample, capacity, order := "", 0, [];
      if in_dir.None? {
        return Err(InvalidInput), sample, capacity, order;
      }
      var dir := in_dir.value;
      if !Exists(disk.nodes, dir) {
        return Err(NotFound), sample, capacity, order;
      }
      if !IsDir(disk.nodes, dir) {
        return Err(InvalidInput), sample, capacity, order;
      }
      if out_file.None? {
        return Err(InvalidInput), sample, capacity, order;
      }
      var out := out_file.value;

      // the size of the first file listed decides the buffer capacity
      var ok, files := disk.ListFiles(dir);
      if !ok {
        return Err(IoFailure), sample, capacity, order;
      }
      if |files| == 0 {
        return Err(NotFound), sample, capacity, order;
      }
      assert files[0] in RegularFiles(disk.nodes, dir);
      var inputSize;
      ok, inputSize := disk.FileLen(Join(dir, files[0]));
      if !ok {
        return Err(IoFailure), sample, capacity, order;
      }
      var bufferCapacity := Min(inputSize, cap_max);
      sample, capacity := files[0], bufferCapacity;

      ghost var original := disk.nodes;
      ok := PrepareOutput(disk, out);
      if !ok {
        return Err(IoFailure), sample, capacity, order;
      }

      ghost var prepared := disk.nodes;
      assert IsFile(prepared, out) && FileData(prepared, out) == [];
      r, order := MergeEntries(disk, dir, out, bufferCapacity);
      assert r.Ok? ==> FileData(prepared, out) + (if capacity == 0 then [] else Merged(prepared, dir, order))
                       == (if capacity == 0 then [] else Merged(prepared, dir, order));
    }
  }

  /**
    The second half of `run`, once the output is an empty file: lists the
    entries again, panics on a non-numeric name among two or more, sorts
    them by key, appends each in turn to the output and flushes it.
  */
  method MergeEntries(disk: Disk, dir: Path, out: Path, capacity: nat) returns (r: Result<bool, Error>, ghost order: seq<string>)
    requires IsFile(disk.nodes, out) && !IsChild(out, dir)
    modifies disk
    ensures r.Err? ==> r.error == IoFailure || r.error == Panic
    ensures r == Err(Panic) ==>
      && disk.nodes == old(disk.nodes)
      && KeyPanics(order) && forall name :: name in order <==> name in RegularFiles(disk.nodes, dir)
    ensures r.Ok? ==>
      && r.value && IsMergeOrder(order, RegularFiles(old(disk.nodes), dir))
      && disk.nodes == old(disk.nodes)[out := File(FileData(old(disk.nodes), out) +
                                                  if capacity == 0 then [] else Merged(old(disk.nodes), dir, order))]
  {
    var ok, entries := disk.ListFiles(dir);
    order := entries;
    if !ok {
      return Err(IoFailure), order;
    }
    if |entries| >= 2 && !AllNumeric(entries) {
      return Err(Panic), order;
    }
    var sorted := SortEntries(entries);
    order := sorted[..];
    assert IsMergeOrder(order, RegularFiles(disk.nodes, dir)) by {
      assert |order| >= 2 ==> forall i :: 0 <= i < |order| ==> order[i] in entries;
    }
    ok := CopyAll(disk, dir, out, sorted, capacity);
    if !ok {
      return Err(IoFailure), order;
    }
    ok := disk.Flush();
    if !ok {
      return Err(IoFailure), order;
    }
    return Ok(true), order;
  }

  /** Copies the listed names into a new array and sorts it by key. */
  method SortEntries(entries: seq<string>) returns (sorted: array<string>)
    requires Distinct(entries)
    ensures fresh(sorted) && |sorted[..]| == |entries|
    ensures Distinct(sorted[..]) && SortedByKey(sorted[..])
    ensures forall name :: name in sorted[..] <==> name in entries
  {
    sorted := new string[|entries|](i requires 0 <= i < |entries| => entries[i]);
    assert sorted[..] == entries;
    SortByKey(sorted);
    DistinctByMultiset(entries);
    DistinctByMultiset(sorted[..]);
    forall name
      ensures name in sorted[..] <==> name in entries
    {
      assert name in sorted[..] <==> multiset(sorted[..])[name] > 0;
      assert name in entries <==> multiset(entries)[name] > 0;
    }
  }

  /** Deletes whatever is at `out`, makes its parent directories, and creates `out` as an empty file. */
  method PrepareOutput(disk: Disk, out: Path) returns (ok: bool)
    modifies disk
    ensures ok ==> out != [] && disk.nodes == Prepared(old(disk.nodes), out)
  {
    ghost var original := disk.nodes;
    if Exists(disk.nodes, out) {
      if IsDir(disk.nodes, out) {
        ok := disk.RemoveDirAll(out);
      } else {
        ok := disk.RemoveFile(out);
      }
      if !ok {
        return;
      }
    }
    // `out_file.parent()` is None only for the root
    if out != [] {
      ok := disk.CreateDirAll(Parent(out));
      if !ok {
        return;
      }
    }
    ok := disk.CreateFile(out);
    if !ok {
      return;
    }
    assert out !in WithDirs(Cleared(original, out), Parent(out));
  }

  /** The `for entry in entries` loop: appends each file in turn to `out`. */
  method CopyAll(disk: Disk, dir: Path, out: Path, entries: array<string>, capacity: nat) returns (ok: bool)
    requires IsFile(disk.nodes, out) && !IsChild(out, dir)
    requires forall k :: 0 <= k < entries.Length ==> IsFile(disk.nodes, Join(dir, entries[k]))
    modifies disk
    ensures ok ==>
      disk.nodes == old(disk.nodes)[out := File(FileData(old(disk.nodes), out) +
                                               if capacity == 0 then [] else Merged(old(disk.nodes), dir, entries[..]))]
  {
    ghost var t := disk.nodes;
    ghost var start := FileData(t, out);
    assert t[out] == File(start) && start + [] == start;
    assert t[out := File(start + [])] == t;
    for k := 0 to entries.Length
      invariant disk.nodes == t[out := File(start + if capacity == 0 then [] else Merged(t, dir, entries[..k]))]
    {
      var path := Join(dir, entries[k]);
      assert IsChild(path, dir) && path != out;
      var isOpen, reader, size := disk.OpenRead(path, capacity);
      if !isOpen {
        return false;
      }
      assert reader.source == FileData(t, path);
      ghost var written := disk.nodes;
      ok := CopyFile(disk, reader, out, capacity);
      if !ok {
        return;
      }
      assert entries[..k + 1][..k] == entries[..k];
      ghost var copied := if capacity == 0 then [] else reader.source;
      ghost var before := if capacity == 0 then [] else Merged(t, dir, entries[..k]);
      assert (if capacity == 0 then [] else Merged(t, dir, entries[..k + 1])) == before + copied;
      assert FileData(written, out) + copied == start + (before + copied);
    }
    assert entries[..] == entries[..entries.Length];
    ok := true;
  }

  /** The read loop over one entry: reads into a buffer of `capacity` bytes until a read returns 0, appending what each read gave. */
  method CopyFile(disk: Disk, reader: Reader, out: Path, capacity: nat) returns (ok: bool)
    requires reader.Valid() && reader.pos == 0 && IsFile(disk.nodes, out)
    modifies disk, reader
    ensures ok ==>
      disk.nodes == old(disk.nodes)[out := File(FileData(old(disk.nodes), out) + if capacity == 0 then [] else reader.source)]
  {
    var buffer := new byte[capacity];
    ghost var t := disk.nodes;
    ghost var start := FileData(t, out);
    assert t[out] == File(start) && start + reader.source[..0] == start;
    assert t[out := File(start + reader.source[..0])] == t;
    while true
      invariant reader.Valid() && IsFile(disk.nodes, out)
      invariant capacity == 0 ==> reader.pos == 0
      invariant disk.nodes == t[out := File(start + reader.source[..reader.pos])]
      decreases |reader.source| - reader.pos
    {
      ghost var before := reader.pos;
      ghost var written := FileData(disk.nodes, out);
      var n;
      ok, n := CopyStep(disk, reader, buffer, out);
      if !ok {
        return;
      }
      assert reader.source[..reader.pos] == reader.source[..before] + reader.source[before..reader.pos];
      assert written + reader.source[before..reader.pos] == start + reader.source[..reader.pos];
      if n == 0 {
        break;
      }
    }
    assert reader.source[..reader.pos] == if capacity == 0 then [] else reader.source;
    ok := true;
  }

  /** One turn of the read loop: a read into the whole buffer, then `write_all` of what it gave. */
  method CopyStep(disk: Disk, reader: Reader, buffer: array<byte>, out: Path) returns (ok: bool, n: nat)
    requires reader.Valid() && IsFile(disk.nodes, out)
    modifies disk, reader, buffer
    ensures reader.Valid() && IsFile(disk.nodes, out) && reader.pos == old(reader.pos) + n
    ensures ok ==> (n == 0 <==> buffer.Length == 0 || old(reader.pos) == |reader.source|)
    ensures ok ==> disk.nodes == old(disk.nodes)[out := File(FileData(old(disk.nodes), out) + reader.source[old(reader.pos)..reader.pos])]
  {
    ghost var before := reader.pos;
    var read;
    read, n := reader.Read(buffer, 0);
    if !read {
      return false, 0;
    }
    if n == 0 {
      assert reader.source[before..reader.pos] == [];
      assert FileData(disk.nodes, out) + [] == FileData(disk.nodes, out);
      assert disk.nodes[out] == File(FileData(disk.nodes, out));
      return true, 0;
    }
    assert buffer[..n] == reader.source[before..reader.pos];
    ok := disk.Append(out, buffer[..n]);
  }
}
