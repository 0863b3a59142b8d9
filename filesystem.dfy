/**
  The part of the operating system the three processes talk to: a tree of
  regular files and directories, the `std::fs` calls made on it, and a
  buffered reader over one open file.

  Every call that the source ends with `?` may fail for reasons the tree does
  not show (permissions, a full disk, a device error). Each primitive below
  therefore chooses freely whether it fails; a failing primitive changes
  nothing and the processes turn it into `Err(IoFailure)`.
*/
module FileSystem {
  import opened Wrappers

  type byte = bv8

  /** A path as the sequence of its components; `[]` is the root directory. */
  type Path = seq<string>

  datatype Node = File(data: seq<byte>) | Dir

  /** Every path that exists, except the root, with what it names. */
  type Tree = map<Path, Node>

  /**
    The failures the processes return: the two `io::ErrorKind`s they raise
    themselves, one kind for every failure the OS reports, and the panic of
    an `unwrap` (an abort in the source, a returned value here).
  */
  datatype Error = NotFound | InvalidInput | IoFailure | Panic

  function Join(dir: Path, name: string): Path {
    dir + [name]
  }

  function Parent(p: Path): Path
    requires p != []
  {
    p[..|p| - 1]
  }

  /** `p` is `dir.join(name)` for some single component `name`. */
  predicate IsChild(p: Path, dir: Path) {
    |p| == |dir| + 1 && p[..|dir|] == dir
  }

  predicate Exists(t: Tree, p: Path) {
    p == [] || p in t
  }

  predicate IsFile(t: Tree, p: Path) {
    p != [] && p in t && t[p].File?
  }

  predicate IsDir(t: Tree, p: Path) {
    p == [] || (p in t && t[p].Dir?)
  }

  /** The bytes of the regular file at `p` (none when there is no such file). */
  function FileData(t: Tree, p: Path): seq<byte> {
    if IsFile(t, p) then t[p].data else []
  }

  /** The names of the regular files directly inside `dir`. */
  function RegularFiles(t: Tree, dir: Path): (names: set<string>)
    ensures forall name :: name in names <==> IsFile(t, Join(dir, name))
  {
    var names := set p | p in t.Keys && IsChild(p, dir) && t[p].File? :: p[|dir|];
    assert forall name :: IsFile(t, Join(dir, name)) ==> Join(dir, name)[|dir|] == name && IsChild(Join(dir, name), dir);
    assert forall p :: IsChild(p, dir) ==> p == Join(dir, p[|dir|]);
    names
  }

  /** The directories `create_dir_all(p)` makes sure of: every prefix of `p` but the root. */
  predicate CanCreateDirAll(t: Tree, p: Path) {
    forall i :: 0 < i <= |p| ==> !IsFile(t, p[..i])
  }

  /** The tree after `create_dir_all(p)`: each missing prefix of `p` becomes a directory. */
  function WithDirs(t: Tree, p: Path): Tree {
    map q | q in t.Keys + (set i | 0 < i <= |p| :: p[..i]) :: if q in t then t[q] else Dir
  }

  /** The tree after `remove_dir_all(p)`: `p` and everything below it are gone. */
  function RemoveTree(t: Tree, p: Path): Tree {
    map q | q in t && !(p <= q) :: t[q]
  }

  /** Opening `p` for writing needs an existing parent directory and no directory at `p`. */
  predicate CanOpenForWrite(t: Tree, p: Path) {
    p != [] && IsDir(t, Parent(p)) && !IsDir(t, p)
  }

  /** A buffered reader (`io::BufReader`) over the bytes a file held when it was opened. */
  class Reader {
    const source: seq<byte>
    /** The capacity the `BufReader` was given; it only decides how reads are cut, which `Read` leaves open anyway. */
    const capacity: nat
    var pos: nat

    ghost predicate Valid()
      reads this
    {
      pos <= |source|
    }

    constructor (data: seq<byte>, capacity: nat)
      ensures Valid() && source == data && this.capacity == capacity && pos == 0
    {
      source, this.capacity, pos := data, capacity, 0;
    }

    /**
      `read(&mut buf[from..])`: copies the next bytes of the file to the front
      of `buf[from..]` and returns how many. It returns 0 only at the end of
      the file or for an empty slice; otherwise it may return fewer bytes than
      would fit (a short read), but at least one.
    */
    method Read(buf: array<byte>, from: nat) returns (ok: bool, n: nat)
      requires Valid() && from <= buf.Length
      modifies this, buf
      ensures Valid()
      ensures !ok ==> pos == old(pos) && buf[..] == old(buf[..])
      ensures ok ==> from + n <= buf.Length && pos == old(pos) + n
      ensures ok ==> buf[..] == old(buf[..from]) + source[old(pos)..pos] + old(buf[from + n..])
      ensures ok ==> (n == 0 <==> from == buf.Length || old(pos) == |source|)
    {
      ok := *;
      n := 0;
      if !ok || from == buf.Length || pos == |source| {
        return;
      }
      n :| 0 < n <= buf.Length - from && n <= |source| - pos;
      forall i | from <= i < from + n {
        buf[i] := source[pos + i - from];
      }
      pos := pos + n;
    }
  }

  /** The filesystem, changed in place by the calls the processes make. */
  class Disk {
    var nodes: Tree

    constructor (t: Tree)
      ensures nodes == t
    {
      nodes := t;
    }

    /** `fs::create_dir_all(p)`: fails where a prefix of `p` is a regular file. */
    method CreateDirAll(p: Path) returns (ok: bool)
      modifies this
      ensures ok ==> CanCreateDirAll(old(nodes), p) && nodes == WithDirs(old(nodes), p)
      ensures !ok ==> nodes == old(nodes)
    {
      ok := *;
      ok := ok && CanCreateDirAll(nodes, p);
      if ok {
        nodes := WithDirs(nodes, p);
      }
    }

    /** `fs::remove_dir_all(p)` on a directory. */
    method RemoveDirAll(p: Path) returns (ok: bool)
      modifies this
      ensures ok ==> IsDir(old(nodes), p) && nodes == RemoveTree(old(nodes), p)
      ensures !ok ==> nodes == old(nodes)
    {
      ok := *;
      ok := ok && IsDir(nodes, p);
      if ok {
        nodes := RemoveTree(nodes, p);
      }
    }

    /** `fs::remove_file(p)` on a regular file. */
    method RemoveFile(p: Path) returns (ok: bool)
      modifies this
      ensures ok ==> IsFile(old(nodes), p) && nodes == old(nodes) - {p}
      ensures !ok ==> nodes == old(nodes)
    {
      ok := *;
      ok := ok && IsFile(nodes, p);
      if ok {
        nodes := nodes - {p};
      }
    }

    /**
      Opening `p` with create and truncate, `write_all(data)` and `flush()`:
      whatever file was at `p` is replaced by one holding exactly `data`.
    */
    method WriteFile(p: Path, data: seq<byte>) returns (ok: bool)
      modifies this
      ensures ok ==> CanOpenForWrite(old(nodes), p) && nodes == old(nodes)[p := File(data)]
      ensures !ok ==> nodes == old(nodes)
    {
      ok := *;
      ok := ok && CanOpenForWrite(nodes, p);
      if ok {
        nodes := nodes[p := File(data)];
      }
    }

    /** Opening `p` with create but without truncate: a file already there is kept, otherwise an empty one is made. */
    method CreateFile(p: Path) returns (ok: bool)
      modifies this
      ensures ok ==> CanOpenForWrite(old(nodes), p)
      ensures ok ==> nodes == if IsFile(old(nodes), p) then old(nodes) else old(nodes)[p := File([])]
      ensures !ok ==> nodes == old(nodes)
    {
      ok := *;
      ok := ok && CanOpenForWrite(nodes, p);
      if ok && !IsFile(nodes, p) {
        nodes := nodes[p := File([])];
      }
    }

    /** `write_all(data)` on a writer positioned at the end of the file at `p`. */
    method Append(p: Path, data: seq<byte>) returns (ok: bool)
      requires IsFile(nodes, p)
      modifies this
      ensures ok ==> nodes == old(nodes)[p := File(FileData(old(nodes), p) + data)]
      ensures !ok ==> nodes == old(nodes)
    {
      ok := *;
      if ok {
        nodes := nodes[p := File(FileData(nodes, p) + data)];
      }
    }

    /** `flush()` of a writer; the bytes are already in the tree, so only the failure is left. */
    method Flush() returns (ok: bool)
      ensures nodes == old(nodes)
    {
      ok := *;
    }

    /** Opening the regular file `p` for reading, and `metadata()?.len()` of it. */
    method OpenRead(p: Path, capacity: nat) returns (ok: bool, reader: Reader, len: nat)
      requires IsFile(nodes, p)
      ensures fresh(reader) && reader.Valid() && reader.pos == 0
      ensures reader.source == FileData(nodes, p) && reader.capacity == capacity
      ensures ok ==> len == |FileData(nodes, p)|
    {
      ok := *;
      reader := new Reader(FileData(nodes, p), capacity);
      len := |reader.source|;
    }

    /** `fs::metadata(p)?.len()`, or opening `p` and asking its metadata, for a regular file `p`. */
    method FileLen(p: Path) returns (ok: bool, len: nat)
      requires IsFile(nodes, p)
      ensures ok ==> len == |FileData(nodes, p)|
    {
      ok := *;
      len := |FileData(nodes, p)|;
    }

    /**
      `fs::read_dir(dir)?` filtered to the regular files: their names, each
      once, in an order the OS chooses.
    */
    method ListFiles(dir: Path) returns (ok: bool, names: seq<string>)
      ensures ok ==> IsDir(nodes, dir)
      ensures ok ==> Distinct(names) && forall name :: name in names <==> name in RegularFiles(nodes, dir)
    {
      ok := *;
      ok := ok && IsDir(nodes, dir);
      names := [];
      if !ok {
        return;
      }
      var rest := RegularFiles(nodes, dir);
      while rest != {}
        invariant rest <= RegularFiles(nodes, dir)
        invariant Distinct(names)
        invariant forall name :: name in names <==> name in RegularFiles(nodes, dir) && name !in rest
        decreases rest
      {
        var name :| name in rest;
        names := names + [name];
        rest := rest - {name};
      }
    }
  }

  predicate Distinct<T(==)>(s: seq<T>) {
    forall i, j :: 0 <= i < j < |s| ==> s[i] != s[j]
  }
}
