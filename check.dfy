/**
  The check process: tells whether a directory holds the chunk files
  `0` .. `total_chunks - 1` and whether together they are `file_size` bytes.
*/
module Checking {
  import opened Wrappers
  import opened FileSystem
  import opened Decimal

  /** The two ways a chunk set can fail the check, each with a stable short code. */
  datatype CheckResultErrorType = Missing | Size {

    /** `CheckResultErrorType::from_code`: the kind a code stands for, if any. */
    static function FromCode(code: string): (kind: Option<CheckResultErrorType>)
      ensures kind.Some? ==> kind.value.AsCode() == code
      ensures kind.None? <==> forall k: CheckResultErrorType :: k.AsCode() != code
    {
      if code == "missing" then Some(Missing)
      else if code == "size" then Some(Size)
      else None
    }

    /** `as_code`: the kind's code; the two kinds have different codes. */
    function AsCode(): (code: string)
      ensures code == "missing" <==> this == Missing
      ensures code == "size" <==> this == Size
    {
      match this
      case Missing => "missing"
      case Size => "size"
    }

    /** `to_code`: the kind's code as an owned string, which `from_code` reads back as the same kind. */
    function ToCode(): (code: string)
      ensures code == AsCode() && FromCode(code) == Some(this)
    {
      AsCode()
    }
  }

  const MISSING_MESSAGE: string := "Missing chunk(s)"
  const SIZE_MESSAGE: string := "the size of chunks is not equal to file_size parameter"

  datatype CheckResultError = CheckResultError(error_type: CheckResultErrorType, message: string, missing: Option<seq<nat>>)

  /** The verdict of a check that ran to the end. */
  datatype CheckResult = CheckResult(success: bool, error: Option<CheckResultError>)

  /** The ordinals below `n` with no regular file of that name in `dir`, in ascending order. */
  function MissingOrdinals(t: Tree, dir: Path, n: nat): seq<nat> {
    if n == 0 then []
    else MissingOrdinals(t, dir, n - 1) + if IsFile(t, Join(dir, ToDecimal(n - 1))) then [] else [n - 1]
  }

  /** The total length of the regular files named `0` .. `n - 1` in `dir`. */
  function PresentSize(t: Tree, dir: Path, n: nat): nat {
    if n == 0 then 0 else PresentSize(t, dir, n - 1) + |FileData(t, Join(dir, ToDecimal(n - 1)))|
  }

  /**
    The verdict for a chunk set: missing chunks first, whatever the sizes;
    then a size that differs from the expected one; otherwise success. There
    is an error exactly when the check fails, and the missing ordinals are
    reported exactly when some are missing.
  */
  function Decide(missing: seq<nat>, actualSize: nat, fileSize: nat): (r: CheckResult)
    ensures r.success <==> missing == [] && actualSize == fileSize
    ensures r.error.Some? <==> !r.success
    ensures r.error.Some? ==> (r.error.value.error_type == Missing <==> missing != [])
    ensures r.error.Some? ==> r.error.value.missing == if missing == [] then None else Some(missing)
  {
    if missing != [] then CheckResult(false, Some(CheckResultError(Missing, MISSING_MESSAGE, Some(missing))))
    else if actualSize != fileSize then CheckResult(false, Some(CheckResultError(Size, SIZE_MESSAGE, None)))
    else CheckResult(true, None)
  }

  /** An ordinal is reported missing exactly when it is below `n` and its chunk is not a regular file. */
  lemma {:induction false} MissingExactly(t: Tree, dir: Path, n: nat, i: nat)
    ensures i in MissingOrdinals(t, dir, n) <==> i < n && !IsFile(t, Join(dir, ToDecimal(i)))
  {
    if n > 0 {
      MissingExactly(t, dir, n - 1, i);
    }
  }

  predicate StrictlyAscending(s: seq<nat>) {
    forall i, j :: 0 <= i < j < |s| ==> s[i] < s[j]
  }

  /** The missing ordinals come in strictly ascending order. */
  lemma {:induction false} MissingAscending(t: Tree, dir: Path, n: nat)
    ensures StrictlyAscending(MissingOrdinals(t, dir, n))
  {
    if n > 0 {
      MissingAscending(t, dir, n - 1);
      var prefix := MissingOrdinals(t, dir, n - 1);
      forall i | 0 <= i < |prefix|
        ensures prefix[i] < n - 1
      {
        MissingExactly(t, dir, n - 1, prefix[i]);
      }
      var missing := MissingOrdinals(t, dir, n);
      forall i, j | 0 <= i < j < |missing|
        ensures missing[i] < missing[j]
      {
        assert missing[i] == prefix[i];
        if j < |prefix| {
          assert missing[j] == prefix[j];
        } else {
          assert missing[j] == n - 1;
        }
      }
    }
  }

  /** Only the chunk files named below `n` are looked at: trees that agree on those give the same missing list and size. */
  lemma {:induction false} OnlyOrdinalsBelow(t: Tree, u: Tree, dir: Path, n: nat)
    requires forall k :: 0 <= k < n ==> FileData(t, Join(dir, ToDecimal(k))) == FileData(u, Join(dir, ToDecimal(k)))
    requires forall k :: 0 <= k < n ==> IsFile(t, Join(dir, ToDecimal(k))) == IsFile(u, Join(dir, ToDecimal(k)))
    ensures MissingOrdinals(t, dir, n) == MissingOrdinals(u, dir, n)
    ensures PresentSize(t, dir, n) == PresentSize(u, dir, n)
  {
    if n > 0 {
      OnlyOrdinalsBelow(t, u, dir, n - 1);
    }
  }

  /** With no chunk expected, the check succeeds exactly when the expected size is 0. */
  lemma NoChunksExpected(t: Tree, dir: Path, fileSize: nat)
    ensures Decide(MissingOrdinals(t, dir, 0), PresentSize(t, dir, 0), fileSize).success <==> fileSize == 0
  {
  }

  /** The settings of one check, as the builder accumulates them. */
  datatype Check = Check(in_dir: Option<Path>, file_size: Option<nat>, total_chunks: Option<nat>) {

    /** `Check::new()`: nothing set, so `run` stops at its first validation with InvalidInput. */
    static function New(): (c: Check)
      ensures c.in_dir.None? && c.file_size.None? && c.total_chunks.None?
      ensures forall t :: c.Precheck(t) == Some(InvalidInput)
    {
      Check(None, None, None)
    }

    /** The error `run` returns before it looks at any chunk, in the order it checks, or None. */
    function Precheck(t: Tree): Option<Error> {
      if in_dir.None? then Some(InvalidInput)
      else if !Exists(t, in_dir.value) then Some(NotFound)
      else if !IsDir(t, in_dir.value) then Some(InvalidInput)
      else if file_size.None? then Some(InvalidInput)
      else if total_chunks.None? then Some(InvalidInput)
      else None
    }

    /**
      `Check::run`. When it runs to the end, its verdict is `Decide` applied to
      every ordinal below `total_chunks` whose chunk is missing and to the
      total length of the chunks that are there; no other file is looked at.
    */
    method Run(disk: Disk) returns (r: Result<CheckResult, Error>)
      ensures Precheck(disk.nodes).Some? ==> r == Err(Precheck(disk.nodes).value)
      ensures r.Err? ==> r.error == IoFailure || Precheck(disk.nodes) == Some(r.error)
      ensures r.Ok? ==> Precheck(disk.nodes).None?
      ensures r.Ok? ==>
        r.value == Decide(MissingOrdinals(disk.nodes, in_dir.value, total_chunks.value),
                          PresentSize(disk.nodes, in_dir.value, total_chunks.value),
                          file_size.value)
    {
      if in_dir.None? {
        return Err(InvalidInput);
      }
      var dir := in_dir.value;
      if !Exists(disk.nodes, dir) {
        return Err(NotFound);
      }
      if !IsDir(disk.nodes, dir) {
        return Err(InvalidInput);
      }
      if file_size.None? {
        return Err(InvalidInput);
      }
      var fileSize := file_size.value;
      if total_chunks.None? {
        return Err(InvalidInput);
      }
      var totalChunks := total_chunks.value;

      var actualSize := 0;
      var missing: seq<nat> := [];
      for i := 0 to totalChunks
        invariant missing == MissingOrdinals(disk.nodes, dir, i)
        invariant actualSize == PresentSize(disk.nodes, dir, i)
      {
        var target := Join(dir, ToDecimal(i));
        if !Exists(disk.nodes, target) || !IsFile(disk.nodes, target) {
          missing := missing + [i];
          continue;
        }
        var ok, len := disk.FileLen(target);
        if !ok {
          return Err(IoFailure);
        }
        actualSize := actualSize + len;
      }

      return Ok(Decide(missing, actualSize, fileSize));
    }
  }
}
