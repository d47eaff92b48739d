/** Vocabulary shared by every part of the model: the error codes the core raises
    with ereport(ERROR), result wrappers, the time sentinels, and two sequence
    helpers (filtering and counting) that the catalog scans are specified with. */
module Base {

  datatype Option<+T> = None | Some(value: T)

  /** The error classes raised by the modelled code. */
  datatype Error =
    | InvalidParameter            // ERRCODE_INVALID_PARAMETER_VALUE
    | UndefinedObject             // ERRCODE_UNDEFINED_OBJECT
    | UndefinedFunction           // a job's procedure cannot be resolved
    | InsufficientPrivilege       // ERRCODE_INSUFFICIENT_PRIVILEGE
    | FeatureNotSupported         // ERRCODE_FEATURE_NOT_SUPPORTED
    | DependentObjectsStillExist  // ERRCODE_DEPENDENT_OBJECTS_STILL_EXIST
    | ReadOnlyTransaction         // a mutating call inside a read-only transaction
    | HypertableNotFound          // the hypertable cache has no entry for the id
    | InternalError               // elog(ERROR, ...)
    | NullDereference             // the C code dereferences NULL (as-written models only)

  /** The value of a call that either returns or raises an error (which rolls back). */
  datatype Result<+T> = Ok(value: T) | Err(error: Error)

  /** A call that returns nothing, or raises an error. */
  datatype Outcome = Pass | Fail(error: Error)

  /** PostgreSQL's "-infinity" timestamp; the job-stat tables use it for "unset". */
  const DT_NOBEGIN: int := -0x8000_0000_0000_0000
  /** PostgreSQL's "infinity" timestamp. */
  const DT_NOEND: int := 0x7FFF_FFFF_FFFF_FFFF
  const USECS_PER_MINUTE: int := 60_000_000
  /** The schema the built-in policy procedures live in. */
  const INTERNAL_SCHEMA_NAME: string := "_timescaledb_internal"
  const INVALID_OID: int := 0
  const INVALID_HYPERTABLE_ID: int := 0
  const INVALID_CHUNK_ID: int := 0

  /** The elements of `s` that satisfy `keep`, in their original order. Defined from
      the back so that a left-to-right scan that keeps rows extends it one row at a time. */
  function Filter<T(!new)>(s: seq<T>, keep: T -> bool): (r: seq<T>)
    ensures |r| <= |s|
    ensures forall x :: x in r <==> x in s && keep(x)
  {
    if |s| == 0 then []
    else
      var init := Filter(s[..|s| - 1], keep);
      assert s == s[..|s| - 1] + [s[|s| - 1]];
      if keep(s[|s| - 1]) then init + [s[|s| - 1]] else init
  }

  /** Filtering a prefix one element longer adds at most that element. */
  lemma FilterSnoc<T(!new)>(s: seq<T>, i: nat, keep: T -> bool)
    requires i < |s|
    ensures Filter(s[..i + 1], keep)
            == Filter(s[..i], keep) + (if keep(s[i]) then [s[i]] else [])
  {
    assert s[..i + 1][..i] == s[..i];
  }

  /** Filtering with a predicate that keeps everything is the identity. */
  lemma {:induction false} FilterAll<T(!new)>(s: seq<T>, keep: T -> bool)
    requires forall x :: x in s ==> keep(x)
    ensures Filter(s, keep) == s
  {
    if |s| > 0 {
      assert s == s[..|s| - 1] + [s[|s| - 1]];
      FilterAll(s[..|s| - 1], keep);
    }
  }

  /** Filtering with a predicate that keeps nothing gives the empty sequence. */
  lemma {:induction false} FilterNone<T(!new)>(s: seq<T>, keep: T -> bool)
    requires forall x :: x in s ==> !keep(x)
    ensures Filter(s, keep) == []
  {
    if |s| > 0 {
      assert s == s[..|s| - 1] + [s[|s| - 1]];
      FilterNone(s[..|s| - 1], keep);
    }
  }

  /** The number of elements of `s` that satisfy `p`. */
  function Count<T(!new)>(s: seq<T>, p: T -> bool): (n: nat)
    ensures n <= |s|
    ensures n == 0 <==> forall x :: x in s ==> !p(x)
  {
    if |s| == 0 then 0
    else
      assert s == s[..|s| - 1] + [s[|s| - 1]];
      Count(s[..|s| - 1], p) + (if p(s[|s| - 1]) then 1 else 0)
  }

  /** Counting over a prefix one element longer adds one exactly when that element counts. */
  lemma CountSnoc<T(!new)>(s: seq<T>, i: nat, p: T -> bool)
    requires i < |s|
    ensures Count(s[..i + 1], p) == Count(s[..i], p) + (if p(s[i]) then 1 else 0)
  {
    assert s[..i + 1][..i] == s[..i];
  }

  /** Counts of predicates that never hold together add up to the count of their union. */
  lemma {:induction false} CountDisjointSum<T(!new)>(s: seq<T>, p: T -> bool, q: T -> bool)
    requires forall x :: x in s ==> !(p(x) && q(x))
    ensures Count(s, p) + Count(s, q) == Count(s, x => p(x) || q(x))
  {
    if |s| > 0 {
      assert s == s[..|s| - 1] + [s[|s| - 1]];
      CountDisjointSum(s[..|s| - 1], p, q);
    }
  }

  /** Filtering twice is filtering once with the conjunction. */
  lemma {:induction false} FilterTwice<T(!new)>(s: seq<T>, p: T -> bool, q: T -> bool, both: T -> bool)
    requires forall x :: both(x) == (p(x) && q(x))
    ensures Filter(Filter(s, p), q) == Filter(s, both)
  {
    if |s| > 0 {
      FilterTwice(s[..|s| - 1], p, q, both);
    }
  }

  /** The last element of `s` that satisfies `p`: what a scan that overwrites its
      result on every match returns. */
  function LastMatch<T(!new)>(s: seq<T>, p: T -> bool): (r: Option<T>)
    ensures r.Some? ==> r.value in s && p(r.value)
    ensures r.None? <==> forall x :: x in s ==> !p(x)
  {
    if |s| == 0 then None
    else if p(s[|s| - 1]) then Some(s[|s| - 1])
    else
      assert s == s[..|s| - 1] + [s[|s| - 1]];
      LastMatch(s[..|s| - 1], p)
  }

  /** Scanning one more element replaces the result when that element matches. */
  lemma LastMatchSnoc<T(!new)>(s: seq<T>, i: nat, p: T -> bool)
    requires i < |s|
    ensures LastMatch(s[..i + 1], p) == if p(s[i]) then Some(s[i]) else LastMatch(s[..i], p)
  {
    assert s[..i + 1][..i] == s[..i];
  }

  /** Position `|done|` splits a sequence into the part already passed and the part
      still to visit. */
  lemma SplitAtScan<T>(done: seq<T>, rest: seq<T>)
    requires |rest| > 0
    ensures (done + rest)[|done|] == rest[0]
    ensures (done + rest)[..|done|] + (done + rest)[|done| + 1..] == done + rest[1..]
    ensures done + rest == (done + [rest[0]]) + rest[1..]
  {
    assert (done + rest)[..|done|] == done;
    assert (done + rest)[|done| + 1..] == rest[1..];
  }

  /** A scan that deletes, at its position `i`, the rows `keep` rejects keeps its
      table as the kept part of the `k` rows visited followed by the unvisited rows;
      the row at its position is then the next unvisited one. */
  lemma ScanPosition<T(!new)>(rows: seq<T>, k: nat, keep: T -> bool, cur: seq<T>, i: nat)
    requires k < |rows|
    requires i == |Filter(rows[..k], keep)| && cur == Filter(rows[..k], keep) + rows[k..]
    ensures i < |cur| && cur[i] == rows[k]
  {
  }

  /** After moving past the row at its position, or deleting it, the scan's table
      `next` and position `j` are as described for `k + 1` rows visited. */
  lemma ScanDeleteStep<T(!new)>(rows: seq<T>, k: nat, keep: T -> bool, cur: seq<T>, i: nat,
                                next: seq<T>, j: nat)
    requires k < |rows|
    requires i == |Filter(rows[..k], keep)| && cur == Filter(rows[..k], keep) + rows[k..]
    requires keep(rows[k]) ==> next == cur && j == i + 1
    requires !keep(rows[k]) ==> i < |cur| && next == cur[..i] + cur[i + 1..] && j == i
    ensures j == |Filter(rows[..k + 1], keep)| && next == Filter(rows[..k + 1], keep) + rows[k + 1..]
  {
    FilterSnoc(rows, k, keep);
    SplitAtScan(Filter(rows[..k], keep), rows[k..]);
  }
}
