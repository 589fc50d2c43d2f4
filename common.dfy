/** Shared vocabulary of the model: optional values, the service errors, and
    the id-ordered selection of rows that stands for an SQL `SELECT ... WHERE`
    scanned in primary-key order. */
module Common {

  datatype Option<+T> = None | Some(value: T)

  /** The errors the services return. `NotFound` stands for
      `gorm.ErrRecordNotFound` and the "... not found" wrappers around it,
      `Conflict` for a unique-index violation reported by the database,
      `Referenced` for a delete refused by a foreign key of `table`. */
  datatype Error =
    | NotFound(entity: string)
    | InvalidDate
    | NameRequired
    | InvalidValue(value: string)
    | NoShifts
    | Conflict
    | InvalidUsername
    | NotANumber
    | ClaimMissing(claim: string)
    | NilShift
    | Referenced(table: string)

  datatype Result<+T> = Ok(value: T) | Err(error: Error)

  /** Instants are whole seconds since the Unix epoch. */
  const SecondsPerDay: int := 86400

  /** Outcome of an operation that returns only an error in Go. */
  datatype Outcome = Pass | Fail(error: Error)

  /** Strictly increasing sequence of ids: the order rows come back in. */
  predicate Increasing(ids: seq<nat>)
  {
    forall i, j :: 0 <= i < j < |ids| ==> ids[i] < ids[j]
  }

  /** The ids from 1 to `last` of the rows of `m` that satisfy `keep`,
      ascending. */
  function Select<T>(m: map<nat, T>, last: nat, keep: (nat, T) -> bool): (ids: seq<nat>)
    ensures Increasing(ids)
    ensures forall id :: id in ids <==> 0 < id <= last && id in m && keep(id, m[id])
  {
    if last == 0 then []
    else
      var rest := Select(m, last - 1, keep);
      assert forall k :: 0 <= k < |rest| ==> rest[k] in rest;
      if last in m && keep(last, m[last]) then rest + [last] else rest
  }

  /** Every key of `m` is a real row id: positive and at most the last id
      handed out. */
  predicate IdsUpTo<T>(m: map<nat, T>, last: nat)
  {
    forall id :: id in m ==> 0 < id <= last
  }

  /** The rows of `m` named by `ids`, paired with their ids. */
  function RowsOf<T>(m: map<nat, T>, ids: seq<nat>): (rows: seq<(nat, T)>)
    requires forall id :: id in ids ==> id in m
    ensures |rows| == |ids|
    ensures forall k :: 0 <= k < |ids| ==> rows[k] == (ids[k], m[ids[k]])
  {
    seq(|ids|, k requires 0 <= k < |ids| => (ids[k], m[ids[k]]))
  }

  /** The first two elements of a sequence, where present, are in it. */
  lemma Heads(s: seq<nat>)
    ensures |s| > 0 ==> s[0] in s
    ensures |s| > 1 ==> s[1] in s
  {
  }

  /** An increasing sequence holding exactly one id is that id alone. */
  lemma OnlyId(ids: seq<nat>, id: nat)
    requires Increasing(ids)
    requires forall x :: x in ids <==> x == id
    ensures ids == [id]
  {
    assert id in ids;
    Heads(ids);
    assert |ids| == 1;
  }
}
