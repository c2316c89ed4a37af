/**
 * The fixed scale of PostgreSQL report levels (`elevel`) and the rule that
 * decides whether a report returns to its caller or diverts control flow.
 */
module Severity {

  const DEBUG5: int := 10
  const DEBUG4: int := 11
  const DEBUG3: int := 12
  const DEBUG2: int := 13
  const DEBUG1: int := 14
  const LOG: int := 15
  const INFO: int := 17
  const NOTICE: int := 18
  const WARNING: int := 19
  const ERROR: int := 20
  const FATAL: int := 21
  const PANIC: int := 22

  /** Every named level, from the most verbose to the most severe. */
  const Scale: seq<int> :=
    [DEBUG5, DEBUG4, DEBUG3, DEBUG2, DEBUG1, LOG, INFO, NOTICE, WARNING, ERROR, FATAL, PANIC]

  /**
   * A report at `elevel` does not return normally: `ereport!` and
   * `elog_internal` raise `PgError` instead of calling `errfinish`.
   */
  predicate Diverts(elevel: int)
  {
    elevel >= ERROR
  }

  /** The scale is strictly increasing, runs from DEBUG5 to PANIC and leaves 16 unused. */
  lemma ScaleStrictlyIncreasing()
    ensures |Scale| == 12 && Scale[0] == DEBUG5 && Scale[|Scale| - 1] == PANIC
    ensures forall i, j :: 0 <= i < j < |Scale| ==> Scale[i] < Scale[j]
    ensures forall i :: 0 <= i < |Scale| ==> DEBUG5 <= Scale[i] <= PANIC && Scale[i] != 16
  {
  }

  /** Among the named levels exactly ERROR, FATAL and PANIC divert; WARNING and below finish normally. */
  lemma DivertingLevels()
    ensures forall i :: 0 <= i < |Scale| ==>
      (Diverts(Scale[i]) <==> Scale[i] == ERROR || Scale[i] == FATAL || Scale[i] == PANIC)
    ensures forall i :: 0 <= i < |Scale| && Scale[i] <= WARNING ==> !Diverts(Scale[i])
  {
  }

  /** Diversion is upward closed: a more severe report diverts whenever a less severe one does. */
  lemma DivertsUpwardClosed(lower: int, higher: int)
    requires lower <= higher && Diverts(lower)
    ensures Diverts(higher)
  {
  }
}
