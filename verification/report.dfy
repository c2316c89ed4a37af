/**
 * The report protocol of `ereport!`, `elog!`, `pg_errfmt!`, `pg_errstart`
 * and `elog_internal`: which calls reach PostgreSQL's native error
 * functions, in which order, and how the report ends.  The native calls
 * are recorded as events; what `errstart` decides is an input.
 */
module Report {
  import opened Severity
  import opened Ints

  /** `c_bool`, a `c_char`: what the native `errstart` answers. */
  type CBool = x: int | -128 <= x < 128

  /** Why a Rust panic unwinds out of a report or a guard. */
  datatype Unwind =
    | PgError      // `panic!(PgError)`: a report at ERROR or above, originated here
    | PgReThrow    // `panic!(PgReThrow)`: a native error caught by a guard, relayed
    | NulInString  // `CString::new(..).unwrap()` on a string holding a NUL byte

  /** How a report ends: it returns to its caller, or it unwinds. */
  datatype Outcome = Finished | Unwinding(cause: Unwind)

  /** One field of a report, with its arguments already formatted. */
  datatype Field =
    | ErrCode(sqlerrcode: i32)
    | ErrMsg(text: string)
    | ErrDetail(text: string)
    | ErrHint(text: string)

  /** A call into the native error functions. */
  datatype Event =
    | ErrStart(elevel: i32, filename: string, lineno: i32)
    | Attach(field: Field)
    | ErrFinish(dummy: int)

  datatype Option<T> = None | Some(value: T)

  /** The native calls a report makes, and how it ends. */
  datatype Trace = Trace(events: seq<Event>, outcome: Outcome)

  /** The calls made for the fields up to the first one that fails, and whether none failed. */
  datatype Attached = Attached(events: seq<Event>, ok: bool)

  /** `CString::new` refuses every string that holds a NUL byte. */
  predicate HasNul(s: string)
  {
    '\0' in s
  }

  /** `errcode` takes its integer as is; every other field must convert to a C string. */
  predicate Encodable(f: Field)
  {
    f.ErrCode? || !HasNul(f.text)
  }

  /** One attach call per field, in the written order. */
  function Attachments(fields: seq<Field>): (evs: seq<Event>)
    ensures |evs| == |fields|
    ensures forall i :: 0 <= i < |fields| ==> evs[i] == Attach(fields[i])
  {
    seq(|fields|, i requires 0 <= i < |fields| => Attach(fields[i]))
  }

  /**
   * `pg_errstart`: converting the file name to a C string may panic
   * (None); otherwise `errstart` is called and its c_bool is read as
   * "proceed" exactly when it is nonzero.
   */
  function PgErrstartResult(filename: string, errstart: CBool): (proceed: Option<bool>)
    ensures proceed.None? <==> HasNul(filename)
    ensures proceed == Some(false) <==> !HasNul(filename) && errstart == 0
    ensures proceed == Some(true) <==> !HasNul(filename) && errstart != 0
  {
    if HasNul(filename) then None
    else if errstart == 0 then Some(false)
    else Some(true)
  }

  /**
   * The repeated `pg_errfmt!` of `ereport!`: each field is attached in
   * turn; the first text field holding a NUL panics before its call, and
   * the fields before it stay attached.
   */
  function AttachFields(fields: seq<Field>): (r: Attached)
    ensures |r.events| <= |fields|
    ensures forall i :: 0 <= i < |r.events| ==> r.events[i] == Attach(fields[i])
    ensures forall i :: 0 <= i < |r.events| ==> Encodable(fields[i])
    ensures r.ok <==> AllEncodable(fields)
    ensures r.ok ==> |r.events| == |fields|
    ensures !r.ok ==> |r.events| < |fields| && !Encodable(fields[|r.events|])
  {
    if fields == [] then Attached([], true)
    else if !Encodable(fields[0]) then Attached([], false)
    else
      var rest := AttachFields(fields[1..]);
      Attached([Attach(fields[0])] + rest.events, rest.ok)
  }

  /**
   * `ereport!(elevel, (field, ...))`: start the report; stop silently if
   * `errstart` declines; attach each field; then raise `PgError` at ERROR
   * and above, or call `errfinish(0)` below it.
   */
  function EreportTrace(elevel: i32, filename: string, lineno: u32, errstart: CBool,
                        fields: seq<Field>): (t: Trace)
    ensures t.events == [] <==> HasNul(filename)
    ensures t.events != [] ==> t.events[0] == ErrStart(elevel, filename, AsI32(lineno))
    ensures |t.events| <= |fields| + 2
    ensures t.outcome != Unwinding(PgReThrow)
  {
    match PgErrstartResult(filename, errstart)
    case None => Trace([], Unwinding(NulInString))
    case Some(proceed) =>
      var start := ErrStart(elevel, filename, AsI32(lineno));
      if !proceed then Trace([start], Finished)
      else
        var rest := ProceedTrace(elevel, fields);
        Trace([start] + rest.events, rest.outcome)
  }

  /** What a report does once `errstart` has said to proceed. */
  function ProceedTrace(elevel: i32, fields: seq<Field>): (t: Trace)
    ensures |t.events| <= |fields| + 1
    ensures t.outcome == Finished <==> AllEncodable(fields) && !Diverts(elevel)
    ensures t.outcome != Unwinding(PgReThrow)
  {
    var a := AttachFields(fields);
    if !a.ok then Trace(a.events, Unwinding(NulInString))
    else if Diverts(elevel) then Trace(a.events, Unwinding(PgError))
    else Trace(a.events + [ErrFinish(0)], Finished)
  }

  /**
   * `elog_internal`: both strings are converted first (either may panic);
   * then `errstart` is called and its answer ignored, the message and the
   * fixed hint "thehint" are attached, and the report raises or finishes.
   */
  function ElogInternalTrace(filename: string, lineno: u32, elevel: i32, fmt: string,
                             errstart: CBool): (t: Trace)
    ensures t.events == [] <==> HasNul(filename) || HasNul(fmt)
    ensures t.events != [] ==> |t.events| == (if Diverts(elevel) then 3 else 4)
    ensures t.outcome != Unwinding(PgReThrow)
  {
    if HasNul(filename) || HasNul(fmt) then Trace([], Unwinding(NulInString))
    else
      var calls := [ErrStart(elevel, filename, AsI32(lineno)), Attach(ErrMsg(fmt)), Attach(ErrHint("thehint"))];
      if Diverts(elevel) then Trace(calls, Unwinding(PgError))
      else Trace(calls + [ErrFinish(0)], Finished)
  }

  /** No field is refused by `CString::new`. */
  predicate AllEncodable(fields: seq<Field>)
  {
    forall i :: 0 <= i < |fields| ==> Encodable(fields[i])
  }

  /** A report that `errstart` declines makes no call after it: no field, no finish, no raise. */
  lemma SuppressedReportHasNoEffect(elevel: i32, filename: string, lineno: u32, fields: seq<Field>)
    requires !HasNul(filename)
    ensures EreportTrace(elevel, filename, lineno, 0, fields)
         == Trace([ErrStart(elevel, filename, AsI32(lineno))], Finished)
  {
  }

  /**
   * A report that proceeds attaches its fields in the written order and then
   * either finishes (below ERROR) or raises `PgError` (ERROR and above).
   */
  lemma ProceedingReportProtocol(elevel: i32, filename: string, lineno: u32, errstart: CBool,
                                 fields: seq<Field>)
    requires !HasNul(filename) && errstart != 0 && AllEncodable(fields)
    ensures var t := EreportTrace(elevel, filename, lineno, errstart, fields);
      t.events == [ErrStart(elevel, filename, AsI32(lineno))] + Attachments(fields)
                  + (if Diverts(elevel) then [] else [ErrFinish(0)]) &&
      t.outcome == (if Diverts(elevel) then Unwinding(PgError) else Finished)
  {
  }

  /**
   * Exactly one of `errfinish(0)` and a `PgError` raise ends a report that
   * proceeds with encodable fields, never both, and never a relay; the
   * finish, when there is one, is the last call.
   */
  lemma FinishOrRaiseNeverBoth(elevel: i32, filename: string, lineno: u32, errstart: CBool,
                               fields: seq<Field>)
    ensures var t := EreportTrace(elevel, filename, lineno, errstart, fields);
      var proceeds := !HasNul(filename) && errstart != 0 && AllEncodable(fields);
      ((exists k :: 0 <= k < |t.events| && t.events[k].ErrFinish?) <==> proceeds && !Diverts(elevel)) &&
      (t.outcome == Unwinding(PgError) <==> proceeds && Diverts(elevel)) &&
      t.outcome != Unwinding(PgReThrow) &&
      (forall k :: 0 <= k < |t.events| && t.events[k].ErrFinish? ==> k == |t.events| - 1)
  {
    var t := EreportTrace(elevel, filename, lineno, errstart, fields);
    if !HasNul(filename) && errstart != 0 {
      var a := AttachFields(fields);
      assert a.ok == AllEncodable(fields);
      assert forall k :: 1 <= k < 1 + |a.events| ==> t.events[k] == a.events[k - 1];
      assert forall k :: 0 <= k < 1 + |a.events| ==> !t.events[k].ErrFinish?;
      if a.ok && !Diverts(elevel) {
        assert t.events[|t.events| - 1].ErrFinish?;
      }
    }
  }

  /**
   * The attach calls stop at the first field `CString::new` refuses, after
   * one call for each field before it; with no such field, every field is
   * attached.
   */
  lemma AttachFieldsStopsAtFirstNul(fields: seq<Field>, bad: nat)
    requires bad <= |fields| && AllEncodable(fields[..bad])
    requires bad < |fields| ==> !Encodable(fields[bad])
    ensures AttachFields(fields) == Attached(Attachments(fields[..bad]), bad == |fields|)
  {
    var a := AttachFields(fields);
    var expected := Attachments(fields[..bad]);
    forall i | 0 <= i < bad
      ensures Encodable(fields[i])
    {
      assert fields[..bad][i] == fields[i];
    }
    if bad < |fields| {
      assert !a.ok;
      assert |a.events| == bad;
    } else {
      assert fields[..bad] == fields;
    }
    assert |a.events| == |expected|;
    assert forall i :: 0 <= i < |expected| ==> a.events[i] == expected[i];
  }

  /**
   * A text field holding a NUL stops the report with a panic: the fields
   * before it stay attached, nothing after it is attached, and neither
   * `errfinish` nor `PgError` follows.
   */
  lemma NulFieldStopsReport(elevel: i32, filename: string, lineno: u32, errstart: CBool,
                            fields: seq<Field>, bad: nat)
    requires !HasNul(filename) && errstart != 0
    requires bad < |fields| && !Encodable(fields[bad]) && AllEncodable(fields[..bad])
    ensures EreportTrace(elevel, filename, lineno, errstart, fields)
         == Trace([ErrStart(elevel, filename, AsI32(lineno))] + Attachments(fields[..bad]),
                  Unwinding(NulInString))
  {
    AttachFieldsStopsAtFirstNul(fields, bad);
  }

  /** `elog!(elevel, msg)` below ERROR: start, the one message, then `errfinish(0)`. */
  lemma ElogBelowErrorFinishes(elevel: i32, filename: string, lineno: u32, errstart: CBool, msg: string)
    requires !HasNul(filename) && !HasNul(msg) && errstart != 0 && elevel < ERROR
    ensures EreportTrace(elevel, filename, lineno, errstart, [ErrMsg(msg)])
         == Trace([ErrStart(elevel, filename, AsI32(lineno)), Attach(ErrMsg(msg)), ErrFinish(0)], Finished)
  {
    ProceedingReportProtocol(elevel, filename, lineno, errstart, [ErrMsg(msg)]);
  }

  /**
   * `elog_internal` ignores what `errstart` answers: even a declined report
   * gets its message and hint attached, where `ereport!` with the same
   * fields attaches nothing.
   */
  lemma ElogInternalIgnoresErrstart(filename: string, lineno: u32, elevel: i32, fmt: string,
                                    errstart: CBool)
    requires !HasNul(filename) && !HasNul(fmt)
    ensures ElogInternalTrace(filename, lineno, elevel, fmt, errstart)
         == ElogInternalTrace(filename, lineno, elevel, fmt, 0)
    ensures var t := ElogInternalTrace(filename, lineno, elevel, fmt, 0);
      |t.events| >= 3 && t.events[1] == Attach(ErrMsg(fmt)) && t.events[2] == Attach(ErrHint("thehint"))
    ensures |EreportTrace(elevel, filename, lineno, 0, [ErrMsg(fmt), ErrHint("thehint")]).events| == 1
  {
  }

  /**
   * `elog_internal` ends like `ereport!`: exactly at ERROR and above it
   * raises `PgError` and calls no `errfinish`; exactly below ERROR it
   * finishes, with `errfinish(0)` as its last call.  A NUL in either
   * string panics before any native call.
   */
  lemma ElogInternalEnds(filename: string, lineno: u32, elevel: i32, fmt: string, errstart: CBool)
    ensures var t := ElogInternalTrace(filename, lineno, elevel, fmt, errstart);
      (HasNul(filename) || HasNul(fmt) ==> t == Trace([], Unwinding(NulInString))) &&
      (!HasNul(filename) && !HasNul(fmt) ==>
         t.events[0] == ErrStart(elevel, filename, AsI32(lineno)) &&
         (t.outcome == Unwinding(PgError) <==> Diverts(elevel)) &&
         (t.outcome == Finished <==> t.events[|t.events| - 1] == ErrFinish(0)) &&
         (t.outcome == Finished <==> !Diverts(elevel)) &&
         ((exists k :: 0 <= k < |t.events| && t.events[k].ErrFinish?) <==> !Diverts(elevel)))
  {
    var t := ElogInternalTrace(filename, lineno, elevel, fmt, errstart);
    if !HasNul(filename) && !HasNul(fmt) && !Diverts(elevel) {
      assert t.events[3].ErrFinish?;
    }
  }
}
