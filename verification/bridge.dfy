/**
 * The bridge as the source runs it: the process-wide pointers
 * `PG_exception_stack` and `error_context_stack` are fields updated in
 * place, and every call into the native error functions is appended to a
 * log.  Each method is proved to do exactly what the functions of
 * `Report` and `Guard` say.
 */
module Bridge {
  import opened Severity
  import opened Ints
  import opened Report
  import opened Guard

  class ErrorState {
    /** `PG_exception_stack`: the address of the innermost jump buffer. */
    var exceptionStack: nat
    /** `error_context_stack`: the head of the context-callback chain. */
    var contextStack: nat
    /** The address the next guard's `local_sigjmp_buf` will occupy. */
    var nextFrame: nat
    /** The calls made into `errstart`, `errmsg`, `errdetail`, `errhint`, `errcode` and `errfinish`. */
    var log: seq<Event>
    /** The frames whose saved pointers have been written back, in order. */
    ghost var restored: seq<nat>

    ghost function State(): World
      reads this
    {
      World(exceptionStack, contextStack, nextFrame, log, restored)
    }

    constructor (exceptionStack: nat, contextStack: nat, nextFrame: nat)
      ensures State() == World(exceptionStack, contextStack, nextFrame, [], [])
    {
      this.exceptionStack := exceptionStack;
      this.contextStack := contextStack;
      this.nextFrame := nextFrame;
      log := [];
      restored := [];
    }

    /**
     * `pg_errstart`: convert the file name (panicking on a NUL), call
     * `errstart`, whose answer is `errstart`, and read its c_bool.
     */
    method PgErrstart(elevel: i32, filename: string, lineno: u32, errstart: CBool)
      returns (proceed: Option<bool>)
      modifies this`log
      ensures proceed == PgErrstartResult(filename, errstart)
      ensures log == old(log) + (if proceed.Some? then [ErrStart(elevel, filename, AsI32(lineno))] else [])
    {
      if HasNul(filename) {
        return None;
      }
      var clineno := AsI32(lineno);
      log := log + [ErrStart(elevel, filename, clineno)];
      if errstart == 0 {
        proceed := Some(false);
      } else {
        proceed := Some(true);
      }
    }

    /**
     * `pg_errfmt!`: `errcode` gets its integer directly; any other field
     * is converted to a C string first, and a NUL in it panics before the
     * call.
     */
    method PgErrfmt(field: Field) returns (ok: bool)
      modifies this`log
      ensures ok == Encodable(field)
      ensures log == old(log) + (if ok then [Attach(field)] else [])
    {
      match field
      case ErrCode(_) =>
        log := log + [Attach(field)];
        ok := true;
      case _ =>
        if HasNul(field.text) {
          ok := false;
        } else {
          log := log + [Attach(field)];
          ok := true;
        }
    }

    /**
     * The `pg_errfmt!` calls of one `ereport!`, field by field, up to the
     * first field whose text holds a NUL.
     */
    method AttachAll(fields: seq<Field>) returns (ok: bool)
      modifies this`log
      ensures var a := AttachFields(fields); ok == a.ok && log == old(log) + a.events
    {
      var i := 0;
      while i < |fields|
        invariant 0 <= i <= |fields|
        invariant AllEncodable(fields[..i])
        invariant log == old(log) + Attachments(fields[..i])
      {
        ok := PgErrfmt(fields[i]);
        if !ok {
          AttachFieldsStopsAtFirstNul(fields, i);
          return;
        }
        assert fields[..i + 1] == fields[..i] + [fields[i]];
        assert Attachments(fields[..i + 1]) == Attachments(fields[..i]) + [Attach(fields[i])];
        i := i + 1;
      }
      AttachFieldsStopsAtFirstNul(fields, i);
      ok := true;
    }

    /** The fields and the ending of an `ereport!` that proceeds. */
    method ReportFields(elevel: i32, fields: seq<Field>) returns (outcome: Outcome)
      modifies this`log
      ensures var t := ProceedTrace(elevel, fields);
        log == old(log) + t.events && outcome == t.outcome
    {
      var ok := AttachAll(fields);
      if !ok {
        return Unwinding(NulInString);
      }
      if Diverts(elevel) {
        return Unwinding(PgError);
      }
      log := log + [ErrFinish(0)];
      outcome := Finished;
    }

    /** `ereport!(elevel, (fields))`. */
    method Ereport(elevel: i32, filename: string, lineno: u32, errstart: CBool, fields: seq<Field>)
      returns (outcome: Outcome)
      modifies this`log
      ensures var t := EreportTrace(elevel, filename, lineno, errstart, fields);
        log == old(log) + t.events && outcome == t.outcome
    {
      var proceed := PgErrstart(elevel, filename, lineno, errstart);
      if proceed.None? {
        return Unwinding(NulInString);
      }
      if !proceed.value {
        return Finished;
      }
      outcome := ReportFields(elevel, fields);
    }

    /** `elog!(elevel, msg)`: an `ereport!` with the one field `errmsg(msg)`. */
    method Elog(elevel: i32, filename: string, lineno: u32, errstart: CBool, msg: string)
      returns (outcome: Outcome)
      modifies this`log
      ensures var t := EreportTrace(elevel, filename, lineno, errstart, [ErrMsg(msg)]);
        log == old(log) + t.events && outcome == t.outcome
    {
      outcome := Ereport(elevel, filename, lineno, errstart, [ErrMsg(msg)]);
    }

    /** `elog_internal(filename, lineno, elevel, fmt)`; `errstart` is what the native call answers. */
    method ElogInternal(filename: string, lineno: u32, elevel: i32, fmt: string, errstart: CBool)
      returns (outcome: Outcome)
      modifies this`log
      ensures var t := ElogInternalTrace(filename, lineno, elevel, fmt, errstart);
        log == old(log) + t.events && outcome == t.outcome
    {
      if HasNul(filename) || HasNul(fmt) {
        return Unwinding(NulInString);
      }
      log := log + [ErrStart(elevel, filename, AsI32(lineno))];
      log := log + [Attach(ErrMsg(fmt))];
      log := log + [Attach(ErrHint("thehint"))];
      if Diverts(elevel) {
        return Unwinding(PgError);
      }
      log := log + [ErrFinish(0)];
      outcome := Finished;
    }

    /** Run a guard's body. */
    method Run(b: Body, d: Discipline) returns (e: Exit)
      modifies this
      ensures (e, State()) == Exec(b, old(State()), d)
      decreases b, 0
    {
      match b
      case Value(v) =>
        e := Returned(v);
      case Ereport(elevel, filename, lineno, errstart, fields) =>
        var outcome := Ereport(elevel, filename, lineno, errstart, fields);
        e := if outcome.Finished? then Returned(0) else Unwound(outcome.cause);
      case NativeRaise(context) =>
        contextStack := context;
        e := Jumped(exceptionStack);
      case Guarded(inner) =>
        e := LongjmpPanic(inner, d);
      case Then(first, rest) =>
        e := Run(first, d);
        if e.Returned? {
          e := Run(rest, d);
        }
    }

    /**
     * `longjmp_panic!(b)`: save both pointers, install the local jump
     * buffer, run the body on the first return of `sigsetjmp`, and write
     * the saved pointers back; when a native error jumps back, write them
     * back and panic with `PgReThrow`.
     */
    method LongjmpPanic(b: Body, d: Discipline) returns (e: Exit)
      modifies this
      ensures (e, State()) == Guard.LongjmpPanic(b, old(State()), d)
      decreases b, 2
    {
      var saveExceptionStack := exceptionStack;
      var saveContextStack := contextStack;
      var localSigjmpBuf := nextFrame;
      nextFrame := nextFrame + 1;
      exceptionStack := localSigjmpBuf;
      e := Run(b, d);
      match e
      case Jumped(_) =>
        exceptionStack := saveExceptionStack;
        contextStack := saveContextStack;
        restored := restored + [localSigjmpBuf];
        e := Unwound(PgReThrow);
      case Returned(_) =>
        exceptionStack := saveExceptionStack;
        contextStack := saveContextStack;
        restored := restored + [localSigjmpBuf];
      case Unwound(_) =>
        if d == RestoreOnUnwind {
          exceptionStack := saveExceptionStack;
          contextStack := saveContextStack;
          restored := restored + [localSigjmpBuf];
        }
    }
  }
}
