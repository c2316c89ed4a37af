# Error reporting bridge of postgres-extension.rs, modelled in Dafny

`src/utils/elog.rs` connects Rust extension code to PostgreSQL's native
error reporting. This model covers four parts of it:

- **Severity scale.** The fixed report levels `DEBUG5` … `PANIC`. A report
  at `ERROR` or above diverts control flow and does not return.
- **SQLSTATE packing.** `pgsixbit` and `make_sqlstate` pack five characters
  into one integer, six bits each.
- **Report protocol.**
  - `ereport!` starts a report with `errstart`.
  - `pg_errfmt!` attaches the `errcode`, `errmsg`, `errdetail` and `errhint`
    fields.
  - The report then ends with `errfinish(0)`, or with `panic!(PgError)` at
    `ERROR` and above.
  - `elog!` is the one-message form.
  - `elog_internal` is a function form. It attaches a message and the
    fixed hint "thehint" whatever `errstart` answers.
- **Exception-stack guard.** `longjmp_panic!` saves the process-wide
  pointers `PG_exception_stack` and `error_context_stack`. It then installs
  its own `sigjmp_buf` and runs an expression `$e`. It restores the
  pointers when `$e` returns and when a native error jumps back to its
  buffer; in the second case it then panics with `PgReThrow`. A Rust panic
  from `$e` skips the restore (see Findings).

Modules:

- `Severity` (`severity.dfy`): the level constants and the diversion rule.
- `Ints` (`ints.dfy`): the u32 and i32 types and the reinterpreting cast
  from u32 to i32.
- `Sqlstate` (`sqlstate.dfy`): the six-bit packing with its u32
  wrap-around written out, its inverse, and the round trip.
- `Report` (`report.dfy`): pure functions giving the sequence of native
  calls a report makes and how it ends. What `errstart` answers is an
  input.
- `Guard` (`guard.dfy`): the pure semantics of the guard.
  - The guarded expression is reduced to the steps that touch the error
    machinery: plain values, `ereport!`, a native call that raises,
    nested guards and sequencing.
  - Each guard's jump buffer gets a new address.
  - `sigsetjmp`'s nonzero return is not an input. It happens exactly when
    a native error jumps to the address in `PG_exception_stack`, and that
    address is proved to be the innermost guard's buffer.
  - A `Discipline` parameter chooses between the guard as written and a
    guard that also restores when a Rust panic unwinds through it (see
    Findings).
- `Bridge` (`bridge.dfy`): the class `ErrorState`.
  - Its fields are the two global pointers, updated in place, and the log
    of native calls.
  - Every method is proved to produce exactly the state and result that
    the `Report` and `Guard` functions give.

## Model

| member | source | states |
|---|---|---|
| Severity.Diverts | src/utils/elog.rs:137 | The threshold test `elevel >= ERROR` itself. It has no contract of its own; `DivertingLevels` and `DivertsUpwardClosed` state its behaviour. |
| Severity.ScaleStrictlyIncreasing | src/utils/elog.rs:93-104 | The twelve levels run strictly upward from DEBUG5 (10) to PANIC (22), with 16 unused. |
| Severity.DivertingLevels | src/utils/elog.rs:37-41 | Among the named levels, exactly ERROR, FATAL and PANIC divert; WARNING and everything below it finish normally. |
| Severity.DivertsUpwardClosed | src/utils/elog.rs:137-141 | Any level above a diverting level also diverts. |
| Sqlstate.PgSixbit | src/utils/elog.rs:108-110 | The result always fits in six bits. For '0'..'o' it is the offset from '0'. |
| Sqlstate.PgSixbitWrapsModulo64 | src/utils/elog.rs:108-110 | Below '0' the u32 subtraction wraps, so a character collides with the one 64 code points above it. |
| Ints.AsI32 | src/utils/elog.rs:118 | `as i32` on a u32 lands in the i32 range, keeps the value modulo 2^32, and is the identity below 2^31. The same cast is `lineno as c_int` at lines 63 and 125. |
| Sqlstate.MakeSqlstate | src/utils/elog.rs:111-119 | A packed code is non-negative and below 2^30, so neither the u32 sum nor the i32 cast wraps. |
| Sqlstate.FieldsOfPacked | src/utils/elog.rs:112-118 | Five six-bit values summed with shifts 0, 6, 12, 18 and 24 come back out as the five six-bit fields, in order. |
| Sqlstate.MakeSqlstateRoundTrip | src/utils/elog.rs:111-119 | Unpacking a code made from five packable characters gives back those characters, first character in the lowest bits. |
| Sqlstate.MakeSqlstateInjective | src/utils/elog.rs:111-119 | Distinct codes of packable characters pack to distinct integers. |
| Sqlstate.ExternalRoutineExceptionValue | src/utils/elog.rs:121 | ERRCODE_EXTERNAL_ROUTINE_EXCEPTION is 515, and it unpacks to "38000". |
| Report.PgErrstartResult | src/utils/elog.rs:61-75 | It panics exactly when the file name holds a NUL. Otherwise it answers proceed exactly when `errstart` returned nonzero. |
| Report.AttachFields | src/utils/elog.rs:48-57 | One attach call per field, in the written order, up to the first text field holding a NUL. It succeeds exactly when no field holds one. On failure the refused field is the one right after the last call. |
| Report.AttachFieldsStopsAtFirstNul | src/utils/elog.rs:52-56 | The attach calls are exactly those for the fields before the first refused one. With no refused field, every field is attached. |
| Report.EreportTrace | src/utils/elog.rs:22-45 | The calls `ereport!` makes and how it ends. It makes no call exactly when the file name holds a NUL, `errstart` is always its first call, it makes at most two calls beyond its fields, and it never ends in `PgReThrow`. `SuppressedReportHasNoEffect`, `ProceedingReportProtocol`, `FinishOrRaiseNeverBoth` and `NulFieldStopsReport` state the rest. |
| Report.ProceedTrace | src/utils/elog.rs:33-41 | What `ereport!` does after `errstart` proceeds. It finishes exactly when every field converts and the level is below ERROR, it makes at most one call beyond the fields, and it never ends in `PgReThrow`. |
| Report.ElogInternalTrace | src/utils/elog.rs:123-143 | The calls `elog_internal` makes and how it ends. It makes no call exactly when a string holds a NUL; otherwise it makes three calls at ERROR and above and four below ERROR, and it never ends in `PgReThrow`. `ElogInternalIgnoresErrstart` and `ElogInternalEnds` state the rest. |
| Report.SuppressedReportHasNoEffect | src/utils/elog.rs:31-42 | When `errstart` declines, the only call is `errstart`: no field, no `errfinish` and no panic. |
| Report.ProceedingReportProtocol | src/utils/elog.rs:31-42 | A report that proceeds calls `errstart`, then attaches every field in order. Below ERROR it then calls `errfinish(0)`; at ERROR and above it raises `PgError` without calling `errfinish`. |
| Report.FinishOrRaiseNeverBoth | src/utils/elog.rs:37-41 | A report calls `errfinish` exactly when it proceeds below ERROR, and raises `PgError` exactly when it proceeds at ERROR or above. It never does both and never raises `PgReThrow`. `errfinish` is always the last call. |
| Report.NulFieldStopsReport | src/utils/elog.rs:52-56 | A NUL in a field's text panics before that field's call. The earlier fields stay attached, and neither `errfinish` nor `PgError` follows. |
| Report.ElogBelowErrorFinishes | src/utils/elog.rs:15-20 | `elog!` below ERROR makes three calls: `errstart`, the one `errmsg`, then `errfinish(0)`. |
| Report.ElogInternalIgnoresErrstart | src/utils/elog.rs:132-135 | `elog_internal` makes the same calls whatever `errstart` answers, and always attaches the message and the hint "thehint". `ereport!` with the same fields attaches nothing once declined. |
| Report.ElogInternalEnds | src/utils/elog.rs:123-143 | A NUL in the file name or the message panics before any native call. Otherwise `errstart` is called first. At ERROR and above it raises `PgError` and calls no `errfinish`; below ERROR it finishes, with `errfinish(0)` as its last call. Each of these holds in both directions. |
| Guard.Inside | src/utils/elog.rs:166-168 | The body starts with `PG_exception_stack` at the guard's own new buffer. The context chain, the log and the restorations are unchanged. |
| Guard.Exec | src/utils/elog.rs:169 | A body that returns normally leaves both pointers as it found them. A native error raised by a body jumps to the buffer `PG_exception_stack` held when the body began. |
| Guard.RestoredFrom | src/utils/elog.rs:175-176 | Writing back the saved values restores both pointers and records the guard's own frame as restored. |
| Guard.Restores | src/utils/elog.rs:167-176 | Which exits write the saved pointers back: a return, a native jump, and, under `RestoreOnUnwind` only, a Rust panic. It has no contract of its own; `LongjmpPanic`, `GuardRestoresOwnFrameLast` and `OwnFrameRestoredAtMostOnce` state what follows from it. |
| Guard.LongjmpPanic | src/utils/elog.rs:155-180 | No native jump escapes a guard. Whenever the guard restores, both pointers end as they were at entry. |
| Guard.NormalPath | src/utils/elog.rs:167-178 | When the body returns, the guard returns its value and restores both pointers once. Everything else the body did is kept. |
| Guard.JumpPath | src/utils/elog.rs:170-174 | A native error inside the body jumps to this guard's own buffer. The guard restores both pointers and panics with `PgReThrow`. |
| Guard.UnwindPath | src/utils/elog.rs:167-176 | A Rust panic from the body passes through with its cause unchanged. As written the pointers stay as the body left them. |
| Guard.GuardKeepsOriginAndRelayApart | src/utils/elog.rs:167-174 | The guard raises `PgError` exactly when its body did. It raises `PgReThrow` exactly when a native error jumped back to it or its body relayed one. It returns exactly when its body returned, with the same value. |
| Guard.ExecOnlyAppends | src/utils/elog.rs:164-176 | Running a body only appends native calls and restorations. Every frame it restores belongs to a guard opened during that run. |
| Guard.GuardRestoresOwnFrameLast | src/utils/elog.rs:164-176 | Whenever a guard restores, its own frame comes after every frame opened inside it. When it does not restore, its frame is not restored at all. |
| Guard.OwnFrameRestoredAtMostOnce | src/utils/elog.rs:171-176 | A guard writes its own saved pointers back exactly once when it restores and never otherwise. A guard that restores on every exit restores exactly once per entry. |
| Guard.NestedNormalGuardsUnwindInOrder | src/utils/elog.rs:164-178 | `n` nested guards around a returning body return its value with both pointers as they were. Their frames are restored innermost first. |
| Guard.RestoringGuardsUnwindInLifoOrder | src/utils/elog.rs:167-176 | With restore-on-unwind guards, a native error under `n` nested guards surfaces as `PgReThrow`, both pointers end as they were, and every frame is restored once, innermost first. |
| Guard.AsWrittenRelayLeavesStaleBuffer | src/utils/elog.rs:167-176 | As written, a native error under `n` nested guards restores only the innermost frame. From two guards up, `PG_exception_stack` is left at the second-innermost guard's buffer (for two guards, the outer guard's own) instead of its saved value. |
| Guard.RaisedErrorCrossesGuardsUnchanged | src/utils/elog.rs:37-38 | A `PgError` from `ereport!` crosses any number of guards as `PgError` and never becomes a relay. As written no guard restores. With restore-on-unwind guards, every frame is restored innermost first. |
| Bridge.ErrorState.constructor | src/utils/elog.rs:145-149 | The state starts with the given pointers, no native calls and no restorations. |
| Bridge.ErrorState.PgErrstart | src/utils/elog.rs:61-75 | Its answer is the one `Report.PgErrstartResult` gives, and it logs `errstart` exactly when the file name converts. |
| Bridge.ErrorState.PgErrfmt | src/utils/elog.rs:48-57 | It succeeds exactly when the field converts to a C string, and logs the attach call exactly then. |
| Bridge.ErrorState.AttachAll | src/utils/elog.rs:33-35 | The loop over the fields logs exactly the calls `Report.AttachFields` gives and reports its success. |
| Bridge.ErrorState.ReportFields | src/utils/elog.rs:33-41 | After `errstart` proceeds, it logs and returns what `Report.ProceedTrace` gives. |
| Bridge.ErrorState.Ereport | src/utils/elog.rs:22-45 | It logs exactly the calls `Report.EreportTrace` gives and ends the same way. |
| Bridge.ErrorState.Elog | src/utils/elog.rs:15-20 | It is `Ereport` with the single field `errmsg(msg)`. |
| Bridge.ErrorState.ElogInternal | src/utils/elog.rs:123-143 | It logs exactly the calls `Report.ElogInternalTrace` gives and ends the same way. |
| Bridge.ErrorState.Run | src/utils/elog.rs:169 | Running a body changes the fields and the result exactly as `Guard.Exec` says. |
| Bridge.ErrorState.LongjmpPanic | src/utils/elog.rs:155-180 | Saving, installing, running and restoring in place give exactly the exit and state `Guard.LongjmpPanic` gives. |

## Left out

- The native functions are left out as code. `errstart`, `errmsg`, `errdetail`, `errhint`, `errcode` and `errfinish` are recorded as log events.
- `errstart`'s answer is a parameter, because it depends on the server's logging configuration.
- `elog_start`, `elog_finish` and `pg_re_throw` are declared but never called in this file.
- Formatting is not modelled. A field carries its already formatted text.
  - `format!` and the printf-style expansion inside the native functions are not modelled.
  - Formatting is assumed not to fail. `format!` panics when an argument's `Display` or `Debug` implementation returns an error; that panic is not modelled. Only the NUL check of `CString::new` is.
- `file!()` and `line!()` in `ereport!` become the `filename` and `lineno` parameters.
- The `cfuncname` and `TEXTDOMAIN` null pointers are left out, because they do not affect the protocol.
- `sigjmp_buf` contents, the signal mask saved by `sigsetjmp`, and `siglongjmp` itself are not modelled.
  - A jump is the `Jumped` exit of a body.
  - A buffer is an address.
  - An `ErrorContextCallback` is only the address at the head of the chain.
- Line 124 converts the file name to a C string and drops the owner at once, so `errstart` receives a dangling pointer. Memory lifetime is not modelled: the model passes the file name as given.
- The unwinding runtime is not modelled. A Rust panic is the `Unwound` exit, with its payload (`PgError`, `PgReThrow`, or the `unwrap` failure of `CString::new`) as the cause. No place in the source catches such a panic. What happens when `PgError` or `PgReThrow` reaches the `extern` boundary of an extension function is outside the model.
- Macro arguments are values. In the source, `ereport!` evaluates `$elevel` twice (lines 31 and 37), and it evaluates the field arguments only after `pg_errstart` proceeds (line 34, inside the `if`). Side effects of evaluating them are not modelled.
- Concurrency is left out. The two global pointers belong to a single-threaded backend process.
- Sqlstate.PgSixbit: computes a character below '0' with u32 wrap-around. Rust's constant evaluation rejects that subtraction at compile time. The only call in the source is on "38000", where no wrap occurs.
- Two behaviours of the code that the model keeps as written:
  - The guard restores both pointers only when `$e` returns (lines 175-176) and in its jump branch (lines 171-172). A Rust panic from `$e` skips both. This is the finding below.
  - A `PgError` from `ereport!` (line 38) crosses every enclosing guard unchanged. No guard turns it into `PgReThrow`; only a native jump becomes `PgReThrow` (line 173).

## Findings

| source | as written | input that shows it | evidently intended | confidence | as-written member | corrected member |
|---|---|---|---|---|---|---|
| src/utils/elog.rs:167-176 | `longjmp_panic!` writes `PG_exception_stack` and `error_context_stack` back only after `$e` returns and in its own jump branch. A Rust panic from `$e` unwinds past both restorations. Such a panic can be `PgError` from `ereport!`, or `PgReThrow` from a nested guard. | Two nested guards around a native call that raises an error. The inner guard catches the jump, writes back its saved value, which is the outer guard's own buffer (line 168), and panics with `PgReThrow`. The outer guard is unwound without restoring, so `PG_exception_stack` is left pointing at the outer guard's `local_sigjmp_buf`, whose stack frame the unwinding has left. | The guard already restores on both exits it controls: the normal return (lines 175-176) and the jump branch (lines 171-172). The panic exit that skips the restore is the odd one out. Restoring on every exit, innermost first, leaves both pointers as they were before the outermost guard. | low to medium: the harm needs a later native error after the panic is caught, and no catch site appears in the source; not executed | Guard.AsWrittenRelayLeavesStaleBuffer | Guard.RestoringGuardsUnwindInLifoOrder |

The guard semantics `Guard.Exec` and `Guard.LongjmpPanic` take the
`Discipline` as a parameter. `Bridge.ErrorState.LongjmpPanic` takes it too.
`AsWritten` is the code as written. `RestoreOnUnwind` is the corrected
guard. Under `RestoreOnUnwind` every guard restores exactly once per entry
(`Guard.OwnFrameRestoredAtMostOnce`), and an originated error crosses
guards with all pointers restored (`Guard.RaisedErrorCrossesGuardsUnchanged`).
