/**
 * The exception-stack guard `longjmp_panic!($e)`.  It saves the two
 * process-wide pointers `PG_exception_stack` and `error_context_stack`,
 * installs its own jump buffer, runs `$e`, and restores both pointers when
 * `$e` returns or when a native error jumps back to its buffer (in which
 * case it panics with `PgReThrow`).
 *
 * Pointers are addresses (naturals).  A guard's local `sigjmp_buf` gets
 * the address `nextFrame`, which no live pointer holds yet.  The body `$e`
 * is reduced to the steps that touch the error machinery.
 */
module Guard {
  import opened Ints
  import opened Report

  /** The expression a guard protects. */
  datatype Body =
    | Value(v: int)                  // plain Rust code yielding v
    | Ereport(elevel: i32, filename: string, lineno: u32, errstart: CBool, fields: seq<Field>)
                                     // an `ereport!`; yields 0 when it returns
    | NativeRaise(context: nat)      // a native call that raises an error: with its own context
                                     // callback `context` pushed, it jumps to `*PG_exception_stack`
    | Guarded(inner: Body)           // a nested `longjmp_panic!(inner)`
    | Then(first: Body, rest: Body)  // `first; rest`

  /** How running a body ends. */
  datatype Exit =
    | Returned(value: int)  // normal completion
    | Unwound(cause: Unwind) // a Rust panic
    | Jumped(target: nat)   // a native `siglongjmp` to the jump buffer at `target`

  /**
   * The native state the bridge touches: the two global pointers, the next
   * free stack address for a jump buffer, the native error calls made so
   * far, and the frames (by buffer address) whose saved pointers have been
   * written back, in the order of writing.
   */
  datatype World = World(exceptionStack: nat, contextStack: nat, nextFrame: nat,
                         log: seq<Event>, restored: seq<nat>)

  /**
   * How a guard treats a Rust panic escaping its body: `AsWritten` lets it
   * unwind without restoring the pointers; `RestoreOnUnwind` restores them
   * first (see the findings in the README).
   */
  datatype Discipline = AsWritten | RestoreOnUnwind

  /** The world a guard's body starts in: its own buffer installed at a new address. */
  function Inside(w: World): (w': World)
    ensures w'.exceptionStack == w.nextFrame && w'.nextFrame == w.nextFrame + 1
    ensures w'.contextStack == w.contextStack && w'.log == w.log && w'.restored == w.restored
  {
    w.(exceptionStack := w.nextFrame, nextFrame := w.nextFrame + 1)
  }

  /** Both global pointers hold the same values in the two worlds. */
  predicate SamePointers(w: World, w': World)
  {
    w'.exceptionStack == w.exceptionStack && w'.contextStack == w.contextStack
  }

  /**
   * `w'` is a later state of `w`: addresses only grow, native calls and
   * restorations are only appended, and every restoration appended is of a
   * frame opened in between.
   */
  predicate Later(w: World, w': World)
  {
    && w.nextFrame <= w'.nextFrame
    && |w.log| <= |w'.log| && w'.log[..|w.log|] == w.log
    && |w.restored| <= |w'.restored| && w'.restored[..|w.restored|] == w.restored
    && forall k :: |w.restored| <= k < |w'.restored| ==> w.nextFrame <= w'.restored[k] < w'.nextFrame
  }

  /**
   * Running a body outside any new guard.  A normal return leaves both
   * pointers as they were (so does an unwinding under `RestoreOnUnwind`);
   * a native error jumps to whatever buffer `PG_exception_stack` held when
   * the body began.
   */
  function Exec(b: Body, w: World, d: Discipline): (r: (Exit, World))
    ensures r.0.Returned? ==> SamePointers(w, r.1)
    ensures d == RestoreOnUnwind && r.0.Unwound? ==> SamePointers(w, r.1)
    ensures r.0.Jumped? ==> r.0.target == w.exceptionStack
    decreases b, 0
  {
    match b
    case Value(v) => (Returned(v), w)
    case Ereport(elevel, filename, lineno, errstart, fields) =>
      var t := EreportTrace(elevel, filename, lineno, errstart, fields);
      var w1 := w.(log := w.log + t.events);
      if t.outcome.Finished? then (Returned(0), w1) else (Unwound(t.outcome.cause), w1)
    case NativeRaise(context) => (Jumped(w.exceptionStack), w.(contextStack := context))
    case Guarded(inner) => LongjmpPanic(inner, w, d)
    case Then(first, rest) =>
      var (e1, w1) := Exec(first, w, d);
      if e1.Returned? then Exec(rest, w1, d) else (e1, w1)
  }

  /** `w'` after the guard entered in `w` writes its saved pointers back. */
  function RestoredFrom(w': World, w: World): (r: World)
    ensures SamePointers(w, r) && r.nextFrame == w'.nextFrame && r.log == w'.log
    ensures r.restored == w'.restored + [w.nextFrame]
  {
    w'.(exceptionStack := w.exceptionStack, contextStack := w.contextStack,
        restored := w'.restored + [w.nextFrame])
  }

  /**
   * Whether the guard around `b` writes the saved pointers back: when its
   * body returns, when a native error jumps back to it, and, under
   * `RestoreOnUnwind`, when its body panics.
   */
  predicate Restores(b: Body, w: World, d: Discipline)
    decreases b, 1
  {
    var e := Exec(b, Inside(w), d).0;
    e.Returned? || e.Jumped? || d == RestoreOnUnwind
  }

  /**
   * `longjmp_panic!(b)`.  The body runs once, under the guard's own
   * buffer.  If it returns, both pointers are restored and its value is
   * returned.  If a native error jumps back (sigsetjmp returns nonzero),
   * both pointers are restored and the guard panics with `PgReThrow`.  A
   * Rust panic from the body passes through with its cause unchanged.
   * No native jump ever escapes a guard, and whenever the guard restores,
   * its own frame is restored last, after every frame opened inside it.
   */
  function LongjmpPanic(b: Body, w: World, d: Discipline): (r: (Exit, World))
    ensures !r.0.Jumped?
    ensures Restores(b, w, d) ==> SamePointers(w, r.1)
    decreases b, 2
  {
    var (e, w1) := Exec(b, Inside(w), d);
    var back := RestoredFrom(w1, w);
    match e
    case Jumped(_) => (Unwound(PgReThrow), back)
    case Returned(v) => (Returned(v), back)
    case Unwound(cause) => if d == RestoreOnUnwind then (e, back) else (e, w1)
  }

  /**
   * Normal path: the body ran once, under the guard's own buffer, and
   * returned; the guard returns the body's value with both pointers
   * restored and everything else the body did kept.
   */
  lemma NormalPath(b: Body, w: World, d: Discipline)
    requires Exec(b, Inside(w), d).0.Returned?
    ensures var (e, w') := Exec(b, Inside(w), d);
      LongjmpPanic(b, w, d) == (e, RestoredFrom(w', w))
  {
  }

  /**
   * Jump path: a native error jumped back to the guard's buffer; the body is
   * not run again, both pointers are restored once, and the guard relays the
   * error as `PgReThrow`.
   */
  lemma JumpPath(b: Body, w: World, d: Discipline)
    requires Exec(b, Inside(w), d).0.Jumped?
    ensures var (e, w') := Exec(b, Inside(w), d);
      e.target == w.nextFrame && LongjmpPanic(b, w, d) == (Unwound(PgReThrow), RestoredFrom(w', w))
  {
  }

  /**
   * Panic path: a Rust panic from the body passes through with its cause
   * unchanged; as written the pointers are left as the body left them.
   */
  lemma UnwindPath(b: Body, w: World, d: Discipline)
    requires Exec(b, Inside(w), d).0.Unwound?
    ensures var (e, w') := Exec(b, Inside(w), d);
      LongjmpPanic(b, w, d) == (e, if d == RestoreOnUnwind then RestoredFrom(w', w) else w')
  {
  }

  /** `n` guards nested directly inside one another around `core`; no guard when `n` is 0. */
  function Tower(n: nat, core: Body): Body
  {
    if n == 0 then core else Guarded(Tower(n - 1, core))
  }

  /** The frame addresses `top + n - 1`, ..., `top + 1`, `top`: innermost first. */
  function Countdown(top: nat, n: nat): (s: seq<nat>)
    ensures |s| == n
    decreases n
  {
    if n == 0 then [] else Countdown(top + 1, n - 1) + [top]
  }

  /**
   * A guard keeps an error it originated apart from one it relays: it
   * reports `PgError` exactly when its body raised `PgError`, and
   * `PgReThrow` exactly when a native error jumped back to it or its body
   * relayed one already; a normal return passes the body's value on.
   */
  lemma GuardKeepsOriginAndRelayApart(b: Body, w: World, d: Discipline)
    ensures var e := Exec(b, Inside(w), d).0;
      var g := LongjmpPanic(b, w, d).0;
      (g == Unwound(PgError) <==> e == Unwound(PgError)) &&
      (g == Unwound(PgReThrow) <==> e.Jumped? || e == Unwound(PgReThrow)) &&
      (g.Returned? <==> e.Returned?) && (g.Returned? ==> g == e)
  {
  }

  lemma LaterTransitive(w1: World, w2: World, w3: World)
    requires Later(w1, w2) && Later(w2, w3)
    ensures Later(w1, w3)
  {
    assert w3.log[..|w1.log|] == w3.log[..|w2.log|][..|w1.log|];
    assert w3.restored[..|w1.restored|] == w3.restored[..|w2.restored|][..|w1.restored|];
    forall k | |w1.restored| <= k < |w3.restored|
      ensures w1.nextFrame <= w3.restored[k] < w3.nextFrame
    {
      if k < |w2.restored| {
        assert w3.restored[k] == w3.restored[..|w2.restored|][k];
      }
    }
  }

  /**
   * Running a body only appends: native calls already made stay made, and
   * the only frames it restores are frames of guards it opened itself.
   */
  lemma {:induction false} ExecOnlyAppends(b: Body, w: World, d: Discipline)
    ensures Later(w, Exec(b, w, d).1)
    decreases b, 0
  {
    match b
    case Value(_) =>
    case Ereport(elevel, filename, lineno, errstart, fields) =>
    case NativeRaise(_) =>
    case Guarded(inner) =>
      GuardRestoresOwnFrameLast(inner, w, d);
    case Then(first, rest) =>
      ExecOnlyAppends(first, w, d);
      var (e1, w1) := Exec(first, w, d);
      if e1.Returned? {
        ExecOnlyAppends(rest, w1, d);
        LaterTransitive(w, w1, Exec(rest, w1, d).1);
      }
  }

  /**
   * A guard only appends too, and its own frame is restored at most once:
   * when the guard restores, its frame comes last, after every frame opened
   * inside it; when it does not, its frame is not restored at all.
   */
  lemma {:induction false} GuardRestoresOwnFrameLast(b: Body, w: World, d: Discipline)
    ensures var w' := LongjmpPanic(b, w, d).1;
      && Later(w, w')
      && (Restores(b, w, d) ==> |w'.restored| > |w.restored| && w'.restored[|w'.restored| - 1] == w.nextFrame)
      && (forall k :: |w.restored| <= k < |w'.restored| - 1 ==> w'.restored[k] > w.nextFrame)
      && (!Restores(b, w, d) ==> forall k :: |w.restored| <= k < |w'.restored| ==> w'.restored[k] > w.nextFrame)
    decreases b, 2
  {
    ExecOnlyAppends(b, Inside(w), d);
    var (e, w1) := Exec(b, Inside(w), d);
    var w' := LongjmpPanic(b, w, d).1;
    if Restores(b, w, d) {
      assert w' == RestoredFrom(w1, w);
      assert w'.restored[..|w1.restored|] == w1.restored;
      assert w'.restored[..|w.restored|] == w1.restored[..|w.restored|];
      forall k | |w.restored| <= k < |w'.restored| - 1
        ensures w'.restored[k] > w.nextFrame
      {
        assert w'.restored[k] == w1.restored[k];
      }
    } else {
      assert w' == w1;
    }
  }

  lemma OccursOnlyLast(s: seq<nat>, x: nat)
    requires |s| > 0 && s[|s| - 1] == x
    requires forall k :: 0 <= k < |s| - 1 ==> s[k] > x
    ensures multiset(s)[x] == 1
  {
    var others := s[..|s| - 1];
    assert s == others + [x];
    assert x !in others;
  }

  lemma NeverOccurs(s: seq<nat>, x: nat)
    requires forall k :: 0 <= k < |s| ==> s[k] > x
    ensures multiset(s)[x] == 0
  {
    assert x !in s;
  }

  /**
   * The guard writes its own saved pointers back exactly once when it
   * restores at all, and never otherwise; a guard that restores on every
   * exit therefore restores exactly once per entry.
   */
  lemma OwnFrameRestoredAtMostOnce(b: Body, w: World, d: Discipline)
    ensures var w' := LongjmpPanic(b, w, d).1;
      |w.restored| <= |w'.restored| &&
      multiset(w'.restored[|w.restored|..])[w.nextFrame] == (if Restores(b, w, d) then 1 else 0)
    ensures d == RestoreOnUnwind ==>
      multiset(LongjmpPanic(b, w, d).1.restored[|w.restored|..])[w.nextFrame] == 1
  {
    GuardRestoresOwnFrameLast(b, w, d);
    var w' := LongjmpPanic(b, w, d).1;
    var added := w'.restored[|w.restored|..];
    assert forall k :: 0 <= k < |added| ==> added[k] == w'.restored[|w.restored| + k];
    if Restores(b, w, d) {
      OccursOnlyLast(added, w.nextFrame);
    } else {
      NeverOccurs(added, w.nextFrame);
    }
  }

  /**
   * `n` nested guards whose body returns `v` return `v` and leave both
   * pointers as they were; their frames are restored innermost first.
   */
  lemma {:induction false} NestedNormalGuardsUnwindInOrder(n: nat, v: int, w: World, d: Discipline)
    ensures Exec(Tower(n, Value(v)), w, d)
         == (Returned(v), w.(nextFrame := w.nextFrame + n, restored := w.restored + Countdown(w.nextFrame, n)))
  {
    if n > 0 {
      var inner := Tower(n - 1, Value(v));
      NestedNormalGuardsUnwindInOrder(n - 1, v, Inside(w), d);
      NormalPath(inner, w, d);
      assert w.restored + Countdown(w.nextFrame + 1, n - 1) + [w.nextFrame]
          == w.restored + Countdown(w.nextFrame, n);
    } else {
      assert w.restored + Countdown(w.nextFrame, 0) == w.restored;
    }
  }

  /**
   * With guards that restore on every exit, a native error raised under
   * `n` nested guards is caught by the innermost, relayed as `PgReThrow`
   * through the others, and every frame is restored once, innermost first,
   * leaving both pointers as they were.
   */
  lemma {:induction false} RestoringGuardsUnwindInLifoOrder(n: nat, context: nat, w: World)
    requires n > 0
    ensures Exec(Tower(n, NativeRaise(context)), w, RestoreOnUnwind)
         == (Unwound(PgReThrow),
             w.(nextFrame := w.nextFrame + n, restored := w.restored + Countdown(w.nextFrame, n)))
  {
    var inner := Tower(n - 1, NativeRaise(context));
    if n == 1 {
      JumpPath(inner, w, RestoreOnUnwind);
      assert Countdown(w.nextFrame, 1) == [w.nextFrame];
    } else {
      RestoringGuardsUnwindInLifoOrder(n - 1, context, Inside(w));
      UnwindPath(inner, w, RestoreOnUnwind);
      assert w.restored + Countdown(w.nextFrame + 1, n - 1) + [w.nextFrame]
          == w.restored + Countdown(w.nextFrame, n);
    }
  }

  /**
   * As written, a native error raised under `n` nested guards restores only
   * the innermost frame: the `PgReThrow` it panics with unwinds through the
   * outer guards without restoring, so from two guards up
   * `PG_exception_stack` is left at the second-innermost guard's buffer,
   * which no longer exists, instead of its saved value.
   */
  lemma {:induction false} AsWrittenRelayLeavesStaleBuffer(n: nat, context: nat, w: World)
    requires n > 0
    ensures Exec(Tower(n, NativeRaise(context)), w, AsWritten)
         == (Unwound(PgReThrow),
             w.(exceptionStack := if n == 1 then w.exceptionStack else w.nextFrame + n - 2,
                nextFrame := w.nextFrame + n, restored := w.restored + [w.nextFrame + n - 1]))
    ensures n >= 2 && w.exceptionStack < w.nextFrame ==>
      Exec(Tower(n, NativeRaise(context)), w, AsWritten).1.exceptionStack != w.exceptionStack
  {
    var inner := Tower(n - 1, NativeRaise(context));
    if n > 1 {
      AsWrittenRelayLeavesStaleBuffer(n - 1, context, Inside(w));
      UnwindPath(inner, w, AsWritten);
    } else {
      JumpPath(inner, w, AsWritten);
    }
  }

  /**
   * An error originated by `ereport!` at ERROR or above crosses `n` nested
   * guards as `PgError`, never turned into a relay.  As written no guard
   * restores, and `PG_exception_stack` is left at the innermost guard's
   * buffer; with guards that restore on every exit, every frame is
   * restored innermost first and both pointers are as they were.
   */
  lemma {:induction false} RaisedErrorCrossesGuardsUnchanged(
    n: nat, elevel: i32, filename: string, lineno: u32, errstart: CBool, fields: seq<Field>,
    w: World, d: Discipline)
    requires Severity.Diverts(elevel) && errstart != 0 && !HasNul(filename) && AllEncodable(fields)
    ensures var events := EreportTrace(elevel, filename, lineno, errstart, fields).events;
      Exec(Tower(n, Ereport(elevel, filename, lineno, errstart, fields)), w, d)
      == (Unwound(PgError),
          if d == RestoreOnUnwind || n == 0 then
            w.(log := w.log + events, nextFrame := w.nextFrame + n,
               restored := w.restored + Countdown(w.nextFrame, n))
          else
            w.(log := w.log + events, exceptionStack := w.nextFrame + n - 1,
               nextFrame := w.nextFrame + n))
  {
    ProceedingReportProtocol(elevel, filename, lineno, errstart, fields);
    if n == 0 {
      assert w.restored + Countdown(w.nextFrame, 0) == w.restored;
    } else {
      RaisedErrorCrossesGuardsUnchanged(n - 1, elevel, filename, lineno, errstart, fields, Inside(w), d);
      UnwindPath(Tower(n - 1, Ereport(elevel, filename, lineno, errstart, fields)), w, d);
      assert w.restored + Countdown(w.nextFrame + 1, 0) == w.restored;
      assert w.restored + Countdown(w.nextFrame + 1, n - 1) + [w.nextFrame]
          == w.restored + Countdown(w.nextFrame, n);
    }
  }
}
