/** What one call of dbEvalStep answers, in terms of what sqlite3_step gave. */
module EvalAnswers {
  import opened Basics
  import opened SqlText
  import opened EvalSpec

  /** The whole script compiles, statement after statement. */
  predicate Compiles(prepare: Prepare, script: string)
    requires Splits(prepare)
    decreases |script|
  {
    script == "" ||
      var z := SkipSpaces(script);
      ConsumesWithin(prepare, z);
      match prepare(z)
      case Failed(_) => false
      case Nothing(n) => Compiles(prepare, z[n..])
      case Statement(n, _) => Compiles(prepare, z[n..])
  }

  lemma CompilesTakenUp(engine: Engine, e: Evaluation)
    requires Splits(engine.prepare) && e.rest != ""
    ensures Compiles(engine.prepare, e.rest)
        <==> TakeUpOk(engine, e) && Compiles(engine.prepare, TakenUp(engine, e).rest)
  {
    hide Splits;
    var z := SkipSpaces(e.rest);
    ConsumesWithin(engine.prepare, z);
    if z == "" {
      assert z[0..] == z;
    }
  }

  /** Every statement that was run, finished: those of the calls from `c` on, before call `d`. */
  predicate AllFinished(engine: Engine, c: nat, d: nat)
  {
    forall i | c <= i < d :: engine.step(i) == Finished
  }

  // ----- Without the legacy path: the statements of the script, one call each -----

  /** The statements that still have to run: the one held, then those of the remaining text. */
  function Pending(prepare: Prepare, e: Evaluation): seq<string>
    requires Splits(prepare)
  {
    (if e.held.Some? then [e.held.value] else []) + Statements(prepare, e.rest)
  }

  /** Of `texts`, statements were run in order by calls `c` to `d - 1`, up to the first that did not finish. */
  ghost predicate RanThrough(engine: Engine, texts: seq<string>, c: nat, d: nat, compiles: bool, rc: Code)
  {
    && 0 <= d - c <= |texts|
    && (c < d ==> AllFinished(engine, c, d - 1))
    && rc == (
         if AllFinished(engine, c, d) then (if compiles then Break else Failure)
         else if engine.step(d - 1) == Row then RowReady
         else Failure
       )
    && (AllFinished(engine, c, d) ==> d - c == |texts|)
  }

  /** From `e` to `e'` pending statements were run, one call each; those not held before were started. */
  ghost predicate Ran(engine: Engine, e: Evaluation, rc: Code, e': Evaluation)
    requires Splits(engine.prepare)
  {
    var texts, h, n := Pending(engine.prepare, e), if e.held.Some? then 1 else 0, e'.calls - e.calls;
    && RanThrough(engine, texts, e.calls, e'.calls, Compiles(engine.prepare, e.rest), rc)
    && h <= n
    && e'.started == e.started + texts[h..n]
    && e'.held == if rc == RowReady && n > 0 then Some(texts[n - 1]) else None
  }

  lemma PendingTakenUp(engine: Engine, e: Evaluation)
    requires Splits(engine.prepare) && e.rest != "" && e.held.None?
    ensures
      var e' := TakenUp(engine, e);
      && Pending(engine.prepare, e) == (if TakeUpOk(engine, e) then Pending(engine.prepare, e') else [])
      && e'.started == e.started + (if e'.held.Some? then [e'.held.value] else [])
      && e'.calls == e.calls && (!TakeUpOk(engine, e) ==> e'.held.None?)
  {
    hide Splits;
    var z := SkipSpaces(e.rest);
    ConsumesWithin(engine.prepare, z);
    if z == "" {
      assert z[0..] == z;
    }
    match engine.prepare(z)
    case Failed(_) =>
    case Nothing(n) =>
      assert Pending(engine.prepare, e) == Statements(engine.prepare, z[n..]);
    case Statement(n, _) =>
      assert Pending(engine.prepare, e) == [z[..n]] + Statements(engine.prepare, z[n..]);
  }

  lemma HeldIsFirst(prepare: Prepare, e: Evaluation)
    requires Splits(prepare) && e.held.Some?
    ensures Pending(prepare, e) != [] && Pending(prepare, e)[0] == e.held.value
  {
  }

  lemma RanWithin(engine: Engine, texts: seq<string>, c: nat, d: nat, compiles: bool, rc: Code)
    requires RanThrough(engine, texts, c, d, compiles, rc)
    ensures 0 <= d - c <= |texts|
  {
  }

  lemma RanAfterTakingUp(engine: Engine, e: Evaluation, rc: Code, e': Evaluation)
    requires Splits(engine.prepare) && e.rest != "" && e.held.None? && TakeUpOk(engine, e)
    requires Ran(engine, TakenUp(engine, e), rc, e')
    ensures Ran(engine, e, rc, e')
  {
    hide Splits, TakenUp, TakeUpOk, Statements, Compiles, RanThrough, Pending;
    PendingTakenUp(engine, e);
    CompilesTakenUp(engine, e);
    var e1, texts, n := TakenUp(engine, e), Pending(engine.prepare, e), e'.calls - e.calls;
    RanWithin(engine, texts, e.calls, e'.calls, Compiles(engine.prepare, e.rest), rc);
    if e1.held.Some? {
      HeldIsFirst(engine.prepare, e1);
      OneMoreStarted(e.started, texts, n, e1.held.value);
    }
  }

  lemma OneMoreStarted(started: seq<string>, texts: seq<string>, n: nat, first: string)
    requires 1 <= n <= |texts| && texts[0] == first
    ensures started + [first] + texts[1..n] == started + texts[0..n]
  {
  }

  lemma RanAfterFinishing(engine: Engine, e: Evaluation, rc: Code, e': Evaluation)
    requires Splits(engine.prepare) && e.held.Some? && engine.step(e.calls) == Finished
    requires Ran(engine, e.(held := None, calls := e.calls + 1), rc, e')
    ensures Ran(engine, e, rc, e')
  {
    hide Splits, Statements, Compiles;
    var texts, rest, n := Pending(engine.prepare, e), Statements(engine.prepare, e.rest), e'.calls - e.calls;
    assert texts == [e.held.value] + rest;
    assert rest[0..n - 1] == texts[1..n];
  }

  lemma RanNothing(engine: Engine, e: Evaluation)
    requires Splits(engine.prepare) && e.rest == "" && e.held.None?
    ensures Ran(engine, e, Break, e)
  {
    hide Splits;
  }

  lemma RanIntoError(engine: Engine, e: Evaluation)
    requires Splits(engine.prepare) && e.rest != "" && e.held.None? && !TakeUpOk(engine, e)
    ensures Ran(engine, e, Failure, TakenUp(engine, e))
  {
    hide Splits, TakenUp, TakeUpOk;
    PendingTakenUp(engine, e);
    CompilesTakenUp(engine, e);
  }

  lemma RanOnce(engine: Engine, e: Evaluation)
    requires Splits(engine.prepare) && e.held.Some? && engine.step(e.calls) != Finished
    ensures
      var rc := if engine.step(e.calls) == Row then RowReady else Failure;
      Ran(engine, e, rc, e.(held := if rc == RowReady then e.held else None, calls := e.calls + 1))
  {
    hide Splits, Statements, Compiles;
  }

  /**
   * One call of dbEvalStep, without the legacy path. Every call of sqlite3_step
   * but the last one finished its statement. There is a row if and only if the
   * last call gave one; the answer is an error if and only if the last call gave
   * an error, or all finished and a part of the text does not compile; it is the
   * end if and only if all finished and all of the text was run. Nothing is
   * started after a call that did not finish.
   */
  lemma {:induction false} LoopAnswers(engine: Engine, e: Evaluation, previous: Option<string>)
    requires Splits(engine.prepare) && RetryAhead(e, previous) && !engine.legacy
    ensures var (rc, e') := Loop(engine, e, previous); Ran(engine, e, rc, e')
    decreases |e.rest|, if e.held.Some? then 1 else 0
  {
    hide Splits, Ran, TakenUp, TakeUpOk;
    var (rc, e') := Loop(engine, e, previous);
    if e.held.None? && e.rest == "" {
      RanNothing(engine, e);
    } else if e.held.None? {
      var previous' := if previous == Some(e.rest) then None else Some(e.rest);
      if TakeUpOk(engine, e) {
        LoopAnswers(engine, TakenUp(engine, e), previous');
        RanAfterTakingUp(engine, e, rc, e');
      } else {
        RanIntoError(engine, e);
      }
    } else if engine.step(e.calls) == Finished {
      LoopAnswers(engine, e.(held := None, calls := e.calls + 1), previous);
      RanAfterFinishing(engine, e, rc, e');
    } else {
      RanOnce(engine, e);
    }
  }

  // ----- With the legacy path: which calls are followed by a retry -----

  /**
   * The statement started at place `w[p]` is started again if the schema has
   * changed: unless it was started before this call of dbEvalStep (`p` is
   * negative), or has been started again already.
   */
  predicate MayRetry(engine: Engine, w: seq<nat>, p: int)
  {
    engine.legacy && 0 <= p < |w| && (p > 0 ==> w[p] != w[p - 1])
  }

  /** Call `i` finished its statement, or found the schema changed and the statement was started again. */
  predicate WentOn(engine: Engine, w: seq<nat>, shift: int, i: nat)
  {
    var p := i + shift;
    || engine.step(i) == Finished
    || (engine.step(i) == SchemaChanged && MayRetry(engine, w, p) && p + 1 < |w| && w[p + 1] == w[p])
  }

  /**
   * Calls `c` to `d - 1` of sqlite3_step made dbEvalStep answer `rc`. Call `i`
   * ran the statement started at place `w[i + shift]`, and each start has its call.
   */
  ghost predicate Traced(engine: Engine, w: seq<nat>, shift: int, c: nat, d: nat, compiles: bool, rc: Code)
  {
    && c <= d && |w| == d + shift
    && (forall i | c <= i < d - 1 :: WentOn(engine, w, shift, i))
    && if c == d || engine.step(d - 1) == Finished then rc == if compiles then Break else Failure
       else if engine.step(d - 1) == Row then rc == RowReady
       else rc == Failure && (engine.step(d - 1) == SchemaChanged ==> !MayRetry(engine, w, |w| - 1))
  }

  lemma MovedOn(engine: Engine, front: seq<nat>, w: seq<nat>, shift: int, i: nat)
    requires 0 <= i + shift && front != [] && (w != [] ==> w[0] != front[|front| - 1])
    ensures WentOn(engine, w, shift, i) == WentOn(engine, front + w, shift + |front|, i)
    ensures MayRetry(engine, w, i + shift) == MayRetry(engine, front + w, i + (shift + |front|))
  {
  }

  /** Another place in front, different from the next one, changes nothing. */
  lemma OneInFront(engine: Engine, p: nat, w: seq<nat>, shift: int, c: nat, d: nat, compiles: bool, rc: Code)
    requires 0 <= c + shift && (w != [] ==> w[0] != p)
    ensures Traced(engine, w, shift, c, d, compiles, rc) <==> Traced(engine, [p] + w, shift + 1, c, d, compiles, rc)
  {
    var v, moved := [p] + w, shift + 1;
    forall i | c <= i < d - 1
      ensures WentOn(engine, w, shift, i) == WentOn(engine, v, moved, i)
    {
      MovedOn(engine, [p], w, shift, i);
    }
    if c < d {
      MovedOn(engine, [p], w, shift, d - 1);
    }
  }

  /** The statement started at `p` has been started again; that it once was makes no other difference. */
  lemma TwoInFront(engine: Engine, p: nat, w: seq<nat>, shift: int, c: nat, d: nat, compiles: bool, rc: Code)
    requires c + shift == -1 && (w != [] && engine.step(c) == Finished ==> w[0] != p)
    requires Traced(engine, w, shift, c, d, compiles, rc)
    ensures Traced(engine, [p, p] + w, shift + 2, c, d, compiles, rc)
  {
    var v, moved := [p, p] + w, shift + 2;
    if c < d - 1 {
      assert WentOn(engine, w, shift, c);
    }
    forall i | c < i < d - 1
      ensures WentOn(engine, v, moved, i)
    {
      assert WentOn(engine, w, shift, i);
      MovedOn(engine, [p, p], w, shift, i);
    }
    if c < d - 1 {
      MovedOn(engine, [p, p], w, shift, d - 1);
    }
  }

  /** A call in front that was gone on from. */
  lemma CallInFront(engine: Engine, w: seq<nat>, shift: int, c: nat, d: nat, compiles: bool, rc: Code)
    requires Traced(engine, w, shift, c + 1, d, compiles, rc) && WentOn(engine, w, shift, c)
    requires c + 1 == d ==> engine.step(c) == Finished
    ensures Traced(engine, w, shift, c, d, compiles, rc)
  {
  }

  /** A retry goes back to text that the held statement was cut from. */
  predicate CutFrom(prepare: Prepare, previous: string, rest: string)
  {
    var z := SkipSpaces(previous);
    var p := prepare(z);
    p.Statement? && p.n <= |z| && rest == z[p.n..]
  }

  /** What is true of `previous` each time the loop is entered. */
  predicate Retriable(prepare: Prepare, e: Evaluation, previous: Option<string>)
  {
    previous.Some? ==>
      if e.held.Some? then CutFrom(prepare, previous.value, e.rest) && |e.rest| < |previous.value|
      else if previous.value == e.rest then prepare(SkipSpaces(e.rest)).Statement?
      else |e.rest| < |previous.value|
  }

  function Places(e: Evaluation, previous: Option<string>, e': Evaluation): seq<nat>
    requires |e.places| <= |e'.places|
  {
    (if previous.Some? then [|previous.value|] else []) + e'.places[|e.places|..]
  }

  ghost predicate Went(engine: Engine, e: Evaluation, previous: Option<string>, rc: Code, e': Evaluation)
    requires Splits(engine.prepare)
  {
    && e.places <= e'.places
    && var shift := (if previous.Some? then 1 else 0) - (if e.held.Some? then 1 else 0) - e.calls;
    && Traced(engine, Places(e, previous, e'), shift, e.calls, e'.calls, Compiles(engine.prepare, e.rest), rc)
    // The next start after the held statement, if that finishes, is in the remaining text.
    && (|e.places| < |e'.places| && (e.held.Some? ==> engine.step(e.calls) == Finished) ==>
          e'.places[|e.places|] <= |e.rest|)
    // A retry starts its statement.
    && (e.held.None? && previous == Some(e.rest) ==> |e.places| < |e'.places| && e'.places[|e.places|] == |e.rest|)
  }

  lemma {:induction false} LoopRetries(engine: Engine, e: Evaluation, previous: Option<string>)
    requires Splits(engine.prepare) && RetryAhead(e, previous) && Retriable(engine.prepare, e, previous)
    ensures var (rc, e') := Loop(engine, e, previous); Went(engine, e, previous, rc, e')
    decreases if e.held.Some? && previous.Some? then |previous.value| else |e.rest|,
              if e.held.Some? then (if previous.Some? then 2 else 4) else if previous == Some(e.rest) then 1 else 3
  {
    hide Splits, Went, TakenUp, TakeUpOk, CutFrom;
    var (rc, e') := Loop(engine, e, previous);
    if e.held.None? && e.rest == "" {
      WentNowhere(engine, e, previous);
    } else if e.held.None? {
      var previous' := if previous == Some(e.rest) then None else Some(e.rest);
      RetriableTakenUp(engine, e, previous);
      if TakeUpOk(engine, e) {
        LoopRetries(engine, TakenUp(engine, e), previous');
        if previous == Some(e.rest) {
          WentAgain(engine, e, rc, e');
        } else {
          WentAfterTakingUp(engine, e, previous, rc, e');
        }
      } else {
        WentIntoError(engine, e, previous);
      }
    } else {
      var e1 := e.(held := None, calls := e.calls + 1);
      match engine.step(e.calls)
      case Finished =>
        LoopRetries(engine, e1, previous);
        WentOnFinished(engine, e, previous, rc, e');
      case SchemaChanged =>
        if engine.legacy && previous.Some? {
          GoingBack(engine, e, previous.value);
          LoopRetries(engine, e1.(rest := previous.value), previous);
          WentBack(engine, e, previous.value, rc, e');
        } else {
          WentOnce(engine, e, previous);
        }
      case _ => WentOnce(engine, e, previous);
    }
  }

  lemma WentNowhere(engine: Engine, e: Evaluation, previous: Option<string>)
    requires Splits(engine.prepare) && e.rest == "" && e.held.None? && Retriable(engine.prepare, e, previous)
    ensures Went(engine, e, previous, Break, e)
  {
    hide Splits;
    assert previous != Some(e.rest) by {
      ConsumesWithin(engine.prepare, SkipSpaces(e.rest));
    }
  }

  lemma RetriableTakenUp(engine: Engine, e: Evaluation, previous: Option<string>)
    requires Splits(engine.prepare) && e.rest != "" && e.held.None? && Retriable(engine.prepare, e, previous)
    ensures
      var previous' := if previous == Some(e.rest) then None else Some(e.rest);
      && (TakeUpOk(engine, e) ==> Retriable(engine.prepare, TakenUp(engine, e), previous'))
      && (previous == Some(e.rest) ==> TakeUpOk(engine, e) && TakenUp(engine, e).held.Some?)
  {
    hide Splits;
    ConsumesWithin(engine.prepare, SkipSpaces(e.rest));
  }

  lemma WentIntoError(engine: Engine, e: Evaluation, previous: Option<string>)
    requires Splits(engine.prepare) && e.rest != "" && e.held.None? && !TakeUpOk(engine, e)
    requires previous != Some(e.rest)
    ensures Went(engine, e, previous, Failure, TakenUp(engine, e))
  {
    hide Splits;
    CompilesTakenUp(engine, e);
  }

  lemma WentAgain(engine: Engine, e: Evaluation, rc: Code, e': Evaluation)
    requires Splits(engine.prepare) && e.rest != "" && e.held.None? && TakeUpOk(engine, e)
    requires TakenUp(engine, e).held.Some? && Went(engine, TakenUp(engine, e), None, rc, e')
    ensures Went(engine, e, Some(e.rest), rc, e')
  {
    hide Splits, SkipSpaces, Traced, Compiles;
    CompilesTakenUp(engine, e);
    var e1, r := TakenUp(engine, e), |e.rest|;
    var w := Places(e1, None, e');
    TwoInFront(engine, r, w, -1 - e.calls, e.calls, e'.calls, Compiles(engine.prepare, e.rest), rc);
    assert Places(e, Some(e.rest), e') == [r, r] + w;
  }

  lemma WentAfterTakingUp(engine: Engine, e: Evaluation, previous: Option<string>, rc: Code, e': Evaluation)
    requires Splits(engine.prepare) && e.rest != "" && e.held.None? && TakeUpOk(engine, e)
    requires previous.Some? ==> |e.rest| < |previous.value|
    requires Went(engine, TakenUp(engine, e), Some(e.rest), rc, e')
    ensures Went(engine, e, previous, rc, e')
  {
    hide Splits, SkipSpaces, Traced, Compiles;
    CompilesTakenUp(engine, e);
    var e1, r, compiles := TakenUp(engine, e), |e.rest|, Compiles(engine.prepare, e.rest);
    var w := Places(e, None, e');
    var w1 := Places(e1, Some(e.rest), e');
    if e1.held.Some? {
      assert w1 == w;
    } else {
      assert w1 == [r] + w;
      OneInFront(engine, r, w, 0 - e.calls, e.calls, e'.calls, compiles, rc);
    }
    if previous.Some? {
      OneInFront(engine, |previous.value|, w, 0 - e.calls, e.calls, e'.calls, compiles, rc);
      assert Places(e, previous, e') == [|previous.value|] + w;
    }
  }

  lemma WentOnFinished(engine: Engine, e: Evaluation, previous: Option<string>, rc: Code, e': Evaluation)
    requires Splits(engine.prepare) && e.held.Some? && engine.step(e.calls) == Finished
    requires Went(engine, e.(held := None, calls := e.calls + 1), previous, rc, e')
    ensures Went(engine, e, previous, rc, e')
  {
    hide Splits, Traced, Compiles;
    var shift := (if previous.Some? then 0 else -1) - e.calls;
    CallInFront(engine, Places(e, previous, e'), shift, e.calls, e'.calls, Compiles(engine.prepare, e.rest), rc);
  }

  lemma GoingBack(engine: Engine, e: Evaluation, previous: string)
    requires Splits(engine.prepare) && CutFrom(engine.prepare, previous, e.rest)
    ensures Compiles(engine.prepare, previous) == Compiles(engine.prepare, e.rest)
    ensures engine.prepare(SkipSpaces(previous)).Statement?
  {
    hide Splits;
    ConsumesWithin(engine.prepare, SkipSpaces(previous));
  }

  lemma WentBack(engine: Engine, e: Evaluation, previous: string, rc: Code, e': Evaluation)
    requires Splits(engine.prepare) && e.held.Some? && engine.step(e.calls) == SchemaChanged && engine.legacy
    requires Compiles(engine.prepare, previous) == Compiles(engine.prepare, e.rest)
    requires Went(engine, e.(held := None, calls := e.calls + 1, rest := previous), Some(previous), rc, e')
    ensures Went(engine, e, Some(previous), rc, e')
  {
    hide Splits, Compiles;
    var w := Places(e, Some(previous), e');
    CallInFront(engine, w, 0 - e.calls, e.calls, e'.calls, Compiles(engine.prepare, e.rest), rc);
  }

  lemma WentOnce(engine: Engine, e: Evaluation, previous: Option<string>)
    requires Splits(engine.prepare) && e.held.Some? && engine.step(e.calls) != Finished
    requires engine.step(e.calls) == SchemaChanged ==> !engine.legacy || previous.None?
    ensures
      var rc := if engine.step(e.calls) == Row then RowReady else Failure;
      Went(engine, e, previous, rc, e.(held := if rc == RowReady then e.held else None, calls := e.calls + 1))
  {
    hide Splits, Compiles;
  }

  /**
   * One call of dbEvalStep, with the legacy path or without. Every call of
   * sqlite3_step but the last one finished its statement, or found the schema
   * changed and was followed by a retry of that statement; there is a retry if
   * and only if the statement was started in this call for the first time. The
   * last call gives the answer, and nothing is started after it.
   */
  lemma EvalStepRetries(engine: Engine, e: Evaluation)
    requires Splits(engine.prepare)
    ensures
      var (rc, e') := EvalStep(engine, e);
      && e.places <= e'.places
      && Traced(engine, e'.places[|e.places|..], 0 - e.calls - (if e.held.Some? then 1 else 0), e.calls, e'.calls,
                Compiles(engine.prepare, e.rest), rc)
  {
    hide Splits, Traced, Compiles;
    LoopRetries(engine, e, None);
    var e' := EvalStep(engine, e).1;
    assert Places(e, None, e') == e'.places[|e.places|..];
  }
}
