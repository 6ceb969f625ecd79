/** What dbEvalStep does with a script, said without any cache. */
module EvalSpec {
  import opened Basics
  import opened SqlText
  import opened CacheSpec

  /** The outcome of sqlite3_step and, when there is no row, of sqlite3_reset. */
  datatype StepResult = Row | Finished | SchemaChanged | OtherError

  /** TCL_OK, TCL_BREAK, TCL_ERROR. */
  datatype Code = RowReady | Break | Failure

  /**
   * An evaluation: the remaining text, the statement held, the number of calls
   * of sqlite3_step so far, the texts of the statements started so far, and
   * how much of the script remained when each was.
   */
  datatype Evaluation =
    Evaluation(rest: string, held: Option<string>, calls: nat, started: seq<string>, places: seq<nat>)

  /** The SQL engine as this evaluation sees it: the compiler, and the result of each call of sqlite3_step. */
  datatype Engine = Engine(prepare: Prepare, step: nat -> StepResult, legacy: bool)

  /** A retry goes back to text that the held statement came from. */
  predicate RetryAhead(e: Evaluation, previous: Option<string>)
  {
    e.held.Some? && previous.Some? ==> |previous.value| > |e.rest|
  }

  /** Taking up the next statement: dbPrepareAndBind on the remaining text. */
  function TakenUp(engine: Engine, e: Evaluation): (e': Evaluation)
    requires Splits(engine.prepare)
    ensures |e'.rest| <= |e.rest| && (TakeUpOk(engine, e) && e.rest != "" ==> |e'.rest| < |e.rest|)
  {
    var z := SkipSpaces(e.rest);
    ConsumesWithin(engine.prepare, z);
    match engine.prepare(z)
    case Failed(n) => e.(rest := z[n..])
    case Nothing(n) => e.(rest := z[n..])
    case Statement(n, _) =>
      Evaluation(z[n..], Some(z[..n]), e.calls, e.started + [z[..n]], e.places + [|e.rest|])
  }

  predicate TakeUpOk(engine: Engine, e: Evaluation)
  {
    !engine.prepare(SkipSpaces(e.rest)).Failed?
  }

  /** The loop of dbEvalStep; `previous` is zPrevSql. */
  function Loop(engine: Engine, e: Evaluation, previous: Option<string>): (Code, Evaluation)
    requires Splits(engine.prepare) && RetryAhead(e, previous)
    decreases if e.held.Some? && previous.Some? then |previous.value| else |e.rest|,
              if e.held.Some? then (if previous.Some? then 2 else 4) else if previous == Some(e.rest) then 1 else 3
  {
    if e.held.None? && e.rest == "" then (Break, e)
    else if e.held.None? then
      var previous' := if previous == Some(e.rest) then None else Some(e.rest);
      if TakeUpOk(engine, e) then Loop(engine, TakenUp(engine, e), previous')
      else (Failure, TakenUp(engine, e))
    else
      var e' := e.(held := None, calls := e.calls + 1);
      match engine.step(e.calls)
      case Row => (RowReady, e.(calls := e.calls + 1))
      case Finished => Loop(engine, e', previous)
      case SchemaChanged =>
        if engine.legacy && previous.Some? then Loop(engine, e'.(rest := previous.value), previous) else (Failure, e')
      case OtherError => (Failure, e')
  }

  /** One call of dbEvalStep. */
  function EvalStep(engine: Engine, e: Evaluation): (Code, Evaluation)
    requires Splits(engine.prepare)
  {
    Loop(engine, e, None)
  }

  /** At most `n` calls of dbEvalStep, each after a row: the script's first `n` rows. */
  function Calls(engine: Engine, e: Evaluation, n: nat): Evaluation
    requires Splits(engine.prepare)
    decreases n
  {
    if n == 0 then e
    else
      var (rc, e') := EvalStep(engine, e);
      if rc == RowReady then Calls(engine, e', n - 1) else e'
  }

  /** How many statements the loop can still start. */
  function Budget(e: Evaluation, previous: Option<string>): nat
    requires RetryAhead(e, previous)
  {
    if e.held.Some? && previous.Some? then 2 * |previous.value| - 1
    else if e.held.None? && previous == Some(e.rest) && e.rest != "" then 2 * |e.rest| - 1
    else 2 * |e.rest|
  }

  /**
   * No statement start is retried more than once: one call starts at most two
   * statements for each remaining character, and without the legacy path at most one.
   */
  lemma {:induction false} StartsAreBounded(engine: Engine, e: Evaluation, previous: Option<string>)
    requires Splits(engine.prepare) && RetryAhead(e, previous)
    ensures
      var n := |Loop(engine, e, previous).1.started| - |e.started|;
      0 <= n <= Budget(e, previous) && (!engine.legacy ==> n <= |e.rest|)
    decreases if e.held.Some? && previous.Some? then |previous.value| else |e.rest|,
              if e.held.Some? then (if previous.Some? then 2 else 4) else if previous == Some(e.rest) then 1 else 3
  {
    hide Splits;
    if e.held.None? && e.rest == "" {
    } else if e.held.None? {
      var previous' := if previous == Some(e.rest) then None else Some(e.rest);
      if TakeUpOk(engine, e) {
        StartsAreBounded(engine, TakenUp(engine, e), previous');
      }
    } else {
      var e' := e.(held := None, calls := e.calls + 1);
      match engine.step(e.calls)
      case Row =>
      case Finished => StartsAreBounded(engine, e', previous);
      case SchemaChanged =>
        if engine.legacy && previous.Some? {
          StartsAreBounded(engine, e'.(rest := previous.value), previous);
        }
      case OtherError =>
    }
  }

  // ----- Retries -----

  /** How often a statement may still be started with `k` characters of the script remaining. */
  function MostStarts(engine: Engine, e: Evaluation, previous: Option<string>, k: nat): nat
  {
    var retrying := engine.legacy && e.held.Some? && previous.Some?;
    var once := retrying || (e.held.None? && previous == Some(e.rest));
    var ahead := if retrying then |previous.value| else |e.rest|;
    if k > ahead then 0 else if !engine.legacy || (once && k == ahead) then 1 else 2
  }

  lemma PlacesTakenUp(engine: Engine, e: Evaluation, k: nat)
    requires Splits(engine.prepare) && e.held.None?
    ensures
      var e' := TakenUp(engine, e);
      multiset(e'.places)[k] == multiset(e.places)[k] + if e'.held.Some? && |e.rest| == k then 1 else 0
  {
    hide Splits, SkipSpaces;
  }

  /** Each start of a statement is retried at most once in a call, and never without the legacy path. */
  lemma {:induction false} RetriedOnce(engine: Engine, e: Evaluation, previous: Option<string>, k: nat)
    requires Splits(engine.prepare) && RetryAhead(e, previous)
    ensures
      var before, after := multiset(e.places), multiset(Loop(engine, e, previous).1.places);
      && before[k] <= after[k] <= before[k] + MostStarts(engine, e, previous, k)
      && MostStarts(engine, e, previous, k) <= if engine.legacy then 2 else 1
    decreases if e.held.Some? && previous.Some? then |previous.value| else |e.rest|,
              if e.held.Some? then (if previous.Some? then 2 else 4) else if previous == Some(e.rest) then 1 else 3
  {
    hide Splits, TakenUp, TakeUpOk;
    if e.held.None? && e.rest == "" {
    } else if e.held.None? {
      var previous' := if previous == Some(e.rest) then None else Some(e.rest);
      PlacesTakenUp(engine, e, k);
      if TakeUpOk(engine, e) {
        RetriedOnce(engine, TakenUp(engine, e), previous', k);
      }
    } else {
      var e' := e.(held := None, calls := e.calls + 1);
      match engine.step(e.calls)
      case Row =>
      case Finished => RetriedOnce(engine, e', previous, k);
      case SchemaChanged =>
        if engine.legacy && previous.Some? {
          RetriedOnce(engine, e'.(rest := previous.value), previous, k);
        }
      case OtherError =>
    }
  }

  // ----- A script, statement by statement -----

  /** The statements of a script, up to the first that does not compile. */
  function Statements(prepare: Prepare, script: string): seq<string>
    requires Splits(prepare)
    decreases |script|
  {
    if script == "" then []
    else
      var z := SkipSpaces(script);
      ConsumesWithin(prepare, z);
      match prepare(z)
      case Failed(n) => []
      case Nothing(n) => Statements(prepare, z[n..])
      case Statement(n, _) => [z[..n]] + Statements(prepare, z[n..])
  }

  /** What has been started and what is still to be: all statements of the script, in order. */
  function Course(prepare: Prepare, e: Evaluation): seq<string>
    requires Splits(prepare)
  {
    e.started + Statements(prepare, e.rest)
  }

  lemma TakingUpKeepsCourse(engine: Engine, e: Evaluation)
    requires Splits(engine.prepare) && e.rest != ""
    ensures
      var e' := TakenUp(engine, e);
      Course(engine.prepare, e) == if TakeUpOk(engine, e) then Course(engine.prepare, e') else e'.started
    ensures !TakeUpOk(engine, e) ==> TakenUp(engine, e).held == e.held
  {
    hide Splits;
    var z := SkipSpaces(e.rest);
    ConsumesWithin(engine.prepare, z);
    if z == "" {
      assert z[0..] == z;
    }
    match engine.prepare(z)
    case Failed(_) =>
    case Nothing(n) =>
    case Statement(n, _) =>
      assert e.started + ([z[..n]] + Statements(engine.prepare, z[n..]))
          == e.started + [z[..n]] + Statements(engine.prepare, z[n..]);
  }

  /** From `e` on the script was followed, as far as `e'`. */
  ghost predicate Follows(prepare: Prepare, e: Evaluation, rc: Code, e': Evaluation)
    requires Splits(prepare)
  {
    && (rc != Failure ==> Course(prepare, e') == Course(prepare, e))
    && (rc == Break ==> e'.rest == "" && e'.held.None? && e'.started == Course(prepare, e))
    && (rc == RowReady ==> e'.held.Some?)
    && (rc == Failure ==> e'.held.None? && e'.started <= Course(prepare, e))
  }

  lemma SameCourse(prepare: Prepare, e: Evaluation, e1: Evaluation, rc: Code, e': Evaluation)
    requires Splits(prepare) && Course(prepare, e) == Course(prepare, e1) && Follows(prepare, e1, rc, e')
    ensures Follows(prepare, e, rc, e')
  {
    hide Splits, Course;
  }

  lemma AtTheEnd(prepare: Prepare, e: Evaluation)
    requires Splits(prepare) && e.rest == "" && e.held.None?
    ensures Follows(prepare, e, Break, e)
  {
    hide Splits;
  }

  lemma DoesNotCompile(engine: Engine, e: Evaluation)
    requires Splits(engine.prepare) && e.rest != "" && e.held.None? && !TakeUpOk(engine, e)
    ensures Follows(engine.prepare, e, Failure, TakenUp(engine, e))
  {
    hide Splits, TakenUp, TakeUpOk, Course;
    TakingUpKeepsCourse(engine, e);
  }

  lemma StepEnds(prepare: Prepare, e: Evaluation, rc: Code, calls: nat)
    requires Splits(prepare) && rc != Break && e.held.Some?
    ensures Follows(prepare, e, rc, e.(held := if rc == RowReady then e.held else None, calls := calls))
  {
    hide Splits, Statements;
  }

  /**
   * One call of dbEvalStep, without the legacy path: statements are started in
   * the order of the script, none twice and none left out; the end of the
   * script is reported exactly when all of it has been run.
   */
  lemma {:induction false} LoopFollowsScript(engine: Engine, e: Evaluation, previous: Option<string>)
    requires Splits(engine.prepare) && RetryAhead(e, previous) && !engine.legacy
    ensures var (rc, e') := Loop(engine, e, previous); Follows(engine.prepare, e, rc, e')
    decreases |e.rest|, if e.held.Some? then 1 else 0
  {
    hide Splits, Statements, TakeUpOk, TakenUp, Follows;
    var (rc, e') := Loop(engine, e, previous);
    if e.held.None? && e.rest == "" {
      AtTheEnd(engine.prepare, e);
    } else if e.held.None? {
      var previous' := if previous == Some(e.rest) then None else Some(e.rest);
      if TakeUpOk(engine, e) {
        TakingUpKeepsCourse(engine, e);
        LoopFollowsScript(engine, TakenUp(engine, e), previous');
        SameCourse(engine.prepare, e, TakenUp(engine, e), rc, e');
      } else {
        DoesNotCompile(engine, e);
      }
    } else if engine.step(e.calls) == Finished {
      var e1 := e.(held := None, calls := e.calls + 1);
      LoopFollowsScript(engine, e1, previous);
      SameCourse(engine.prepare, e, e1, rc, e');
    } else {
      StepEnds(engine.prepare, e, rc, e.calls + 1);
    }
  }

  /** However many rows are asked for, what has been started is a beginning of the script. */
  lemma {:induction false} CallsFollowScript(engine: Engine, e: Evaluation, n: nat)
    requires Splits(engine.prepare) && !engine.legacy
    ensures Calls(engine, e, n).started <= Course(engine.prepare, e)
    decreases n
  {
    hide Splits, Loop, Statements;
    if n > 0 {
      LoopFollowsScript(engine, e, None);
      var (rc, e') := EvalStep(engine, e);
      if rc == RowReady {
        CallsFollowScript(engine, e', n - 1);
      }
    }
  }

  // ----- With the cache -----

  /** Text and remaining input are those a fresh preparation of `zIn` gives. */
  predicate AnswersFresh(prepare: Prepare, zIn: string, a: Answer)
    requires Splits(prepare)
  {
    var z := SkipSpaces(zIn);
    ConsumesWithin(prepare, z);
    match prepare(z)
    case Failed(n) => a == Answer.Error(z[n..])
    case Nothing(n) => a == NoStatement(z[n..])
    case Statement(n, _) => a.Got? && a.stmt.text == z[..n] && a.rest == z[n..]
  }

  /**
   * The cache answers what a fresh preparation would if and only if it has
   * no text that serves, or the first one was terminated or is all of the input.
   */
  lemma AcquireIsFreshIff(prepare: Prepare, c: Conn, zIn: string)
    requires Splits(prepare) && Bounded(prepare, c)
    ensures
      var z, k := SkipSpaces(zIn), Find(c.cache, SkipSpaces(zIn));
      AnswersFresh(prepare, zIn, Acquire(prepare, c, zIn).1)
      <==> k == |c.cache| || prepare(c.cache[k].text).terminated || c.cache[k].text == z
  {
    hide Splits;
    var z := SkipSpaces(zIn);
    ConsumesWithin(prepare, z);
    var k := Find(c.cache, z);
    if k < |c.cache| {
      HitIsFreshIff(prepare, c.cache[k].text, z);
    }
  }

  /** So it always does if no cached text ends in a semicolon that terminates nothing. */
  lemma AcquireIsFresh(prepare: Prepare, c: Conn, zIn: string)
    requires Splits(prepare) && Bounded(prepare, c) && CleanCache(prepare, c)
    ensures AnswersFresh(prepare, zIn, Acquire(prepare, c, zIn).1)
  {
    hide Splits, AnswersFresh, Acquire;
    AcquireIsFreshIff(prepare, c, zIn);
    var z := SkipSpaces(zIn);
    var k := Find(c.cache, z);
    if k < |c.cache| {
      assert IsStatement(prepare, c.cache[k].text) && CleanText(prepare, c.cache[k].text);
    }
  }

  /** No statement of the script ends in a semicolon that terminates nothing. */
  ghost predicate CleanScript(prepare: Prepare, script: string)
    requires Splits(prepare)
  {
    var texts := Statements(prepare, script);
    forall i | 0 <= i < |texts| :: CleanText(prepare, texts[i])
  }

  lemma CleanStep(engine: Engine, e: Evaluation)
    requires Splits(engine.prepare) && e.rest != "" && e.held.None? && CleanScript(engine.prepare, e.rest)
    requires TakeUpOk(engine, e)
    ensures
      var e' := TakenUp(engine, e);
      && CleanScript(engine.prepare, e'.rest)
      && (e'.held.Some? ==> CleanText(engine.prepare, e'.held.value))
  {
    hide Splits, CleanText;
    var z := SkipSpaces(e.rest);
    ConsumesWithin(engine.prepare, z);
    var texts := Statements(engine.prepare, e.rest);
    match engine.prepare(z)
    case Failed(_) =>
    case Nothing(_) =>
    case Statement(n, _) =>
      var more := Statements(engine.prepare, z[n..]);
      assert texts == [z[..n]] + more;
      assert texts[0] == z[..n] && forall i | 0 <= i < |more| :: more[i] == texts[i + 1];
  }
}
