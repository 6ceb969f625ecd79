/** The evaluation contexts of `tclsqlite3.c`, running on the cache. */
module Eval {
  import opened Basics
  import opened SqlText
  import opened CacheSpec
  import opened EvalSpec
  import opened StmtCache

  class DbEvalContext {
    const pDb: SqliteDb
    var zSql: string                  // remaining SQL to execute
    var pPreStmt: SqlPreparedStmt?    // current statement
    var calls: nat                    // of sqlite3_step, so far
    ghost var started: seq<string>    // texts of the statements started so far
    ghost var places: seq<nat>        // and how much of the script remained then

    ghost function State(): Evaluation
      reads this
    {
      Evaluation(zSql, if pPreStmt == null then None else Some(pPreStmt.zSql), calls, started, places)
    }

    /** The connection and this context, as values. */
    ghost function Abs(): System
      reads this`zSql, this`pPreStmt, pDb
    {
      System(pDb.Abs(), [Ctx(zSql, if pPreStmt == null then None else Some(pPreStmt.Value()))])
    }

    ghost function Mine(): multiset<nat>
      reads this`pPreStmt
    {
      if pPreStmt == null then multiset{} else multiset{pPreStmt.pStmt}
    }

    /**
     * The context, the cache and everyone else (who hold `others`) fit together:
     * each handle is in one place, and texts are whole statements.
     */
    ghost predicate Consistent(engine: Engine, others: multiset<nat>)
      reads this`pPreStmt, pDb, pDb.nodes
    {
      && (forall p | p in pDb.list :: p in pDb.nodes)
      && (pPreStmt != null ==> pPreStmt in pDb.nodes && Whole(engine.prepare, pPreStmt))
      && pDb.Valid()
      && Fits(engine.prepare, pDb.Abs(), Mine() + others)
    }

    /** Neither the cache nor the context holds a text that ends in a semicolon inside a comment. */
    ghost predicate Clean(engine: Engine)
      reads this`pPreStmt, pDb
    {
      && CleanCache(engine.prepare, pDb.Abs())
      && (pPreStmt != null ==> CleanText(engine.prepare, pPreStmt.zSql))
    }

    /** dbEvalInit. */
    constructor (pDb: SqliteDb, pSql: string)
      ensures this.pDb == pDb && State() == Evaluation(pSql, None, 0, [], []) && Mine() == multiset{}
    {
      this.pDb, zSql, pPreStmt := pDb, pSql, null;
      calls, started, places := 0, [], [];
    }

    /** Hand the current statement back to the cache, or have it finalised. */
    method LetGo(engine: Engine, discard: bool, ghost others: multiset<nat>)
      requires Consistent(engine, others) && pPreStmt != null
      modifies this`pPreStmt, pDb, pDb.nodes
      ensures Consistent(engine, others) && pPreStmt == null
      ensures pDb.nodes == old(pDb.nodes)
      ensures pDb.Abs() == Release(old(pDb.Abs()), old(pPreStmt).Value(), discard)
      ensures Abs() == System(pDb.Abs(), [Ctx(zSql, None)])
      ensures old(Clean(engine)) ==> Clean(engine)
    {
      hide Fits, Release, Handles, Values, SqliteDb.Valid, SqliteDb.Abs, CleanCache, CleanText;
      var p := pPreStmt;
      if Clean(engine) {
        ReleaseClean(engine.prepare, pDb.Abs(), p.Value(), discard);
      }
      ReleaseFits(engine.prepare, pDb.Abs(), p.Value(), discard, others);
      pPreStmt := null;
      pDb.DbReleaseStmt(p, discard);
    }

    /** Take up the next statement of the script: what a fresh preparation would give, from the cache or not. */
    method TakeUp(engine: Engine, ghost others: multiset<nat>) returns (ok: bool)
      requires Consistent(engine, others) && pPreStmt == null && zSql != ""
      requires Splits(engine.prepare) && Clean(engine) && CleanScript(engine.prepare, zSql)
      modifies this`zSql, this`pPreStmt, this`started, this`places, pDb, pDb.nodes
      ensures Consistent(engine, others)
      ensures old(pDb.nodes) <= pDb.nodes && fresh(pDb.nodes - old(pDb.nodes))
      ensures ok == TakeUpOk(engine, old(State())) && State() == TakenUp(engine, old(State()))
      ensures Abs() == Apply(engine.prepare, old(Abs()), Prepare(0))
      ensures Clean(engine) && (ok ==> CleanScript(engine.prepare, zSql))
    {
      hide Splits, CleanCache, CleanText, CleanScript, Fits, Acquire, SkipSpaces, Values, SqliteDb.Valid, SqliteDb.Abs;
      AcquireFits(engine.prepare, pDb.Abs(), zSql, others);
      AcquireIsFresh(engine.prepare, pDb.Abs(), zSql);
      AcquireClean(engine.prepare, pDb.Abs(), zSql);
      if TakeUpOk(engine, State()) {
        CleanStep(engine, State());
      }
      ghost var before := |zSql|;
      ok, zSql, pPreStmt := pDb.DbPrepareAndBind(engine.prepare, zSql);
      if pPreStmt != null {
        started, places := started + [pPreStmt.zSql], places + [before];
      }
    }

    /** sqlite3_step on the current statement, which is let go of when there is no row, and discarded if it failed. */
    method Step(engine: Engine, ghost others: multiset<nat>) returns (rcs: StepResult)
      requires Splits(engine.prepare) && Consistent(engine, others) && pPreStmt != null && Clean(engine)
      modifies this`pPreStmt, this`calls, pDb, pDb.nodes
      ensures Consistent(engine, others) && Clean(engine) && pDb.nodes == old(pDb.nodes)
      ensures rcs == engine.step(old(calls)) && calls == old(calls) + 1
      ensures if rcs == Row then pPreStmt == old(pPreStmt) else pPreStmt == null
      ensures Abs() == if rcs == Row then old(Abs()) else Apply(engine.prepare, old(Abs()), Done(0, rcs != Finished))
    {
      hide Splits, Consistent, Clean, SqliteDb.Valid, SqliteDb.Abs, Release;
      rcs := engine.step(calls);
      calls := calls + 1;
      if rcs != Row {
        LetGo(engine, rcs != Finished, others);
      }
    }

    /**
     * dbEvalStep: whatever the cache holds, it does what `EvalStep` says. The
     * cache takes the steps `ops`: of the statements that gave no row, exactly
     * those that failed are discarded.
     */
    method DbEvalStep(engine: Engine, ghost others: multiset<nat>) returns (rc: Code, ghost ops: seq<Op>)
      requires Consistent(engine, others)
      requires Splits(engine.prepare) && Clean(engine) && CleanScript(engine.prepare, zSql)
      modifies this`zSql, this`pPreStmt, this`started, this`places, this`calls, pDb, pDb.nodes
      ensures Consistent(engine, others)
      ensures old(pDb.nodes) <= pDb.nodes && fresh(pDb.nodes - old(pDb.nodes))
      ensures (rc, State()) == EvalStep(engine, old(State()))
      ensures Took(engine, old(Abs()), Abs(), old(calls), calls, ops)
      ensures Clean(engine) && (rc != Failure ==> CleanScript(engine.prepare, zSql))
    {
      hide Splits, Clean, CleanScript, Consistent, TakenUp, TakeUpOk, SqliteDb.Valid, SqliteDb.Abs, Release;
      hide Took, Apply, Loop;
      var zPrevSql: Option<string> := None;
      ops := [];
      TookNothing(engine, Abs(), calls);
      ghost var before, from := Abs(), calls;
      ghost var answer := EvalStep(engine, State());
      while zSql != "" || pPreStmt != null
        invariant Consistent(engine, others) && RetryAhead(State(), zPrevSql)
        invariant Clean(engine) && CleanScript(engine.prepare, zSql)
        invariant zPrevSql.Some? ==> CleanScript(engine.prepare, zPrevSql.value)
        invariant Loop(engine, State(), zPrevSql) == answer
        invariant Took(engine, before, Abs(), from, calls, ops)
        invariant old(pDb.nodes) <= pDb.nodes && fresh(pDb.nodes - old(pDb.nodes))
        decreases if pPreStmt != null && zPrevSql.Some? then |zPrevSql.value| else |zSql|,
                  if pPreStmt != null then (if zPrevSql.Some? then 2 else 4)
                  else if zPrevSql == Some(zSql) then 1 else 3
      {
        if pPreStmt == null {
          TookOne(engine, before, Abs(), from, calls, ops, Prepare(0));
          LoopTakesUp(engine, State(), zPrevSql);
          zPrevSql := if zPrevSql == Some(zSql) then None else Some(zSql);
          var ok := TakeUp(engine, others);
          ops := ops + [Prepare(0)];
          if !ok {
            return Failure, ops;
          }
        } else {
          TookCall(engine, before, Abs(), from, calls, ops);
          LoopCalls(engine, State(), zPrevSql);
          var rcs := Step(engine, others);
          if rcs == Row {
            return RowReady, ops;
          }
          ops := ops + [Done(0, rcs != Finished)];
          if rcs != Finished {
            if engine.legacy && rcs == SchemaChanged && zPrevSql.Some? {
              TookOne(engine, before, Abs(), from, calls, ops, Again(0, zPrevSql.value));
              AppliedAgain(engine, Abs(), zPrevSql.value);
              zSql := zPrevSql.value;
              ops := ops + [Again(0, zSql)];
              continue;
            }
            return Failure, ops;
          }
        }
      }
      LoopEnds(engine, State(), zPrevSql);
      return Break, ops;
    }

    /** dbEvalFinalize. */
    method DbEvalFinalize(engine: Engine, ghost others: multiset<nat>)
      requires Consistent(engine, others)
      modifies this`pPreStmt, pDb, pDb.nodes
      ensures Consistent(engine, others) && pPreStmt == null
      ensures pDb.Abs()
           == if old(pPreStmt) == null then old(pDb.Abs())
              else Release(old(pDb.Abs()), old(pPreStmt).Value(), false)
      ensures old(Clean(engine)) ==> Clean(engine)
    {
      if pPreStmt != null {
        LetGo(engine, false, others);
      }
    }

    /** Running a script: with the cache it starts the statements that `Calls` starts without one. */
    method RunScript(engine: Engine, n: nat, ghost others: multiset<nat>)
      requires Consistent(engine, others)
      requires Splits(engine.prepare) && Clean(engine) && CleanScript(engine.prepare, zSql)
      modifies this`zSql, this`pPreStmt, this`started, this`places, this`calls, pDb, pDb.nodes
      ensures Consistent(engine, others) && Clean(engine) && pPreStmt == null
      ensures zSql == Calls(engine, old(State()), n).rest && started == Calls(engine, old(State()), n).started
    {
      hide Splits, Clean, CleanScript, Consistent, EvalStep;
      var rows := 0;
      var rc := RowReady;
      while rows < n && rc == RowReady
        invariant Consistent(engine, others) && rows <= n
        invariant Clean(engine) && (rc == RowReady ==> CleanScript(engine.prepare, zSql))
        invariant old(pDb.nodes) <= pDb.nodes && fresh(pDb.nodes - old(pDb.nodes))
        invariant Calls(engine, old(State()), n) == if rc == RowReady then Calls(engine, State(), n - rows) else State()
      {
        ghost var ops;
        rc, ops := DbEvalStep(engine, others);
        rows := rows + 1;
      }
      DbEvalFinalize(engine, others);
    }
  }

  /** The statements let go of in a run, and whether they were discarded. */
  function DoneIn(ops: seq<Op>): seq<Op>
  {
    if ops == [] then []
    else
      var n := |ops| - 1;
      DoneIn(ops[..n]) + if ops[n].Done? then [ops[n]] else []
  }

  /** What calls `c` to `d - 1` of sqlite3_step make dbEvalStep let go of. */
  function Releases(engine: Engine, c: nat, d: nat): seq<Op>
  {
    if d <= c then []
    else
      var rcs := engine.step(d - 1);
      Releases(engine, c, d - 1) + if rcs == Row then [] else [Done(0, rcs != Finished)]
  }

  // The three cases of the loop.

  lemma LoopEnds(engine: Engine, e: Evaluation, previous: Option<string>)
    requires Splits(engine.prepare) && RetryAhead(e, previous) && e.rest == "" && e.held.None?
    ensures Loop(engine, e, previous) == (Break, e)
  {
  }

  lemma LoopTakesUp(engine: Engine, e: Evaluation, previous: Option<string>)
    requires Splits(engine.prepare) && RetryAhead(e, previous) && e.rest != "" && e.held.None?
    ensures
      var e' := TakenUp(engine, e);
      var previous' := if previous == Some(e.rest) then None else Some(e.rest);
      Loop(engine, e, previous) == if TakeUpOk(engine, e) then Loop(engine, e', previous') else (Failure, e')
  {
    hide Splits, TakenUp, TakeUpOk;
  }

  lemma LoopCalls(engine: Engine, e: Evaluation, previous: Option<string>)
    requires Splits(engine.prepare) && RetryAhead(e, previous) && e.held.Some?
    ensures
      var rcs := engine.step(e.calls);
      var e' := e.(held := None, calls := e.calls + 1);
      Loop(engine, e, previous) ==
        if rcs == Row then (RowReady, e.(calls := e.calls + 1))
        else if rcs == Finished then Loop(engine, e', previous)
        else if engine.legacy && rcs == SchemaChanged && previous.Some? then
          Loop(engine, e'.(rest := previous.value), previous)
        else (Failure, e')
  {
    hide Splits;
  }

  lemma AppliedAgain(engine: Engine, s: System, script: string)
    requires Splits(engine.prepare) && |s.ctxs| == 1
    ensures Apply(engine.prepare, s, Again(0, script)) == System(s.conn, [s.ctxs[0].(rest := script)])
  {
  }

  /** The steps `ops` lead from `s` to `s'`, and calls `c` to `d - 1` made them let go of statements. */
  predicate Took(engine: Engine, s: System, s': System, c: nat, d: nat, ops: seq<Op>)
    requires Splits(engine.prepare)
  {
    c <= d && s' == Run(engine.prepare, s, ops) && DoneIn(ops) == Releases(engine, c, d)
  }

  lemma TookNothing(engine: Engine, s: System, c: nat)
    requires Splits(engine.prepare)
    ensures Took(engine, s, s, c, c, [])
  {
    hide Splits;
  }

  lemma TookOne(engine: Engine, s: System, s': System, c: nat, d: nat, ops: seq<Op>, op: Op)
    requires Splits(engine.prepare) && Took(engine, s, s', c, d, ops) && !op.Done?
    ensures Took(engine, s, Apply(engine.prepare, s', op), c, d, ops + [op])
  {
    hide Splits, Apply;
    assert (ops + [op])[..|ops|] == ops;
  }

  lemma TookCall(engine: Engine, s: System, s': System, c: nat, d: nat, ops: seq<Op>)
    requires Splits(engine.prepare) && Took(engine, s, s', c, d, ops)
    ensures
      var op := Done(0, engine.step(d) != Finished);
      if engine.step(d) == Row then Took(engine, s, s', c, d + 1, ops)
      else Took(engine, s, Apply(engine.prepare, s', op), c, d + 1, ops + [op])
  {
    hide Splits, Apply;
    var op := Done(0, engine.step(d) != Finished);
    assert (ops + [op])[..|ops|] == ops;
  }

  /** Flushing and resizing keep everything accounted for, whoever holds what. */
  lemma ResizeFits(prepare: Prepare, c: Conn, n: int, held: multiset<nat>)
    requires Fits(prepare, c, held)
    ensures Fits(prepare, Flush(c), held) && Fits(prepare, Resize(c, n), held)
  {
    ResizeBounded(prepare, c, n);
    hide Bounded, Issued;
    assert Handles([]) == [];
  }

  ghost predicate Whole(prepare: Prepare, p: SqlPreparedStmt)
  {
    0 < p.nSql == |p.zSql| && IsStatement(prepare, p.zSql)
  }

  ghost predicate Fits(prepare: Prepare, c: Conn, held: multiset<nat>)
  {
    Bounded(prepare, c) && AccountedWith(c, held)
  }

  lemma ReleaseFits(prepare: Prepare, c: Conn, s: Stmt, discard: bool, others: multiset<nat>)
    requires Fits(prepare, c, multiset{s.handle} + others) && IsStatement(prepare, s.text)
    ensures s.handle !in Handles(c.cache)
    ensures Fits(prepare, Release(c, s, discard), multiset{} + others)
  {
    hide Release, Bounded, AccountedWith, Handles;
    HeldNotCached(c, s, others);
    ReleaseAccounts(c, s, discard, multiset{s.handle} + others, multiset{} + others);
    ReleaseBounded(prepare, c, s, discard);
  }

  lemma AcquireFits(prepare: Prepare, c: Conn, z: string, others: multiset<nat>)
    requires Splits(prepare) && Fits(prepare, c, multiset{} + others)
    ensures Bounded(prepare, c)
    ensures
      var (c', a) := Acquire(prepare, c, z);
      && Fits(prepare, c', (if a.Got? then multiset{a.stmt.handle} else multiset{}) + others)
      && (a.Got? ==> IsStatement(prepare, a.stmt.text))
  {
    hide Splits, Acquire, Bounded, AccountedWith;
    AcquireAccounts(prepare, c, z, multiset{} + others);
    AcquireBounded(prepare, c, z);
    var a := Acquire(prepare, c, z).1;
    assert multiset{} + others + HeldIn(a) == HeldIn(a) + others;
  }

  lemma HeldNotCached(c: Conn, s: Stmt, others: multiset<nat>)
    requires AccountedWith(c, multiset{s.handle} + others)
    ensures s.handle !in Handles(c.cache)
  {
    IssuedOnce(c.issued, s.handle);
    var a := multiset(Handles(c.cache));
    assert (a + (multiset{s.handle} + others) + multiset(c.finalized))[s.handle] >= a[s.handle] + 1;
  }
}
