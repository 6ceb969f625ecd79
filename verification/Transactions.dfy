/** Scripts run by nested "$db transaction" commands, and what of their writes should survive. */
module TransactionSpec {
  import opened Basics

  type Db = seq<int>

  /** The TYPE argument of the command. */
  datatype Kind = Deferred | Exclusive | Immediate | Unrecognised

  /** What a script does: it writes, or it runs a transaction of its own. */
  datatype Item = Insert(row: int) | Nested(txn: Txn)

  /** Which of a command's own statements the engine turns down (SQLITE_BUSY, an I/O error), if any. */
  datatype Refusal = Nothing | Opening | Closing

  /**
   * One "transaction ?TYPE? SCRIPT" command: the items its script gets through
   * and whether the script ends in an error. A script may catch the errors of
   * the commands it runs, so `fails` is independent of what is nested in it.
   */
  datatype Txn = Txn(kind: Option<Kind>, items: seq<Item>, fails: bool, refusal: Refusal)

  // ----- Without refusals -----

  /** The rows the first `k` items of `t` leave behind if `t` itself succeeds. */
  function Rows(t: Txn, k: nat): Db
    requires k <= |t.items|
    decreases t, k
  {
    if k == 0 then []
    else
      Rows(t, k - 1) + match t.items[k - 1] case Insert(row) => [row] case Nested(u) => Kept(u)
  }

  /** The rows of `t` none of whose enclosing scripts, up to and including `t`, failed. */
  function Kept(t: Txn): Db
    decreases t, |t.items| + 1
  {
    if t.fails || t.refusal == Opening then [] else Rows(t, |t.items|)
  }

  /** Every row written on the way, kept or not, with its nesting depth. */
  function Trace(t: Txn, k: nat, depth: nat): seq<(int, nat)>
    requires k <= |t.items|
    decreases t, k
  {
    if k == 0 then []
    else
      Trace(t, k - 1, depth) +
      match t.items[k - 1]
      case Insert(row) => [(row, depth)]
      case Nested(u) => if u.refusal == Opening then [] else Trace(u, |u.items|, depth + 1)
  }

  /** Every row written on the way, with the outcomes of all its enclosing scripts, outermost first. */
  function Written(t: Txn, k: nat, failures: seq<bool>): seq<(int, seq<bool>)>
    requires k <= |t.items|
    decreases t, k
  {
    if k == 0 then []
    else
      Written(t, k - 1, failures) +
      match t.items[k - 1]
      case Insert(row) => [(row, failures)]
      case Nested(u) => if u.refusal == Opening then [] else Written(u, |u.items|, failures + [u.fails])
  }

  /** The rows none of whose enclosing scripts failed. */
  function Unharmed(written: seq<(int, seq<bool>)>): Db
  {
    if written == [] then []
    else
      var (row, failures) := written[|written| - 1];
      Unharmed(written[..|written| - 1]) + (if true in failures then [] else [row])
  }

  lemma {:induction false} UnharmedConcat(a: seq<(int, seq<bool>)>, b: seq<(int, seq<bool>)>)
    ensures Unharmed(a + b) == Unharmed(a) + Unharmed(b)
  {
    if b == [] {
      assert a + b == a;
    } else {
      assert (a + b)[..|a + b| - 1] == a + b[..|b| - 1];
      UnharmedConcat(a, b[..|b| - 1]);
    }
  }

  /** What one item writes, with the outcomes of its enclosing scripts. */
  function WrittenBy(item: Item, failures: seq<bool>): seq<(int, seq<bool>)>
  {
    match item
    case Insert(row) => [(row, failures)]
    case Nested(u) => if u.refusal == Opening then [] else Written(u, |u.items|, failures + [u.fails])
  }

  function KeptBy(item: Item): Db
  {
    match item
    case Insert(row) => [row]
    case Nested(u) => Kept(u)
  }

  lemma OneMoreWritten(t: Txn, k: nat, failures: seq<bool>)
    requires k < |t.items|
    ensures Written(t, k + 1, failures) == Written(t, k, failures) + WrittenBy(t.items[k], failures)
    ensures Rows(t, k + 1) == Rows(t, k) + KeptBy(t.items[k])
  {
    hide Kept;
  }

  lemma NothingWritten(t: Txn, failures: seq<bool>)
    ensures Written(t, 0, failures) == [] && Rows(t, 0) == [] && Unharmed([]) == []
  {
  }

  lemma UnharmedRow(row: int, failures: seq<bool>)
    ensures Unharmed([(row, failures)]) == if true in failures then [] else [row]
  {
    assert [(row, failures)][..0] == [];
  }

  lemma {:induction false} RowsAreUnharmed(t: Txn, k: nat, failures: seq<bool>)
    requires k <= |t.items|
    ensures Unharmed(Written(t, k, failures)) == if true in failures then [] else Rows(t, k)
    decreases t, k
  {
    hide Written, Rows, Unharmed;
    NothingWritten(t, failures);
    if k > 0 {
      RowsAreUnharmed(t, k - 1, failures);
      OneMoreWritten(t, k - 1, failures);
      UnharmedConcat(Written(t, k - 1, failures), WrittenBy(t.items[k - 1], failures));
      match t.items[k - 1]
      case Insert(row) => UnharmedRow(row, failures);
      case Nested(u) => RowsAreUnharmed(u, |u.items|, failures + [u.fails]);
    }
  }

  /** A command keeps exactly the rows of scripts none of whose enclosing levels, itself included, failed. */
  lemma KeptIsUnharmed(t: Txn)
    requires t.refusal != Opening
    ensures Kept(t) == Unharmed(Written(t, |t.items|, [t.fails]))
  {
    RowsAreUnharmed(t, |t.items|, [t.fails]);
  }

  function Depths(written: seq<(int, seq<bool>)>): (d: seq<(int, nat)>)
    ensures |d| == |written|
    ensures forall i | 0 <= i < |written| :: d[i] == (written[i].0, |written[i].1|)
  {
    seq(|written|, i requires 0 <= i < |written| => (written[i].0, |written[i].1|))
  }

  lemma DepthsConcat(a: seq<(int, seq<bool>)>, b: seq<(int, seq<bool>)>)
    ensures Depths(a + b) == Depths(a) + Depths(b)
  {
  }

  function TracedBy(item: Item, depth: nat): seq<(int, nat)>
  {
    match item
    case Insert(row) => [(row, depth)]
    case Nested(u) => if u.refusal == Opening then [] else Trace(u, |u.items|, depth + 1)
  }

  lemma OneMoreTraced(t: Txn, k: nat, depth: nat)
    requires k < |t.items|
    ensures Trace(t, k + 1, depth) == Trace(t, k, depth) + TracedBy(t.items[k], depth)
  {
  }

  lemma NothingTraced(t: Txn, depth: nat)
    ensures Trace(t, 0, depth) == []
  {
  }

  /** The depths in the trace are the numbers of enclosing scripts. */
  lemma {:induction false} TraceHasDepths(t: Txn, k: nat, failures: seq<bool>)
    requires k <= |t.items|
    ensures Trace(t, k, |failures|) == Depths(Written(t, k, failures))
    decreases t, k
  {
    hide Written, Rows, Trace;
    NothingWritten(t, failures);
    NothingTraced(t, |failures|);
    if k > 0 {
      TraceHasDepths(t, k - 1, failures);
      OneMoreWritten(t, k - 1, failures);
      OneMoreTraced(t, k - 1, |failures|);
      DepthsConcat(Written(t, k - 1, failures), WrittenBy(t.items[k - 1], failures));
      if t.items[k - 1].Nested? {
        var u := t.items[k - 1].txn;
        TraceHasDepths(u, |u.items|, failures + [u.fails]);
      }
    }
  }

  // ----- With refusals -----

  /**
   * What has come of a transaction: it is alive, with these rows added; or a
   * refused closing statement has rolled it back to its start, and these rows
   * were written after that, each on its own.
   */
  datatype Outcome = Alive(rows: Db) | Lost(rows: Db)

  function Then(a: Outcome, b: Outcome): Outcome
  {
    match a
    case Alive(rows) => if b.Alive? then Alive(rows + b.rows) else b
    case Lost(rows) => Lost(rows + b.rows)
  }

  /** After the first `k` items of `t`. */
  function ItemsOutcome(t: Txn, k: nat): Outcome
    requires k <= |t.items|
    decreases t, k
  {
    if k == 0 then Alive([])
    else
      Then(ItemsOutcome(t, k - 1),
           match t.items[k - 1] case Insert(row) => Alive([row]) case Nested(u) => CommandOutcome(u))
  }

  function CommandOutcome(t: Txn): Outcome
    decreases t, |t.items| + 1
  {
    if t.refusal == Opening then Alive([])
    else
      var o := ItemsOutcome(t, |t.items|);
      if o.Lost? then o
      else if t.refusal == Closing then Lost([])
      else if t.fails then Alive([])
      else o
  }

  /** Does the command end in an error? */
  predicate Errs(t: Txn)
  {
    t.refusal != Nothing || t.fails || ItemsOutcome(t, |t.items|).Lost?
  }

  /** No statement of the command or of those inside is refused. */
  predicate Quiet(t: Txn)
  {
    t.refusal == Nothing && forall i | 0 <= i < |t.items| && t.items[i].Nested? :: Quiet(t.items[i].txn)
  }

  /** Then the outcome is that of the scripts alone. */
  lemma {:induction false} QuietItems(t: Txn, k: nat)
    requires k <= |t.items| && forall i | 0 <= i < |t.items| && t.items[i].Nested? :: Quiet(t.items[i].txn)
    ensures ItemsOutcome(t, k) == Alive(Rows(t, k))
    decreases t, k
  {
    if k > 0 {
      QuietItems(t, k - 1);
      if t.items[k - 1].Nested? {
        var u := t.items[k - 1].txn;
        assert Quiet(u);
        QuietItems(u, |u.items|);
      }
    }
  }

  lemma QuietOutcome(t: Txn)
    requires Quiet(t)
    ensures CommandOutcome(t) == Alive(Kept(t)) && Errs(t) == t.fails
  {
    QuietItems(t, |t.items|);
  }

  /** Is a closing statement refused at this level or inside? */
  predicate ClosingRefused(t: Txn)
  {
    && t.refusal != Opening
    && (t.refusal == Closing || exists i | 0 <= i < |t.items| && t.items[i].Nested? :: ClosingRefused(t.items[i].txn))
  }

  lemma {:induction false} ItemsLostIff(t: Txn, k: nat)
    requires k <= |t.items|
    ensures ItemsOutcome(t, k).Lost?
      <==> exists i | 0 <= i < k && t.items[i].Nested? :: ClosingRefused(t.items[i].txn)
    decreases t, k
  {
    if k > 0 {
      ItemsLostIff(t, k - 1);
      if t.items[k - 1].Nested? {
        CommandLostIff(t.items[k - 1].txn);
      }
    }
  }

  /** The transaction is lost if and only if one closing statement in it is refused, at whatever depth. */
  lemma {:induction false} CommandLostIff(t: Txn)
    ensures CommandOutcome(t).Lost? <==> ClosingRefused(t)
    decreases t, |t.items| + 1
  {
    ItemsLostIff(t, |t.items|);
  }

  /** A command ends in an error if and only if it does not open, its script fails, or the transaction is lost in it. */
  lemma ErrsIff(t: Txn)
    ensures Errs(t) <==> t.refusal == Opening || t.fails || ClosingRefused(t)
  {
    ItemsLostIff(t, |t.items|);
  }
}

/** SQLite's transactions and savepoints: a stack of named marks with snapshots. */
module SavepointEngine {
  import opened Basics
  import opened TransactionSpec

  datatype Mark = Mark(name: string, snapshot: Db)

  /** The lock on the database file that BEGIN takes at once. */
  datatype Lock = NoLock | ReservedLock | ExclusiveLock

  /** Autocommit, or a transaction inside by BEGIN or by an outermost SAVEPOINT. */
  datatype Mode = Autocommit | Begun(start: Db, lock: Lock) | BySavepoint(start: Db)

  datatype Engine = Engine(db: Db, mode: Mode, marks: seq<Mark>)

  datatype Sql =
    | BeginExclusive
    | BeginImmediate
    | Commit
    | Rollback
    | Savepoint(name: string)
    | Release(name: string)
    | RollbackTo(name: string)

  /** One more than the place of the innermost mark called `name`, or zero. */
  function Innermost(marks: seq<Mark>, name: string): (k: nat)
    ensures k <= |marks|
    ensures k > 0 ==> marks[k - 1].name == name
    ensures forall i | k <= i < |marks| :: marks[i].name != name
  {
    if marks == [] then 0
    else if marks[|marks| - 1].name == name then |marks|
    else Innermost(marks[..|marks| - 1], name)
  }

  /** Run one statement; None is an error, which changes nothing. */
  function Exec(e: Engine, sql: Sql): Option<Engine>
  {
    match sql
    case BeginExclusive => if e.mode.Autocommit? then Some(Engine(e.db, Begun(e.db, ExclusiveLock), [])) else None
    case BeginImmediate => if e.mode.Autocommit? then Some(Engine(e.db, Begun(e.db, ReservedLock), [])) else None
    case Commit => if e.mode.Autocommit? then None else Some(Engine(e.db, Autocommit, []))
    case Rollback => if e.mode.Autocommit? then None else Some(Engine(e.mode.start, Autocommit, []))
    case Savepoint(name) =>
      if e.mode.Autocommit? then Some(Engine(e.db, BySavepoint(e.db), [Mark(name, e.db)]))
      else Some(e.(marks := e.marks + [Mark(name, e.db)]))
    case Release(name) =>
      var k := Innermost(e.marks, name);
      if k == 0 then None
      else if k == 1 && e.mode.BySavepoint? then Some(Engine(e.db, Autocommit, []))
      else Some(e.(marks := e.marks[..k - 1]))
    case RollbackTo(name) =>
      var k := Innermost(e.marks, name);
      if k == 0 then None else Some(e.(db := e.marks[k - 1].snapshot, marks := e.marks[..k]))
  }

  /** sqlite3_exec: statements in order until one fails. */
  function ExecAll(e: Engine, sqls: seq<Sql>): (bool, Engine)
    decreases |sqls|
  {
    if sqls == [] then (true, e)
    else
      match Exec(e, sqls[0])
      case None => (false, e)
      case Some(e') => ExecAll(e', sqls[1..])
  }

  /** Outside transactions there are no marks; a transaction inside by SAVEPOINT keeps its first mark. */
  predicate WellFormed(e: Engine)
  {
    && (e.mode.Autocommit? ==> e.marks == [])
    && (e.mode.BySavepoint? ==> e.marks != [])
  }
}

/** The "transaction" command of `tclsqlite3.c`. */
module Transactions {
  import opened Basics
  import opened TransactionSpec
  import opened SavepointEngine

  const SAVEPOINT_NAME := "_tcl_transaction"

  /** azEnd, indexed by the script's failure and by whether this was the outermost level. */
  function EndStatements(error: bool, outermost: bool): seq<Sql>
  {
    [[Release(SAVEPOINT_NAME)],
     [Commit],
     [RollbackTo(SAVEPOINT_NAME), Release(SAVEPOINT_NAME)],
     [Rollback]][(if error then 2 else 0) + (if outermost then 1 else 0)]
  }

  /** zBegin: the TYPE argument only counts at the outermost level. None is a bad TYPE. */
  function BeginStatement(nTransaction: nat, kind: Option<Kind>): Option<Sql>
  {
    if nTransaction == 0 && kind.Some? then
      match kind.value
      case Deferred => Some(Savepoint(SAVEPOINT_NAME))
      case Exclusive => Some(BeginExclusive)
      case Immediate => Some(BeginImmediate)
      case Unrecognised => None
    else Some(Savepoint(SAVEPOINT_NAME))
  }

  /** Does the command get as far as running its script? */
  predicate Starts(e: Engine, nTransaction: nat, t: Txn)
  {
    var sql := BeginStatement(nTransaction, t.kind);
    sql.Some? && t.refusal != Opening && Exec(e, sql.value).Some?
  }

  /**
   * A command starts unless its opening statement is refused, except that at the
   * outermost level its TYPE must be a known one, and exclusive and immediate
   * transactions can only be begun from autocommit. These two take their lock;
   * every other command, also one without a TYPE, sets a savepoint and leaves a
   * transaction that is open as it is.
   */
  lemma CommandOpens(e: Engine, nTransaction: nat, t: Txn)
    requires WellFormed(e)
    ensures Starts(e, nTransaction, t) <==> (
        && t.refusal != Opening
        && (nTransaction == 0 ==> t.kind != Some(Unrecognised))
        && (nTransaction == 0 && t.kind in {Some(Exclusive), Some(Immediate)} ==> e.mode.Autocommit?)
      )
    ensures Starts(e, nTransaction, t) ==>
      Exec(e, BeginStatement(nTransaction, t.kind).value) == Some(
        if nTransaction == 0 && t.kind == Some(Exclusive) then Engine(e.db, Begun(e.db, ExclusiveLock), [])
        else if nTransaction == 0 && t.kind == Some(Immediate) then Engine(e.db, Begun(e.db, ReservedLock), [])
        else
          var mode := if e.mode.Autocommit? then BySavepoint(e.db) else e.mode;
          Engine(e.db, mode, e.marks + [Mark("_tcl_transaction", e.db)])
      )
  {
    MarkSet(e, SAVEPOINT_NAME);
  }

  /** What an outcome makes of the engine; outside a transaction there is nothing to lose. */
  function Effect(e: Engine, o: Outcome): Engine
  {
    if e.mode.Autocommit? || o.Alive? then e.(db := e.db + o.rows) else Engine(e.mode.start + o.rows, Autocommit, [])
  }

  /** Where a rollback of the whole transaction leads. */
  function Start(e: Engine): Db
  {
    if e.mode.Autocommit? then e.db else e.mode.start
  }

  /** The engine after an outermost command. */
  function AfterOutermost(e: Engine, t: Txn): Engine
  {
    if !Starts(e, 0, t) then e
    else Engine((if Errs(t) then Start(e) else e.db) + CommandOutcome(t).rows, Autocommit, [])
  }

  /** What closing a level does: its end statements and, if they fail, a ROLLBACK. */
  function Close(e: Engine, result: bool, outermost: bool, refused: bool): (bool, Engine)
  {
    if refused then (true, ExecAll(e, [Rollback]).1)
    else
      var (ok, e') := ExecAll(e, EndStatements(result, outermost));
      if ok then (result, e') else (true, ExecAll(e', [Rollback]).1)
  }

  lemma InnermostIsLast(marks: seq<Mark>, name: string, snapshot: Db)
    ensures Innermost(marks + [Mark(name, snapshot)], name) == |marks| + 1
  {
  }

  lemma ExecOne(e: Engine, sql: Sql)
    ensures ExecAll(e, [sql]) == match Exec(e, sql) case None => (false, e) case Some(e') => (true, e')
  {
    if Exec(e, sql).Some? {
      assert [sql][1..] == [];
    }
  }

  lemma ExecTwo(e: Engine, a: Sql, b: Sql)
    requires Exec(e, a).Some?
    ensures ExecAll(e, [a, b]) == ExecAll(Exec(e, a).value, [b])
  {
    hide Exec;
    assert [a, b][1..] == [b];
  }

  lemma MarkSet(e: Engine, name: string)
    requires WellFormed(e)
    ensures
      var inside := Exec(e, Savepoint(name));
      && inside.Some? && inside.value.db == e.db && !inside.value.mode.Autocommit?
      && inside.value.marks == e.marks + [Mark(name, e.db)]
      && inside.value.mode == if e.mode.Autocommit? then BySavepoint(e.db) else e.mode
  {
    assert [] + [Mark(name, e.db)] == [Mark(name, e.db)];
  }

  /** The mark that SAVEPOINT sets is the innermost of its name, and releasing it leads back to where it was set. */
  lemma MarkReleases(e: Engine, name: string, rows: Db)
    requires WellFormed(e)
    ensures
      var inside := Exec(e, Savepoint(name)).value;
      var later := inside.(db := inside.db + rows);
      && Exec(later, Release(name)) == Some(e.(db := e.db + rows))
      && Exec(later, RollbackTo(name)) == Some(inside)
      && Exec(inside, Release(name)) == Some(e)
  {
    MarkSet(e, name);
    var inside := Exec(e, Savepoint(name)).value;
    hide Innermost;
    InnermostIsLast(e.marks, name, e.db);
    assert inside.marks[..|e.marks|] == e.marks && inside.marks[..|e.marks| + 1] == inside.marks;
    assert e.mode.BySavepoint? ==> |e.marks| > 0;
  }

  /** A level that is closed in the transaction it was opened in, whatever mode that found the engine in. */
  lemma NestedAlive(e: Engine, rows: Db, fails: bool)
    requires WellFormed(e)
    ensures
      var inside := Exec(e, Savepoint(SAVEPOINT_NAME)).value;
      Close(inside.(db := inside.db + rows), fails, false, false)
      == (fails, e.(db := e.db + if fails then [] else rows))
  {
    MarkSet(e, SAVEPOINT_NAME);
    MarkReleases(e, SAVEPOINT_NAME, rows);
    hide Exec, ExecAll, WellFormed;
    var inside := Exec(e, Savepoint(SAVEPOINT_NAME)).value;
    var later := inside.(db := inside.db + rows);
    ExecOne(later, Release(SAVEPOINT_NAME));
    ExecOne(inside, Release(SAVEPOINT_NAME));
    ExecTwo(later, RollbackTo(SAVEPOINT_NAME), Release(SAVEPOINT_NAME));
    assert e.db + [] == e.db;
  }

  /** Closing in a transaction with the statement refused: everything is rolled back. */
  lemma CloseRefused(e: Engine, result: bool, outermost: bool)
    requires !e.mode.Autocommit?
    ensures Close(e, result, outermost, true) == (true, Engine(e.mode.start, Autocommit, []))
  {
    ExecOne(e, Rollback);
  }

  /** Closing where the transaction has been lost: an error, and nothing changes. */
  lemma CloseLost(e: Engine, result: bool, outermost: bool, refused: bool)
    requires e.mode.Autocommit? && WellFormed(e)
    ensures Close(e, result, outermost, refused) == (true, e)
  {
    ExecOne(e, Rollback);
    ExecOne(e, Commit);
    ExecOne(e, Release(SAVEPOINT_NAME));
    var sqls := EndStatements(true, false);
    assert sqls[0] == RollbackTo(SAVEPOINT_NAME);
  }

  /** A nested level, also where the transaction around it has been lost: the engine is left as the outcome says. */
  lemma NestedLevel(e: Engine, t: Txn)
    requires WellFormed(e) && t.refusal != Opening
    ensures
      var inside := Exec(e, Savepoint(SAVEPOINT_NAME)).value;
      && WellFormed(inside) && !inside.mode.Autocommit?
      && Close(Effect(inside, ItemsOutcome(t, |t.items|)), t.fails, false, t.refusal == Closing)
         == (Errs(t), Effect(e, CommandOutcome(t)))
  {
    hide ItemsOutcome, ExecAll, Close;
    var inside := Exec(e, Savepoint(SAVEPOINT_NAME)).value;
    var o := ItemsOutcome(t, |t.items|);
    var e1 := Effect(inside, o);
    if o.Lost? {
      CloseLost(e1, t.fails, false, t.refusal == Closing);
    } else if t.refusal == Closing {
      CloseRefused(e1, t.fails, false);
      assert Start(e) + [] == Start(e);
    } else {
      NestedAlive(e, o.rows, t.fails);
    }
  }

  /** The outermost level, in whatever mode it found the engine. */
  lemma OutermostLevel(e: Engine, t: Txn)
    requires WellFormed(e) && Starts(e, 0, t)
    ensures
      var inside := Exec(e, BeginStatement(0, t.kind).value).value;
      && WellFormed(inside) && !inside.mode.Autocommit?
      && Close(Effect(inside, ItemsOutcome(t, |t.items|)), t.fails, true, t.refusal == Closing)
         == (Errs(t), AfterOutermost(e, t))
  {
    hide ItemsOutcome, ExecAll, Close;
    var inside := Exec(e, BeginStatement(0, t.kind).value).value;
    var o := ItemsOutcome(t, |t.items|);
    var e1 := Effect(inside, o);
    assert Start(e) + [] == Start(e);
    if o.Lost? {
      CloseLost(e1, t.fails, true, t.refusal == Closing);
    } else if t.refusal == Closing {
      CloseRefused(e1, t.fails, true);
    } else {
      CloseOutermost(e1, t.fails);
    }
  }

  lemma CloseOutermost(e: Engine, fails: bool)
    requires !e.mode.Autocommit?
    ensures Close(e, fails, true, false) == (fails, Engine(if fails then e.mode.start else e.db, Autocommit, []))
  {
    ExecOne(e, Rollback);
    ExecOne(e, Commit);
  }

  /**
   * Begun inside a transaction of the user's own, the outermost command does
   * not leave that transaction open: the mode is restored only from autocommit.
   */
  lemma ModeRestoredIff(e: Engine, t: Txn)
    requires WellFormed(e) && Starts(e, 0, t)
    ensures AfterOutermost(e, t).mode == e.mode <==> e.mode.Autocommit?
  {
    hide CommandOutcome, Errs;
  }

  lemma SameEnd(a: Db, b: Db, rows: Db)
    ensures a + rows == b + rows <==> a == b
  {
    if a + rows == b + rows {
      assert |a| == |b|;
      assert (a + rows)[..|a|] == a && (b + rows)[..|b|] == b;
    }
  }

  /** And if it ends in an error there, it takes the user's earlier rows along unless there were none. */
  lemma OnlyOwnRowsUndoneIff(e: Engine, t: Txn)
    requires WellFormed(e) && Starts(e, 0, t)
    ensures AfterOutermost(e, t).db == e.db + CommandOutcome(t).rows
      <==> !Errs(t) || e.mode.Autocommit? || e.mode.start == e.db
  {
    hide CommandOutcome, Errs;
    SameEnd(Start(e), e.db, CommandOutcome(t).rows);
  }

  class SqliteDb {
    var nTransaction: nat
    var engine: Engine
    ghost var trace: seq<(int, nat)>    // each row written, with nTransaction at that moment

    constructor ()
      ensures nTransaction == 0 && engine == Engine([], Autocommit, []) && trace == []
    {
      nTransaction, engine, trace := 0, Engine([], Autocommit, []), [];
    }

    /** sqlite3_exec; `refused` makes the engine turn the statements down (SQLITE_BUSY, I/O error). */
    method Execute(sqls: seq<Sql>, refused: bool) returns (failed: bool)
      modifies this`engine
      ensures failed == (refused || !ExecAll(old(engine), sqls).0)
      ensures engine == if refused then old(engine) else ExecAll(old(engine), sqls).1
    {
      if refused {
        return true;
      }
      var (ok, e) := ExecAll(engine, sqls);
      engine := e;
      failed := !ok;
    }

    /** DbTransPostCmd: commit or roll back what the command inside. */
    method DbTransPostCmd(result: bool, refused: bool) returns (error: bool)
      requires nTransaction > 0
      modifies this`nTransaction, this`engine
      ensures nTransaction == old(nTransaction) - 1
      ensures (error, engine) == Close(old(engine), result, old(nTransaction) == 1, refused)
    {
      error := result;
      nTransaction := nTransaction - 1;
      var failed := Execute(EndStatements(error, nTransaction == 0), refused);
      if failed {
        error := true;
        var _ := Execute([Rollback], false);
      }
    }

    /** Evaluating the script, at whatever depth. */
    method EvalScript(t: Txn) returns (error: bool)
      requires nTransaction > 0 && WellFormed(engine) && !engine.mode.Autocommit?
      modifies this
      ensures nTransaction == old(nTransaction) && error == t.fails
      ensures engine == Effect(old(engine), ItemsOutcome(t, |t.items|))
      ensures trace == old(trace) + Trace(t, |t.items|, nTransaction)
      decreases t, 0
    {
      hide Starts, AfterOutermost, CommandOutcome, ItemsOutcome, Effect, Then, Errs, WellFormed, Trace;
      ghost var e, log, depth := engine, trace, nTransaction;
      NothingYet(e, t, depth);
      for k := 0 to |t.items|
        invariant nTransaction == depth
        invariant engine == Effect(e, ItemsOutcome(t, k))
        invariant trace == log + Trace(t, k, depth)
      {
        AfterIsWellFormed(e, t);
        OneMoreItem(e, t, k);
        OneMoreTraced(t, k, depth);
        match t.items[k]
        case Insert(row) =>
          InsertEffect(engine, row);
          engine := engine.(db := engine.db + [row]);
          trace := trace + [(row, nTransaction)];
        case Nested(u) =>
          CommandBegins(engine, nTransaction, u);
          assert trace + [] == trace;
          var _ := Transaction(u);
      }
      error := t.fails;
    }

    /** "$db transaction ?TYPE? SCRIPT". */
    method Transaction(t: Txn) returns (error: bool)
      requires WellFormed(engine)
      modifies this
      ensures nTransaction == old(nTransaction) && WellFormed(engine)
      ensures nTransaction > 0 ==> engine == Effect(old(engine), CommandOutcome(t)) && error == Errs(t)
      ensures nTransaction == 0 ==>
        && engine == AfterOutermost(old(engine), t)
        && error == (!Starts(old(engine), 0, t) || Errs(t))
      ensures trace
           == if Starts(old(engine), nTransaction, t) then old(trace) + Trace(t, |t.items|, nTransaction + 1)
              else old(trace)
      decreases t, 1
    {
      hide ExecAll, Close, Exec, EndStatements, Trace, AfterOutermost, BeginStatement, WellFormed, Effect;
      hide CommandOutcome, ItemsOutcome, Errs;
      ghost var e := engine;
      CommandBegins(e, nTransaction, t);
      AfterIsWellFormed(e, t);
      var zBegin := BeginStatement(nTransaction, t.kind);
      if zBegin.None? {
        return true;
      }
      ExecOne(e, zBegin.value);
      var failed := Execute([zBegin.value], t.refusal == Opening);
      if failed {
        return true;
      }
      if nTransaction == 0 {
        OutermostLevel(e, t);
      } else {
        NestedLevel(e, t);
      }
      nTransaction := nTransaction + 1;
      var result := EvalScript(t);
      error := DbTransPostCmd(result, t.refusal == Closing);
    }
  }

  /** Inside another command only a refused SAVEPOINT keeps a command from starting. */
  lemma CommandBegins(e: Engine, nTransaction: nat, t: Txn)
    requires WellFormed(e)
    ensures nTransaction > 0 ==>
      && BeginStatement(nTransaction, t.kind) == Some(Savepoint(SAVEPOINT_NAME))
      && Exec(e, Savepoint(SAVEPOINT_NAME)).Some?
      && Starts(e, nTransaction, t) == (t.refusal != Opening)
    ensures !Starts(e, 0, t) ==> AfterOutermost(e, t) == e
    ensures t.refusal == Opening ==> Effect(e, CommandOutcome(t)) == e && Errs(t)
  {
    assert e.db + [] == e.db;
  }

  lemma AfterIsWellFormed(e: Engine, t: Txn)
    requires WellFormed(e)
    ensures WellFormed(AfterOutermost(e, t)) && forall o :: WellFormed(Effect(e, o))
  {
  }

  lemma NothingYet(e: Engine, t: Txn, depth: nat)
    ensures Effect(e, ItemsOutcome(t, 0)) == e && Trace(t, 0, depth) == []
  {
    NothingTraced(t, depth);
    assert e.db + [] == e.db;
  }

  lemma EffectThen(e: Engine, a: Outcome, b: Outcome)
    requires !e.mode.Autocommit?
    ensures Effect(Effect(e, a), b) == Effect(e, Then(a, b))
  {
    assert e.db + (a.rows + b.rows) == e.db + a.rows + b.rows;
    assert e.mode.start + (a.rows + b.rows) == e.mode.start + a.rows + b.rows;
  }

  lemma InsertEffect(e: Engine, row: int)
    ensures Effect(e, Alive([row])) == e.(db := e.db + [row])
  {
  }

  lemma OneMoreItem(e: Engine, t: Txn, k: nat)
    requires k < |t.items| && !e.mode.Autocommit?
    ensures
      var o := match t.items[k] case Insert(row) => Alive([row]) case Nested(u) => CommandOutcome(u);
      Effect(Effect(e, ItemsOutcome(t, k)), o) == Effect(e, ItemsOutcome(t, k + 1))
  {
    hide CommandOutcome, Effect, Then;
    var o := match t.items[k] case Insert(row) => Alive([row]) case Nested(u) => CommandOutcome(u);
    EffectThen(e, ItemsOutcome(t, k), o);
  }
}
