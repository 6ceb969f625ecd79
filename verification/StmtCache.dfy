/** The prepared-statement cache of `tclsqlite3.c`: a doubly linked list updated in place. */
module StmtCache {
  import opened Basics
  import opened SqlText
  import opened CacheSpec

  class SqlPreparedStmt {
    const pStmt: nat         // the engine's handle
    const zSql: string
    const nSql: nat
    var pNext: SqlPreparedStmt?
    var pPrev: SqlPreparedStmt?

    constructor (pStmt: nat, zSql: string)
      ensures this.pStmt == pStmt && this.zSql == zSql && nSql == |zSql|
    {
      this.pStmt, this.zSql, nSql := pStmt, zSql, |zSql|;
      pNext, pPrev := null, null;
    }

    function Value(): Stmt
    {
      Stmt(pStmt, zSql)
    }
  }

  function Values(list: seq<SqlPreparedStmt>): (v: seq<Stmt>)
    ensures |v| == |list|
    ensures forall i | 0 <= i < |list| :: v[i] == list[i].Value()
  {
    seq(|list|, i requires 0 <= i < |list| => list[i].Value())
  }

  function At(list: seq<SqlPreparedStmt>, i: int): SqlPreparedStmt?
  {
    if 0 <= i < |list| then list[i] else null
  }

  ghost predicate Different(list: seq<SqlPreparedStmt>)
  {
    forall i, j | 0 <= i < j < |list| :: list[i] != list[j]
  }

  /** The links describe the same sequence in both directions. */
  ghost predicate Chained(list: seq<SqlPreparedStmt>)
    reads list
  {
    && Different(list)
    && (forall i {:trigger list[i].pNext} | 0 <= i < |list| :: list[i].pNext == At(list, i + 1))
    && (forall i {:trigger list[i].pPrev} | 0 <= i < |list| :: list[i].pPrev == At(list, i - 1))
  }

  lemma DifferentWithout(list: seq<SqlPreparedStmt>, k: nat)
    requires Different(list) && k < |list|
    ensures Different(Without(list, k))
    ensures forall i | 0 <= i < |list| - 1 :: Without(list, k)[i] == list[if i < k then i else i + 1]
    ensures list[k] !in Without(list, k)
  {
  }

  predicate AllWhole(list: seq<SqlPreparedStmt>)
  {
    forall i | 0 <= i < |list| :: 0 < list[i].nSql == |list[i].zSql|
  }

  lemma WholeWithout(list: seq<SqlPreparedStmt>, k: nat)
    requires AllWhole(list) && k < |list|
    ensures AllWhole(Without(list, k))
  {
  }

  class SqliteDb {
    var stmtList: SqlPreparedStmt?
    var stmtLast: SqlPreparedStmt?
    var maxStmt: int
    var nStmt: int
    var issued: nat              // handles the engine has given out
    var finalized: seq<nat>      // handles passed to sqlite3_finalize, in order
    ghost var list: seq<SqlPreparedStmt>
    ghost var nodes: set<SqlPreparedStmt>   // every node ever allocated

    ghost predicate Linked()
      reads this`list, this`nStmt, this`stmtList, this`stmtLast, list
    {
      && Chained(list)
      && nStmt == |list|
      && stmtList == At(list, 0)
      && stmtLast == At(list, |list| - 1)
    }

    ghost function Abs(): Conn
      reads this`list, this`maxStmt, this`issued, this`finalized
    {
      Conn(Values(list), maxStmt, issued, finalized)
    }

    ghost predicate Valid()
      reads this`list, this`nStmt, this`stmtList, this`stmtLast, list
    {
      Linked() && WholeTexts()
    }

    ghost predicate WholeTexts()
      reads this`list
    {
      AllWhole(list)
    }

    constructor ()
      ensures Valid() && Abs() == OPENED.conn && list == [] && nodes == {}
    {
      stmtList, stmtLast, nStmt := null, null, 0;
      maxStmt := NUM_PREPARED_STMTS;
      issued, finalized, list, nodes := 0, [], [], {};
    }

    method FreeStmt(p: SqlPreparedStmt)
      modifies this`finalized
      ensures finalized == old(finalized) + [p.pStmt]
    {
      finalized := finalized + [p.pStmt];
    }

    method FlushStmtCache()
      requires Valid()
      modifies this
      ensures Valid() && Abs() == Flush(old(Abs())) && list == []
      ensures maxStmt == old(maxStmt)
    {
      ghost var h := Handles(Values(list));
      var pPreStmt := stmtList;
      ghost var k := 0;
      while pPreStmt != null
        modifies this`finalized
        invariant 0 <= k <= |list| && pPreStmt == At(list, k)
        invariant finalized == old(finalized) + h[..k]
        decreases |list| - k
      {
        var pNext := pPreStmt.pNext;
        FreeStmt(pPreStmt);
        pPreStmt := pNext;
        k := k + 1;
      }
      nStmt := 0;
      stmtLast := null;
      stmtList := null;
      list := [];
    }

    /** "$db cache size N". */
    method CacheSize(n: int)
      requires Valid()
      modifies this
      ensures Valid() && Abs() == Resize(old(Abs()), n)
      ensures list == old(list) || list == []
    {
      hide Linked, WholeTexts, Values, Handles;
      if n < 0 {
        FlushStmtCache();
        maxStmt := 0;
      } else if n > MAX_PREPARED_STMTS {
        maxStmt := MAX_PREPARED_STMTS;
      } else {
        maxStmt := n;
      }
    }

    /** Take the node at place `k` out of the list. */
    method Unlink(pPreStmt: SqlPreparedStmt, ghost k: nat)
      requires Linked() && k < |list| && list[k] == pPreStmt
      modifies this`stmtList, this`stmtLast, this`nStmt, this`list, list
      ensures Linked() && list == Without(old(list), k)
    {
      ghost var was := list;
      ghost var last := |list| - 1;
      if pPreStmt.pPrev != null {
        pPreStmt.pPrev.pNext := pPreStmt.pNext;
      } else {
        stmtList := pPreStmt.pNext;
      }
      assert forall i {:trigger was[i].pNext} | 0 <= i <= last && i != k ::
        was[i].pNext == At(was, if i == k - 1 then k + 1 else i + 1);
      if pPreStmt.pNext != null {
        pPreStmt.pNext.pPrev := pPreStmt.pPrev;
      } else {
        stmtLast := pPreStmt.pPrev;
      }
      assert forall i {:trigger was[i].pPrev} | 0 <= i <= last && i != k ::
        was[i].pPrev == At(was, if i == k + 1 then k - 1 else i - 1);
      nStmt := nStmt - 1;
      list := Without(list, k);
      ClosedUp(was, k);
    }

    lemma LinkedDifferent()
      requires Linked()
      ensures Different(list)
    {
    }

    /** Unlinking, seen from outside. */
    method TakeOut(p: SqlPreparedStmt, ghost k: nat)
      requires Valid() && k < |list| && list[k] == p
      modifies this`stmtList, this`stmtLast, this`nStmt, this`list, list
      ensures Valid() && Abs() == old(Abs()).(cache := Without(old(Abs()).cache, k))
      ensures p !in list && forall q | q in list :: q in old(list)
    {
      hide Values, Linked, AllWhole, Different, Without;
      LinkedDifferent();
      ValuesWithout(list, k);
      WholeWithout(list, k);
      Unlink(p, k);
    }

    /** The for loop of dbPrepareAndBind, up to its break. */
    method Search(zSql: string) returns (pPreStmt: SqlPreparedStmt?, ghost k: nat)
      requires Valid()
      ensures pPreStmt == At(list, Find(Values(list), zSql)) && k == Find(Values(list), zSql)
    {
      hide Values, Different;
      pPreStmt := stmtList;
      k := 0;
      FindFrom(Values(list), zSql, 0);
      while pPreStmt != null && !Serves(pPreStmt, zSql)
        invariant k <= |list| && pPreStmt == At(list, k)
        invariant k <= Find(Values(list), zSql)
        decreases |list| - k
      {
        FindFrom(Values(list), zSql, k);
        pPreStmt := pPreStmt.pNext;
        k := k + 1;
      }
      FindFrom(Values(list), zSql, k);
    }

    method DbPrepareAndBind(prepare: Prepare, zIn: string)
        returns (ok: bool, zOut: string, ppPreStmt: SqlPreparedStmt?)
      requires Valid() && Splits(prepare)
      modifies this`stmtList, this`stmtLast, this`nStmt, this`list, this`issued, this`nodes, list
      ensures Valid()
      ensures
        var (c, a) := Acquire(prepare, old(Abs()), zIn);
        && Abs() == c && zOut == a.rest && ok == !a.Error?
        && (ppPreStmt != null) == a.Got?
        && (a.Got? ==> ppPreStmt.Value() == a.stmt && 0 < ppPreStmt.nSql == |ppPreStmt.zSql|)
      ensures forall p | p in list :: p in old(list)
      ensures old(nodes) <= nodes && fresh(nodes - old(nodes))
      ensures ppPreStmt == null || ppPreStmt in old(list) || ppPreStmt in nodes
    {
      hide Splits, Values, Find, SkipSpaces, Linked;
      ConsumesWithin(prepare, SkipSpaces(zIn));
      var zSql := TrimSpaces(zIn);
      ghost var k;
      ok := true;
      ppPreStmt, k := Search(zSql);
      if ppPreStmt != null {
        // A hit.
        zOut := zSql[ppPreStmt.nSql..];
        TakeOut(ppPreStmt, k);
      } else {
        // A miss.
        match prepare(zSql)
        case Failed(n) =>
          ok, zOut := false, zSql[n..];
        case Nothing(n) =>
          zOut := zSql[n..];
        case Statement(n, _) =>
          ppPreStmt := new SqlPreparedStmt(issued, zSql[..n]);
          nodes := nodes + {ppPreStmt};
          issued := issued + 1;
          zOut := zSql[n..];
      }
    }

    /** The statement becomes the head of the list. */
    method PushFront(p: SqlPreparedStmt)
      requires Linked() && p !in list
      modifies this`stmtList, this`stmtLast, this`nStmt, this`list, list, p
      ensures Linked() && list == [p] + old(list)
    {
      ghost var was := list;
      p.pNext := stmtList;
      p.pPrev := null;
      if stmtList != null {
        stmtList.pPrev := p;
      }
      stmtList := p;
      if stmtLast == null {
        assert nStmt == 0;
        stmtLast := p;
      } else {
        assert nStmt > 0;
      }
      nStmt := nStmt + 1;
      list := [p] + list;
      assert forall i {:trigger was[i].pNext} | 0 <= i < |was| :: was[i].pNext == At(was, i + 1);
      assert forall i {:trigger was[i].pPrev} | 0 <= i < |was| :: was[i].pPrev == if i == 0 then p else At(was, i - 1);
      PutInFront(was, p);
    }

    /** Drop the last statement of the list. */
    method DropLast()
      requires Linked() && |list| > 1
      modifies this`stmtLast, this`nStmt, this`list, this`finalized, list
      ensures Linked() && list == old(list[..|list| - 1])
      ensures finalized == old(finalized + [list[|list| - 1].pStmt])
    {
      ghost var was := list;
      var pLast := stmtLast;
      stmtLast := pLast.pPrev;
      stmtLast.pNext := null;
      nStmt := nStmt - 1;
      FreeStmt(pLast);
      list := list[..|list| - 1];
      assert forall i {:trigger was[i].pNext} | 0 <= i < |list| :: was[i].pNext == At(list, i + 1);
      assert forall i {:trigger list[i].pNext} | 0 <= i < |list| :: list[i] == was[i];
    }

    /** Dropping the last statement, seen from outside. */
    method EvictLast()
      requires Valid() && |list| > 1
      modifies this`stmtLast, this`nStmt, this`list, this`finalized, list
      ensures Valid() && list == old(list[..|list| - 1])
      ensures
        var c := old(Abs());
        var n := |c.cache| - 1;
        Abs() == c.(cache := c.cache[..n], finalized := c.finalized + [c.cache[n].handle])
    {
      assert Values(list[..|list| - 1]) == Values(list)[..|list| - 1];
      hide Chained, Values;
      DropLast();
    }

    /** The eviction loop. */
    method RemoveSurplus()
      requires Valid() && maxStmt > 0
      modifies this`stmtLast, this`nStmt, this`list, this`finalized, list
      ensures Valid() && Abs() == Evict(old(Abs()))
      ensures forall q | q in list :: q in old(list)
    {
      hide Chained, Values, WholeTexts;
      while nStmt > maxStmt
        invariant Valid() && Evict(Abs()) == Evict(old(Abs()))
        invariant list <= old(list)
        decreases nStmt
      {
        EvictLast();
      }
    }

    /** The caller hands the statement over; it is not in the cache. */
    method DbReleaseStmt(p: SqlPreparedStmt, discard: bool)
      requires Valid() && 0 < p.nSql == |p.zSql|
      requires p.pStmt !in Handles(Abs().cache)
      modifies this`stmtList, this`stmtLast, this`nStmt, this`list, this`finalized, list, p
      ensures Valid() && Abs() == Release(old(Abs()), p.Value(), discard)
      ensures forall q | q in list :: q in old(list) || q == p
    {
      if maxStmt <= 0 || discard {
        FreeStmt(p);
      } else {
        hide Chained, Values, Evict, AllWhole;
        NotCached(list, p);
        ValuesInFront(list, p);
        PushFront(p);
        RemoveSurplus();
      }
    }

    /** Leading spaces are skipped. */
    static method TrimSpaces(z: string) returns (t: string)
      ensures t == SkipSpaces(z)
    {
      t := z;
      while t != "" && IsSpace(t[0])
        invariant SkipSpaces(t) == SkipSpaces(z)
        decreases |t|
      {
        t := t[1..];
      }
    }

    static predicate Serves(p: SqlPreparedStmt, zSql: string)
    {
      var n := p.nSql;
      |zSql| >= n > 0 && n == |p.zSql| && p.zSql == zSql[..n] && (|zSql| == n || zSql[n - 1] == ';')
    }
  }

  lemma FindFrom(cache: seq<Stmt>, z: string, k: nat)
    requires k <= Find(cache, z)
    ensures k < |cache| ==> if Matches(cache[k].text, z) then k == Find(cache, z) else k + 1 <= Find(cache, z)
    ensures k == |cache| ==> k == Find(cache, z)
  {
  }

  lemma ValuesWithout(list: seq<SqlPreparedStmt>, k: nat)
    requires k < |list| && Different(list)
    ensures Values(Without(list, k)) == Without(Values(list), k)
    ensures list[k] !in Without(list, k)
    ensures forall q | q in Without(list, k) :: q in list
    ensures forall i | 0 <= i < |list| - 1 :: Without(list, k)[i] == list[if i < k then i else i + 1]
  {
  }

  lemma ValuesInFront(list: seq<SqlPreparedStmt>, p: SqlPreparedStmt)
    ensures Values([p] + list) == [p.Value()] + Values(list)
    ensures AllWhole(list) && 0 < p.nSql == |p.zSql| ==> AllWhole([p] + list)
  {
  }

  lemma NotCached(list: seq<SqlPreparedStmt>, p: SqlPreparedStmt)
    requires p.pStmt !in Handles(Values(list))
    ensures p !in list
  {
    forall i | 0 <= i < |list|
      ensures list[i] != p
    {
      assert Handles(Values(list))[i] == list[i].pStmt;
    }
  }

  lemma PutInFront(was: seq<SqlPreparedStmt>, p: SqlPreparedStmt)
    requires p !in was && Different(was)
    requires p.pNext == At(was, 0) && p.pPrev == null
    requires forall i {:trigger was[i].pNext} | 0 <= i < |was| :: was[i].pNext == At(was, i + 1)
    requires forall i {:trigger was[i].pPrev} | 0 <= i < |was| :: was[i].pPrev == if i == 0 then p else At(was, i - 1)
    ensures Chained([p] + was)
  {
    var list := [p] + was;
    assert Different(list);
    hide Different;
    forall i | 0 <= i < |list|
      ensures list[i].pNext == At(list, i + 1) && list[i].pPrev == At(list, i - 1)
    {
      if i > 0 {
        assert list[i] == was[i - 1];
      }
    }
  }

  lemma ClosedUp(was: seq<SqlPreparedStmt>, k: nat)
    requires k < |was| && Different(was)
    requires forall i {:trigger was[i].pNext} | 0 <= i < |was| && i != k ::
      was[i].pNext == At(was, if i == k - 1 then k + 1 else i + 1)
    requires forall i {:trigger was[i].pPrev} | 0 <= i < |was| && i != k ::
      was[i].pPrev == At(was, if i == k + 1 then k - 1 else i - 1)
    ensures Chained(Without(was, k))
    ensures At(Without(was, k), 0) == At(was, if k == 0 then 1 else 0)
    ensures At(Without(was, k), |was| - 2) == At(was, if k == |was| - 1 then k - 1 else |was| - 1)
  {
    DifferentWithout(was, k);
    hide Different, Without;
    var list := Without(was, k);
    forall i | 0 <= i < |list|
      ensures list[i].pNext == At(list, i + 1) && list[i].pPrev == At(list, i - 1)
    {
      var i0 := if i < k then i else i + 1;
      assert list[i] == was[i0];
    }
  }
}
