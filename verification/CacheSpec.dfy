/** The statement cache as a plain sequence, and what holds of it over whole runs. */
module CacheSpec {
  import opened Basics
  import opened SqlText

  const NUM_PREPARED_STMTS := 10
  const MAX_PREPARED_STMTS := 100

  /** A compiled statement: the engine's handle and the text it was compiled from. */
  datatype Stmt = Stmt(handle: nat, text: string)

  /**
   * A connection: the cache, most recently used first; its size limit; how many
   * handles the engine has given out; and those finalised, in order.
   */
  datatype Conn = Conn(cache: seq<Stmt>, max: int, issued: nat, finalized: seq<nat>)

  datatype Answer = Error(rest: string) | NoStatement(rest: string) | Got(stmt: Stmt, rest: string)

  function Handles(s: seq<Stmt>): (h: seq<nat>)
    ensures |h| == |s|
    ensures forall i | 0 <= i < |s| :: h[i] == s[i].handle
  {
    seq(|s|, i requires 0 <= i < |s| => s[i].handle)
  }

  function Texts(s: seq<Stmt>): (t: seq<string>)
    ensures |t| == |s|
    ensures forall i | 0 <= i < |s| :: t[i] == s[i].text
  {
    seq(|s|, i requires 0 <= i < |s| => s[i].text)
  }

  /** The place of the first cached statement that serves for `z`, or the cache length. */
  function Find(cache: seq<Stmt>, z: string): (k: nat)
    ensures k <= |cache|
    ensures k < |cache| ==> Matches(cache[k].text, z)
    ensures forall i | 0 <= i < k :: !Matches(cache[i].text, z)
  {
    if cache == [] || Matches(cache[0].text, z) then 0 else 1 + Find(cache[1..], z)
  }

  function Without<T>(s: seq<T>, k: nat): (r: seq<T>)
    requires k < |s|
  {
    s[..k] + s[k + 1..]
  }

  // ----- The operations -----

  /** dbPrepareAndBind. */
  function Acquire(prepare: Prepare, c: Conn, zIn: string): (Conn, Answer)
    requires Splits(prepare)
  {
    var z := SkipSpaces(zIn);
    var k := Find(c.cache, z);
    if k < |c.cache| then
      (c.(cache := Without(c.cache, k)), Got(c.cache[k], z[|c.cache[k].text|..]))
    else
      assert WithinText(prepare(z), z);
      match prepare(z)
      case Failed(n) => (c, Error(z[n..]))
      case Nothing(n) => (c, NoStatement(z[n..]))
      case Statement(n, _) => (c.(issued := c.issued + 1), Got(Stmt(c.issued, z[..n]), z[n..]))
  }

  /** The eviction loop: finalise from the far end until the cache fits. */
  function Evict(c: Conn): Conn
    requires c.max >= 0
    decreases |c.cache|
  {
    if |c.cache| <= c.max then c
    else
      var n := |c.cache| - 1;
      Evict(c.(cache := c.cache[..n], finalized := c.finalized + [c.cache[n].handle]))
  }

  /** dbReleaseStmt. */
  function Release(c: Conn, s: Stmt, discard: bool): Conn
  {
    if c.max <= 0 || discard then c.(finalized := c.finalized + [s.handle])
    else Evict(c.(cache := [s] + c.cache))
  }

  /** flushStmtCache. */
  function Flush(c: Conn): Conn
  {
    c.(cache := [], finalized := c.finalized + Handles(c.cache))
  }

  /** "$db cache size N". */
  function Resize(c: Conn, n: int): Conn
  {
    if n < 0 then Flush(c).(max := 0) else c.(max := if n > MAX_PREPARED_STMTS then MAX_PREPARED_STMTS else n)
  }

  // ----- One operation at a time -----

  /** The new limit is the number from 0 to 100 nearest to the one asked for; a negative one empties the cache. */
  lemma ResizeFacts(c: Conn, n: int)
    ensures
      var c' := Resize(c, n);
      && 0 <= c'.max <= MAX_PREPARED_STMTS
      && (forall k | 0 <= k <= MAX_PREPARED_STMTS :: Away(c'.max, n) <= Away(k, n))
      && c'.cache == (if n < 0 then [] else c.cache) && c'.issued == c.issued
      && multiset(Handles(c'.cache)) + multiset(c'.finalized) == multiset(Handles(c.cache)) + multiset(c.finalized)
  {
  }

  function Away(a: int, b: int): nat
  {
    if a < b then b - a else a - b
  }

  lemma HandlesLast(cache: seq<Stmt>)
    requires cache != []
    ensures var n := |cache| - 1; Handles(cache) == Handles(cache[..n]) + [cache[n].handle]
  {
  }

  lemma {:induction false} EvictFacts(c: Conn)
    requires c.max >= 0
    ensures Evict(c).cache == (if |c.cache| <= c.max then c.cache else c.cache[..c.max])
    ensures Evict(c).max == c.max && Evict(c).issued == c.issued
    ensures multiset(Handles(Evict(c).cache)) + multiset(Evict(c).finalized)
         == multiset(Handles(c.cache)) + multiset(c.finalized)
    decreases |c.cache|
  {
    hide Handles;
    if |c.cache| > c.max {
      var n := |c.cache| - 1;
      EvictFacts(c.(cache := c.cache[..n], finalized := c.finalized + [c.cache[n].handle]));
      HandlesLast(c.cache);
    }
  }

  lemma WithoutHandles(cache: seq<Stmt>, k: nat)
    requires k < |cache|
    ensures multiset(Handles(cache)) == multiset(Handles(Without(cache, k))) + multiset{cache[k].handle}
  {
    assert Handles(cache) == Handles(cache[..k]) + [cache[k].handle] + Handles(cache[k + 1..]);
    assert Handles(Without(cache, k)) == Handles(cache[..k]) + Handles(cache[k + 1..]);
  }

  lemma ReleaseHandles(c: Conn, s: Stmt, discard: bool)
    ensures
      var c' := Release(c, s, discard);
      && multiset(Handles(c'.cache)) + multiset(c'.finalized)
         == multiset(Handles(c.cache)) + multiset(c.finalized) + multiset{s.handle}
      && c'.issued == c.issued && c'.max == c.max
  {
    if !(c.max <= 0 || discard) {
      EvictFacts(c.(cache := [s] + c.cache));
      assert Handles([s] + c.cache) == [s.handle] + Handles(c.cache);
    }
  }

  /**
   * A statement that is discarded, or released to a cache that is turned off, is
   * finalised, and the cache stays as it was. Any other becomes the most recently
   * used one, what was cached follows in its order as far as there is room, and
   * the rest is finalised from the far end.
   */
  lemma ReleaseFacts(c: Conn, s: Stmt, discard: bool)
    ensures
      var c' := Release(c, s, discard);
      if discard || c.max <= 0 then c'.cache == c.cache && c'.finalized == c.finalized + [s.handle]
      else
        var all := [s] + c.cache;
        var n := if |all| <= c.max then |all| else c.max;
        c'.cache == all[..n] && c'.finalized == c.finalized + Reversed(Handles(all[n..]))
  {
    if !(discard || c.max <= 0) {
      var c1 := c.(cache := [s] + c.cache);
      EvictFacts(c1);
      EvictOrder(c1);
    }
  }

  function Reversed(h: seq<nat>): (r: seq<nat>)
    ensures |r| == |h| && forall i | 0 <= i < |h| :: r[i] == h[|h| - 1 - i]
  {
    seq(|h|, i requires 0 <= i < |h| => h[|h| - 1 - i])
  }

  lemma {:induction false} EvictOrder(c: Conn)
    requires c.max >= 0
    ensures |c.cache| <= c.max ==> Evict(c).finalized == c.finalized
    ensures |c.cache| > c.max ==> Evict(c).finalized == c.finalized + Reversed(Handles(c.cache[c.max..]))
    decreases |c.cache|
  {
    if |c.cache| > c.max {
      var n := |c.cache| - 1;
      var c1 := c.(cache := c.cache[..n], finalized := c.finalized + [c.cache[n].handle]);
      EvictOrder(c1);
      if n > c.max {
        assert c.cache[c.max..] == c1.cache[c.max..] + [c.cache[n]];
        assert Reversed(Handles(c.cache[c.max..])) == [c.cache[n].handle] + Reversed(Handles(c1.cache[c.max..]));
      } else {
        assert Reversed(Handles(c.cache[c.max..])) == [c.cache[n].handle];
      }
    }
  }

  // ----- Conservation over arbitrary interleavings -----

  /** An evaluation context: the text still to run and the statement it holds. */
  datatype Ctx = Ctx(rest: string, held: Option<Stmt>)

  /** A connection with any number of evaluation contexts open on it. */
  datatype System = System(conn: Conn, ctxs: seq<Ctx>)

  /** The steps that contexts, callbacks and cache commands can interleave. */
  datatype Op =
    | Open(script: string)                 // dbEvalInit
    | Prepare(i: nat)                      // dbEvalStep takes up the next statement
    | Done(i: nat, failed: bool)           // dbEvalStep is through with a statement
    | Again(i: nat, script: string)        // dbEvalStep goes back to where the statement began
    | Finalize(i: nat)                     // dbEvalFinalize
    | FlushCache
    | ResizeCache(n: int)

  function Apply(prepare: Prepare, s: System, op: Op): System
    requires Splits(prepare)
  {
    match op
    case Open(script) => s.(ctxs := s.ctxs + [Ctx(script, None)])
    case Prepare(i) =>
      if i < |s.ctxs| && s.ctxs[i].held.None? && s.ctxs[i].rest != "" then
        var (c, a) := Acquire(prepare, s.conn, s.ctxs[i].rest);
        System(c, s.ctxs[i := Ctx(a.rest, if a.Got? then Some(a.stmt) else None)])
      else s
    case Done(i, failed) =>
      if i < |s.ctxs| && s.ctxs[i].held.Some? then
        System(Release(s.conn, s.ctxs[i].held.value, failed), s.ctxs[i := s.ctxs[i].(held := None)])
      else s
    case Again(i, script) =>
      if i < |s.ctxs| then s.(ctxs := s.ctxs[i := s.ctxs[i].(rest := script)]) else s
    case Finalize(i) =>
      if i < |s.ctxs| && s.ctxs[i].held.Some? then
        System(Release(s.conn, s.ctxs[i].held.value, false), s.ctxs[i := s.ctxs[i].(held := None)])
      else s
    case FlushCache => s.(conn := Flush(s.conn))
    case ResizeCache(n) => s.(conn := Resize(s.conn, n))
  }

  function Run(prepare: Prepare, s: System, ops: seq<Op>): System
    requires Splits(prepare)
  {
    if ops == [] then s else Apply(prepare, Run(prepare, s, ops[..|ops| - 1]), ops[|ops| - 1])
  }

  function HeldBy(c: Ctx): multiset<nat>
  {
    if c.held.Some? then multiset{c.held.value.handle} else multiset{}
  }

  function Held(ctxs: seq<Ctx>): multiset<nat>
  {
    if ctxs == [] then multiset{} else Held(ctxs[..|ctxs| - 1]) + HeldBy(ctxs[|ctxs| - 1])
  }

  function Issued(n: nat): multiset<nat>
  {
    if n == 0 then multiset{} else Issued(n - 1) + multiset{n - 1}
  }

  /** Every handle ever given out is in exactly one place: cached, held by someone, or finalised. */
  ghost predicate AccountedWith(c: Conn, held: multiset<nat>)
  {
    multiset(Handles(c.cache)) + held + multiset(c.finalized) == Issued(c.issued)
  }

  ghost predicate Accounted(s: System)
  {
    AccountedWith(s.conn, Held(s.ctxs))
  }

  const OPENED := System(Conn([], NUM_PREPARED_STMTS, 0, []), [])

  lemma Exchange(p': multiset<nat>, a: multiset<nat>, p: multiset<nat>, c: multiset<nat>, x: multiset<nat>)
    requires p' + a == p + c
    ensures p' + x + a == p + x + c
  {
    forall h
      ensures (p' + x + a)[h] == (p + x + c)[h]
    {
      assert (p' + a)[h] == (p + c)[h];
    }
  }

  lemma {:induction false} HeldUpdate(ctxs: seq<Ctx>, i: nat, c: Ctx)
    requires i < |ctxs|
    ensures Held(ctxs[i := c]) + HeldBy(ctxs[i]) == Held(ctxs) + HeldBy(c)
  {
    hide HeldBy;
    var n := |ctxs| - 1;
    if i == n {
      assert ctxs[i := c][..n] == ctxs[..n];
      Exchange(Held(ctxs[..n]), multiset{}, Held(ctxs[..n]), multiset{}, HeldBy(c) + HeldBy(ctxs[n]));
    } else {
      assert ctxs[i := c][..n] == ctxs[..n][i := c];
      HeldUpdate(ctxs[..n], i, c);
      Exchange(Held(ctxs[..n][i := c]), HeldBy(ctxs[i]), Held(ctxs[..n]), HeldBy(c), HeldBy(ctxs[n]));
    }
  }

  lemma AcquireHandles(prepare: Prepare, c: Conn, z: string)
    requires Splits(prepare)
    ensures
      var (c', a) := Acquire(prepare, c, z);
      && c'.finalized == c.finalized && c'.max == c.max
      && multiset(Handles(c'.cache)) + HeldIn(a) + Issued(c.issued) == multiset(Handles(c.cache)) + Issued(c'.issued)
  {
    var k := Find(c.cache, SkipSpaces(z));
    if k < |c.cache| {
      WithoutHandles(c.cache, k);
    } else {
      ConsumesWithin(prepare, SkipSpaces(z));
    }
  }

  lemma TakenOut(a: multiset<nat>, b: multiset<nat>, f: multiset<nat>, n: multiset<nat>,
                 a': multiset<nat>, b': multiset<nat>, n': multiset<nat>, g: multiset<nat>)
    requires a + b + f == n && a' + g + n == a + n' && b' == b + g
    ensures a' + b' + f == n'
  {
    forall h
      ensures (a' + b' + f)[h] == n'[h]
    {
      assert (a + b + f)[h] == n[h] && (a' + g + n)[h] == (a + n')[h];
    }
  }

  lemma PutBack(a: multiset<nat>, b: multiset<nat>, f: multiset<nat>, n: multiset<nat>,
                a': multiset<nat>, b': multiset<nat>, f': multiset<nat>, g: multiset<nat>)
    requires a + b + f == n && a' + f' == a + f + g && b' + g == b
    ensures a' + b' + f' == n
  {
    forall h
      ensures (a' + b' + f')[h] == n[h]
    {
      assert (a' + f')[h] == (a + f + g)[h] && (a + b + f)[h] == n[h] && (b' + g)[h] == b[h];
    }
  }

  function HeldIn(a: Answer): multiset<nat>
  {
    if a.Got? then multiset{a.stmt.handle} else multiset{}
  }

  lemma AcquireAccounts(prepare: Prepare, c: Conn, z: string, held: multiset<nat>)
    requires Splits(prepare) && AccountedWith(c, held)
    ensures
      var (c', a) := Acquire(prepare, c, z);
      AccountedWith(c', held + HeldIn(a))
  {
    hide Acquire, Handles, Issued, Splits;
    var (c', a) := Acquire(prepare, c, z);
    AcquireHandles(prepare, c, z);
    TakenOut(multiset(Handles(c.cache)), held, multiset(c.finalized), Issued(c.issued),
             multiset(Handles(c'.cache)), held + HeldIn(a), Issued(c'.issued), HeldIn(a));
  }

  lemma ReleaseAccounts(c: Conn, s: Stmt, discard: bool, held: multiset<nat>, held': multiset<nat>)
    requires AccountedWith(c, held) && held' + multiset{s.handle} == held
    ensures AccountedWith(Release(c, s, discard), held')
  {
    hide Release, Handles, Issued;
    var c' := Release(c, s, discard);
    ReleaseHandles(c, s, discard);
    PutBack(multiset(Handles(c.cache)), held, multiset(c.finalized), Issued(c.issued),
            multiset(Handles(c'.cache)), held', multiset(c'.finalized), multiset{s.handle});
  }

  lemma PrepareAccounts(prepare: Prepare, s: System, i: nat)
    requires Splits(prepare) && Accounted(s)
    ensures Accounted(Apply(prepare, s, Prepare(i)))
  {
    hide Acquire, Held, AccountedWith, Splits;
    var s' := Apply(prepare, s, Prepare(i));
    if i < |s.ctxs| && s.ctxs[i].held.None? && s.ctxs[i].rest != "" {
      AcquireAccounts(prepare, s.conn, s.ctxs[i].rest, Held(s.ctxs));
      HeldUpdate(s.ctxs, i, s'.ctxs[i]);
      assert Held(s'.ctxs) == Held(s.ctxs) + HeldIn(Acquire(prepare, s.conn, s.ctxs[i].rest).1);
    }
  }

  lemma DoneAccounts(prepare: Prepare, s: System, i: nat, failed: bool)
    requires Splits(prepare) && Accounted(s)
    ensures Accounted(Apply(prepare, s, Done(i, failed)))
  {
    hide Release, Held, AccountedWith, Splits;
    var s' := Apply(prepare, s, Done(i, failed));
    if i < |s.ctxs| && s.ctxs[i].held.Some? {
      HeldUpdate(s.ctxs, i, s'.ctxs[i]);
      ReleaseAccounts(s.conn, s.ctxs[i].held.value, failed, Held(s.ctxs), Held(s'.ctxs));
    }
  }

  lemma AgainAccounts(s: System, i: nat, script: string)
    requires Accounted(s)
    ensures i < |s.ctxs| ==> Accounted(s.(ctxs := s.ctxs[i := s.ctxs[i].(rest := script)]))
  {
    hide Held, HeldBy;
    if i < |s.ctxs| {
      var c, c' := s.ctxs[i], s.ctxs[i].(rest := script);
      HeldUpdate(s.ctxs, i, c');
      assert HeldBy(c) == HeldBy(c') by {
        HeldByHeld(c, c');
      }
      forall h
        ensures Held(s.ctxs[i := c'])[h] == Held(s.ctxs)[h]
      {
        assert (Held(s.ctxs[i := c']) + HeldBy(c))[h] == (Held(s.ctxs) + HeldBy(c))[h];
      }
    }
  }

  lemma HeldByHeld(c: Ctx, c': Ctx)
    requires c.held == c'.held
    ensures HeldBy(c) == HeldBy(c')
  {
  }

  lemma FlushAccounts(s: System)
    requires Accounted(s)
    ensures Accounted(s.(conn := Flush(s.conn)))
  {
    assert Handles([]) == [];
  }

  lemma ResizeAccounts(s: System, n: int)
    requires Accounted(s)
    ensures Accounted(s.(conn := Resize(s.conn, n)))
  {
    hide Held, Handles, Issued;
    FlushAccounts(s);
  }

  lemma OpenAccounts(s: System, script: string)
    requires Accounted(s)
    ensures Accounted(s.(ctxs := s.ctxs + [Ctx(script, None)]))
  {
    assert (s.ctxs + [Ctx(script, None)])[..|s.ctxs|] == s.ctxs;
  }

  lemma ApplyAccounts(prepare: Prepare, s: System, op: Op)
    requires Splits(prepare) && Accounted(s)
    ensures Accounted(Apply(prepare, s, op))
  {
    hide Accounted, Acquire, Release, Flush, Resize;
    match op
    case Open(script) => OpenAccounts(s, script);
    case Prepare(i) => PrepareAccounts(prepare, s, i);
    case Done(i, failed) => DoneAccounts(prepare, s, i, failed);
    case Again(i, script) => AgainAccounts(s, i, script);
    case Finalize(i) => DoneAccounts(prepare, s, i, false);
    case FlushCache => FlushAccounts(s);
    case ResizeCache(n) => ResizeAccounts(s, n);
  }

  /**
   * Conservation: over every interleaving of any number of contexts with
   * flushes and resizes, each handle is in exactly one place.
   */
  lemma {:induction false} EveryRunAccounts(prepare: Prepare, ops: seq<Op>)
    requires Splits(prepare)
    ensures Accounted(Run(prepare, OPENED, ops))
  {
    if ops != [] {
      hide Apply;
      EveryRunAccounts(prepare, ops[..|ops| - 1]);
      ApplyAccounts(prepare, Run(prepare, OPENED, ops[..|ops| - 1]), ops[|ops| - 1]);
    } else {
      assert Handles([]) == [];
    }
  }

  lemma {:induction false} IssuedOnce(n: nat, h: nat)
    ensures Issued(n)[h] == if h < n then 1 else 0
  {
    if n > 0 {
      IssuedOnce(n - 1, h);
    }
  }

  lemma {:induction false} HeldCounts(ctxs: seq<Ctx>, i: nat)
    requires i < |ctxs| && ctxs[i].held.Some?
    ensures Held(ctxs)[ctxs[i].held.value.handle] >= 1
  {
    var n := |ctxs| - 1;
    if i < n {
      HeldCounts(ctxs[..n], i);
    }
  }

  lemma {:induction false} HeldTwice(ctxs: seq<Ctx>, i: nat, j: nat)
    requires i < j < |ctxs| && ctxs[i].held.Some? && ctxs[j].held.Some?
    requires ctxs[i].held.value.handle == ctxs[j].held.value.handle
    ensures Held(ctxs)[ctxs[i].held.value.handle] >= 2
  {
    var n := |ctxs| - 1;
    if j < n {
      HeldTwice(ctxs[..n], i, j);
    } else {
      HeldCounts(ctxs[..n], i);
    }
  }

  /** What the accounting means for a held statement: no one else has it, and it is alive. */
  lemma HeldIsExclusive(s: System, i: nat)
    requires Accounted(s) && i < |s.ctxs| && s.ctxs[i].held.Some?
    ensures
      var h := s.ctxs[i].held.value.handle;
      && h < s.conn.issued
      && h !in s.conn.finalized
      && h !in Handles(s.conn.cache)
      && forall j | 0 <= j < |s.ctxs| && j != i && s.ctxs[j].held.Some? :: s.ctxs[j].held.value.handle != h
  {
    var h := s.ctxs[i].held.value.handle;
    IssuedOnce(s.conn.issued, h);
    HeldCounts(s.ctxs, i);
    var a, b, c := multiset(Handles(s.conn.cache)), Held(s.ctxs), multiset(s.conn.finalized);
    assert (a + b + c)[h] == a[h] + b[h] + c[h];
    forall j | 0 <= j < |s.ctxs| && j != i && s.ctxs[j].held.Some?
      ensures s.ctxs[j].held.value.handle != h
    {
      if s.ctxs[j].held.value.handle == h {
        HeldTwice(s.ctxs, if i < j then i else j, if i < j then j else i);
        assert false;
      }
    }
  }

  /** Nothing is finalised twice, and what is cached is alive. */
  lemma FinalizedOnce(s: System, h: nat)
    requires Accounted(s)
    ensures multiset(s.conn.finalized)[h] <= 1
    ensures h in Handles(s.conn.cache) ==> h !in s.conn.finalized && multiset(Handles(s.conn.cache))[h] == 1
  {
    IssuedOnce(s.conn.issued, h);
    var a, b, c := multiset(Handles(s.conn.cache)), Held(s.ctxs), multiset(s.conn.finalized);
    assert (a + b + c)[h] == a[h] + b[h] + c[h];
  }

  /** Once every context is through and the cache is flushed, every statement has been finalised. */
  lemma {:induction false} NothingLeaks(prepare: Prepare, s: System, h: nat)
    requires Splits(prepare) && Accounted(s)
    requires forall i | 0 <= i < |s.ctxs| :: s.ctxs[i].held.None?
    ensures multiset(Apply(prepare, s, FlushCache).conn.finalized)[h] == if h < s.conn.issued then 1 else 0
  {
    NothingHeld(s.ctxs);
    ApplyAccounts(prepare, s, FlushCache);
    assert Handles([]) == [];
    IssuedOnce(s.conn.issued, h);
  }

  lemma {:induction false} NothingHeld(ctxs: seq<Ctx>)
    requires forall i | 0 <= i < |ctxs| :: ctxs[i].held.None?
    ensures Held(ctxs) == multiset{}
  {
    if ctxs != [] {
      NothingHeld(ctxs[..|ctxs| - 1]);
    }
  }

  // ----- Bounds -----

  ghost predicate Bounded(prepare: Prepare, c: Conn)
  {
    && 0 <= c.max <= MAX_PREPARED_STMTS
    && |c.cache| <= MAX_PREPARED_STMTS
    && forall i | 0 <= i < |c.cache| :: IsStatement(prepare, c.cache[i].text)
  }

  ghost predicate Sound(prepare: Prepare, s: System)
  {
    && Bounded(prepare, s.conn)
    && forall i | 0 <= i < |s.ctxs| && s.ctxs[i].held.Some? :: IsStatement(prepare, s.ctxs[i].held.value.text)
  }

  lemma AcquireBounded(prepare: Prepare, c: Conn, z: string)
    requires Splits(prepare) && Bounded(prepare, c)
    ensures
      var (c', a) := Acquire(prepare, c, z);
      Bounded(prepare, c') && (a.Got? ==> IsStatement(prepare, a.stmt.text)) && |a.rest| <= |z|
  {
    var t := SkipSpaces(z);
    if Find(c.cache, t) == |c.cache| {
      assert WithinText(prepare(t), t);
      if prepare(t).Statement? {
        CutTextIsStatement(prepare, t);
      }
    }
  }

  lemma ReleaseBounded(prepare: Prepare, c: Conn, s: Stmt, discard: bool)
    requires Bounded(prepare, c) && IsStatement(prepare, s.text)
    ensures Bounded(prepare, Release(c, s, discard))
    ensures c.max > 0 && !discard ==> |Release(c, s, discard).cache| <= c.max
  {
    if !(c.max <= 0 || discard) {
      EvictFacts(c.(cache := [s] + c.cache));
    }
  }

  lemma ResizeBounded(prepare: Prepare, c: Conn, n: int)
    requires Bounded(prepare, c)
    ensures Bounded(prepare, Flush(c)) && Bounded(prepare, Resize(c, n))
  {
  }

  lemma ApplySound(prepare: Prepare, s: System, op: Op)
    requires Splits(prepare) && Sound(prepare, s)
    ensures Sound(prepare, Apply(prepare, s, op))
  {
    hide Acquire, Release;
    match op
    case Open(_) =>
    case Prepare(i) =>
      if i < |s.ctxs| {
        AcquireBounded(prepare, s.conn, s.ctxs[i].rest);
      }
    case Done(i, failed) =>
      if i < |s.ctxs| && s.ctxs[i].held.Some? {
        ReleaseBounded(prepare, s.conn, s.ctxs[i].held.value, failed);
      }
    case Again(_, _) =>
    case Finalize(i) =>
      if i < |s.ctxs| && s.ctxs[i].held.Some? {
        ReleaseBounded(prepare, s.conn, s.ctxs[i].held.value, false);
      }
    case FlushCache =>
    case ResizeCache(_) =>
  }

  /** In every reachable state the cache is within bounds and holds only texts that were cut off as statements. */
  lemma {:induction false} EveryRunSound(prepare: Prepare, ops: seq<Op>)
    requires Splits(prepare)
    ensures Sound(prepare, Run(prepare, OPENED, ops))
  {
    if ops != [] {
      hide Apply, Sound;
      EveryRunSound(prepare, ops[..|ops| - 1]);
      ApplySound(prepare, Run(prepare, OPENED, ops[..|ops| - 1]), ops[|ops| - 1]);
    }
  }

  // ----- Clean caches -----

  /** No cached text ends in a semicolon that terminates nothing. */
  ghost predicate CleanCache(prepare: Prepare, c: Conn)
  {
    forall i | 0 <= i < |c.cache| :: CleanText(prepare, c.cache[i].text)
  }

  lemma AcquireClean(prepare: Prepare, c: Conn, z: string)
    requires Splits(prepare) && CleanCache(prepare, c)
    ensures CleanCache(prepare, Acquire(prepare, c, z).0)
  {
    hide CleanText;
    assert WithinText(prepare(SkipSpaces(z)), SkipSpaces(z));
  }

  lemma ReleaseClean(prepare: Prepare, c: Conn, s: Stmt, discard: bool)
    requires CleanCache(prepare, c) && CleanText(prepare, s.text)
    ensures CleanCache(prepare, Release(c, s, discard))
  {
    hide CleanText;
    if !(c.max <= 0 || discard) {
      EvictFacts(c.(cache := [s] + c.cache));
    }
  }
}
