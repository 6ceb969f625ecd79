/** Back-to-back uses of the cache keep the most recently used statements. */
module LruSpec {
  import opened Basics
  import opened SqlText
  import opened CacheSpec

  function IndexOf<T(==)>(s: seq<T>, x: T): (k: nat)
    ensures k <= |s|
    ensures k < |s| ==> s[k] == x
    ensures forall i | 0 <= i < k :: s[i] != x
  {
    if s == [] || s[0] == x then 0 else 1 + IndexOf(s[1..], x)
  }

  function Remove<T(==)>(s: seq<T>, x: T): seq<T>
  {
    var k := IndexOf(s, x);
    if k < |s| then Without(s, k) else s
  }

  function Take<T>(s: seq<T>, n: nat): seq<T>
  {
    if |s| <= n then s else s[..n]
  }

  /** The distinct members of `uses`, the most recently used one first. */
  function Recent<T(==)>(uses: seq<T>): seq<T>
  {
    if uses == [] then []
    else [uses[|uses| - 1]] + Remove(Recent(uses[..|uses| - 1]), uses[|uses| - 1])
  }

  function LastUse<T(==)>(uses: seq<T>, x: T): (k: nat)
    requires x in uses
    ensures k < |uses| && uses[k] == x && forall i | k < i < |uses| :: uses[i] != x
  {
    if uses[|uses| - 1] == x then |uses| - 1 else LastUse(uses[..|uses| - 1], x)
  }

  ghost predicate Distinct<T>(s: seq<T>)
  {
    forall i, j | 0 <= i < j < |s| :: s[i] != s[j]
  }

  lemma RemoveDistinct<T>(s: seq<T>, x: T)
    requires Distinct(s)
    ensures Distinct(Remove(s, x))
  {
  }

  lemma RemoveHas<T>(s: seq<T>, x: T, y: T)
    requires Distinct(s)
    ensures y in Remove(s, x) <==> y in s && y != x
  {
    var k := IndexOf(s, x);
    if k < |s| {
      assert s == s[..k] + [x] + s[k + 1..];
    }
  }

  lemma RemoveIsFilter<T>(s: seq<T>, x: T, i: nat)
    requires i < |Remove(s, x)|
    ensures Remove(s, x)[i] == if i < IndexOf(s, x) then s[i] else s[i + 1]
  {
  }

  /** `Recent` is what it is called: no repeats ... */
  lemma {:induction false} RecentDistinct<T>(uses: seq<T>)
    ensures Distinct(Recent(uses))
  {
    if uses != [] {
      hide Remove, IndexOf;
      var r, x := Recent(uses[..|uses| - 1]), uses[|uses| - 1];
      RecentDistinct(uses[..|uses| - 1]);
      RemoveDistinct(r, x);
      RemoveHas(r, x, x);
    }
  }

  /** ... the same members ... */
  lemma {:induction false} RecentHas<T>(uses: seq<T>, x: T)
    ensures x in Recent(uses) <==> x in uses
  {
    hide Remove, Distinct;
    if uses != [] {
      var before, y := uses[..|uses| - 1], uses[|uses| - 1];
      RecentHas(before, x);
      RecentDistinct(before);
      RemoveHas(Recent(before), y, x);
      assert uses == before + [y];
    }
  }

  lemma LastUseBefore<T>(uses: seq<T>, y: T)
    requires uses != [] && y in uses && y != uses[|uses| - 1]
    ensures y in uses[..|uses| - 1] && LastUse(uses, y) == LastUse(uses[..|uses| - 1], y)
  {
    assert uses == uses[..|uses| - 1] + [uses[|uses| - 1]];
  }

  /** An entry behind the first one: where it stood before the last use. */
  lemma RecentBefore<T>(uses: seq<T>, i: nat) returns (i0: nat)
    requires 0 < i < |Recent(uses)|
    ensures
      var before, x := uses[..|uses| - 1], uses[|uses| - 1];
      && i0 < |Recent(before)| && i0 == (if i - 1 < IndexOf(Recent(before), x) then i - 1 else i)
      && Recent(uses)[i] == Recent(before)[i0]
      && Recent(uses)[i] in before
      && Recent(uses)[i] in uses
      && LastUse(uses, Recent(uses)[i]) == LastUse(before, Recent(before)[i0]) < |uses| - 1
  {
    var before, x := uses[..|uses| - 1], uses[|uses| - 1];
    var y := Recent(uses)[i];
    BehindFirst(uses, i);
    hide Recent, Remove, Distinct;
    RecentHas(uses, y);
    RecentHas(before, y);
    LastUseBefore(uses, y);
    i0 := if i - 1 < IndexOf(Recent(before), x) then i - 1 else i;
  }

  lemma BehindFirst<T>(uses: seq<T>, i: nat)
    requires 0 < i < |Recent(uses)|
    ensures
      var before, x := uses[..|uses| - 1], uses[|uses| - 1];
      var i0 := if i - 1 < IndexOf(Recent(before), x) then i - 1 else i;
      uses != [] && Recent(uses)[i] != x && i0 < |Recent(before)| && Recent(uses)[i] == Recent(before)[i0]
  {
    var before, x := uses[..|uses| - 1], uses[|uses| - 1];
    RecentDistinct(uses);
    assert Recent(uses)[0] == x;
    RemoveIsFilter(Recent(before), x, i - 1);
  }

  /** ... and ordered by last use. */
  lemma {:induction false} RecentIsByLastUse<T>(uses: seq<T>, i: nat, j: nat)
    requires i < j < |Recent(uses)|
    ensures Recent(uses)[i] in uses && Recent(uses)[j] in uses
    ensures LastUse(uses, Recent(uses)[i]) > LastUse(uses, Recent(uses)[j])
    decreases |uses|
  {
    var j0 := RecentBefore(uses, j);
    if i > 0 {
      var i0 := RecentBefore(uses, i);
      RecentIsByLastUse(uses[..|uses| - 1], i0, j0);
    }
  }

  lemma IndexInPrefix<T>(r: seq<T>, x: T, n: nat)
    requires n <= |r|
    ensures IndexOf(r[..n], x) == if IndexOf(r, x) < n then IndexOf(r, x) else n
  {
    var k, k' := IndexOf(r, x), IndexOf(r[..n], x);
    if k < n {
      assert r[..n][k] == x;
      assert k' <= k;
    }
    if k' < n {
      assert r[k'] == x;
      assert k <= k';
    }
  }

  lemma TakeCons<T>(x: T, s: seq<T>, n: nat)
    requires 0 < n <= |s| + 1
    ensures Take([x] + s, n) == [x] + s[..n - 1]
  {
  }

  lemma WithoutInPrefix<T>(r: seq<T>, k: nat, n: nat)
    requires k < |r| && 0 < n < |r|
    ensures Without(r, k)[..n - 1] == if k < n then Without(r[..n], k) else r[..n - 1]
  {
  }

  lemma TakeAfterUse<T>(r: seq<T>, x: T, n: nat)
    requires n > 0
    ensures Take([x] + Remove(Take(r, n), x), n) == Take([x] + Remove(r, x), n)
  {
    if |r| > n {
      IndexInPrefix(r, x, n);
      var k := IndexOf(r, x);
      if k < |r| {
        WithoutInPrefix(r, k, n);
      }
      LengthWithout(r, x);
      LengthWithout(r[..n], x);
      hide IndexOf, Without;
      TakeCons(x, Remove(r, x), n);
      TakeCons(x, Remove(r[..n], x), n);
    }
  }

  lemma LengthWithout<T>(s: seq<T>, x: T)
    ensures |Remove(s, x)| == if IndexOf(s, x) < |s| then |s| - 1 else |s|
  {
  }

  /** One back-to-back acquire and release. */
  function Use(prepare: Prepare, c: Conn, z: string): Conn
    requires Splits(prepare)
  {
    var (c', a) := Acquire(prepare, c, z);
    if a.Got? then Release(c', a.stmt, false) else c'
  }

  function UseAll(prepare: Prepare, c: Conn, zs: seq<string>): Conn
    requires Splits(prepare)
  {
    if zs == [] then c else Use(prepare, UseAll(prepare, c, zs[..|zs| - 1]), zs[|zs| - 1])
  }

  /** The statement texts that fresh preparations of `zs` would cut off. */
  function FreshTexts(prepare: Prepare, zs: seq<string>): seq<string>
    requires Splits(prepare)
  {
    if zs == [] then []
    else
      var z := SkipSpaces(zs[|zs| - 1]);
      assert WithinText(prepare(z), z);
      FreshTexts(prepare, zs[..|zs| - 1]) + (if prepare(z).Statement? then [z[..prepare(z).n]] else [])
  }

  /** A hit finds exactly the text a fresh preparation would cut off, and finds it whenever it is cached. */
  lemma FindIsIndexOf(prepare: Prepare, c: Conn, z: string)
    requires Splits(prepare) && CleanCache(prepare, c) && Bounded(prepare, c)
    ensures Find(c.cache, z) < |c.cache| ==> prepare(z).Statement?
    ensures WithinText(prepare(z), z)
    ensures prepare(z).Statement? ==> Find(c.cache, z) == IndexOf(Texts(c.cache), z[..prepare(z).n])
  {
    hide Splits, CleanText;
    var k := Find(c.cache, z);
    ConsumesWithin(prepare, z);
    if k < |c.cache| {
      assert IsStatement(prepare, c.cache[k].text);
      HitIsFresh(prepare, c.cache[k].text, z);
      assert Texts(c.cache)[k] == z[..prepare(z).n];
    }
    if prepare(z).Statement? {
      hide Bounded, IsStatement;
      var t := z[..prepare(z).n];
      var j := IndexOf(Texts(c.cache), t);
      if j < |c.cache| {
        assert Texts(c.cache)[j] == c.cache[j].text;
        assert Matches(t, z);
      }
    }
  }

  lemma TextsWithout(cache: seq<Stmt>, k: nat)
    requires k < |cache|
    ensures Texts(Without(cache, k)) == Without(Texts(cache), k)
  {
  }

  /** Acquiring takes the fresh text out of the cache, if it is there. */
  lemma AcquireOnTexts(prepare: Prepare, c: Conn, zIn: string)
    requires Splits(prepare) && CleanCache(prepare, c) && Bounded(prepare, c)
    ensures
      var z := SkipSpaces(zIn);
      var p, (c', a) := prepare(z), Acquire(prepare, c, zIn);
      && WithinText(p, z)
      && a.Got? == p.Statement?
      && c'.max == c.max
      && if a.Got? then a.stmt.text == z[..p.n] && Texts(c'.cache) == Remove(Texts(c.cache), z[..p.n])
         else c' == c
  {
    hide Splits, CleanCache, Bounded;
    var z := SkipSpaces(zIn);
    FindIsIndexOf(prepare, c, z);
    var k := Find(c.cache, z);
    if k < |c.cache| {
      TextsWithout(c.cache, k);
      assert Texts(c.cache)[k] == c.cache[k].text;
    }
  }

  lemma ReleaseOnTexts(c: Conn, s: Stmt)
    requires c.max >= 1
    ensures Texts(Release(c, s, false).cache) == Take([s.text] + Texts(c.cache), c.max)
    ensures Release(c, s, false).max == c.max
  {
    var c' := c.(cache := [s] + c.cache);
    EvictFacts(c');
    assert Texts(c'.cache) == [s.text] + Texts(c.cache);
    if |c'.cache| > c.max {
      assert Texts(c'.cache[..c.max]) == Texts(c'.cache)[..c.max];
    }
  }

  /** One use puts the text it runs in front, takes its old place away, and cuts the far end off. */
  lemma UseOnTexts(prepare: Prepare, c: Conn, z: string)
    requires Splits(prepare) && CleanCache(prepare, c) && Bounded(prepare, c) && c.max >= 1
    ensures
      var c' := Use(prepare, c, z);
      var p := prepare(SkipSpaces(z));
      && Bounded(prepare, c') && c'.max == c.max
      && WithinText(p, SkipSpaces(z))
      && (!p.Statement? ==> c' == c)
      && (p.Statement? ==>
           var x := SkipSpaces(z)[..p.n];
           && Texts(c'.cache) == Take([x] + Remove(Texts(c.cache), x), c.max)
           && (CleanText(prepare, x) ==> CleanCache(prepare, c')))
  {
    hide Splits, CleanCache, CleanText, Bounded, Acquire, Release, Take, Remove, Texts, WithinText;
    AcquireOnTexts(prepare, c, z);
    AcquireBounded(prepare, c, z);
    AcquireClean(prepare, c, z);
    var (c', a) := Acquire(prepare, c, z);
    if a.Got? {
      if CleanText(prepare, a.stmt.text) {
        ReleaseClean(prepare, c', a.stmt, false);
      }
      ReleaseBounded(prepare, c', a.stmt, false);
      ReleaseOnTexts(c', a.stmt);
    }
  }

  /** The texts cut off by all uses but the last, and by the last. */
  lemma FreshTextsLast(prepare: Prepare, zs: seq<string>)
    requires Splits(prepare) && zs != []
    ensures
      var z, before := SkipSpaces(zs[|zs| - 1]), FreshTexts(prepare, zs[..|zs| - 1]);
      && WithinText(prepare(z), z)
      && FreshTexts(prepare, zs) == if prepare(z).Statement? then before + [z[..prepare(z).n]] else before
  {
    var z := SkipSpaces(zs[|zs| - 1]);
    ConsumesWithin(prepare, z);
    hide Splits;
    assert FreshTexts(prepare, zs[..|zs| - 1]) + [] == FreshTexts(prepare, zs[..|zs| - 1]);
  }

  /**
   * After any back-to-back uses at a fixed limit of at least one, the cache is
   * the most recently used distinct statements, most recent first, provided
   * that no statement used ends in a semicolon inside a comment.
   */
  lemma {:induction false} CacheIsMostRecent(prepare: Prepare, max: int, issued: nat, finalized: seq<nat>,
                                             zs: seq<string>)
    requires Splits(prepare) && 1 <= max <= MAX_PREPARED_STMTS
    requires forall i | 0 <= i < |FreshTexts(prepare, zs)| :: CleanText(prepare, FreshTexts(prepare, zs)[i])
    ensures
      var c := UseAll(prepare, Conn([], max, issued, finalized), zs);
      && Bounded(prepare, c) && CleanCache(prepare, c) && c.max == max
      && Texts(c.cache) == Take(Recent(FreshTexts(prepare, zs)), max)
  {
    hide Splits, CleanText, Use, Take, Remove, SkipSpaces, FreshTexts;
    if zs != [] {
      var n := |zs| - 1;
      var all, uses := FreshTexts(prepare, zs), FreshTexts(prepare, zs[..n]);
      FreshTextsLast(prepare, zs);
      assert forall i | 0 <= i < |uses| :: uses[i] == all[i];
      CacheIsMostRecent(prepare, max, issued, finalized, zs[..n]);
      var c := UseAll(prepare, Conn([], max, issued, finalized), zs[..n]);
      var z := SkipSpaces(zs[n]);
      UseOnTexts(prepare, c, zs[n]);
      if prepare(z).Statement? {
        var x := z[..prepare(z).n];
        assert all[|uses|] == x;
        TakeAfterUse(Recent(uses), x, max);
        assert (uses + [x])[..|uses|] == uses;
      }
    } else {
      NothingTaken<string>(max);
      NoUses(prepare);
    }
  }

  lemma NoUses(prepare: Prepare)
    requires Splits(prepare)
    ensures FreshTexts(prepare, []) == []
  {
  }

  lemma NothingTaken<T>(n: nat)
    ensures Take<T>([], n) == []
  {
  }
}
